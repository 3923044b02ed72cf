/** What the row filter keeps, stated condition by condition, and how its result
    depends on the stage edges, the thresholds and the parse stage. */
module FunnelProperties {
  import opened Wrappers
  import opened CurationConfigs
  import opened RowFilter
  import opened LabelSelection
  import opened RejectsTable
  import opened FilterAsWritten
  import opened LedgerSpec
  import opened LedgerGrowth
  import opened ReasonFill
  import opened LedgerBookkeeping
  import opened RejectLedger

  /** The six threshold conditions written out on the row's fields. */
  predicate InsideThresholds(c: FilterConfig, x: Row) {
    && c.minMaxLl <= x.maxLl <= c.maxLl
    && x.fileSize >= c.minLen
    && x.fileSize / 1024 <= c.maxSizeKbs
    && c.minAlphanum < x.alphanumFrac < c.maxAlphanum
    && x.aveLl > c.minAveLl as real
    && LineEstimateAtLeast(x.fileSize, x.aveLl, c.minLines)
  }

  /** Passing all seven stages is passing each of them by name. */
  lemma AllStages(pass: (Stage, Row) -> bool, x: Row)
    ensures (forall j | 0 <= j < |Stages| :: pass(Stages[j], x)) <==>
      && pass(LineLengthWindow, x) && pass(MinSize, x) && pass(MaxSize, x)
      && pass(AlphanumWindow, x) && pass(MinAveLineLength, x) && pass(MinLines, x)
      && pass(Python2, x)
  {
    assert Stages[0] == LineLengthWindow && Stages[1] == MinSize && Stages[2] == MaxSize;
    assert Stages[3] == AlphanumWindow && Stages[4] == MinAveLineLength && Stages[5] == MinLines;
    assert Stages[6] == Python2;
  }

  lemma ThresholdsByName(c: FilterConfig, x: Row)
    ensures InsideThresholds(c, x) <==>
      && MeetsThreshold(c, LineLengthWindow, x) && MeetsThreshold(c, MinSize, x)
      && MeetsThreshold(c, MaxSize, x) && MeetsThreshold(c, AlphanumWindow, x)
      && MeetsThreshold(c, MinAveLineLength, x) && MeetsThreshold(c, MinLines, x)
  {
  }

  /** As written, a row is kept exactly when it lies inside every threshold and its
      content does NOT parse. */
  lemma {:induction false} KeptAsWrittenIff(rows: seq<Row>, c: FilterConfig, parse: string -> ParseOutcome, x: Row)
    ensures x in Survivors(rows, AsWritten(c, parse), |Stages|) <==>
      x in rows && InsideThresholds(c, x) && parse(x.content) != Parsed
  {
    var pass := AsWritten(c, parse);
    FirstFailAtLeast(pass, x, |Stages|);
    AllStages(pass, x);
    ThresholdsByName(c, x);
  }

  /** As the comments describe it, a row is kept exactly when it lies inside every
      threshold and its content parses. */
  lemma {:induction false} KeptAsCommentedIff(rows: seq<Row>, c: FilterConfig, parse: string -> ParseOutcome, x: Row)
    ensures x in Survivors(rows, AsCommented(c, parse), |Stages|) <==>
      x in rows && InsideThresholds(c, x) && parse(x.content) == Parsed
  {
    var pass := AsCommented(c, parse);
    FirstFailAtLeast(pass, x, |Stages|);
    AllStages(pass, x);
    ThresholdsByName(c, x);
  }

  /** As written, no row whose content parses survives, whatever its statistics. */
  lemma ParseableDropped(rows: seq<Row>, c: FilterConfig, parse: string -> ParseOutcome, x: Row)
    requires parse(x.content) == Parsed
    ensures x !in Survivors(rows, AsWritten(c, parse), |Stages|)
  {
    KeptAsWrittenIff(rows, c, parse, x);
  }

  /** As the comments describe it, a row inside every threshold whose content parses survives. */
  lemma ParseableKept(rows: seq<Row>, c: FilterConfig, parse: string -> ParseOutcome, x: Row)
    requires x in rows && InsideThresholds(c, x) && parse(x.content) == Parsed
    ensures x in Survivors(rows, AsCommented(c, parse), |Stages|)
    ensures x !in Survivors(rows, AsWritten(c, parse), |Stages|)
  {
    KeptAsCommentedIff(rows, c, parse, x);
    KeptAsWrittenIff(rows, c, parse, x);
  }

  /** The two versions differ only at the parse stage: on the rows inside every
      threshold they split the table between them. */
  lemma VersionsComplementary(rows: seq<Row>, c: FilterConfig, parse: string -> ParseOutcome, x: Row)
    requires x in rows && InsideThresholds(c, x)
    ensures x in Survivors(rows, AsWritten(c, parse), |Stages|) <==> x !in Survivors(rows, AsCommented(c, parse), |Stages|)
  {
    KeptAsWrittenIff(rows, c, parse, x);
    KeptAsCommentedIff(rows, c, parse, x);
  }

  /** The size cap is on whole KiB (floor division), so it admits every size below the
      next KiB boundary: `max_size_kbs * 1024 + 1023` bytes pass and
      `(max_size_kbs + 1) * 1024` bytes do not. */
  lemma {:induction false} MaxSizeBoundary(c: FilterConfig, x: Row)
    ensures MeetsThreshold(c, MaxSize, x) <==> x.fileSize < (c.maxSizeKbs + 1) * 1024
  {
    var q, r := x.fileSize / 1024, x.fileSize % 1024;
    assert x.fileSize == q * 1024 + r && 0 <= r < 1024;
    if q <= c.maxSizeKbs {
      assert q * 1024 <= c.maxSizeKbs * 1024;
    } else {
      assert q * 1024 >= (c.maxSizeKbs + 1) * 1024;
    }
  }

  lemma MaxSizeEdges(c: FilterConfig, x: Row, y: Row)
    requires x.fileSize == c.maxSizeKbs * 1024 + 1023
    requires y.fileSize == (c.maxSizeKbs + 1) * 1024
    ensures MeetsThreshold(c, MaxSize, x) && !MeetsThreshold(c, MaxSize, y)
  {
    MaxSizeBoundary(c, x);
    MaxSizeBoundary(c, y);
  }

  /** Which edges of the other windows are open and which are closed. */
  lemma StageEdges(c: FilterConfig, x: Row)
    ensures x.maxLl == c.maxLl && c.minMaxLl <= c.maxLl ==> MeetsThreshold(c, LineLengthWindow, x)
    ensures x.maxLl == c.minMaxLl && c.minMaxLl <= c.maxLl ==> MeetsThreshold(c, LineLengthWindow, x)
    ensures x.fileSize == c.minLen ==> MeetsThreshold(c, MinSize, x)
    ensures x.alphanumFrac == c.minAlphanum || x.alphanumFrac == c.maxAlphanum ==> !MeetsThreshold(c, AlphanumWindow, x)
    ensures x.aveLl == c.minAveLl as real ==> !MeetsThreshold(c, MinAveLineLength, x)
    ensures x.aveLl > 0.0 && x.fileSize as real == c.minLines as real * x.aveLl ==> MeetsThreshold(c, MinLines, x)
  {
  }

  /** pandas divides by a zero average line length without raising: a positive size
      gives +inf and passes the line-count stage; a zero size gives NaN and fails. */
  lemma ZeroAverageLineLength(c: FilterConfig, x: Row)
    requires x.aveLl == 0.0
    ensures MeetsThreshold(c, MinLines, x) <==> x.fileSize > 0
  {
  }

  /** With a non-negative average-line-length bound, every row that reaches the
      line-count stage has a positive average line length, so the estimate there is
      an ordinary division. */
  lemma {:induction false} LineCountDivisorPositive(rows: seq<Row>, pass: (Stage, Row) -> bool, c: FilterConfig, x: Row)
    requires c.minAveLl >= 0
    requires forall s: Stage, y: Row :: s != Python2 ==> pass(s, y) == MeetsThreshold(c, s, y)
    requires x in Survivors(rows, pass, 5)
    ensures x.aveLl > 0.0
    ensures MeetsThreshold(c, MinLines, x) <==> x.fileSize as real / x.aveLl >= c.minLines as real
  {
    FirstFailAtLeast(pass, x, 5);
    assert Stages[4] == MinAveLineLength;
    assert pass(Stages[4], x);
  }

  /** Both versions of the filter use the threshold tests of `c` at stages one to six. */
  lemma VersionsUseThresholds(c: FilterConfig, parse: string -> ParseOutcome)
    ensures forall s: Stage, y: Row :: s != Python2 ==> AsWritten(c, parse)(s, y) == MeetsThreshold(c, s, y)
    ensures forall s: Stage, y: Row :: s != Python2 ==> AsCommented(c, parse)(s, y) == MeetsThreshold(c, s, y)
  {
  }

  /** A looser configuration admits whatever a stricter one admits, stage by stage. */
  lemma ThresholdMonotone(loose: FilterConfig, strict: FilterConfig, s: Stage, x: Row)
    requires NoStricterThan(loose, strict)
    requires MeetsThreshold(strict, s, x)
    ensures MeetsThreshold(loose, s, x)
  {
    if s == MaxSize {
      assert x.fileSize / 1024 <= strict.maxSizeKbs;
    } else if s == MinLines && x.aveLl != 0.0 {
      assert x.fileSize as real / x.aveLl >= strict.minLines as real;
    }
  }

  /** Every row kept under a stricter configuration is kept under a looser one, in
      both versions of the filter; the parse stage does not depend on the thresholds. */
  lemma {:induction false} FunnelMonotone(rows: seq<Row>, loose: FilterConfig, strict: FilterConfig, parse: string -> ParseOutcome)
    requires NoStricterThan(loose, strict)
    ensures forall x | x in Survivors(rows, AsWritten(strict, parse), |Stages|) ::
      x in Survivors(rows, AsWritten(loose, parse), |Stages|)
    ensures forall x | x in Survivors(rows, AsCommented(strict, parse), |Stages|) ::
      x in Survivors(rows, AsCommented(loose, parse), |Stages|)
  {
    forall x | x in Survivors(rows, AsWritten(strict, parse), |Stages|)
      ensures x in Survivors(rows, AsWritten(loose, parse), |Stages|)
    {
      KeptAsWrittenIff(rows, strict, parse, x);
      KeptAsWrittenIff(rows, loose, parse, x);
      ThresholdsMonotone(loose, strict, x);
    }
    forall x | x in Survivors(rows, AsCommented(strict, parse), |Stages|)
      ensures x in Survivors(rows, AsCommented(loose, parse), |Stages|)
    {
      KeptAsCommentedIff(rows, strict, parse, x);
      KeptAsCommentedIff(rows, loose, parse, x);
      ThresholdsMonotone(loose, strict, x);
    }
  }

  lemma ThresholdsMonotone(loose: FilterConfig, strict: FilterConfig, x: Row)
    requires NoStricterThan(loose, strict) && InsideThresholds(strict, x)
    ensures InsideThresholds(loose, x)
  {
    ThresholdsByName(strict, x);
    ThresholdsByName(loose, x);
    ThresholdMonotone(loose, strict, LineLengthWindow, x);
    ThresholdMonotone(loose, strict, MinSize, x);
    ThresholdMonotone(loose, strict, MaxSize, x);
    ThresholdMonotone(loose, strict, AlphanumWindow, x);
    ThresholdMonotone(loose, strict, MinAveLineLength, x);
    ThresholdMonotone(loose, strict, MinLines, x);
  }

  /** Aggressive keeps a subset of what moderate keeps, which keeps a subset of what
      permissive keeps. */
  lemma PresetsMonotone(rows: seq<Row>, parse: string -> ParseOutcome)
    ensures forall x | x in Survivors(rows, AsWritten(Aggressive, parse), |Stages|) ::
      x in Survivors(rows, AsWritten(Moderate, parse), |Stages|)
    ensures forall x | x in Survivors(rows, AsWritten(Moderate, parse), |Stages|) ::
      x in Survivors(rows, AsWritten(Permissive, parse), |Stages|)
    ensures forall x | x in Survivors(rows, AsCommented(Aggressive, parse), |Stages|) ::
      x in Survivors(rows, AsCommented(Moderate, parse), |Stages|)
    ensures forall x | x in Survivors(rows, AsCommented(Moderate, parse), |Stages|) ::
      x in Survivors(rows, AsCommented(Permissive, parse), |Stages|)
  {
    PresetsOrdered();
    FunnelMonotone(rows, Moderate, Aggressive, parse);
    FunnelMonotone(rows, Permissive, Moderate, parse);
  }

  /** Filtering the survivors again keeps all of them. */
  lemma {:induction false} SurvivorsIdempotent(rows: seq<Row>, pass: (Stage, Row) -> bool, k: nat)
    ensures Survivors(Survivors(rows, pass, k), pass, k) == Survivors(rows, pass, k)
  {
    if rows != [] {
      SurvivorsIdempotent(rows[1..], pass, k);
      var rest := Survivors(rows[1..], pass, k);
      if FirstFail(pass, rows[0]) >= k {
        assert ([rows[0]] + rest)[1..] == rest;
      }
    }
  }

  /** The rejects table of the commented version tags a row with the first stage it
      fails: a row outside the line-length window is tagged "max_ll" whatever else it
      fails. */
  lemma {:induction false} FirstFailureTagged(rows: seq<Row>, c: FilterConfig, parse: string -> ParseOutcome, x: Row)
    requires x in rows && !MeetsThreshold(c, LineLengthWindow, x)
    ensures Rejection(x, Some("max_ll")) in Ledger(rows, AsCommented(c, parse), |Stages|)
  {
    var pass := AsCommented(c, parse);
    assert Stages[0] == LineLengthWindow;
    assert FirstFail(pass, x) == 0;
  }

  /** A row that fails nothing except the parse stage is tagged "python2" by the
      commented version. */
  lemma ParseFailureTagged(rows: seq<Row>, c: FilterConfig, parse: string -> ParseOutcome, x: Row)
    requires x in rows && InsideThresholds(c, x) && parse(x.content) != Parsed
    ensures Rejection(x, Some("python2")) in Ledger(rows, AsCommented(c, parse), |Stages|)
  {
    var pass := AsCommented(c, parse);
    KeptAsCommentedIff(rows, c, parse, x);
    FirstFailAtLeast(pass, x, 6);
    AllStages(pass, x);
    ThresholdsByName(c, x);
    assert Stages[0] == LineLengthWindow && Stages[1] == MinSize && Stages[2] == MaxSize;
    assert Stages[3] == AlphanumWindow && Stages[4] == MinAveLineLength && Stages[5] == MinLines;
    assert FirstFail(pass, x) == 6;
  }

  /** A 40-byte row under the moderate preset is rejected as too small by the commented
      version, and simply disappears in the version as written. */
  lemma ScenarioTooSmall(parse: string -> ParseOutcome, content: string)
    ensures var x := Row(0, content, 40, 30, 20.0, 0.5);
      && Survivors([x], AsCommented(Moderate, parse), |Stages|) == []
      && Ledger([x], AsCommented(Moderate, parse), |Stages|) == [Rejection(x, Some("file_too_small"))]
      && Survivors([x], AsWritten(Moderate, parse), |Stages|) == []
  {
    var x := Row(0, content, 40, 30, 20.0, 0.5);
    var pass := AsCommented(Moderate, parse);
    assert Stages[0] == LineLengthWindow && Stages[1] == MinSize;
    assert FirstFail(pass, x) == 1;
    var written := AsWritten(Moderate, parse);
    assert FirstFail(written, x) == 1;
  }

  /** A 200-byte row of parseable content under the moderate preset passes the six
      threshold stages; the commented version keeps it, the version as written drops it
      and records nothing. */
  lemma ScenarioParseable(parse: string -> ParseOutcome)
    requires parse("x=1") == Parsed
    ensures var x := Row(0, "x=1", 200, 30, 20.0, 0.5);
      && InsideThresholds(Moderate, x)
      && Survivors([x], AsCommented(Moderate, parse), |Stages|) == [x]
      && Survivors([x], AsWritten(Moderate, parse), |Stages|) == []
  {
    var x := Row(0, "x=1", 200, 30, 20.0, 0.5);
    assert InsideThresholds(Moderate, x);
    KeptAsCommentedIff([x], Moderate, parse, x);
    KeptAsWrittenIff([x], Moderate, parse, x);
  }
}
