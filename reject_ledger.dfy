/** The row filter as its comments describe it: each stage's rejected rows are taken
    from the table BEFORE it is cut down, appended to the rejects table, re-sorted by
    index label and tagged with the stage's reason where they have none; and the
    parse stage keeps the rows whose content parses. */
module RejectLedger {
  import opened Wrappers
  import opened CurationConfigs
  import opened RowFilter
  import opened LabelSelection
  import opened RejectsTable
  import opened LedgerSpec
  import opened LedgerBookkeeping

  /** The first stage, as the comments describe it: the rows outside the line-length
      window are selected from the loaded table and tagged "max_ll". */
  method FirstStageAsCommented(rows: seq<Row>, pass: (Stage, Row) -> bool)
    returns (df: seq<Row>, rejects: seq<Rejection>)
    requires Increasing(rows)
    ensures df == Survivors(rows, pass, 1)
    ensures rejects == Ledger(rows, pass, 1)
  {
    var flag := Mask(rows, pass, LineLengthWindow);
    FirstKept(rows, pass, flag);
    FirstDropped(rows, pass, flag);
    FirstStageIsWindow(0);
    LedgerFirst(rows, pass);
    rejects := SetReason(Untagged(Where(rows, flag, false)), ReasonTag(LineLengthWindow));
    df := Where(rows, flag, true);
  }

  /** One of the stages after the first, as the comments describe it: the rows flagged
      false are selected from the table before it is cut down. */
  method StageAsCommented(rows: seq<Row>, pass: (Stage, Row) -> bool, k: nat, df: seq<Row>, rejects: seq<Rejection>)
    returns (df': seq<Row>, rejects': seq<Rejection>)
    requires Increasing(rows) && 1 <= k < |Stages|
    requires df == Survivors(rows, pass, k) && rejects == Ledger(rows, pass, k)
    ensures df' == Survivors(rows, pass, k + 1)
    ensures rejects' == Ledger(rows, pass, k + 1)
  {
    var flag := Mask(df, pass, Stages[k]);
    StageSelections(rows, pass, k, df, flag);
    var chunk := Where(df, flag, false);
    df' := Where(df, flag, true);
    LedgerStep(rows, pass, k);
    rejects' := FillNa(SortIndex(rejects + Untagged(chunk)), ReasonTag(Stages[k]));
  }

  /** The filter as its comments describe it: the survivors are the rows passing every
      stage, in table order, the parse stage keeping what parses; the rejects table holds
      every other row once, in table order, tagged with the first stage it failed. */
  method FilterParquetRowsAsCommented(rows: seq<Row>, c: FilterConfig, parse: string -> ParseOutcome)
    returns (kept: seq<Row>, rejects: seq<Rejection>)
    requires Increasing(rows)
    ensures kept == Survivors(rows, AsCommented(c, parse), |Stages|)
    ensures rejects == Ledger(rows, AsCommented(c, parse), |Stages|)
  {
    var pass := AsCommented(c, parse);
    var df;
    df, rejects := FirstStageAsCommented(rows, pass);
    df, rejects := StageAsCommented(rows, pass, 1, df, rejects);
    df, rejects := StageAsCommented(rows, pass, 2, df, rejects);
    df, rejects := StageAsCommented(rows, pass, 3, df, rejects);
    df, rejects := StageAsCommented(rows, pass, 4, df, rejects);
    df, rejects := StageAsCommented(rows, pass, 5, df, rejects);
    df, rejects := StageAsCommented(rows, pass, 6, df, rejects);
    kept := df;
  }

  /** Every row ends up either among the survivors or, once, in the rejects table. */
  lemma {:induction false} Partition(rows: seq<Row>, pass: (Stage, Row) -> bool)
    ensures |Survivors(rows, pass, |Stages|)| + |Ledger(rows, pass, |Stages|)| == |rows|
    ensures forall x | x in rows :: x in Survivors(rows, pass, |Stages|) || Entry(pass, x) in Ledger(rows, pass, |Stages|)
  {
    if rows != [] {
      Partition(rows[1..], pass);
      assert forall x | x in rows && x != rows[0] :: x in rows[1..];
    }
  }
}
