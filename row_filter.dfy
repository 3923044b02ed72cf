/** The seven-stage row filter applied to one Parquet file of source-code rows.
    A table is a sequence of rows carrying their pandas index labels; a boolean
    column is a map from label to flag, and selecting with it aligns by label,
    as pandas does. */
module RowFilter {
  import opened Wrappers
  import opened CurationConfigs
  import Strings

  /** One row of a loaded table. `index` is the row's pandas index label. */
  datatype Row = Row(
    index: nat,
    content: string,
    fileSize: int,
    maxLl: int,
    aveLl: real,
    alphanumFrac: real
  )

  /** What the Python parser does with a text: it parses, or raises one of the two
      errors the compatibility test catches. */
  datatype ParseOutcome = Parsed | SyntaxError | ValueError

  /** `test_source_code_compatible`: true exactly when the text parses. */
  function SourceCodeCompatible(parse: string -> ParseOutcome, content: string): (ok: bool)
    ensures ok <==> parse(content) == Parsed
    ensures !ok <==> parse(content) in {SyntaxError, ValueError}
  {
    match parse(content)
    case Parsed => true
    case SyntaxError => false
    case ValueError => false
  }

  /** The stages, in the order the filter applies them. */
  datatype Stage =
    | LineLengthWindow
    | MinSize
    | MaxSize
    | AlphanumWindow
    | MinAveLineLength
    | MinLines
    | Python2

  const Stages: seq<Stage> :=
    [LineLengthWindow, MinSize, MaxSize, AlphanumWindow, MinAveLineLength, MinLines, Python2]

  /** The reason written into the rejects table for a row dropped at `s`. */
  function ReasonTag(s: Stage): string {
    match s
    case LineLengthWindow => "max_ll"
    case MinSize => "file_too_small"
    case MaxSize => "file_too_large"
    case AlphanumWindow => "alphanum_frac"
    case MinAveLineLength => "ave_ll"
    case MinLines => "min_lines"
    case Python2 => "python2"
  }

  /** `file_size / ave_ll >= min_lines` with pandas float division: dividing by zero
      gives +inf for a positive size, NaN for zero and -inf for a negative size. */
  function LineEstimateAtLeast(fileSize: int, aveLl: real, minLines: int): (b: bool)
    ensures aveLl > 0.0 ==> (b <==> fileSize as real >= minLines as real * aveLl)
    ensures aveLl < 0.0 ==> (b <==> fileSize as real <= minLines as real * aveLl)
  {
    if aveLl == 0.0 then fileSize > 0
    else fileSize as real / aveLl >= minLines as real
  }

  /** The six threshold tests; the parse stage has no threshold. Floor division by 1024
      keeps every size below the next whole KiB past `max_size_kbs`. */
  function MeetsThreshold(c: FilterConfig, s: Stage, r: Row): (b: bool)
    ensures s == Python2 ==> b
    ensures s == MaxSize ==> (b <==> r.fileSize < (c.maxSizeKbs + 1) * 1024)
    ensures s == MinLines && r.aveLl > 0.0 ==> (b <==> r.fileSize as real >= c.minLines as real * r.aveLl)
  {
    match s
    case LineLengthWindow => r.maxLl <= c.maxLl && r.maxLl >= c.minMaxLl
    case MinSize => r.fileSize >= c.minLen
    case MaxSize => r.fileSize / 1024 <= c.maxSizeKbs
    case AlphanumWindow => r.alphanumFrac > c.minAlphanum && r.alphanumFrac < c.maxAlphanum
    case MinAveLineLength => r.aveLl > c.minAveLl as real
    case MinLines => LineEstimateAtLeast(r.fileSize, r.aveLl, c.minLines)
    case Python2 => true
  }

  /** The survivor test of each stage as the code computes it: the parse stage keeps
      the rows whose content is NOT compatible. */
  function PassesAsWritten(c: FilterConfig, parse: string -> ParseOutcome, s: Stage, r: Row): (b: bool)
    ensures s != Python2 ==> (b <==> PassesAsCommented(c, parse, s, r))
    ensures s == Python2 ==> (b <==> !PassesAsCommented(c, parse, s, r))
  {
    if s == Python2 then !SourceCodeCompatible(parse, r.content)
    else MeetsThreshold(c, s, r)
  }

  /** The survivor test of each stage as the comments describe it: the parse stage
      keeps the rows whose content parses. */
  predicate PassesAsCommented(c: FilterConfig, parse: string -> ParseOutcome, s: Stage, r: Row) {
    if s == Python2 then SourceCodeCompatible(parse, r.content)
    else MeetsThreshold(c, s, r)
  }

  function AsWritten(c: FilterConfig, parse: string -> ParseOutcome): (pass: (Stage, Row) -> bool)
    ensures forall r: Row :: pass(Python2, r) <==> !SourceCodeCompatible(parse, r.content)
  {
    (s: Stage, r: Row) => PassesAsWritten(c, parse, s, r)
  }

  function AsCommented(c: FilterConfig, parse: string -> ParseOutcome): (pass: (Stage, Row) -> bool)
    ensures forall r: Row :: pass(Python2, r) <==> SourceCodeCompatible(parse, r.content)
  {
    (s: Stage, r: Row) => PassesAsCommented(c, parse, s, r)
  }

  /** Index labels strictly increase along the table (true of a freshly loaded table,
      whose labels are 0, 1, 2, ..., and of every selection from it). */
  predicate Increasing(df: seq<Row>) {
    forall i, j | 0 <= i < j < |df| :: df[i].index < df[j].index
  }

  /** Every row after the first has a larger label than the first. */
  lemma TailAbove(rows: seq<Row>)
    requires Increasing(rows) && rows != []
    ensures forall x | x in rows[1..] :: rows[0].index < x.index
  {
    forall x | x in rows[1..]
      ensures rows[0].index < x.index
    {
      var j :| 0 <= j < |rows[1..]| && rows[1..][j] == x;
      assert rows[j + 1] == x;
    }
  }

  /** A row below every label of an increasing table can go in front of it. */
  lemma PrependIncreasing(h: Row, t: seq<Row>)
    requires Increasing(t) && forall x | x in t :: h.index < x.index
    ensures Increasing([h] + t)
  {
    var s := [h] + t;
    forall i, j | 0 <= i < j < |s|
      ensures s[i].index < s[j].index
    {
      if i == 0 {
        assert s[j] == t[j - 1];
        assert s[j] in t;
      } else {
        assert s[i] == t[i - 1] && s[j] == t[j - 1];
      }
    }
  }

  /** The position of the first stage `r` fails, counting from stage `j`;
      `|Stages|` when it fails none. */
  function FirstFailFrom(pass: (Stage, Row) -> bool, r: Row, j: nat): (f: nat)
    requires j <= |Stages|
    ensures j <= f <= |Stages|
    ensures f < |Stages| ==> !pass(Stages[f], r)
    ensures forall i | j <= i < f :: pass(Stages[i], r)
    decreases |Stages| - j
  {
    if j == |Stages| then j
    else if !pass(Stages[j], r) then j
    else FirstFailFrom(pass, r, j + 1)
  }

  function FirstFail(pass: (Stage, Row) -> bool, r: Row): (f: nat)
    ensures f <= |Stages|
  {
    FirstFailFrom(pass, r, 0)
  }

  /** Reaching stage `k` means passing every earlier stage. */
  lemma FirstFailAtLeast(pass: (Stage, Row) -> bool, r: Row, k: nat)
    requires k <= |Stages|
    ensures FirstFail(pass, r) >= k <==> forall j | 0 <= j < k :: pass(Stages[j], r)
  {
    var f := FirstFail(pass, r);
    if f < k {
      assert !pass(Stages[f], r);
    }
  }

  /** The rows of `rows` that reach stage `k`, in table order. */
  function Survivors(rows: seq<Row>, pass: (Stage, Row) -> bool, k: nat): (kept: seq<Row>)
    ensures forall x :: x in kept <==> x in rows && FirstFail(pass, x) >= k
  {
    if rows == [] then []
    else
      var rest := Survivors(rows[1..], pass, k);
      if FirstFail(pass, rows[0]) >= k then [rows[0]] + rest else rest
  }

  /** The survivors of a table with increasing labels have increasing labels. */
  lemma {:induction false} SurvivorsIncreasing(rows: seq<Row>, pass: (Stage, Row) -> bool, k: nat)
    requires Increasing(rows)
    ensures Increasing(Survivors(rows, pass, k))
  {
    if rows != [] {
      TailAbove(rows);
      SurvivorsIncreasing(rows[1..], pass, k);
      if FirstFail(pass, rows[0]) >= k {
        PrependIncreasing(rows[0], Survivors(rows[1..], pass, k));
      }
    }
  }

  /** Every row reaches the first stage. */
  lemma {:induction false} SurvivorsZero(rows: seq<Row>, pass: (Stage, Row) -> bool)
    ensures Survivors(rows, pass, 0) == rows
  {
    if rows != [] {
      SurvivorsZero(rows[1..], pass);
      assert rows == [rows[0]] + rows[1..];
    }
  }

  /** The rows of `rows` whose first failure is at stage `k`, in table order. */
  function FailingAt(rows: seq<Row>, pass: (Stage, Row) -> bool, k: nat): (dropped: seq<Row>)
    ensures forall x :: x in dropped <==> x in rows && FirstFail(pass, x) == k
    ensures Strings.Subsequence(dropped, rows)
  {
    if rows == [] then []
    else
      var rest := FailingAt(rows[1..], pass, k);
      if FirstFail(pass, rows[0]) == k then
        assert ([rows[0]] + rest)[1..] == rest;
        [rows[0]] + rest
      else rest
  }
}
