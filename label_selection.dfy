/** Selecting rows with a boolean column. A column is a map from index label to flag,
    and `df[m]` aligns by label, as pandas does; on a table with distinct labels the
    selections of one stage split the rows that reached it by that stage's test. */
module LabelSelection {
  import opened RowFilter
  import Strings

  /** `df.col <op> value` evaluated for stage `s`: a flag per index label. */
  function Mask(df: seq<Row>, pass: (Stage, Row) -> bool, s: Stage): (m: map<nat, bool>)
    ensures forall x | x in df :: x.index in m
  {
    if df == [] then map[]
    else
      var last := df[|df| - 1];
      var front := Mask(df[..|df| - 1], pass, s);
      assert forall x | x in df[..|df| - 1] :: x in df;
      front[last.index := pass(s, last)]
  }

  /** On a table with increasing labels, the flag of a row is that row's own test. */
  lemma {:induction false} MaskAt(df: seq<Row>, pass: (Stage, Row) -> bool, s: Stage, x: Row)
    requires Increasing(df) && x in df
    ensures Mask(df, pass, s)[x.index] == pass(s, x)
  {
    var n := |df| - 1;
    var i :| 0 <= i <= n && df[i] == x;
    if i < n {
      var front := df[..n];
      assert front[i] == x;
      assert x.index < df[n].index;
      MaskAt(front, pass, s, x);
    }
  }

  /** `df[m]` (want = true) or `df[~m]` (want = false): the rows whose label carries
      flag `want`, in table order. pandas refuses a mask that lacks a label of `df`. */
  function Where(df: seq<Row>, m: map<nat, bool>, want: bool): (sel: seq<Row>)
    requires forall x | x in df :: x.index in m
    ensures forall x :: x in sel <==> x in df && m[x.index] == want
    ensures Strings.Subsequence(sel, df)
  {
    if df == [] then []
    else
      assert forall x | x in df[1..] :: x in df;
      var rest := Where(df[1..], m, want);
      if m[df[0].index] == want then
        assert ([df[0]] + rest)[1..] == rest;
        [df[0]] + rest
      else rest
  }

  /** The rows of `df` whose test at stage `s` gives `want`, in table order. */
  function StageFilter(df: seq<Row>, pass: (Stage, Row) -> bool, s: Stage, want: bool): (sel: seq<Row>)
    ensures forall x :: x in sel <==> x in df && pass(s, x) == want
    ensures Strings.Subsequence(sel, df)
  {
    if df == [] then []
    else
      var rest := StageFilter(df[1..], pass, s, want);
      if pass(s, df[0]) == want then
        assert ([df[0]] + rest)[1..] == rest;
        [df[0]] + rest
      else rest
  }

  /** A mask that agrees with the stage test on every row of `df` selects what the test does. */
  lemma {:induction false} WhereAgrees(df: seq<Row>, m: map<nat, bool>, pass: (Stage, Row) -> bool, s: Stage, want: bool)
    requires forall x | x in df :: x.index in m && m[x.index] == pass(s, x)
    ensures Where(df, m, want) == StageFilter(df, pass, s, want)
  {
    if df != [] {
      assert forall x | x in df[1..] :: x in df;
      WhereAgrees(df[1..], m, pass, s, want);
    }
  }

  /** Splitting the rows that reach stage `k` by the test of stage `k`. */
  lemma {:induction false} StageCut(rows: seq<Row>, pass: (Stage, Row) -> bool, k: nat)
    requires k < |Stages|
    ensures StageFilter(Survivors(rows, pass, k), pass, Stages[k], true) == Survivors(rows, pass, k + 1)
    ensures StageFilter(Survivors(rows, pass, k), pass, Stages[k], false) == FailingAt(rows, pass, k)
  {
    if rows != [] {
      StageCut(rows[1..], pass, k);
      var x := rows[0];
      FirstFailAtLeast(pass, x, k);
      FirstFailAtLeast(pass, x, k + 1);
    }
  }

  /** What one stage's selections give on the rows that reached it: the mask covers
      every row, selecting with it keeps the next stage's survivors, and selecting with
      its negation gives the rows first dropped here when applied before the
      reassignment, and nothing when applied after it. */
  lemma StageSelections(rows: seq<Row>, pass: (Stage, Row) -> bool, k: nat, df: seq<Row>, m: map<nat, bool>)
    requires Increasing(rows) && k < |Stages|
    requires df == Survivors(rows, pass, k) && m == Mask(df, pass, Stages[k])
    ensures forall x | x in Survivors(rows, pass, k + 1) :: x.index in m
    ensures Where(df, m, true) == Survivors(rows, pass, k + 1)
    ensures Where(df, m, false) == FailingAt(rows, pass, k)
    ensures Where(Survivors(rows, pass, k + 1), m, false) == []
  {
    SurvivorsIncreasing(rows, pass, k);
    forall x | x in df
      ensures m[x.index] == pass(Stages[k], x)
    {
      MaskAt(df, pass, Stages[k], x);
    }
    StageCut(rows, pass, k);
    WhereAgrees(df, m, pass, Stages[k], true);
    WhereAgrees(df, m, pass, Stages[k], false);
    var next := Survivors(rows, pass, k + 1);
    WhereAgrees(next, m, pass, Stages[k], false);
    NoneFailAgain(df, pass, Stages[k]);
  }

  /** Rows kept by a test never fail it. */
  lemma {:induction false} NoneFailAgain(df: seq<Row>, pass: (Stage, Row) -> bool, s: Stage)
    ensures StageFilter(StageFilter(df, pass, s, true), pass, s, false) == []
  {
    if df != [] {
      NoneFailAgain(df[1..], pass, s);
    }
  }

  /** Selecting a flag no row carries gives the empty table. */
  lemma {:induction false} WhereNoneWanted(df: seq<Row>, m: map<nat, bool>, want: bool)
    requires forall x | x in df :: x.index in m && m[x.index] != want
    ensures Where(df, m, want) == []
  {
    if df != [] {
      assert forall x | x in df[1..] :: x in df;
      WhereNoneWanted(df[1..], m, want);
    }
  }

  /** The first stage's selections on the loaded table: `df[flag]` keeps the rows
      inside the line-length window, the flag covers them, and `df[~flag]` on them is
      empty. */
  lemma {:induction false} FirstKept(rows: seq<Row>, pass: (Stage, Row) -> bool, flag: map<nat, bool>)
    requires Increasing(rows) && flag == Mask(rows, pass, LineLengthWindow)
    ensures Where(rows, flag, true) == Survivors(rows, pass, 1)
  {
    SurvivorsZero(rows, pass);
    FirstStageIsWindow(0);
    var next := Survivors(rows, pass, 0 + 1);
    assert Where(rows, flag, true) == next by {
      StageSelections(rows, pass, 0, rows, flag);
    }
  }

  lemma FirstCovered(rows: seq<Row>, pass: (Stage, Row) -> bool, flag: map<nat, bool>)
    requires Increasing(rows) && flag == Mask(rows, pass, LineLengthWindow)
    ensures forall x | x in Survivors(rows, pass, 1) :: x.index in flag
  {
    SurvivorsZero(rows, pass);
    FirstStageIsWindow(0);
    StageSelections(rows, pass, 0, rows, flag);
  }

  lemma FirstNoneLeft(rows: seq<Row>, pass: (Stage, Row) -> bool, flag: map<nat, bool>)
    requires Increasing(rows) && flag == Mask(rows, pass, LineLengthWindow)
    requires forall x | x in Survivors(rows, pass, 1) :: x.index in flag
    ensures Where(Survivors(rows, pass, 1), flag, false) == []
  {
    FirstKept(rows, pass, flag);
    WhereNoneWanted(Survivors(rows, pass, 1), flag, false);
  }

  lemma FirstStageIsWindow(k: nat)
    requires k == 0
    ensures Stages[k] == LineLengthWindow
  {
  }

  /** `df[~flag]` on the loaded table is the rows the first stage drops. */
  lemma FirstDropped(rows: seq<Row>, pass: (Stage, Row) -> bool, flag: map<nat, bool>)
    requires Increasing(rows) && flag == Mask(rows, pass, LineLengthWindow)
    ensures Where(rows, flag, false) == FailingAt(rows, pass, 0)
  {
    SurvivorsZero(rows, pass);
    FirstStageIsWindow(0);
    assert Where(rows, flag, false) == FailingAt(rows, pass, 0) by {
      StageSelections(rows, pass, 0, rows, flag);
    }
  }
}
