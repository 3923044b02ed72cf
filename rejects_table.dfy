/** The rejects table: rows with a reason column, and the pandas operations the filter
    applies to it (setting the reason, `fillna`, `sort_index`). */
module RejectsTable {
  import opened Wrappers
  import opened RowFilter

  /** A row of the rejects table with its reason; `None` is a missing reason (NaN). */
  datatype Rejection = Rejection(row: Row, reason: Option<string>)

  /** Rows appended to the rejects table arrive without a reason column. */
  function Untagged(df: seq<Row>): (r: seq<Rejection>)
    ensures |r| == |df|
    ensures forall i | 0 <= i < |r| :: r[i].row == df[i] && r[i].reason == None
  {
    seq(|df|, i requires 0 <= i < |df| => Rejection(df[i], None))
  }

  /** `reject_df["reason"] = tag`: every row gets `tag`, whatever it had. */
  function SetReason(s: seq<Rejection>, tag: string): (r: seq<Rejection>)
    ensures |r| == |s|
    ensures forall i | 0 <= i < |r| :: r[i].row == s[i].row && r[i].reason == Some(tag)
  {
    seq(|s|, i requires 0 <= i < |s| => s[i].(reason := Some(tag)))
  }

  /** `fillna(tag)` on the reason column: a missing reason becomes `tag`; a reason
      already set is never overwritten. */
  function FillNa(s: seq<Rejection>, tag: string): (r: seq<Rejection>)
    ensures |r| == |s|
    ensures forall i | 0 <= i < |r| :: r[i].row == s[i].row
    ensures forall i | 0 <= i < |r| :: s[i].reason.Some? ==> r[i].reason == s[i].reason
    ensures forall i | 0 <= i < |r| :: s[i].reason.None? ==> r[i].reason == Some(tag)
  {
    seq(|s|, i requires 0 <= i < |s| => Fill(s[i], tag))
  }

  function Fill(e: Rejection, tag: string): Rejection {
    if e.reason.Some? then e else e.(reason := Some(tag))
  }

  /** Rejects ordered by index label, equal labels allowed. */
  predicate SortedByIndex(s: seq<Rejection>) {
    forall i, j | 0 <= i < j < |s| :: s[i].row.index <= s[j].row.index
  }

  /** Places `e` before the first entry whose label is not smaller. */
  function Insert(e: Rejection, s: seq<Rejection>): (r: seq<Rejection>)
    requires SortedByIndex(s)
    ensures SortedByIndex(r)
    ensures multiset(r) == multiset(s) + multiset{e}
  {
    if s == [] || e.row.index <= s[0].row.index then [e] + s
    else
      var rest := Insert(e, s[1..]);
      assert s == [s[0]] + s[1..];
      SortedTailAbove(s);
      FromMultiset(rest, s[1..], e);
      PrependSorted(s[0], rest);
      [s[0]] + rest
  }

  lemma SortedTailAbove(s: seq<Rejection>)
    requires SortedByIndex(s) && s != []
    ensures forall x | x in s[1..] :: s[0].row.index <= x.row.index
  {
    forall x | x in s[1..]
      ensures s[0].row.index <= x.row.index
    {
      var j :| 0 <= j < |s[1..]| && s[1..][j] == x;
      assert s[j + 1] == x;
    }
  }

  lemma FromMultiset(r: seq<Rejection>, s: seq<Rejection>, e: Rejection)
    requires multiset(r) == multiset(s) + multiset{e}
    ensures forall x | x in r :: x == e || x in s
  {
    forall x | x in r
      ensures x == e || x in s
    {
      assert x in multiset(r);
    }
  }

  lemma PrependSorted(h: Rejection, t: seq<Rejection>)
    requires SortedByIndex(t) && forall x | x in t :: h.row.index <= x.row.index
    ensures SortedByIndex([h] + t)
  {
    var s := [h] + t;
    forall i, j | 0 <= i < j < |s|
      ensures s[i].row.index <= s[j].row.index
    {
      if i == 0 {
        assert s[j] == t[j - 1];
        assert s[j] in t;
      } else {
        assert s[i] == t[i - 1] && s[j] == t[j - 1];
      }
    }
  }

  /** `sort_index()`: the same entries, ordered by label. */
  function SortIndex(s: seq<Rejection>): (r: seq<Rejection>)
    ensures SortedByIndex(r)
    ensures multiset(r) == multiset(s)
  {
    if s == [] then []
    else
      assert s == [s[0]] + s[1..];
      Insert(s[0], SortIndex(s[1..]))
  }

  /** Appending an empty chunk to an empty rejects table leaves it empty. */
  lemma EmptyStaysEmpty(rejects: seq<Rejection>, chunk: seq<Row>, tag: string)
    requires rejects == [] && chunk == []
    ensures FillNa(SortIndex(rejects + Untagged(chunk)), tag) == []
  {
    assert rejects + Untagged(chunk) == [];
  }
}
