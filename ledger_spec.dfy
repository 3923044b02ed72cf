/** The rejects table the filter's comments describe, as a function of the rows: every
    row dropped by the first `k` stages, once, in table order, with the reason of the
    stage that dropped it. */
module LedgerSpec {
  import opened Wrappers
  import opened CurationConfigs
  import opened RowFilter
  import opened LabelSelection
  import opened RejectsTable

  /** The rejects-table row of a row dropped at its first failing stage. */
  function Entry(pass: (Stage, Row) -> bool, x: Row): (e: Rejection)
    requires FirstFail(pass, x) < |Stages|
    ensures e.row == x && e.reason.Some?
  {
    Rejection(x, Some(ReasonTag(Stages[FirstFail(pass, x)])))
  }

  /** Labels strictly increase along a rejects table. */
  predicate StrictlySorted(l: seq<Rejection>) {
    forall i, j | 0 <= i < j < |l| :: l[i].row.index < l[j].row.index
  }

  /** The rejects table after the first `k` stages: every row one of them dropped,
      once, in table order, tagged with the stage that dropped it. */
  function Ledger(rows: seq<Row>, pass: (Stage, Row) -> bool, k: nat): (l: seq<Rejection>)
    requires k <= |Stages|
    ensures forall e | e in l :: e.row in rows && FirstFail(pass, e.row) < k && e == Entry(pass, e.row)
    ensures forall x | x in rows && FirstFail(pass, x) < k :: Entry(pass, x) in l
  {
    if rows == [] then []
    else
      var rest := Ledger(rows[1..], pass, k);
      assert forall x | x in rows[1..] :: x in rows;
      assert forall x | x in rows && x != rows[0] :: x in rows[1..];
      if FirstFail(pass, rows[0]) < k then [Entry(pass, rows[0])] + rest else rest
  }

  /** On a table with increasing labels, the ledger is strictly ordered by label. */
  lemma {:induction false} LedgerSorted(rows: seq<Row>, pass: (Stage, Row) -> bool, k: nat)
    requires k <= |Stages| && Increasing(rows)
    ensures StrictlySorted(Ledger(rows, pass, k))
  {
    if rows != [] {
      LedgerSorted(rows[1..], pass, k);
      if FirstFail(pass, rows[0]) < k {
        TailAbove(rows);
        PrependStrict(Entry(pass, rows[0]), Ledger(rows[1..], pass, k));
      }
    }
  }

  lemma PrependStrict(h: Rejection, t: seq<Rejection>)
    requires StrictlySorted(t) && forall e | e in t :: h.row.index < e.row.index
    ensures StrictlySorted([h] + t)
  {
    var s := [h] + t;
    forall i, j | 0 <= i < j < |s|
      ensures s[i].row.index < s[j].row.index
    {
      if i == 0 {
        assert s[j] == t[j - 1];
        assert s[j] in t;
      } else {
        assert s[i] == t[i - 1] && s[j] == t[j - 1];
      }
    }
  }

  /** The entries of rows that all fail somewhere. */
  function Entries(pass: (Stage, Row) -> bool, df: seq<Row>): (l: seq<Rejection>)
    requires forall x | x in df :: FirstFail(pass, x) < |Stages|
    ensures |l| == |df| && forall i | 0 <= i < |l| :: l[i] == Entry(pass, df[i])
  {
    seq(|df|, i requires 0 <= i < |df| => Entry(pass, df[i]))
  }

  /** A table sorted by label and a table strictly sorted by label that hold the same
      entries are the same table: with distinct labels the sort has one answer. */
  lemma {:induction false} SortedUnique(a: seq<Rejection>, b: seq<Rejection>)
    requires SortedByIndex(a) && StrictlySorted(b) && multiset(a) == multiset(b)
    ensures a == b
    decreases |b|
  {
    if b == [] {
      assert |a| == |multiset(a)| == 0;
    } else {
      assert |a| == |multiset(a)| == |multiset(b)| == |b|;
      HeadsAgree(a, b);
      MultisetTail(a, b);
      SortedTails(a, b);
      SortedUnique(a[1..], b[1..]);
      assert a == [a[0]] + a[1..] && b == [b[0]] + b[1..];
    }
  }

  /** The smallest label comes first in both tables, and it is held by one entry. */
  lemma HeadsAgree(a: seq<Rejection>, b: seq<Rejection>)
    requires SortedByIndex(a) && StrictlySorted(b) && multiset(a) == multiset(b)
    requires a != [] && b != []
    ensures a[0] == b[0]
  {
    assert a[0] in multiset(b);
    assert b[0] in multiset(a);
    var i :| 0 <= i < |b| && b[i] == a[0];
    var j :| 0 <= j < |a| && a[j] == b[0];
    assert b[0].row.index <= b[i].row.index;
    assert a[0].row.index <= a[j].row.index;
    assert i == 0;
  }

  lemma MultisetTail<T>(a: seq<T>, b: seq<T>)
    requires a != [] && b != [] && a[0] == b[0] && multiset(a) == multiset(b)
    ensures multiset(a[1..]) == multiset(b[1..])
  {
    assert a == [a[0]] + a[1..] && b == [b[0]] + b[1..];
    assert multiset(a[1..]) == multiset(a) - multiset{a[0]};
    assert multiset(b[1..]) == multiset(b) - multiset{b[0]};
  }

  lemma SortedTails(a: seq<Rejection>, b: seq<Rejection>)
    requires SortedByIndex(a) && StrictlySorted(b) && a != [] && b != []
    ensures SortedByIndex(a[1..]) && StrictlySorted(b[1..])
  {
    var a', b' := a[1..], b[1..];
    forall i, j | 0 <= i < j < |a'| ensures a'[i].row.index <= a'[j].row.index {
      assert a'[i] == a[i + 1] && a'[j] == a[j + 1];
    }
    forall i, j | 0 <= i < j < |b'| ensures b'[i].row.index < b'[j].row.index {
      assert b'[i] == b[i + 1] && b'[j] == b[j + 1];
    }
  }

}
