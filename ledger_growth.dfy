/** How the ledger grows by one stage: the rows the stage drops first are added. */
module LedgerGrowth {
  import opened Wrappers
  import opened CurationConfigs
  import opened RowFilter
  import opened LabelSelection
  import opened RejectsTable
  import opened LedgerSpec

  /** The rows dropped in the first `k` stages together with those first dropped at
      stage `k` are the rows dropped in the first `k + 1` stages. */
  lemma {:induction false} LedgerMultiset(rows: seq<Row>, pass: (Stage, Row) -> bool, k: nat)
    requires k < |Stages|
    ensures multiset(Ledger(rows, pass, k) + Entries(pass, FailingAt(rows, pass, k)))
         == multiset(Ledger(rows, pass, k + 1))
  {
    if rows != [] {
      LedgerMultiset(rows[1..], pass, k);
      var ff := FirstFail(pass, rows[0]);
      if ff < k {
        LedgerConsEarlier(rows, pass, k);
      } else if ff == k {
        LedgerConsAt(rows, pass, k);
      } else {
        LedgerConsLater(rows, pass, k);
      }
    }
  }

  lemma LedgerConsEarlier(rows: seq<Row>, pass: (Stage, Row) -> bool, k: nat)
    requires k < |Stages| && rows != [] && FirstFail(pass, rows[0]) < k
    requires multiset(Ledger(rows[1..], pass, k) + Entries(pass, FailingAt(rows[1..], pass, k)))
          == multiset(Ledger(rows[1..], pass, k + 1))
    ensures multiset(Ledger(rows, pass, k) + Entries(pass, FailingAt(rows, pass, k)))
         == multiset(Ledger(rows, pass, k + 1))
  {
    var e := Entry(pass, rows[0]);
    var l, f := Ledger(rows[1..], pass, k), FailingAt(rows[1..], pass, k);
    assert FailingAt(rows, pass, k) == f;
    assert Ledger(rows, pass, k) + Entries(pass, f) == [e] + (l + Entries(pass, f));
  }

  lemma LedgerConsAt(rows: seq<Row>, pass: (Stage, Row) -> bool, k: nat)
    requires k < |Stages| && rows != [] && FirstFail(pass, rows[0]) == k
    requires multiset(Ledger(rows[1..], pass, k) + Entries(pass, FailingAt(rows[1..], pass, k)))
          == multiset(Ledger(rows[1..], pass, k + 1))
    ensures multiset(Ledger(rows, pass, k) + Entries(pass, FailingAt(rows, pass, k)))
         == multiset(Ledger(rows, pass, k + 1))
  {
    var e := Entry(pass, rows[0]);
    var l, f, l1 := Ledger(rows[1..], pass, k), FailingAt(rows[1..], pass, k), Ledger(rows[1..], pass, k + 1);
    assert Ledger(rows, pass, k) == l;
    assert Ledger(rows, pass, k + 1) == [e] + l1;
    assert FailingAt(rows, pass, k) == [rows[0]] + f;
    EntriesCons(pass, rows[0], f);
    MultisetShift(l, e, Entries(pass, f), l1);
  }

  lemma EntriesCons(pass: (Stage, Row) -> bool, x: Row, f: seq<Row>)
    requires FirstFail(pass, x) < |Stages| && forall y | y in f :: FirstFail(pass, y) < |Stages|
    ensures Entries(pass, [x] + f) == [Entry(pass, x)] + Entries(pass, f)
  {
  }

  /** Adding one element to both sides keeps two sequences' multisets equal. */
  lemma MultisetShift<T>(l: seq<T>, e: T, rest: seq<T>, l1: seq<T>)
    requires multiset(l + rest) == multiset(l1)
    ensures multiset(l + ([e] + rest)) == multiset([e] + l1)
  {
  }

  lemma LedgerConsLater(rows: seq<Row>, pass: (Stage, Row) -> bool, k: nat)
    requires k < |Stages| && rows != [] && FirstFail(pass, rows[0]) > k
    requires multiset(Ledger(rows[1..], pass, k) + Entries(pass, FailingAt(rows[1..], pass, k)))
          == multiset(Ledger(rows[1..], pass, k + 1))
    ensures multiset(Ledger(rows, pass, k) + Entries(pass, FailingAt(rows, pass, k)))
         == multiset(Ledger(rows, pass, k + 1))
  {
  }
}
