/** One stage's rejects-table bookkeeping (append, `sort_index`, `fillna`) computes the
    ledger of one more stage. */
module LedgerBookkeeping {
  import opened Wrappers
  import opened CurationConfigs
  import opened RowFilter
  import opened LabelSelection
  import opened RejectsTable
  import opened LedgerSpec
  import opened LedgerGrowth
  import opened ReasonFill

  /** What `fillna` does to the ledger so far and to the fresh, reason-less chunk. */
  lemma FillNaParts(rows: seq<Row>, pass: (Stage, Row) -> bool, k: nat)
    requires k < |Stages|
    ensures FillNa(Ledger(rows, pass, k) + Untagged(FailingAt(rows, pass, k)), ReasonTag(Stages[k]))
         == Ledger(rows, pass, k) + Entries(pass, FailingAt(rows, pass, k))
  {
  }

  /** One stage's bookkeeping reproduces the ledger of one more stage. */
  lemma LedgerStep(rows: seq<Row>, pass: (Stage, Row) -> bool, k: nat)
    requires Increasing(rows) && k < |Stages|
    ensures FillNa(SortIndex(Ledger(rows, pass, k) + Untagged(FailingAt(rows, pass, k))), ReasonTag(Stages[k]))
         == Ledger(rows, pass, k + 1)
  {
    var joined := Ledger(rows, pass, k) + Untagged(FailingAt(rows, pass, k));
    FillNaSort(joined, ReasonTag(Stages[k]));
    FillNaParts(rows, pass, k);
    LedgerMultiset(rows, pass, k);
    var filled := Ledger(rows, pass, k) + Entries(pass, FailingAt(rows, pass, k));
    LedgerSorted(rows, pass, k + 1);
    SortedUnique(SortIndex(filled), Ledger(rows, pass, k + 1));
  }

  /** The first stage sets the reason of every row it drops. */
  lemma {:induction false} LedgerFirst(rows: seq<Row>, pass: (Stage, Row) -> bool)
    ensures SetReason(Untagged(FailingAt(rows, pass, 0)), ReasonTag(Stages[0])) == Ledger(rows, pass, 1)
  {
    if rows != [] {
      LedgerFirst(rows[1..], pass);
      var tag := ReasonTag(Stages[0]);
      var f' := FailingAt(rows[1..], pass, 0);
      if FirstFail(pass, rows[0]) == 0 {
        assert FailingAt(rows, pass, 0) == [rows[0]] + f';
        assert Ledger(rows, pass, 1) == [Entry(pass, rows[0])] + Ledger(rows[1..], pass, 1);
        TaggedCons(rows[0], f', tag);
      } else {
        assert FailingAt(rows, pass, 0) == f';
        assert Ledger(rows, pass, 1) == Ledger(rows[1..], pass, 1);
      }
    }
  }

  lemma TaggedCons(x: Row, f: seq<Row>, tag: string)
    ensures SetReason(Untagged([x] + f), tag) == [Rejection(x, Some(tag))] + SetReason(Untagged(f), tag)
  {
    var l, r := SetReason(Untagged([x] + f), tag), [Rejection(x, Some(tag))] + SetReason(Untagged(f), tag);
    forall i | 0 <= i < |l|
      ensures l[i] == r[i]
    {
      if i > 0 {
        assert ([x] + f)[i] == f[i - 1];
      }
    }
  }
}
