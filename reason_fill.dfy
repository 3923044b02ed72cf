/** `fillna` on the reason column commutes with `sort_index`: filling a missing
    reason never changes a label. */
module ReasonFill {
  import opened RowFilter
  import opened RejectsTable

  lemma FillNaCons(h: Rejection, t: seq<Rejection>, tag: string)
    ensures FillNa([h] + t, tag) == [Fill(h, tag)] + FillNa(t, tag)
  {
    var l, r := FillNa([h] + t, tag), [Fill(h, tag)] + FillNa(t, tag);
    forall i | 0 <= i < |l|
      ensures l[i] == r[i]
    {
      if i > 0 {
        assert ([h] + t)[i] == t[i - 1];
      }
    }
  }
  /** Filling reasons keeps a table sorted by label. */
  lemma FillNaSorted(s: seq<Rejection>, tag: string)
    requires SortedByIndex(s)
    ensures SortedByIndex(FillNa(s, tag))
  {
    var fs := FillNa(s, tag);
    forall i, j | 0 <= i < j < |fs| ensures fs[i].row.index <= fs[j].row.index {
      assert fs[i].row == s[i].row && fs[j].row == s[j].row;
    }
  }

  /** Filling reasons does not change labels, so it commutes with insertion. */
  lemma {:induction false} FillNaInsert(e: Rejection, s: seq<Rejection>, tag: string)
    requires SortedByIndex(s)
    ensures SortedByIndex(FillNa(s, tag))
    ensures FillNa(Insert(e, s), tag) == Insert(Fill(e, tag), FillNa(s, tag))
  {
    FillNaSorted(s, tag);
    var fe, fs := Fill(e, tag), FillNa(s, tag);
    if s == [] || e.row.index <= s[0].row.index {
      assert Insert(e, s) == [e] + s;
      assert Insert(fe, fs) == [fe] + fs;
      FillNaCons(e, s, tag);
    } else {
      var t := s[1..];
      SortedTail(s);
      FillNaInsert(e, t, tag);
      assert Insert(e, s) == [s[0]] + Insert(e, t);
      FillNaCons(s[0], Insert(e, t), tag);
      assert s == [s[0]] + t;
      FillNaCons(s[0], t, tag);
      assert Insert(fe, fs) == [fs[0]] + Insert(fe, fs[1..]);
    }
  }

  lemma SortedTail(s: seq<Rejection>)
    requires SortedByIndex(s) && s != []
    ensures SortedByIndex(s[1..])
  {
    var t := s[1..];
    forall i, j | 0 <= i < j < |t| ensures t[i].row.index <= t[j].row.index {
      assert t[i] == s[i + 1] && t[j] == s[j + 1];
    }
  }

  /** `fillna` after `sort_index` is `sort_index` after `fillna`. */
  lemma {:induction false} FillNaSort(s: seq<Rejection>, tag: string)
    ensures FillNa(SortIndex(s), tag) == SortIndex(FillNa(s, tag))
  {
    if s != [] {
      FillNaSort(s[1..], tag);
      FillNaInsert(s[0], SortIndex(s[1..]), tag);
      assert FillNa(s, tag) == [Fill(s[0], tag)] + FillNa(s[1..], tag) by {
        assert s == [s[0]] + s[1..];
        FillNaCons(s[0], s[1..], tag);
      }
    }
  }
}
