/** Choosing which languages of The Stack to curate. The metadata table has one row per
    parquet file with its language and that language's size and file count; one criterion
    is chosen by precedence (the `top_k` largest languages, else a size threshold, else a
    file-count threshold, else none), and the "bad" languages are dropped regardless. */
module MetaLanguages {
  import opened Wrappers
  import opened Strings

  datatype MetaRow = MetaRow(pqPath: string, lang: string, langSizeMb: real, langFileCnt: int)

  /** The selection the three optional arguments make; an argument that is missing or
      zero is falsy and passes the decision on. */
  datatype Criterion = TopK(k: int) | LargerThanMb(mb: real) | AtLeastFiles(n: int) | NoCriterion

  const DefaultBadLangs: seq<string> := [".csv"]

  /** Python truthiness of an optional number: present and non-zero. */
  predicate Truthy(o: Option<int>) {
    o.Some? && o.value != 0
  }

  predicate TruthyReal(o: Option<real>) {
    o.Some? && o.value != 0.0
  }

  function Choose(topK: Option<int>, mbSizeThresh: Option<real>, fileCntThresh: Option<int>): (c: Criterion)
    ensures Truthy(topK) ==> c == TopK(topK.value)
    ensures !Truthy(topK) && TruthyReal(mbSizeThresh) ==> c == LargerThanMb(mbSizeThresh.value)
    ensures !Truthy(topK) && !TruthyReal(mbSizeThresh) && Truthy(fileCntThresh)
      ==> c == AtLeastFiles(fileCntThresh.value)
    ensures c == NoCriterion <==> !Truthy(topK) && !TruthyReal(mbSizeThresh) && !Truthy(fileCntThresh)
  {
    if topK.Some? && topK.value != 0 then TopK(topK.value)
    else if mbSizeThresh.Some? && mbSizeThresh.value != 0.0 then LargerThanMb(mbSizeThresh.value)
    else if fileCntThresh.Some? && fileCntThresh.value != 0 then AtLeastFiles(fileCntThresh.value)
    else NoCriterion
  }

  /** `groupby("lang")["lang_size_mb"].sum()` for one language. */
  function LangSum(rows: seq<MetaRow>, lang: string): (total: real)
    ensures (forall x | x in rows :: x.lang != lang) ==> total == 0.0
    ensures (forall x | x in rows :: x.langSizeMb >= 0.0) ==> total >= 0.0
  {
    if rows == [] then 0.0
    else (if rows[0].lang == lang then rows[0].langSizeMb else 0.0) + LangSum(rows[1..], lang)
  }

  /** The distinct languages of the table, in order of first appearance. */
  function Langs(rows: seq<MetaRow>): (ls: seq<string>)
    ensures forall x | x in rows :: x.lang in ls
    ensures forall l | l in ls :: exists x | x in rows :: x.lang == l
    ensures forall i, j | 0 <= i < j < |ls| :: ls[i] != ls[j]
  {
    if rows == [] then []
    else
      var init := rows[..|rows| - 1];
      var last := rows[|rows| - 1];
      assert rows == init + [last];
      var ls := Langs(init);
      if last.lang in ls then ls else ls + [last.lang]
  }

  predicate Descending(rows: seq<MetaRow>, ls: seq<string>) {
    forall i, j | 0 <= i < j < |ls| :: LangSum(rows, ls[i]) >= LangSum(rows, ls[j])
  }

  /** Places `l` before the first language with a smaller sum. */
  function InsertDescending(rows: seq<MetaRow>, l: string, ls: seq<string>): (r: seq<string>)
    requires Descending(rows, ls)
    ensures Descending(rows, r)
    ensures multiset(r) == multiset(ls) + multiset{l}
  {
    if ls == [] || LangSum(rows, l) >= LangSum(rows, ls[0]) then
      PrependDescending(rows, l, ls);
      [l] + ls
    else
      var rest := InsertDescending(rows, l, ls[1..]);
      assert ls == [ls[0]] + ls[1..];
      HeadAbove(rows, ls);
      assert forall m | m in rest :: m == l || m in ls[1..] by {
        forall m | m in rest ensures m == l || m in ls[1..] {
          assert m in multiset(rest);
        }
      }
      PrependDescending(rows, ls[0], rest);
      [ls[0]] + rest
  }

  lemma HeadAbove(rows: seq<MetaRow>, ls: seq<string>)
    requires Descending(rows, ls) && ls != []
    ensures forall m | m in ls[1..] :: LangSum(rows, ls[0]) >= LangSum(rows, m)
  {
    forall m | m in ls[1..] ensures LangSum(rows, ls[0]) >= LangSum(rows, m) {
      var j :| 0 <= j < |ls[1..]| && ls[1..][j] == m;
      assert ls[j + 1] == m;
    }
  }

  lemma PrependDescending(rows: seq<MetaRow>, h: string, t: seq<string>)
    requires Descending(rows, t)
    requires forall m | m in t :: LangSum(rows, h) >= LangSum(rows, m)
    ensures Descending(rows, [h] + t)
  {
    var s := [h] + t;
    forall i, j | 0 <= i < j < |s| ensures LangSum(rows, s[i]) >= LangSum(rows, s[j]) {
      if i == 0 {
        assert s[j] == t[j - 1];
        assert s[j] in t;
      } else {
        assert s[i] == t[i - 1] && s[j] == t[j - 1];
      }
    }
  }

  /** `sort_values(ascending=False)` on the per-language sums. */
  function SortDescending(rows: seq<MetaRow>, ls: seq<string>): (r: seq<string>)
    ensures Descending(rows, r)
    ensures multiset(r) == multiset(ls)
  {
    if ls == [] then []
    else
      assert ls == [ls[0]] + ls[1..];
      InsertDescending(rows, ls[0], SortDescending(rows, ls[1..]))
  }

  /** Python's `s[:k]`: a negative `k` counts from the end. */
  function Take<T>(s: seq<T>, k: int): (r: seq<T>)
    ensures k >= 0 ==> |r| == Min(k, |s|)
    ensures k < 0 ==> |r| == (if |s| + k < 0 then 0 else |s| + k)
    ensures r == s[..|r|]
  {
    if k >= 0 then s[..Min(k, |s|)]
    else if |s| + k < 0 then []
    else s[..|s| + k]
  }

  /** `.index[:top_k]` of the languages sorted by descending sum. */
  function TopLangs(rows: seq<MetaRow>, k: int): (top: seq<string>)
    ensures Descending(rows, top)
  {
    var sorted := SortDescending(rows, Langs(rows));
    var top := Take(sorted, k);
    assert forall i | 0 <= i < |top| :: top[i] == sorted[i];
    top
  }

  /** Every language kept by `top_k` has a sum at least that of every language dropped. */
  lemma {:induction false} TopLangsRanked(rows: seq<MetaRow>, k: int, kept: string, dropped: string)
    requires kept in TopLangs(rows, k)
    requires dropped in Langs(rows) && dropped !in TopLangs(rows, k)
    ensures LangSum(rows, kept) >= LangSum(rows, dropped)
  {
    var sorted := SortDescending(rows, Langs(rows));
    var top := TopLangs(rows, k);
    assert top == sorted[..|top|];
    var i :| 0 <= i < |top| && top[i] == kept;
    assert dropped in multiset(sorted);
    var j :| 0 <= j < |sorted| && sorted[j] == dropped;
    assert sorted[i] == kept;
  }

  /** The kept languages are languages of the table, `top_k` of them when there are
      that many. */
  lemma TopLangsCount(rows: seq<MetaRow>, k: int)
    requires k >= 0
    ensures |TopLangs(rows, k)| == Min(k, |Langs(rows)|)
    ensures forall l | l in TopLangs(rows, k) :: l in Langs(rows)
  {
    var sorted := SortDescending(rows, Langs(rows));
    assert |sorted| == |multiset(sorted)| == |Langs(rows)|;
    forall l | l in TopLangs(rows, k) ensures l in Langs(rows) {
      assert l in sorted;
      assert l in multiset(sorted);
    }
  }

  /** Whether a row's language meets the chosen criterion. */
  predicate Admits(rows: seq<MetaRow>, c: Criterion, x: MetaRow) {
    match c
    case TopK(k) => x.lang in TopLangs(rows, k)
    case LargerThanMb(mb) => x.langSizeMb > mb
    case AtLeastFiles(n) => x.langFileCnt >= n
    case NoCriterion => true
  }

  /** The rows satisfying `p`, in order. */
  function Select(s: seq<MetaRow>, p: MetaRow -> bool): (r: seq<MetaRow>)
    ensures forall x | x in r :: x in s && p(x)
    ensures forall x | x in s && p(x) :: x in r
  {
    if s == [] then []
    else if p(s[0]) then [s[0]] + Select(s[1..], p)
    else Select(s[1..], p)
  }

  lemma {:induction false} SelectSubsequence(s: seq<MetaRow>, p: MetaRow -> bool)
    ensures Subsequence(Select(s, p), s)
  {
    if s != [] {
      SelectSubsequence(s[1..], p);
      if p(s[0]) {
        assert Select(s, p)[1..] == Select(s[1..], p);
      }
    }
  }

  /** `filter_meta_languages`: the rows whose language meets the chosen criterion and is
      not a bad language, in their original order (`reset_index` only renumbers them). */
  function FilterMetaLanguages(rows: seq<MetaRow>, topK: Option<int>, mbSizeThresh: Option<real>,
                               fileCntThresh: Option<int>, badLangs: seq<string>): (r: seq<MetaRow>)
    ensures forall x | x in r :: x.lang !in badLangs
    ensures forall x :: x in r <==>
      x in rows && Admits(rows, Choose(topK, mbSizeThresh, fileCntThresh), x) && x.lang !in badLangs
  {
    var c := Choose(topK, mbSizeThresh, fileCntThresh);
    Select(rows, x => Admits(rows, c, x) && x.lang !in badLangs)
  }

  lemma FilterKeepsOrder(rows: seq<MetaRow>, topK: Option<int>, mbSizeThresh: Option<real>,
                         fileCntThresh: Option<int>, badLangs: seq<string>)
    ensures Subsequence(FilterMetaLanguages(rows, topK, mbSizeThresh, fileCntThresh, badLangs), rows)
  {
    var c := Choose(topK, mbSizeThresh, fileCntThresh);
    SelectSubsequence(rows, x => Admits(rows, c, x) && x.lang !in badLangs);
  }

  /** With a non-zero `top_k`, a kept row's language outranks the language of every row
      that was dropped for its language's size. */
  lemma TopKDecides(rows: seq<MetaRow>, k: int, mb: Option<real>, cnt: Option<int>,
                    badLangs: seq<string>, kept: MetaRow, dropped: MetaRow)
    requires k != 0
    requires kept in FilterMetaLanguages(rows, Some(k), mb, cnt, badLangs)
    requires dropped in rows && dropped.lang !in TopLangs(rows, k)
    ensures LangSum(rows, kept.lang) >= LangSum(rows, dropped.lang)
  {
    TopLangsRanked(rows, k, kept.lang, dropped.lang);
  }
}
