/** The Python string and list operations the curation code relies on, with strings
    stated on `seq<char>`. */
module Strings {

  function Min(a: int, b: int): int {
    if a <= b then a else b
  }

  /** `s.startswith(pre)` */
  predicate StartsWith(s: string, pre: string) {
    |pre| <= |s| && s[..|pre|] == pre
  }

  /** `s.endswith(suf)` */
  predicate EndsWith(s: string, suf: string) {
    |suf| <= |s| && s[|s| - |suf|..] == suf
  }

  /** `sub in s`: some position of `s` (the end included) starts an occurrence of `sub`. */
  predicate Contains(s: string, sub: string) {
    exists i | 0 <= i <= |s| :: StartsWith(s[i..], sub)
  }

  /** `s.count(c)` for a single character. */
  function CountChar(s: string, c: char): (n: nat)
    ensures n == 0 <==> c !in s
  {
    if s == [] then 0
    else
      assert s == s[..|s| - 1] + [s[|s| - 1]];
      CountChar(s[..|s| - 1], c) + (if s[|s| - 1] == c then 1 else 0)
  }

  /** `s.rindex(c)`: the position of the last `c` in `s`. */
  function LastIndex(s: string, c: char): (i: nat)
    requires c in s
    ensures i < |s| && s[i] == c && c !in s[i + 1..]
  {
    if s[|s| - 1] == c then
      |s| - 1
    else
      assert s == s[..|s| - 1] + [s[|s| - 1]];
      var i := LastIndex(s[..|s| - 1], c);
      assert s[i + 1..] == s[..|s| - 1][i + 1..] + [s[|s| - 1]];
      i
  }

  /** Cutting at the last `c` leaves one `c` fewer in front of the cut. */
  lemma {:induction false} LastIndexCount(s: string, c: char)
    requires c in s
    ensures CountChar(s[..LastIndex(s, c)], c) + 1 == CountChar(s, c)
  {
    if s[|s| - 1] != c {
      var t := s[..|s| - 1];
      assert s == t + [s[|s| - 1]];
      LastIndexCount(t, c);
      assert t[..LastIndex(t, c)] == s[..LastIndex(s, c)];
    }
  }

  /** The inverse of a split: `sep.join(parts)`. */
  function Join(parts: seq<string>, sep: char): string
    requires |parts| >= 1
  {
    if |parts| == 1 then parts[0]
    else Join(parts[..|parts| - 1], sep) + [sep] + parts[|parts| - 1]
  }

  /** `s.rsplit(sep, maxsplit)` for a one-character separator and a non-negative limit:
      at most `maxsplit` cuts, made at the rightmost separators. */
  function RSplit(s: string, sep: char, maxsplit: nat): seq<string>
    decreases maxsplit
  {
    if maxsplit == 0 || sep !in s then [s]
    else
      var i := LastIndex(s, sep);
      RSplit(s[..i], sep, maxsplit - 1) + [s[i + 1..]]
  }

  /** Splitting makes `min(maxsplit, s.count(sep)) + 1` parts. */
  lemma {:induction false} RSplitCount(s: string, sep: char, maxsplit: nat)
    ensures |RSplit(s, sep, maxsplit)| == 1 + Min(maxsplit, CountChar(s, sep))
    decreases maxsplit
  {
    if maxsplit > 0 && sep in s {
      var i := LastIndex(s, sep);
      RSplitCount(s[..i], sep, maxsplit - 1);
      LastIndexCount(s, sep);
    }
  }

  /** Joining the parts with the separator gives `s` back. */
  lemma {:induction false} RSplitJoin(s: string, sep: char, maxsplit: nat)
    ensures Join(RSplit(s, sep, maxsplit), sep) == s
    decreases maxsplit
  {
    if maxsplit > 0 && sep in s {
      var i := LastIndex(s, sep);
      var front := RSplit(s[..i], sep, maxsplit - 1);
      RSplitJoin(s[..i], sep, maxsplit - 1);
      RSplitNonEmpty(s[..i], sep, maxsplit - 1);
      var parts := front + [s[i + 1..]];
      assert parts[..|parts| - 1] == front;
      calc {
        Join(RSplit(s, sep, maxsplit), sep);
        Join(parts, sep);
        Join(front, sep) + [sep] + s[i + 1..];
        s[..i] + [sep] + s[i + 1..];
        { SplitAt(s, i); }
        s;
      }
    }
  }

  lemma RSplitNonEmpty(s: string, sep: char, maxsplit: nat)
    ensures |RSplit(s, sep, maxsplit)| >= 1
  {
  }

  lemma SplitAt(s: string, i: nat)
    requires i < |s|
    ensures s[..i] + [s[i]] + s[i + 1..] == s
  {
  }

  /** No part after the first holds a separator. */
  lemma {:induction false} RSplitFields(s: string, sep: char, maxsplit: nat)
    ensures forall k | 1 <= k < |RSplit(s, sep, maxsplit)| :: sep !in RSplit(s, sep, maxsplit)[k]
    decreases maxsplit
  {
    if maxsplit > 0 && sep in s {
      var i := LastIndex(s, sep);
      RSplitFields(s[..i], sep, maxsplit - 1);
      var front := RSplit(s[..i], sep, maxsplit - 1);
      var parts := front + [s[i + 1..]];
      assert RSplit(s, sep, maxsplit) == parts;
      forall k | 1 <= k < |parts|
        ensures sep !in parts[k]
      {
        if k < |front| {
          assert parts[k] == front[k];
        } else {
          assert parts[k] == s[i + 1..];
        }
      }
    }
  }

  /** `s.split(sep)[-1]`, equally `s.rsplit(sep, 1)[-1]`: the text after the last `sep`,
      or all of `s` when it holds none. */
  function LastField(s: string, sep: char): (r: string)
    ensures sep !in r && EndsWith(s, r)
    ensures sep !in s ==> r == s
    ensures sep in s ==> |r| < |s| && s[|s| - |r| - 1] == sep
  {
    var parts := RSplit(s, sep, 1);
    RSplitCount(s, sep, 1);
    RSplitJoin(s, sep, 1);
    RSplitFields(s, sep, 1);
    if |parts| == 1 then
      parts[0]
    else
      assert s == parts[0] + [sep] + parts[1];
      assert s[|s| - |parts[1]|..] == parts[1];
      parts[1]
  }

  /** `os.path.join(a, b)` on POSIX paths. */
  function PathJoin(a: string, b: string): string {
    if StartsWith(b, "/") then b
    else if a == [] || EndsWith(a, "/") then a + b
    else a + "/" + b
  }

  /** `s.replace(pat, rep)`: every non-overlapping occurrence of `pat`, found scanning from
      the left, is replaced; an empty `pat` inserts `rep` before every character and at the end. */
  function ReplaceAll(s: string, pat: string, rep: string): string
    decreases |s|
  {
    if pat == [] then
      if s == [] then rep else rep + [s[0]] + ReplaceAll(s[1..], pat, rep)
    else if |s| < |pat| then s
    else if s[..|pat|] == pat then rep + ReplaceAll(s[|pat|..], pat, rep)
    else [s[0]] + ReplaceAll(s[1..], pat, rep)
  }

  /** A string without any occurrence of `pat` is left as it is. */
  lemma {:induction false} ReplaceAbsent(s: string, pat: string, rep: string)
    requires pat != [] && !Contains(s, pat)
    ensures ReplaceAll(s, pat, rep) == s
    decreases |s|
  {
    if |s| >= |pat| {
      assert !StartsWith(s[0..], pat);
      assert s[0..] == s;
      forall i | 0 <= i <= |s[1..]|
        ensures !StartsWith(s[1..][i..], pat)
      {
        assert s[1..][i..] == s[i + 1..];
        assert !StartsWith(s[i + 1..], pat);
      }
      ReplaceAbsent(s[1..], pat, rep);
    }
  }

  /** An occurrence at the very front is replaced and the scan goes on after it. */
  lemma ReplaceFront(pat: string, rest: string, rep: string)
    requires pat != []
    ensures ReplaceAll(pat + rest, pat, rep) == rep + ReplaceAll(rest, pat, rep)
  {
    assert (pat + rest)[..|pat|] == pat;
    assert (pat + rest)[|pat|..] == rest;
  }

  /** When `pat` holds no '/', no occurrence spans a '/', so replacing works component by component. */
  lemma {:induction false} ReplaceAcrossSlash(a: string, b: string, pat: string, rep: string)
    requires pat != [] && '/' !in pat
    ensures ReplaceAll(a + "/" + b, pat, rep) == ReplaceAll(a, pat, rep) + "/" + ReplaceAll(b, pat, rep)
    decreases |a|
  {
    var s := a + "/" + b;
    if |s| < |pat| {
      assert ReplaceAll(a, pat, rep) == a && ReplaceAll(b, pat, rep) == b;
    } else if s[..|pat|] == pat {
      MatchBeforeSlash(a, b, pat);
      var a' := a[|pat|..];
      calc {
        ReplaceAll(s, pat, rep);
        { assert s == pat + (a' + "/" + b); ReplaceFront(pat, a' + "/" + b, rep); }
        rep + ReplaceAll(a' + "/" + b, pat, rep);
        { ReplaceAcrossSlash(a', b, pat, rep); }
        rep + (ReplaceAll(a', pat, rep) + "/" + ReplaceAll(b, pat, rep));
        { assert a == pat + a'; ReplaceFront(pat, a', rep); }
        ReplaceAll(a, pat, rep) + "/" + ReplaceAll(b, pat, rep);
      }
    } else if a == [] {
      assert s == "/" + b;
      assert s[1..] == b;
    } else {
      calc {
        ReplaceAll(s, pat, rep);
        { assert s[1..] == a[1..] + "/" + b; }
        [a[0]] + ReplaceAll(a[1..] + "/" + b, pat, rep);
        { ReplaceAcrossSlash(a[1..], b, pat, rep); }
        [a[0]] + (ReplaceAll(a[1..], pat, rep) + "/" + ReplaceAll(b, pat, rep));
        { ReplaceSkip(a, pat, rep); }
        ReplaceAll(a, pat, rep) + "/" + ReplaceAll(b, pat, rep);
      }
    }
  }

  /** An occurrence of a pattern without '/' that starts before a '/' ends before it. */
  lemma MatchBeforeSlash(a: string, b: string, pat: string)
    requires '/' !in pat && StartsWith(a + "/" + b, pat)
    ensures StartsWith(a, pat)
  {
    if |pat| > |a| {
      SlashInPrefix(a, b, |pat|);
      assert false;
    }
    assert (a + "/" + b)[..|pat|] == a[..|pat|];
  }

  lemma SlashInPrefix(a: string, b: string, n: nat)
    requires |a| < n <= |a| + 1 + |b|
    ensures '/' in (a + "/" + b)[..n]
  {
    assert (a + "/" + b)[..n][|a|] == '/';
  }

  /** Where no occurrence starts at the front, the first character is copied. */
  lemma ReplaceSkip(a: string, pat: string, rep: string)
    requires pat != [] && a != [] && !StartsWith(a, pat)
    ensures ReplaceAll(a, pat, rep) == [a[0]] + ReplaceAll(a[1..], pat, rep)
  {
    if |a| < |pat| {
      assert ReplaceAll(a[1..], pat, rep) == a[1..];
      assert [a[0]] + a[1..] == a;
    }
  }

  /** A trailing occurrence, with no earlier one, is the only thing replaced. */
  lemma {:induction false} ReplaceSuffix(a: string, pat: string, rep: string)
    requires pat != []
    requires forall i | 0 <= i < |a| :: !StartsWith((a + pat)[i..], pat)
    ensures ReplaceAll(a + pat, pat, rep) == a + rep
    decreases |a|
  {
    var s := a + pat;
    if a == [] {
      assert s == pat + [];
      ReplaceFront(pat, [], rep);
    } else {
      assert !StartsWith(s[0..], pat);
      assert s[0..] == s;
      assert s[1..] == a[1..] + pat;
      forall i | 0 <= i < |a[1..]|
        ensures !StartsWith((a[1..] + pat)[i..], pat)
      {
        assert (a[1..] + pat)[i..] == s[i + 1..];
      }
      ReplaceSuffix(a[1..], pat, rep);
      assert s[..|pat|] != pat;
      assert ReplaceAll(s, pat, rep) == [s[0]] + ReplaceAll(s[1..], pat, rep);
      assert [a[0]] + a[1..] == a;
    }
  }

  /** Cutting at the last separator: `(a + sep + b).rsplit(sep, n + 1)` is `a.rsplit(sep, n)`
      followed by `b`, when `b` holds no separator. */
  lemma RSplitLast(a: string, b: string, sep: char, n: nat)
    requires sep !in b
    ensures RSplit(a + [sep] + b, sep, n + 1) == RSplit(a, sep, n) + [b]
  {
    var s := a + [sep] + b;
    assert s[|a|] == sep;
    var i := LastIndex(s, sep);
    assert i == |a|;
    assert s[..i] == a;
    assert s[i + 1..] == b;
  }

  /** The text after the last separator is the last field. */
  lemma LastFieldAfter(a: string, b: string, sep: char)
    requires sep !in b
    ensures LastField(a + [sep] + b, sep) == b
  {
    RSplitLast(a, b, sep, 0);
    assert RSplit(a, sep, 0) == [a];
  }

  /** A text lacking one of a pattern's characters does not contain the pattern. */
  lemma LacksChar(s: string, pat: string, c: char)
    requires c in pat && c !in s
    ensures !Contains(s, pat)
  {
  }

  /** `a` is `b` with some elements removed, the rest in their order. */
  predicate Subsequence<T(==)>(a: seq<T>, b: seq<T>)
    decreases |b|
  {
    if a == [] then true
    else if b == [] then false
    else (a[0] == b[0] && Subsequence(a[1..], b[1..])) || Subsequence(a, b[1..])
  }
}
