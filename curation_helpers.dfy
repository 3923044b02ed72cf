/** The small pure helpers of the curation utilities: flattening a list of lists,
    detecting a run of repeated copies of a literal text, and replacing byte-encoded
    string literals by a token. */
module CurationHelpers {
  import opened Strings

  /** `[item for sublist in nested for item in sublist]` */
  function Flatten<T>(nested: seq<seq<T>>): (r: seq<T>)
    ensures |r| == TotalLength(nested)
    ensures forall l | l in nested :: forall x | x in l :: x in r
  {
    if nested == [] then []
    else
      var rest := Flatten(nested[1..]);
      assert forall l | l in nested :: l == nested[0] || l in nested[1..];
      nested[0] + rest
  }

  function TotalLength<T>(nested: seq<seq<T>>): nat {
    if nested == [] then 0 else |nested[0]| + TotalLength(nested[1..])
  }

  /** Flattening distributes over concatenation of the outer list. */
  lemma {:induction false} FlattenAppend<T>(a: seq<seq<T>>, b: seq<seq<T>>)
    ensures Flatten(a + b) == Flatten(a) + Flatten(b)
  {
    if a == [] {
      assert a + b == b;
    } else {
      assert (a + b)[0] == a[0];
      assert (a + b)[1..] == a[1..] + b;
      FlattenAppend(a[1..], b);
    }
  }

  /** Every item of the flattened list comes from one of the sublists. */
  lemma {:induction false} FlattenFrom<T>(nested: seq<seq<T>>, x: T)
    requires x in Flatten(nested)
    ensures exists l | l in nested :: x in l
  {
    if x !in nested[0] {
      FlattenFrom(nested[1..], x);
      var l :| l in nested[1..] && x in l;
      assert l in nested;
    }
  }

  /** `sub` written `n` times. */
  function Repeat(sub: string, n: nat): (r: string)
    ensures |r| == n * |sub|
  {
    if n == 0 then [] else sub + Repeat(sub, n - 1)
  }

  /** How many copies of `sub` follow one another at the start of `t`. */
  function Copies(t: string, sub: string): nat
    requires sub != []
    decreases |t|
  {
    if StartsWith(t, sub) then 1 + Copies(t[|sub|..], sub) else 0
  }

  /** `t` starts with `n` copies of `sub` exactly when at least `n` copies lead it. */
  lemma {:induction false} CopiesLead(t: string, sub: string, n: nat)
    requires sub != []
    ensures StartsWith(t, Repeat(sub, n)) <==> Copies(t, sub) >= n
    decreases n
  {
    if n > 0 {
      var rest := Repeat(sub, n - 1);
      assert Repeat(sub, n) == sub + rest;
      if StartsWith(t, sub) {
        CopiesLead(t[|sub|..], sub, n - 1);
        if StartsWith(t, sub + rest) {
          assert t[|sub|..][..|rest|] == t[..|sub + rest|][|sub|..];
        }
        if StartsWith(t[|sub|..], rest) {
          assert t[..|sub + rest|] == t[..|sub|] + t[|sub|..][..|rest|];
        }
      }
    }
  }

  /** `bool(re.search(f"({re.escape(sub)}){{{n},}}", s))`: some position of `s` starts
      `n` or more consecutive copies of `sub`. An empty `sub` or `n == 0` matches the
      empty text, which every string contains. */
  function ContainsRepeatingSubstring(s: string, sub: string, n: nat): (b: bool)
    ensures b <==> exists i | 0 <= i <= |s| :: StartsWith(s[i..], Repeat(sub, n))
  {
    if sub == [] || n == 0 then
      assert Repeat(sub, n) == [] by { if sub == [] { assert |Repeat(sub, n)| == 0; } }
      assert StartsWith(s[0..], []);
      true
    else
      LeadsAnywhere(s, sub, n);
      exists i | 0 <= i <= |s| :: Copies(s[i..], sub) >= n
  }

  lemma LeadsAnywhere(s: string, sub: string, n: nat)
    requires sub != []
    ensures (exists i | 0 <= i <= |s| :: Copies(s[i..], sub) >= n)
        <==> (exists i | 0 <= i <= |s| :: StartsWith(s[i..], Repeat(sub, n)))
  {
    forall i | 0 <= i <= |s|
      ensures Copies(s[i..], sub) >= n <==> StartsWith(s[i..], Repeat(sub, n))
    {
      CopiesLead(s[i..], sub, n);
    }
  }

  /** A run of `n` copies holds a run of every shorter length. */
  lemma {:induction false} RepeatingMonotone(s: string, sub: string, n: nat, m: nat)
    requires m <= n && ContainsRepeatingSubstring(s, sub, n)
    ensures ContainsRepeatingSubstring(s, sub, m)
  {
    var i :| 0 <= i <= |s| && StartsWith(s[i..], Repeat(sub, n));
    RepeatPrefix(sub, m, n);
    assert s[i..][..|Repeat(sub, m)|] == s[i..][..|Repeat(sub, n)|][..|Repeat(sub, m)|];
  }

  lemma {:induction false} RepeatPrefix(sub: string, m: nat, n: nat)
    requires m <= n
    ensures StartsWith(Repeat(sub, n), Repeat(sub, m))
    decreases m
  {
    if m > 0 {
      RepeatPrefix(sub, m - 1, n - 1);
      var a, b := Repeat(sub, m - 1), Repeat(sub, n - 1);
      assert (sub + b)[..|sub + a|] == sub + b[..|a|];
    }
  }

  /** Any text that holds `sub + sub` contains two repeats of `sub`. */
  lemma TwoCopies(pre: string, sub: string, post: string)
    ensures ContainsRepeatingSubstring(pre + sub + sub + post, sub, 2)
  {
    var s := pre + sub + sub + post;
    assert Repeat(sub, 2) == sub + sub by { assert Repeat(sub, 1) == sub + []; }
    assert s[|pre|..][..|sub + sub|] == sub + sub;
  }

  predicate IsAscii(c: char) {
    c as int <= 0x7F
  }

  /** Length of the run of non-ASCII characters that starts `t`. */
  function NonAsciiRun(t: string): (k: nat)
    ensures k <= |t|
    ensures forall i | 0 <= i < k :: !IsAscii(t[i])
    ensures k < |t| ==> IsAscii(t[k])
  {
    if t == [] || IsAscii(t[0]) then 0
    else
      var k := NonAsciiRun(t[1..]);
      assert forall i | 1 <= i < k + 1 :: t[i] == t[1..][i - 1];
      1 + k
  }

  /** Length of the match of `b'([^\x00-\x7F]{minLength,})'` at the start of `t`, if
      any. The closing quote is ASCII, so the run cannot include it and the match is
      the longest run or none. */
  function MatchAt(t: string, minLength: nat): (m: nat)
    ensures m > 0 ==> m >= minLength + 3 && m <= |t| && StartsWith(t, "b'") && t[m - 1] == '\''
    ensures m > 0 ==> forall i | 2 <= i < m - 1 :: !IsAscii(t[i])
  {
    if StartsWith(t, "b'") then
      var k := NonAsciiRun(t[2..]);
      if k >= minLength && 2 + k < |t| && t[2 + k] == '\'' then
        assert forall i | 2 <= i < k + 2 :: t[i] == t[2..][i - 2];
        k + 3
      else 0
    else 0
  }

  /** A literal `b'` + run + `'` whose run is long enough and all non-ASCII is a match of
      exactly its own length. */
  lemma MatchOfLiteral(run: string, rest: string, minLength: nat)
    requires |run| >= minLength && forall i | 0 <= i < |run| :: !IsAscii(run[i])
    ensures MatchAt("b'" + run + "'" + rest, minLength) == |run| + 3
  {
    var t := "b'" + run + "'" + rest;
    assert t[..2] == "b'";
    assert t[2..] == run + "'" + rest;
    RunOfLiteral(run, "'" + rest);
    assert t[2 + |run|] == '\'';
  }

  lemma {:induction false} RunOfLiteral(run: string, rest: string)
    requires forall i | 0 <= i < |run| :: !IsAscii(run[i])
    requires rest != [] && IsAscii(rest[0])
    ensures NonAsciiRun(run + rest) == |run|
  {
    if run != [] {
      assert (run + rest)[1..] == run[1..] + rest;
      RunOfLiteral(run[1..], rest);
    } else {
      assert run + rest == rest;
    }
  }

  /** `re.sub` of the byte-literal pattern by `token`: matches are taken left to right
      and never overlap; text outside them is kept. */
  function ReplaceByteEncodedString(s: string, minLength: nat, token: string): (r: string)
    ensures |token| <= minLength + 3 ==> |r| <= |s|
    decreases |s|
  {
    if s == [] then []
    else
      var m := MatchAt(s, minLength);
      if m > 0 then token + ReplaceByteEncodedString(s[m..], minLength, token)
      else [s[0]] + ReplaceByteEncodedString(s[1..], minLength, token)
  }

  const DefaultMinLength: nat := 100
  const DefaultToken: string := "<BYTE_ENCODED_STRING>"

  /** A byte literal at the front is replaced by the token. */
  lemma LiteralReplaced(run: string, rest: string, minLength: nat, token: string)
    requires |run| >= minLength && forall i | 0 <= i < |run| :: !IsAscii(run[i])
    ensures ReplaceByteEncodedString("b'" + run + "'" + rest, minLength, token)
         == token + ReplaceByteEncodedString(rest, minLength, token)
  {
    var t := "b'" + run + "'" + rest;
    MatchOfLiteral(run, rest, minLength);
    assert t[|run| + 3..] == rest;
  }

  /** Text without the opening `b'` is left as it is. */
  lemma {:induction false} NoMarkerUnchanged(s: string, minLength: nat, token: string)
    requires !Contains(s, "b'")
    ensures ReplaceByteEncodedString(s, minLength, token) == s
    decreases |s|
  {
    if s != [] {
      assert !StartsWith(s[0..], "b'");
      assert s[0..] == s;
      assert !Contains(s[1..], "b'") by {
        forall i | 0 <= i <= |s[1..]| ensures !StartsWith(s[1..][i..], "b'") {
          assert s[1..][i..] == s[i + 1..];
        }
      }
      NoMarkerUnchanged(s[1..], minLength, token);
    }
  }

  /** Pure-ASCII text has no byte literal of positive length to replace. */
  lemma {:induction false} AsciiUnchanged(s: string, minLength: nat, token: string)
    requires minLength >= 1 && forall i | 0 <= i < |s| :: IsAscii(s[i])
    ensures ReplaceByteEncodedString(s, minLength, token) == s
    decreases |s|
  {
    if s != [] {
      if MatchAt(s, minLength) > 0 {
        assert false;
      }
      assert forall i | 0 <= i < |s[1..]| :: s[1..][i] == s[i + 1];
      AsciiUnchanged(s[1..], minLength, token);
    }
  }

  /** A byte literal shorter than the minimum is kept. */
  lemma ShortLiteralKept(run: string, minLength: nat)
    requires |run| < minLength && forall i | 0 <= i < |run| :: !IsAscii(run[i])
    ensures MatchAt("b'" + run + "'", minLength) == 0
  {
    var t := "b'" + run + "'";
    assert t[2..] == run + "'";
    RunOfLiteral(run, "'");
  }
}
