/**
 * The delimiter tokenizer `split(s, delimiter)` of the utility library, together with
 * its inverse, joining tokens with the delimiter.
 *
 * `split` scans left to right: it looks for the next occurrence of the delimiter at or
 * after `start`, emits the text before it as a token, moves `start` past the delimiter,
 * and finally emits the rest of the string as the last token.
 */
module Utils {
  import opened Wrappers

  /** `d` occurs in `s` starting at position `q`. */
  predicate OccursAt(s: string, d: string, q: int)
  {
    0 <= q && q + |d| <= |s| && s[q..q + |d|] == d
  }

  /** `d` occurs somewhere in `s` as a substring. */
  predicate Contains(s: string, d: string)
  {
    exists q :: 0 <= q <= |s| && OccursAt(s, d, q)
  }

  /**
   * No proper non-empty prefix of `d` is also a suffix of `d`: two occurrences of
   * such a delimiter can never overlap.
   */
  predicate Unbordered(d: string)
  {
    forall k :: 0 < k < |d| ==> d[..k] != d[|d| - k..]
  }

  /**
   * std::string::find(d, start): the first position at or after `start` where `d`
   * occurs in `s`, or None (npos).
   */
  function FindFrom(s: string, d: string, start: nat): (r: Option<nat>)
    requires start <= |s|
    ensures r.Some? ==> start <= r.value && r.value + |d| <= |s|
    decreases |s| - start
  {
    if start + |d| > |s| then None
    else if OccursAt(s, d, start) then Some(start)
    else FindFrom(s, d, start + 1)
  }

  /** FindFrom returns the first occurrence at or after `start`, and None when there is none. */
  lemma {:induction false} FindFromIsFirstOccurrence(s: string, d: string, start: nat)
    requires start <= |s|
    ensures FindFrom(s, d, start).Some? ==> OccursAt(s, d, FindFrom(s, d, start).value)
    ensures FindFrom(s, d, start).Some? ==>
      forall q :: start <= q < FindFrom(s, d, start).value ==> !OccursAt(s, d, q)
    ensures FindFrom(s, d, start).None? ==> forall q :: start <= q ==> !OccursAt(s, d, q)
    decreases |s| - start
  {
    if start + |d| > |s| {
    } else if OccursAt(s, d, start) {
    } else {
      FindFromIsFirstOccurrence(s, d, start + 1);
    }
  }

  /** The tokens `split(s, d)` emits from position `start` on. */
  function TokensFrom(s: string, d: string, start: nat): (r: seq<string>)
    requires d != [] && start <= |s|
    decreases |s| - start
  {
    match FindFrom(s, d, start)
    case None => [s[start..]]
    case Some(e) => [s[start..e]] + TokensFrom(s, d, e + |d|)
  }

  /** The tokens `split(s, d)` returns: the specification of the method Split. */
  function Tokens(s: string, d: string): (r: seq<string>)
    requires d != []
  {
    TokensFrom(s, d, 0)
  }

  /**
   * One step of the tokenizer: the token up to the next occurrence, then the rest.
   * (An unfolding of TokensFrom, stated once for the proofs that use it.)
   */
  lemma TokensFromStep(s: string, d: string, start: nat)
    requires d != [] && start <= |s|
    ensures FindFrom(s, d, start).None? ==> TokensFrom(s, d, start) == [s[start..]]
    ensures FindFrom(s, d, start).Some? ==>
      var e := FindFrom(s, d, start).value;
      TokensFrom(s, d, start) == [s[start..e]] + TokensFrom(s, d, e + |d|)
  {
  }

  /** The tokens of `ts` with `d` between each two neighbours and none after the last. */
  function Join(ts: seq<string>, d: string): string
    decreases |ts|
  {
    if |ts| == 0 then ""
    else if |ts| == 1 then ts[0]
    else ts[0] + d + Join(ts[1..], d)
  }

  /**
   * The number of non-overlapping occurrences of `d` in `s` from `i` on, counted by
   * scanning left to right one position at a time and jumping over each occurrence.
   */
  function CountFrom(s: string, d: string, i: nat): nat
    requires d != [] && i <= |s|
    decreases |s| - i
  {
    if i + |d| > |s| then 0
    else if OccursAt(s, d, i) then 1 + CountFrom(s, d, i + |d|)
    else CountFrom(s, d, i + 1)
  }

  /**
   * The state of the loop of Split as a function: what it returns once it has emitted
   * `emitted` and goes on scanning at `start`.  This is a proof device, the accumulating
   * form of TokensFrom, which stays the definition of the tokens; EmittingTokens relates
   * the two.  Split's invariant is stated with it because the loop accumulates.
   */
  function Emitting(s: string, d: string, start: nat, emitted: seq<string>): seq<string>
    requires d != [] && start <= |s|
    decreases |s| - start
  {
    match FindFrom(s, d, start)
    case None => emitted + [s[start..]]
    case Some(e) => Emitting(s, d, e + |d|, emitted + [s[start..e]])
  }

  /** One turn of the loop of Split keeps what it will return (an unfolding of Emitting). */
  lemma EmittingStep(s: string, d: string, start: nat, emitted: seq<string>, all: seq<string>)
    requires d != [] && start <= |s| && FindFrom(s, d, start).Some?
    requires Emitting(s, d, start, emitted) == all
    ensures var e := FindFrom(s, d, start).value;
      Emitting(s, d, e + |d|, emitted + [s[start..e]]) == all
  {
  }

  /** The exit of the loop of Split: the rest of `s` is the last token (an unfolding of Emitting). */
  lemma EmittingLast(s: string, d: string, start: nat, emitted: seq<string>, all: seq<string>)
    requires d != [] && start <= |s| && FindFrom(s, d, start).None?
    requires Emitting(s, d, start, emitted) == all
    ensures emitted + [s[start..]] == all
  {
  }

  /** Going on at `start` after `emitted` yields `emitted` followed by the tokens from `start`. */
  lemma {:induction false} EmittingTokens(s: string, d: string, start: nat, emitted: seq<string>)
    requires d != [] && start <= |s|
    ensures Emitting(s, d, start, emitted) == emitted + TokensFrom(s, d, start)
    decreases |s| - start
  {
    match FindFrom(s, d, start)
    case None =>
    case Some(e) =>
      var token, rest := s[start..e], TokensFrom(s, d, e + |d|);
      EmittingTokens(s, d, e + |d|, emitted + [token]);
      assert Emitting(s, d, start, emitted) == (emitted + [token]) + rest;
      assert TokensFrom(s, d, start) == [token] + rest;
      AppendAssociative(emitted, [token], rest);
  }

  /** Concatenation is associative, stated once for EmittingTokens. */
  lemma AppendAssociative<T>(a: seq<T>, b: seq<T>, c: seq<T>)
    ensures (a + b) + c == a + (b + c)
  {
  }

  /** The tokenizer of utils.cpp: a loop that advances `start` past each delimiter found. */
  method Split(s: string, d: string) returns (tokens: seq<string>)
    requires d != []
    ensures tokens == Tokens(s, d)
  {
    tokens := [];
    var start: nat := 0;
    var end := FindFrom(s, d, start);
    while end.Some?
      invariant start <= |s|
      invariant end == FindFrom(s, d, start)
      invariant Emitting(s, d, start, tokens) == Emitting(s, d, 0, [])
      decreases |s| - start
    {
      var e: nat := end.value;
      ghost var emitted, from := tokens, start;
      tokens := tokens + [s[start..e]];
      start := e + |d|;
      end := FindFrom(s, d, start);
      EmittingStep(s, d, from, emitted, Emitting(s, d, 0, []));
    }
    EmittingLast(s, d, start, tokens, Emitting(s, d, 0, []));
    EmittingTokens(s, d, 0, []);
    tokens := tokens + [s[start..]];
  }

  /** `split` always returns at least one token. */
  lemma {:induction false} TokensNonEmpty(s: string, d: string, start: nat)
    requires d != [] && start <= |s|
    ensures |TokensFrom(s, d, start)| >= 1
  {
  }

  /** Joining the tokens from `start` on with the delimiter gives back `s[start..]`. */
  lemma {:induction false} JoinTokensFrom(s: string, d: string, start: nat)
    requires d != [] && start <= |s|
    ensures Join(TokensFrom(s, d, start), d) == s[start..]
    decreases |s| - start
  {
    FindFromIsFirstOccurrence(s, d, start);
    var f := FindFrom(s, d, start);
    if f.Some? {
      var e := f.value;
      JoinTokensFrom(s, d, e + |d|);
      var ts := TokensFrom(s, d, e + |d|);
      TokensNonEmpty(s, d, e + |d|);
      var all := TokensFrom(s, d, start);
      assert all == [s[start..e]] + ts;
      assert |all| >= 2 && all[0] == s[start..e] && all[1..] == ts;
      assert Join(all, d) == s[start..e] + d + s[e + |d|..];
      assert s[e..e + |d|] == d;
      assert s[start..] == s[start..e] + s[e..e + |d|] + s[e + |d|..];
    }
  }

  /** Joining the tokens of `s` with the delimiter gives back `s` exactly. */
  lemma JoinTokens(s: string, d: string)
    requires d != []
    ensures Join(Tokens(s, d), d) == s
  {
    JoinTokensFrom(s, d, 0);
    assert s[0..] == s;
  }

  /** The text between `start` and the next occurrence contains no occurrence. */
  lemma GapAvoidsDelimiter(s: string, d: string, start: nat, e: nat)
    requires d != [] && start <= e <= |s|
    requires forall q :: start <= q < e ==> !OccursAt(s, d, q)
    ensures !Contains(s[start..e], d)
  {
    var t := s[start..e];
    forall q | 0 <= q <= |t| ensures !OccursAt(t, d, q) {
      if q + |d| <= |t| {
        var u, w := t[q..q + |d|], s[start + q..start + q + |d|];
        assert |u| == |w|;
        forall j | 0 <= j < |u| ensures u[j] == w[j] {
          assert u[j] == t[q + j] == s[start + q + j];
        }
        assert u == w;
        assert !OccursAt(s, d, start + q);
      }
    }
  }

  /** No token of `split(s, d)` from `start` on contains the delimiter. */
  lemma {:induction false} TokensFromAvoidDelimiter(s: string, d: string, start: nat)
    requires d != [] && start <= |s|
    ensures forall i :: 0 <= i < |TokensFrom(s, d, start)| ==> !Contains(TokensFrom(s, d, start)[i], d)
    decreases |s| - start
  {
    FindFromIsFirstOccurrence(s, d, start);
    var f := FindFrom(s, d, start);
    if f.Some? {
      var e := f.value;
      GapAvoidsDelimiter(s, d, start, e);
      TokensFromAvoidDelimiter(s, d, e + |d|);
    } else {
      GapAvoidsDelimiter(s, d, start, |s|);
      assert s[start..|s|] == s[start..];
    }
  }

  /** No token of `split(s, d)` contains the delimiter. */
  lemma TokensAvoidDelimiter(s: string, d: string)
    requires d != []
    ensures forall i :: 0 <= i < |Tokens(s, d)| ==> !Contains(Tokens(s, d)[i], d)
  {
    TokensFromAvoidDelimiter(s, d, 0);
  }

  /** `split` returns `[s]` exactly when the delimiter does not occur in `s`. */
  lemma SingleTokenIffNoDelimiter(s: string, d: string)
    requires d != []
    ensures Tokens(s, d) == [s] <==> !Contains(s, d)
  {
    FindFromIsFirstOccurrence(s, d, 0);
    var f := FindFrom(s, d, 0);
    if f.Some? {
      TokensNonEmpty(s, d, f.value + |d|);
      assert |Tokens(s, d)| >= 2;
    } else {
      assert s[0..] == s;
    }
  }

  /** Scanning skips the positions before the next occurrence without counting. */
  lemma {:induction false} CountSkipsGap(s: string, d: string, i: nat, k: nat)
    requires d != [] && i <= k <= |s|
    requires forall q :: i <= q < k ==> !OccursAt(s, d, q)
    ensures CountFrom(s, d, i) == CountFrom(s, d, k)
    decreases k - i
  {
    if i < k && i + |d| <= |s| {
      assert !OccursAt(s, d, i);
      CountSkipsGap(s, d, i + 1, k);
    } else if i < k {
      assert CountFrom(s, d, i) == 0;
      assert CountFrom(s, d, k) == 0;
    }
  }

  /** From `start` on, `split` emits one token more than there are occurrences found. */
  lemma {:induction false} TokenCountFrom(s: string, d: string, start: nat)
    requires d != [] && start <= |s|
    ensures |TokensFrom(s, d, start)| == 1 + CountFrom(s, d, start)
    decreases |s| - start
  {
    FindFromIsFirstOccurrence(s, d, start);
    var f := FindFrom(s, d, start);
    if f.None? {
      CountSkipsGap(s, d, start, |s|);
      assert CountFrom(s, d, |s|) == 0;
    } else {
      var e := f.value;
      CountSkipsGap(s, d, start, e);
      TokenCountFrom(s, d, e + |d|);
    }
  }

  /** `split` returns one token more than there are non-overlapping occurrences. */
  lemma TokenCount(s: string, d: string)
    requires d != []
    ensures |Tokens(s, d)| == 1 + CountFrom(s, d, 0)
  {
    TokenCountFrom(s, d, 0);
  }

  /** Joining a sequence with one more token appends the delimiter and that token. */
  lemma {:induction false} JoinSnoc(ts: seq<string>, t: string, d: string)
    requires |ts| >= 1
    ensures Join(ts + [t], d) == Join(ts, d) + d + t
    decreases |ts|
  {
    if |ts| == 1 {
      assert ts + [t] == [ts[0], t];
      assert Join([t], d) == t;
    } else {
      JoinSnoc(ts[1..], t, d);
      assert (ts + [t])[1..] == ts[1..] + [t];
    }
  }

  /** Searching `p + r` past the prefix `p` is searching `r`, shifted by `|p|`. */
  lemma {:induction false} FindFromShift(p: string, r: string, d: string, k: nat)
    requires k <= |r|
    ensures FindFrom(r, d, k).None? ==> FindFrom(p + r, d, |p| + k).None?
    ensures FindFrom(r, d, k).Some? ==> FindFrom(p + r, d, |p| + k) == Some(|p| + FindFrom(r, d, k).value)
    decreases |r| - k
  {
    var s := p + r;
    if k + |d| <= |r| {
      assert s[|p| + k..|p| + k + |d|] == r[k..k + |d|];
    }
    if k + |d| <= |r| && !OccursAt(r, d, k) && k < |r| {
      FindFromShift(p, r, d, k + 1);
    }
  }

  /** Tokenizing `p + r` past the prefix `p` is tokenizing `r`. */
  lemma {:induction false} TokensFromShift(p: string, r: string, d: string, k: nat)
    requires d != [] && k <= |r|
    ensures TokensFrom(p + r, d, |p| + k) == TokensFrom(r, d, k)
    decreases |r| - k
  {
    var s := p + r;
    FindFromShift(p, r, d, k);
    TokensFromStep(s, d, |p| + k);
    TokensFromStep(r, d, k);
    var f := FindFrom(r, d, k);
    if f.Some? {
      var e := f.value;
      SliceOfConcat(p, r, k, e);
      TokensFromShift(p, r, d, e + |d|);
    } else {
      SliceOfConcat(p, r, k, |r|);
      assert r[k..|r|] == r[k..] && s[|p| + k..|p| + |r|] == s[|p| + k..];
    }
  }

  /** A slice of `p + r` past `p` is the corresponding slice of `r`. */
  lemma SliceOfConcat(p: string, r: string, k: nat, e: nat)
    requires k <= e <= |r|
    ensures (p + r)[|p| + k..|p| + e] == r[k..e]
  {
    var a, b := (p + r)[|p| + k..|p| + e], r[k..e];
    assert |a| == |b|;
    forall i | 0 <= i < |a| ensures a[i] == b[i] {
      assert a[i] == (p + r)[|p| + k + i];
    }
  }

  /**
   * An occurrence of `d` that starts inside `t` and ends inside the delimiter after it
   * shows a prefix of `d` that is also a suffix of `d`.
   */
  lemma StraddleIsBorder(t: string, d: string, rest: string, q: nat)
    requires q < |t| < q + |d| && OccursAt(t + d + rest, d, q)
    ensures d[..q + |d| - |t|] == d[|d| - (q + |d| - |t|)..]
  {
    var s := t + d + rest;
    var k := |t| - q;
    assert s[q..q + |d|] == d;
    assert d[k..] == s[|t|..q + |d|];
    assert s[|t|..|t| + |d|] == d;
    assert s[|t|..q + |d|] == d[..|d| - k];
  }

  /**
   * When a token does not contain an unbordered delimiter, the first occurrence of the
   * delimiter in `t + d + rest` is the one right after `t`.
   */
  lemma FindAfterToken(t: string, d: string, rest: string)
    requires d != [] && Unbordered(d) && !Contains(t, d)
    ensures FindFrom(t + d + rest, d, 0) == Some(|t|)
  {
    var s := t + d + rest;
    assert s[|t|..|t| + |d|] == d;
    assert OccursAt(s, d, |t|);
    forall q | 0 <= q < |t| ensures !OccursAt(s, d, q) {
      if q + |d| <= |t| {
        assert t[q..q + |d|] == s[q..q + |d|];
        assert !OccursAt(t, d, q);
      } else if OccursAt(s, d, q) {
        StraddleIsBorder(t, d, rest, q);
      }
    }
    FindFromIsFirstOccurrence(s, d, 0);
  }

  /**
   * Splitting a join gives back the tokens, provided there is at least one token, no
   * token contains the delimiter and the delimiter is unbordered.
   */
  lemma {:induction false} TokensOfJoin(ts: seq<string>, d: string)
    requires |ts| >= 1 && d != [] && Unbordered(d)
    requires forall i :: 0 <= i < |ts| ==> !Contains(ts[i], d)
    ensures Tokens(Join(ts, d), d) == ts
    decreases |ts|
  {
    var t := ts[0];
    if |ts| == 1 {
      FindFromIsFirstOccurrence(t, d, 0);
      assert FindFrom(t, d, 0) == None;
      assert t[0..] == t;
    } else {
      var rest := Join(ts[1..], d);
      FindAfterToken(t, d, rest);
      var s := t + d + rest;
      assert s[0..|t|] == t;
      TokensFromShift(t + d, rest, d, 0);
      assert (t + d) + rest == s;
      TokensOfJoin(ts[1..], d);
      assert ts == [t] + ts[1..];
    }
  }

  /** With a bordered delimiter the round trip fails: "a" + "aa" + "b" splits as "", "ab". */
  lemma BorderedDelimiterBreaksRoundTrip()
    ensures !Unbordered("aa")
    ensures Join(["a", "b"], "aa") == "aaab"
    ensures Tokens("aaab", "aa") == ["", "ab"]
  {
    assert "aa"[..1] == "aa"[1..];
    var s := "aaab";
    assert OccursAt(s, "aa", 0) by { assert s[0..2] == "aa"; }
    assert !OccursAt(s, "aa", 2) by { assert s[2..4][1] != 'a'; }
    assert FindFrom(s, "aa", 2) == None by {
      assert !OccursAt(s, "aa", 3);
    }
    assert s[0..0] == "" && s[2..] == "ab";
  }
}
