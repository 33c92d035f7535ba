/** The streaming Knuth-Morris-Pratt matcher (libahttp/kmp.h, libahttp/kmp.C). */
module Kmp {
  import opened Bytes

  /** The first k bytes of pattern p end the text t. */
  predicate Ends(p: bytes, k: nat, t: bytes) {
    k <= |p| && k <= |t| && t[|t| - k..] == p[..k]
  }

  /** k is the largest number below bound such that p[..k] ends t. */
  ghost predicate Longest(p: bytes, k: nat, t: bytes, bound: nat) {
    && k < bound
    && Ends(p, k, t)
    && (forall j :: k < j < bound ==> !Ends(p, j, t))
  }

  /** pi[i] is the longest proper prefix of p[..i + 1] that is also its suffix, for i below n. */
  ghost predicate IsFailureTable(p: bytes, pi: seq<nat>, n: nat) {
    n <= |p| == |pi| && forall i :: 0 <= i < n ==> Longest(p, pi[i], p[..i + 1], i + 1)
  }

  lemma FailureTableExtend(p: bytes, pi: seq<nat>, n: nat, k: nat)
    requires IsFailureTable(p, pi, n) && n < |p| && Longest(p, k, p[..n + 1], n + 1)
    ensures IsFailureTable(p, pi[n := k], n + 1)
  {
  }

  /** What the inner loops keep: q is a border of t, and every longer one fails to extend by c. */
  ghost predicate Candidate(p: bytes, q: nat, t: bytes, c: byte, bound: nat) {
    && q < bound <= |p|
    && Ends(p, q, t)
    && (forall j :: q < j < bound && Ends(p, j, t) ==> p[j] != c)
  }

  lemma EndsSnoc(p: bytes, k: nat, t: bytes, c: byte)
    requires k < |p|
    ensures Ends(p, k + 1, t + [c]) <==> Ends(p, k, t) && p[k] == c
  {
    var u := t + [c];
    if k <= |t| {
      assert u[|u| - (k + 1)..] == t[|t| - k..] + [c];
      assert p[..k + 1] == p[..k] + [p[k]];
      if Ends(p, k + 1, u) {
        assert (t[|t| - k..] + [c])[k] == (p[..k] + [p[k]])[k];
        assert t[|t| - k..] == (t[|t| - k..] + [c])[..k] == (p[..k] + [p[k]])[..k] == p[..k];
      }
    }
  }

  /** Below a known border q of t, the borders of t are those of p[..q]. */
  lemma EndsChain(p: bytes, j: nat, q: nat, t: bytes)
    requires j <= q <= |p| && Ends(p, q, t)
    ensures Ends(p, j, t) <==> Ends(p, j, p[..q])
  {
    assert t[|t| - j..] == t[|t| - q..][q - j..];
    assert p[..q][q - j..] == t[|t| - j..];
  }

  lemma ChainLongest(p: bytes, k: nat, q: nat, t: bytes)
    requires q <= |p| && Ends(p, q, t) && Longest(p, k, p[..q], q)
    ensures Longest(p, k, t, q)
  {
    forall j | k <= j < q
      ensures Ends(p, j, t) <==> Ends(p, j, p[..q])
    {
      EndsChain(p, j, q, t);
    }
  }

  /** One failure link keeps the loop's property. */
  lemma Fallback(p: bytes, q: nat, k: nat, t: bytes, c: byte, bound: nat)
    requires Candidate(p, q, t, c, bound) && p[q] != c
    requires Longest(p, k, p[..q], q)
    ensures Candidate(p, k, t, c, bound)
  {
    ChainLongest(p, k, q, t);
  }

  /** Where the loop stops, the border of t extended by c is known. */
  lemma Advance(p: bytes, q: nat, t: bytes, c: byte, bound: nat)
    requires Candidate(p, q, t, c, bound)
    requires q == 0 || p[q] == c
    ensures Longest(p, if p[q] == c then q + 1 else 0, t + [c], bound + 1)
  {
    var k := if p[q] == c then q + 1 else 0;
    assert Ends(p, k, t + [c]) by { EndsSnoc(p, q, t, c); }
    forall j | k < j < bound + 1
      ensures !Ends(p, j, t + [c])
    {
      EndsSnoc(p, j - 1, t, c);
    }
  }

  lemma LongestEmpty(p: bytes, t: bytes, bound: nat)
    requires 1 <= bound && (t == [] || bound == 1)
    ensures Longest(p, 0, t, bound)
  {
  }

  function FoldByte(c: byte, ci: bool): byte {
    if ci then ToLower(c) else c
  }

  function FoldAll(s: bytes, ci: bool): (r: bytes)
    ensures |r| == |s|
    ensures forall i :: 0 <= i < |s| ==> r[i] == FoldByte(s[i], ci)
  {
    if ci then LowerAll(s) else s
  }

  predicate SameByte(a: byte, b: byte, ci: bool) {
    || a == b
    || (ci && 'A' as int <= a <= 'Z' as int && b - a == 'a' as int - 'A' as int)
    || (ci && 'A' as int <= b <= 'Z' as int && a - b == 'a' as int - 'A' as int)
  }

  /** What matching folded bytes means for the bytes: the last ones are those of the pattern, up to the case of
      letters where that does not matter. */
  lemma EndsMeans(pattern: bytes, t: bytes, ci: bool)
    ensures Ends(FoldAll(pattern, ci), |pattern|, FoldAll(t, ci)) <==>
      |pattern| <= |t| && forall i :: 0 <= i < |pattern| ==> SameByte(t[|t| - |pattern| + i], pattern[i], ci)
  {
    var p, f := FoldAll(pattern, ci), FoldAll(t, ci);
    if |pattern| <= |t| {
      var d := |t| - |pattern|;
      forall i | 0 <= i < |pattern|
        ensures f[d..][i] == p[..|p|][i] <==> SameByte(t[d + i], pattern[i], ci)
      {
        SameInLowerCase(t[d + i], pattern[i]);
        assert f[d + i] == FoldByte(t[d + i], ci) && p[i] == FoldByte(pattern[i], ci);
      }
      if forall i :: 0 <= i < |pattern| ==> SameByte(t[d + i], pattern[i], ci) {
        assert f[d..] == p[..|p|];
      }
    }
  }

  /** Fills the failure table of p; links counts the failure links followed. */
  method Preproc(p: bytes) returns (pi: array<nat>, ghost links: nat)
    ensures fresh(pi) && IsFailureTable(p, pi[..], |p|)
    ensures links <= |p|
  {
    pi := new nat[|p|](_ => 0);
    var k: nat := 0;
    var qTmp := 1;
    links := 0;
    if |p| > 0 {
      LongestEmpty(p, p[..1], 1);
    }
    while qTmp < |p|
      invariant 1 <= qTmp && (qTmp <= |p| || qTmp == 1)
      invariant |p| > 0 ==> IsFailureTable(p, pi[..], qTmp)
      invariant |p| > 0 ==> pi[qTmp - 1] == k
      invariant links + k < qTmp
    {
      ghost var table := pi[..];
      ghost var t := p[..qTmp];
      while k > 0 && p[k] != p[qTmp]
        invariant pi[..] == table
        invariant Candidate(p, k, t, p[qTmp], qTmp)
        invariant links + k < qTmp
      {
        ghost var i := k - 1;
        assert Longest(p, table[i], p[..i + 1], i + 1);
        Fallback(p, k, pi[k - 1], t, p[qTmp], qTmp);
        k := pi[k - 1];
        links := links + 1;
      }
      Advance(p, k, t, p[qTmp], qTmp);
      if p[k] == p[qTmp] {
        k := k + 1;
      }
      assert p[..qTmp + 1] == t + [p[qTmp]];
      FailureTableExtend(p, table, qTmp, k);
      pi[qTmp] := k;
      assert pi[..] == table[qTmp := k];
      qTmp := qTmp + 1;
    }
  }

  class KmpMatcher {
    const caseInsensitive: bool
    const pattern: bytes
    const pi: seq<nat>      // the failure table, constant once the constructor has filled it
    var q: nat
    ghost var text: bytes   // folded bytes matched since the last reset
    ghost var links: nat    // failure links followed since the last reset

    ghost predicate Valid()
      reads this
    {
      && IsFailureTable(pattern, pi, |pattern|)
      && (|pattern| > 0 ==> Longest(pattern, q, text, |pattern|))
      && (|pattern| == 0 ==> q == 0)
      && links + q <= |text|
    }

    function Fold(c: byte): byte {
      FoldByte(c, caseInsensitive)
    }

    constructor (s: bytes, ci: bool := true)
      ensures Valid()
      ensures caseInsensitive == ci && pattern == FoldAll(s, ci)
      ensures text == [] && q == 0 && links == 0
    {
      var folded := FoldAll(s, ci);
      var table, _ := Preproc(folded);
      if |folded| > 0 {
        LongestEmpty(folded, [], |folded|);
      }
      caseInsensitive, pattern, pi := ci, folded, table[..];
      q, text, links := 0, [], 0;
    }

    method Reset()
      requires Valid()
      modifies this`q, this`text, this`links
      ensures Valid() && text == [] && links == 0
    {
      q := 0;
      text, links := [], 0;
    }

    /** True exactly when the bytes since the last reset end with the pattern. */
    method Match(ch: byte) returns (found: bool)
      requires Valid() && |pattern| > 0
      modifies this`q, this`text, this`links
      ensures Valid()
      ensures text == old(text) + [Fold(ch)]
      ensures found <==> Ends(pattern, |pattern|, text)
      ensures links <= |text|
    {
      var c := Fold(ch);
      ghost var t := text;
      while q > 0 && pattern[q] != c
        invariant Candidate(pattern, q, t, c, |pattern|)
        invariant links + q <= |t|
      {
        ghost var i := q - 1;
        assert Longest(pattern, pi[i], pattern[..i + 1], i + 1);
        Fallback(pattern, q, pi[q - 1], t, c, |pattern|);
        q := pi[q - 1];
        links := links + 1;
      }
      Advance(pattern, q, t, c, |pattern|);
      if pattern[q] == c {
        q := q + 1;
      }
      text := t + [c];
      if q == |pattern| {
        assert Longest(pattern, pi[q - 1], pattern[..q], q);
        ChainLongest(pattern, pi[q - 1], q, text);
        q := pi[q - 1];
        links := links + 1;
        return true;
      } else {
        return false;
      }
    }
  }
}
