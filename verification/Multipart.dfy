/** The multipart boundary scanner (libahttp/mpfd.C): a boundary stack of streaming matchers over the
    character reader, with the reader's mirror collecting the data before the boundary. */
module Multipart {
  import opened Bytes
  import opened Kmp
  import opened Abuf

  datatype Scan = Found | MustWait | AtEof | ParseErr

  const DASHES: bytes := [45, 45]

  /** Pattern p (already folded when ci) ends the bytes s. */
  predicate EndsHere(p: bytes, ci: bool, s: bytes) {
    Ends(p, |p|, FoldAll(s, ci))
  }

  /** No prefix of s ends with p: the boundary does not occur in s. */
  ghost predicate Absent(p: bytes, ci: bool, s: bytes) {
    forall e :: 0 <= e <= |s| ==> !EndsHere(p, ci, s[..e])
  }

  /** s is the input up to and including the first occurrence of p. */
  ghost predicate FirstAt(p: bytes, ci: bool, s: bytes) {
    EndsHere(p, ci, s) && forall e :: 0 <= e < |s| ==> !EndsHere(p, ci, s[..e])
  }

  /** The data part a reader expects: what precedes the boundary, less one CRLF. */
  function Expected(s: bytes, plen: nat): bytes
    requires plen <= |s|
  {
    StripCrlf(s[..|s| - plen])
  }

  /** The data part the scanner delivers when the mirror holds cap bytes. */
  function Mirrored(s: bytes, plen: nat, cap: nat): bytes
    requires plen <= |s| && plen <= cap
  {
    StripCrlf(s[..Min(|s|, cap) - plen])
  }

  lemma FoldAppend(s: bytes, b: byte, ci: bool)
    ensures FoldAll(s + [b], ci) == FoldAll(s, ci) + [FoldByte(b, ci)]
  {
  }

  lemma AbsentExtend(p: bytes, ci: bool, s: bytes, b: byte)
    requires Absent(p, ci, s)
    ensures EndsHere(p, ci, s + [b]) ==> FirstAt(p, ci, s + [b])
    ensures !EndsHere(p, ci, s + [b]) ==> Absent(p, ci, s + [b])
  {
    var u := s + [b];
    forall e | 0 <= e < |u|
      ensures !EndsHere(p, ci, u[..e])
    {
      PrefixOfPrefix(u, e, |s|);
    }
    assert u[..|u|] == u;
  }

  lemma PrefixOfPrefix(s: bytes, a: nat, b: nat)
    requires a <= b <= |s|
    ensures s[..b][..a] == s[..a]
  {
  }

  /** The first occurrence is a property of the stream, not of where it is cut. */
  lemma FirstAtUnique(p: bytes, ci: bool, s: bytes, a: nat, b: nat)
    requires a <= |s| && b <= |s| && FirstAt(p, ci, s[..a]) && FirstAt(p, ci, s[..b])
    ensures a == b
  {
    if a <= b {
      PrefixOfPrefix(s, a, b);
    } else {
      PrefixOfPrefix(s, b, a);
    }
  }

  predicate CrlfAt(s: bytes, i: int) {
    0 <= i && i + 2 <= |s| && s[i] == CR && s[i + 1] == LF
  }

  /** When the mirror is exactly large enough: if and only if the part and the boundary fit, but for one
      coincidence: they are two bytes over, these two are the CRLF to be stripped, and no CRLF stands before it. */
  lemma MirrorExact(s: bytes, plen: nat, cap: nat)
    requires plen <= |s| && plen <= cap
    ensures Mirrored(s, plen, cap) == Expected(s, plen) <==>
      || |s| <= cap
      || (|s| == cap + 2 && CrlfAt(s, cap - plen) && !CrlfAt(s, cap - plen - 2))
  {
    var want, have := s[..|s| - plen], s[..Min(|s|, cap) - plen];
    if |s| > cap {
      assert |StripCrlf(want)| == |want| || |StripCrlf(want)| == |want| - 2;
      assert |StripCrlf(have)| == |have| || |StripCrlf(have)| == |have| - 2;
      if |s| == cap + 2 {
        assert want[..|want| - 2] == have;
      }
    }
  }

  /** The part found in a stream, as a function of the stream alone: where it was cut plays no role. */
  ghost function PartOf(s: bytes, p: bytes, ci: bool, cap: nat): (r: Option<bytes>)
    requires |p| <= cap
  {
    if e: nat :| e <= |s| && FirstAt(p, ci, s[..e]) then Some(Mirrored(s[..e], |p|, cap)) else None
  }

  /** With a mirror as large as the part and its boundary, the part is what precedes the boundary. */
  lemma PartIsExpected(s: bytes, p: bytes, ci: bool, cap: nat, e: nat)
    requires |p| <= e <= |s| && |p| <= cap && FirstAt(p, ci, s[..e]) && e <= cap
    ensures PartOf(s, p, ci, cap) == Some(Expected(s[..e], |p|))
  {
    PartIs(s, p, ci, cap, e);
  }

  lemma PartIs(s: bytes, p: bytes, ci: bool, cap: nat, e: nat)
    requires e <= |s| && |p| <= cap && FirstAt(p, ci, s[..e])
    ensures |p| <= e && PartOf(s, p, ci, cap) == Some(Mirrored(s[..e], |p|, cap))
  {
    forall d: nat | d <= |s| && FirstAt(p, ci, s[..d])
      ensures d == e
    {
      FirstAtUnique(p, ci, s, d, e);
    }
  }

  /** There is no part exactly when the boundary does not occur. */
  lemma PartMissing(s: bytes, p: bytes, ci: bool, cap: nat)
    requires |p| <= cap
    ensures PartOf(s, p, ci, cap) == None <==> Absent(p, ci, s)
  {
    if !Absent(p, ci, s) {
      var e := FirstEnd(s, p, ci);
      PartIs(s, p, ci, cap, e);
    }
  }

  /** Where the boundary first ends, if it occurs. */
  lemma FirstEnd(s: bytes, p: bytes, ci: bool) returns (e: nat)
    requires !Absent(p, ci, s)
    ensures e <= |s| && FirstAt(p, ci, s[..e])
  {
    hide EndsHere;
    var d :| 0 <= d <= |s| && EndsHere(p, ci, s[..d]);
    e := 0;
    while !EndsHere(p, ci, s[..e])
      invariant e <= d && forall k :: 0 <= k < e ==> !EndsHere(p, ci, s[..k])
      decreases d - e
    {
      e := e + 1;
    }
    forall k | 0 <= k < e
      ensures !EndsHere(p, ci, s[..e][..k])
    {
      PrefixOfPrefix(s, k, e);
    }
  }

  lemma ConcatPrefix(chunks: seq<bytes>, n: nat)
    requires n <= |chunks|
    ensures |Concat(chunks[..n])| <= |Concat(chunks)| && Concat(chunks)[..|Concat(chunks[..n])|] == Concat(chunks[..n])
    decreases |chunks| - n
  {
    if n < |chunks| {
      ConcatPrefix(chunks, n + 1);
      ConcatSnoc(chunks, n);
      var a, b := Concat(chunks[..n]), Concat(chunks[..n + 1]);
      assert b[..|a|] == a;
      PrefixOfPrefix(Concat(chunks), |a|, |b|);
    } else {
      assert chunks[..n] == chunks;
    }
  }

  class Mpfd {
    const abuf: Abuf
    const scratch: array<byte>
    var boundaries: seq<KmpMatcher>
    var cbm: KmpMatcher?
    var matchEnded: bool
    ghost var since: bytes   // characters matched since the current search began

    ghost predicate Valid()
      reads this, abuf, abuf.src, abuf.src.ring, abuf.src.store, abuf.mirror, boundaries
    {
      && abuf.Valid()
      && scratch != abuf.src.store
      && (forall m <- boundaries :: m.Valid() && |m.pattern| > 0)
      && (Searching() ==>
          && cbm.text == FoldAll(since, cbm.caseInsensitive)
          && Absent(cbm.pattern, cbm.caseInsensitive, since))
    }

    /** The search for the innermost boundary is under way. */
    predicate Searching()
      reads this
    {
      |boundaries| > 0 && cbm == boundaries[|boundaries| - 1] && !matchEnded
    }

    ghost predicate Mirroring()
      reads this, abuf
    {
      abuf.mirror == scratch && abuf.mirrorEnd == scratch.Length && abuf.seen == since
    }

    constructor (a: Abuf, s: array<byte>)
      requires a.Valid() && s != a.src.store
      ensures Valid() && abuf == a && scratch == s && boundaries == []
    {
      abuf, scratch := a, s;
      boundaries, cbm, matchEnded, since := [], null, false, [];
    }

    method AddBoundary(b: bytes)
      requires Valid()
      modifies this`boundaries
      ensures Valid() && |boundaries| == |old(boundaries)| + 1 && boundaries[..|old(boundaries)|] == old(boundaries)
      ensures boundaries[|old(boundaries)|].pattern == LowerAll(['-' as int, '-' as int] + b)
      ensures fresh(boundaries[|old(boundaries)|]) && !Searching()
    {
      var m := new KmpMatcher(DASHES + b);
      boundaries := boundaries + [m];
    }

    method RemoveBoundary()
      requires Valid()
      modifies this`boundaries, this`cbm
      ensures Valid() && cbm == null && !Searching()
      ensures boundaries == if |old(boundaries)| == 0 then [] else old(boundaries)[..|old(boundaries)| - 1]
    {
      if |boundaries| > 0 {
        boundaries := boundaries[..|boundaries| - 1];
      }
      cbm := null;
    }

    /** Begins a search unless one is under way; wantDat sets up the mirror for it. */
    method Begin(wantDat: bool)
      requires Valid() && |boundaries| > 0
      modifies this`cbm, this`matchEnded, this`since, boundaries, abuf`mirror, abuf`mirrorP, abuf`mirrorEnd, abuf`seen
      ensures abuf.mirror == scratch || abuf.mirror == old(abuf.mirror)
      ensures Valid() && Searching() && abuf.Pending() == old(abuf.Pending())
      ensures since == if old(Searching()) then old(since) else []
      ensures wantDat && (old(Searching()) ==> old(Mirroring())) ==> Mirroring()
      ensures abuf.erc == old(abuf.erc) && abuf.bc == old(abuf.bc)
      ensures old(Searching()) ==> cbm == old(cbm)
    {
      hide KmpMatcher.Valid, Abuf.Valid, Abuf.Pending;
      if cbm != boundaries[|boundaries| - 1] || matchEnded {
        matchEnded := false;
        cbm := boundaries[|boundaries| - 1];
        cbm.Reset();
        since := [];
        if wantDat {
          abuf.Mirror(scratch, scratch.Length);
        }
      }
    }

    /** What a search that stops with r has established about the characters seen by it. */
    ghost predicate Outcome(r: Scan)
      requires Valid()
      reads this, abuf, abuf.src, abuf.src.ring, abuf.src.store, abuf.mirror, boundaries, cbm
    {
      && cbm != null
      && (r == MustWait <==> Searching())
      && (r == Found ==> FirstAt(cbm.pattern, cbm.caseInsensitive, since) && |cbm.pattern| <= |since|)
      && (r != Found ==> Absent(cbm.pattern, cbm.caseInsensitive, since))
      && (r == AtEof ==> abuf.Pending() == [])
      && r != ParseErr
    }

    /** Runs the matcher on one more character. */
    method MatchNext(ch: byte) returns (found: bool)
      requires Valid() && Searching()
      modifies this`since, this`matchEnded, cbm
      ensures Valid() && abuf.Valid() && cbm == old(cbm) && matchEnded == found
      ensures since == old(since) + [ch]
      ensures if found then Outcome(Found) else Searching()
    {
      hide KmpMatcher.Valid, Abuf.Valid, Abuf.Pending;
      FoldAppend(since, ch, cbm.caseInsensitive);
      AbsentExtend(cbm.pattern, cbm.caseInsensitive, since, ch);
      found := cbm.Match(ch);
      since := since + [ch];
      matchEnded := found;
    }

    /** abuf->get() between two turns. */
    method NextChar() returns (ch: Got, ghost c: bytes)
      requires Valid() && abuf.Valid() && Searching()
      modifies abuf, abuf.src, abuf.src.ring, abuf.mirror
      ensures Valid() && abuf.Valid() && abuf.mirror == old(abuf.mirror) && abuf.mirrorEnd == old(abuf.mirrorEnd) && !abuf.bc
      ensures !old(abuf.bc) ==> abuf.seen == old(abuf.seen) + c
      ensures abuf.delivered == old(abuf.delivered) + c && old(abuf.Pending()) == c + abuf.Pending()
      ensures c == if ch.Ch? then [ch.b] else []
      ensures ch.WaitChar? ==> Outcome(MustWait) && abuf.erc == Wait && (old(abuf.erc) == Ok ==> abuf.Pending() == [])
      ensures ch.EofChar? ==> abuf.src.eof
      ensures abuf.src.ring != null ==> abuf.src.eof == old(abuf.src.eof)
      ensures ch.EofChar? ==> abuf.Pending() == []
      ensures ch.Ch? && old(abuf.erc) == Ok ==> abuf.erc == Ok
    {
      hide KmpMatcher.Valid, Abuf.Valid, Abuf.Pending, Absent, FirstAt;
      ch := abuf.Get();
      c := if ch.Ch? then [ch.b] else [];
    }

    method EndOfInput()
      requires Valid() && abuf.Valid() && Searching() && abuf.Pending() == []
      modifies this`matchEnded
      ensures Valid() && Outcome(AtEof)
    {
      hide KmpMatcher.Valid, Abuf.Valid, Abuf.Pending, Absent, FirstAt;
      matchEnded := true;
    }

    /** One turn of the search loop: None to go on. */
    method Step() returns (r: Option<Scan>, ghost c: bytes)
      requires Valid() && abuf.Valid() && Searching()
      modifies this`since, this`matchEnded, cbm, abuf, abuf.src, abuf.src.ring, abuf.mirror
      ensures Valid() && abuf.Valid() && abuf.mirror == old(abuf.mirror) && abuf.mirrorEnd == old(abuf.mirrorEnd) && !abuf.bc
      ensures since == old(since) + c && (!old(abuf.bc) ==> abuf.seen == old(abuf.seen) + c)
      ensures abuf.delivered == old(abuf.delivered) + c && old(abuf.Pending()) == c + abuf.Pending()
      ensures r.None? ==> Searching() && c != []
      ensures r.Some? ==> Outcome(r.value)
      ensures r == Some(MustWait) ==> abuf.erc == Wait && (old(abuf.erc) == Ok ==> abuf.Pending() == [])
      ensures r == Some(AtEof) ==> abuf.src.eof
      ensures abuf.src.ring != null ==> abuf.src.eof == old(abuf.src.eof)
      ensures r.None? && old(abuf.erc) == Ok ==> abuf.erc == Ok
    {
      hide Valid, KmpMatcher.Valid, Abuf.Valid, Abuf.Pending, Absent, FirstAt, Outcome;
      var ch;
      ch, c := NextChar();
      if ch.WaitChar? {
        r := Some(MustWait);
      } else if ch.EofChar? {
        EndOfInput();
        r := Some(AtEof);
      } else {
        var found := MatchNext(ch.b);
        r := if found then Some(Found) else None;
      }
    }

    /** The search loop. */
    method Search() returns (r: Scan, ghost got: bytes)
      requires Valid() && abuf.Valid() && Searching()
      modifies this`since, this`matchEnded, cbm, abuf, abuf.src, abuf.src.ring, abuf.mirror
      ensures Valid() && abuf.Valid() && abuf.mirror == old(abuf.mirror) && abuf.mirrorEnd == old(abuf.mirrorEnd) && !abuf.bc
      ensures since == old(since) + got && (!old(abuf.bc) ==> abuf.seen == old(abuf.seen) + got)
      ensures abuf.delivered == old(abuf.delivered) + got && old(abuf.Pending()) == got + abuf.Pending()
      ensures Outcome(r)
      ensures r == MustWait ==> abuf.erc == Wait && (old(abuf.erc) == Ok ==> abuf.Pending() == [])
      ensures r == AtEof ==> abuf.src.eof
      ensures abuf.src.ring != null ==> abuf.src.eof == old(abuf.src.eof)
    {
      hide Valid, KmpMatcher.Valid, Abuf.Valid, Abuf.Pending, Absent, FirstAt, Outcome;
      got := [];
      while true
        invariant Valid() && abuf.Valid() && Searching() && (got != [] || !old(abuf.bc) ==> !abuf.bc)
        invariant abuf.mirror == old(abuf.mirror) && abuf.mirrorEnd == old(abuf.mirrorEnd)
        invariant since == old(since) + got && (!old(abuf.bc) ==> abuf.seen == old(abuf.seen) + got)
        invariant abuf.delivered == old(abuf.delivered) + got
        invariant old(abuf.Pending()) == got + abuf.Pending()
        invariant old(abuf.erc) == Ok ==> abuf.erc == Ok
        invariant abuf.src.ring != null ==> abuf.src.eof == old(abuf.src.eof)
        decreases |abuf.Pending()|
      {
        ghost var before := got;
        var step, c := Step();
        got := got + c;
        assert before + (c + abuf.Pending()) == got + abuf.Pending();
        if step.Some? {
          return step.value, got;
        }
      }
    }

    /** Searches on through what the reader has. Whatever the chunks, Found means that the characters
        since the search began end in the boundary's first occurrence. */
    method MatchBoundary(wantDat: bool) returns (r: Scan, dat: bytes, ghost got: bytes)
      requires Valid()
      requires wantDat && |boundaries| > 0 ==>
        && !abuf.bc && (Searching() ==> Mirroring())
        && scratch.Length >= |boundaries[|boundaries| - 1].pattern|
      modifies this`cbm, this`matchEnded, this`since, boundaries, abuf, abuf.src, abuf.src.ring, abuf.mirror, scratch
      ensures Valid() && abuf.Valid() && (|boundaries| > 0 ==> !abuf.bc)
      ensures abuf.delivered == old(abuf.delivered) + got && old(abuf.Pending()) == got + abuf.Pending()
      ensures |boundaries| == 0 ==> r == ParseErr && got == []
      ensures |boundaries| > 0 ==>
        && cbm == boundaries[|boundaries| - 1]
        && since == old(if Searching() then since else []) + got
        && Outcome(r)
        && (r == Found && wantDat ==> dat == Mirrored(since, |cbm.pattern|, scratch.Length))
        && (r == MustWait && wantDat ==> Mirroring())
        && (r == MustWait ==> abuf.erc == Wait && (old(abuf.erc) == Ok ==> abuf.Pending() == []))
        && (r == AtEof ==> abuf.src.eof)
      ensures abuf.src.ring != null ==> abuf.src.eof == old(abuf.src.eof)
    {
      hide KmpMatcher.Valid, Abuf.Valid, Abuf.Pending, Absent, FirstAt, Mirrored;
      dat, got := [], [];
      if |boundaries| == 0 {
        return ParseErr, dat, got;
      }
      Begin(wantDat);
      r, got := Search();
      if r == Found && wantDat {
        dat := DataPart();
      }
    }

    /** Ends the mirror at a match. */
    method DataPart() returns (dat: bytes)
      requires Valid() && Mirroring() && cbm != null && !Searching() && !abuf.bc
      requires 0 < |cbm.pattern| <= scratch.Length && |cbm.pattern| <= |since|
      modifies abuf`mirror, abuf`mirrorP, abuf`mirrorEnd, scratch
      ensures Valid() && abuf.Pending() == old(abuf.Pending())
      ensures dat == Mirrored(since, |cbm.pattern|, scratch.Length)
    {
      hide KmpMatcher.Valid;
      dat := abuf.EndMirror2(|cbm.pattern|);
    }

    /** The reader waits for more input and has nothing left over. */
    ghost predicate Idle()
      requires Valid()
      reads this, abuf, abuf.src, abuf.src.ring, abuf.src.store, abuf.mirror, boundaries
    {
      && abuf.Valid() && !abuf.bc && abuf.erc == Wait && abuf.Pending() == []
      && abuf.src.ring != null && !abuf.src.eof
    }

    /** Event: a chunk arrives while the scanner waits. */
    method ChunkArrives(chunk: bytes)
      requires Valid() && Idle() && |chunk| <= abuf.src.store.Length
      modifies abuf`erc, abuf.src`rest, abuf.src.ring, abuf.src.store
      ensures Valid() && abuf.Valid() && !abuf.bc && abuf.erc == Ok && abuf.Pending() == chunk
      ensures !abuf.src.eof
      ensures Searching() && old(Mirroring()) ==> Mirroring()
    {
      hide KmpMatcher.Valid, Abuf.Pending, Absent;
      abuf.WaitingIsEmpty();
      assert [] + chunk == chunk;
      abuf.Arrive(chunk);
      abuf.CanRead();
    }

    /** parse_guts on one chunk: it stops at the boundary or waits with the whole chunk seen. */
    method ReceiveChunk(chunk: bytes, ghost m: KmpMatcher) returns (r: Scan, dat: bytes, ghost got: bytes)
      requires Valid() && Idle() && |boundaries| > 0 && m == boundaries[|boundaries| - 1]
      requires Searching() ==> Mirroring()
      requires Fits(m) && |chunk| <= abuf.src.store.Length
      modifies this`cbm, this`matchEnded, this`since, boundaries
      modifies abuf, abuf.src, abuf.src.ring, abuf.src.store, abuf.mirror, scratch
      ensures Valid() && abuf.Valid() && (r == Found || r == MustWait)
      ensures since == old(if Searching() then since else []) + got && got <= chunk
      ensures r == MustWait ==>
        Idle() && Searching() && Mirroring() && got == chunk && Absent(m.pattern, m.caseInsensitive, since)
      ensures r == Found ==>
        && FirstAt(m.pattern, m.caseInsensitive, since) && |m.pattern| <= |since|
        && dat == Mirrored(since, |m.pattern|, scratch.Length)
    {
      hide Valid, KmpMatcher.Valid, Abuf.Valid, Abuf.Pending, Absent, FirstAt, Mirrored;
      ChunkArrives(chunk);
      r, dat, got := MatchBoundary(true);
    }

    predicate Fits(m: KmpMatcher) {
      |m.pattern| <= scratch.Length
    }

    /** The part of the stream s before m's boundary, as the mirror keeps it. */
    ghost function PartBefore(m: KmpMatcher, s: bytes): Option<bytes>
      requires Fits(m)
    {
      PartOf(s, m.pattern, m.caseInsensitive, scratch.Length)
    }

    /** After i chunks the boundary has not occurred. */
    ghost predicate SeenOnly(chunks: seq<bytes>, i: nat, m: KmpMatcher)
      requires Valid() && i <= |chunks|
      reads this, abuf, abuf.src, abuf.src.ring, abuf.src.store, abuf.mirror, boundaries
    {
      && |boundaries| > 0 && m == boundaries[|boundaries| - 1]
      && if i == 0 then !Searching()
         else Searching() && Mirroring() && since == Concat(chunks[..i]) && Absent(m.pattern, m.caseInsensitive, since)
    }

    method ReceiveNext(chunks: seq<bytes>, i: nat, ghost m: KmpMatcher) returns (r: Scan, dat: bytes)
      requires Valid() && Idle() && i < |chunks| && SeenOnly(chunks, i, m)
      requires Fits(m) && |chunks[i]| <= abuf.src.store.Length
      modifies this`cbm, this`matchEnded, this`since, boundaries
      modifies abuf, abuf.src, abuf.src.ring, abuf.src.store, abuf.mirror, scratch
      ensures Valid() && abuf.Valid() && (r == Found || r == MustWait)
      ensures r == MustWait ==> Idle() && abuf.mirror == scratch && SeenOnly(chunks, i + 1, m)
      ensures r == Found ==> PartBefore(m, Concat(chunks)) == Some(dat)
    {
      hide *;
      SeenSoFar(chunks, i, m);
      ConcatSnoc(chunks, i);
      ghost var got;
      r, dat, got := ReceiveChunk(chunks[i], m);
      if r == Found {
        PartFound(chunks, i, got, m);
      } else {
        NowSeen(chunks, i + 1, m);
        MirrorIsScratch();
      }
    }

    /** The event loop around one search: parse_guts runs once per chunk until the boundary is found. */
    method ReceivePart(chunks: seq<bytes>) returns (r: Scan, dat: bytes)
      requires Valid() && Idle() && !Searching() && |boundaries| > 0
      requires Fits(boundaries[|boundaries| - 1])
      requires forall c <- chunks :: |c| <= abuf.src.store.Length
      modifies this`cbm, this`matchEnded, this`since, boundaries
      modifies abuf, abuf.src, abuf.src.ring, abuf.src.store, abuf.mirror, scratch
      ensures (if r == Found then Some(dat) else None) == PartBefore(boundaries[|boundaries| - 1], Concat(chunks))
      ensures Valid() && (r == Found || r == MustWait)
    {
      hide *;
      ghost var m := boundaries[|boundaries| - 1];
      r, dat := MustWait, [];
      NothingSeen(chunks, m);
      for i := 0 to |chunks|
        invariant Valid() && Idle() && r == MustWait && SeenOnly(chunks, i, m)
        invariant abuf.mirror == scratch || abuf.mirror == old(abuf.mirror)
      {
        r, dat := ReceiveNext(chunks, i, m);
        if r == Found {
          return;
        }
      }
      NoPart(chunks, m);
    }

    lemma NothingSeen(chunks: seq<bytes>, m: KmpMatcher)
      requires Valid() && |boundaries| > 0 && m == boundaries[|boundaries| - 1] && !Searching()
      ensures SeenOnly(chunks, 0, m)
    {
    }

    lemma SeenSoFar(chunks: seq<bytes>, i: nat, m: KmpMatcher)
      requires Valid() && i <= |chunks| && SeenOnly(chunks, i, m)
      ensures |boundaries| > 0 && m == boundaries[|boundaries| - 1]
      ensures Searching() ==> Mirroring()
      ensures (if Searching() then since else []) == Concat(chunks[..i])
    {
      assert Concat([]) == [] && chunks[..0] == [];
    }

    lemma MirrorIsScratch()
      requires Mirroring()
      ensures abuf.mirror == scratch
    {
    }

    lemma NowSeen(chunks: seq<bytes>, i: nat, m: KmpMatcher)
      requires Valid() && 0 < i <= |chunks| && |boundaries| > 0 && m == boundaries[|boundaries| - 1]
      requires Searching() && Mirroring() && since == Concat(chunks[..i]) && Absent(m.pattern, m.caseInsensitive, since)
      ensures SeenOnly(chunks, i, m)
    {
    }

    lemma NoPart(chunks: seq<bytes>, m: KmpMatcher)
      requires Valid() && SeenOnly(chunks, |chunks|, m) && Fits(m)
      ensures PartBefore(m, Concat(chunks)) == None
    {
      assert chunks[..|chunks|] == chunks;
      if |chunks| == 0 {
        AbsentEmpty(m);
      }
      PartMissing(Concat(chunks), m.pattern, m.caseInsensitive, scratch.Length);
    }

    lemma PartFound(chunks: seq<bytes>, i: nat, got: bytes, m: KmpMatcher)
      requires i < |chunks| && got <= chunks[i] && since == Concat(chunks[..i]) + got
      requires FirstAt(m.pattern, m.caseInsensitive, since) && |m.pattern| <= |since| && Fits(m)
      ensures PartBefore(m, Concat(chunks)) == Some(Mirrored(since, |m.pattern|, scratch.Length))
    {
      hide FirstAt, PartOf, Mirrored;
      FoundIn(chunks, i, got);
      PartIs(Concat(chunks), m.pattern, m.caseInsensitive, scratch.Length, |since|);
    }

    lemma AbsentEmpty(m: KmpMatcher)
      requires Valid() && m in boundaries
      ensures Absent(m.pattern, m.caseInsensitive, [])
    {
    }

    /** What was seen when the search stopped inside chunk i is a prefix of the stream. */
    lemma FoundIn(chunks: seq<bytes>, i: nat, got: bytes)
      requires i < |chunks| && got <= chunks[i]
      requires since == Concat(chunks[..i]) + got
      ensures |since| <= |Concat(chunks)| && Concat(chunks)[..|since|] == since
    {
      ConcatPrefix(chunks, i + 1);
      ConcatSnoc(chunks, i);
      var b := Concat(chunks[..i + 1]);
      assert b[..|since|] == since;
      PrefixOfPrefix(Concat(chunks), |since|, |b|);
    }
  }
}
