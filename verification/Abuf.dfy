/** The character reader and its two sources (libahttp/abuf.h, libahttp/abuf.C).

    A reader holds offsets into its source's buffer, gives one character of pushback, and tells the
    source to drop bytes only when it asks for more. It refines a plain queue: Pending(). */
module Abuf {
  import opened Bytes
  import opened RingBuffer

  /** What get() returns; the control codes lie below every (signed) char. */
  datatype Got = Ch(b: byte) | EofChar | WaitChar

  datatype Stat = Ok | Eof | Wait

  /** abuf_con_t over a ring, or abuf_str_t over a fixed text (ring == null). */
  class AbufSrc {
    const ring: Suiolite?
    const store: array<byte>
    var eof: bool
    ghost var held: nat    // how many unread bytes the reader's window covers
    ghost var rest: bytes  // what the source can still hand out after that window

    ghost predicate Valid()
      reads this, ring, store
    {
      && (ring != null ==> ring.Valid() && ring.buf == store && held <= |ring.Contents()|)
      && (ring == null && store.Length == 0 ==> eof)
      && rest == (if eof then [] else if ring == null then store[..] else ring.Contents()[held..])
    }

    constructor Connection(r: Suiolite, atEof: bool)
      requires r.Valid()
      ensures Valid() && ring == r && store == r.buf && eof == atEof && held == 0
    {
      ring, store, eof, held := r, r.buf, atEof, 0;
      rest := if atEof then [] else r.Contents();
    }

    constructor Text(s: bytes)
      ensures Valid() && ring == null && fresh(store) && rest == s && eof == (|s| == 0) && held == 0
    {
      ring := null;
      store := new byte[|s|](i requires 0 <= i < |s| => s[i]);
      eof, held := |s| == 0, 0;
      rest := s;
    }

    method GetData() returns (erc: Stat, start: nat, len: nat)
      requires Valid() && held == 0
      modifies this
      ensures Valid() && held == len && start + len <= store.Length
      ensures eof == (old(eof) || ring == null)
      ensures erc == (if old(eof) then Eof else if len > 0 then Ok else Wait)
      ensures ring != null ==> eof == old(eof)
      ensures len > 0 && ring != null ==> start == ring.rp && start + len <= ring.dep1
      ensures old(rest) == store[start..start + len] + rest
      ensures len == 0 ==> rest == []
      ensures erc == Ok <==> len > 0
      ensures (erc == Wait ==> !eof) && (eof ==> rest == [])
    {
      hide Unread;
      if eof {
        return Eof, 0, 0;
      }
      if ring != null {
        start, len := ring.GetData();
        erc := if len > 0 then Ok else Wait;
        held, rest := len, ring.Contents()[len..];
        ghost var c := ring.Contents();
        assert c[0..] == c[..len] + c[len..];
      } else {
        eof := true;
        erc, start, len := Ok, 0, store.Length;
        held, rest := len, [];
      }
    }

    method RemBytes(n: nat)
      requires Valid() && n <= held
      modifies this`held, ring
      ensures Valid() && held == old(held) - n && rest == old(rest)
      ensures ring != null && old(ring.rp) + n < old(ring.dep1) ==>
        ring.rp == old(ring.rp) + n && ring.dep1 == old(ring.dep1)
    {
      hide Unread;
      if ring != null {
        ghost var c := ring.Contents();
        var _ := ring.RemBytes(n);
        assert c[n..][held - n..] == c[held..];
      }
      held := held - n;
    }

    /** moredata's two calls on the source: drop the old window, map the next one. */
    method Next(n: nat) returns (erc: Stat, start: nat, len: nat)
      requires Valid() && n == held
      modifies this, ring
      ensures Valid() && held == len && start + len <= store.Length
      ensures erc == (if old(eof) then Eof else if len > 0 then Ok else Wait)
      ensures ring != null ==> eof == old(eof)
      ensures len > 0 && ring != null ==> start == ring.rp && start + len <= ring.dep1
      ensures old(rest) == store[start..start + len] + rest
      ensures (erc == Ok <==> len > 0) && (len == 0 ==> rest == [])
      ensures (erc == Wait ==> !eof) && (eof ==> rest == []) && (old(eof) ==> eof)
    {
      hide Unread, Ordered, Suiolite.Contents, Valid;
      if n > 0 {
        RemBytes(n);
      }
      erc, start, len := GetData();
    }

    /** Bytes arrive on the connection. */
    method Arrive(data: bytes)
      requires Valid() && ring != null && !eof && |data| <= ring.Capacity()
      modifies this`rest, ring, store
      ensures Valid() && rest == old(rest) + data
      ensures ring.rp == old(ring.rp) && ring.dep1 >= old(ring.dep1)
      ensures forall i :: ring.rp <= i < old(ring.dep1) && i < store.Length ==> store[i] == old(store[i])
    {
      hide Unread;
      ghost var c := ring.Contents();
      ghost var lo, hi, before := ring.rp, ring.dep1, store[..];
      var _ := ring.Input(data);
      forall i | lo <= i < hi
        ensures store[i] == before[i]
      {
        assert store[i] == store[..][lo..hi][i - lo] && before[i] == before[lo..hi][i - lo];
      }
      assert (c + data)[held..] == c[held..] + data;
      rest := rest + data;
    }

    /** The connection ends: what no window has covered becomes unreachable, so nothing is lost exactly when the
        connection had ended before, or the ring holds nothing past the window. */
    method Close()
      requires Valid() && ring != null
      modifies this`eof, this`rest
      ensures Valid() && eof && rest == []
      ensures rest == old(rest) <==> old(eof) || |ring.Contents()| == held
    {
      hide Unread;
      eof := true;
      rest := [];
    }
  }

  class Abuf {
    const src: AbufSrc
    var bc: bool       // a character has been put back
    var lch: Got       // the last character got
    var base: nat      // _basep and _cp, as offsets into the source's store
    var cp: nat
    var len: nat       // the window ends at _endp = _basep + len
    var erc: Stat
    var mirror: array?<byte>  // mirror_base; the others are offsets from it
    var mirrorP: nat
    var mirrorEnd: nat
    ghost var delivered: bytes  // characters handed out and not put back
    ghost var seen: bytes       // characters read from the window since the mirror was set up

    ghost predicate Valid()
      reads this, src, src.ring, src.store, mirror
    {
      && src.Valid() && WindowOk() && MirrorOk()
      && (lch.WaitChar? ==> !bc)
      && (lch.EofChar? ==> src.eof && cp == base + len)
      && (erc == Eof ==> src.eof)
      && (src.eof ==> src.rest == [])
      && (erc != Ok ==> len == 0)
    }

    ghost predicate WindowOk()
      reads this, src, src.ring
    {
      && base <= cp <= base + len <= src.store.Length
      && len == src.held
      && (src.ring != null && len > 0 ==> base == src.ring.rp && base + len <= src.ring.dep1)
    }

    ghost predicate MirrorOk()
      reads this`mirror, this`mirrorP, this`mirrorEnd, this`seen, mirror
    {
      mirror != null ==>
        && mirror != src.store
        && mirrorEnd <= mirror.Length
        && mirrorP == Min(|seen|, mirrorEnd)
        && (forall i :: 0 <= i < mirrorP ==> mirror[i] == seen[i])
    }

    /** The characters still to be delivered: a pushed-back one, the window, the rest of the source. */
    ghost function Pending(): bytes
      requires Valid()
      reads this, src, src.ring, src.store, mirror
    {
      (if bc && lch.Ch? then [lch.b] else []) + Ahead()
    }

    ghost function Ahead(): bytes
      requires cp <= base + len <= src.store.Length
      reads this, src, src.store
    {
      src.store[cp..base + len] + src.rest
    }

    constructor (s: AbufSrc)
      requires s.Valid() && s.held == 0
      ensures Valid() && src == s && mirror == null
      ensures Pending() == s.rest && erc == Ok && !bc && delivered == []
    {
      src := s;
      bc, lch := false, Ch(0);
      base, cp, len := 0, 0, 0;
      erc := Ok;
      mirror, mirrorP, mirrorEnd := null, 0, 0;
      delivered, seen := [], [];
    }

    /** Releases the window to the source and maps the next one. */
    method MoreData()
      requires Valid() && cp == base + len && erc == Ok
      modifies this`base, this`cp, this`len, this`erc, src, src.ring
      ensures Valid()
      ensures Ahead() == old(Ahead())
      ensures erc == Ok ==> cp < base + len
      ensures src.ring != null ==> src.eof == old(src.eof)
      ensures erc == Wait ==> !src.eof && src.rest == []
    {
      hide Unread, Ordered, Suiolite.Contents, AbufSrc.Valid, MirrorOk;
      ghost var ahead := src.rest;
      assert Ahead() == ahead;
      var e, start, l := src.Next(len);
      base, cp, len, erc := start, start, l, e;
      assert Ahead() == ahead;
    }

    /** Copies a character read from the window to the mirror while that has room. */
    method MirrorChar(b: byte)
      requires MirrorOk()
      modifies this`mirrorP, this`seen, mirror
      ensures MirrorOk() && seen == old(seen) + [b]
    {
      if mirror != null && mirrorP < mirrorEnd {
        mirror[mirrorP] := b;
        mirrorP := mirrorP + 1;
      }
      seen := seen + [b];
    }

    /** Takes the next character of the window. */
    method GotChar() returns (r: Got)
      requires Valid() && cp < base + len && !bc
      modifies this`mirrorP, this`lch, this`cp, this`delivered, this`seen, mirror
      ensures Valid() && lch == r && r.Ch?
      ensures old(Pending()) == [r.b] + Pending()
      ensures delivered == old(delivered) + [r.b] && seen == old(seen) + [r.b]
    {
      hide Unread, Ordered, Suiolite.Contents, AbufSrc.Valid, MirrorOk;
      var b := src.store[cp];
      assert src.store[cp..base + len] == [b] + src.store[cp + 1..base + len];
      MirrorChar(b);
      r := Ch(b);
      lch, cp, delivered := r, cp + 1, delivered + [b];
    }

    /** The part of get() after the check for a pushed-back character. */
    method GetFresh() returns (r: Got)
      requires Valid() && !bc
      modifies this, src, src.ring, mirror
      ensures Valid() && mirror == old(mirror) && mirrorEnd == old(mirrorEnd) && lch == r && !bc
      ensures if r.Ch? then
          old(Pending()) == [r.b] + Pending() && delivered == old(delivered) + [r.b] && seen == old(seen) + [r.b]
        else
          Pending() == old(Pending()) && delivered == old(delivered) && seen == old(seen)
      ensures r.WaitChar? ==> erc == Wait && (old(erc) == Ok ==> Pending() == [] && !src.eof)
      ensures r.EofChar? ==> Pending() == [] && src.eof
      ensures r.Ch? && old(erc) == Ok ==> erc == Ok
      ensures src.ring != null ==> src.eof == old(src.eof)
    {
      hide Unread, Ordered, Suiolite.Contents, AbufSrc.Valid, MirrorOk;
      if cp < base + len {
        r := GotChar();
        return;
      }
      if erc == Ok {
        MoreData();
        if erc == Ok && cp < base + len {
          r := GotChar();
          return;
        }
      }
      r := if erc == Wait then WaitChar else EofChar;
      lch := r;
    }

    /** Delivers the next pending character. Without a stale WAIT, a WAIT means that nothing is pending;
        an EOF means so always. A pushed-back character is not mirrored again. */
    method Get() returns (r: Got)
      requires Valid()
      modifies this, src, src.ring, mirror
      ensures Valid() && mirror == old(mirror) && mirrorEnd == old(mirrorEnd) && lch == r && !bc
      ensures if r.Ch? then
          old(Pending()) == [r.b] + Pending() && delivered == old(delivered) + [r.b]
        else
          Pending() == old(Pending()) && delivered == old(delivered)
      ensures seen == old(seen) + (if r.Ch? && !old(bc) then [r.b] else [])
      ensures old(bc) ==> r == old(lch)
      ensures r.WaitChar? ==> erc == Wait && (old(erc) == Ok ==> Pending() == [] && !src.eof)
      ensures r.EofChar? ==> Pending() == [] && src.eof
      ensures r.Ch? && old(erc) == Ok ==> erc == Ok
      ensures src.ring != null ==> src.eof == old(src.eof)
    {
      hide Unread, Ordered, Suiolite.Contents, AbufSrc.Valid, MirrorOk;
      if bc {
        bc := false;
        if lch.Ch? {
          delivered := delivered + [lch.b];
        }
        r := lch;
      } else {
        r := GetFresh();
      }
    }

    /** The last character that get returned is the last one handed out, or there is none to put back. After a
        get or a peek this holds until a dump or a flush hands out more. */
    ghost predicate NothingSince()
      reads this`bc, this`lch, this`delivered
    {
      bc || !lch.Ch? || (delivered != [] && delivered[|delivered| - 1] == lch.b)
    }

    /** Puts the last character that get returned back, except a WAIT, which must be probed for again. What was
        delivered and is pending stays the same exactly when nothing else was handed out since. */
    method Unget()
      requires Valid()
      modifies this`bc, this`delivered
      ensures Valid() && NothingSince() && (bc <==> old(bc) || !lch.WaitChar?)
      ensures delivered + Pending() == old(delivered + Pending()) <==> old(NothingSince())
      ensures !old(bc) && lch.Ch? ==> Pending() == [lch.b] + old(Pending()) && delivered == AllButLast(old(delivered))
      ensures old(bc) || !lch.Ch? ==> Pending() == old(Pending()) && delivered == old(delivered)
    {
      hide Unread, Ordered, Suiolite.Contents, AbufSrc.Valid, MirrorOk;
      if !lch.WaitChar? {
        if !bc && lch.Ch? {
          PutBack(delivered, lch.b, Pending());
          delivered := AllButLast(delivered);
        }
        bc := true;
      }
    }

    method Peek() returns (r: Got)
      requires Valid()
      modifies this, src, src.ring, mirror
      ensures Valid() && mirror == old(mirror) && mirrorEnd == old(mirrorEnd)
      ensures Pending() == old(Pending()) && delivered == old(delivered)
      ensures r.Ch? ==> Pending() != [] && Pending()[0] == r.b
      ensures r.WaitChar? ==> erc == Wait && (old(erc) == Ok ==> Pending() == [] && !src.eof)
      ensures r.EofChar? ==> Pending() == [] && src.eof
      ensures NothingSince()
      ensures src.ring != null ==> src.eof == old(src.eof)
    {
      hide Unread, Ordered, Suiolite.Contents, AbufSrc.Valid, MirrorOk;
      r := Get();
      Unget();
    }

    /** Called when the source may have more: the next get() probes again. */
    method CanRead()
      requires Valid()
      modifies this`erc
      ensures Valid() && erc == Ok && Pending() == old(Pending())
    {
      hide Unread, Ordered, Suiolite.Contents, AbufSrc.Valid, MirrorOk;
      erc := Ok;
    }

    /** Tells the source how far the reader got; the rest of the window stays readable. */
    method Finish()
      requires Valid()
      modifies this`base, this`len, src`held, src.ring
      ensures Valid() && Pending() == old(Pending()) && len == old(base + len) - cp
    {
      hide Unread, Ordered, Suiolite.Contents, AbufSrc.Valid, MirrorOk;
      var nbytes := cp - base;
      src.RemBytes(nbytes);
      len := len - nbytes;
      base := cp;
    }

    /** Event: data arrives on the connection. The window it holds is not overwritten. */
    method Arrive(data: bytes)
      requires Valid() && src.ring != null && !src.eof && |data| <= src.ring.Capacity()
      requires mirror != src.store
      modifies src`rest, src.ring, src.store
      ensures Valid() && Pending() == old(Pending()) + data && src.rest == old(src.rest) + data
    {
      hide Unread, Ordered, Suiolite.Contents, AbufSrc.Valid, MirrorOk;
      ghost var window := src.store[cp..base + len];
      src.Arrive(data);
      assert src.store[cp..base + len] == window;
    }

    /** A reader that waits with nothing pending has released the whole ring. */
    lemma WaitingIsEmpty()
      requires Valid() && erc == Wait && Pending() == [] && src.ring != null && !src.eof
      ensures src.ring.Valid() && src.ring.Contents() == [] && src.ring.Capacity() == src.store.Length && src.rest == []
    {
      hide Unread;
      assert Ahead() == [] && src.rest == [];
    }

    lemma RingIsValid()
      requires Valid() && src.ring != null
      ensures src.ring.Valid()
    {
    }

    lemma MirrorIsElsewhere()
      requires Valid()
      ensures mirror != src.store
    {
    }

    /** A fixed text is never waited for. */
    lemma TextNeverWaits()
      requires Valid() && src.ring == null && Pending() == []
      ensures src.eof
    {
      assert Ahead() == [] && src.rest == [];
    }

    /** Event: end of input, or the limit on input exceeded. The reader keeps its pushback and its window, and loses
        the rest: nothing, exactly when it was at the end before or the ring holds nothing past the window. */
    method Close()
      requires Valid() && src.ring != null
      modifies src`eof, src`rest
      ensures Valid() && src.eof && Pending() <= old(Pending())
      ensures |Pending()| == |old(Pending())| - |old(src.rest)|
      ensures Pending() == old(Pending()) <==> old(src.eof) || |src.ring.Contents()| == len
    {
      hide Unread, Ordered, Suiolite.Contents, AbufSrc.Valid, MirrorOk;
      ghost var before := src.rest;
      src.Close();
      assert src.rest == before <==> before == [];
    }

    /** Hands out up to l characters of the window. */
    method FlushWindow(dst: array<byte>, p: nat, l: nat) returns (n: nat)
      requires Valid() && !bc && dst != src.store && dst != mirror && p + l <= dst.Length
      modifies dst, this`cp, this`delivered
      ensures Valid() && n == Min(l, old(base + len - cp)) && cp == old(cp) + n
      ensures dst[..p] == old(dst[..p])
      ensures delivered == old(delivered) + dst[p..p + n]
      ensures delivered + Pending() == old(delivered + Pending())
    {
      hide Unread, Ordered, Suiolite.Contents, AbufSrc.Valid, MirrorOk;
      n := Min(l, base + len - cp);
      ghost var taken, left := src.store[cp..cp + n], src.store[cp + n..base + len];
      assert src.store[cp..base + len] == taken + left;
      Regroup(delivered, taken, left, src.rest);
      MemCpy(dst, p, src.store, cp, n);
      cp, delivered := cp + n, delivered + taken;
    }

    /** Hands out the pushed-back character. */
    method FlushBack(dst: array<byte>, at: nat)
      requires Valid() && bc && lch.Ch? && dst != src.store && dst != mirror && at < dst.Length
      modifies dst, this`bc, this`delivered
      ensures Valid() && !bc && dst[..at] == old(dst[..at]) && dst[at] == lch.b
      ensures delivered == old(delivered) + [lch.b]
      ensures delivered + Pending() == old(delivered + Pending())
    {
      hide Unread, Ordered, Suiolite.Contents, AbufSrc.Valid, MirrorOk;
      dst[at] := lch.b;
      bc, delivered := false, delivered + [lch.b];
    }

    /** Copies pending characters to dst[at..], a pushed-back one first, out of the present window only. */
    method Flush(dst: array<byte>, at: nat, l: nat) returns (n: nat)
      requires Valid() && dst != src.store && dst != mirror && at + l <= dst.Length
      modifies dst, this`bc, this`cp, this`delivered
      ensures Valid() && n <= l
      ensures dst[..at] == old(dst[..at])
      ensures delivered == old(delivered) + dst[at..at + n]
      ensures delivered + Pending() == old(delivered + Pending())
      ensures n < l ==> cp == base + len
      ensures bc ==> old(bc)
      ensures n == 0 <==> l == 0 || old(cp == base + len)
    {
      hide Unread, Ordered, Suiolite.Contents, AbufSrc.Valid, MirrorOk;
      if l == 0 || cp == base + len {
        return 0;
      }
      if !bc {
        n := FlushWindow(dst, at, l);
        return;
      }
      FlushBack(dst, at);
      ghost var first := dst[..at + 1];
      n := FlushWindow(dst, at + 1, l - 1);
      assert dst[..at + 1] == first;
      assert dst[..at] == first[..at];
      assert dst[at..at + 1 + n] == [first[at]] + dst[at + 1..at + 1 + n];
      n := n + 1;
    }

    /** Fills dst until it is full or the source has no more. A stale WAIT or EOF is reported as err. */
    method Dump(dst: array<byte>, l: nat) returns (n: nat, err: Stat)
      requires Valid() && dst != src.store && dst != mirror && l <= dst.Length
      modifies this, src, src.ring, dst
      ensures Valid() && err == old(erc) && n <= l && (err != Ok ==> n == 0)
      ensures delivered == old(delivered) + dst[..n]
      ensures delivered + Pending() == old(delivered + Pending())
      ensures err == Ok && n < l ==> erc != Ok && Ahead() == []
      ensures lch == old(lch) && (bc ==> old(bc))
      ensures mirror == old(mirror) && (src.ring != null ==> src.eof == old(src.eof))
    {
      hide Unread, Ordered, Suiolite.Contents, AbufSrc.Valid, MirrorOk;
      err, n := erc, 0;
      if erc != Ok {
        return;
      }
      while n < l && erc == Ok
        invariant Valid() && n <= l && mirror == old(mirror) && (src.ring != null ==> src.eof == old(src.eof))
        invariant delivered == old(delivered) + dst[..n]
        invariant delivered + Pending() == old(delivered + Pending())
        invariant erc != Ok ==> src.rest == []
        invariant lch == old(lch) && (bc ==> old(bc))
        decreases l - n, if erc == Ok && cp == base + len then 1 else 0
      {
        n := DumpStep(dst, n, l);
      }
    }

    /** One round of dump's loop. */
    method DumpStep(dst: array<byte>, n: nat, l: nat) returns (n': nat)
      requires Valid() && dst != src.store && dst != mirror && n < l <= dst.Length && erc == Ok
      modifies this, src, src.ring, dst
      ensures Valid() && mirror == old(mirror) && n <= n' <= l
      ensures dst[..n] == old(dst[..n])
      ensures delivered == old(delivered) + dst[n..n']
      ensures delivered + Pending() == old(delivered + Pending())
      ensures erc != Ok ==> src.rest == []
      ensures lch == old(lch) && (bc ==> old(bc))
      ensures src.ring != null ==> src.eof == old(src.eof)
      ensures n' == n ==> old(cp == base + len) && (erc == Ok ==> cp < base + len)
    {
      hide Unread, Ordered, Suiolite.Contents, AbufSrc.Valid, MirrorOk;
      var rc := Flush(dst, n, l - n);
      n' := n + rc;
      if n' < l {
        MoreData();
      }
    }

    /** Starts copying every fresh character into m[..l]. */
    method Mirror(m: array<byte>, l: nat)
      requires Valid() && m != src.store && l <= m.Length
      modifies this`mirror, this`mirrorP, this`mirrorEnd, this`seen
      ensures Valid() && Pending() == old(Pending())
      ensures mirror == m && mirrorEnd == l && seen == []
    {
      hide Unread, Ordered, Suiolite.Contents, AbufSrc.Valid;
      mirror, mirrorP, mirrorEnd, seen := m, 0, l, [];
    }

    /** Ends the copy: what was mirrored, without its last sublen bytes and without one CRLF before them. */
    method EndMirror2(sublen: nat) returns (r: bytes)
      requires Valid() && mirror != null && sublen <= mirrorP && mirrorP - sublen < mirror.Length
      modifies this`mirror, this`mirrorP, this`mirrorEnd, mirror
      ensures Valid() && Pending() == old(Pending()) && mirror == null
      ensures r == StripCrlf(old(seen[..mirrorP - sublen]))
    {
      hide Unread, Ordered, Suiolite.Contents, AbufSrc.Valid;
      mirrorP := mirrorP - sublen;
      mirror[mirrorP] := 0;  // ends the string that is compared with CRLF
      if mirrorP >= 2 && mirror[mirrorP - 2] == CR && mirror[mirrorP - 1] == LF {
        mirrorP := mirrorP - 2;
      }
      r := mirror[..mirrorP];
      mirror, mirrorP, mirrorEnd := null, 0, 0;
    }
  }

  function AllButLast(s: bytes): bytes {
    if s == [] then [] else s[..|s| - 1]
  }

  lemma PutBack(s: bytes, b: byte, rest: bytes)
    ensures AllButLast(s) + ([b] + rest) == s + rest <==> s != [] && s[|s| - 1] == b
  {
    var t := AllButLast(s) + ([b] + rest);
    if s == [] {
      assert |t| == |rest| + 1;
    } else {
      assert t[|s| - 1] == b && (s + rest)[|s| - 1] == s[|s| - 1];
      if s[|s| - 1] == b {
        assert t == s + rest;
      }
    }
  }

  lemma Regroup(delivered: bytes, taken: bytes, left: bytes, rest: bytes)
    ensures delivered + ([] + (taken + left + rest)) == delivered + taken + ([] + (left + rest))
  {
  }

  method MemCpy(dst: array<byte>, p: nat, from: array<byte>, i: nat, n: nat)
    requires dst != from && p + n <= dst.Length && i + n <= from.Length
    modifies dst
    ensures dst[p..p + n] == from[i..i + n] && dst[..p] == old(dst[..p])
  {
    forall k | 0 <= k < n {
      dst[p + k] := from[i + k];
    }
  }

  /** s without a CRLF at its end. */
  function StripCrlf(s: bytes): bytes {
    if |s| >= 2 && s[|s| - 2] == CR && s[|s| - 1] == LF then s[..|s| - 2] else s
  }

  /** Exactly one CR LF at the very end goes. */
  lemma StripCrlfIs(s: bytes)
    ensures StripCrlf(s + ['\r' as int, '\n' as int]) == s
    ensures !(|s| >= 2 && s[|s| - 2] == '\r' as int && s[|s| - 1] == '\n' as int) ==> StripCrlf(s) == s
  {
  }
}
