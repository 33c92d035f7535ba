/** The two-region circular buffer under the HTTP reader (libahttp/suiolite.h, libahttp/suiolite.C). */
module RingBuffer {
  import opened Bytes

  const MAX_BUFLEN: nat := 0x40000
  const DEF_BUFLEN: nat := 0x10400

  /** b with the bytes d copied over it from offset at. */
  function CopyOver(b: bytes, at: nat, d: bytes): (r: bytes)
    requires at + |d| <= |b|
    ensures |r| == |b|
    ensures forall i :: 0 <= i < |b| ==> r[i] == if at <= i < at + |d| then d[i - at] else b[i]
  {
    b[..at] + d + b[at + |d|..]
  }

  /** The pointers are ordered and one of the two written configurations holds. */
  predicate Ordered(len: nat, rp: nat, dep0: nat, dep1: nat) {
    dep0 <= rp <= dep1 <= len && (rp < len || len == 0) && (dep1 == len || dep0 == 0)
  }

  /** The unread bytes, oldest first. */
  function Unread(b: bytes, rp: nat, dep0: nat, dep1: nat): bytes
    requires Ordered(|b|, rp, dep0, dep1)
  {
    b[rp..dep1] + b[..dep0]
  }

  /** Filling the far region appends to the queue. */
  lemma FarFill(b: bytes, rp: nat, dep0: nat, dep1: nat, d: bytes)
    requires Ordered(|b|, rp, dep0, dep1) && dep1 + |d| <= |b|
    ensures Ordered(|b|, rp, dep0, dep1 + |d|)
    ensures Unread(CopyOver(b, dep1, d), rp, dep0, dep1 + |d|) == Unread(b, rp, dep0, dep1) + d
    ensures CopyOver(b, dep1, d)[rp..dep1] == b[rp..dep1]
  {
    var c := CopyOver(b, dep1, d);
    assert c[rp..dep1 + |d|] == b[rp..dep1] + d;
    assert c[..dep0] == b[..dep0];
    if d != [] {
      assert b[..dep0] == [];
    }
  }

  lemma SliceWithin(c: bytes, d: bytes, lo: nat, hi: nat, i: nat, j: nat)
    requires lo <= i <= j <= hi <= |c| == |d| && c[lo..hi] == d[lo..hi]
    ensures c[i..j] == d[i..j]
  {
    forall k | i <= k < j
      ensures c[k] == d[k]
    {
      assert c[lo..hi][k - lo] == d[lo..hi][k - lo];
    }
  }

  /** Once the far region is full, filling the near one appends too. */
  lemma NearFill(b: bytes, rp: nat, dep0: nat, dep1: nat, d: bytes)
    requires Ordered(|b|, rp, dep0, dep1) && dep0 + |d| <= rp && (d != [] ==> dep1 == |b|)
    ensures Ordered(|b|, rp, dep0 + |d|, dep1)
    ensures Unread(CopyOver(b, dep0, d), rp, dep0 + |d|, dep1) == Unread(b, rp, dep0, dep1) + d
    ensures CopyOver(b, dep0, d)[rp..dep1] == b[rp..dep1]
  {
    var c := CopyOver(b, dep0, d);
    assert c[rp..dep1] == b[rp..dep1];
    assert c[..dep0 + |d|] == b[..dep0] + d;
  }

  /** What lies after the unread bytes in the far region, then in the near one, comes after them in the queue. */
  lemma Extend(b: bytes, rp: nat, dep0: nat, dep1: nat, far: nat, near: nat)
    requires Ordered(|b|, rp, dep0, dep1) && dep1 + far <= |b| && dep0 + near <= rp
    requires near > 0 ==> dep1 + far == |b|
    ensures Ordered(|b|, rp, dep0 + near, dep1 + far)
    ensures Unread(b, rp, dep0 + near, dep1 + far) ==
      Unread(b, rp, dep0, dep1) + b[dep1..dep1 + far] + b[dep0..dep0 + near]
  {
    assert b[rp..dep1 + far] == b[rp..dep1] + b[dep1..dep1 + far];
    assert b[..dep0 + near] == b[..dep0] + b[dep0..dep0 + near];
    if far > 0 {
      assert b[..dep0] == [];
    }
  }

  /** Pointers are offsets from the start of buf; bep, the end of the buffer, is the offset len. */
  class Suiolite {
    var len: nat
    var buf: array<byte>
    var rp: nat
    var dep0: nat
    var dep1: nat
    var iov0: nat      // length of the region from dep1 to the end
    var iov1: nat      // length of the region from dep0 to rp
    var scb: bool      // a callback waits for space
    var bytesRead: nat

    ghost predicate Valid()
      reads this
    {
      buf.Length == len && Ordered(len, rp, dep0, dep1)
    }

    ghost function Contents(): bytes
      requires Valid()
      reads this, buf
    {
      Unread(buf[..], rp, dep0, dep1)
    }

    constructor (l: nat := DEF_BUFLEN, callback: bool := false)
      ensures Valid() && fresh(buf)
      ensures len == Min(l, MAX_BUFLEN) && scb == callback && bytesRead == 0
      ensures Contents() == []
    {
      len := Min(l, MAX_BUFLEN);
      buf := new byte[Min(l, MAX_BUFLEN)];
      rp, dep0, dep1 := 0, 0, 0;
      iov0, iov1 := 0, 0;
      scb, bytesRead := callback, 0;
    }

    method Clear()
      requires buf.Length == len
      modifies this
      ensures Valid() && len == old(len) && buf == old(buf)
      ensures Contents() == [] && !scb && bytesRead == 0
    {
      scb := false;
      rp := 0;
      bytesRead := 0;
      dep0, dep1 := 0, 0;
    }

    function Resid(): (r: nat)
      requires Valid()
      reads this, buf
      ensures r == |Contents()|
    {
      dep1 - rp + dep0
    }

    function Capacity(): (c: nat)
      requires Valid()
      reads this, buf
      ensures Resid() + c == len
    {
      len - Resid()
    }

    predicate Full()
      requires Valid()
      reads this, buf
    {
      Resid() == len
    }

    /** The first contiguous stretch: it starts at rp and is empty only when the ring is empty. */
    method GetData() returns (start: nat, nbytes: nat)
      requires Valid()
      ensures start == rp && start + nbytes == dep1 && nbytes <= |Contents()|
      ensures buf[start..start + nbytes] == Contents()[..nbytes]
      ensures nbytes == 0 <==> Contents() == []
    {
      start, nbytes := rp, dep1 - rp;
    }

    method LoadIov()
      requires Valid()
      modifies this`iov0, this`iov1
      ensures iov0 == len - dep1 && iov1 == rp - dep0
    {
      iov0 := len - dep1;
      iov1 := rp - dep0;
    }

    /** memcpy into the buffer. */
    method CopyIn(at: nat, d: bytes)
      requires at + |d| <= buf.Length
      modifies buf
      ensures buf[..] == CopyOver(old(buf[..]), at, d)
    {
      forall i | 0 <= i < |d| {
        buf[at + i] := d[i];
      }
    }

    /** Bumps the data-end pointers over n new bytes, the far region first. */
    method AccountForNewBytes(n: nat)
      requires Valid() && iov0 == len - dep1 && iov1 == rp - dep0
      requires n <= iov0 + iov1
      modifies this`dep0, this`dep1, this`bytesRead
      ensures Valid()
      ensures dep1 == old(dep1) + Min(n, iov0)
      ensures dep0 == old(dep0) + n - Min(n, iov0)
      ensures Contents() == old(Contents()) + buf[old(dep1)..dep1] + buf[old(dep0)..dep0]
      ensures bytesRead == old(bytesRead) + n
    {
      Extend(buf[..], rp, dep0, dep1, Min(n, iov0), n - Min(n, iov0));
      var left := n;
      bytesRead := bytesRead + left;
      for i := 0 to 2
        invariant dep1 == old(dep1) + (if i == 0 then 0 else Min(n, iov0))
        invariant dep0 == old(dep0) + (if i < 2 then 0 else n - Min(n, iov0))
        invariant bytesRead == old(bytesRead) + n
        invariant left == if i == 0 then n else if i == 1 then n - Min(n, iov0) else 0
      {
        var l := Min(left, if i == 0 then iov0 else iov1);
        if i == 0 {
          dep1 := dep1 + l;
        } else {
          dep0 := dep0 + l;
        }
        left := left - l;
      }
    }

    /** One read from the connection, which delivers the bytes data. */
    method Input(data: bytes) returns (n: nat)
      requires Valid() && |data| <= Capacity()
      modifies this, buf
      ensures Valid() && buf == old(buf) && len == old(len) && rp == old(rp) && scb == old(scb)
      ensures n == |data|
      ensures Contents() == old(Contents()) + data
      ensures dep1 >= old(dep1) && buf[..][rp..old(dep1)] == old(buf[..])[rp..old(dep1)]
      ensures bytesRead == old(bytesRead) + n
    {
      hide Unread;
      if Full() {
        return 0;
      }
      LoadIov();
      var n0 := Min(|data|, iov0);
      // the kernel scatters the data over the two regions of the iovec
      Scatter(data[..n0], data[n0..]);
      assert data == data[..n0] + data[n0..];
      n := |data|;
      AccountForNewBytes(n);
    }

    /** memcpy into both regions, far one first. */
    method Scatter(far: bytes, near: bytes)
      requires Valid() && dep1 + |far| <= len && dep0 + |near| <= rp
      requires near != [] ==> dep1 + |far| == len
      modifies buf
      ensures Ordered(len, rp, dep0 + |near|, dep1 + |far|)
      ensures Unread(buf[..], rp, dep0 + |near|, dep1 + |far|) == old(Contents()) + (far + near)
      ensures buf[..][rp..dep1] == old(buf[..])[rp..dep1]
    {
      hide Unread, CopyOver;
      ghost var b := buf[..];
      FarFill(b, rp, dep0, dep1, far);
      CopyIn(dep1, far);
      ghost var c := buf[..];
      assert c[rp..dep1] == b[rp..dep1];
      ghost var u := Unread(b, rp, dep0, dep1);
      assert u + far + near == u + (far + near);
      NearFill(c, rp, dep0, dep1 + |far|, near);
      CopyIn(dep0, near);
      ghost var d := buf[..];
      SliceWithin(c, d, rp, dep1 + |far|, rp, dep1);
    }

    method Grow(ns: nat)
      requires Valid() && Resid() == 0 && bytesRead == 0
      modifies this
      ensures Valid() && fresh(buf) && len == Min(ns, MAX_BUFLEN)
      ensures Contents() == [] && !scb && bytesRead == 0
    {
      len := Min(ns, MAX_BUFLEN);
      buf := new byte[len];
      Clear();
    }

    /** Copies as much of a buffer as the ring has room for. */
    method Store(input: bytes) returns (ret: nat)
      requires Valid()
      modifies this`dep0, this`dep1, this`bytesRead, buf
      ensures Valid() && ret == Min(|input|, old(Capacity()))
      ensures Contents() == old(Contents()) + input[..ret]
      ensures bytesRead == old(bytesRead) + ret
    {
      hide Unread;
      var nb := Min(|input|, len - dep1);
      var nb1 := Min(|input| - nb, rp - dep0);
      ret := nb + nb1;
      assert input[..ret] == input[..nb] + input[nb..ret];
      Scatter(input[..nb], input[nb..ret]);
      dep1, dep0 := dep1 + nb, dep0 + nb1;
      bytesRead := bytesRead + ret;
    }

    /** Copies from a buffer. Input that does not fit is cut only when a grown buffer cannot hold it;
        growing drops the space callback. */
    method LoadFromBuffer(input: bytes) returns (ret: nat)
      requires Valid()
      requires |input| > Capacity() ==> Resid() == 0 && bytesRead == 0
      modifies this, buf
      ensures Valid()
      ensures ret == (if |input| <= old(Capacity()) then |input| else Min(|input|, MAX_BUFLEN))
      ensures Contents() == old(Contents()) + input[..ret]
      ensures bytesRead == old(bytesRead) + ret
      ensures scb == (old(scb) && |input| <= old(Capacity()))
    {
      hide Unread;
      if |input| > Capacity() {
        Grow(|input| + 10);
      }
      ret := Store(input);
    }

    /** Drops the oldest bytes; the space callback fires exactly when a full ring stops being full. */
    method RemBytes(nbytes: nat) returns (called: bool)
      requires Valid() && nbytes <= Resid()
      modifies this
      ensures Valid() && buf == old(buf) && len == old(len) && scb == old(scb) && bytesRead == old(bytesRead)
      ensures Contents() == old(Contents())[nbytes..]
      ensures nbytes < old(len - rp) ==> rp == old(rp) + nbytes && dep1 == old(dep1)
      ensures called == (old(Full()) && !Full() && scb)
    {
      called := Full() && nbytes > 0 && scb;
      var len2 := len - rp;
      if nbytes >= len2 {
        rp := nbytes - len2;
        dep1 := dep0;
        dep0 := 0;
      } else {
        rp := rp + nbytes;
      }
    }
  }
}
