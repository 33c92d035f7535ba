/** Whole runs of a reader over a connection, with input arriving between its operations. */
module AbufSession {
  import opened Bytes
  import opened RingBuffer
  import opened Abuf

  datatype Op =
    | GetOp | UngetOp | PeekOp | CanReadOp | FinishOp
    | DumpOp(l: nat)
    | ArriveOp(data: bytes)

  /** Any operations in any order. input is what the ring took in; an arrival that finds less room brings less.
      got says whether something was got or peeked at, with nothing dumped since, and clean that each unget came
      while it was. In a clean run nothing is lost, repeated, reordered or overwritten: what was delivered and not put
      back, with what is pending, is what it was before and then the input. */
  method Session(a: Abuf, ops: seq<Op>) returns (input: bytes, clean: bool)
    requires a.Valid() && a.src.ring != null && !a.src.eof
    modifies a, a.src, a.src.ring, a.src.store, a.mirror
    ensures a.Valid()
    ensures clean <==> Clean(ops, false)
    ensures clean ==> a.delivered + a.Pending() == old(a.delivered + a.Pending()) + input
    ensures clean ==> a.delivered <= old(a.delivered + a.Pending()) + input
  {
    hide Unread, Ordered, Suiolite.Contents, AbufSrc.Valid, Abuf.Valid, Abuf.Pending;
    input, clean := [], true;
    var got := false;
    assert a.delivered + a.Pending() == old(a.delivered + a.Pending()) + input;
    assert ops[0..] == ops;
    for i := 0 to |ops|
      invariant a.Valid() && !a.src.eof && a.mirror == old(a.mirror)
      invariant got ==> a.NothingSince()
      invariant Clean(ops, false) <==> clean && Clean(ops[i..], got)
      invariant clean ==> a.delivered + a.Pending() == old(a.delivered + a.Pending()) + input
    {
      CleanNext(ops, i, got);
      if ops[i].UngetOp? && !got {
        clean := false;
      }
      var more := Perform(a, ops[i], got);
      got := GotAfter(ops[i], got);
      input := input + more;
    }
  }

  function GotAfter(op: Op, got: bool): bool {
    op.GetOp? || op.PeekOp? || (got && !op.DumpOp?)
  }

  /** Every unget comes after a get or a peek, with no dump between. */
  predicate Clean(ops: seq<Op>, got: bool)
    decreases |ops|
  {
    |ops| == 0 || ((ops[0].UngetOp? ==> got) && Clean(ops[1..], GotAfter(ops[0], got)))
  }

  lemma CleanNext(ops: seq<Op>, i: nat, got: bool)
    requires i < |ops|
    ensures Clean(ops[i..], got) <==>
      (ops[i].UngetOp? ==> got) && Clean(ops[i + 1..], GotAfter(ops[i], got))
  {
    assert ops[i..][1..] == ops[i + 1..];
  }

  /** One operation; got as before it. */
  method Perform(a: Abuf, op: Op, got: bool) returns (input: bytes)
    requires a.Valid() && a.src.ring != null && !a.src.eof
    requires got ==> a.NothingSince()
    modifies a, a.src, a.src.ring, a.src.store, a.mirror
    ensures a.Valid() && !a.src.eof && a.mirror == old(a.mirror)
    ensures GotAfter(op, got) ==> a.NothingSince()
    ensures !op.UngetOp? || got ==> a.delivered + a.Pending() == old(a.delivered + a.Pending()) + input
  {
    hide Unread, Ordered, Suiolite.Contents, AbufSrc.Valid, Abuf.Valid, Abuf.Pending;
    input := [];
    match op {
      case GetOp => var _ := a.Get();
      case UngetOp => a.Unget();
      case PeekOp => var _ := a.Peek();
      case CanReadOp => a.CanRead();
      case FinishOp => a.Finish();
      case DumpOp(l) =>
        var dst := new byte[l];
        var _, _ := a.Dump(dst, l);
      case ArriveOp(data) =>
        a.RingIsValid();
        a.MirrorIsElsewhere();
        input := data[..Min(|data|, a.src.ring.Capacity())];
        a.Arrive(input);
    }
  }

  /** Dumps one of the pending characters. */
  method DumpOne(a: Abuf) returns (dumped: bytes)
    requires a.Valid() && a.erc == Ok && !a.bc && a.Pending() != [] && a.mirror == null
    modifies a, a.src, a.src.ring
    ensures a.Valid() && !a.bc && a.lch == old(a.lch) && a.mirror == null
    ensures dumped == [old(a.Pending())[0]]
  {
    hide Unread, Ordered, Suiolite.Contents, AbufSrc.Valid, Abuf.Valid;
    ghost var d, p := a.delivered, a.Pending();
    var dst := new byte[1];
    var n, _ := a.Dump(dst, 1);
    dumped := dst[..n];
    SameFront(d, dumped, a.Pending(), p);
  }

  lemma SameFront(d: bytes, x: bytes, rest: bytes, p: bytes)
    requires d + x + rest == d + p
    ensures x + rest == p
  {
    assert (d + x + rest)[|d|..] == x + rest && (d + p)[|d|..] == p;
  }

  /** Why a dump in between matters: an unget after one puts the character of the last get back, which is not the
      last that was handed out, and the next get delivers it a second time. */
  method UngetAfterDump(s: bytes) returns (first: Got, dumped: bytes, again: Got)
    requires |s| >= 2
    ensures first == Ch(s[0]) && dumped == [s[1]] && again == Ch(s[0])
  {
    hide Unread, Ordered, Suiolite.Contents, AbufSrc.Valid, Abuf.Valid, Abuf.Pending;
    var src := new AbufSrc.Text(s);
    var a := new Abuf(src);
    first := a.Get();
    assert a.Pending() == s[1..];
    dumped := DumpOne(a);
    a.Unget();
    again := a.Get();
  }

  /** Why the end of a connection matters: what comes in while the reader waits and exceeds the connection's limit is
      in the ring, but readcb (0) follows, and the reader is told the end of input. */
  method OverLimit(a: Abuf, data: bytes) returns (r: Got)
    requires a.Valid() && a.src.ring != null && !a.src.eof && a.mirror == null
    requires a.erc == Wait && !a.bc && a.Pending() == [] && 0 < |data| <= a.src.store.Length
    modifies a, a.src, a.src.ring, a.src.store
    ensures a.Valid() && r.EofChar? && a.Pending() == [] && a.delivered == old(a.delivered)
  {
    hide Unread, Ordered, Suiolite.Contents, AbufSrc.Valid, Abuf.Valid, Abuf.Pending;
    a.WaitingIsEmpty();
    a.Arrive(data);
    a.Close();
    a.CanRead();
    r := a.Get();
  }
}
