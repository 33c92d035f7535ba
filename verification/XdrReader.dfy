/** JSON_reader_t: filling in an XDR object from a JSON tree through a stack of cursors
    (libokxml/xdr_as_json.C:209-428, driven by libokxml/okxmlxlate.h:246-398). */
module XdrReader {
  import opened Bytes
  import opened XdrModel

  /** What a read, successful or not, leaves in an object that held cur: everything before the first failure is
      filled in, and nothing after it. */
  function Leaves(t: XdrType, j: Option<Json>, cur: XdrVal): (v: XdrVal)
    requires WellFormed(t) && HasType(t, cur)
    ensures HasType(t, v)
    ensures Decode(t, j, cur).Some? ==> v == Decode(t, j, cur).value
    decreases t, 1, 0
  {
    if j.None? then cur
    else
      match t
      case TVec(elem, max) =>
        if !j.value.JList? || |j.value.elems| > max then cur
        else VSeq(LeavesElems(elem, j.value.elems, Resize(elem, cur.elems, |j.value.elems|), 0))
      case TArray(elem, n) =>
        if !j.value.JList? || |j.value.elems| != n then cur
        else VSeq(LeavesElems(elem, j.value.elems, cur.elems, 0))
      case TPtr(elem) =>
        if !j.value.JList? || |j.value.elems| != 1 then cur
        else VPtr(Some(Leaves(elem, Some(j.value.elems[0]), Target(elem, cur.p))))
      case TStruct(fields) => VStruct(LeavesFields(fields, j.value, cur.vals, 0))
      case _ => if Decode(t, j, cur).Some? then Decode(t, j, cur).value else cur
  }

  function LeavesElems(elem: XdrType, js: seq<Json>, vs: seq<XdrVal>, k: nat): (r: seq<XdrVal>)
    requires WellFormed(elem) && k <= |js| == |vs| && forall i :: 0 <= i < |vs| ==> HasType(elem, vs[i])
    ensures |r| == |vs| && forall i :: 0 <= i < |vs| ==> HasType(elem, r[i])
    ensures DecodeElems(elem, js, vs, k).Some? ==> r == DecodeElems(elem, js, vs, k).value
    decreases elem, 2, |js| - k
  {
    if k == |js| then vs
    else
      var v := Leaves(elem, Some(js[k]), vs[k]);
      if Decode(elem, Some(js[k]), vs[k]).None? then vs[k := v] else LeavesElems(elem, js, vs[k := v], k + 1)
  }

  function LeavesFields(fields: seq<Field>, j: Json, vs: seq<XdrVal>, k: nat): (r: seq<XdrVal>)
    requires forall i :: 0 <= i < |fields| ==> WellFormed(fields[i].typ)
    requires k <= |fields| == |vs| && forall i :: 0 <= i < |vs| ==> HasType(fields[i].typ, vs[i])
    ensures |r| == |vs| && forall i :: 0 <= i < |vs| ==> HasType(fields[i].typ, r[i])
    ensures DecodeFields(fields, j, vs, k).Some? ==> r == DecodeFields(fields, j, vs, k).value
    decreases fields, 2, |fields| - k
  {
    if k == |fields| || !j.JDict? then vs
    else
      var slot := Slot(j, fields[k].name);
      var v := Leaves(fields[k].typ, slot, vs[k]);
      if Decode(fields[k].typ, slot, vs[k]).None? then vs[k := v] else LeavesFields(fields, j, vs[k := v], k + 1)
  }

  class JsonReader {
    var stack: seq<Option<Json>>    // None is a NULL pointer

    /** setroot. */
    constructor (root: Json)
      ensures stack == [Some(root)]
    {
      stack := [Some(root)];
    }

    /** What the cursor points at; nothing also when the stack is empty. */
    function Top(): Option<Json>
      reads this
    {
      if |stack| == 0 then None else stack[|stack| - 1]
    }

    method EnterField(name: string) returns (ok: bool)
      modifies this
      ensures ok <==> old(Top()).Some? && old(Top()).value.JDict?
      ensures stack == if ok then old(stack) + [Slot(old(Top()).value, name)] else old(stack)
    {
      var top := Top();
      if top.None? || !top.value.JDict? {
        return false;
      }
      var d := top.value.dict;
      stack := stack + [if name in d then Some(d[name]) else None];
      ok := true;
    }

    /** exit_field, and pop of n frames. */
    method Pop(n: nat)
      requires n <= |stack|
      modifies this
      ensures stack == old(stack)[..|old(stack)| - n]
    {
      stack := stack[..|stack| - n];
    }

    /** push_array: the length of the list at the cursor, when an array of capac slots (exactly so many, if
        fixed) can take it. */
    method PushArray(capac: nat, fixed: bool) returns (ok: bool, sz: nat)
      ensures ok <==>
        && Top().Some? && Top().value.JList?
        && if fixed then |Top().value.elems| == capac else |Top().value.elems| <= capac
      ensures ok ==> sz == |Top().value.elems|
    {
      var top := Top();
      sz := 0;
      if top.None? || !top.value.JList? {
        ok := false;
      } else {
        sz := |top.value.elems|;
        ok := !(sz > capac || (fixed && sz != capac));
      }
    }

    method PushArraySlot(i: nat) returns (ok: bool)
      requires Top().Some? && Top().value.JList? ==> i < |Top().value.elems|
      modifies this
      ensures ok <==> old(Top()).Some? && old(Top()).value.JList?
      ensures stack == if ok then old(stack) + [Some(old(Top()).value.elems[i])] else old(stack)
    {
      var top := Top();
      if top.None? || !top.value.JList? {
        return false;
      }
      stack := stack + [Some(top.value.elems[i])];
      ok := true;
    }

    /** push_ptr: how many frames it pushed, or failure. */
    method PushPtr() returns (ok: bool, frames: nat)
      modifies this
      ensures ok <==> old(Top()).Some? && old(Top()).value.JList? && |old(Top()).value.elems| <= 1
      ensures ok ==> frames == |old(Top()).value.elems|
      ensures stack == old(stack) + if ok && frames == 1 then [Some(old(Top()).value.elems[0])] else []
    {
      var top := Top();
      frames := 0;
      if top.None? || !top.value.JList? || |top.value.elems| > 1 {
        ok := false;
      } else {
        if |top.value.elems| == 1 {
          stack := stack + [Some(top.value.elems[0])];
          frames := 1;
        }
        ok := true;
      }
    }

    method InLeaf(t: XdrType, cur: XdrVal) returns (ok: bool, v: XdrVal)
      requires HasType(t, cur)
      requires !t.TVec? && !t.TArray? && !t.TPtr? && !t.TStruct?
      ensures ok <==> Decode(t, Top(), cur).Some?
      ensures v == Leaves(t, Top(), cur)
    {
      ok, v := false, cur;
      if Top().None? {
        return;
      }
      var top := Top().value;
      match t {
        case TBool => ok, v := true, VBool(ToBool(top));
        case TUint64 =>
          var u := ToUint(top);
          if u.Some? && 0 <= u.value < TWO_64 { ok, v := true, VInt(u.value); }
        case TStr(max) =>
          var s := ToStr(top);
          if s.Some? && NulFreeStr(s.value) && |s.value| <= max { ok, v := true, VBytes(s.value); }
        case TBytes(max) =>
          var s := ToStr(top);
          if s.Some? && |s.value| <= max { ok, v := true, VBytes(s.value); }
        case TOpaque(n) =>
          var s := ToStr(top);
          if s.Some? && |s.value| <= n { ok, v := true, VBytes(s.value + cur.s[|s.value|..]); }
        case TInt32 =>
          var i := ToInt(top);
          if i.Some? { ok, v := true, VInt(WrapInt32(i.value)); }
        case TUint32 =>
          var i := ToInt(top);
          if i.Some? { ok, v := true, VInt(WrapUint32(i.value)); }
        case TInt64 =>
          var i := ToInt(top);
          if i.Some? && -TWO_63 <= i.value < TWO_63 { ok, v := true, VInt(i.value); }
      }
    }

    /** rpc_traverse into an object that holds cur: it succeeds exactly when the tree at the cursor decodes, with
        what it decodes to and the cursors as they were. A failure leaves the object filled up to it, and perhaps
        frames on top. */
    method In(t: XdrType, cur: XdrVal) returns (ok: bool, v: XdrVal)
      requires WellFormed(t) && HasType(t, cur)
      modifies this
      ensures ok <==> Decode(t, old(Top()), cur).Some?
      ensures v == Leaves(t, old(Top()), cur) && (ok ==> v == Decode(t, old(Top()), cur).value && stack == old(stack))
      ensures old(stack) <= stack
      decreases t, 2
    {
      match t {
        case TVec(elem, max) =>
          var vs: seq<XdrVal>, sz: nat;
          v := cur;
          ok, sz := PushArray(max, false);
          if ok {
            ok, vs := InElems(elem, Resize(elem, cur.elems, sz));
            v := VSeq(vs);
          }
        case TArray(elem, n) =>
          var vs: seq<XdrVal>, sz: nat;
          v := cur;
          ok, sz := PushArray(n, true);
          if ok {
            ok, vs := InElems(elem, cur.elems);
            v := VSeq(vs);
          }
        case TPtr(elem) =>
          ok, v := InPtr(elem, cur);
        case TStruct(fields) =>
          var vs: seq<XdrVal>;
          ok, vs := InFields(fields, cur.vals);
          v := VStruct(vs);
        case _ =>
          ok, v := InLeaf(t, cur);
      }
    }

    /** The loop of _rpc_traverse_array. */
    method InElems(elem: XdrType, cur: seq<XdrVal>) returns (ok: bool, vs: seq<XdrVal>)
      requires WellFormed(elem) && forall i :: 0 <= i < |cur| ==> HasType(elem, cur[i])
      requires Top().Some? && Top().value.JList? && |Top().value.elems| == |cur|
      modifies this
      ensures ok <==> DecodeElems(elem, old(Top()).value.elems, cur, 0).Some?
      ensures vs == LeavesElems(elem, old(Top()).value.elems, cur, 0) && (ok ==> stack == old(stack))
      ensures old(stack) <= stack
      decreases elem, 3
    {
      hide Decode, HasType, WellFormed;
      ghost var js := Top().value.elems;
      vs := cur;
      var i := 0;
      while i < |vs|
        invariant 0 <= i <= |vs| == |js| && stack == old(stack)
        invariant forall k :: 0 <= k < |vs| ==> HasType(elem, vs[k])
        invariant DecodeElems(elem, js, vs, i) == DecodeElems(elem, js, cur, 0)
        invariant LeavesElems(elem, js, vs, i) == LeavesElems(elem, js, cur, 0)
      {
        ok := PushArraySlot(i);
        var x: XdrVal;
        ok, x := In(elem, vs[i]);
        vs := vs[i := x];
        if !ok {
          return;
        }
        Pop(1);
        i := i + 1;
      }
      ok := true;
    }

    /** rpc_ptr. */
    method InPtr(elem: XdrType, cur: XdrVal) returns (ok: bool, v: XdrVal)
      requires WellFormed(elem) && HasType(TPtr(elem), cur)
      modifies this
      ensures ok <==> Decode(TPtr(elem), old(Top()), cur).Some?
      ensures v == Leaves(TPtr(elem), old(Top()), cur) && (ok ==> stack == old(stack))
      ensures old(stack) <= stack
      decreases elem, 3
    {
      var frames: nat;
      v := cur;
      ok, frames := PushPtr();
      if ok && frames > 0 {
        var x: XdrVal;
        ok, x := In(elem, Target(elem, cur.p));
        v := VPtr(Some(x));
        Pop(frames);
      }
    }

    /** The field by field traversal of a struct. */
    method InFields(fields: seq<Field>, cur: seq<XdrVal>) returns (ok: bool, vs: seq<XdrVal>)
      requires 0 < |fields| == |cur|
      requires forall i :: 0 <= i < |fields| ==> WellFormed(fields[i].typ) && HasType(fields[i].typ, cur[i])
      modifies this
      ensures ok <==> old(Top()).Some? && DecodeFields(fields, old(Top()).value, cur, 0).Some?
      ensures vs == if old(Top()).None? then cur else LeavesFields(fields, old(Top()).value, cur, 0)
      ensures ok ==> stack == old(stack)
      ensures old(stack) <= stack
      decreases fields, 3
    {
      hide Decode, HasType, WellFormed;
      ghost var top := Top();
      vs := cur;
      var i := 0;
      while i < |fields|
        invariant 0 <= i <= |fields| == |vs| && stack == old(stack) && (0 < i ==> top.Some?)
        invariant forall k :: 0 <= k < |vs| ==> HasType(fields[k].typ, vs[k])
        invariant top.Some? ==> DecodeFields(fields, top.value, vs, i) == DecodeFields(fields, top.value, cur, 0)
        invariant if top.None? then vs == cur else LeavesFields(fields, top.value, vs, i) == LeavesFields(fields, top.value, cur, 0)
      {
        ok := EnterField(fields[i].name);
        if !ok {
          return;
        }
        var x: XdrVal;
        ok, x := In(fields[i].typ, vs[i]);
        vs := vs[i := x];
        Pop(1);
        if !ok {
          return;
        }
        i := i + 1;
      }
      ok := true;
    }
  }
}
