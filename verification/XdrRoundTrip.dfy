/** Decoding undoes encoding, exactly when. */
module XdrRoundTrip {
  import opened Bytes
  import opened XdrModel

  /** No bounded string in v holds a NUL byte; opaque data may. */
  predicate NulFree(t: XdrType, v: XdrVal)
    requires HasType(t, v)
    decreases t
  {
    match t
    case TStr(_) => NulFreeStr(v.s)
    case TVec(elem, _) => forall i :: 0 <= i < |v.elems| ==> NulFree(elem, v.elems[i])
    case TArray(elem, _) => forall i :: 0 <= i < |v.elems| ==> NulFree(elem, v.elems[i])
    case TPtr(elem) => v.p.Some? ==> NulFree(elem, v.p.value)
    case TStruct(fields) => forall i :: 0 <= i < |fields| ==> NulFree(fields[i].typ, v.vals[i])
    case _ => true
  }

  /** v written over cur, where a null pointer in v leaves what cur has there. */
  function Overlay(t: XdrType, v: XdrVal, cur: XdrVal): XdrVal
    requires WellFormed(t) && HasType(t, v) && HasType(t, cur)
    decreases t, 0
  {
    match t
    case TVec(elem, _) =>
      VSeq(OverlayElems(elem, v.elems, Resize(elem, cur.elems, |v.elems|)))
    case TArray(elem, _) =>
      VSeq(OverlayElems(elem, v.elems, cur.elems))
    case TPtr(elem) =>
      if v.p.None? then cur else VPtr(Some(Overlay(elem, v.p.value, Target(elem, cur.p))))
    case TStruct(fields) =>
      VStruct(OverlayFields(fields, v.vals, cur.vals))
    case _ => v
  }

  function OverlayElems(elem: XdrType, es: seq<XdrVal>, under: seq<XdrVal>): (r: seq<XdrVal>)
    requires WellFormed(elem) && |es| == |under|
    requires forall i :: 0 <= i < |es| ==> HasType(elem, es[i]) && HasType(elem, under[i])
    ensures |r| == |es|
    ensures forall i :: 0 <= i < |es| ==> r[i] == Overlay(elem, es[i], under[i])
    decreases elem, 1
  {
    seq(|es|, i requires 0 <= i < |es| => Overlay(elem, es[i], under[i]))
  }

  function OverlayFields(fields: seq<Field>, es: seq<XdrVal>, under: seq<XdrVal>): (r: seq<XdrVal>)
    requires |es| == |under| == |fields| && forall i :: 0 <= i < |es| ==> WellFormed(fields[i].typ)
    requires forall i :: 0 <= i < |es| ==> HasType(fields[i].typ, es[i]) && HasType(fields[i].typ, under[i])
    ensures |r| == |es|
    ensures forall i :: 0 <= i < |es| ==> r[i] == Overlay(fields[i].typ, es[i], under[i])
    decreases fields, 1
  {
    seq(|es|, i requires 0 <= i < |es| => Overlay(fields[i].typ, es[i], under[i]))
  }

  /** No null pointer of v meets an allocated one in cur. */
  predicate NoStalePointer(t: XdrType, v: XdrVal, cur: XdrVal)
    requires WellFormed(t) && HasType(t, v) && HasType(t, cur)
    decreases t
  {
    match t
    case TVec(elem, _) =>
      var under := Resize(elem, cur.elems, |v.elems|);
      forall i :: 0 <= i < |v.elems| ==> NoStalePointer(elem, v.elems[i], under[i])
    case TArray(elem, _) => forall i :: 0 <= i < |v.elems| ==> NoStalePointer(elem, v.elems[i], cur.elems[i])
    case TPtr(elem) =>
      if v.p.None? then cur.p.None? else NoStalePointer(elem, v.p.value, Target(elem, cur.p))
    case TStruct(fields) =>
      forall i :: 0 <= i < |fields| ==> NoStalePointer(fields[i].typ, v.vals[i], cur.vals[i])
    case _ => true
  }

  /** Reading what was written: it fails exactly on a NUL in a string, and otherwise overlays. */
  lemma {:induction false} DecodeEncode(t: XdrType, v: XdrVal, cur: XdrVal)
    requires WellFormed(t) && HasType(t, v) && HasType(t, cur)
    ensures Decode(t, Some(Encode(t, v)), cur) == if NulFree(t, v) then Some(Overlay(t, v, cur)) else None
    decreases t, 2, 0
  {
    hide NulFree, Overlay, Encode, Decode, HasType, WellFormed;
    match t {
      case TVec(elem, max) => VecDecodeEncode(elem, max, v, cur);
      case TArray(elem, n) => ArrayDecodeEncode(elem, n, v, cur);
      case TPtr(elem) => PtrDecodeEncode(elem, v, cur);
      case TStruct(fields) => StructDecodeEncode(fields, v, cur);
      case _ => ScalarDecodeEncode(t, v, cur);
    }
  }

  lemma ScalarDecodeEncode(t: XdrType, v: XdrVal, cur: XdrVal)
    requires HasType(t, v) && HasType(t, cur) && !t.TVec? && !t.TArray? && !t.TPtr? && !t.TStruct?
    ensures Decode(t, Some(Encode(t, v)), cur) == if NulFree(t, v) then Some(Overlay(t, v, cur)) else None
  {
    if t.TOpaque? {
      assert v.s + cur.s[t.n..] == v.s;
    }
  }

  lemma VecDecodeEncode(elem: XdrType, max: nat, v: XdrVal, cur: XdrVal)
    requires WellFormed(TVec(elem, max)) && HasType(TVec(elem, max), v) && HasType(TVec(elem, max), cur)
    ensures Decode(TVec(elem, max), Some(Encode(TVec(elem, max), v)), cur) == if NulFree(TVec(elem, max), v) then Some(Overlay(TVec(elem, max), v, cur)) else None
    decreases elem, 3, 0
  {
    var under := Resize(elem, cur.elems, |v.elems|);
    DecodeElemsEncode(elem, v.elems, under, under, 0);
  }

  lemma ArrayDecodeEncode(elem: XdrType, n: nat, v: XdrVal, cur: XdrVal)
    requires WellFormed(TArray(elem, n)) && HasType(TArray(elem, n), v) && HasType(TArray(elem, n), cur)
    ensures Decode(TArray(elem, n), Some(Encode(TArray(elem, n), v)), cur) == if NulFree(TArray(elem, n), v) then Some(Overlay(TArray(elem, n), v, cur)) else None
    decreases elem, 3, 0
  {
    DecodeElemsEncode(elem, v.elems, cur.elems, cur.elems, 0);
  }

  lemma PtrDecodeEncode(elem: XdrType, v: XdrVal, cur: XdrVal)
    requires WellFormed(TPtr(elem)) && HasType(TPtr(elem), v) && HasType(TPtr(elem), cur)
    ensures Decode(TPtr(elem), Some(Encode(TPtr(elem), v)), cur) == if NulFree(TPtr(elem), v) then Some(Overlay(TPtr(elem), v, cur)) else None
    decreases elem, 3, 0
  {
    if v.p.Some? {
      DecodeEncode(elem, v.p.value, Target(elem, cur.p));
    }
  }

  lemma StructDecodeEncode(fields: seq<Field>, v: XdrVal, cur: XdrVal)
    requires WellFormed(TStruct(fields)) && HasType(TStruct(fields), v) && HasType(TStruct(fields), cur)
    ensures Decode(TStruct(fields), Some(Encode(TStruct(fields), v)), cur) == if NulFree(TStruct(fields), v) then Some(Overlay(TStruct(fields), v, cur)) else None
    decreases fields, 3, 0
  {
    DecodeFieldsEncode(fields, v.vals, cur.vals, cur.vals, 0);
  }

  lemma {:induction false} DecodeElemsEncode(elem: XdrType, es: seq<XdrVal>, under: seq<XdrVal>, vs: seq<XdrVal>, k: nat)
    requires WellFormed(elem) && k <= |es| == |vs| == |under|
    requires forall i :: 0 <= i < |es| ==> HasType(elem, es[i]) && HasType(elem, vs[i]) && HasType(elem, under[i])
    requires forall i :: 0 <= i < |es| ==> vs[i] == if i < k then Overlay(elem, es[i], under[i]) else under[i]
    ensures DecodeElems(elem, EncodeElems(elem, es), vs, k) ==
      if forall i :: k <= i < |es| ==> NulFree(elem, es[i]) then Some(OverlayElems(elem, es, under)) else None
    decreases elem, 2, |es| - k + 1
  {
    hide NulFree, Overlay, Encode, Decode, HasType, WellFormed, EncodeElems, OverlayElems;
    var js := EncodeElems(elem, es);
    if k == |es| {
      assert vs == OverlayElems(elem, es, under);
    } else {
      DecodeEncode(elem, es[k], vs[k]);
      var r := Decode(elem, Some(js[k]), vs[k]);
      if r.Some? {
        DecodeElemsEncode(elem, es, under, vs[k := r.value], k + 1);
      }
    }
  }

  lemma {:induction false} DecodeFieldsEncode(fields: seq<Field>, es: seq<XdrVal>, under: seq<XdrVal>, vs: seq<XdrVal>, k: nat)
    requires NamesDistinct(fields) && forall i :: 0 <= i < |fields| ==> WellFormed(fields[i].typ)
    requires k <= |fields| == |es| == |vs| == |under|
    requires forall i :: 0 <= i < |es| ==> HasType(fields[i].typ, es[i])
    requires forall i :: 0 <= i < |es| ==> HasType(fields[i].typ, vs[i]) && HasType(fields[i].typ, under[i])
    requires forall i :: 0 <= i < |es| ==> vs[i] == if i < k then Overlay(fields[i].typ, es[i], under[i]) else under[i]
    ensures DecodeFields(fields, JDict(EncodeFields(fields, es, |fields|)), vs, k) ==
      if forall i :: k <= i < |es| ==> NulFree(fields[i].typ, es[i]) then Some(OverlayFields(fields, es, under)) else None
    decreases fields, 2, |es| - k
  {
    hide NulFree, Overlay, Encode, Decode, HasType, WellFormed, EncodeFields, OverlayFields;
    var j := JDict(EncodeFields(fields, es, |fields|));
    if k == |es| {
      assert vs == OverlayFields(fields, es, under);
    } else {
      DecodeEncode(fields[k].typ, es[k], vs[k]);
      var r := Decode(fields[k].typ, Slot(j, fields[k].name), vs[k]);
      if r.Some? {
        DecodeFieldsEncode(fields, es, under, vs[k := r.value], k + 1);
      }
    }
  }

  /** Reading into an object that already holds something gives back v exactly when no null pointer
      of v meets an allocated one: the reader never frees a pointer. */
  lemma {:induction false} OverlayExact(t: XdrType, v: XdrVal, cur: XdrVal)
    requires WellFormed(t) && HasType(t, v) && HasType(t, cur)
    ensures Overlay(t, v, cur) == v <==> NoStalePointer(t, v, cur)
    decreases t
  {
    match t {
      case TVec(elem, _) =>
        var under := Resize(elem, cur.elems, |v.elems|);
        forall i | 0 <= i < |v.elems|
          ensures Overlay(t, v, cur).elems[i] == v.elems[i] <==> NoStalePointer(elem, v.elems[i], under[i])
        {
          OverlayExact(elem, v.elems[i], under[i]);
        }
      case TArray(elem, _) =>
        forall i | 0 <= i < |v.elems|
          ensures Overlay(t, v, cur).elems[i] == v.elems[i] <==> NoStalePointer(elem, v.elems[i], cur.elems[i])
        {
          OverlayExact(elem, v.elems[i], cur.elems[i]);
        }
      case TPtr(elem) =>
        if v.p.Some? {
          OverlayExact(elem, v.p.value, Target(elem, cur.p));
        }
      case TStruct(fields) =>
        forall i | 0 <= i < |fields|
          ensures Overlay(t, v, cur).vals[i] == v.vals[i] <==> NoStalePointer(fields[i].typ, v.vals[i], cur.vals[i])
        {
          OverlayExact(fields[i].typ, v.vals[i], cur.vals[i]);
        }
      case _ =>
    }
  }

  lemma {:induction false} FreshHasNoStalePointer(t: XdrType, v: XdrVal)
    requires WellFormed(t) && HasType(t, v) && HasType(t, Default(t))
    ensures NoStalePointer(t, v, Default(t))
    decreases t
  {
    match t {
      case TVec(elem, _) =>
        DefaultHasType(elem);
        forall i | 0 <= i < |v.elems|
          ensures NoStalePointer(elem, v.elems[i], Default(elem))
        {
          FreshHasNoStalePointer(elem, v.elems[i]);
        }
      case TArray(elem, _) =>
        DefaultHasType(elem);
        forall i | 0 <= i < |v.elems|
          ensures NoStalePointer(elem, v.elems[i], Default(elem))
        {
          FreshHasNoStalePointer(elem, v.elems[i]);
        }
      case TPtr(elem) =>
        DefaultHasType(elem);
        if v.p.Some? {
          FreshHasNoStalePointer(elem, v.p.value);
        }
      case TStruct(fields) =>
        forall i | 0 <= i < |fields|
          ensures NoStalePointer(fields[i].typ, v.vals[i], Default(t).vals[i])
        {
          FreshHasNoStalePointer(fields[i].typ, v.vals[i]);
        }
      case _ =>
    }
  }

  /** json2xdr (xdr2json (v)) into a fresh object is v, if and only if no string of v holds a NUL. */
  lemma RoundTrip(t: XdrType, v: XdrVal)
    requires WellFormed(t) && HasType(t, v)
    ensures HasType(t, Default(t))
    ensures Decode(t, Some(Encode(t, v)), Default(t)) == Some(v) <==> NulFree(t, v)
  {
    DefaultHasType(t);
    DecodeEncode(t, v, Default(t));
    OverlayExact(t, v, Default(t));
    FreshHasNoStalePointer(t, v);
  }
}
