/** Which JSON stands for which XDR value, and which JSON reads as which, stated as relations. */
module XdrMeaning {
  import opened Bytes
  import opened XdrModel

  /** The number a JSON integer stands for. */
  function Number(j: Json): Option<int> {
    match j
    case JInt(i) => Some(i)
    case JUint(u) => Some(u)
    case _ => None
  }

  predicate Whole(t: XdrType) {
    t.TInt32? || t.TUint32? || t.TInt64? || t.TUint64?
  }

  predicate Octets(t: XdrType) {
    t.TStr? || t.TBytes? || t.TOpaque?
  }

  predicate Sequence(t: XdrType) {
    t.TVec? || t.TArray?
  }

  /** j stands for v: the same number, truth value or bytes; a list of trees that stand for the elements, in order, or
      for what a pointer points to; a dictionary with just the field names and trees that stand for the fields. */
  ghost predicate StandsFor(t: XdrType, v: XdrVal, j: Json)
    requires HasType(t, v)
    decreases t
  {
    && (Whole(t) ==> Number(j) == Some(v.i) && (j.JUint? <==> t.TUint64?))
    && (t.TBool? ==> j.JBool? && j.b == v.b)
    && (Octets(t) ==> j.JStr? && j.s == v.s)
    && (Sequence(t) ==>
        && j.JList? && |j.elems| == |v.elems|
        && forall i :: 0 <= i < |v.elems| ==> StandsFor(t.elem, v.elems[i], j.elems[i]))
    && (t.TPtr? ==>
        && j.JList?
        && (v.p == None ==> |j.elems| == 0)
        && (v.p.Some? ==> |j.elems| == 1 && StandsFor(t.elem, v.p.value, j.elems[0])))
    && (t.TStruct? ==>
        && j.JDict? && (forall n :: n in j.dict <==> exists i :: 0 <= i < |t.fields| && t.fields[i].name == n)
        && forall i :: 0 <= i < |t.fields| ==> StandsFor(t.fields[i].typ, v.vals[i], j.dict[t.fields[i].name]))
  }

  lemma {:induction false} EncodeStandsFor(t: XdrType, v: XdrVal)
    requires HasType(t, v)
    ensures StandsFor(t, v, Encode(t, v))
    decreases t
  {
    match t {
      case TVec(elem, _) =>
        forall i | 0 <= i < |v.elems|
          ensures StandsFor(elem, v.elems[i], Encode(t, v).elems[i])
        {
          EncodeStandsFor(elem, v.elems[i]);
        }
      case TArray(elem, _) =>
        forall i | 0 <= i < |v.elems|
          ensures StandsFor(elem, v.elems[i], Encode(t, v).elems[i])
        {
          EncodeStandsFor(elem, v.elems[i]);
        }
      case TPtr(elem) =>
        if v.p.Some? {
          EncodeStandsFor(elem, v.p.value);
        }
      case TStruct(fields) =>
        forall i | 0 <= i < |fields|
          ensures StandsFor(fields[i].typ, v.vals[i], Encode(t, v).dict[fields[i].name])
        {
          EncodeStandsFor(fields[i].typ, v.vals[i]);
        }
      case _ =>
    }
  }

  // ---- reading ----

  /** A number, or a truth value read as one. */
  function NumberOrBool(j: Json): Option<int> {
    if j.JBool? then Some(if j.b then 1 else 0) else Number(j)
  }

  /** What j reads as true: true, a number that is not zero, anything that is not empty. */
  predicate Truthy(j: Json) {
    || j == JBool(true)
    || (Number(j).Some? && Number(j) != Some(0))
    || (j.JStr? && |j.s| > 0)
    || (j.JList? && |j.elems| > 0)
    || (j.JDict? && |j.dict| > 0)
  }

  /** Whether j can be read as a t at all. */
  predicate Readable(t: XdrType, j: Json)
    decreases t
  {
    && (t.TInt32? || t.TUint32? || t.TInt64? ==>
        NumberOrBool(j).Some? && (j.JUint? ==> j.u < 0x8000_0000_0000_0000)
        && (t.TInt64? ==> -0x8000_0000_0000_0000 <= NumberOrBool(j).value < 0x8000_0000_0000_0000))
    && (t.TUint64? ==> NumberOrBool(j).Some? && 0 <= NumberOrBool(j).value < 0x1_0000_0000_0000_0000)
    && (t.TStr? ==> j.JStr? && |j.s| <= t.max && forall i :: 0 <= i < |j.s| ==> j.s[i] != 0)
    && (t.TBytes? ==> j.JStr? && |j.s| <= t.max)
    && (t.TOpaque? ==> j.JStr? && |j.s| <= t.n)
    && (t.TVec? ==> j.JList? && |j.elems| <= t.max && forall i :: 0 <= i < |j.elems| ==> Readable(t.elem, j.elems[i]))
    && (t.TArray? ==> j.JList? && |j.elems| == t.n && forall i :: 0 <= i < |j.elems| ==> Readable(t.elem, j.elems[i]))
    && (t.TPtr? ==> j.JList? && |j.elems| <= 1 && forall i :: 0 <= i < |j.elems| ==> Readable(t.elem, j.elems[i]))
    && (t.TStruct? ==>
        j.JDict? && forall i :: 0 <= i < |t.fields| ==>
          t.fields[i].name in j.dict && Readable(t.fields[i].typ, j.dict[t.fields[i].name]))
  }

  /** v is what j reads as in an object that held cur: the number, up to 2^32 for a 32-bit type; the truth value; the
      bytes, in front of what a fixed-length opaque held; element by element; and for an empty list in place of a
      pointer no change. */
  predicate ReadsAs(t: XdrType, j: Json, cur: XdrVal, v: XdrVal)
    requires WellFormed(t) && HasType(t, cur) && HasType(t, v) && Readable(t, j)
    decreases t
  {
    && (t.TInt32? || t.TUint32? ==> (v.i - NumberOrBool(j).value) % 0x1_0000_0000 == 0)
    && (t.TInt64? || t.TUint64? ==> v.i == NumberOrBool(j).value)
    && (t.TBool? ==> (v.b <==> Truthy(j)))
    && (t.TStr? || t.TBytes? ==> v.s == j.s)
    && (t.TOpaque? ==> v.s[..|j.s|] == j.s && v.s[|j.s|..] == cur.s[|j.s|..])
    && (Sequence(t) ==>
        && |v.elems| == |j.elems|
        && forall i :: 0 <= i < |j.elems| ==>
          ReadsAs(t.elem, j.elems[i], if i < |cur.elems| then cur.elems[i] else Fresh(t.elem), v.elems[i]))
    && (t.TPtr? ==>
        if |j.elems| == 0 then v == cur
        else v.p.Some? && ReadsAs(t.elem, j.elems[0], if cur.p.Some? then cur.p.value else Fresh(t.elem), v.p.value))
    && (t.TStruct? ==> forall i :: 0 <= i < |t.fields| ==>
          ReadsAs(t.fields[i].typ, j.dict[t.fields[i].name], cur.vals[i], v.vals[i]))
  }

  function Fresh(t: XdrType): (v: XdrVal)
    requires WellFormed(t)
    ensures HasType(t, v)
  {
    DefaultHasType(t);
    Default(t)
  }

  lemma WrapIsCongruent(i: int)
    ensures (WrapInt32(i) - i) % 0x1_0000_0000 == 0 && (WrapUint32(i) - i) % 0x1_0000_0000 == 0
  {
  }

  lemma ScalarReadsAs(t: XdrType, j: Json, cur: XdrVal)
    requires WellFormed(t) && HasType(t, cur) && (Whole(t) || t.TBool? || Octets(t))
    ensures Decode(t, Some(j), cur).Some? <==> Readable(t, j)
    ensures Readable(t, j) ==> ReadsAs(t, j, cur, Decode(t, Some(j), cur).value)
  {
    hide DecodeElems;
    if Octets(t) {
      OctetsReadAs(t, j, cur);
    } else if t.TInt32? || t.TUint32? {
      Whole32ReadsAs(t, j, cur);
    }
  }

  lemma Whole32ReadsAs(t: XdrType, j: Json, cur: XdrVal)
    requires WellFormed(t) && HasType(t, cur) && (t.TInt32? || t.TUint32?)
    ensures Decode(t, Some(j), cur).Some? <==> Readable(t, j)
    ensures Readable(t, j) ==> ReadsAs(t, j, cur, Decode(t, Some(j), cur).value)
  {
    hide WrapInt32, WrapUint32, DecodeElems, Truthy;
    WrapIsCongruent(if NumberOrBool(j).Some? then NumberOrBool(j).value else 0);
  }

  lemma OctetsReadAs(t: XdrType, j: Json, cur: XdrVal)
    requires WellFormed(t) && HasType(t, cur) && Octets(t)
    ensures Decode(t, Some(j), cur).Some? <==> Readable(t, j)
    ensures Readable(t, j) ==> ReadsAs(t, j, cur, Decode(t, Some(j), cur).value)
  {
    hide NumberOrBool, Truthy, WrapInt32, WrapUint32;
    if t.TOpaque? && j.JStr? && |j.s| <= t.n {
      assert (j.s + cur.s[|j.s|..])[|j.s|..] == cur.s[|j.s|..];
    }
  }

  /** A read succeeds exactly on the readable trees, and then the object holds what the tree reads as. */
  lemma {:induction false} DecodeReadsAs(t: XdrType, j: Json, cur: XdrVal)
    requires WellFormed(t) && HasType(t, cur)
    ensures Decode(t, Some(j), cur).Some? <==> Readable(t, j)
    ensures Readable(t, j) ==> ReadsAs(t, j, cur, Decode(t, Some(j), cur).value)
    decreases t, 2, 0
  {
    hide Readable, ReadsAs, Decode, HasType, WellFormed;
    match t {
      case TVec(elem, max) => VecReadsAs(elem, max, j, cur);
      case TArray(elem, n) => ArrayReadsAs(elem, n, j, cur);
      case TPtr(elem) => PtrReadsAs(elem, j, cur);
      case TStruct(fields) => StructReadsAs(fields, j, cur);
      case _ => ScalarReadsAs(t, j, cur);
    }
  }

  lemma VecReadsAs(elem: XdrType, max: nat, j: Json, cur: XdrVal)
    requires WellFormed(TVec(elem, max)) && HasType(TVec(elem, max), cur)
    ensures var t := TVec(elem, max);
      && (Decode(t, Some(j), cur).Some? <==> Readable(t, j))
      && (Readable(t, j) ==> ReadsAs(t, j, cur, Decode(t, Some(j), cur).value))
    decreases elem, 3, 0
  {
    if j.JList? && |j.elems| <= max {
      var under := Resize(elem, cur.elems, |j.elems|);
      ElemsReadAs(elem, j.elems, under, under, 0);
    }
  }

  lemma ArrayReadsAs(elem: XdrType, n: nat, j: Json, cur: XdrVal)
    requires WellFormed(TArray(elem, n)) && HasType(TArray(elem, n), cur)
    ensures var t := TArray(elem, n);
      && (Decode(t, Some(j), cur).Some? <==> Readable(t, j))
      && (Readable(t, j) ==> ReadsAs(t, j, cur, Decode(t, Some(j), cur).value))
    decreases elem, 3, 0
  {
    if j.JList? && |j.elems| == n {
      ElemsReadAs(elem, j.elems, cur.elems, cur.elems, 0);
    }
  }

  lemma PtrReadable(elem: XdrType, j: Json)
    ensures Readable(TPtr(elem), j) <==> j.JList? && |j.elems| <= 1 && (|j.elems| == 1 ==> Readable(elem, j.elems[0]))
  {
  }

  lemma PtrReads(elem: XdrType, j: Json, cur: XdrVal, v: XdrVal)
    requires WellFormed(TPtr(elem)) && HasType(TPtr(elem), cur) && HasType(TPtr(elem), v) && Readable(TPtr(elem), j)
    ensures ReadsAs(TPtr(elem), j, cur, v) <==>
      if |j.elems| == 0 then v == cur
      else v.p.Some? && ReadsAs(elem, j.elems[0], if cur.p.Some? then cur.p.value else Fresh(elem), v.p.value)
  {
  }

  lemma PtrReadsAs(elem: XdrType, j: Json, cur: XdrVal)
    requires WellFormed(TPtr(elem)) && HasType(TPtr(elem), cur)
    ensures var t := TPtr(elem);
      && (Decode(t, Some(j), cur).Some? <==> Readable(t, j))
      && (Readable(t, j) ==> ReadsAs(t, j, cur, Decode(t, Some(j), cur).value))
    decreases elem, 3, 0
  {
    hide Readable, ReadsAs;
    PtrReadable(elem, j);
    if j.JList? && |j.elems| <= 1 {
      if |j.elems| == 1 {
        DecodeReadsAs(elem, j.elems[0], Target(elem, cur.p));
      }
      if Readable(TPtr(elem), j) {
        PtrReads(elem, j, cur, Decode(TPtr(elem), Some(j), cur).value);
      }
    }
  }

  lemma StructReadsAs(fields: seq<Field>, j: Json, cur: XdrVal)
    requires WellFormed(TStruct(fields)) && HasType(TStruct(fields), cur)
    ensures var t := TStruct(fields);
      && (Decode(t, Some(j), cur).Some? <==> Readable(t, j))
      && (Readable(t, j) ==> ReadsAs(t, j, cur, Decode(t, Some(j), cur).value))
    decreases fields, 3, 0
  {
    FieldsReadAs(fields, j, cur.vals, cur.vals, 0);
  }

  lemma {:induction false} ElemsReadAs(elem: XdrType, js: seq<Json>, under: seq<XdrVal>, vs: seq<XdrVal>, k: nat)
    requires WellFormed(elem) && k <= |js| == |vs| == |under|
    requires forall i :: 0 <= i < |vs| ==> HasType(elem, vs[i]) && HasType(elem, under[i])
    requires forall i :: k <= i < |vs| ==> vs[i] == under[i]
    requires forall i :: 0 <= i < k ==> Readable(elem, js[i]) && ReadsAs(elem, js[i], under[i], vs[i])
    ensures DecodeElems(elem, js, vs, k).Some? <==> forall i :: 0 <= i < |js| ==> Readable(elem, js[i])
    ensures DecodeElems(elem, js, vs, k).Some? ==>
      forall i :: 0 <= i < |js| ==> ReadsAs(elem, js[i], under[i], DecodeElems(elem, js, vs, k).value[i])
    decreases elem, 2, |js| - k + 1
  {
    hide Readable, ReadsAs, Decode, HasType, WellFormed;
    if k < |js| {
      DecodeReadsAs(elem, js[k], vs[k]);
      var r := Decode(elem, Some(js[k]), vs[k]);
      if r.Some? {
        ElemsReadAs(elem, js, under, vs[k := r.value], k + 1);
      }
    }
  }

  lemma {:induction false} FieldsReadAs(fields: seq<Field>, j: Json, under: seq<XdrVal>, vs: seq<XdrVal>, k: nat)
    requires |fields| > 0 && forall i :: 0 <= i < |fields| ==> WellFormed(fields[i].typ)
    requires k <= |fields| == |vs| == |under| && (k > 0 ==> j.JDict?)
    requires forall i :: 0 <= i < |vs| ==> HasType(fields[i].typ, vs[i]) && HasType(fields[i].typ, under[i])
    requires forall i :: k <= i < |vs| ==> vs[i] == under[i]
    requires forall i :: 0 <= i < k ==>
      && fields[i].name in j.dict && Readable(fields[i].typ, j.dict[fields[i].name])
      && ReadsAs(fields[i].typ, j.dict[fields[i].name], under[i], vs[i])
    ensures DecodeFields(fields, j, vs, k).Some? <==>
      j.JDict? && forall i :: 0 <= i < |fields| ==>
        fields[i].name in j.dict && Readable(fields[i].typ, j.dict[fields[i].name])
    ensures DecodeFields(fields, j, vs, k).Some? ==> forall i :: 0 <= i < |fields| ==>
      ReadsAs(fields[i].typ, j.dict[fields[i].name], under[i], DecodeFields(fields, j, vs, k).value[i])
    decreases fields, 2, |fields| - k
  {
    hide Readable, ReadsAs, HasType, WellFormed;
    if k < |fields| && j.JDict? && fields[k].name in j.dict {
      DecodeReadsAs(fields[k].typ, j.dict[fields[k].name], vs[k]);
      var r := Decode(fields[k].typ, Slot(j, fields[k].name), vs[k]);
      if r.Some? {
        FieldsReadAs(fields, j, under, vs[k := r.value], k + 1);
      }
    }
  }
}
