/** XDR types and values, JSON trees, and the translation between them as plain recursive functions
    (the meaning of libokxml/xdr_as_json.C driven by the templates of libokxml/okxmlxlate.h). */
module XdrModel {
  import opened Bytes

  datatype XdrType =
    | TInt32 | TUint32 | TInt64 | TUint64 | TBool
    | TStr(max: nat)                    // rpc_str<max>
    | TBytes(max: nat)                  // rpc_bytes<max>
    | TOpaque(n: nat)                   // rpc_opaque<n>, fixed length
    | TVec(elem: XdrType, max: nat)     // rpc_vec<elem, max>
    | TArray(elem: XdrType, n: nat)     // array<elem, n>
    | TPtr(elem: XdrType)               // rpc_ptr<elem>
    | TStruct(fields: seq<Field>)

  datatype Field = Field(name: string, typ: XdrType)

  datatype XdrVal =
    | VInt(i: int)
    | VBool(b: bool)
    | VBytes(s: bytes)
    | VSeq(elems: seq<XdrVal>)
    | VPtr(p: Option<XdrVal>)
    | VStruct(vals: seq<XdrVal>)

  /** pub3 expressions as the codec uses them. */
  datatype Json =
    | JNull | JInt(i: int) | JUint(u: int) | JBool(b: bool) | JStr(s: bytes)
    | JList(elems: seq<Json>)
    | JDict(dict: map<string, Json>)

  const TWO_31: int := 0x8000_0000
  const TWO_32: int := 0x1_0000_0000
  const TWO_63: int := 0x8000_0000_0000_0000
  const TWO_64: int := 0x1_0000_0000_0000_0000

  predicate NamesDistinct(fields: seq<Field>) {
    forall i, j :: 0 <= i < j < |fields| ==> fields[i].name != fields[j].name
  }

  predicate HasType(t: XdrType, v: XdrVal)
    decreases t
  {
    match t
    case TInt32 => v.VInt? && -TWO_31 <= v.i < TWO_31
    case TUint32 => v.VInt? && 0 <= v.i < TWO_32
    case TInt64 => v.VInt? && -TWO_63 <= v.i < TWO_63
    case TUint64 => v.VInt? && 0 <= v.i < TWO_64
    case TBool => v.VBool?
    case TStr(max) => v.VBytes? && |v.s| <= max
    case TBytes(max) => v.VBytes? && |v.s| <= max
    case TOpaque(n) => v.VBytes? && |v.s| == n
    case TVec(elem, max) => v.VSeq? && |v.elems| <= max && forall i :: 0 <= i < |v.elems| ==> HasType(elem, v.elems[i])
    case TArray(elem, n) => v.VSeq? && |v.elems| == n && forall i :: 0 <= i < |v.elems| ==> HasType(elem, v.elems[i])
    case TPtr(elem) => v.VPtr? && (v.p.Some? ==> HasType(elem, v.p.value))
    case TStruct(fields) =>
      && |fields| > 0 && NamesDistinct(fields)
      && v.VStruct? && |v.vals| == |fields|
      && forall i :: 0 <= i < |fields| ==> HasType(fields[i].typ, v.vals[i])
  }

  /** A type that has values: every struct in it, used or not, is non-empty with distinct names. */
  predicate WellFormed(t: XdrType) {
    match t
    case TVec(elem, _) => WellFormed(elem)
    case TArray(elem, _) => WellFormed(elem)
    case TPtr(elem) => WellFormed(elem)
    case TStruct(fields) =>
      && |fields| > 0 && NamesDistinct(fields)
      && forall i :: 0 <= i < |fields| ==> WellFormed(fields[i].typ)
    case _ => true
  }

  /** What a freshly constructed object holds. */
  function Default(t: XdrType): XdrVal {
    match t
    case TBool => VBool(false)
    case TStr(_) => VBytes([])
    case TBytes(_) => VBytes([])
    case TOpaque(n) => VBytes(seq(n, _ => 0))
    case TVec(_, _) => VSeq([])
    case TArray(elem, n) => VSeq(seq(n, _ => Default(elem)))
    case TPtr(_) => VPtr(None)
    case TStruct(fields) => VStruct(seq(|fields|, i requires 0 <= i < |fields| => Default(fields[i].typ)))
    case _ => VInt(0)
  }

  lemma {:induction false} DefaultHasType(t: XdrType)
    requires WellFormed(t)
    ensures HasType(t, Default(t))
    decreases t
  {
    match t {
      case TArray(elem, n) => DefaultHasType(elem);
      case TStruct(fields) =>
        forall i | 0 <= i < |fields|
          ensures HasType(fields[i].typ, Default(t).vals[i])
        {
          DefaultHasType(fields[i].typ);
        }
      case _ =>
    }
  }

  // ---- encoding ----

  /** The JSON tree of a value. */
  function Encode(t: XdrType, v: XdrVal): Json
    requires HasType(t, v)
    decreases t, 0
  {
    match t
    case TUint64 => JUint(v.i)
    case TBool => JBool(v.b)
    case TStr(_) => JStr(v.s)
    case TBytes(_) => JStr(v.s)
    case TOpaque(_) => JStr(v.s)
    case TVec(elem, _) => JList(EncodeElems(elem, v.elems))
    case TArray(elem, _) => JList(EncodeElems(elem, v.elems))
    case TPtr(elem) => JList(if v.p.None? then [] else [Encode(elem, v.p.value)])
    case TStruct(fields) =>
      JDict(EncodeFields(fields, v.vals, |fields|))
    case _ => JInt(v.i)
  }

  function EncodeElems(elem: XdrType, es: seq<XdrVal>): (r: seq<Json>)
    requires forall i :: 0 <= i < |es| ==> HasType(elem, es[i])
    ensures |r| == |es|
    ensures forall i :: 0 <= i < |es| ==> r[i] == Encode(elem, es[i])
    decreases elem, 1
  {
    seq(|es|, i requires 0 <= i < |es| => Encode(elem, es[i]))
  }

  /** The dictionary after the first k fields. */
  function EncodeFields(fields: seq<Field>, vals: seq<XdrVal>, k: nat): (d: map<string, Json>)
    requires k <= |fields| == |vals| && NamesDistinct(fields)
    requires forall i :: 0 <= i < |fields| ==> HasType(fields[i].typ, vals[i])
    ensures forall i :: 0 <= i < k ==> fields[i].name in d && d[fields[i].name] == Encode(fields[i].typ, vals[i])
    decreases fields, 1
  {
    map i | 0 <= i < k :: fields[i].name := Encode(fields[i].typ, vals[i])
  }

  lemma EncodeFieldsNext(fields: seq<Field>, vals: seq<XdrVal>, k: nat)
    requires k < |fields| == |vals| && NamesDistinct(fields)
    requires forall i :: 0 <= i < |fields| ==> HasType(fields[i].typ, vals[i])
    ensures EncodeFields(fields, vals, k + 1) ==
      EncodeFields(fields, vals, k)[fields[k].name := Encode(fields[k].typ, vals[k])]
  {
  }

  // ---- decoding ----

  /** to_int on an expression; parsing a number out of a string is not modelled and counts as failure. */
  function ToInt(j: Json): Option<int> {
    match j
    case JInt(i) => Some(i)
    case JUint(u) => if u < TWO_63 then Some(u) else None
    case JBool(b) => Some(if b then 1 else 0)
    case _ => None
  }

  function ToUint(j: Json): Option<int> {
    match j
    case JInt(i) => if i >= 0 then Some(i) else None
    case JUint(u) => Some(u)
    case JBool(b) => Some(if b then 1 else 0)
    case _ => None
  }

  function ToBool(j: Json): bool {
    match j
    case JNull => false
    case JInt(i) => i != 0
    case JUint(u) => u != 0
    case JBool(b) => b
    case JStr(s) => |s| > 0
    case JList(elems) => |elems| > 0
    case JDict(d) => |d| > 0
  }

  /** to_str on an expression; printing other expressions as text is not modelled. */
  function ToStr(j: Json): Option<bytes> {
    if j.JStr? then Some(j.s) else None
  }

  /** Assigning an int64_t to an int32_t or u_int32_t. */
  function WrapInt32(i: int): int {
    var u := i % TWO_32;
    if u < TWO_31 then u else u - TWO_32
  }

  function WrapUint32(i: int): int {
    i % TWO_32
  }

  predicate NulFreeStr(s: bytes) {
    forall i :: 0 <= i < |s| ==> s[i] != 0
  }

  /** What a value of type t read from j makes of an object that holds cur; None is a failed read.
      j is None where the cursor is a NULL pointer. */
  function Decode(t: XdrType, j: Option<Json>, cur: XdrVal): (r: Option<XdrVal>)
    requires WellFormed(t) && HasType(t, cur)
    ensures r.Some? ==> HasType(t, r.value)
    decreases t, 0, 0
  {
    if j.None? then None
    else
      match t
      case TInt32 => (match ToInt(j.value) case Some(i) => Some(VInt(WrapInt32(i))) case None => None)
      case TUint32 => (match ToInt(j.value) case Some(i) => Some(VInt(WrapUint32(i))) case None => None)
      case TInt64 =>
        (match ToInt(j.value) case Some(i) => if -TWO_63 <= i < TWO_63 then Some(VInt(i)) else None case None => None)
      case TUint64 =>
        (match ToUint(j.value) case Some(i) => if 0 <= i < TWO_64 then Some(VInt(i)) else None case None => None)
      case TBool => Some(VBool(ToBool(j.value)))
      case TStr(max) =>
        (match ToStr(j.value)
         case Some(s) => if NulFreeStr(s) && |s| <= max then Some(VBytes(s)) else None
         case None => None)
      case TBytes(max) =>
        (match ToStr(j.value) case Some(s) => if |s| <= max then Some(VBytes(s)) else None case None => None)
      case TOpaque(n) =>
        (match ToStr(j.value) case Some(s) => if |s| <= n then Some(VBytes(s + cur.s[|s|..])) else None case None => None)
      case TVec(elem, max) =>
        if !j.value.JList? || |j.value.elems| > max then None
        else
          (match DecodeElems(elem, j.value.elems, Resize(elem, cur.elems, |j.value.elems|), 0)
           case Some(vs) => Some(VSeq(vs))
           case None => None)
      case TArray(elem, n) =>
        if !j.value.JList? || |j.value.elems| != n then None
        else
          (match DecodeElems(elem, j.value.elems, cur.elems, 0)
           case Some(vs) => Some(VSeq(vs))
           case None => None)
      case TPtr(elem) =>
        if !j.value.JList? || |j.value.elems| > 1 then None
        else if |j.value.elems| == 0 then Some(cur)
        else
          (match Decode(elem, Some(j.value.elems[0]), Target(elem, cur.p))
           case Some(v) => Some(VPtr(Some(v)))
           case None => None)
      case TStruct(fields) =>
        (match DecodeFields(fields, j.value, cur.vals, 0)
         case Some(vs) => Some(VStruct(vs))
         case None => None)
  }

  /** rpc_ptr's alloc: keeps what is there. */
  function Target(elem: XdrType, p: Option<XdrVal>): (r: XdrVal)
    requires WellFormed(elem) && (p.Some? ==> HasType(elem, p.value))
    ensures HasType(elem, r)
  {
    DefaultHasType(elem);
    if p.Some? then p.value else Default(elem)
  }

  /** setsize: keeps the common prefix and adds default elements. */
  function Resize(elem: XdrType, vs: seq<XdrVal>, n: nat): (r: seq<XdrVal>)
    requires WellFormed(elem) && forall i :: 0 <= i < |vs| ==> HasType(elem, vs[i])
    ensures |r| == n
    ensures forall i :: 0 <= i < n ==> HasType(elem, r[i]) && r[i] == if i < |vs| then vs[i] else Default(elem)
  {
    DefaultHasType(elem);
    seq(n, i => if 0 <= i < |vs| then vs[i] else Default(elem))
  }

  /** Reads slots k.. in place; vs holds what the slots hold now. */
  function DecodeElems(elem: XdrType, js: seq<Json>, vs: seq<XdrVal>, k: nat): (r: Option<seq<XdrVal>>)
    requires WellFormed(elem) && k <= |js| == |vs| && forall i :: 0 <= i < |vs| ==> HasType(elem, vs[i])
    ensures r.Some? ==> |r.value| == |vs| && forall i :: 0 <= i < |vs| ==> HasType(elem, r.value[i])
    decreases elem, 1, |js| - k
  {
    if k == |js| then Some(vs)
    else
      match Decode(elem, Some(js[k]), vs[k])
      case None => None
      case Some(v) => DecodeElems(elem, js, vs[k := v], k + 1)
  }

  function Slot(j: Json, name: string): Option<Json> {
    if j.JDict? && name in j.dict then Some(j.dict[name]) else None
  }

  function DecodeFields(fields: seq<Field>, j: Json, vs: seq<XdrVal>, k: nat): (r: Option<seq<XdrVal>>)
    requires forall i :: 0 <= i < |fields| ==> WellFormed(fields[i].typ)
    requires k <= |fields| == |vs| && forall i :: 0 <= i < |vs| ==> HasType(fields[i].typ, vs[i])
    ensures r.Some? ==> |r.value| == |vs| && forall i :: 0 <= i < |vs| ==> HasType(fields[i].typ, r.value[i])
    decreases fields, 1, |fields| - k
  {
    if k == |fields| then Some(vs)
    else if !j.JDict? then None
    else
      match Decode(fields[k].typ, Slot(j, fields[k].name), vs[k])
      case None => None
      case Some(v) => DecodeFields(fields, j, vs[k := v], k + 1)
  }
}
