/** JSON_creator_t: building the JSON tree of a value through a stack of cursors
    (libokxml/xdr_as_json.C:6-205, driven by libokxml/okxmlxlate.h:246-398). */
module XdrCreator {
  import opened Bytes
  import opened XdrModel
  import opened XdrMeaning

  /** An allocated pub3 expression. Lists and dictionaries refer to others by handle; None is a NULL slot. */
  datatype Node =
    | NLeaf(leaf: Json)
    | NList(items: seq<Option<nat>>)
    | NDict(slots: map<string, nat>)

  /** obj_ref_t: where the value at the top of the stack is to be stored. */
  datatype Ref =
    | Plain
    | DictRef(dict: nat, key: string)
    | ListRef(list: nat, index: nat)

  /** The tree hanging from h is j. None of its nodes lies below lo, and every node lies below its children. */
  predicate Shows(store: seq<Node>, lo: nat, h: nat, j: Json)
    decreases j
  {
    && lo <= h < |store|
    && match store[h]
       case NLeaf(leaf) => j == leaf
       case NList(items) =>
         && j.JList? && |items| == |j.elems|
         && forall i :: 0 <= i < |items| ==> items[i].Some? && Shows(store, h + 1, items[i].value, j.elems[i])
       case NDict(slots) =>
         && j.JDict? && slots.Keys == j.dict.Keys
         && forall k :: k in j.dict ==> Shows(store, h + 1, slots[k], j.dict[k])
  }

  /** Nodes below lo do not matter, nor do nodes allocated later. */
  lemma {:induction false} ShowsStable(s: seq<Node>, s': seq<Node>, lo: nat, lo': nat, h: nat, j: Json)
    requires Shows(s, lo, h, j) && lo' <= lo && |s| <= |s'|
    requires forall i :: lo <= i < |s| ==> s'[i] == s[i]
    ensures Shows(s', lo', h, j)
    decreases j
  {
    match s[h] {
      case NLeaf(_) =>
      case NList(items) =>
        forall i | 0 <= i < |items|
          ensures Shows(s', h + 1, items[i].value, j.elems[i])
        {
          ShowsStable(s, s', h + 1, h + 1, items[i].value, j.elems[i]);
        }
      case NDict(slots) =>
        forall k | k in j.dict
          ensures Shows(s', h + 1, slots[k], j.dict[k])
        {
          ShowsStable(s, s', h + 1, h + 1, slots[k], j.dict[k]);
        }
    }
  }

  /** The tree hanging from h; a NULL slot reads as null. */
  function Tree(store: seq<Node>, h: nat): Json
    requires h < |store|
    decreases |store| - h
  {
    match store[h]
    case NLeaf(leaf) => leaf
    case NList(items) =>
      JList(seq(|items|, i requires 0 <= i < |items| =>
        if items[i].Some? && h < items[i].value < |store| then Tree(store, items[i].value) else JNull))
    case NDict(slots) =>
      JDict(map k | k in slots :: if h < slots[k] < |store| then Tree(store, slots[k]) else JNull)
  }

  lemma {:induction false} ShowsTree(store: seq<Node>, lo: nat, h: nat, j: Json)
    requires Shows(store, lo, h, j)
    ensures Tree(store, h) == j
    decreases j
  {
    match store[h] {
      case NLeaf(_) =>
      case NList(items) =>
        forall i | 0 <= i < |items|
          ensures Tree(store, items[i].value) == j.elems[i]
        {
          ShowsTree(store, h + 1, items[i].value, j.elems[i]);
        }
        assert Tree(store, h).elems == j.elems;
      case NDict(slots) =>
        forall k | k in j.dict
          ensures Tree(store, slots[k]) == j.dict[k]
        {
          ShowsTree(store, h + 1, slots[k], j.dict[k]);
        }
        assert Tree(store, h).dict == j.dict;
    }
  }

  predicate RefOk(store: seq<Node>, r: Ref) {
    match r
    case Plain => true
    case DictRef(d, _) => d < |store| && store[d].NDict?
    case ListRef(l, _) => l < |store| && store[l].NList?
  }

  /** expr_list_t::set on an index that is not negative: the list is filled up with NULL to reach it. */
  function SetItem(items: seq<Option<nat>>, i: nat, x: nat): (r: seq<Option<nat>>)
    ensures |r| == if i < |items| then |items| else i + 1
    ensures r[i] == Some(x)
    ensures forall k :: 0 <= k < |r| && k != i ==> r[k] == if k < |items| then items[k] else None
  {
    if i < |items| then items[i := Some(x)] else items + seq(i - |items|, _ => None) + [Some(x)]
  }

  /** The store after ref->set (x). */
  function Attached(store: seq<Node>, r: Ref, x: nat): (s: seq<Node>)
    requires RefOk(store, r)
    ensures |s| == |store|
    ensures forall i :: 0 <= i < |s| ==> s[i].NList? == store[i].NList? && s[i].NDict? == store[i].NDict?
  {
    match r
    case Plain => store
    case DictRef(d, key) => store[d := NDict(store[d].slots[key := x])]
    case ListRef(l, i) => store[l := NList(SetItem(store[l].items, i, x))]
  }

  /** From s0 to s1 the tree of j was built and attached at r, and nothing else that was there changed. */
  ghost predicate Built(s0: seq<Node>, r: Ref, s1: seq<Node>, j: Json)
    requires RefOk(s0, r)
  {
    && |s0| < |s1|
    && s1[..|s0|] == Attached(s0, r, |s0|)
    && Shows(s1, |s0|, |s0|, j)
  }

  /** The same, for a list whose first k elements are there. */
  ghost predicate BuiltList(s0: seq<Node>, r: Ref, s1: seq<Node>, js: seq<Json>)
    requires RefOk(s0, r)
  {
    && |s0| < |s1|
    && s1[..|s0|] == Attached(s0, r, |s0|)
    && s1[|s0|].NList? && |s1[|s0|].items| == |js|
    && forall i :: 0 <= i < |js| ==> s1[|s0|].items[i].Some? && Shows(s1, |s0| + 1, s1[|s0|].items[i].value, js[i])
  }

  ghost predicate BuiltDict(s0: seq<Node>, r: Ref, s1: seq<Node>, d: map<string, Json>)
    requires RefOk(s0, r)
  {
    && |s0| < |s1|
    && s1[..|s0|] == Attached(s0, r, |s0|)
    && s1[|s0|].NDict? && s1[|s0|].slots.Keys == d.Keys
    && forall k :: k in d ==> Shows(s1, |s0| + 1, s1[|s0|].slots[k], d[k])
  }

  lemma ListGrows(s0: seq<Node>, r: Ref, s1: seq<Node>, js: seq<Json>, s2: seq<Node>, j: Json)
    requires RefOk(s0, r) && BuiltList(s0, r, s1, js)
    requires Built(s1, ListRef(|s0|, |js|), s2, j)
    ensures BuiltList(s0, r, s2, js + [j])
  {
    hide Shows;
    var n, x := |s0|, |s1|;
    assert forall i :: 0 <= i < |s1| ==> s2[i] == s2[..|s1|][i];
    assert s2[..n] == s1[..n];
    var items := s1[n].items;
    forall i | 0 <= i < |js| + 1
      ensures s2[n].items[i].Some? && Shows(s2, n + 1, s2[n].items[i].value, (js + [j])[i])
    {
      if i < |js| {
        ShowsStable(s1, s2, n + 1, n + 1, items[i].value, js[i]);
      } else {
        ShowsStable(s2, s2, x, n + 1, x, j);
      }
    }
  }

  lemma ListDone(s0: seq<Node>, r: Ref, s1: seq<Node>, js: seq<Json>)
    requires RefOk(s0, r) && BuiltList(s0, r, s1, js)
    ensures Built(s0, r, s1, JList(js))
  {
  }

  lemma DictGrows(s0: seq<Node>, r: Ref, s1: seq<Node>, d: map<string, Json>, name: string, s2: seq<Node>, j: Json)
    requires RefOk(s0, r) && BuiltDict(s0, r, s1, d)
    requires Built(s1, DictRef(|s0|, name), s2, j)
    ensures BuiltDict(s0, r, s2, d[name := j])
  {
    hide Shows;
    var n, x := |s0|, |s1|;
    assert forall i :: 0 <= i < |s1| ==> s2[i] == s2[..|s1|][i];
    assert s2[..n] == s1[..n];
    var d' := d[name := j];
    forall k | k in d'
      ensures Shows(s2, n + 1, s2[n].slots[k], d'[k])
    {
      if k == name {
        ShowsStable(s2, s2, x, n + 1, x, j);
      } else {
        ShowsStable(s1, s2, n + 1, n + 1, s1[n].slots[k], d[k]);
      }
    }
  }

  lemma DictDone(s0: seq<Node>, r: Ref, s1: seq<Node>, d: map<string, Json>)
    requires RefOk(s0, r) && BuiltDict(s0, r, s1, d)
    ensures Built(s0, r, s1, JDict(d))
  {
  }

  class JsonCreator {
    var store: seq<Node>
    var objStack: seq<Option<nat>>
    var refStack: seq<Ref>

    ghost predicate Valid()
      reads this
    {
      && 0 < |objStack| == |refStack|
      && forall i :: 0 <= i < |refStack| ==> RefOk(store, refStack[i])
    }

    ghost function TopRef(): Ref
      reads this
      requires Valid()
    {
      refStack[|refStack| - 1]
    }

    ghost function TopObj(): Option<nat>
      reads this
      requires Valid()
    {
      objStack[|objStack| - 1]
    }

    /** Exactly the root cursor, with nothing built. */
    constructor ()
      ensures Valid() && store == [] && objStack == [None] && refStack == [Plain]
    {
      store, objStack, refStack := [], [None], [Plain];
    }

    method PushRef(r: Ref)
      requires Valid() && RefOk(store, r)
      modifies `objStack, `refStack
      ensures Valid()
      ensures objStack == old(objStack) + [None] && refStack == old(refStack) + [r]
    {
      objStack := objStack + [None];
      refStack := refStack + [r];
    }

    method Pop(n: nat)
      requires Valid() && n < |objStack|
      modifies `objStack, `refStack
      ensures Valid()
      ensures objStack == old(objStack)[..|old(objStack)| - n] && refStack == old(refStack)[..|old(refStack)| - n]
    {
      objStack := objStack[..|objStack| - n];
      refStack := refStack[..|refStack| - n];
    }

    /** Allocates x and makes it the value at the cursor. */
    method SetTop(x: Node)
      requires Valid()
      modifies this
      ensures Valid()
      ensures refStack == old(refStack) && objStack == old(objStack)[|old(objStack)| - 1 := Some(|old(store)|)]
      ensures store == Attached(old(store), old(TopRef()), |old(store)|) + [x]
    {
      var h := |store|;
      var r := refStack[|refStack| - 1];
      objStack := objStack[|objStack| - 1 := Some(h)];
      store := Attached(store, r, h) + [x];
    }

    /** The list at the cursor, made there if the cursor has nothing yet. */
    method TopList() returns (h: nat)
      requires Valid() && (TopObj().Some? ==> TopObj().value < |store| && store[TopObj().value].NList?)
      modifies this
      ensures Valid() && refStack == old(refStack)
      ensures old(TopObj()).Some? ==> h == old(TopObj()).value && store == old(store) && objStack == old(objStack)
      ensures old(TopObj()).None? ==>
        && h == |old(store)| && objStack == old(objStack)[|old(objStack)| - 1 := Some(h)]
        && BuiltList(old(store), old(TopRef()), store, [])
    {
      var back := objStack[|objStack| - 1];
      if back.None? {
        h := |store|;
        SetTop(NList([]));
      } else {
        h := back.value;
      }
    }

    method TopDict() returns (h: nat)
      requires Valid() && (TopObj().Some? ==> TopObj().value < |store| && store[TopObj().value].NDict?)
      modifies this
      ensures Valid() && refStack == old(refStack)
      ensures old(TopObj()).Some? ==> h == old(TopObj()).value && store == old(store) && objStack == old(objStack)
      ensures old(TopObj()).None? ==>
        && h == |old(store)| && objStack == old(objStack)[|old(objStack)| - 1 := Some(h)]
        && BuiltDict(old(store), old(TopRef()), store, map[])
    {
      var back := objStack[|objStack| - 1];
      if back.None? {
        h := |store|;
        SetTop(NDict(map[]));
      } else {
        h := back.value;
      }
    }

    /** What every traversal promises: the tree of its value at the cursor, and the cursors as they were. */
    ghost predicate Wrote(s0: seq<Node>, os0: seq<Option<nat>>, rs0: seq<Ref>, j: Json)
      requires 0 < |os0| == |rs0| && RefOk(s0, rs0[|rs0| - 1])
      reads this
    {
      && Valid()
      && refStack == rs0 && objStack == os0[|os0| - 1 := Some(|s0|)]
      && Built(s0, rs0[|rs0| - 1], store, j)
    }

    method OutLeaf(j: Json)
      requires Valid()
      modifies this
      ensures Wrote(old(store), old(objStack), old(refStack), j)
    {
      SetTop(NLeaf(j));
    }

    /** rpc_traverse: int32, uint32 and int64 become integers, uint64 an unsigned one. */
    method Out(t: XdrType, v: XdrVal)
      requires Valid() && TopObj().None? && HasType(t, v)
      modifies this
      ensures Wrote(old(store), old(objStack), old(refStack), Encode(t, v))
      decreases t, 2
    {
      match t {
        case TUint64 => OutLeaf(JUint(v.i));
        case TBool => OutLeaf(JBool(v.b));
        case TStr(_) => OutLeaf(JStr(v.s));
        case TBytes(_) => OutLeaf(JStr(v.s));
        case TOpaque(_) => OutLeaf(JStr(v.s));
        case TVec(elem, _) => OutArray(elem, v.elems);
        case TArray(elem, _) => OutArray(elem, v.elems);
        case TPtr(elem) => OutPtr(elem, v.p);
        case TStruct(fields) => OutStruct(fields, v.vals);
        case _ => OutLeaf(JInt(v.i));
      }
    }

    /** push_array_slot, the traversal of the element, pop. */
    method OutSlot(elem: XdrType, e: XdrVal, i: nat, ghost s0: seq<Node>, ghost r: Ref, ghost js: seq<Json>)
      requires Valid() && HasType(elem, e) && RefOk(s0, r) && r == TopRef() && i == |js|
      requires
        || (TopObj() == Some(|s0|) && BuiltList(s0, r, store, js))
        || (TopObj() == None && js == [] && store == s0)
      modifies this
      ensures Valid() && refStack == old(refStack)
      ensures objStack == old(objStack)[|old(objStack)| - 1 := Some(|s0|)]
      ensures BuiltList(s0, r, store, js + [Encode(elem, e)])
      decreases elem, 3
    {
      hide Shows, Encode, HasType;
      var h := TopList();
      ghost var os, rs, s1 := objStack, refStack, store;
      PushRef(ListRef(h, i));
      Out(elem, e);
      ListGrows(s0, r, s1, js, store, Encode(elem, e));
      Pop(1);
      assert objStack == os && refStack == rs;
    }

    /** _rpc_traverse_array; push_array leaves an empty list where there is no element to make it. */
    method OutArray(elem: XdrType, es: seq<XdrVal>)
      requires Valid() && TopObj().None? && forall i :: 0 <= i < |es| ==> HasType(elem, es[i])
      modifies this
      ensures Wrote(old(store), old(objStack), old(refStack), JList(EncodeElems(elem, es)))
      decreases elem, 4
    {
      hide Shows, Encode, HasType;
      ghost var s0, os0, rs0, r := store, objStack, refStack, TopRef();
      if |es| == 0 {
        SetTop(NList([]));
      }
      var i := 0;
      while i < |es|
        invariant 0 <= i <= |es| && Valid() && refStack == rs0
        invariant i == 0 < |es| ==> store == s0 && objStack == os0
        invariant 0 < i || |es| == 0 ==>
          && objStack == os0[|os0| - 1 := Some(|s0|)]
          && BuiltList(s0, r, store, EncodeElems(elem, es[..i]))
      {
        ghost var js := EncodeElems(elem, es[..i]);
        OutSlot(elem, es[i], i, s0, r, js);
        assert js + [Encode(elem, es[i])] == EncodeElems(elem, es[..i + 1]);
        i := i + 1;
      }
      assert es[..i] == es;
      ListDone(s0, r, store, EncodeElems(elem, es));
    }

    /** rpc_ptr: a list of no element or one. */
    method OutPtr(elem: XdrType, p: Option<XdrVal>)
      requires Valid() && TopObj().None? && (p.Some? ==> HasType(elem, p.value))
      modifies this
      ensures Wrote(old(store), old(objStack), old(refStack), JList(if p.None? then [] else [Encode(elem, p.value)]))
      decreases elem, 4
    {
      hide Shows, Encode, HasType;
      ghost var s0, r := store, TopRef();
      SetTop(NList([]));
      if p.Some? {
        OutSlot(elem, p.value, 0, s0, r, []);
        assert [] + [Encode(elem, p.value)] == [Encode(elem, p.value)];
      }
      ListDone(s0, r, store, if p.None? then [] else [Encode(elem, p.value)]);
    }

    /** enter_field, the traversal of the field, exit_field. */
    method OutField(f: Field, v: XdrVal, ghost s0: seq<Node>, ghost r: Ref, ghost d: map<string, Json>)
      requires Valid() && HasType(f.typ, v) && RefOk(s0, r) && r == TopRef()
      requires
        || (TopObj() == Some(|s0|) && BuiltDict(s0, r, store, d))
        || (TopObj() == None && d == map[] && store == s0)
      modifies this
      ensures Valid() && refStack == old(refStack)
      ensures objStack == old(objStack)[|old(objStack)| - 1 := Some(|s0|)]
      ensures BuiltDict(s0, r, store, d[f.name := Encode(f.typ, v)])
      decreases f, 3
    {
      hide Shows, Encode, HasType;
      var h := TopDict();
      ghost var os, rs, s1 := objStack, refStack, store;
      PushRef(DictRef(h, f.name));
      Out(f.typ, v);
      DictGrows(s0, r, s1, d, f.name, store, Encode(f.typ, v));
      Pop(1);
      assert objStack == os && refStack == rs;
    }

    /** The field by field traversal of a struct. */
    method OutStruct(fields: seq<Field>, vals: seq<XdrVal>)
      requires Valid() && TopObj().None? && 0 < |fields| == |vals| && NamesDistinct(fields)
      requires forall i :: 0 <= i < |fields| ==> HasType(fields[i].typ, vals[i])
      modifies this
      ensures Wrote(old(store), old(objStack), old(refStack), JDict(EncodeFields(fields, vals, |fields|)))
      decreases fields, 4
    {
      hide Shows, Encode, HasType, EncodeFields;
      ghost var s0, os0, rs0, r := store, objStack, refStack, TopRef();
      assert EncodeFields(fields, vals, 0) == map[] by { EncodeNoFields(fields, vals); }
      var i := 0;
      while i < |fields|
        invariant 0 <= i <= |fields| && Valid() && refStack == rs0
        invariant i == 0 ==> store == s0 && objStack == os0
        invariant 0 < i ==>
          && objStack == os0[|os0| - 1 := Some(|s0|)]
          && BuiltDict(s0, r, store, EncodeFields(fields, vals, i))
      {
        OutField(fields[i], vals[i], s0, r, EncodeFields(fields, vals, i));
        EncodeFieldsNext(fields, vals, i);
        i := i + 1;
      }
      DictDone(s0, r, store, EncodeFields(fields, vals, |fields|));
    }

    /** xdr2json on a new creator: the cursors are back at the root, and the result is the tree of v. */
    method Run(t: XdrType, v: XdrVal) returns (root: nat)
      requires Valid() && store == [] && objStack == [None] && refStack == [Plain] && HasType(t, v)
      modifies this
      ensures objStack == [Some(root)] && refStack == [Plain]
      ensures root < |store| && Tree(store, root) == Encode(t, v)
      ensures StandsFor(t, v, Tree(store, root))
    {
      hide StandsFor;
      EncodeStandsFor(t, v);
      Out(t, v);
      root := objStack[0].value;
      ShowsTree(store, 0, root, Encode(t, v));
    }
  }

  lemma EncodeNoFields(fields: seq<Field>, vals: seq<XdrVal>)
    requires |fields| == |vals| && NamesDistinct(fields)
    requires forall i :: 0 <= i < |fields| ==> HasType(fields[i].typ, vals[i])
    ensures EncodeFields(fields, vals, 0) == map[]
  {
  }
}
