/** What a pair table is, apart from its representation (libahttp/pair.h). */
module PairSpec {
  import opened Bytes

  /** The keys in the order of the linked list, and each key's values. */
  datatype Table = Table(order: seq<bytes>, vals: map<bytes, seq<bytes>>)

  const EMPTY: Table := Table([], map[])

  predicate Distinct(s: seq<bytes>) {
    forall i, j :: 0 <= i < j < |s| ==> s[i] != s[j]
  }

  /** Hash and list hold the same keys, each once. */
  predicate WellFormed(t: Table) {
    && Distinct(t.order)
    && (forall k <- t.order :: k in t.vals)
    && (forall k <- t.vals :: k in t.order)
  }

  /** insert (key, val, append): a NULL or empty key is ignored, a NULL value only creates the key. */
  function Inserted(t: Table, key: Option<bytes>, val: Option<bytes>, append: bool): Table {
    if key.None? || key.value == [] then t
    else if key.value in t.vals then
      if val.None? then t
      else t.(vals := t.vals[key.value := if append then t.vals[key.value] + [val.value] else [val.value]])
    else
      Table(t.order + [key.value], t.vals[key.value := if val.None? then [] else [val.value]])
  }

  function DropKey(order: seq<bytes>, k: bytes): seq<bytes> {
    if order == [] then []
    else if order[0] == k then order[1..]
    else [order[0]] + DropKey(order[1..], k)
  }

  function Removed(t: Table, k: bytes): Table {
    if k in t.vals then Table(DropKey(t.order, k), t.vals - {k}) else t
  }

  lemma {:induction false} DropKeyAt(order: seq<bytes>, i: nat)
    requires i < |order| && Distinct(order)
    ensures DropKey(order, order[i]) == CutAt(order, i)
    decreases |order|
  {
    if i > 0 {
      DropKeyAt(order[1..], i - 1);
      assert order[1..][..i - 1] == order[1..i] && order[1..][i..] == order[i + 1..];
      assert order[..i] == [order[0]] + order[1..i];
    } else {
      assert order[..0] + order[1..] == order[1..];
    }
  }

  lemma InsertedWellFormed(t: Table, key: Option<bytes>, val: Option<bytes>, append: bool)
    requires WellFormed(t)
    ensures WellFormed(Inserted(t, key, val, append))
  {
  }

  function CutAt(s: seq<bytes>, i: nat): (r: seq<bytes>)
    requires i < |s|
    ensures |r| == |s| - 1
    ensures forall j :: 0 <= j < |r| ==> r[j] == if j < i then s[j] else s[j + 1]
  {
    s[..i] + s[i + 1..]
  }

  lemma CutIsDistinct(s: seq<bytes>, i: nat)
    requires i < |s| && Distinct(s)
    ensures Distinct(CutAt(s, i))
    ensures forall x :: x in CutAt(s, i) <==> x in s && x != s[i]
  {
    var r := CutAt(s, i);
    forall x | x in s && x != s[i]
      ensures x in r
    {
      var j :| 0 <= j < |s| && s[j] == x;
      assert r[if j < i then j else j - 1] == x;
    }
    forall j | 0 <= j < |r|
      ensures r[j] in s && r[j] != s[i]
    {
      assert s[if j < i then j else j + 1] == r[j];
    }
  }

  lemma RemovedWellFormed(t: Table, k: bytes)
    requires WellFormed(t)
    ensures WellFormed(Removed(t, k))
  {
    hide CutAt;
    if k in t.vals {
      var i :| 0 <= i < |t.order| && t.order[i] == k;
      DropKeyAt(t.order, i);
      CutIsDistinct(t.order, i);
    }
  }
}
