/** The hash of pairs threaded by a doubly linked list (libpub/clist.h, libahttp/pair.h). */
module PairTable {
  import opened Bytes
  import opened PairSpec
  import opened PairHistory

  /** pair_t with its list links. */
  class Pair {
    const key: bytes
    var vals: seq<bytes>
    var next: Pair?
    var prev: Pair?

    constructor (k: bytes, v: Option<bytes>)
      ensures key == k && vals == if v.Some? then [v.value] else []
    {
      key, vals := k, if v.Some? then [v.value] else [];
      next, prev := null, null;
    }
  }

  ghost predicate NoRepeats(ps: seq<Pair>) {
    forall i, j :: 0 <= i < j < |ps| ==> ps[i] != ps[j]
  }

  /** ps is a chain: every link is there in both directions and the ends are closed. */
  ghost predicate Chained(ps: seq<Pair>)
    reads ps
  {
    && (forall i {:trigger ps[i].next} :: 0 <= i < |ps| ==> ps[i].next == if i + 1 < |ps| then ps[i + 1] else null)
    && (forall i {:trigger ps[i].prev} :: 0 <= i < |ps| ==> ps[i].prev == if i > 0 then ps[i - 1] else null)
  }

  function Without(ps: seq<Pair>, k: nat): (r: seq<Pair>)
    requires k < |ps|
    ensures |r| == |ps| - 1
    ensures forall i :: 0 <= i < |r| ==> r[i] == if i < k then ps[i] else ps[i + 1]
  {
    ps[..k] + ps[k + 1..]
  }

  lemma NoRepeatsWithout(ps: seq<Pair>, k: nat)
    requires k < |ps| && NoRepeats(ps)
    ensures NoRepeats(Without(ps, k)) && ps[k] !in Without(ps, k)
  {
  }

  lemma NoRepeatsConcat(a: seq<Pair>, b: seq<Pair>)
    requires NoRepeats(a) && NoRepeats(b) && forall p <- a :: p !in b
    ensures NoRepeats(a + b)
  {
    forall i, j | 0 <= i < j < |a + b|
      ensures (a + b)[i] != (a + b)[j]
    {
      if i < |a| <= j {
        assert a[i] in a && b[j - |a|] in b;
      }
    }
  }

  class CList {
    var first: Pair?
    var last: Pair?
    var nelem: nat
    ghost var nodes: seq<Pair>

    /** The list header describes the chain ps. */
    ghost predicate Describes(ps: seq<Pair>)
      reads this, ps
    {
      && NoRepeats(ps) && Chained(ps)
      && nelem == |ps|
      && first == (if |ps| == 0 then null else ps[0])
      && last == (if |ps| == 0 then null else ps[|ps| - 1])
    }

    ghost predicate Valid()
      reads this, nodes
    {
      Describes(nodes)
    }

    constructor ()
      ensures Valid() && nodes == []
    {
      first, last, nelem, nodes := null, null, 0, [];
    }

    method InsertHead(elm: Pair)
      requires Valid() && elm !in nodes
      modifies this, elm`next, elm`prev, nodes`next, nodes`prev
      ensures Valid() && nodes == [elm] + old(nodes)
    {
      elm.next := first;
      if first != null {
        first.prev := elm;
      } else {
        last := elm;
      }
      first := elm;
      elm.prev := null;
      nelem := nelem + 1;
      nodes := [elm] + nodes;
    }

    method InsertTail(elm: Pair)
      requires Valid() && elm !in nodes
      modifies this, elm`next, elm`prev, nodes`next, nodes`prev
      ensures Valid() && nodes == old(nodes) + [elm]
    {
      elm.next := null;
      elm.prev := last;
      if last != null {
        last.next := elm;
      } else {
        first := elm;
      }
      last := elm;
      nelem := nelem + 1;
      nodes := nodes + [elm];
    }

    method Remove(elm: Pair, ghost k: nat)
      requires Valid() && k < |nodes| && nodes[k] == elm
      modifies this, nodes`next, nodes`prev
      ensures Valid() && nodes == Without(old(nodes), k)
    {
      NoRepeatsWithout(nodes, k);
      assert elm.next == if k + 1 < |nodes| then nodes[k + 1] else null;
      assert elm.prev == if k > 0 then nodes[k - 1] else null;
      if elm.next != null {
        elm.next.prev := elm.prev;
      } else {
        last := elm.prev;
      }
      if elm.prev != null {
        elm.prev.next := elm.next;
      } else {
        first := elm.next;
      }
      nelem := nelem - 1;
      nodes := Without(nodes, k);
    }

    method PopFront() returns (r: Pair?)
      requires Valid()
      modifies this, nodes`next, nodes`prev
      ensures Valid()
      ensures if old(nodes) == [] then r == null && nodes == [] else r == old(nodes)[0] && nodes == old(nodes)[1..]
    {
      if first == null {
        return null;
      }
      r := first;
      Remove(first, 0);
    }

    method PopTail() returns (r: Pair?)
      requires Valid()
      modifies this, nodes`next, nodes`prev
      ensures Valid()
      ensures if old(nodes) == [] then r == null && nodes == []
        else r == old(nodes)[|old(nodes)| - 1] && nodes == old(nodes)[..|old(nodes)| - 1]
    {
      if last == null {
        return null;
      }
      r := last;
      Remove(last, |nodes| - 1);
    }

    method Replace(what: Pair, with: Pair, ghost k: nat)
      requires Valid() && k < |nodes| && nodes[k] == what && with !in nodes
      modifies this, nodes`next, nodes`prev, with`next, with`prev
      ensures Valid() && nodes == old(nodes)[k := with]
    {
      with.prev := what.prev;
      with.next := what.next;
      if with.prev != null {
        with.prev.next := with;
      } else {
        first := with;
      }
      if with.next != null {
        with.next.prev := with;
      } else {
        last := with;
      }
      nodes := nodes[k := with];
    }

    /** Appends the nodes of l. The header l stays usable exactly when one of the two lists was empty:
        otherwise it starts at the combined list's head but keeps its old count. */
    method AppendList(l: CList)
      requires Valid() && l.Valid() && l != this
      requires forall p <- nodes :: p !in l.nodes
      modifies this, l`first, nodes`next, l.nodes`prev
      ensures Valid() && nodes == old(nodes) + old(l.nodes)
      ensures l.Describes(if old(l.nodes) == [] then [] else nodes) <==> old(nodes) == [] || old(l.nodes) == []
    {
      hide Chained, NoRepeats;
      nelem := nelem + l.nelem;
      if l.first == null {
        return;
      }
      if first == null {
        first, last, nelem := l.first, l.last, l.nelem;
        nodes := l.nodes;
        return;
      }
      LinkTo(l);
      last := l.last;
      l.first := first;
      nodes := nodes + l.nodes;
    }

    /** Sets the two links between the end of this chain and the start of l's. */
    method LinkTo(l: CList)
      requires last != null && l.first != null && l != this
      requires nodes != [] && last == nodes[|nodes| - 1] && NoRepeats(nodes) && Chained(nodes)
      requires l.nodes != [] && l.first == l.nodes[0] && NoRepeats(l.nodes) && Chained(l.nodes)
      requires forall p <- nodes :: p !in l.nodes
      modifies last`next, l.first`prev
      ensures NoRepeats(nodes + l.nodes) && Chained(nodes + l.nodes)
    {
      ghost var a, b := nodes, l.nodes;
      ghost var ab := a + b;
      NoRepeatsConcat(a, b);
      assert ab[|a| - 1] == last && ab[|a|] == l.first;
      last.next := l.first;
      l.first.prev := last;
      forall i | 0 <= i < |ab|
        ensures ab[i].next == if i + 1 < |ab| then ab[i + 1] else null
        ensures ab[i].prev == if i > 0 then ab[i - 1] else null
      {
        if i < |a| {
          assert ab[i] == a[i];
        } else {
          assert ab[i] == b[i - |a|];
        }
      }
    }
  }

  function Keys(ps: seq<Pair>): (r: seq<bytes>)
    ensures |r| == |ps|
    ensures forall i :: 0 <= i < |r| ==> r[i] == ps[i].key
  {
    seq(|ps|, i requires 0 <= i < |ps| => ps[i].key)
  }

  /** The hash files exactly the nodes ps, each under its key. */
  ghost predicate Filed(tab: map<bytes, Pair>, ps: seq<Pair>) {
    && (forall i :: 0 <= i < |ps| ==> ps[i].key in tab && tab[ps[i].key] == ps[i])
    && (forall k <- tab :: tab[k] in ps && tab[k].key == k)
  }

  lemma FiledInsert(tab: map<bytes, Pair>, ps: seq<Pair>, p: Pair)
    requires Filed(tab, ps) && p.key !in tab
    ensures p !in ps && Filed(tab[p.key := p], ps + [p]) && Keys(ps + [p]) == Keys(ps) + [p.key]
  {
    var t, q := tab[p.key := p], ps + [p];
    assert q[|ps|] == p;
    forall k <- t
      ensures t[k] in q && t[k].key == k
    {
    }
  }

  lemma FiledDistinct(tab: map<bytes, Pair>, ps: seq<Pair>)
    requires Filed(tab, ps) && NoRepeats(ps)
    ensures Distinct(Keys(ps)) && forall k :: k in Keys(ps) <==> k in tab
  {
    var o := Keys(ps);
    forall i, j | 0 <= i < j < |o|
      ensures o[i] != o[j]
    {
      assert ps[i] != ps[j];
    }
    forall k <- tab
      ensures k in o
    {
      var i :| 0 <= i < |ps| && ps[i] == tab[k];
      assert o[i] == k;
    }
  }

  lemma FiledRemove(tab: map<bytes, Pair>, ps: seq<Pair>, i: nat)
    requires Filed(tab, ps) && NoRepeats(ps) && i < |ps|
    ensures Filed(tab - {ps[i].key}, Without(ps, i)) && Keys(Without(ps, i)) == CutAt(Keys(ps), i)
  {
    hide Keys;
    var t, q := tab - {ps[i].key}, Without(ps, i);
    assert Keys(q) == CutAt(Keys(ps), i);
    forall j | 0 <= j < |q|
      ensures q[j].key in t && t[q[j].key] == q[j]
    {
      var p := ps[if j < i then j else j + 1];
      assert p == q[j] && p != ps[i];
    }
    hide Without;
    forall k <- t
      ensures t[k] in q && t[k].key == k
    {
      var j :| 0 <= j < |ps| && ps[j] == tab[k];
      assert q[if j < i then j else j - 1] == tab[k];
    }
  }

  class PairTab {
    var tab: map<bytes, Pair>
    const lst: CList

    ghost predicate Valid()
      reads this, lst, lst.nodes
    {
      lst.Valid() && Filed(tab, lst.nodes)
    }

    ghost function Vals(): map<bytes, seq<bytes>>
      reads this, tab.Values`vals
    {
      map k | k in tab :: tab[k].vals
    }

    ghost function View(): Table
      reads this, lst, tab.Values`vals
    {
      Table(Keys(lst.nodes), Vals())
    }

    lemma ViewWellFormed()
      requires Valid()
      ensures WellFormed(View())
    {
      hide Filed;
      FiledDistinct(tab, lst.nodes);
    }

    constructor ()
      ensures Valid() && View() == EMPTY && fresh(lst)
    {
      tab := map[];
      lst := new CList();
    }

    /** insert (pair_t *): for a pair whose key is not there yet. */
    method InsertNode(p: Pair)
      requires Valid() && p.key !in tab
      modifies this, lst, p`next, p`prev, lst.nodes`next, lst.nodes`prev
      ensures Valid() && lst.nodes == old(lst.nodes) + [p]
      ensures View() == Table(old(View()).order + [p.key], old(View()).vals[p.key := old(p.vals)])
    {
      FiledInsert(tab, lst.nodes, p);
      assert forall k <- tab :: tab[k] in lst.nodes;
      hide Filed, CList.Describes, Keys;
      ghost var vals := Vals();
      lst.InsertTail(p);
      assert Vals() == vals;
      tab := tab[p.key := p];
      assert Vals() == vals[p.key := p.vals];
    }

    method Insert(key: Option<bytes>, val: Option<bytes>, append: bool)
      requires Valid()
      modifies this, lst, lst.nodes
      ensures Valid() && WellFormed(View())
      ensures forall j :: 0 <= j < |lst.nodes| ==> lst.nodes[j] in old(lst.nodes) || fresh(lst.nodes[j])
      ensures View() == Inserted(old(View()), key, val, append)
    {
      assert forall x <- tab :: tab[x] in lst.nodes;
      hide Valid, Keys, WellFormed;
      ViewWellFormed();
      InsertedWellFormed(View(), key, val, append);
      if key.None? || |key.value| == 0 {
        return;
      }
      var k := key.value;
      if k in tab {
        if val.Some? {
          UpdateNode(k, tab[k], if append then tab[k].vals + [val.value] else [val.value]);
        }
      } else {
        InsertKey(k, val);
      }
    }

    /** alloc_pair, and insert for the pair. */
    method InsertKey(k: bytes, val: Option<bytes>)
      requires Valid() && k !in tab
      modifies this, lst, lst.nodes`next, lst.nodes`prev
      ensures Valid()
      ensures forall j :: 0 <= j < |lst.nodes| ==> lst.nodes[j] in old(lst.nodes) || fresh(lst.nodes[j])
      ensures View() == Table(old(View()).order + [k], old(View()).vals[k := if val.Some? then [val.value] else []])
    {
      assert forall x <- tab :: tab[x] in lst.nodes;
      hide Valid, Keys, Filed;
      var p := new Pair(k, val);
      InsertNode(p);
    }

    method UpdateNode(k: bytes, p: Pair, vs: seq<bytes>)
      requires Valid() && k in tab && tab[k] == p
      modifies p`vals
      ensures Valid()
      ensures View() == old(View()).(vals := old(View()).vals[k := vs])
    {
      ghost var vals := Vals();
      p.vals := vs;
      assert Vals() == vals[k := vs];
    }

    method Remove(k: bytes) returns (found: bool)
      requires Valid()
      modifies this, lst, lst.nodes
      ensures Valid() && WellFormed(View())
      ensures forall j :: 0 <= j < |lst.nodes| ==> lst.nodes[j] in old(lst.nodes)
      ensures found == (k in old(tab))
      ensures View() == Removed(old(View()), k)
    {
      ViewWellFormed();
      RemovedWellFormed(View(), k);
      found := k in tab;
      if found {
        ghost var i := RemovalOf(k);
        hide *;
        RemoveNode(k, tab[k], i);
      }
      RemovedIs(old(View()), k);
    }

    lemma RemovedIs(t: Table, k: bytes)
      ensures Removed(t, k) == if k in t.vals then Table(DropKey(t.order, k), t.vals - {k}) else t
    {
    }

    method RemoveNode(k: bytes, p: Pair, ghost i: nat)
      requires Valid() && k in tab && tab[k] == p && i < |lst.nodes| && lst.nodes[i] == p
      requires Filed(tab - {k}, Without(lst.nodes, i))
      modifies this, lst, lst.nodes`next, lst.nodes`prev
      ensures Valid() && tab == old(tab) - {k}
      ensures View() == Table(Keys(Without(old(lst.nodes), i)), old(Vals()) - {k})
    {
      hide Filed, CList.Describes, Keys, Without;
      Unfile(k);
      lst.Remove(p, i);
    }

    /** tab.remove. */
    method Unfile(k: bytes)
      modifies this`tab
      ensures tab == old(tab) - {k} && Vals() == old(Vals()) - {k}
    {
      tab := tab - {k};
    }

    lemma RemovalOf(k: bytes) returns (i: nat)
      requires Valid() && k in tab
      ensures i < |lst.nodes| && lst.nodes[i] == tab[k]
      ensures Filed(tab - {k}, Without(lst.nodes, i))
      ensures Keys(Without(lst.nodes, i)) == DropKey(Keys(lst.nodes), k)
      ensures forall x <- tab :: tab[x] in lst.nodes
    {
      i :| 0 <= i < |lst.nodes| && lst.nodes[i] == tab[k];
      assert Keys(lst.nodes)[i] == k;
      FiledDistinct(tab, lst.nodes);
      hide Keys, Without;
      FiledRemove(tab, lst.nodes, i);
      DropKeyAt(Keys(lst.nodes), i);
    }

    /** The first value of a key. */
    method Lookup(k: bytes) returns (r: Option<bytes>)
      requires Valid()
      ensures r == if k in View().vals && View().vals[k] != [] then Some(View().vals[k][0]) else None
    {
      if k in tab && |tab[k].vals| >= 1 {
        return Some(tab[k].vals[0]);
      }
      return None;
    }

    /** Any run of inserts and removals. */
    method Perform(ops: seq<Op>)
      requires Valid()
      modifies this, lst, lst.nodes
      ensures Valid() && View() == After(old(View()), ops)
      ensures old(View()) == EMPTY ==> PairHistory.Describes(ops, View())
    {
      hide Valid, PairHistory.Describes;
      RunIsHistory(ops);
      for i := 0 to |ops|
        invariant Valid() && View() == After(old(View()), ops[..i])
        invariant forall j :: 0 <= j < |lst.nodes| ==> lst.nodes[j] in old(lst.nodes) || fresh(lst.nodes[j])
      {
        assert ops[..i + 1][..i] == ops[..i];
        match ops[i] {
          case Ins(key, val, append) => Insert(key, val, append);
          case Rem(k) => var _ := Remove(k);
        }
      }
      assert ops[..|ops|] == ops;
    }
  }
}
