/** A pair table after any run of inserts and removals, described by the run alone (libahttp/pair.h:289-328). */
module PairHistory {
  import opened Bytes
  import opened PairSpec

  datatype Op =
    | Ins(key: Option<bytes>, val: Option<bytes>, append: bool)
    | Rem(k: bytes)

  function Do(t: Table, op: Op): Table {
    match op
    case Ins(key, val, append) => Inserted(t, key, val, append)
    case Rem(k) => Removed(t, k)
  }

  function After(t: Table, ops: seq<Op>): Table {
    if ops == [] then t else Do(After(t, ops[..|ops| - 1]), ops[|ops| - 1])
  }

  predicate InsertsKey(op: Op, k: bytes) {
    op.Ins? && k != [] && op.key == Some(k)
  }

  predicate Restarts(op: Op, k: bytes) {
    op == Rem(k) || (InsertsKey(op, k) && op.val.Some? && !op.append)
  }

  /** From where on k has not been removed. */
  function Kept(ops: seq<Op>, k: bytes): (i: nat)
    ensures i <= |ops| && (forall j :: i <= j < |ops| ==> ops[j] != Rem(k)) && (i > 0 ==> ops[i - 1] == Rem(k))
  {
    if ops == [] then 0
    else if ops[|ops| - 1] == Rem(k) then |ops|
    else Kept(ops[..|ops| - 1], k)
  }

  /** The first insertion of k at i or later, or the end. */
  function FirstFrom(ops: seq<Op>, k: bytes, i: nat): (r: nat)
    requires i <= |ops|
    ensures i <= r <= |ops| && (forall j :: i <= j < r ==> !InsertsKey(ops[j], k)) && (r < |ops| ==> InsertsKey(ops[r], k))
    decreases |ops| - i
  {
    if i == |ops| || InsertsKey(ops[i], k) then i else FirstFrom(ops, k, i + 1)
  }

  /** When k came into the table, counted since its last removal. */
  function Born(ops: seq<Op>, k: bytes): nat {
    FirstFrom(ops, k, Kept(ops, k))
  }

  /** From where on nothing has overwritten or removed k: an overwriting insertion itself is included. */
  function Begun(ops: seq<Op>, k: bytes): (i: nat)
    ensures i <= |ops| && (forall j :: i < j < |ops| ==> !Restarts(ops[j], k))
    ensures i < |ops| && Restarts(ops[i], k) ==> InsertsKey(ops[i], k)
    ensures i > 0 ==> ops[i - 1] == Rem(k) || (i < |ops| && Restarts(ops[i], k))
  {
    if ops == [] then 0
    else
      var last := ops[|ops| - 1];
      if last == Rem(k) then |ops|
      else if Restarts(last, k) then |ops| - 1
      else Begun(ops[..|ops| - 1], k)
  }

  /** The values inserted under k, in order. */
  function Given(ops: seq<Op>, k: bytes): seq<bytes> {
    if ops == [] then []
    else
      var last := ops[|ops| - 1];
      Given(ops[..|ops| - 1], k) + if InsertsKey(last, k) && last.val.Some? then [last.val.value] else []
  }

  /** What a table ought to be after ops: it has the keys inserted since they were last removed, in the order of that
      first insertion, each with the values inserted since the last that overwrote, or the last removal. */
  ghost predicate Describes(ops: seq<Op>, t: Table) {
    && WellFormed(t)
    && (forall k :: k in t.vals <==> Born(ops, k) < |ops|)
    && (forall k :: k in t.vals ==> t.vals[k] == Given(ops[Begun(ops, k)..], k))
    && ByBirth(ops, t.order)
  }

  lemma {:induction false} FirstFromSnoc(ops: seq<Op>, op: Op, k: bytes, i: nat)
    requires i <= |ops|
    ensures FirstFrom(ops + [op], k, i) ==
      if FirstFrom(ops, k, i) < |ops| then FirstFrom(ops, k, i)
      else if InsertsKey(op, k) then |ops| else |ops| + 1
    decreases |ops| - i
  {
    if i < |ops| && !InsertsKey(ops[i], k) {
      FirstFromSnoc(ops, op, k, i + 1);
    }
  }

  lemma BornSnoc(ops: seq<Op>, op: Op, k: bytes)
    ensures Born(ops + [op], k) ==
      if op == Rem(k) then |ops| + 1
      else if Born(ops, k) < |ops| then Born(ops, k)
      else if InsertsKey(op, k) then |ops| else |ops| + 1
  {
    assert (ops + [op])[..|ops|] == ops;
    FirstFromSnoc(ops, op, k, Kept(ops, k));
  }

  lemma GivenSnoc(ops: seq<Op>, op: Op, k: bytes, i: nat)
    requires i <= |ops|
    ensures Given((ops + [op])[i..], k) ==
      Given(ops[i..], k) + if InsertsKey(op, k) && op.val.Some? then [op.val.value] else []
  {
    var s := (ops + [op])[i..];
    assert s[..|s| - 1] == ops[i..] && s[|s| - 1] == op;
  }

  lemma ValuesSnoc(ops: seq<Op>, op: Op, k: bytes)
    ensures
      var v, v' := Given(ops[Begun(ops, k)..], k), Given((ops + [op])[Begun(ops + [op], k)..], k);
      v' ==
        if op == Rem(k) then []
        else if !InsertsKey(op, k) || op.val.None? then v
        else if op.append then v + [op.val.value] else [op.val.value]
  {
    var all := ops + [op];
    assert all[..|ops|] == ops;
    if op == Rem(k) {
      assert all[|all|..] == [];
    } else if Restarts(op, k) {
      GivenSnoc(ops, op, k, |ops|);
      assert ops[|ops|..] == [];
    } else {
      GivenSnoc(ops, op, k, Begun(ops, k));
    }
  }

  /** A key that is not in the table, by the run, has no values since it was last removed. */
  lemma {:induction false} NotBornNothingGiven(ops: seq<Op>, k: bytes)
    requires Born(ops, k) == |ops|
    ensures Given(ops[Begun(ops, k)..], k) == []
    decreases |ops|
  {
    if ops != [] {
      var front, last := ops[..|ops| - 1], ops[|ops| - 1];
      assert ops == front + [last];
      BornSnoc(front, last, k);
      ValuesSnoc(front, last, k);
      if last != Rem(k) {
        NotBornNothingGiven(front, k);
      }
    } else {
      assert ops[0..] == [];
    }
  }

  lemma InsertKeepsOrder(ops: seq<Op>, t: Table, op: Op)
    requires Describes(ops, t) && op.Ins?
    ensures ByBirth(ops + [op], Do(t, op).order)
  {
    hide Born, Begun, Given;
    forall i | 0 <= i < |t.order|
      ensures Born(ops + [op], t.order[i]) == Born(ops, t.order[i]) < |ops|
    {
      assert t.order[i] in t.vals;
      BornSnoc(ops, op, t.order[i]);
    }
    if op.key.Some? {
      BornSnoc(ops, op, op.key.value);
      BornBound(ops, op.key.value);
    }
  }

  lemma InsertDescribes(ops: seq<Op>, t: Table, op: Op)
    requires Describes(ops, t) && op.Ins?
    ensures Describes(ops + [op], Do(t, op))
  {
    hide Born, Begun, Given, ByBirth;
    var t' := Do(t, op);
    InsertedWellFormed(t, op.key, op.val, op.append);
    forall k
      ensures k in t'.vals <==> Born(ops + [op], k) < |ops| + 1
      ensures k in t'.vals ==> t'.vals[k] == Given((ops + [op])[Begun(ops + [op], k)..], k)
      ensures k in t.vals ==> Born(ops + [op], k) == Born(ops, k) < |ops|
    {
      BornSnoc(ops, op, k);
      ValuesSnoc(ops, op, k);
      if k !in t.vals {
        BornBound(ops, k);
        NotBornNothingGiven(ops, k);
      }
    }
    InsertKeepsOrder(ops, t, op);
  }

  lemma BornBound(ops: seq<Op>, k: bytes)
    ensures Born(ops, k) <= |ops|
  {
  }

  /** The keys in the order they came in. */
  ghost predicate ByBirth(ops: seq<Op>, order: seq<bytes>) {
    forall i, j :: 0 <= i < j < |order| ==> Born(ops, order[i]) < Born(ops, order[j])
  }

  lemma ByBirthCut(ops: seq<Op>, ops': seq<Op>, order: seq<bytes>, cut: nat)
    requires cut < |order| && ByBirth(ops, order)
    requires forall i :: 0 <= i < |order| && i != cut ==> Born(ops', order[i]) == Born(ops, order[i])
    ensures ByBirth(ops', CutAt(order, cut))
  {
    hide Born;
    var r := CutAt(order, cut);
    forall i, j | 0 <= i < j < |r|
      ensures Born(ops', r[i]) < Born(ops', r[j])
    {
      var i0, j0 := if i < cut then i else i + 1, if j < cut then j else j + 1;
      assert Born(ops, order[i0]) < Born(ops, order[j0]);
    }
  }

  lemma RemoveKeepsOrder(ops: seq<Op>, t: Table, op: Op)
    requires Describes(ops, t) && op.Rem?
    ensures ByBirth(ops + [op], Do(t, op).order)
  {
    hide Born, Begun, Given, DropKey, CutAt, ByBirth;
    if op.k in t.vals {
      var cut :| 0 <= cut < |t.order| && t.order[cut] == op.k;
      DropKeyAt(t.order, cut);
      forall i | 0 <= i < |t.order| && i != cut
        ensures Born(ops + [op], t.order[i]) == Born(ops, t.order[i])
      {
        BornOther(ops, op, t, i);
      }
      ByBirthCut(ops, ops + [op], t.order, cut);
    } else {
      forall i | 0 <= i < |t.order|
        ensures Born(ops + [op], t.order[i]) == Born(ops, t.order[i])
      {
        BornOther(ops, op, t, i);
      }
      SameBirths(ops, ops + [op], t.order);
    }
  }

  lemma SameBirths(ops: seq<Op>, ops': seq<Op>, order: seq<bytes>)
    requires ByBirth(ops, order) && forall i :: 0 <= i < |order| ==> Born(ops', order[i]) == Born(ops, order[i])
    ensures ByBirth(ops', order)
  {
    hide Born;
  }

  lemma BornOther(ops: seq<Op>, op: Op, t: Table, i: nat)
    requires op.Rem? && i < |t.order| && t.order[i] != op.k && Born(ops, t.order[i]) < |ops|
    ensures Born(ops + [op], t.order[i]) == Born(ops, t.order[i])
  {
    BornSnoc(ops, op, t.order[i]);
  }

  lemma RemoveDescribes(ops: seq<Op>, t: Table, op: Op)
    requires Describes(ops, t) && op.Rem?
    ensures Describes(ops + [op], Do(t, op))
  {
    hide Born, Begun, Given, DropKey, ByBirth;
    var t' := Do(t, op);
    RemovedWellFormed(t, op.k);
    RemoveKeepsOrder(ops, t, op);
    forall k
      ensures k in t'.vals <==> Born(ops + [op], k) < |ops| + 1
      ensures k in t'.vals ==> t'.vals[k] == Given((ops + [op])[Begun(ops + [op], k)..], k)
    {
      BornSnoc(ops, op, k);
      ValuesSnoc(ops, op, k);
      BornBound(ops, k);
    }
  }

  /** The empty key never comes into a table. */
  lemma {:induction false} NeverEmptyKey(ops: seq<Op>)
    ensures [] !in After(EMPTY, ops).vals && [] !in After(EMPTY, ops).order
    decreases |ops|
  {
    RunIsHistory(ops);
    if ops != [] {
      NeverEmptyKey(ops[..|ops| - 1]);
    }
  }

  /** Every run of inserts and removals gives exactly the table its history describes. */
  lemma {:induction false} RunIsHistory(ops: seq<Op>)
    ensures Describes(ops, After(EMPTY, ops))
    decreases |ops|
  {
    if ops != [] {
      var front, last := ops[..|ops| - 1], ops[|ops| - 1];
      assert ops == front + [last];
      RunIsHistory(front);
      if last.Ins? {
        InsertDescribes(front, After(EMPTY, front), last);
      } else {
        RemoveDescribes(front, After(EMPTY, front), last);
      }
    }
  }
}
