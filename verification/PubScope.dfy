/** Name resolution in the pub language on a snapshot of the layers: which binding a name means, and what scope
    a closure gives its body (libpub/pub3env.C, without the mutable tables). */
module PubScope {
  import opened Bytes
  import opened XdrModel

  datatype Kind =
    | Library | Universals | Globals
    | Locals
    | Barrier       // LAYER_LOCALS_BARRIER: a file inclusion or a call
    | WeakBarrier   // LAYER_LOCALS_BARRIER_WEAK
    | Unirefs       // names declared universal here
    | NoLayer       // LAYER_NONE, which only growing the stack makes

  /** A table of bindings; a NULL expression is None. */
  type Bindings = map<string, Option<Json>>

  /** A layer of the stack with what its table, if it has one, holds at the moment. */
  datatype Scope = Scope(kind: Kind, table: Option<Bindings>)

  const BARRIER := Scope(Barrier, None)

  predicate Binds(s: Scope, n: string) {
    s.table.Some? && n in s.table.value
  }

  function OrNull(x: Option<Json>): Json {
    if x.Some? then x.value else JNull
  }

  /** The value a layer that binds n gives it; NULL reads as null. */
  function ValueIn(s: Scope, universals: Bindings, n: string): Json
    requires Binds(s, n)
  {
    OrNull(if s.kind.Unirefs? then (if n in universals then universals[n] else None) else s.table.value[n])
  }

  /** The layers up to index gf (libraries, universals, globals) are no barriers, and only they are of these kinds. */
  predicate BasedAt(s: seq<Scope>, gf: nat) {
    && gf < |s|
    && (forall i :: 0 <= i <= gf ==> Base(s[i].kind))
    && forall i :: gf < i < |s| ==> !Base(s[i].kind)
  }

  predicate Base(k: Kind) {
    k.Library? || k.Universals? || k.Globals?
  }

  /** Where the search goes from layer i. */
  function Next(s: seq<Scope>, gf: nat, i: nat): (r: int)
    requires BasedAt(s, gf) && i < |s|
    ensures -1 <= r < i
  {
    if s[i].kind.Barrier? then gf else i - 1
  }

  /** The layer that binds n for a search that starts at i, or -1. */
  function Resolve(s: seq<Scope>, gf: nat, i: int, n: string): (r: int)
    requires BasedAt(s, gf) && -1 <= i < |s|
    ensures -1 <= r <= i
    ensures 0 <= r ==> Binds(s[r], n)
    decreases i + 1
  {
    if i < 0 then -1 else if Binds(s[i], n) then i else Resolve(s, gf, Next(s, gf, i), n)
  }

  /** A search from i comes past layer k, or would if nothing above answered. */
  predicate Visits(s: seq<Scope>, gf: nat, i: int, k: nat)
    requires BasedAt(s, gf) && -1 <= i < |s|
    decreases i + 1
  {
    0 <= i && (i == k || Visits(s, gf, Next(s, gf, i), k))
  }

  /** The search answers with the first layer on its way that binds n. */
  lemma {:induction false} ResolveFirst(s: seq<Scope>, gf: nat, i: int, n: string, k: nat)
    requires BasedAt(s, gf) && -1 <= i < |s|
    ensures Resolve(s, gf, i, n) == k <==>
      k < |s| && Visits(s, gf, i, k) && Binds(s[k], n) && forall j :: k < j < |s| && Visits(s, gf, i, j) ==> !Binds(s[j], n)
    ensures Resolve(s, gf, i, n) < 0 <==> forall j :: 0 <= j < |s| && Visits(s, gf, i, j) ==> !Binds(s[j], n)
    decreases i + 1
  {
    if 0 <= i {
      var next := Next(s, gf, i);
      ResolveFirst(s, gf, next, n, k);
      VisitsBelow(s, gf, next);
    }
  }

  lemma {:induction false} VisitsBelow(s: seq<Scope>, gf: nat, i: int)
    requires BasedAt(s, gf) && -1 <= i < |s|
    ensures forall k: nat :: Visits(s, gf, i, k) ==> k <= i
    decreases i + 1
  {
    if 0 <= i {
      VisitsBelow(s, gf, Next(s, gf, i));
    }
  }

  function LookupFrom(s: seq<Scope>, universals: Bindings, gf: nat, i: int, n: string): Option<Json>
    requires BasedAt(s, gf) && -1 <= i < |s|
  {
    var k := Resolve(s, gf, i, n);
    if k < 0 then None else Some(ValueIn(s[k], universals, n))
  }

  function Lookup(s: seq<Scope>, universals: Bindings, gf: nat, n: string): Option<Json>
    requires BasedAt(s, gf)
  {
    LookupFrom(s, universals, gf, |s| - 1, n)
  }

  /** A search from the top comes past layer k: the base layers always, the others above the topmost barrier and at
      it. */
  predicate Passes(s: seq<Scope>, gf: nat, k: nat) {
    k < |s| && (k <= gf || forall j :: k < j < |s| ==> !s[j].kind.Barrier?)
  }

  lemma {:induction false} VisitsBase(s: seq<Scope>, gf: nat, i: int, k: nat)
    requires BasedAt(s, gf) && -1 <= i <= gf
    ensures Visits(s, gf, i, k) <==> k <= i
    decreases i + 1
  {
    if 0 <= i {
      VisitsBase(s, gf, i - 1, k);
    }
  }

  lemma {:induction false} VisitsByPosition(s: seq<Scope>, gf: nat, i: int, k: nat)
    requires BasedAt(s, gf) && gf <= i < |s|
    ensures Visits(s, gf, i, k) <==> k <= gf || (k <= i && forall j :: k < j <= i ==> !s[j].kind.Barrier?)
    decreases i
  {
    if i == gf {
      VisitsBase(s, gf, i, k);
    } else if s[i].kind.Barrier? {
      VisitsBase(s, gf, gf, k);
    } else {
      VisitsByPosition(s, gf, i - 1, k);
    }
  }

  /** Which value a name has: that of the topmost layer that the search passes and that binds it, be it a local one,
      the globals, the universals or a library. A layer that only declares the name universal gives it the value
      in the universals. NULL and a missing universal read as null. */
  lemma MeaningByPosition(s: seq<Scope>, universals: Bindings, gf: nat, n: string, k: nat)
    requires BasedAt(s, gf) && Passes(s, gf, k) && Binds(s[k], n)
    requires forall j :: k < j < |s| && Passes(s, gf, j) ==> !Binds(s[j], n)
    ensures Resolve(s, gf, |s| - 1, n) == k
    ensures Lookup(s, universals, gf, n) == Some(
      if s[k].kind == Unirefs then
        (if n in universals && universals[n].Some? then universals[n].value else JNull)
      else
        (if s[k].table.value[n].Some? then s[k].table.value[n].value else JNull))
  {
    WayByPosition(s, gf);
    ResolveFirst(s, gf, |s| - 1, n, k);
  }

  lemma WayByPosition(s: seq<Scope>, gf: nat)
    requires BasedAt(s, gf)
    ensures forall k: nat :: Visits(s, gf, |s| - 1, k) <==> Passes(s, gf, k)
  {
    forall k: nat
      ensures Visits(s, gf, |s| - 1, k) <==> Passes(s, gf, k)
    {
      VisitsByPosition(s, gf, |s| - 1, k);
    }
  }

  /** A name has no value exactly when no layer that the search passes binds it. */
  lemma MeaninglessByPosition(s: seq<Scope>, universals: Bindings, gf: nat, n: string)
    requires BasedAt(s, gf)
    ensures Lookup(s, universals, gf, n) == None <==> forall k :: 0 <= k < |s| && Passes(s, gf, k) ==> !Binds(s[k], n)
    ensures Resolve(s, gf, |s| - 1, n) < 0 <==> forall k :: 0 <= k < |s| && Passes(s, gf, k) ==> !Binds(s[k], n)
  {
    WayByPosition(s, gf);
    ResolveFirst(s, gf, |s| - 1, n, 0);
  }

  predicate SameBinding(a: Bindings, b: Bindings, n: string) {
    (n in a <==> n in b) && (n in a ==> a[n] == b[n])
  }

  /** The two stacks have the same layers as far as n is concerned. */
  predicate AgreeOn(s: seq<Scope>, s': seq<Scope>, n: string) {
    && |s'| == |s|
    && forall i :: 0 <= i < |s| ==>
      && s'[i].kind == s[i].kind
      && (s'[i] == s[i] || (s'[i].table.Some? && s[i].table.Some? && SameBinding(s'[i].table.value, s[i].table.value, n)))
  }

  lemma {:induction false} AgreeLookup(s: seq<Scope>, s': seq<Scope>, u: Bindings, u': Bindings, gf: nat, i: int, n: string)
    requires BasedAt(s, gf) && BasedAt(s', gf) && -1 <= i < |s|
    requires AgreeOn(s, s', n) && SameBinding(u, u', n)
    ensures LookupFrom(s', u', gf, i, n) == LookupFrom(s, u, gf, i, n)
    decreases i + 1
  {
    if 0 <= i && !Binds(s[i], n) {
      AgreeLookup(s, s', u, u', gf, Next(s, gf, i), n);
    }
  }

  // ---- closures ----

  /** descend_to_barrier: the layer where a closure captured now begins, which is the innermost barrier of either
      strength, or else the first layer above the global frame or above a LAYER_NONE. */
  predicate CapturesFrom(s: seq<Scope>, gf: nat, b: nat) {
    && BasedAt(s, gf) && gf < b <= |s|
    && (forall i :: b < i < |s| ==> s[i].kind.Locals? || s[i].kind.Unirefs?)
    && (b < |s| ==> s[b].kind.Locals? || s[b].kind.Unirefs? || s[b].kind.Barrier? || s[b].kind.WeakBarrier?)
    && (b == |s| || !(s[b].kind.Barrier? || s[b].kind.WeakBarrier?) ==> b == gf + 1 || s[b - 1].kind.NoLayer?)
  }

  /** The layers push_lambda puts on the stack. */
  function LambdaLayers(closure: seq<Scope>, args: Option<Bindings>): seq<Scope> {
    (if |closure| == 0 || !closure[0].kind.Barrier? then [BARRIER] else [])
    + closure
    + (if args.Some? then [Scope(Locals, args)] else [])
  }

  /** The topmost layer of a stretch that binds n answers. */
  function SegmentLookup(seg: seq<Scope>, universals: Bindings, n: string): Option<Json> {
    if |seg| == 0 then None
    else
      var top := seg[|seg| - 1];
      if Binds(top, n) then Some(ValueIn(top, universals, n)) else SegmentLookup(seg[..|seg| - 1], universals, n)
  }

  /** Which layer of a stretch answers for n, or -1. */
  function SegmentIndex(seg: seq<Scope>, n: string): (k: int)
    ensures -1 <= k < |seg| && (0 <= k ==> Binds(seg[k], n))
  {
    if |seg| == 0 then -1
    else if Binds(seg[|seg| - 1], n) then |seg| - 1
    else SegmentIndex(seg[..|seg| - 1], n)
  }

  /** The same layers at two times: if n is bound by the same of them, the same layer answers, with what it holds
      at the later time. */
  lemma {:induction false} KeepsLayer(before: seq<Scope>, now: seq<Scope>, universals: Bindings, n: string)
    requires |before| == |now| && forall i :: 0 <= i < |now| ==> (Binds(before[i], n) <==> Binds(now[i], n))
    ensures SegmentIndex(now, n) == SegmentIndex(before, n)
    ensures SegmentLookup(now, universals, n) ==
      var k := SegmentIndex(before, n); if k < 0 then None else Some(ValueIn(now[k], universals, n))
  {
    var last := |now| - 1;
    if |now| > 0 && !Binds(now[last], n) {
      KeepsLayer(before[..last], now[..last], universals, n);
    }
  }

  /** A search that enters, from above, a stretch of layers of which only the lowest can be a barrier: the stretch
      answers, wherever it lies on a stack, or the search leaves it, to the global frame if there was a barrier. */
  lemma {:induction false} SearchSegment(s: seq<Scope>, universals: Bindings, gf: nat, seg: seq<Scope>, b: nat, n: string)
    requires BasedAt(s, gf) && gf < b && b + |seg| <= |s| && s[b..b + |seg|] == seg
    requires forall k :: 0 < k < |seg| ==> !seg[k].kind.Barrier?
    ensures LookupFrom(s, universals, gf, b + |seg| - 1, n) ==
      if SegmentLookup(seg, universals, n).Some? then SegmentLookup(seg, universals, n)
      else LookupFrom(s, universals, gf, if 0 < |seg| && seg[0].kind.Barrier? then gf else b - 1, n)
  {
    if |seg| > 0 {
      var i := b + |seg| - 1;
      assert s[i] == s[b..b + |seg|][|seg| - 1] == seg[|seg| - 1];
      if !Binds(s[i], n) {
        var rest := seg[..|seg| - 1];
        assert s[b..b + |rest|] == rest;
        SearchSegment(s, universals, gf, rest, b, n);
      }
    }
  }

  lemma {:induction false} BaseAlone(s: seq<Scope>, s': seq<Scope>, universals: Bindings, gf: nat, i: int, n: string)
    requires BasedAt(s, gf) && BasedAt(s', gf) && s[..gf + 1] == s'[..gf + 1]
    requires -1 <= i <= gf
    ensures LookupFrom(s, universals, gf, i, n) == LookupFrom(s', universals, gf, i, n)
  {
    if 0 <= i {
      assert s[i] == s[..gf + 1][i] == s'[i];
      BaseAlone(s, s', universals, gf, i - 1, n);
    }
  }

  /** What the outer layers, which a weak barrier does not hide from its own body, say of n. */
  function Outside(s: seq<Scope>, universals: Bindings, gf: nat, b: nat, n: string): Option<Json>
    requires CapturesFrom(s, gf, b)
  {
    LookupFrom(s, universals, gf, b - 1, n)
  }

  /** The base layers' own answer. */
  function AtBase(s: seq<Scope>, universals: Bindings, gf: nat, n: string): Option<Json>
    requires BasedAt(s, gf)
  {
    LookupFrom(s, universals, gf, gf, n)
  }

  /** How the stack looks inside the body: the captured layers begin at index at, with a barrier there or below. */
  predicate Entered(t: seq<Scope>, gf: nat, caller: seq<Scope>, seg: seq<Scope>, args: Option<Bindings>, at: nat) {
    && BasedAt(t, gf) && gf < |caller| && gf < at && at + |seg| <= |t|
    && t[..gf + 1] == caller[..gf + 1]
    && t[at..at + |seg|] == seg
    && (|seg| == 0 || !seg[0].kind.Barrier? ==> t[at - 1] == BARRIER)
    && |t| == at + |seg| + (if args.Some? then 1 else 0)
    && (args.Some? ==> t[at + |seg|] == Scope(Locals, args))
  }

  lemma EntersBody(s: seq<Scope>, gf: nat, b: nat, caller: seq<Scope>, args: Option<Bindings>)
    requires CapturesFrom(s, gf, b) && BasedAt(caller, gf)
    ensures exists at: nat :: Entered(caller + LambdaLayers(s[b..], args), gf, caller, s[b..], args, at)
  {
    var seg := s[b..];
    var t := caller + LambdaLayers(seg, args);
    assert forall i :: 0 <= i < |seg| ==> seg[i] == s[b + i];
    var at := |caller| + if |seg| == 0 || !seg[0].kind.Barrier? then 1 else 0;
    assert t[..gf + 1] == caller[..gf + 1];
    assert t[at..at + |seg|] == seg;
    assert Entered(t, gf, caller, seg, args, at);
  }

  lemma ThroughArgs(t: seq<Scope>, universals: Bindings, gf: nat, caller: seq<Scope>, seg: seq<Scope>,
                    args: Option<Bindings>, at: nat, n: string)
    requires Entered(t, gf, caller, seg, args, at)
    ensures LookupFrom(t, universals, gf, |t| - 1, n) ==
      if args.Some? && n in args.value then Some(OrNull(args.value[n]))
      else LookupFrom(t, universals, gf, at + |seg| - 1, n)
  {
  }

  lemma ThroughSegment(t: seq<Scope>, universals: Bindings, gf: nat, caller: seq<Scope>, seg: seq<Scope>,
                       args: Option<Bindings>, at: nat, n: string)
    requires Entered(t, gf, caller, seg, args, at) && forall k :: 0 < k < |seg| ==> !seg[k].kind.Barrier?
    ensures LookupFrom(t, universals, gf, at + |seg| - 1, n) ==
      if SegmentLookup(seg, universals, n).Some? then SegmentLookup(seg, universals, n) else AtBase(t, universals, gf, n)
  {
    hide SegmentLookup;
    SearchSegment(t, universals, gf, seg, at, n);
    if |seg| == 0 || !seg[0].kind.Barrier? {
      assert LookupFrom(t, universals, gf, at - 1, n) == LookupFrom(t, universals, gf, gf, n);
    }
  }

  /** What a name means in the body of a closure: the arguments answer, else the innermost captured layer that binds
      it, else the base layers. Nothing depends on the caller's own layers. */
  lemma InsideClosure(s: seq<Scope>, universals: Bindings, gf: nat, b: nat, caller: seq<Scope>,
                      args: Option<Bindings>, n: string)
    requires CapturesFrom(s, gf, b) && BasedAt(caller, gf) && s[..gf + 1] == caller[..gf + 1]
    ensures BasedAt(caller + LambdaLayers(s[b..], args), gf)
    ensures Lookup(caller + LambdaLayers(s[b..], args), universals, gf, n) ==
      if args.Some? && n in args.value then Some(OrNull(args.value[n]))
      else if SegmentLookup(s[b..], universals, n).Some? then SegmentLookup(s[b..], universals, n)
      else AtBase(s, universals, gf, n)
  {
    hide LambdaLayers, SegmentLookup, LookupFrom;
    var seg := s[b..];
    var t := caller + LambdaLayers(seg, args);
    EntersBody(s, gf, b, caller, args);
    var at: nat :| Entered(t, gf, caller, seg, args, at);
    ThroughArgs(t, universals, gf, caller, seg, args, at, n);
    ThroughSegment(t, universals, gf, caller, seg, args, at, n);
    BaseAlone(s, t, universals, gf, gf, n);
  }

  lemma {:induction false} SegmentSilent(seg: seq<Scope>, universals: Bindings, n: string)
    requires forall k :: 0 <= k < |seg| ==> !Binds(seg[k], n)
    ensures SegmentLookup(seg, universals, n) == None
  {
    if |seg| > 0 {
      SegmentSilent(seg[..|seg| - 1], universals, n);
    }
  }

  /** A barrier of either strength is where a closure ends: a name that neither the arguments nor the layers down to
      the innermost barrier bind means in the body what the base layers say, whatever locals lay outside. */
  lemma BarrierHides(s: seq<Scope>, universals: Bindings, gf: nat, b: nat, i: nat, caller: seq<Scope>,
                     args: Option<Bindings>, n: string)
    requires CapturesFrom(s, gf, b) && BasedAt(caller, gf) && s[..gf + 1] == caller[..gf + 1]
    requires gf < i < |s| && (s[i].kind.Barrier? || s[i].kind.WeakBarrier?)
    requires forall k :: i <= k < |s| ==> !Binds(s[k], n)
    requires args.Some? ==> n !in args.value
    ensures BasedAt(caller + LambdaLayers(s[b..], args), gf)
    ensures Lookup(caller + LambdaLayers(s[b..], args), universals, gf, n) == AtBase(s, universals, gf, n)
  {
    hide SegmentLookup, LambdaLayers, Lookup, AtBase, Binds;
    InsideClosure(s, universals, gf, b, caller, args, n);
    assert i <= b;
    assert forall k :: 0 <= k < |s[b..]| ==> s[b..][k] == s[b + k];
    SegmentSilent(s[b..], universals, n);
  }

  /** Without a barrier, or an empty layer, all layers above the base are captured. */
  lemma CapturesAll(s: seq<Scope>, universals: Bindings, gf: nat, b: nat, caller: seq<Scope>,
                    args: Option<Bindings>, n: string)
    requires CapturesFrom(s, gf, b) && BasedAt(caller, gf) && s[..gf + 1] == caller[..gf + 1]
    requires forall k :: gf < k < |s| ==> s[k].kind.Locals? || s[k].kind.Unirefs?
    requires args.Some? ==> n !in args.value
    ensures BasedAt(caller + LambdaLayers(s[b..], args), gf)
    ensures Lookup(caller + LambdaLayers(s[b..], args), universals, gf, n) == Lookup(s, universals, gf, n)
  {
    hide SegmentLookup, LambdaLayers, Lookup, LookupFrom;
    LexicalScope(s, universals, gf, b, caller, args, n);
    assert b == gf + 1;
  }

  /** Lexical scope, exactly when: a name not bound by the arguments means in the body, whatever the caller's layers,
      what it meant where the closure was captured, if and only if the captured layers bind it, or a strong barrier
      was innermost there or no layer was left out, or the layers left out give it the base layers' meaning. */
  lemma LexicalScope(s: seq<Scope>, universals: Bindings, gf: nat, b: nat, caller: seq<Scope>,
                     args: Option<Bindings>, n: string)
    requires CapturesFrom(s, gf, b) && BasedAt(caller, gf) && s[..gf + 1] == caller[..gf + 1]
    requires args.Some? ==> n !in args.value
    ensures BasedAt(caller + LambdaLayers(s[b..], args), gf)
    ensures Lookup(caller + LambdaLayers(s[b..], args), universals, gf, n) == Lookup(s, universals, gf, n) <==>
      || SegmentLookup(s[b..], universals, n).Some?
      || (b < |s| && s[b].kind.Barrier?)
      || b == gf + 1
      || Outside(s, universals, gf, b, n) == AtBase(s, universals, gf, n)
  {
    InsideClosure(s, universals, gf, b, caller, args, n);
    var seg := s[b..];
    assert s[b..b + |seg|] == seg;
    SearchSegment(s, universals, gf, seg, b, n);
  }

  // ---- assignment ----

  /** From s to s' the table that held t got n set to x, in every layer that shares it. */
  predicate Assigned(s: seq<Scope>, s': seq<Scope>, t: Bindings, n: string, x: Option<Json>) {
    && |s'| == |s|
    && forall i :: 0 <= i < |s| ==>
      && s'[i].kind == s[i].kind
      && (s'[i] == s[i]
          || (!s[i].kind.Unirefs? && s[i].table == Some(t) && s'[i].table == Some(t[n := x])))
  }

  /** Where the reference to n that a lookup finds leads: to the table of the layer that binds n, to the universals
      if that layer only declares n universal, or to the globals if no layer binds it. */
  predicate Reached(s: seq<Scope>, s': seq<Scope>, u': Bindings, gf: nat, t: Bindings, n: string, x: Option<Json>, i: int)
    requires BasedAt(s, gf) && |s'| == |s| && -1 <= i < |s|
  {
    var k := Resolve(s, gf, i, n);
    if k < 0 then
      gf <= i && s'[gf].table == Some(t[n := x])
    else if s[k].kind.Unirefs? then
      n in u' && u'[n] == x
    else
      s[k].table == Some(t) && s'[k].table == Some(t[n := x])
  }

  lemma {:induction false} AssignedValue(s: seq<Scope>, s': seq<Scope>, u': Bindings, gf: nat, t: Bindings,
                                         n: string, x: Option<Json>, i: int)
    requires BasedAt(s, gf) && BasedAt(s', gf) && Assigned(s, s', t, n, x) && -1 <= i < |s|
    requires Reached(s, s', u', gf, t, n, x, i)
    ensures LookupFrom(s', u', gf, i, n) == Some(OrNull(x))
    decreases i + 1
  {
    if 0 <= i && !Binds(s[i], n) && !Binds(s'[i], n) {
      AssignedValue(s, s', u', gf, t, n, x, Next(s, gf, i));
    }
  }

  lemma AssignedLookups(s: seq<Scope>, s': seq<Scope>, u: Bindings, u': Bindings, gf: nat, t: Bindings, n: string,
                        x: Option<Json>)
    requires BasedAt(s, gf) && Assigned(s, s', t, n, x) && (u' == u || u' == u[n := x])
    requires Reached(s, s', u', gf, t, n, x, |s| - 1)
    ensures BasedAt(s', gf)
    ensures Lookup(s', u', gf, n) == Some(OrNull(x))
    ensures forall m :: m != n ==> Lookup(s', u', gf, m) == Lookup(s, u, gf, m)
  {
    AssignedValue(s, s', u', gf, t, n, x, |s| - 1);
    forall m | m != n
      ensures Lookup(s', u', gf, m) == Lookup(s, u, gf, m)
    {
      assert AgreeOn(s, s', m);
      AgreeLookup(s, s', u, u', gf, |s| - 1, m);
    }
  }

  // ---- binding globals ----

  /** From s to s' tables were overwritten with t, the globals among them. */
  predicate Merged(s: seq<Scope>, s': seq<Scope>, gf: nat, t: Bindings) {
    && BasedAt(s, gf) && |s'| == |s|
    && (forall i :: 0 <= i < |s| ==>
      && s'[i].kind == s[i].kind
      && (s'[i] == s[i] || (s[i].table.Some? && s'[i].table == Some(s[i].table.value + t))))
    && s[gf].table.Some? && s'[gf].table == Some(s[gf].table.value + t)
  }

  lemma MergedLookups(s: seq<Scope>, s': seq<Scope>, u: Bindings, u': Bindings, gf: nat, t: Bindings)
    requires Merged(s, s', gf, t) && s[gf].kind.Globals? && (u' == u || u' == u + t)
    ensures BasedAt(s', gf)
    ensures forall n :: n in t ==> AtBase(s', u', gf, n) == Some(OrNull(t[n]))
    ensures forall n :: n !in t ==> Lookup(s', u', gf, n) == Lookup(s, u, gf, n)
  {
    forall n | n in t
      ensures AtBase(s', u', gf, n) == Some(OrNull(t[n]))
    {
      assert Binds(s'[gf], n);
    }
    forall n | n !in t
      ensures Lookup(s', u', gf, n) == Lookup(s, u, gf, n)
    {
      assert AgreeOn(s, s', n);
      AgreeLookup(s, s', u, u', gf, |s| - 1, n);
    }
  }
}
