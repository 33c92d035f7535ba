/** The environment of the pub language: a stack of layers over shared, mutable tables (libpub/pub3env.C). */
module PubEnv {
  import opened Bytes
  import opened XdrModel
  import opened PubScope

  class BindTab {
    var m: Bindings
    const keysOnly: bool    // made by bindlist_t::keys_only, for a LAYER_UNIREFS layer

    constructor (m: Bindings, keysOnly: bool)
      ensures this.m == m && this.keysOnly == keysOnly
    {
      this.m, this.keysOnly := m, keysOnly;
    }

    method Insert(n: string, x: Option<Json>)
      modifies this
      ensures m == old(m)[n := x]
    {
      m := m[n := x];
    }

    /** bindlist_t::keys_only. */
    static method KeysOnly(names: seq<string>) returns (t: BindTab)
      ensures fresh(t) && t.keysOnly
      ensures forall n :: n in t.m <==> n in names
    {
      t := new BindTab(map[], true);
      for i := 0 to |names|
        invariant forall n :: n in t.m <==> n in names[..i]
      {
        t.Insert(names[i], None);
        assert names[..i + 1] == names[..i] + [names[i]];
      }
      assert names[..|names|] == names;
    }

    /** operator+=. */
    method OverwriteWith(t: BindTab)
      modifies this
      ensures m == old(m) + old(t.m)
    {
      m := m + t.m;
    }
  }

  datatype Layer = Layer(tab: BindTab?, typ: Kind)

  ghost predicate LayerOk(l: Layer) {
    && (l.typ.Unirefs? ==> l.tab != null && l.tab.keysOnly)
    && (!l.typ.Unirefs? && l.tab != null ==> !l.tab.keysOnly)
    && (Base(l.typ) ==> l.tab != null)
  }

  ghost function Tables(stack: seq<Layer>): set<object> {
    set i | 0 <= i < |stack| && stack[i].tab != null :: stack[i].tab
  }

  /** What the layers hold at the moment. */
  ghost function Snapshot(stack: seq<Layer>): (s: seq<Scope>)
    reads Tables(stack)
    ensures |s| == |stack|
    ensures forall i :: 0 <= i < |s| ==> s[i].kind == stack[i].typ
    ensures forall i :: 0 <= i < |s| ==> s[i].table == if stack[i].tab == null then None else Some(stack[i].tab.m)
  {
    seq(|stack|, i requires 0 <= i < |stack| reads Tables(stack) =>
      Scope(stack[i].typ, if stack[i].tab == null then None else Some(stack[i].tab.m)))
  }

  /** What capture_closure yields: only its lowest layer can be a barrier, and none is a base layer. */
  ghost predicate ClosureOk(closure: seq<Layer>) {
    forall i :: 0 <= i < |closure| ==>
      && LayerOk(closure[i])
      && (closure[i].typ.Locals? || closure[i].typ.Unirefs?
          || (i == 0 && (closure[i].typ.Barrier? || closure[i].typ.WeakBarrier?)))
  }

  /** The layers push_lambda pushes for a closure. */
  ghost function LambdaStack(closure: seq<Layer>, args: BindTab?): seq<Layer> {
    (if |closure| == 0 || !closure[0].typ.Barrier? then [Layer(null, Barrier)] else [])
    + closure
    + (if args != null then [Layer(args, Locals)] else [])
  }

  lemma LambdaSnapshot(stack: seq<Layer>, closure: seq<Layer>, args: BindTab?)
    ensures Snapshot(stack + LambdaStack(closure, args)) ==
      Snapshot(stack) + LambdaLayers(Snapshot(closure), if args == null then None else Some(args.m))
  {
    SnapshotAppend(stack, LambdaStack(closure, args));
    var front := LambdaStack(closure, null);
    SnapshotAppend(LambdaStack([], null), closure);
    if args != null {
      SnapshotAppend(front, [Layer(args, Locals)]);
    }
  }

  lemma SnapshotAppend(a: seq<Layer>, b: seq<Layer>)
    ensures Snapshot(a + b) == Snapshot(a) + Snapshot(b)
  {
  }

  class Env {
    var stack: seq<Layer>
    var globals: BindTab
    const universals: BindTab
    const gf: nat    // _global_frames, the index of the globals layer

    /** Every barrier is above the global frame, and the layer there is always the globals. */
    ghost predicate Valid()
      reads this
    {
      && 1 <= gf < |stack|
      && stack[gf] == Layer(globals, Globals) && stack[gf - 1] == Layer(universals, Universals)
      && (forall i :: 0 <= i <= gf ==> Base(stack[i].typ))
      && (forall i :: gf < i < |stack| ==> !Base(stack[i].typ))
      && forall i :: 0 <= i < |stack| ==> LayerOk(stack[i])
    }

    ghost function View(): (s: seq<Scope>)
      reads this, Tables(stack)
      requires Valid()
      ensures BasedAt(s, gf) && |s| == |stack| && s == Snapshot(stack)
    {
      Snapshot(stack)
    }

    /** What n means now. */
    ghost function Meaning(n: string): Option<Json>
      reads this, Tables(stack), universals
      requires Valid()
    {
      Lookup(View(), universals.m, gf, n)
    }

    /** One layer for each library, then the universals and the globals. */
    constructor (libraries: seq<BindTab>, u: BindTab, g: BindTab?)
      requires !u.keysOnly && (g != null ==> !g.keysOnly)
      requires forall i :: 0 <= i < |libraries| ==> !libraries[i].keysOnly
      ensures Valid() && universals == u && gf == |libraries| + 1 && |stack| == gf + 1
      ensures g != null ==> globals == g
      ensures g == null ==> fresh(globals) && globals.m == map[]
      ensures forall i :: 0 <= i < |libraries| ==> stack[i] == Layer(libraries[i], Library)
    {
      universals, gf := u, |libraries| + 1;
      stack := [];
      if g != null {
        globals := g;
      } else {
        globals := new BindTab(map[], false);
      }
      new;
      for i := 0 to |libraries|
        invariant |stack| == i && forall k :: 0 <= k < i ==> stack[k] == Layer(libraries[k], Library)
        invariant g != null ==> globals == g
        invariant g == null ==> fresh(globals) && globals.m == map[] && !globals.keysOnly
      {
        stack := stack + [Layer(libraries[i], Library)];
      }
      stack := stack + [Layer(universals, Universals), Layer(globals, Globals)];
    }

    method PushLocals(t: BindTab?, typ: Kind) returns (size: nat)
      requires Valid() && (t != null ==> !t.keysOnly) && (typ.Locals? || typ.Barrier? || typ.WeakBarrier?)
      modifies `stack
      ensures Valid() && size == old(|stack|)
      ensures stack == old(stack) + if t != null then [Layer(t, typ)] else []
    {
      size := |stack|;
      if t != null {
        stack := stack + [Layer(t, typ)];
      }
    }

    method PushBarrier() returns (size: nat)
      requires Valid()
      modifies `stack
      ensures Valid() && size == old(|stack|) && stack == old(stack) + [Layer(null, Barrier)]
    {
      size := |stack|;
      stack := stack + [Layer(null, Barrier)];
    }

    /** push_bindings: the table that a section of this kind binds in. There never is a library table. */
    method PushBindings(typ: Kind, isCfg: bool) returns (t: BindTab?)
      requires Valid() && (Base(typ) || typ.Locals?)
      modifies `stack
      ensures Valid() && (t == null <==> typ.Library?)
      ensures typ.Locals? ==> fresh(t) && t.m == map[] && stack == old(stack) + [Layer(t, Locals)]
      ensures !typ.Locals? ==> stack == old(stack)
      ensures typ.Universals? ==> t == if isCfg then globals else universals
      ensures typ.Globals? ==> t == globals
    {
      if typ.Library? {
        t := null;
      } else if typ.Universals? {
        t := if isCfg then globals else universals;
      } else if typ.Globals? {
        t := globals;
      } else {
        t := new BindTab(map[], false);
        stack := stack + [Layer(t, Locals)];
      }
    }

    /** push_references: for a universals section, a layer of names without values. */
    method PushReferences(names: seq<string>, typ: Kind)
      requires Valid()
      modifies `stack
      ensures Valid() && old(stack) <= stack && |stack| == old(|stack|) + if typ.Universals? then 1 else 0
      ensures typ.Universals? ==>
        && stack[old(|stack|)].typ == Unirefs && fresh(stack[old(|stack|)].tab)
        && forall n :: n in stack[old(|stack|)].tab.m <==> n in names
    {
      if typ.Universals? {
        var t := BindTab.KeysOnly(names);
        stack := stack + [Layer(t, Unirefs)];
      }
    }

    /** pop_to. Callers give a size that a push returned; a larger one adds empty layers, and one that does not leave
        the globals breaks the environment. */
    method PopTo(size: nat)
      requires Valid()
      modifies `stack
      ensures Valid() <==> gf < size
      ensures stack ==
        if size <= old(|stack|) then old(stack)[..size] else old(stack) + seq(size - old(|stack|), _ => Layer(null, NoLayer))
    {
      stack := if size <= |stack| then stack[..size] else stack + seq(size - |stack|, _ => Layer(null, NoLayer));
    }

    function DecStackPointer(l: Layer, i: nat): (r: int)
      reads `stack
      requires i < |stack| && l == stack[i]
    {
      if l.typ.Barrier? then gf else i - 1
    }

    method LookupVal(n: string) returns (x: Option<Json>)
      requires Valid()
      ensures x == Meaning(n)
    {
      x := None;
      var i := |stack| - 1;
      while x.None? && i >= 0
        invariant -1 <= i < |stack|
        invariant x.None? ==> LookupFrom(View(), universals.m, gf, i, n) == Meaning(n)
        invariant x.Some? ==> x == Meaning(n)
        decreases i + 1
      {
        var l := stack[i];
        if l.tab != null && n in l.tab.m {
          x := l.tab.m[n];
          if l.typ.Unirefs? {
            x := if n in universals.m then universals.m[n] else None;
          }
          if x.None? {
            x := Some(JNull);
          }
        }
        i := DecStackPointer(l, i);
      }
    }

    /** The table a reference to n leads to. */
    ghost function Target(n: string): BindTab
      reads this, Tables(stack)
      requires Valid()
    {
      var k := Resolve(View(), gf, |stack| - 1, n);
      if k < 0 then globals
      else if stack[k].typ.Unirefs? then universals
      else
        assert stack[k].tab != null;
        stack[k].tab
    }

    /** What lookup_val returns and where lookup_ref leads, by position: to the topmost passed layer that binds n, and
        for a layer that only declares n universal to the universals. */
    lemma FindByPosition(n: string, k: nat)
      requires Valid() && k < |stack| && Passes(View(), gf, k) && Binds(View()[k], n)
      requires forall j :: k < j < |stack| && Passes(View(), gf, j) ==> !Binds(View()[j], n)
      ensures stack[k].typ != Unirefs ==>
        && Target(n) == stack[k].tab && n in Target(n).m
        && Meaning(n) == Some(if Target(n).m[n].Some? then Target(n).m[n].value else JNull)
      ensures stack[k].typ == Unirefs ==>
        && Target(n) == universals
        && Meaning(n) == Some(if n in universals.m && universals.m[n].Some? then universals.m[n].value else JNull)
    {
      hide Resolve, Lookup, Passes;
      MeaningByPosition(View(), universals.m, gf, n, k);
    }

    /** And where no passed layer binds n: nothing, and the globals. */
    lemma FindNothing(n: string)
      requires Valid()
      ensures Meaning(n) == None <==> forall j :: 0 <= j < |stack| && Passes(View(), gf, j) ==> !Binds(View()[j], n)
      ensures Meaning(n) == None ==> Target(n) == globals
    {
      hide Resolve, Lookup, Passes;
      MeaninglessByPosition(View(), universals.m, gf, n);
    }

    method LookupRef(n: string) returns (found: BindTab)
      requires Valid()
      ensures found == Target(n)
    {
      var f: BindTab? := null;
      var i := |stack| - 1;
      while f == null && i >= 0
        invariant -1 <= i < |stack|
        invariant f == null ==> Resolve(View(), gf, i, n) == Resolve(View(), gf, |stack| - 1, n)
        invariant f != null ==> f == Target(n)
        decreases i + 1
      {
        var l := stack[i];
        if l.tab != null && n in l.tab.m {
          if l.typ.Unirefs? { f := universals; } else { f := l.tab; }
        }
        i := DecStackPointer(l, i);
      }
      found := if f == null then globals else f;
    }

    /** Assignment through lookup_ref: the next lookup of n gives x, and every other name means what it meant,
        however the layers share tables. */
    method Assign(n: string, x: Option<Json>)
      requires Valid()
      modifies Tables(stack)
      ensures Valid() && stack == old(stack) && globals == old(globals)
      ensures Meaning(n) == Some(OrNull(x))
      ensures forall m :: m != n ==> Meaning(m) == old(Meaning(m))
    {
      hide Assigned, Reached, Resolve, LookupFrom, BasedAt;
      ghost var s, u := View(), universals.m;
      ghost var t := SetThroughRef(n, x);
      AssignedLookups(s, View(), u, universals.m, gf, t, n, x);
    }

    /** lookup_ref and mref_dict_t::set_value. */
    method SetThroughRef(n: string, x: Option<Json>) returns (ghost t: Bindings)
      requires Valid()
      modifies Tables(stack)
      ensures Valid() && stack == old(stack) && globals == old(globals)
      ensures Assigned(old(View()), View(), t, n, x)
      ensures universals.m == old(universals.m) || universals.m == old(universals.m)[n := x]
      ensures Reached(old(View()), View(), universals.m, gf, t, n, x, |stack| - 1)
    {
      assert stack[gf].tab == globals && stack[gf - 1].tab == universals;
      var found := LookupRef(n);
      t := found.m;
      found.Insert(n, x);
    }

    method ReplaceGlobals(t: BindTab)
      requires Valid() && !t.keysOnly && |globals.m| == 0
      modifies this
      ensures Valid() && globals == t && |stack| == old(|stack|)
      ensures globals.m == old(globals.m) + t.m
      ensures Merged(old(View()), View(), gf, t.m)
    {
      assert stack[gf].tab == globals && globals.m == map[] && globals.m + t.m == t.m;
      globals := t;
      stack := stack[gf := stack[gf].(tab := t)];
    }

    method MergeGlobals(t: BindTab)
      requires Valid()
      modifies globals
      ensures Valid() && stack == old(stack) && globals == old(globals)
      ensures globals.m == old(globals.m) + old(t.m)
      ensures Merged(old(View()), View(), gf, old(t.m))
    {
      assert stack[gf].tab == globals;
      globals.OverwriteWith(t);
    }

    /** bind_globals, with its shortcut: empty globals are replaced by t itself, in both places. Either way the base
        layers now give every name of t its value there, and no other name means anything else than before. */
    method BindGlobals(t: BindTab?) returns (size: nat)
      requires Valid() && (t != null ==> !t.keysOnly)
      modifies this, globals
      ensures Valid() && size == old(|stack|) && |stack| == old(|stack|)
      ensures t == null ==> stack == old(stack) && globals == old(globals) && globals.m == old(globals.m)
      ensures t != null ==> globals.m == old(globals.m) + old(t.m)
      ensures t != null ==> forall n :: n in old(t.m) ==> AtBase(View(), universals.m, gf, n) == Some(OrNull(old(t.m)[n]))
      ensures t != null ==> forall n :: n !in old(t.m) ==> Meaning(n) == old(Meaning(n))
    {
      hide Merged, Resolve, LookupFrom, BasedAt;
      size := |stack|;
      if t != null {
        ghost var s, u, was := View(), universals.m, t.m;
        if |globals.m| == 0 {
          ReplaceGlobals(t);
        } else {
          MergeGlobals(t);
        }
        MergedLookups(s, View(), u, universals.m, gf, was);
      }
    }

    /** descend_to_barrier. */
    method DescendToBarrier() returns (b: nat)
      requires Valid()
      ensures CapturesFrom(View(), gf, b)
    {
      var bottom := |stack| - 1;
      var go := true;
      while go && bottom >= 0
        invariant gf <= bottom <= |stack|
        invariant forall i :: bottom < i < |stack| ==> stack[i].typ.Locals? || stack[i].typ.Unirefs?
        invariant go ==> bottom < |stack|
        invariant !go ==> CapturesFrom(View(), gf, bottom)
        decreases if go then bottom + 1 else 0
      {
        match stack[bottom].typ {
          case Unirefs => bottom := bottom - 1;
          case Locals => bottom := bottom - 1;
          case Universals => bottom := bottom + 1; go := false;
          case Globals => bottom := bottom + 1; go := false;
          case Library => bottom := bottom + 1; go := false;
          case NoLayer => bottom := bottom + 1; go := false;
          case Barrier => go := false;
          case WeakBarrier => go := false;
        }
      }
      b := bottom;
    }

    method CaptureClosure() returns (closure: seq<Layer>, b: nat)
      requires Valid()
      ensures CapturesFrom(View(), gf, b) && closure == stack[b..] && ClosureOk(closure)
    {
      b := DescendToBarrier();
      closure := [];
      for i := b to |stack|
        invariant closure == stack[b..i]
      {
        closure := closure + [stack[i]];
      }
    }

    /** push_lambda; no closure at all brings no barrier either. */
    method PushLambda(args: BindTab?, closure: Option<seq<Layer>>) returns (size: nat)
      requires Valid() && (args != null ==> !args.keysOnly)
      requires closure.Some? ==> ClosureOk(closure.value)
      modifies `stack
      ensures Valid() && size == old(|stack|)
      ensures stack == old(stack) + if closure.Some? then LambdaStack(closure.value, args)
                                    else if args != null then [Layer(args, Locals)] else []
    {
      size := |stack|;
      if closure.Some? {
        PushClosure(closure.value);
      }
      PushArgs(args);
    }

    method PushClosure(closure: seq<Layer>)
      requires Valid() && ClosureOk(closure)
      modifies `stack
      ensures Valid() && stack == old(stack) + LambdaStack(closure, null)
    {
      ghost var was := stack;
      if |closure| == 0 || !closure[0].typ.Barrier? {
        var _ := PushBarrier();
      }
      stack := stack + closure;
      assert stack == was + LambdaStack(closure, null);
    }

    method PushArgs(args: BindTab?)
      requires Valid() && (args != null ==> !args.keysOnly)
      modifies `stack
      ensures Valid() && stack == old(stack) + if args != null then [Layer(args, Locals)] else []
      ensures forall before, closure :: old(stack) == before + LambdaStack(closure, null) ==>
        stack == before + LambdaStack(closure, args)
    {
      ghost var was := stack;
      var _ := PushLocals(args, Locals);
      forall before, closure | was == before + LambdaStack(closure, null)
        ensures stack == before + LambdaStack(closure, args)
      {
        assert LambdaStack(closure, args) ==
          LambdaStack(closure, null) + if args != null then [Layer(args, Locals)] else [];
      }
    }
  }

  ghost function Bound(args: BindTab?): Option<Bindings>
    reads args
  {
    if args == null then None else Some(args.m)
  }

  /** Enters a body, looks n up there, and leaves. */
  method EnterAndLookup(caller: Env, args: BindTab?, closure: seq<Layer>, n: string) returns (inside: Option<Json>)
    requires caller.Valid() && (args != null ==> !args.keysOnly)
    requires ClosureOk(closure)
    modifies caller`stack
    ensures caller.Valid() && caller.stack == old(caller.stack)
    ensures old(BasedAt(caller.View() + LambdaLayers(Snapshot(closure), Bound(args)), caller.gf))
    ensures inside ==
      old(Lookup(caller.View() + LambdaLayers(Snapshot(closure), Bound(args)), caller.universals.m, caller.gf, n))
  {
    hide Resolve, LookupFrom, LambdaLayers, BasedAt;
    ghost var was, c, u := caller.stack, caller.View(), caller.universals.m;
    ghost var seg, bound := Snapshot(closure), Bound(args);
    var size := caller.PushLambda(args, Some(closure));
    LambdaSnapshot(was, closure, args);
    assert Snapshot(was) == c && Snapshot(closure) == seg && Bound(args) == bound;
    inside := caller.LookupVal(n);
    assert caller.universals.m == u;
    assert caller.View() == c + LambdaLayers(seg, bound);
    caller.PopTo(size);
    assert caller.stack == was;
  }

  /** The condition under which n means in the body what it means to the definer. */
  ghost predicate KeepsMeaning(s: seq<Scope>, u: Bindings, gf: nat, b: nat, n: string)
    requires CapturesFrom(s, gf, b)
  {
    || SegmentLookup(s[b..], u, n).Some?
    || (b < |s| && s[b].kind.Barrier?)
    || b == gf + 1
    || Outside(s, u, gf, b, n) == AtBase(s, u, gf, n)
  }

  lemma ClosureMeaning(definer: Env, caller: Env, b: nat, args: BindTab?, n: string)
    requires definer.Valid() && caller.Valid() && CapturesFrom(definer.View(), definer.gf, b)
    requires definer.gf == caller.gf && definer.stack[..definer.gf + 1] == caller.stack[..caller.gf + 1]
    ensures definer.universals == caller.universals
    ensures ClosureOk(definer.stack[b..])
    ensures BasedAt(caller.View() + LambdaLayers(Snapshot(definer.stack[b..]), Bound(args)), caller.gf)
    ensures
      var inside := Lookup(caller.View() + LambdaLayers(Snapshot(definer.stack[b..]), Bound(args)),
                           caller.universals.m, caller.gf, n);
      if args != null && n in args.m then inside == Some(OrNull(args.m[n]))
      else (inside == definer.Meaning(n) <==> KeepsMeaning(definer.View(), definer.universals.m, definer.gf, b, n))
  {
    hide Resolve, LookupFrom, SegmentLookup, LambdaLayers, CapturesFrom, BasedAt;
    var s, c, u := definer.View(), caller.View(), definer.universals.m;
    SameBase(definer, caller);
    CapturedLayers(definer, b);
    InsideClosure(s, u, definer.gf, b, c, Bound(args), n);
    if args == null || n !in args.m {
      LexicalScope(s, u, definer.gf, b, c, Bound(args), n);
    }
  }

  /** A closure captured in one environment and run in another over the same libraries, universals and globals: each
      name its arguments do not bind means in the body what it means to the definer, whatever locals the caller has,
      under exactly the condition KeepsMeaning. */
  method RunClosure(definer: Env, caller: Env, args: BindTab?, n: string) returns (inside: Option<Json>)
    requires definer.Valid() && caller.Valid() && (args != null ==> !args.keysOnly)
    requires definer.gf == caller.gf && definer.stack[..definer.gf + 1] == caller.stack[..caller.gf + 1]
    modifies caller`stack
    ensures caller.stack == old(caller.stack)
    ensures args != null && n in args.m ==> inside == Some(OrNull(args.m[n]))
    ensures args == null || n !in args.m ==>
      exists b: nat :: CapturesFrom(definer.View(), definer.gf, b) &&
        (inside == definer.Meaning(n) <==> KeepsMeaning(definer.View(), definer.universals.m, definer.gf, b, n))
  {
    hide Resolve, LookupFrom, SegmentLookup, LambdaLayers, CapturesFrom;
    var closure, b := definer.CaptureClosure();
    ghost var s, c := definer.View(), caller.View();
    ClosureMeaning(definer, caller, b, args, n);
    inside := EnterAndLookup(caller, args, closure, n);
    assert definer.View() == s;
  }

  lemma SameBase(a: Env, b: Env)
    requires a.Valid() && b.Valid() && a.gf == b.gf && a.stack[..a.gf + 1] == b.stack[..b.gf + 1]
    ensures a.universals == b.universals && a.View()[..a.gf + 1] == b.View()[..b.gf + 1]
  {
    forall i | 0 <= i <= a.gf
      ensures a.stack[i] == b.stack[i]
    {
      assert a.stack[i] == a.stack[..a.gf + 1][i];
    }
  }

  lemma CapturedLayers(e: Env, b: nat)
    requires e.Valid() && CapturesFrom(e.View(), e.gf, b)
    ensures Snapshot(e.stack[b..]) == e.View()[b..]
    ensures ClosureOk(e.stack[b..])
  {
  }

  /** A closure run at any time after its capture, when the definer has popped its layers or gone and tables have
      changed. captured is what the captured layers held then. As long as the same of them bind n, the layer that
      bound n then answers, with the value it has now; a name that none of them binds means what the base says. */
  method RunLater(caller: Env, args: BindTab?, closure: seq<Layer>, n: string, ghost captured: seq<Scope>)
    returns (inside: Option<Json>)
    requires caller.Valid() && (args != null ==> !args.keysOnly) && ClosureOk(closure)
    requires |captured| == |closure|
    requires forall i :: 0 <= i < |closure| ==> (Binds(captured[i], n) <==> Binds(Snapshot(closure)[i], n))
    modifies caller`stack
    ensures caller.Valid() && caller.stack == old(caller.stack)
    ensures inside ==
      if args != null && n in args.m then Some(OrNull(args.m[n]))
      else
        var k := SegmentIndex(captured, n);
        if 0 <= k then Some(ValueIn(old(Snapshot(closure))[k], caller.universals.m, n))
        else old(AtBase(caller.View(), caller.universals.m, caller.gf, n))
  {
    LaterMeaning(caller, args, closure, n, captured);
    hide *;
    inside := EnterAndLookup(caller, args, closure, n);
  }

  lemma LaterMeaning(caller: Env, args: BindTab?, closure: seq<Layer>, n: string, captured: seq<Scope>)
    requires caller.Valid() && ClosureOk(closure) && |captured| == |closure|
    requires forall i :: 0 <= i < |closure| ==> (Binds(captured[i], n) <==> Binds(Snapshot(closure)[i], n))
    ensures BasedAt(caller.View() + LambdaLayers(Snapshot(closure), Bound(args)), caller.gf)
    ensures Lookup(caller.View() + LambdaLayers(Snapshot(closure), Bound(args)), caller.universals.m, caller.gf, n) ==
      if args != null && n in args.m then Some(OrNull(args.m[n]))
      else
        var k := SegmentIndex(captured, n);
        if 0 <= k then Some(ValueIn(Snapshot(closure)[k], caller.universals.m, n))
        else AtBase(caller.View(), caller.universals.m, caller.gf, n)
  {
    hide Resolve, SegmentLookup, LambdaLayers, SegmentIndex;
    var c, seg, u, gf := caller.View(), Snapshot(closure), caller.universals.m, caller.gf;
    var s := c[..gf + 1] + seg;
    assert s[gf + 1..] == seg && s[..gf + 1] == c[..gf + 1];
    InsideClosure(s, u, gf, gf + 1, c, Bound(args), n);
    KeepsLayer(captured, seg, u, n);
    BaseAlone(s, c, u, gf, gf, n);
  }
}
