/** The dispatcher over whole runs: where every request is, what the counters say, and that work ends. */
module DispatchRuns {
  import opened Bytes
  import opened DispatchModel
  import opened DispatchSafety

  /** es leads from s to t, and each of its events is possible where it happens. */
  predicate Runs(s: State, es: seq<Event>, t: State)
    decreases |es|
  {
    if |es| == 0 then t == s
    else Safe(s) && Enabled(s, es[0]) && Runs(Step(s, es[0]), es[1..], t)
  }

  lemma {:induction false} RunKeeps(s: State, es: seq<Event>, t: State)
    requires Inv(s) && Runs(s, es, t)
    ensures Inv(t)
    decreases |es|
  {
    hide Inv, Step, Safe, Enabled;
    if |es| > 0 {
      StepKeeps(s, es[0]);
      RunKeeps(Step(s, es[0]), es[1..], t);
    }
  }

  function Arrivals(es: seq<Event>): seq<Req> {
    if |es| == 0 then []
    else (if es[0].Arrive? then [es[0].b] else []) + Arrivals(es[1..])
  }

  lemma {:induction false} DrainArrivals(s: State, now: Time)
    requires TidsOk(s)
    ensures Drain(s, now).log.arrived == s.log.arrived && |Drain(s, now).workers| == |s.workers|
    decreases |s.queue|
  {
    if |s.queue| > 0 && |s.readyq| > 0 {
      DrainArrivals(DrainOne(s, now), now);
    }
  }

  lemma StepArrivals(s: State, e: Event)
    requires Safe(s) && Enabled(s, e)
    ensures Step(s, e).log.arrived == s.log.arrived + if e.Arrive? then [e.b] else []
    ensures |Step(s, e).workers| == |s.workers|
  {
    if e.DispatcherReads? && (s.pipe[0].status == Ready || s.pipe[0].status == Reply) {
      DrainArrivals(BeforeDrain(s), e.now);
    }
  }

  lemma {:induction false} RunArrivals(s: State, es: seq<Event>, t: State)
    requires Runs(s, es, t)
    ensures t.log.arrived == s.log.arrived + Arrivals(es)
    decreases |es|
  {
    hide Step, Safe, Enabled;
    if |es| > 0 {
      var a := if es[0].Arrive? then [es[0].b] else [];
      StepArrivals(s, es[0]);
      RunArrivals(Step(s, es[0]), es[1..], t);
      assert s.log.arrived + a + Arrivals(es[1..]) == s.log.arrived + (a + Arrivals(es[1..]));
    }
  }

  /** How often r has been answered, by whichever of the four ways. */
  function Answers(s: State, r: Req): nat {
    multiset(s.log.refused)[r] + multiset(s.log.asynced)[r] + multiset(s.log.timedOut)[r]
    + multiset(Answerees(s.log.served))[r]
  }

  /** How often r is waiting, in the queue or in a cell. */
  function Waiting(s: State, r: Req): nat {
    multiset(Reqs(s.queue))[r] + Held(s.workers)[r]
  }

  /** In every state of every run each request is as often answered or waiting as dispatch was called with it: a
      request that came once is in exactly one place and is answered at most once. */
  lemma OnePlace(n: nat, maxq: nat, timeout: int, base: Stats, es: seq<Event>, t: State, r: Req)
    requires Runs(Init(n, maxq, timeout, base), es, t)
    ensures Answers(t, r) + Waiting(t, r) == multiset(Arrivals(es))[r]
  {
    var s := Init(n, maxq, timeout, base);
    InitHolds(n, maxq, timeout, base);
    RunKeeps(s, es, t);
    RunArrivals(s, es, t);
    assert t.log.arrived == Arrivals(es);
    OnePlaceNow(t, r);
  }

  lemma OnePlaceNow(t: State, r: Req)
    requires Ledger(t)
    ensures Answers(t, r) + Waiting(t, r) == multiset(t.log.arrived)[r]
  {
    assert multiset(t.log.accepted) == multiset(t.log.handled) + multiset(Reqs(t.queue));
  }

  /** What a requester gets from a worker is what a worker answered to that very request, in the same order. */
  lemma AnswersAreOwn(n: nat, maxq: nat, timeout: int, base: Stats, es: seq<Event>, t: State)
    requires Runs(Init(n, maxq, timeout, base), es, t)
    ensures t.log.served <= t.log.computed
  {
    InitHolds(n, maxq, timeout, base);
    RunKeeps(Init(n, maxq, timeout, base), es, t);
  }

  /** Accepted requests go to workers, or time out, in the order they came, and the queue stays within the limit the
      run began with. */
  lemma FirstComeFirstServed(n: nat, maxq: nat, timeout: int, base: Stats, es: seq<Event>, t: State)
    requires Runs(Init(n, maxq, timeout, base), es, t)
    ensures t.log.accepted == t.log.handled + Reqs(t.queue)
    ensures |t.queue| <= maxq && (|t.queue| == 0 || |t.readyq| == 0)
  {
    InitHolds(n, maxq, timeout, base);
    RunKeeps(Init(n, maxq, timeout, base), es, t);
    RunBase(Init(n, maxq, timeout, base), es, t);
  }

  /** The counters, from whatever they began with: calls are rejects, async, in and queued; the last two are out,
      timeouts, the queue and the occupied cells. */
  lemma CountersBalance(n: nat, maxq: nat, timeout: int, base: Stats, es: seq<Event>, t: State)
    requires Runs(Init(n, maxq, timeout, base), es, t)
    ensures |Arrivals(es)| ==
      (t.stats.rejects - base.rejects) + (t.stats.async - base.async)
      + (t.stats.taken - base.taken) + (t.stats.queued - base.queued)
    ensures (t.stats.taken - base.taken) + (t.stats.queued - base.queued) ==
      (t.stats.out - base.out) + (t.stats.to - base.to) + |t.queue| + |Held(t.workers)|
  {
    var s := Init(n, maxq, timeout, base);
    InitHolds(n, maxq, timeout, base);
    RunKeeps(s, es, t);
    RunArrivals(s, es, t);
    RunBase(s, es, t);
    assert t.log.arrived == Arrivals(es);
    assert |multiset(t.log.arrived)| == |t.log.arrived|;
    assert |multiset(t.log.handled)| == |t.log.handled|;
  }

  /** What a run never changes. */
  predicate SameSetup(t: State, s: State) {
    && t.maxq == s.maxq && t.timeout == s.timeout && |t.workers| == |s.workers| && t.log.base == s.log.base
  }

  lemma {:induction false} DrainBase(s: State, now: Time)
    requires TidsOk(s)
    ensures SameSetup(Drain(s, now), s)
    decreases |s.queue|
  {
    if |s.queue| > 0 && |s.readyq| > 0 {
      DrainBase(DrainOne(s, now), now);
    }
  }

  lemma {:induction false} RunBase(s: State, es: seq<Event>, t: State)
    requires Runs(s, es, t)
    ensures SameSetup(t, s)
    decreases |es|
  {
    if |es| > 0 {
      var e := es[0];
      if e.DispatcherReads? && (s.pipe[0].status == Ready || s.pipe[0].status == Reply) {
        DrainBase(BeforeDrain(s), e.now);
      }
      RunBase(Step(s, e), es[1..], t);
    }
  }

  /** While a request is queued no started worker idles: each holds a request or has an unread message. */
  lemma NoneIdles(n: nat, maxq: nat, timeout: int, base: Stats, es: seq<Event>, t: State, i: nat)
    requires Runs(Init(n, maxq, timeout, base), es, t)
    requires |t.queue| > 0 && i < n
    ensures |t.workers| == n
    ensures t.workers[i].pc.NotStarted? || t.workers[i].sbp.Some? || Msg(i, Ready) in t.pipe
  {
    InitHolds(n, maxq, timeout, base);
    RunKeeps(Init(n, maxq, timeout, base), es, t);
    RunBase(Init(n, maxq, timeout, base), es, t);
  }

  /** Being safe is no restriction: whatever is enabled after a run can happen, and gives a run again. */
  lemma {:induction false} RunExtends(s: State, es: seq<Event>, t: State, e: Event)
    requires Inv(s) && Runs(s, es, t) && Enabled(t, e)
    ensures Safe(t) && Runs(s, es + [e], Step(t, e))
    decreases |es|
  {
    hide Inv, Step, Enabled, Safe;
    var all := es + [e];
    StepKeeps(s, all[0]);
    if |es| == 0 {
      assert all[1..] == [];
      assert Runs(Step(s, e), [], Step(s, e));
    } else {
      assert all[1..] == es[1..] + [e];
      RunExtends(Step(s, es[0]), es[1..], t, e);
    }
  }

  // ---- every request is answered in the end ----

  /** Nothing can happen but an arrival or the start of a further worker. */
  ghost predicate Quiet(s: State) {
    forall e: Event :: Enabled(s, e) ==> e.Arrive? || e.WorkerStarts?
  }

  lemma {:induction false} HeldSome(ws: seq<Worker>)
    ensures Held(ws) == multiset{} || exists i :: 0 <= i < |ws| && ws[i].sbp.Some?
  {
    if |ws| > 0 {
      var front := ws[..|ws| - 1];
      HeldSome(front);
      if ws[|ws| - 1].sbp == None && Held(front) != multiset{} {
        var i :| 0 <= i < |front| && front[i].sbp.Some?;
        assert ws[i].sbp.Some?;
      }
    }
  }

  lemma HolderMoves(s: State, k: nat)
    requires Tokens(s) && k < |s.workers| && s.workers[k].sbp.Some?
    ensures Enabled(s, WorkerFinishes(k, 0)) || Enabled(s, WorkerContinues(k)) || Enabled(s, DispatcherReads(0))
  {
    assert WorkerOk(s.workers[k]);
  }

  /** Where nothing more can happen, and one worker has started, everything is answered. */
  lemma QuietDone(s: State, i: nat)
    requires Inv(s) && Quiet(s) && i < |s.workers| && !s.workers[i].pc.NotStarted?
    ensures |s.queue| == 0 && Held(s.workers) == multiset{}
    ensures forall r :: Answers(s, r) == multiset(s.log.arrived)[r]
  {
    hide Quiet, Tokens, Held, Counted, Delivered;
    QuietHoldsNone(s);
    QuietIsReady(s, i);
    forall r ensures Answers(s, r) == multiset(s.log.arrived)[r] {
      OnePlaceNow(s, r);
    }
  }

  lemma QuietIsReady(s: State, i: nat)
    requires Tokens(s) && Quiet(s) && i < |s.workers| && !s.workers[i].pc.NotStarted?
    ensures |s.readyq| > 0
  {
    assert WorkerOk(s.workers[i]);
    assert !Enabled(s, DispatcherReads(0)) && !Enabled(s, WorkerFinishes(i, 0)) && !Enabled(s, WorkerContinues(i));
  }

  lemma QuietHoldsNone(s: State)
    requires Tokens(s) && Quiet(s)
    ensures Held(s.workers) == multiset{}
  {
    hide Tokens, Held;
    HeldSome(s.workers);
    if k :| 0 <= k < |s.workers| && s.workers[k].sbp.Some? {
      assert !Enabled(s, WorkerFinishes(k, 0)) && !Enabled(s, WorkerContinues(k)) && !Enabled(s, DispatcherReads(0));
      HolderMoves(s, k);
    }
  }

  lemma AllAnswered(n: nat, maxq: nat, timeout: int, base: Stats, es: seq<Event>, t: State, i: nat, r: Req)
    requires Runs(Init(n, maxq, timeout, base), es, t) && Quiet(t)
    requires i < |t.workers| && !t.workers[i].pc.NotStarted?
    ensures Answers(t, r) == multiset(Arrivals(es))[r]
  {
    var s := Init(n, maxq, timeout, base);
    InitHolds(n, maxq, timeout, base);
    RunKeeps(s, es, t);
    RunArrivals(s, es, t);
    assert t.log.arrived == Arrivals(es);
    QuietDone(t, i);
  }

  function Weight(w: Worker): nat {
    if w.pc.NotStarted? || w.pc.Serving? then 2 else if w.tokens > 0 then 3 else 0
  }

  function Weights(ws: seq<Worker>): nat {
    if |ws| == 0 then 0 else Weights(ws[..|ws| - 1]) + Weight(ws[|ws| - 1])
  }

  lemma {:induction false} WeightsUpdate(ws: seq<Worker>, i: nat, w: Worker)
    requires i < |ws|
    ensures Weights(ws[i := w]) + Weight(ws[i]) == Weights(ws) + Weight(w)
  {
    var last := |ws| - 1;
    if i == last {
      assert ws[i := w][..last] == ws[..last];
    } else {
      assert ws[i := w][..last] == ws[..last][i := w];
      WeightsUpdate(ws[..last], i, w);
    }
  }

  /** A bound on how many events can happen before the next arrival. */
  function Work(s: State): nat {
    3 * |s.queue| + |s.pipe| + Weights(s.workers)
  }

  lemma DrainOneWork(s: State, now: Time)
    requires Tokens(s) && |s.queue| > 0 && |s.readyq| > 0
    ensures TidsOk(s) && Work(DrainOne(s, now)) <= Work(s)
  {
    hide Weights, Announced, NoneLost;
    InvSafe(s);
    SendTokens(s, 0);
    var i := s.readyq[0];
    assert WorkerOk(s.workers[i]);
    WeightsUpdate(s.workers, i, DrainOne(s, now).workers[i]);
  }

  lemma {:induction false} DrainWork(s: State, now: Time)
    requires Core(s)
    ensures TidsOk(s) && Work(Drain(s, now)) <= Work(s)
    decreases |s.queue|
  {
    hide Work, Tokens, DrainOne;
    assert TidsOk(s) by { CoreSafe(s); }
    if |s.queue| > 0 && |s.readyq| > 0 {
      DrainOneKeeps(s, now);
      DrainOneWork(s, now);
      DrainWork(DrainOne(s, now), now);
    }
  }

  lemma ReadWork(s: State)
    requires Tokens(s) && |s.pipe| > 0
    ensures Safe(s) && Work(BeforeDrain(s)) < Work(s)
  {
    hide Weights, Announced, NoneLost;
    InvSafe(s);
    BeforeDrainTokens(s);
    var i := s.pipe[0].tid;
    assert WorkerOk(BeforeDrain(s).workers[i]) && WorkerOk(s.workers[i]);
    WeightsUpdate(s.workers, i, BeforeDrain(s).workers[i]);
  }

  lemma WorkerWork(s: State, e: Event)
    requires Tokens(s) && Safe(s) && Enabled(s, e) && !e.Arrive? && !e.DispatcherReads?
    ensures Work(Step(s, e)) < Work(s)
  {
    hide Weights, Announced, NoneLost, Safe;
    assert WorkerOk(s.workers[e.i]);
    WeightsUpdate(s.workers, e.i, Step(s, e).workers[e.i]) by {
      assert |Step(s, e).workers| == |s.workers|;
    }
  }

  lemma StepWork(s: State, e: Event)
    requires Inv(s) && Enabled(s, e) && !e.Arrive?
    ensures Safe(s) && Work(Step(s, e)) < Work(s)
  {
    hide Work, Tokens, Ledger, Counted, Delivered;
    CoreSafe(s);
    if e.DispatcherReads? {
      BeforeDrainTokens(s);
      BeforeDrainBooks(s);
      ReadWork(s);
      DrainWork(BeforeDrain(s), e.now);
    } else {
      WorkerWork(s, e);
    }
  }

  /** A run without arrivals is no longer than its work: so it ends, and where it ends all is answered. */
  lemma {:induction false} WorkEnds(s: State, es: seq<Event>, t: State)
    requires Inv(s) && Runs(s, es, t) && forall k :: 0 <= k < |es| ==> !es[k].Arrive?
    ensures |es| <= Work(s)
    decreases |es|
  {
    hide Inv, Step, Safe, Enabled, Work;
    if |es| > 0 {
      StepWork(s, es[0]);
      StepKeeps(s, es[0]);
      WorkEnds(Step(s, es[0]), es[1..], t);
    }
  }

  // ---- why starting has to be one step ----

  /** become_ready on its own, as a preemptive scheduler would allow: the worker has not looked at its cell yet. */
  function AnnounceOnly(s: State, i: nat): State
    requires i < |s.workers|
  {
    s.(workers := s.workers[i := s.workers[i].(status := Ready)], pipe := s.pipe + [Msg(i, Ready)])
  }

  function LookAtCell(s: State, i: nat): State
    requires i < |s.workers|
  {
    s.(workers := s.workers[i := Take(s.workers[i])])
  }

  /** A lone worker has announced itself and not yet looked when b comes: b is in its cell, a CONTINUE in its pipe. */
  lemma SplitStart(b: Req, base: Stats)
    ensures
      var s1 := AnnounceOnly(Init(1, 1, 0, base), 0);
      var s2 := Dispatch(Read(s1, 0), b, false, 0);
      && s2.workers == [Worker(NotStarted, Working, Some(b), 0, 1)] && s2.pipe == [] && s2.queue == [] && s2.readyq == []
      && s2.log.arrived == [b] && s2.log.computed == [] && s2.log.served == []
  {
    var s0 := Init(1, 1, 0, base);
    assert s0.workers == [Worker(NotStarted, Startup, None, 0, 0)];
    var s1 := AnnounceOnly(s0, 0);
    assert s1.pipe == [Msg(0, Ready)] && s1.pipe[1..] == [];
    assert Read(s1, 0) == s1.(pipe := [], readyq := [0]);
  }

  /** So the worker finds b in its cell, and finds it again when it reads the CONTINUE: one request, two answers, and
      the second REPLY finds no request to answer. */
  lemma SplitStartServesTwice(b: Req, r: Outcome, base: Stats)
    ensures
      var s2 := Dispatch(Read(AnnounceOnly(Init(1, 1, 0, base), 0), 0), b, false, 0);
      var s3 := Finish(LookAtCell(s2, 0), 0, r);
      var s4 := Finish(Continue(s3, 0), 0, r);
      var s5 := Read(s4, 0);
      && s5.log.arrived == [b]
      && s5.log.computed == [Answer(b, r), Answer(b, r)]
      && !Safe(s5)
  {
    SplitStart(b, base);
    var s2 := Dispatch(Read(AnnounceOnly(Init(1, 1, 0, base), 0), 0), b, false, 0);
    ServesTwice(s2, b, r);
  }

  lemma ServesTwice(s2: State, b: Req, r: Outcome)
    requires s2.workers == [Worker(NotStarted, Working, Some(b), 0, 1)] && s2.pipe == [] && s2.queue == [] && s2.readyq == []
    requires s2.log.arrived == [b] && s2.log.computed == []
    ensures
      var s3 := Finish(LookAtCell(s2, 0), 0, r);
      var s4 := Finish(Continue(s3, 0), 0, r);
      var s5 := Read(s4, 0);
      && s5.log.arrived == [b] && s5.log.computed == [Answer(b, r), Answer(b, r)] && !Safe(s5)
  {
    var s3 := Finish(LookAtCell(s2, 0), 0, r);
    assert s3.workers == [Worker(Receiving, Reply, Some(b), r, 1)] && s3.pipe == [Msg(0, Reply)];
    var s4 := Finish(Continue(s3, 0), 0, r);
    assert s4.workers == [Worker(Receiving, Reply, Some(b), r, 0)] && s4.pipe == [Msg(0, Reply), Msg(0, Reply)];
    var s5 := Read(s4, 0);
    assert s5.pipe == [Msg(0, Reply)] && s5.workers[0].sbp == None;
    assert s5.pipe[0].status == Reply;
  }
}
