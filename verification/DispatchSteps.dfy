/** What the dispatcher does with each request and each message, said by what is seen before and after. */
module DispatchSteps {
  import opened Bytes
  import opened DispatchModel
  import opened DispatchSafety
  import opened DispatchRuns

  /** el has waited longer than the timeout. */
  predicate Late(el: QueueEl, now: Time, timeout: int) {
    now - el.timein > timeout
  }

  /** p is how many requests at the front of the queue are late. */
  ghost predicate LatePrefix(queue: seq<QueueEl>, now: Time, timeout: int, p: nat) {
    && p <= |queue|
    && (forall i :: 0 <= i < p ==> Late(queue[i], now, timeout))
    && (p < |queue| ==> !Late(queue[p], now, timeout))
  }

  /** One worker is ready: the late requests in front are rejected, the first that is not late goes to that worker
      with one CONTINUE, and the rest stay. */
  ghost predicate Drained(s: State, s': State, now: Time, i: nat, p: nat)
  {
    && i < |s.workers| && LatePrefix(s.queue, now, s.timeout, p)
    && s'.pipe == s.pipe && s'.log.timedOut == s.log.timedOut + Reqs(s.queue[..p])
    && s'.stats == s.stats.(to := s.stats.to + p)
    && (p == |s.queue| ==>
        && s'.queue == [] && s'.readyq == s.readyq && s'.workers == s.workers
        && s'.log.handled == s.log.handled + Reqs(s.queue))
    && (p < |s.queue| ==>
        && s'.queue == s.queue[p + 1..] && s'.readyq == []
        && s'.workers == s.workers[i := s.workers[i].(status := Working, sbp := Some(s.queue[p].sbp), tokens := s.workers[i].tokens + 1)]
        && s'.log.handled == s.log.handled + Reqs(s.queue[..p + 1]))
  }

  lemma ReqsFirst(queue: seq<QueueEl>, p: nat)
    requires 0 < p <= |queue|
    ensures Reqs(queue[..p]) == [queue[0].sbp] + Reqs(queue[1..][..p - 1])
  {
    assert queue[..p] == [queue[0]] + queue[1..][..p - 1];
  }

  lemma LateFirst(s: State, s': State, now: Time, i: nat, p: nat)
    requires TidsOk(s) && s.readyq == [i] && LatePrefix(s.queue, now, s.timeout, p) && p > 0
    requires Drained(DrainOne(s, now), s', now, i, p - 1)
    ensures Drained(s, s', now, i, p)
  {
    hide Reqs;
    var rest := s.queue[1..];
    assert s.queue[..|s.queue|] == s.queue && rest[..|rest|] == rest;
    ReqsFirst(s.queue, p);
    if p < |s.queue| {
      ReqsFirst(s.queue, p + 1);
    }
  }

  /** The loop of chld_ready with one ready worker. */
  lemma {:induction false} DrainServesFirst(s: State, now: Time, i: nat, p: nat)
    requires TidsOk(s) && s.readyq == [i] && LatePrefix(s.queue, now, s.timeout, p)
    ensures Drained(s, Drain(s, now), now, i, p)
    decreases |s.queue|
  {
    hide Reqs;
    ReqsFew();
    assert s.queue[..0] == [];
    if |s.queue| > 0 {
      var d := DrainOne(s, now);
      if p > 0 {
        DrainServesFirst(d, now, i, p - 1);
        LateFirst(s, Drain(d, now), now, i, p);
      } else {
        assert Drain(d, now) == d;
        assert s.queue[..1] == [s.queue[0]];
      }
    }
  }

  lemma ReqsFew()
    ensures Reqs([]) == [] && forall el :: Reqs([el]) == [el.sbp]
  {
  }

  lemma {:induction false} LatePrefixExists(queue: seq<QueueEl>, now: Time, timeout: int) returns (p: nat)
    ensures LatePrefix(queue, now, timeout, p)
  {
    p := 0;
    while p < |queue| && Late(queue[p], now, timeout)
      invariant p <= |queue| && forall i :: 0 <= i < p ==> Late(queue[i], now, timeout)
    {
      p := p + 1;
    }
  }

  /** What reading a message does, in every state of every run. m is the message and w its worker's cell, which a
      REPLY empties. */
  ghost predicate ReadEffect(s: State, s': State, now: Time, p: nat)
    requires |s.pipe| > 0 && s.pipe[0].tid < |s.workers| && p <= |s.queue|
  {
    var m := s.pipe[0];
    var w := s.workers[m.tid].(sbp := None, status := Ready);
    && s'.pipe == s.pipe[1..]
    && (m.status == Ready ==> s'.log.served == s.log.served)
    && (m.status == Reply ==>
        && s.workers[m.tid].sbp.Some?
        && s'.log.served == s.log.served + [Answer(s.workers[m.tid].sbp.value, s.workers[m.tid].result)])
    && s'.log.timedOut == s.log.timedOut + Reqs(s.queue[..p])
    && s'.stats == s.stats.(to := s.stats.to + p, out := s.stats.out + if m.status == Reply then 1 else 0)
    && s'.log.refused == s.log.refused && s'.log.asynced == s.log.asynced && s'.log.arrived == s.log.arrived
    && (p == |s.queue| ==>
        && s'.queue == [] && s'.readyq == s.readyq + [m.tid] && s'.workers == s.workers[m.tid := w])
    && (p < |s.queue| ==>
        && s'.queue == s.queue[p + 1..] && s'.readyq == []
        && s'.workers == s.workers[m.tid := w.(status := Working, sbp := Some(s.queue[p].sbp), tokens := 1)])
  }

  lemma {:induction false} DrainKeepsLog(s: State, now: Time)
    requires TidsOk(s)
    ensures var d := Drain(s, now);
      && d.log.served == s.log.served && d.log.refused == s.log.refused
      && d.log.asynced == s.log.asynced && d.log.arrived == s.log.arrived
    decreases |s.queue|
  {
    if |s.queue| > 0 && |s.readyq| > 0 {
      DrainKeepsLog(DrainOne(s, now), now);
    }
  }

  lemma BeforeDrainSays(s: State, now: Time)
    requires Inv(s) && |s.pipe| > 0
    ensures Safe(s) && TidsOk(BeforeDrain(s)) && Read(s, now) == Drain(BeforeDrain(s), now)
    ensures s.pipe[0].tid < |s.workers|
    ensures
      var b := BeforeDrain(s);
      var i := s.pipe[0].tid;
      && b.workers == s.workers[i := s.workers[i].(sbp := None, status := Ready)] && s.workers[i].tokens == 0
      && b.readyq == s.readyq + [i]
      && b.queue == s.queue && b.timeout == s.timeout && b.pipe == s.pipe[1..]
      && b.log == s.log.(served := b.log.served)
      && b.stats == s.stats.(out := s.stats.out + if s.pipe[0].status == Reply then 1 else 0)
      && (s.pipe[0].status == Ready ==> b.log.served == s.log.served)
      && (s.pipe[0].status == Reply ==>
          && s.workers[i].sbp.Some?
          && b.log.served == s.log.served + [Answer(s.workers[i].sbp.value, s.workers[i].result)])
  {
    hide Ledger, Counted, Delivered, NoneLost, Drain;
    CoreSafe(s);
    BeforeDrainTokens(s);
    CoreSafeTokens(BeforeDrain(s));
    assert WorkerOk(s.workers[s.pipe[0].tid]);
  }

  /** READY and REPLY are the messages there are, and each frees one worker, who gets the first request that has not
      waited too long; the requests before it are rejected. */
  lemma ReadSays(s: State, now: Time, p: nat)
    requires Inv(s) && |s.pipe| > 0 && LatePrefix(s.queue, now, s.timeout, p)
    ensures Safe(s) && ReadEffect(s, Read(s, now), now, p)
  {
    hide Core, Read, BeforeDrain, Late, Safe, TidsOk;
    BeforeDrainSays(s, now);
    var b := BeforeDrain(s);
    DrainKeepsLog(b, now);
    if |s.queue| > 0 {
      DrainServesFirst(b, now, s.pipe[0].tid, p);
    }
  }

  lemma CoreSafeTokens(s: State)
    requires Tokens(s)
    ensures TidsOk(s)
  {
  }

  /** What dispatch does with a request. */
  lemma DispatchSays(s: State, b: Req, async: bool, now: Time)
    requires Inv(s)
    ensures TidsOk(s)
    ensures var s' := Dispatch(s, b, async, now);
      && s'.pipe == s.pipe && s'.log.timedOut == s.log.timedOut && s'.log.served == s.log.served
      && (|s.queue| >= s.maxq ==>
          && s'.log.refused == s.log.refused + [b] && s'.log.asynced == s.log.asynced
          && s'.stats == s.stats.(rejects := s.stats.rejects + 1)
          && s'.queue == s.queue && s'.readyq == s.readyq && s'.workers == s.workers)
      && (|s.queue| < s.maxq ==> s'.log.refused == s.log.refused)
      && (|s.queue| < s.maxq && async ==>
          && s'.log.asynced == s.log.asynced + [b] && s'.stats == s.stats.(async := s.stats.async + 1)
          && s'.queue == s.queue && s'.readyq == s.readyq && s'.workers == s.workers)
      && (|s.queue| < s.maxq && !async ==>
          && s'.log.asynced == s.log.asynced
          && if |s.readyq| == 0 then
               && s'.queue == s.queue + [QueueEl(b, now)] && s'.readyq == s.readyq && s'.workers == s.workers
               && s'.stats == s.stats.(queued := s.stats.queued + 1)
             else
               var w := s.workers[s.readyq[0]];
               && s'.queue == [] && s'.readyq == s.readyq[1..] && s'.stats == s.stats.(taken := s.stats.taken + 1)
               && s'.workers == s.workers[s.readyq[0] := w.(status := Working, sbp := Some(b), tokens := 1)])
  {
    CoreSafe(s);
    if |s.readyq| > 0 {
      assert WorkerOk(s.workers[s.readyq[0]]);
    }
  }

  // ---- over whole runs ----

  function LateOnes(queue: seq<QueueEl>, now: Time, timeout: int): seq<Req> {
    if |queue| == 0 then []
    else (if Late(queue[0], now, timeout) then [queue[0].sbp] else []) + LateOnes(queue[1..], now, timeout)
  }

  lemma {:induction false} AllLate(queue: seq<QueueEl>, now: Time, timeout: int, p: nat)
    requires LatePrefix(queue, now, timeout, p)
    ensures p < |queue| ==> LateOnes(queue[..p + 1], now, timeout) == Reqs(queue[..p])
    ensures p == |queue| ==> LateOnes(queue, now, timeout) == Reqs(queue[..p])
    decreases |queue|
  {
    if p > 0 {
      AllLate(queue[1..], now, timeout, p - 1);
      ReqsFirst(queue, p);
      if p < |queue| {
        assert queue[..p + 1][1..] == queue[1..][..p];
      }
    } else if |queue| > 0 {
      assert queue[..1][1..] == [];
    }
  }

  /** The queued requests that leave the queue at an event. */
  function Leaving(s: State, e: Event): seq<QueueEl>
    requires Safe(s) && Enabled(s, e)
  {
    if e.DispatcherReads? && |Step(s, e).queue| <= |s.queue| then s.queue[..|s.queue| - |Step(s, e).queue|] else []
  }

  /** The requests that, in the run, left the queue after waiting longer than the timeout, in order. */
  function LeftLate(s: State, es: seq<Event>, t: State): seq<Req>
    requires Runs(s, es, t)
    decreases |es|
  {
    if |es| == 0 then []
    else
      (if es[0].DispatcherReads? then LateOnes(Leaving(s, es[0]), es[0].now, s.timeout) else [])
      + LeftLate(Step(s, es[0]), es[1..], t)
  }

  /** The requests that came when the queue was at its limit. */
  function CameWhenFull(s: State, es: seq<Event>, t: State): seq<Req>
    requires Runs(s, es, t)
    decreases |es|
  {
    if |es| == 0 then []
    else
      (if es[0].Arrive? && |s.queue| >= s.maxq then [es[0].b] else [])
      + CameWhenFull(Step(s, es[0]), es[1..], t)
  }

  lemma StepRejects(s: State, e: Event)
    requires Inv(s) && Enabled(s, e)
    ensures Safe(s)
    ensures Step(s, e).log.timedOut == s.log.timedOut +
      if e.DispatcherReads? then LateOnes(Leaving(s, e), e.now, s.timeout) else []
    ensures Step(s, e).log.refused == s.log.refused + if e.Arrive? && |s.queue| >= s.maxq then [e.b] else []
  {
    hide Inv, Read, Dispatch, Safe;
    InvIsSafe(s);
    if e.DispatcherReads? {
      var p := LatePrefixExists(s.queue, e.now, s.timeout);
      ReadSays(s, e.now, p);
      AllLate(s.queue, e.now, s.timeout, p);
      if p == |s.queue| {
        assert s.queue[..p] == s.queue;
      } else {
        assert Leaving(s, e) == s.queue[..p + 1];
      }
    } else if e.Arrive? {
      DispatchSays(s, e.b, e.async, e.now);
    }
  }

  lemma InvIsSafe(s: State)
    requires Inv(s)
    ensures Safe(s) && TidsOk(s)
  {
  }

  /** In every run the requests rejected by timeout are exactly those that left the queue after waiting longer than
      the timeout, and those refused are exactly those that came when the queue was full; both in order. */
  lemma {:induction false} RejectedExactly(s: State, es: seq<Event>, t: State)
    requires Inv(s) && Runs(s, es, t)
    ensures t.log.timedOut == s.log.timedOut + LeftLate(s, es, t)
    ensures t.log.refused == s.log.refused + CameWhenFull(s, es, t)
    decreases |es|
  {
    hide Inv, Step, Safe, Enabled, Leaving, LateOnes;
    if |es| > 0 {
      var e, u := es[0], Step(s, es[0]);
      StepRejects(s, e);
      StepKeeps(s, e);
      RejectedExactly(u, es[1..], t);
      var late := if e.DispatcherReads? then LateOnes(Leaving(s, e), e.now, s.timeout) else [];
      var full := if e.Arrive? && |s.queue| >= s.maxq then [e.b] else [];
      Append(s.log.timedOut, late, LeftLate(u, es[1..], t));
      Append(s.log.refused, full, CameWhenFull(u, es[1..], t));
    }
  }

  lemma Append(a: seq<Req>, b: seq<Req>, c: seq<Req>)
    ensures a + b + c == a + (b + c)
  {
  }

  /** The time in the queue is the time of the request's arrival. */
  predicate CameThen(es: seq<Event>, el: QueueEl) {
    exists k :: 0 <= k < |es| && es[k].Arrive? && es[k].b == el.sbp && es[k].now == el.timein
  }

  lemma StepQueue(s: State, e: Event, el: QueueEl)
    requires Inv(s) && Enabled(s, e)
    ensures Safe(s)
    ensures el in Step(s, e).queue ==> el in s.queue || (e.Arrive? && el == QueueEl(e.b, e.now))
  {
    hide Inv, Read, Dispatch, Safe;
    InvIsSafe(s);
    if e.DispatcherReads? {
      var p := LatePrefixExists(s.queue, e.now, s.timeout);
      ReadSays(s, e.now, p);
    } else if e.Arrive? {
      DispatchSays(s, e.b, e.async, e.now);
    }
  }

  lemma {:induction false} QueueTimes(s: State, es: seq<Event>, t: State, el: QueueEl)
    requires Inv(s) && Runs(s, es, t) && el in t.queue
    ensures el in s.queue || CameThen(es, el)
    decreases |es|
  {
    hide Inv, Step, Safe, Enabled;
    if |es| > 0 {
      StepKeeps(s, es[0]);
      QueueTimes(Step(s, es[0]), es[1..], t, el);
      if CameThen(es[1..], el) {
        var k :| 0 <= k < |es[1..]| && es[1..][k].Arrive? && es[1..][k].b == el.sbp && es[1..][k].now == el.timein;
        assert es[k + 1] == es[1..][k];
      } else {
        StepQueue(s, es[0], el);
      }
    }
  }
}
