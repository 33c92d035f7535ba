/** mtdispatch_t and the mtd_thread_t's it shares its cells and pipes with, updating them in place. */
module Dispatcher {
  import opened Bytes
  import opened DispatchModel
  import opened DispatchSafety

  /** Counting a reply before or after chld_ready's loop makes no difference to it. */
  lemma {:induction false} DrainCountsOut(s: State, now: Time)
    requires TidsOk(s)
    ensures
      var c := s.(stats := s.stats.(out := s.stats.out + 1));
      Drain(c, now) == Drain(s, now).(stats := Drain(s, now).stats.(out := Drain(s, now).stats.out + 1))
    decreases |s.queue|
  {
    var c := s.(stats := s.stats.(out := s.stats.out + 1));
    if |s.queue| > 0 && |s.readyq| > 0 {
      var d := DrainOne(s, now);
      assert DrainOne(c, now) == d.(stats := d.stats.(out := d.stats.out + 1));
      DrainCountsOut(d, now);
    }
  }

  class MtDispatch {
    const maxq: nat
    const timeout: int
    var queue: seq<QueueEl>
    var readyq: seq<nat>
    var workers: seq<Worker>
    var fdin: seq<Msg>
    var stats: Stats
    ghost var log: Log

    ghost function View(): State
      reads this
    {
      State(maxq, timeout, queue, readyq, workers, fdin, stats, log)
    }

    constructor (n: nat, maxq: nat, timeout: int, counters: Stats)
      ensures View() == Init(n, maxq, timeout, counters) && Inv(View())
    {
      this.maxq, this.timeout := maxq, timeout;
      queue, readyq, fdin, stats := [], [], [], counters;
      workers := seq(n, _ => Worker(NotStarted, Startup, None, 0, 0));
      log := Log([], [], [], [], [], [], [], [], counters);
      new;
      InitHolds(n, maxq, timeout, counters);
    }

    // ---- dispatcher ----

    /** send_svccb; the assertion in it holds. */
    method SendSvccb(b: Req) returns (sent: bool)
      requires Tokens(View())
      modifies this
      ensures sent <==> |old(readyq)| > 0
      ensures View() == if sent then Send(old(View()), b) else old(View())
    {
      sent := |readyq| > 0;
      if sent {
        SendTokens(View(), b);
        var i := readyq[0];
        readyq := readyq[1..];
        assert workers[i].status == Ready;
        workers := workers[i := workers[i].(status := Working)];
        workers := workers[i := workers[i].(sbp := Some(b))];
        MsgSend(i);
        log := log.(handled := log.handled + [b]);
      }
    }

    /** msg_send of a CONTINUE. */
    method MsgSend(tid: nat)
      requires tid < |workers|
      modifies `workers
      ensures workers == old(workers)[tid := old(workers)[tid].(tokens := old(workers)[tid].tokens + 1)]
    {
      workers := workers[tid := workers[tid].(tokens := workers[tid].tokens + 1)];
    }

    method Enqueue(b: Req, now: Time)
      modifies `queue
      ensures queue == old(queue) + [QueueEl(b, now)]
    {
      queue := queue + [QueueEl(b, now)];
    }

    /** dispatch; async says what async_serv would answer. */
    method OnRequest(b: Req, async: bool, now: Time)
      requires Inv(View())
      modifies this
      ensures TidsOk(old(View())) && View() == Dispatch(old(View()), b, async, now) && Inv(View())
    {
      hide Ledger, Counted, Delivered, Announced, NoneLost;
      ghost var s := View();
      assert TidsOk(s) by { CoreSafe(s); }
      DispatchKeeps(s, b, async, now);
      log := log.(arrived := log.arrived + [b]);
      if |queue| >= maxq {
        stats := stats.(rejects := stats.rejects + 1);
        log := log.(refused := log.refused + [b]);
      } else if async {
        stats := stats.(async := stats.async + 1);
        log := log.(asynced := log.asynced + [b]);
      } else {
        log := log.(accepted := log.accepted + [b]);
        Admit(b, now);
      }
    }

    /** The last two branches of dispatch. */
    method Admit(b: Req, now: Time)
      requires Tokens(View()) && TidsOk(View())
      modifies this
      ensures View() ==
        if |old(queue)| > 0 || |old(readyq)| == 0 then
          old(View()).(stats := old(stats).(queued := old(stats).queued + 1), queue := old(queue) + [QueueEl(b, now)])
        else Send(old(View()).(stats := old(stats).(taken := old(stats).taken + 1)), b)
    {
      hide Tokens;
      var sent := false;
      if |queue| == 0 {
        sent := SendSvccb(b);
      }
      if sent {
        stats := stats.(taken := stats.taken + 1);
      } else {
        stats := stats.(queued := stats.queued + 1);
        Enqueue(b, now);
      }
    }

    /** chld_ready. */
    method ChldReady(i: nat, now: Time)
      requires Tokens(View().(readyq := readyq + [i])) && TidsOk(View()) && i < |workers|
      modifies this
      ensures View() == DispatchModel.ChldReady(old(View()), i, now)
    {
      hide Tokens;
      readyq := readyq + [i];
      ghost var s := View();
      while |queue| > 0 && |readyq| > 0
        invariant Tokens(View()) && TidsOk(View()) && Drain(View(), now) == Drain(s, now)
        decreases |queue|
      {
        DrainOneTokens(View(), now);
        DrainRound(now);
      }
    }

    /** The body of its loop. */
    method DrainRound(now: Time)
      requires Tokens(View()) && TidsOk(View()) && |queue| > 0 && |readyq| > 0
      modifies this
      ensures View() == DrainOne(old(View()), now)
    {
      var el := queue[0];
      queue := queue[1..];
      if now - el.timein > timeout {
        stats := stats.(to := stats.to + 1);
        log := log.(handled := log.handled + [el.sbp], timedOut := log.timedOut + [el.sbp]);
      } else {
        var _ := SendSvccb(el.sbp);
      }
    }

    /** chld_reply: answers the request in the cell and frees the worker. */
    method ChldReply(i: nat, now: Time)
      requires i < |workers| && workers[i].sbp.Some? && TidsOk(View())
      requires Tokens(Answered(View(), i).(readyq := readyq + [i]))
      modifies this
      ensures View() == DispatchModel.ChldReady(Answered(old(View()), i), i, now)
    {
      hide Announced, NoneLost, WorkerOk, Drain;
      var cell := workers[i];
      log := log.(served := log.served + [Answer(cell.sbp.value, cell.result)]);
      workers := workers[i := cell.(sbp := None)];
      workers := workers[i := workers[i].(status := Ready)];
      assert workers == Answered(old(View()), i).workers;
      DrainCountsOut(View().(readyq := readyq + [i]), now);
      ChldReady(i, now);
      stats := stats.(out := stats.out + 1);
    }

    /** chld_msg. */
    method ChldMsg(now: Time)
      requires Inv(View()) && |fdin| > 0
      modifies this
      ensures Safe(old(View())) && View() == Read(old(View()), now) && Inv(View())
    {
      hide Tokens, Ledger, Counted, Delivered;
      ReadKeeps(View(), now);
      BeforeDrainTokens(View());
      var msg := fdin[0];
      fdin := fdin[1..];
      match msg.status {
        case Ready => ChldReady(msg.tid, now);
        case Reply => ChldReply(msg.tid, now);
        case _ =>
      }
    }

    // ---- workers ----

    /** take_svccb. */
    method TakeSvccb(i: nat)
      requires i < |workers|
      modifies `workers
      ensures workers == old(workers)[i := Take(old(workers)[i])]
    {
      var s := workers[i].sbp;
      if s.Some? {
        workers := workers[i := workers[i].(pc := Serving(s.value))];
      } else {
        workers := workers[i := workers[i].(pc := Receiving)];
      }
    }

    method WorkerSends(i: nat, status: Status)
      modifies `fdin
      ensures fdin == old(fdin) + [Msg(i, status)]
    {
      fdin := fdin + [Msg(i, status)];
    }

    /** run up to its first msg_recv. */
    method RunWorker(i: nat)
      requires Inv(View()) && i < |workers| && workers[i].pc.NotStarted?
      modifies this
      ensures View() == Start(old(View()), i) && Inv(View())
    {
      hide Inv;
      StartKeeps(View(), i);
      workers := workers[i := workers[i].(status := Ready)];
      WorkerSends(i, Ready);
      TakeSvccb(i);
    }

    /** A reply function, called in dispatch, which then returns. */
    method ReplyFrom(i: nat, r: Outcome)
      requires Inv(View()) && i < |workers| && workers[i].pc.Serving?
      modifies this
      ensures View() == Finish(old(View()), i, r) && Inv(View())
    {
      hide Inv;
      FinishKeeps(View(), i, r);
      log := log.(computed := log.computed + [Answer(workers[i].pc.req, r)]);
      workers := workers[i := workers[i].(status := Reply)];
      workers := workers[i := workers[i].(result := r)];
      WorkerSends(i, Reply);
      workers := workers[i := workers[i].(pc := Receiving)];
    }

    /** msg_recv returns and the loop of run comes round. */
    method RecvContinue(i: nat)
      requires Inv(View()) && i < |workers| && workers[i].pc.Receiving? && workers[i].tokens > 0
      modifies this
      ensures View() == Continue(old(View()), i) && Inv(View())
    {
      hide Inv;
      ContinueKeeps(View(), i);
      workers := workers[i := workers[i].(tokens := workers[i].tokens - 1)];
      TakeSvccb(i);
    }

    /** Whatever happens, the objects take exactly the step of the step system. */
    method Perform(e: Event)
      requires Inv(View()) && Enabled(View(), e)
      modifies this
      ensures Safe(old(View())) && View() == Step(old(View()), e) && Inv(View())
    {
      hide Inv, Start, Finish, Continue, Read, Dispatch;
      StepKeeps(View(), e);
      match e {
        case Arrive(b, async, now) => OnRequest(b, async, now);
        case DispatcherReads(now) => ChldMsg(now);
        case WorkerStarts(i) => RunWorker(i);
        case WorkerFinishes(i, r) => ReplyFrom(i, r);
        case WorkerContinues(i) => RecvContinue(i);
      }
    }
  }
}
