/** The worker dispatcher as a step system: one event loop, one cell and one pipe to each worker, one pipe back
    (libamt/mtdispatch.C, libamt/amt.h). Pipes are queues of whole messages. Workers are scheduled cooperatively, so
    a worker's announcement and its first look at its cell are one step. */
module DispatchModel {
  import opened Bytes

  type Req = nat        // a svccb
  type Outcome = int    // what a worker answers: rstat with rsp_u or err_code
  type Time = int

  datatype Status = Startup | Ready | Working | Reply

  /** Where a worker thread is: not running yet, in msg_recv, or in dispatch for a request. */
  datatype Pc = NotStarted | Receiving | Serving(req: Req)

  /** A worker with its mtd_shmem_cell_t and the number of CONTINUE messages unread in its pipe. */
  datatype Worker = Worker(pc: Pc, status: Status, sbp: Option<Req>, result: Outcome, tokens: nat)

  /** A message in the pipe back: MTD_READY or MTD_REPLY. */
  datatype Msg = Msg(tid: nat, status: Status)

  datatype QueueEl = QueueEl(sbp: Req, timein: Time)

  datatype Answer = Answer(req: Req, outcome: Outcome)

  /** mtd_stats_t's totals. */
  datatype Stats = Stats(taken: int, out: int, rejects: int, queued: int, async: int, to: int)

  datatype State = State(
    maxq: nat,
    timeout: int,               // ok_amt_q_timeout
    queue: seq<QueueEl>,
    readyq: seq<nat>,
    workers: seq<Worker>,
    pipe: seq<Msg>,             // fdin
    stats: Stats,
    log: Log)

  /** What happened so far, which the code does not keep. */
  datatype Log = Log(
    arrived: seq<Req>,          // dispatch was called
    refused: seq<Req>,          // rejected for queue overflow
    asynced: seq<Req>,          // answered by async_serv
    accepted: seq<Req>,         // neither
    handled: seq<Req>,          // left the dispatcher: given to a worker, or timed out
    timedOut: seq<Req>,
    computed: seq<Answer>,      // what workers answered to the request they were dispatched with
    served: seq<Answer>,        // what chld_reply answered to the requester
    base: Stats)                // the counters at the beginning

  function Init(n: nat, maxq: nat, timeout: int, base: Stats): State {
    State(maxq, timeout, [], [], seq(n, _ => Worker(NotStarted, Startup, None, 0, 0)), [], base,
          Log([], [], [], [], [], [], [], [], base))
  }

  // ---- dispatcher ----

  /** send_svccb when a worker is ready. */
  function Send(s: State, b: Req): (s': State)
    requires |s.readyq| > 0 && s.readyq[0] < |s.workers|
    ensures s'.queue == s.queue && |s'.workers| == |s.workers| && s'.readyq == s.readyq[1..]
  {
    var i := s.readyq[0];
    var w := s.workers[i];
    s.(readyq := s.readyq[1..],
       workers := s.workers[i := w.(status := Working, sbp := Some(b), tokens := w.tokens + 1)],
       log := s.log.(handled := s.log.handled + [b]))
  }

  predicate TidsOk(s: State) {
    && (forall k :: 0 <= k < |s.readyq| ==> s.readyq[k] < |s.workers|)
    && forall k :: 0 <= k < |s.pipe| ==> s.pipe[k].tid < |s.workers|
  }

  /** mtdispatch_t::dispatch. */
  function Dispatch(s: State, b: Req, async: bool, now: Time): State
    requires TidsOk(s)
  {
    var a := s.(log := s.log.(arrived := s.log.arrived + [b]));
    if |s.queue| >= s.maxq then
      a.(stats := s.stats.(rejects := s.stats.rejects + 1), log := a.log.(refused := s.log.refused + [b]))
    else if async then
      a.(stats := s.stats.(async := s.stats.async + 1), log := a.log.(asynced := s.log.asynced + [b]))
    else
      var c := a.(log := a.log.(accepted := s.log.accepted + [b]));
      if |s.queue| > 0 || |s.readyq| == 0 then
        c.(stats := s.stats.(queued := s.stats.queued + 1), queue := s.queue + [QueueEl(b, now)])
      else
        Send(c.(stats := s.stats.(taken := s.stats.taken + 1)), b)
  }

  /** One round of chld_ready's loop. */
  function DrainOne(s: State, now: Time): (s': State)
    requires TidsOk(s) && |s.queue| > 0 && |s.readyq| > 0
    ensures TidsOk(s') && s'.queue == s.queue[1..] && |s'.workers| == |s.workers|
  {
    var el := s.queue[0];
    var p := s.(queue := s.queue[1..]);
    if now - el.timein > s.timeout then
      p.(stats := s.stats.(to := s.stats.to + 1),
         log := s.log.(handled := s.log.handled + [el.sbp], timedOut := s.log.timedOut + [el.sbp]))
    else
      Send(p, el.sbp)
  }

  function Drain(s: State, now: Time): State
    requires TidsOk(s)
    decreases |s.queue|
  {
    if |s.queue| > 0 && |s.readyq| > 0 then Drain(DrainOne(s, now), now) else s
  }

  /** chld_ready. */
  function ChldReady(s: State, i: nat, now: Time): State
    requires TidsOk(s) && i < |s.workers|
  {
    Drain(s.(readyq := s.readyq + [i]), now)
  }

  /** chld_reply up to its call of chld_ready, with the statistics already counted. */
  function Answered(s: State, i: nat): State
    requires i < |s.workers| && s.workers[i].sbp.Some?
  {
    var w := s.workers[i];
    s.(workers := s.workers[i := w.(sbp := None, status := Ready)],
       stats := s.stats.(out := s.stats.out + 1),
       log := s.log.(served := s.log.served + [Answer(w.sbp.value, w.result)]))
  }

  /** chld_msg. */
  function Read(s: State, now: Time): State
    requires TidsOk(s) && |s.pipe| > 0
    requires s.pipe[0].status == Reply ==> s.workers[s.pipe[0].tid].sbp.Some?
  {
    var m := s.pipe[0];
    var p := s.(pipe := s.pipe[1..]);
    if m.status == Ready then ChldReady(p, m.tid, now)
    else if m.status == Reply then ChldReady(Answered(p, m.tid), m.tid, now)
    else p
  }

  // ---- workers ----

  /** take_svccb. */
  function Take(w: Worker): Worker {
    w.(pc := if w.sbp.Some? then Serving(w.sbp.value) else Receiving)
  }

  /** run, from become_ready to the first msg_recv. */
  function Start(s: State, i: nat): State
    requires i < |s.workers|
  {
    s.(workers := s.workers[i := Take(s.workers[i].(status := Ready))], pipe := s.pipe + [Msg(i, Ready)])
  }

  /** The reply functions, and the way back to msg_recv. */
  function Finish(s: State, i: nat, r: Outcome): State
    requires i < |s.workers| && s.workers[i].pc.Serving?
  {
    var w := s.workers[i];
    s.(workers := s.workers[i := w.(pc := Receiving, status := Reply, result := r)],
       pipe := s.pipe + [Msg(i, Reply)],
       log := s.log.(computed := s.log.computed + [Answer(w.pc.req, r)]))
  }

  /** msg_recv returns CONTINUE and the loop of run comes round to take_svccb. */
  function Continue(s: State, i: nat): State
    requires i < |s.workers| && s.workers[i].tokens > 0
  {
    var w := s.workers[i];
    s.(workers := s.workers[i := Take(w.(tokens := w.tokens - 1))])
  }

  // ---- runs ----

  datatype Event =
    | Arrive(b: Req, async: bool, now: Time)
    | DispatcherReads(now: Time)
    | WorkerStarts(i: nat)
    | WorkerFinishes(i: nat, r: Outcome)
    | WorkerContinues(i: nat)

  predicate Enabled(s: State, e: Event) {
    match e
    case Arrive(_, _, _) => true
    case DispatcherReads(_) => |s.pipe| > 0
    case WorkerStarts(i) => i < |s.workers| && s.workers[i].pc.NotStarted?
    case WorkerFinishes(i, _) => i < |s.workers| && s.workers[i].pc.Serving?
    case WorkerContinues(i) => i < |s.workers| && s.workers[i].pc.Receiving? && s.workers[i].tokens > 0
  }

  /** No pointer the next event follows is out of place: the tids are those of workers, and a worker that replied
      still has its request. */
  predicate Safe(s: State) {
    && TidsOk(s)
    && forall k :: 0 <= k < |s.pipe| && s.pipe[k].status == Reply ==> s.workers[s.pipe[k].tid].sbp.Some?
  }

  function Step(s: State, e: Event): State
    requires Safe(s) && Enabled(s, e)
  {
    match e
    case Arrive(b, async, now) => Dispatch(s, b, async, now)
    case DispatcherReads(now) => Read(s, now)
    case WorkerStarts(i) => Start(s, i)
    case WorkerFinishes(i, r) => Finish(s, i, r)
    case WorkerContinues(i) => Continue(s, i)
  }
}
