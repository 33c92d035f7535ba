/** What every run of the worker dispatcher keeps. */
module DispatchSafety {
  import opened Bytes
  import opened DispatchModel

  /** The five states a worker and its cell can be in together. */
  predicate WorkerOk(w: Worker) {
    match w.pc
    case NotStarted => w.status == Startup && w.sbp == None && w.tokens == 0
    case Serving(b) => w.status == Working && w.sbp == Some(b) && w.tokens == 0
    case Receiving =>
      || (w.status == Ready && w.sbp == None && w.tokens == 0)
      || (w.status == Working && w.sbp.Some? && w.tokens == 1)
      || (w.status == Reply && w.sbp.Some? && w.tokens == 0)
  }

  /** Each worker is announced at most once, on the ready list or by one unread message, and as what its cell says. */
  predicate Announced(ws: seq<Worker>, readyq: seq<nat>, pipe: seq<Msg>) {
    && (forall k :: 0 <= k < |readyq| ==> readyq[k] < |ws| && ws[readyq[k]].status == Ready)
    && (forall k :: 0 <= k < |pipe| ==>
         && pipe[k].tid < |ws| && pipe[k].status == ws[pipe[k].tid].status
         && (pipe[k].status == Ready || pipe[k].status == Reply))
    && (forall j, k :: 0 <= j < k < |readyq| ==> readyq[j] != readyq[k])
    && (forall j, k :: 0 <= j < k < |pipe| ==> pipe[j].tid != pipe[k].tid)
    && (forall j, k :: 0 <= j < |readyq| && 0 <= k < |pipe| ==> readyq[j] != pipe[k].tid)
  }

  /** And every worker that waits for work, or has its reply waiting, is announced. */
  predicate NoneLost(ws: seq<Worker>, readyq: seq<nat>, pipe: seq<Msg>) {
    forall i :: 0 <= i < |ws| ==>
      && (ws[i].status == Ready ==> i in readyq || Msg(i, Ready) in pipe)
      && (ws[i].status == Reply ==> Msg(i, Reply) in pipe)
  }

  predicate Tokens(s: State) {
    && (forall i :: 0 <= i < |s.workers| ==> WorkerOk(s.workers[i]))
    && Announced(s.workers, s.readyq, s.pipe)
    && NoneLost(s.workers, s.readyq, s.pipe)
  }

  function Reqs(queue: seq<QueueEl>): (r: seq<Req>)
    ensures |r| == |queue|
  {
    seq(|queue|, i requires 0 <= i < |queue| => queue[i].sbp)
  }

  function Answerees(answers: seq<Answer>): (r: seq<Req>)
    ensures |r| == |answers|
  {
    seq(|answers|, i requires 0 <= i < |answers| => answers[i].req)
  }

  /** The requests in the workers' cells. */
  function Held(ws: seq<Worker>): multiset<Req> {
    if |ws| == 0 then multiset{}
    else
      Held(ws[..|ws| - 1]) + HeldBy(ws[|ws| - 1])
  }

  function HeldBy(w: Worker): multiset<Req> {
    if w.sbp.Some? then multiset{w.sbp.value} else multiset{}
  }

  lemma AddSwap(a: multiset<Req>, b: multiset<Req>, c: multiset<Req>)
    ensures a + b + c == a + c + b
  {
  }

  lemma {:induction false} HeldUpdate(ws: seq<Worker>, i: nat, w: Worker)
    requires i < |ws|
    ensures Held(ws[i := w]) + HeldBy(ws[i]) == Held(ws) + HeldBy(w)
  {
    var last := |ws| - 1;
    if i == last {
      assert ws[i := w][..last] == ws[..last];
    } else {
      var front := ws[..last];
      assert ws[i := w][..last] == front[i := w];
      HeldUpdate(front, i, w);
      AddSwap(Held(front[i := w]), HeldBy(ws[last]), HeldBy(ws[i]));
      AddSwap(Held(front), HeldBy(ws[last]), HeldBy(w));
    }
  }

  lemma HeldSame(ws: seq<Worker>, i: nat, w: Worker)
    requires i < |ws| && w.sbp == ws[i].sbp
    ensures Held(ws[i := w]) == Held(ws)
  {
    HeldUpdate(ws, i, w);
    assert Held(ws[i := w]) == Held(ws[i := w]) + HeldBy(w) - HeldBy(w) == Held(ws) + HeldBy(w) - HeldBy(w);
  }

  /** Every request that dispatch was called with went one of three ways. */
  predicate Admitted(l: Log) {
    multiset(l.arrived) == multiset(l.refused) + multiset(l.asynced) + multiset(l.accepted)
  }

  /** Accepted requests leave the dispatcher in the order they came, and the others are queued in that order. */
  predicate InOrder(l: Log, queue: seq<QueueEl>) {
    l.accepted == l.handled + Reqs(queue)
  }

  /** Those that left are answered or in a cell. */
  predicate Placed(l: Log, ws: seq<Worker>) {
    multiset(l.handled) == multiset(l.timedOut) + multiset(Answerees(l.served)) + Held(ws)
  }

  predicate Ledger(s: State) {
    Admitted(s.log) && InOrder(s.log, s.queue) && Placed(s.log, s.workers)
  }

  lemma AdmittedOne(l: Log, l': Log, b: Req)
    requires Admitted(l) && l'.arrived == l.arrived + [b]
    requires
      || (l'.refused == l.refused + [b] && l'.asynced == l.asynced && l'.accepted == l.accepted)
      || (l'.refused == l.refused && l'.asynced == l.asynced + [b] && l'.accepted == l.accepted)
      || (l'.refused == l.refused && l'.asynced == l.asynced && l'.accepted == l.accepted + [b])
    ensures Admitted(l')
  {
    assert multiset(l'.arrived) == multiset(l.arrived) + multiset{b};
    assert multiset(l.refused + [b]) == multiset(l.refused) + multiset{b};
    assert multiset(l.asynced + [b]) == multiset(l.asynced) + multiset{b};
    assert multiset(l.accepted + [b]) == multiset(l.accepted) + multiset{b};
  }

  lemma PlacedFrame(l: Log, l': Log, ws: seq<Worker>)
    requires Placed(l, ws) && l'.handled == l.handled && l'.timedOut == l.timedOut && l'.served == l.served
    ensures Placed(l', ws)
  {
  }

  /** A request moves into a cell. */
  lemma PlacedTake(l: Log, l': Log, ws: seq<Worker>, ws': seq<Worker>, b: Req)
    requires Placed(l, ws) && l'.handled == l.handled + [b] && l'.timedOut == l.timedOut && l'.served == l.served
    requires Held(ws') == Held(ws) + multiset{b}
    ensures Placed(l', ws')
  {
    hide Held;
    assert multiset(l'.handled) == multiset(l.handled) + multiset{b};
  }

  lemma PlacedTimeout(l: Log, l': Log, ws: seq<Worker>, b: Req)
    requires Placed(l, ws) && l'.handled == l.handled + [b] && l'.timedOut == l.timedOut + [b] && l'.served == l.served
    ensures Placed(l', ws)
  {
    hide Held;
    assert multiset(l'.handled) == multiset(l.handled) + multiset{b};
    assert multiset(l'.timedOut) == multiset(l.timedOut) + multiset{b};
  }

  /** A request leaves its cell with an answer. */
  lemma PlacedServe(l: Log, l': Log, ws: seq<Worker>, ws': seq<Worker>, a: Answer)
    requires Placed(l, ws) && l'.handled == l.handled && l'.timedOut == l.timedOut && l'.served == l.served + [a]
    requires Held(ws) == Held(ws') + multiset{a.req}
    ensures Placed(l', ws')
  {
    hide Held;
    assert Answerees(l'.served) == Answerees(l.served) + [a.req];
    assert multiset(Answerees(l'.served)) == multiset(Answerees(l.served)) + multiset{a.req};
  }

  predicate Counted(s: State) {
    && s.stats.rejects == s.log.base.rejects + |s.log.refused|
    && s.stats.async == s.log.base.async + |s.log.asynced|
    && s.stats.taken + s.stats.queued == s.log.base.taken + s.log.base.queued + |s.log.accepted|
    && s.stats.to == s.log.base.to + |s.log.timedOut|
    && s.stats.out == s.log.base.out + |s.log.served|
  }

  /** The answers whose REPLY messages are unread. */
  function Pending(pipe: seq<Msg>, ws: seq<Worker>): seq<Answer> {
    if |pipe| == 0 then []
    else Pending(pipe[..|pipe| - 1], ws) + PendingAt(pipe[|pipe| - 1], ws)
  }

  function PendingAt(m: Msg, ws: seq<Worker>): seq<Answer> {
    if m.status == Reply && m.tid < |ws| && ws[m.tid].sbp.Some?
    then [Answer(ws[m.tid].sbp.value, ws[m.tid].result)] else []
  }

  lemma {:induction false} PendingAppend(pipe: seq<Msg>, msgs: seq<Msg>, ws: seq<Worker>)
    ensures Pending(pipe + msgs, ws) == Pending(pipe, ws) + Pending(msgs, ws)
  {
    if |msgs| == 0 {
      assert pipe + msgs == pipe;
    } else {
      var front := msgs[..|msgs| - 1];
      assert (pipe + msgs)[..|pipe + msgs| - 1] == pipe + front;
      PendingAppend(pipe, front, ws);
    }
  }

  lemma PendingOne(m: Msg, ws: seq<Worker>)
    ensures Pending([m], ws) == PendingAt(m, ws)
  {
    assert [m][..0] == [];
  }

  lemma {:induction false} PendingFrame(pipe: seq<Msg>, ws: seq<Worker>, i: nat, w: Worker)
    requires i < |ws|
    requires forall k :: 0 <= k < |pipe| && pipe[k].status == Reply ==> pipe[k].tid != i
    ensures Pending(pipe, ws[i := w]) == Pending(pipe, ws)
  {
    if |pipe| > 0 {
      PendingFrame(pipe[..|pipe| - 1], ws, i, w);
    }
  }

  /** Requesters get, in order, exactly what workers answered to the requests they were dispatched with. */
  predicate Delivered(s: State) {
    s.log.computed == s.log.served + Pending(s.pipe, s.workers)
  }

  predicate Core(s: State) {
    Tokens(s) && Ledger(s) && Counted(s) && Delivered(s) && |s.queue| <= s.maxq
  }

  predicate Inv(s: State) {
    Core(s) && (|s.queue| == 0 || |s.readyq| == 0)
  }

  lemma InvSafe(s: State)
    requires Tokens(s)
    ensures Safe(s)
  {
  }

  // ---- send_svccb ----

  lemma SendTokens(s: State, b: Req)
    requires Tokens(s) && |s.readyq| > 0
    ensures s.readyq[0] < |s.workers| && s.workers[s.readyq[0]].status == Ready
    ensures Tokens(Send(s, b))
  {
    var s' := Send(s, b);
    var i0 := s.readyq[0];
    assert forall k :: 0 <= k < |s'.readyq| ==> s'.readyq[k] == s.readyq[k + 1];
    forall i | 0 <= i < |s'.workers|
      ensures s'.workers[i].status == Ready ==> i in s'.readyq || Msg(i, Ready) in s'.pipe
      ensures s'.workers[i].status == Reply ==> Msg(i, Reply) in s'.pipe
    {
      if i != i0 {
        assert s'.workers[i] == s.workers[i];
        if i in s.readyq {
          var k :| 0 <= k < |s.readyq| && s.readyq[k] == i;
          assert s'.readyq[k - 1] == i;
        }
      }
    }
  }

  lemma SendBooks(s: State, b: Req)
    requires Tokens(s) && |s.readyq| > 0
    ensures Held(Send(s, b).workers) == Held(s.workers) + multiset{b}
    ensures Placed(s.log, s.workers) ==> Placed(Send(s, b).log, Send(s, b).workers)
    ensures Pending(Send(s, b).pipe, Send(s, b).workers) == Pending(s.pipe, s.workers)
  {
    var i := s.readyq[0];
    HeldUpdate(s.workers, i, Send(s, b).workers[i]);
    PendingFrame(s.pipe, s.workers, i, Send(s, b).workers[i]);
    if Placed(s.log, s.workers) {
      PlacedTake(s.log, Send(s, b).log, s.workers, Send(s, b).workers, b);
    }
  }

  // ---- dispatch ----

  lemma DispatchTokens(s: State, b: Req, async: bool, now: Time)
    requires Tokens(s)
    ensures TidsOk(s) && Tokens(Dispatch(s, b, async, now))
  {
    InvSafe(s);
    if |s.queue| == 0 && |s.readyq| > 0 && s.maxq > 0 && !async {
      SendTokens(Taken(s, b), b);
    }
  }

  /** The state in which dispatch calls send_svccb. */
  function Taken(s: State, b: Req): State {
    s.(log := s.log.(arrived := s.log.arrived + [b], accepted := s.log.accepted + [b]),
       stats := s.stats.(taken := s.stats.taken + 1))
  }

  lemma DispatchBooks(s: State, b: Req, async: bool, now: Time)
    requires Tokens(s) && Ledger(s) && Counted(s) && Delivered(s) && TidsOk(s)
    ensures Ledger(Dispatch(s, b, async, now)) && Counted(Dispatch(s, b, async, now))
    ensures Delivered(Dispatch(s, b, async, now))
  {
    hide Held, Pending, Tokens, Placed, Admitted;
    var s' := Dispatch(s, b, async, now);
    AdmittedOne(s.log, s'.log, b);
    PlacedFrame(s.log, Taken(s, b).log, s.workers);
    if s'.log.handled == s.log.handled {
      PlacedFrame(s.log, s'.log, s.workers);
    }
    if |s.queue| < s.maxq && !async {
      if |s.queue| > 0 || |s.readyq| == 0 {
        assert Reqs(s'.queue) == Reqs(s.queue) + [b];
        assert s.log.handled + Reqs(s'.queue) == s.log.handled + Reqs(s.queue) + [b];
      } else {
        SendBooks(Taken(s, b), b) by { TakenTokens(s, b); }
        assert Reqs(s.queue) == [];
      }
    }
  }

  lemma TakenTokens(s: State, b: Req)
    requires Tokens(s)
    ensures Tokens(Taken(s, b))
  {
  }

  lemma DispatchKeeps(s: State, b: Req, async: bool, now: Time)
    requires Inv(s)
    ensures TidsOk(s) && Inv(Dispatch(s, b, async, now))
  {
    hide Tokens, Ledger, Counted, Delivered;
    InvSafe(s);
    DispatchTokens(s, b, async, now);
    DispatchBooks(s, b, async, now);
  }

  // ---- chld_ready's loop ----

  lemma DrainOneTokens(s: State, now: Time)
    requires Tokens(s) && |s.queue| > 0 && |s.readyq| > 0
    ensures TidsOk(s) && Tokens(DrainOne(s, now))
  {
    InvSafe(s);
    if now - s.queue[0].timein <= s.timeout {
      SendTokens(s.(queue := s.queue[1..]), s.queue[0].sbp);
    }
  }

  lemma DrainOneKeeps(s: State, now: Time)
    requires Core(s) && |s.queue| > 0 && |s.readyq| > 0
    ensures TidsOk(s) && Core(DrainOne(s, now))
  {
    InvSafe(s);
    var el := s.queue[0];
    var p := s.(queue := s.queue[1..]);
    assert Reqs(s.queue) == [el.sbp] + Reqs(p.queue);
    assert s.log.handled + Reqs(s.queue) == s.log.handled + [el.sbp] + Reqs(p.queue);
    if now - el.timein <= s.timeout {
      SendTokens(p, el.sbp);
      SendBooks(p, el.sbp);
    } else {
      PlacedTimeout(s.log, DrainOne(s, now).log, s.workers, el.sbp);
    }
  }

  lemma {:induction false} DrainKeeps(s: State, now: Time)
    requires Core(s)
    ensures TidsOk(s) && Inv(Drain(s, now))
    decreases |s.queue|
  {
    hide Core, Tokens;
    assert TidsOk(s) by { CoreSafe(s); }
    if |s.queue| > 0 && |s.readyq| > 0 {
      DrainOneKeeps(s, now);
      DrainKeeps(DrainOne(s, now), now);
    }
  }

  lemma CoreSafe(s: State)
    requires Core(s)
    ensures Safe(s)
  {
  }

  // ---- chld_msg ----

  /** The state in which chld_msg enters chld_ready's loop. */
  function BeforeDrain(s: State): State
    requires Safe(s) && |s.pipe| > 0
  {
    var m := s.pipe[0];
    var p := s.(pipe := s.pipe[1..]);
    var a := if m.status == Reply then Answered(p, m.tid) else p;
    a.(readyq := a.readyq + [m.tid])
  }

  lemma BeforeDrainTokens(s: State)
    requires Tokens(s) && |s.pipe| > 0
    ensures s.pipe[0].status == Ready || s.pipe[0].status == Reply
    ensures Safe(s) && Tokens(BeforeDrain(s))
  {
    hide NoneLost;
    InvSafe(s);
    var s' := BeforeDrain(s);
    var t := s.pipe[0].tid;
    assert forall k :: 0 <= k < |s'.pipe| ==> s'.pipe[k] == s.pipe[k + 1];
    assert s'.readyq[|s.readyq|] == t;
    assert forall k :: 0 <= k < |s.readyq| ==> s'.readyq[k] == s.readyq[k];
    ReadLosesNone(s.workers, s'.workers, s.readyq, s.pipe);
  }

  lemma ReadLosesNone(ws: seq<Worker>, ws': seq<Worker>, readyq: seq<nat>, pipe: seq<Msg>)
    requires NoneLost(ws, readyq, pipe) && |pipe| > 0 && |ws'| == |ws|
    requires forall i :: 0 <= i < |ws| && i != pipe[0].tid ==> ws'[i] == ws[i]
    requires pipe[0].tid < |ws| ==> ws'[pipe[0].tid].status == Ready
    ensures NoneLost(ws', readyq + [pipe[0].tid], pipe[1..])
  {
    var readyq', pipe' := readyq + [pipe[0].tid], pipe[1..];
    assert readyq'[|readyq|] == pipe[0].tid;
    forall i | 0 <= i < |ws'|
      ensures ws'[i].status == Ready ==> i in readyq' || Msg(i, Ready) in pipe'
      ensures ws'[i].status == Reply ==> Msg(i, Reply) in pipe'
    {
      if i != pipe[0].tid {
        var m := Msg(i, ws[i].status);
        if m in pipe {
          var k :| 0 <= k < |pipe| && pipe[k] == m;
          assert pipe'[k - 1] == m;
        }
      }
    }
  }

  lemma BeforeDrainBooks(s: State)
    requires Tokens(s) && Ledger(s) && Counted(s) && Delivered(s) && Safe(s) && |s.pipe| > 0
    ensures Ledger(BeforeDrain(s)) && Counted(BeforeDrain(s)) && Delivered(BeforeDrain(s))
  {
    hide Held, Pending, Tokens, Placed;
    var s' := BeforeDrain(s);
    var m := s.pipe[0];
    var rest := s.pipe[1..];
    assert s.pipe == [m] + rest;
    PendingAppend([m], rest, s.workers);
    PendingOne(m, s.workers);
    if m.status == Reply {
      var w := s.workers[m.tid];
      var a := Answer(w.sbp.value, w.result);
      HeldUpdate(s.workers, m.tid, s'.workers[m.tid]);
      PlacedServe(s.log, s'.log, s.workers, s'.workers, a);
      PendingFrame(rest, s.workers, m.tid, s'.workers[m.tid]) by { OneMessage(s); }
      assert s.log.served + ([a] + Pending(rest, s.workers)) == s.log.served + [a] + Pending(rest, s.workers);
    }
  }

  lemma OneMessage(s: State)
    requires Tokens(s) && |s.pipe| > 0
    ensures forall k :: 0 <= k < |s.pipe[1..]| ==> s.pipe[1..][k].tid != s.pipe[0].tid
  {
  }

  lemma ReadKeeps(s: State, now: Time)
    requires Inv(s) && |s.pipe| > 0
    ensures Safe(s) && Inv(Read(s, now))
  {
    hide Tokens, Ledger, Counted, Delivered;
    InvSafe(s);
    BeforeDrainTokens(s);
    BeforeDrainBooks(s);
    DrainKeeps(BeforeDrain(s), now);
  }

  // ---- workers ----

  lemma StartKeeps(s: State, i: nat)
    requires Inv(s) && i < |s.workers| && s.workers[i].pc.NotStarted?
    ensures Inv(Start(s, i))
  {
    var s' := Start(s, i);
    assert Tokens(s') by { AnnounceKeeps(s, s', i, Ready); }
    assert NoReplyOf(s, i);
    PendingOne(Msg(i, Ready), s'.workers);
    WorkerBooks(s, s', i, [Msg(i, Ready)]) by { hide Tokens; }
  }

  lemma FinishKeeps(s: State, i: nat, r: Outcome)
    requires Inv(s) && i < |s.workers| && s.workers[i].pc.Serving?
    ensures Inv(Finish(s, i, r))
  {
    var s' := Finish(s, i, r);
    assert Tokens(s') by { AnnounceKeeps(s, s', i, Reply); }
    assert NoReplyOf(s, i);
    PendingOne(Msg(i, Reply), s'.workers);
    WorkerBooks(s, s', i, [Msg(i, Reply)]) by { hide Tokens; }
  }

  lemma ContinueKeeps(s: State, i: nat)
    requires Inv(s) && i < |s.workers| && s.workers[i].pc.Receiving? && s.workers[i].tokens > 0
    ensures Inv(Continue(s, i))
    ensures s.workers[i].sbp.Some? && Continue(s, i).workers[i].pc == Serving(s.workers[i].sbp.value)
  {
    var s' := Continue(s, i);
    assert WorkerOk(s.workers[i]);
    assert Tokens(s') by { QuietStep(s, s', i); }
    assert NoReplyOf(s, i);
    WorkerBooks(s, s', i, []) by { hide Tokens; }
  }

  predicate NoReplyOf(s: State, i: nat) {
    forall k :: 0 <= k < |s.pipe| && s.pipe[k].status == Reply ==> s.pipe[k].tid != i
  }

  /** What a worker does with its own request in its own cell keeps the books, if it logs the answer it announces. */
  lemma WorkerBooks(s: State, s': State, i: nat, msgs: seq<Msg>)
    requires i < |s.workers| && Ledger(s) && Counted(s) && Delivered(s) && NoReplyOf(s, i)
    requires |s'.workers| == |s.workers| && s'.workers == s.workers[i := s'.workers[i]]
    requires s'.workers[i].sbp == s.workers[i].sbp
    requires s'.queue == s.queue && s'.stats == s.stats
    requires s'.log == s.log.(computed := s'.log.computed)
    requires s'.pipe == s.pipe + msgs && s'.log.computed == s.log.computed + Pending(msgs, s'.workers)
    ensures Ledger(s') && Counted(s') && Delivered(s')
  {
    hide Held, Answerees, Reqs, Pending;
    HeldSame(s.workers, i, s'.workers[i]);
    WorkerDelivers(s.log.computed, s.log.served, s.pipe, msgs, s.workers, i, s'.workers[i]);
  }

  lemma WorkerDelivers(computed: seq<Answer>, served: seq<Answer>, pipe: seq<Msg>, msgs: seq<Msg>,
                       ws: seq<Worker>, i: nat, w: Worker)
    requires i < |ws| && computed == served + Pending(pipe, ws)
    requires forall k :: 0 <= k < |pipe| && pipe[k].status == Reply ==> pipe[k].tid != i
    ensures computed + Pending(msgs, ws[i := w]) == served + Pending(pipe + msgs, ws[i := w])
  {
    hide Pending;
    PendingFrame(pipe, ws, i, w);
    PendingAppend(pipe, msgs, ws[i := w]);
  }

  /** A worker whose status stays announces nothing. */
  lemma QuietStep(s: State, s': State, i: nat)
    requires Tokens(s) && i < |s.workers|
    requires |s'.workers| == |s.workers| && s'.workers == s.workers[i := s'.workers[i]]
    requires WorkerOk(s'.workers[i]) && s'.workers[i].status == s.workers[i].status
    requires s'.pipe == s.pipe && s'.readyq == s.readyq
    ensures Tokens(s')
  {
    hide WorkerOk;
  }

  /** A worker that was not announced announces itself. */
  lemma AnnounceKeeps(s: State, s': State, i: nat, status: Status)
    requires Tokens(s) && i < |s.workers| && (s.workers[i].status == Startup || s.workers[i].status == Working)
    requires |s'.workers| == |s.workers| && s'.workers == s.workers[i := s'.workers[i]]
    requires WorkerOk(s'.workers[i]) && s'.workers[i].status == status && (status == Ready || status == Reply)
    requires s'.pipe == s.pipe + [Msg(i, status)] && s'.readyq == s.readyq
    ensures Tokens(s')
  {
    assert s'.pipe[|s.pipe|] == Msg(i, status);
    assert forall k :: 0 <= k < |s.pipe| ==> s'.pipe[k] == s.pipe[k];
    forall j | 0 <= j < |s'.workers|
      ensures s'.workers[j].status == Ready ==> j in s'.readyq || Msg(j, Ready) in s'.pipe
      ensures s'.workers[j].status == Reply ==> Msg(j, Reply) in s'.pipe
    {
    }
  }

  // ---- runs ----

  lemma InitHolds(n: nat, maxq: nat, timeout: int, base: Stats)
    ensures Inv(Init(n, maxq, timeout, base))
  {
    hide Held;
    HeldNone(Init(n, maxq, timeout, base).workers);
  }

  lemma {:induction false} HeldNone(ws: seq<Worker>)
    requires forall i :: 0 <= i < |ws| ==> ws[i].sbp == None
    ensures Held(ws) == multiset{}
  {
    if |ws| > 0 {
      HeldNone(ws[..|ws| - 1]);
    }
  }

  lemma StepKeeps(s: State, e: Event)
    requires Inv(s) && Enabled(s, e)
    ensures Safe(s) && Inv(Step(s, e))
  {
    hide Core, Read, Dispatch, Start, Finish, Continue;
    assert Safe(s) by { CoreSafe(s); }
    match e {
      case Arrive(b, async, now) => DispatchKeeps(s, b, async, now);
      case DispatcherReads(now) => ReadKeeps(s, now);
      case WorkerStarts(i) => StartKeeps(s, i);
      case WorkerFinishes(i, r) => FinishKeeps(s, i, r);
      case WorkerContinues(i) => ContinueKeeps(s, i);
    }
  }
}
