/** The I/O request queue and its synchronous waiters, on top of the scheduler's state machine. */
module IoSpec {
  import opened Sequences
  import opened SchedSpec

  type Req = nat

  /** The request that was last claimed, and whether the device has it yet: the pointer that its claimer
      holds, not a position of the queue. */
  datatype Device = Free | Claimed(req: Req) | Started(req: Req)

  datatype Io = Io(
    s: Sched,
    queue: seq<Req>,          // the `in` list
    busy: int,
    device: Device,
    done: map<Req, bool>,     // every request submitted so far
    waiting: map<Tid, Req>,   // threads between the first check of their wait and its return
    submitted: seq<Req>, started: seq<Req>, completed: seq<Req>)

  // ---- Invariant ----

  /** The queue is served one request at a time, in order: what was claimed or started is its head. */
  ghost predicate QueueOk(k: Io) {
    && k.busy == (if k.device == Free then 0 else 1)
    && (k.queue == [] <==> k.device == Free)
    && (k.queue != [] ==> k.device == Claimed(k.queue[0]) || k.device == Started(k.queue[0]))
    && (forall i, j :: 0 <= i < j < |k.queue| ==> k.queue[i] != k.queue[j])
    && (forall r :: r in k.queue ==> r in k.done)
    && (forall r :: r in k.done ==> (k.done[r] <==> r !in k.queue))
  }

  /** Requests start and complete in submission order, each submission once. */
  ghost predicate HistoryOk(k: Io) {
    && k.submitted == k.completed + k.queue
    && k.started == k.completed + if k.device.Started? then [k.device.req] else []
  }

  predicate OnQ(s: Sched, q: Queue, t: Tid) {
    t in s.Q(q)
  }

  /** Only a waiter for an unfinished request is on its completion queue; a waiter whose request is
      unfinished is on that queue; a waiter is on no other queue. */
  ghost predicate WaitersServed(k: Io) {
    && (forall t, r :: OnQ(k.s, IocQ(r), t) ==> t in k.waiting && k.waiting[t] == r && r in k.done && !k.done[r])
    && (forall t :: t in k.waiting ==> t in k.s.state && t != k.s.idle && k.waiting[t] in k.done)
    && (forall t :: t in k.waiting && !k.done[k.waiting[t]] ==> OnQ(k.s, IocQ(k.waiting[t]), t))
    && (forall t, q :: t in k.waiting && OnQ(k.s, q, t) ==> q == IocQ(k.waiting[t]))
  }

  ghost predicate InvIo(k: Io): (b: bool)
    ensures b ==> k.s.current in k.s.state
  {
    Inv(k.s) && QueueOk(k) && HistoryOk(k) && WaitersServed(k)
  }

  // ---- Steps ----

  datatype IoStep =
    | Threads(a: Step)        // any step of the scheduler's own machine
    | Submit(r: Req)
    | Start
    | Complete
    | WaitEnter(r: Req)
    | WaitCheck

  /** The current thread is at liberty: running, not idle, and not inside a wait. */
  predicate AtLiberty(k: Io) {
    k.s.current in k.s.state && k.s.Runs() && k.s.current != k.s.idle && k.s.current !in k.waiting
  }

  /** A request is resubmitted only when it is off the queue and its waiters have returned.  The device
      reports completion only for a started request. */
  ghost predicate CanStep(k: Io, a: IoStep) {
    k.s.current in k.s.state &&
    match a
    case Threads(b) =>
      Enabled(k.s, b) && ((b.WaitOn? || b.Lock? || b.Unlock?) ==> k.s.current !in k.waiting)
    case Submit(r) => AtLiberty(k) && r !in k.queue && forall t :: t in k.waiting ==> k.waiting[t] != r
    case Start => k.device.Claimed?
    case Complete => k.device.Started? && k.queue != []
    case WaitEnter(r) => AtLiberty(k) && r in k.done
    case WaitCheck => k.s.current in k.waiting && k.waiting[k.s.current] in k.done
  }

  /** Claim the head of the queue, if there is one and none is claimed. */
  function Claim(k: Io): Io {
    if k.busy == 0 && k.queue != [] then k.(busy := k.busy + 1, device := Claimed(k.queue[0])) else k
  }

  /** Hand the claimed request to the device. */
  function Run(k: Io): Io {
    if k.device.Claimed? then k.(device := Started(k.device.req), started := k.started + [k.device.req]) else k
  }

  function NextIo(k: Io, a: IoStep): Io
    requires CanStep(k, a)
  {
    match a
    case Threads(b) => k.(s := Next(k.s, b))
    case Submit(r) =>
      Claim(k.(s := k.s.(wq := k.s.wq[IocQ(r) := []]), done := k.done[r := false], queue := k.queue + [r],
               submitted := k.submitted + [r]))
    case Start => Run(k)
    case Complete =>
      var r := k.queue[0];
      Run(Claim(k.(s := WakeAll(k.s, IocQ(r)), busy := k.busy - 1, device := Free, queue := k.queue[1..],
                   done := k.done[r := true], completed := k.completed + [r])))
    case WaitEnter(r) =>
      if k.done[r] then k
      else k.(s := Enqueue(k.s, IocQ(r)), waiting := k.waiting[k.s.current := r])
    case WaitCheck =>
      if k.done[k.waiting[k.s.current]] then k.(waiting := k.waiting - {k.s.current}) else k
  }

  // ---- Preservation ----

  /** Steps that leave the mutexes and their queues alone keep them right. */
  lemma OtherQueues(s: Sched, n: Sched)
    requires MutexOk(s) && n.lock == s.lock && n.holds == s.holds
    requires forall m :: n.Q(MutexQ(m)) == s.Q(MutexQ(m))
    ensures MutexOk(n)
  {
    forall m | m in n.lock ensures exists t :: (t, m) in n.holds {
      var t :| (t, m) in s.holds;
      assert (t, m) in n.holds;
    }
  }

  lemma ClearedQueueLocated(s: Sched, r: Req)
    requires Located(s) && s.Q(IocQ(r)) == []
    ensures Located(s.(wq := s.wq[IocQ(r) := []]))
  {
    ClearedQueueWaiters(s, r);
    ClearedQueueQueues(s, r);
    hide Distinct, WaitersOk, QueuesOk;
  }

  lemma ClearedQueueWaiters(s: Sched, r: Req)
    requires Located(s) && s.Q(IocQ(r)) == []
    ensures WaitersOk(s.(wq := s.wq[IocQ(r) := []]))
  {
    hide ReadyOk, QueuesOk, CurrentOk;
    var n := s.(wq := s.wq[IocQ(r) := []]);
    forall t | OnSome(s, t) ensures OnSome(n, t) {
      var q :| q in s.wq && t in s.wq[q];
      assert t in n.wq[q];
    }
    hide OnSome;
  }

  lemma ClearedQueueQueues(s: Sched, r: Req)
    requires Located(s)
    ensures QueuesOk(s.(wq := s.wq[IocQ(r) := []]))
  {
    var n := s.(wq := s.wq[IocQ(r) := []]);
    FewerQueued(s, n);
  }

  /** Queues that are as they were, or empty, are still in order. */
  lemma FewerQueued(s: Sched, n: Sched)
    requires QueuesOk(s) && n.state == s.state && n.idle == s.idle
    requires forall q :: q in n.wq ==> n.wq[q] == [] || (q in s.wq && n.wq[q] == s.wq[q])
    ensures QueuesOk(n)
  {
    assert s.state == n.state;
    forall q, t | q in n.wq && t in n.wq[q] ensures t in n.state && n.state[t] == q.Tag() && t != n.idle {
      assert q in s.wq && t in s.wq[q];
      assert t in s.state && s.state[t] == q.Tag();
    }
  }

  // The queue and its history.

  lemma SubmitQueue(k: Io, r: Req)
    requires QueueOk(k) && HistoryOk(k) && r !in k.queue && k.s.current in k.s.state
    requires CanStep(k, Submit(r))
    ensures QueueOk(NextIo(k, Submit(r))) && HistoryOk(NextIo(k, Submit(r)))
  {
    var n := NextIo(k, Submit(r));
    assert n.queue == k.queue + [r];
    assert n.submitted == n.completed + n.queue;
    if k.queue != [] {
      assert n.queue[0] == k.queue[0];
    }
  }

  lemma StartQueue(k: Io)
    requires QueueOk(k) && HistoryOk(k) && CanStep(k, Start)
    ensures QueueOk(NextIo(k, Start)) && HistoryOk(NextIo(k, Start))
  {
  }

  lemma CompleteQueue(k: Io)
    requires QueueOk(k) && HistoryOk(k) && CanStep(k, Complete)
    ensures QueueOk(NextIo(k, Complete)) && HistoryOk(NextIo(k, Complete))
  {
    hide WakeAll;
    var n := NextIo(k, Complete);
    assert k.queue == [k.queue[0]] + k.queue[1..];
    assert n.queue == k.queue[1..];
    assert n.submitted == n.completed + n.queue;
    forall r | r in n.done ensures n.done[r] <==> r !in n.queue {
      assert r in k.queue <==> r == k.queue[0] || r in k.queue[1..];
    }
  }

  // The scheduler's part.

  lemma SubmitSched(k: Io, r: Req)
    requires InvIo(k) && CanStep(k, Submit(r))
    ensures k.s.Q(IocQ(r)) == [] && Inv(NextIo(k, Submit(r)).s)
  {
    QueueEmpty(k.s, IocQ(r));
    hide Located, MutexOk, OnQ;
    ClearedQueueLocated(k.s, r);
    OtherQueues(k.s, NextIo(k, Submit(r)).s);
  }

  lemma CompleteSched(k: Io)
    requires Inv(k.s) && CanStep(k, Complete)
    ensures Inv(NextIo(k, Complete).s)
  {
    hide Located, MutexOk;
    WakeLocated(k.s, IocQ(k.queue[0]));
    OtherQueues(k.s, NextIo(k, Complete).s);
  }

  lemma WaitEnterSched(k: Io, r: Req)
    requires Inv(k.s) && CanStep(k, WaitEnter(r))
    ensures Inv(NextIo(k, WaitEnter(r)).s)
  {
    hide Located, MutexOk;
    if !k.done[r] {
      EnqueueLocated(k.s, IocQ(r));
      OtherQueues(k.s, NextIo(k, WaitEnter(r)).s);
    }
  }

  lemma QueueEmpty(s: Sched, q: Queue)
    ensures s.Q(q) == [] <==> forall t :: !OnQ(s, q, t)
  {
    assert s.Q(q) != [] ==> OnQ(s, q, s.Q(q)[0]);
  }

  lemma NotQueuedWhileRunning(s: Sched)
    requires Located(s) && s.Runs()
    ensures forall q :: !OnQ(s, q, s.current)
  {
  }

  // The waiters.

  lemma SubmitEffect(k: Io, r: Req)
    requires CanStep(k, Submit(r)) && k.s.Q(IocQ(r)) == []
    ensures var n := NextIo(k, Submit(r));
            && n.waiting == k.waiting && n.done == k.done[r := false]
            && n.s.state == k.s.state && n.s.idle == k.s.idle
            && forall q, t :: OnQ(n.s, q, t) <==> OnQ(k.s, q, t)
  {
  }

  lemma SubmitWaiters(k: Io, r: Req)
    requires InvIo(k) && CanStep(k, Submit(r))
    ensures WaitersServed(NextIo(k, Submit(r)))
  {
    hide Inv, QueueOk, HistoryOk, NextIo, OnQ, AtLiberty;
    SubmitSched(k, r);
    SubmitEffect(k, r);
  }

  lemma CompleteEffect(k: Io)
    requires CanStep(k, Complete)
    ensures var n := NextIo(k, Complete);
            && n.waiting == k.waiting && n.done == k.done[k.queue[0] := true]
            && n.s.state.Keys == k.s.state.Keys && n.s.idle == k.s.idle
            && forall q, t :: OnQ(n.s, q, t) <==> q != IocQ(k.queue[0]) && OnQ(k.s, q, t)
  {
    hide Without;
  }

  lemma CompleteWaiters(k: Io)
    requires InvIo(k) && CanStep(k, Complete)
    ensures WaitersServed(NextIo(k, Complete))
  {
    hide Inv, QueueOk, HistoryOk, NextIo, OnQ;
    CompleteEffect(k);
  }

  lemma WaitEnterEffect(k: Io, r: Req)
    requires CanStep(k, WaitEnter(r)) && !k.done[r]
    ensures var n := NextIo(k, WaitEnter(r));
            && n.waiting == k.waiting[k.s.current := r] && n.done == k.done
            && n.s.state.Keys == k.s.state.Keys && n.s.idle == k.s.idle
            && forall q, t :: OnQ(n.s, q, t) <==> OnQ(k.s, q, t) || (q == IocQ(r) && t == k.s.current)
  {
  }

  lemma WaitEnterQueued(k: Io, r: Req)
    requires InvIo(k) && CanStep(k, WaitEnter(r)) && !k.done[r]
    ensures WaitersServed(NextIo(k, WaitEnter(r)))
  {
    hide Inv, QueueOk, HistoryOk, NextIo, OnQ;
    LibertyOffQueues(k);
    WaitEnterEffect(k, r);
  }

  lemma LibertyOffQueues(k: Io)
    requires InvIo(k) && AtLiberty(k)
    ensures forall q :: !OnQ(k.s, q, k.s.current)
  {
    hide QueueOk, HistoryOk, WaitersServed;
    NotQueuedWhileRunning(k.s);
  }

  lemma WaitEnterWaiters(k: Io, r: Req)
    requires InvIo(k) && CanStep(k, WaitEnter(r))
    ensures WaitersServed(NextIo(k, WaitEnter(r)))
  {
    if !k.done[r] {
      WaitEnterQueued(k, r);
    } else {
      assert NextIo(k, WaitEnter(r)) == k;
    }
  }

  lemma WaitCheckWaiters(k: Io)
    requires InvIo(k) && CanStep(k, WaitCheck)
    ensures WaitersServed(NextIo(k, WaitCheck))
  {
    hide Inv, HistoryOk, QueueOk, OnQ;
    var n := NextIo(k, WaitCheck);
    assert forall t, r :: OnQ(k.s, IocQ(r), t) ==> k.waiting[t] == r && !k.done[r];
  }

  /** The queues after a scheduler step: only ordinary and mutex queues change, and what they gain is
      the current thread. */
  lemma ThreadsEffect(s: Sched, b: Step)
    requires Enabled(s, b)
    ensures forall r, t :: OnQ(Next(s, b), IocQ(r), t) <==> OnQ(s, IocQ(r), t)
    ensures forall q, t :: OnQ(Next(s, b), q, t) ==> OnQ(s, q, t) || (t == s.current && (b.WaitOn? || b.Lock?))
    ensures Next(s, b).idle == s.idle
  {
    hide Without;
  }

  lemma ThreadsKept(s: Sched, b: Step)
    requires Inv(s) && Enabled(s, b)
    ensures s.state.Keys <= Next(s, b).state.Keys
  {
    AssertionsHold(s);
    assert |s.ready| > 1 ==> s.ready[1] in s.ready;
    assert s.ready != [] ==> s.ready[0] in s.ready;
  }

  lemma ThreadsWaiters(k: Io, b: Step)
    requires InvIo(k) && CanStep(k, Threads(b))
    ensures WaitersServed(NextIo(k, Threads(b)))
  {
    hide Inv, HistoryOk, QueueOk, Next, Enabled, OnQ;
    ThreadsEffect(k.s, b);
    ThreadsKept(k.s, b);
    var n := NextIo(k, Threads(b));
    assert n.done == k.done && n.waiting == k.waiting && n.s == Next(k.s, b);
    hide NextIo;
    forall t, q | t in n.waiting && OnQ(n.s, q, t) ensures q == IocQ(n.waiting[t]) {
      assert OnQ(k.s, q, t);
    }
    forall t, r | OnQ(n.s, IocQ(r), t) ensures t in n.waiting && n.waiting[t] == r && r in n.done && !n.done[r] {
      assert OnQ(k.s, IocQ(r), t);
    }
  }

  lemma NextIoInv(k: Io, a: IoStep)
    requires InvIo(k) && CanStep(k, a)
    ensures InvIo(NextIo(k, a))
  {
    hide Inv, WaitersServed;
    match a {
      case Threads(b) =>
        NextInv(k.s, b);
        ThreadsWaiters(k, b);
      case Submit(r) =>
        SubmitQueue(k, r);
        SubmitSched(k, r);
        SubmitWaiters(k, r);
      case Start =>
        StartQueue(k);
        SameWaiters(k, NextIo(k, Start));
      case Complete =>
        CompleteQueue(k);
        CompleteSched(k);
        CompleteWaiters(k);
      case WaitEnter(r) =>
        WaitEnterSched(k, r);
        WaitEnterWaiters(k, r);
      case WaitCheck =>
        WaitCheckWaiters(k);
    }
    CurrentKnown(NextIo(k, a).s);
    hide QueueOk, HistoryOk, NextIo;
  }

  lemma CurrentKnown(s: Sched)
    requires Inv(s)
    ensures s.current in s.state
  {
  }

  lemma SameWaiters(k: Io, n: Io)
    requires WaitersServed(k) && n.s == k.s && n.done == k.done && n.waiting == k.waiting
    ensures WaitersServed(n)
  {
  }

  // ---- Runs ----

  function InitialIo(s: Sched): Io {
    Io(s, [], 0, Free, map[], map[], [], [], [])
  }

  lemma InitialIoInv(main: Tid, idle: Tid)
    requires main != idle
    ensures InvIo(InitialIo(Initial(main, idle)))
  {
    InitialInv(main, idle);
    hide Inv;
    var k := InitialIo(Initial(main, idle));
    assert forall q, t :: !OnQ(k.s, q, t);
    assert k.submitted == k.completed + k.queue;
    assert k.started == k.completed + [];
  }

  ghost predicate PossibleIo(k: Io, steps: seq<IoStep>)
    decreases |steps|
  {
    steps == [] || (CanStep(k, steps[0]) && PossibleIo(NextIo(k, steps[0]), steps[1..]))
  }

  ghost function RunIo(k: Io, steps: seq<IoStep>): Io
    requires PossibleIo(k, steps)
    decreases |steps|
  {
    if steps == [] then k else RunIo(NextIo(k, steps[0]), steps[1..])
  }

  /** Over every interleaving: at most one request is claimed or at the device, it is the head, requests
      start and complete once each in submission order, and no waiter is forgotten. */
  lemma {:induction false} RunIoInv(k: Io, steps: seq<IoStep>)
    requires InvIo(k) && PossibleIo(k, steps)
    ensures InvIo(RunIo(k, steps))
    decreases |steps|
  {
    hide InvIo, NextIo, CanStep;
    if steps != [] {
      NextIoInv(k, steps[0]);
      RunIoInv(NextIo(k, steps[0]), steps[1..]);
    }
  }

  /** Over every run from boot, whatever threads, submitters, waiters and the device do: `busy` is 0 or 1, and
      1 exactly while the queue is not empty, and then the one request claimed or at the device is the
      head; requests start and complete in the order of submission, one at a time; a request is done
      iff it is off the queue, and then nobody is left waiting on its queue; until then all its
      waiters are there. */
  lemma IoSafety(main: Tid, idle: Tid, steps: seq<IoStep>)
    requires main != idle && PossibleIo(InitialIo(Initial(main, idle)), steps)
    ensures var k := RunIo(InitialIo(Initial(main, idle)), steps);
            && k.busy == (if k.queue == [] then 0 else 1)
            && (k.queue == [] ==> k.device == Free)
            && (k.queue != [] ==> k.device == Claimed(k.queue[0]) || k.device == Started(k.queue[0]))
            && k.submitted == k.completed + k.queue
            && k.completed <= k.started <= k.submitted && |k.started| <= |k.completed| + 1
            && (forall r :: r in k.done ==> (k.done[r] <==> r !in k.queue))
            && (forall r :: r in k.done && k.done[r] ==> k.s.Q(IocQ(r)) == [])
            && (forall t :: t in k.waiting ==>
                  k.waiting[t] in k.done && (k.done[k.waiting[t]] || t in k.s.Q(IocQ(k.waiting[t]))))
  {
    InitialIoInv(main, idle);
    RunIoInv(InitialIo(Initial(main, idle)), steps);
    var k := RunIo(InitialIo(Initial(main, idle)), steps);
    hide RunIo, PossibleIo, InitialIo;
    InOrder(k);
    forall r | r in k.done && k.done[r] ensures k.s.Q(IocQ(r)) == [] {
      NoLostWakeup(k, r);
    }
    hide Inv;
    assert forall t :: t in k.waiting && !k.done[k.waiting[t]] ==> OnQ(k.s, IocQ(k.waiting[t]), t);
  }

  lemma InOrder(k: Io)
    requires InvIo(k)
    ensures k.completed <= k.started <= k.submitted && |k.started| <= |k.completed| + 1
  {
    hide Inv, WaitersServed;
    if k.device.Started? {
      assert k.submitted == k.started + k.queue[1..];
    }
  }

  // ---- What the invariant means ----

  lemma OnSomeIsOnQ(s: Sched, t: Tid)
    ensures OnSome(s, t) <==> exists q :: OnQ(s, q, t)
  {
    if OnSome(s, t) {
      var q :| q in s.wq && t in s.wq[q];
      assert OnQ(s, q, t);
    }
    if q :| OnQ(s, q, t) {
      assert q in s.wq && t in s.wq[q];
    }
  }

  /** No lost wake-up: once a request is done nobody is left on its completion queue, and a thread that
      waits for it is running or ready, on no queue. */
  lemma NoLostWakeup(k: Io, r: Req)
    requires InvIo(k) && r in k.done && k.done[r]
    ensures k.s.Q(IocQ(r)) == []
    ensures forall t :: t in k.waiting && k.waiting[t] == r ==>
              t in k.s.state && (k.s.state[t] == Running || k.s.state[t] == Ready) && !OnSome(k.s, t)
  {
    hide QueueOk, HistoryOk;
    QueueEmpty(k.s, IocQ(r));
    forall t | t in k.waiting && k.waiting[t] == r
      ensures t in k.s.state && (k.s.state[t] == Running || k.s.state[t] == Ready) && !OnSome(k.s, t)
    {
      OnSomeIsOnQ(k.s, t);
    }
  }

  /** The wait returns only with the request done, and then the caller runs and is on no queue. */
  lemma WaitReturns(k: Io)
    requires InvIo(k) && CanStep(k, WaitCheck) && k.s.current !in NextIo(k, WaitCheck).waiting
    ensures k.done[k.waiting[k.s.current]] && k.s.Runs() && !OnSome(k.s, k.s.current)
  {
    NoLostWakeup(k, k.waiting[k.s.current]);
  }

  /** While its request is not done a waiter can be reached by the completion: it is on the queue. */
  lemma UnfinishedWaiterIsQueued(k: Io, t: Tid)
    requires InvIo(k) && t in k.waiting && !k.done[k.waiting[t]]
    ensures t in k.s.Q(IocQ(k.waiting[t])) && k.waiting[t] in k.queue
    ensures k.s.state[t] == Waiting
  {
    hide HistoryOk, MutexOk, ReadyOk, WaitersOk, CurrentOk;
    assert OnQ(k.s, IocQ(k.waiting[t]), t);
  }

  /** What a completion unlinks and marks done is the request that the device was given. */
  lemma CompletesTheStarted(k: Io)
    requires InvIo(k) && CanStep(k, Complete)
    ensures var n := NextIo(k, Complete);
            && n.completed == k.completed + [k.device.req] && k.device.req in n.done && n.done[k.device.req]
            && k.queue == [k.device.req] + n.queue
            && (n.queue != [] ==> n.device == Started(n.queue[0]))
  {
    hide Inv, WaitersServed;
  }

  // ---- Requests complete in turn ----

  function Completions(steps: seq<IoStep>): nat {
    if steps == [] then 0 else (if steps[0] == Complete then 1 else 0) + Completions(steps[1..])
  }

  /** A completion takes the head off the queue; other steps only add to its back. */
  lemma QueueMoves(k: Io, a: IoStep)
    requires InvIo(k) && CanStep(k, a)
    ensures a == Complete ==> NextIo(k, a).queue == k.queue[1..]
    ensures a != Complete ==> k.queue <= NextIo(k, a).queue
  {
    hide Inv, WaitersServed, HistoryOk, Enabled, Next, WakeAll, AtLiberty;
  }

  /** Until its turn a request stays on the queue, not done. */
  /** A request that is submitted is the last in the queue, not done, and claimed at once iff the queue was empty. */
  lemma SubmittedIsLast(k: Io, r: Req)
    requires InvIo(k) && CanStep(k, Submit(r))
    ensures var n := NextIo(k, Submit(r));
            && n.queue == k.queue + [r] && n.submitted == k.submitted + [r] && r in n.done && !n.done[r]
            && (n.device == Claimed(r) <==> k.queue == [])
            && (k.queue != [] ==> n.device == k.device) && n.started == k.started && n.completed == k.completed
  {
    hide Inv, WaitersServed;
  }

  lemma {:induction false} StillQueued(k: Io, steps: seq<IoStep>, p: nat, r: Req)
    requires InvIo(k) && PossibleIo(k, steps)
    requires p < |k.queue| && k.queue[p] == r && Completions(steps) <= p
    ensures var n := RunIo(k, steps); r in n.queue && r in n.done && !n.done[r]
    decreases |steps|
  {
    hide InvIo, NextIo, CanStep;
    if steps == [] {
      QueuedIsNotDone(k, r);
    } else {
      NextIoInv(k, steps[0]);
      QueueMoves(k, steps[0]);
      StillQueued(NextIo(k, steps[0]), steps[1..], if steps[0] == Complete then p - 1 else p, r);
    }
  }

  lemma QueuedIsNotDone(k: Io, r: Req)
    requires InvIo(k) && r in k.queue
    ensures r in k.done && !k.done[r]
  {
    hide Inv, WaitersServed, HistoryOk;
  }

  lemma {:induction false} ComesToComplete(k: Io, steps: seq<IoStep>, p: nat, r: Req)
    requires InvIo(k) && PossibleIo(k, steps)
    requires p < |k.queue| && k.queue[p] == r
    requires steps != [] && steps[|steps| - 1] == Complete && Completions(steps) == p + 1
    ensures var n := RunIo(k, steps); r in n.done && n.done[r]
    decreases |steps|
  {
    hide InvIo, NextIo, CanStep;
    var a, rest := steps[0], steps[1..];
    NextIoInv(k, a);
    QueueMoves(k, a);
    if rest == [] {
      HeadIsDone(k);
    } else {
      assert rest[|rest| - 1] == Complete;
      LastCompletes(rest);
      ComesToComplete(NextIo(k, a), rest, if a == Complete then p - 1 else p, r);
    }
  }

  lemma HeadIsDone(k: Io)
    requires InvIo(k) && CanStep(k, Complete)
    ensures var n := NextIo(k, Complete); k.queue[0] in n.done && n.done[k.queue[0]]
  {
    hide Inv, WaitersServed, HistoryOk, WakeAll;
  }

  lemma {:induction false} LastCompletes(steps: seq<IoStep>)
    requires steps != [] && steps[|steps| - 1] == Complete
    ensures Completions(steps) >= 1
  {
    if |steps| > 1 {
      LastCompletes(steps[1..]);
    }
  }

  lemma {:induction false} PrefixIo(k: Io, steps: seq<IoStep>, n: nat)
    requires PossibleIo(k, steps) && n <= |steps|
    ensures PossibleIo(k, steps[..n])
    ensures n < |steps| && steps[|steps| - 1] == Complete ==> Completions(steps[..n]) < Completions(steps)
    decreases |steps|
  {
    hide CanStep, NextIo;
    if n > 0 {
      assert steps[..n][0] == steps[0] && steps[..n][1..] == steps[1..][..n - 1];
      PrefixIo(NextIo(k, steps[0]), steps[1..], n - 1);
    } else if steps != [] && steps[|steps| - 1] == Complete {
      LastCompletes(steps);
    }
  }

  /** A request with p others ahead of it on the queue is done right after the (p+1)-th completion, whatever
      threads, submitters and waiters do, and not before. */
  lemma CompletesInTurn(k: Io, steps: seq<IoStep>, p: nat, r: Req)
    requires InvIo(k) && PossibleIo(k, steps)
    requires p < |k.queue| && k.queue[p] == r
    requires steps != [] && steps[|steps| - 1] == Complete && Completions(steps) == p + 1
    ensures var n := RunIo(k, steps); r in n.done && n.done[r]
    ensures forall m: nat | m < |steps| ::
              PossibleIo(k, steps[..m]) && var n := RunIo(k, steps[..m]); r in n.done && !n.done[r]
  {
    hide InvIo, RunIo, PossibleIo, Completions;
    ComesToComplete(k, steps, p, r);
    forall m: nat | m < |steps|
      ensures PossibleIo(k, steps[..m]) && var n := RunIo(k, steps[..m]); r in n.done && !n.done[r]
    {
      PrefixIo(k, steps, m);
      StillQueued(k, steps[..m], p, r);
    }
  }
}
