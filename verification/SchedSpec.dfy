/** The uniprocessor scheduler as a state machine.  A step is what runs with preemption disabled:
    one call of the scheduler, one enqueue, one wake-up, one attempt at a mutex, one release. */
module SchedSpec {
  import opened Sequences

  type Tid = nat

  datatype State = Running | Ready | Waiting | MutexWaiting

  /** A wait queue proper, the queue of a mutex, or the completion queue of an I/O request. */
  datatype Queue = WaitQ(id: nat) | MutexQ(id: nat) | IocQ(id: nat) {
    /** The state of a thread that sits on this queue. */
    function Tag(): State {
      if MutexQ? then MutexWaiting else Waiting
    }
  }

  datatype Sched = Sched(
    current: Tid,
    idle: Tid,
    ready: seq<Tid>,
    state: map<Tid, State>,
    wq: map<Queue, seq<Tid>>,
    lock: set<nat>,
    holds: set<(Tid, nat)>)   // (t, m): thread t has returned from locking m and not yet unlocked it
  {
    function Q(q: Queue): seq<Tid> {
      if q in wq then wq[q] else []
    }

    predicate Runs()
      requires current in state
    {
      state[current] == Running
    }
  }

  ghost predicate OnSome(s: Sched, t: Tid) {
    exists q :: q in s.wq && t in s.wq[q]
  }

  /** The ready queue holds exactly the threads tagged ready, once each. */
  ghost predicate ReadyOk(s: Sched) {
    Distinct(s.ready) && forall t :: t in s.ready <==> t in s.state && s.state[t] == Ready
  }

  /** A thread on a wait queue carries that queue's tag, sits on it once, and on no other; idle never waits. */
  ghost predicate QueuesOk(s: Sched) {
    && (forall q :: q in s.wq ==> Distinct(s.wq[q]))
    && (forall q, t :: q in s.wq && t in s.wq[q] ==> t in s.state && s.state[t] == q.Tag() && t != s.idle)
    && (forall q, r, t :: q in s.wq && r in s.wq && t in s.wq[q] && t in s.wq[r] ==> q == r)
  }

  /** A thread tagged as waiting is on some wait queue. */
  ghost predicate WaitersOk(s: Sched) {
    forall t :: t in s.state && (s.state[t] == Waiting || s.state[t] == MutexWaiting) ==> OnSome(s, t)
  }

  /** Only the current thread is tagged running, and it is not tagged ready; idle runs or is ready. */
  ghost predicate CurrentOk(s: Sched) {
    && s.current in s.state && s.idle in s.state
    && (forall t :: t in s.state && s.state[t] == Running ==> t == s.current)
    && s.state[s.current] != Ready
    && (s.state[s.idle] == Running || s.state[s.idle] == Ready)
  }

  ghost predicate Located(s: Sched): (b: bool)
    ensures b ==> s.current in s.state
  {
    ReadyOk(s) && QueuesOk(s) && WaitersOk(s) && CurrentOk(s)
  }

  /** A mutex is locked iff exactly one thread holds it, and a waiter waits only for a locked mutex. */
  ghost predicate MutexOk(s: Sched) {
    && (forall t, m :: (t, m) in s.holds ==> m in s.lock)
    && (forall t, u, m :: (t, m) in s.holds && (u, m) in s.holds ==> t == u)
    && (forall m :: m in s.lock ==> exists t :: (t, m) in s.holds)
    && (forall m :: s.Q(MutexQ(m)) != [] ==> m in s.lock)
  }

  ghost predicate Inv(s: Sched) {
    Located(s) && MutexOk(s)
  }

  // ---- Steps ----

  datatype Step = Create(t: Tid) | Schedule | WaitOn(id: nat) | Wake(id: nat) | Lock(m: nat) | Unlock(m: nat)

  /** Threads act only while they run; the idle thread never waits.  Wake-ups and calls of the
      scheduler also come from interrupts, at any time.  Only the holder unlocks a mutex. */
  predicate Enabled(s: Sched, a: Step) {
    s.current in s.state &&
    match a
    case Create(t) => t !in s.state
    case Schedule => true
    case WaitOn(_) => s.Runs() && s.current != s.idle
    case Wake(_) => true
    case Lock(_) => s.Runs() && s.current != s.idle
    case Unlock(m) => (s.current, m) in s.holds
  }

  /** The current thread, still current, goes to the back of a queue. */
  function Enqueue(s: Sched, q: Queue): Sched {
    s.(state := s.state[s.current := q.Tag()], wq := s.wq[q := s.Q(q) + [s.current]])
  }

  function Without(s: seq<Tid>, x: Tid): (r: seq<Tid>)
    ensures forall t :: t in r <==> t in s && t != x
  {
    if s == [] then [] else (if s[0] == x then [] else [s[0]]) + Without(s[1..], x)
  }

  /** The states once the threads of a queue are woken. */
  function Woken(state: map<Tid, State>, queue: seq<Tid>, current: Tid): (r: map<Tid, State>)
    ensures r.Keys == state.Keys
  {
    map t | t in state :: if t in queue then (if t == current then Running else Ready) else state[t]
  }

  lemma WokenOne(state: map<Tid, State>, done: seq<Tid>, t: Tid, current: Tid)
    requires t in state
    ensures Woken(state, done, current)[t := if t == current then Running else Ready]
         == Woken(state, done + [t], current)
  {
    var l := Woken(state, done, current)[t := if t == current then Running else Ready];
    var r := Woken(state, done + [t], current);
    assert l.Keys == r.Keys;
    forall u | u in l ensures l[u] == r[u] {
      assert u in done + [t] <==> u in done || u == t;
    }
  }

  lemma WokenNone(state: map<Tid, State>, current: Tid)
    ensures Woken(state, [], current) == state
  {
  }

  /** Everyone on the queue becomes ready, in order; the current thread just runs on. */
  function WakeAll(s: Sched, q: Queue): Sched {
    s.(ready := s.ready + Without(s.Q(q), s.current),
       state := Woken(s.state, s.Q(q), s.current),
       wq := s.wq[q := []])
  }

  /** Make next current; the old current thread, if it wants to run on, goes to the back. */
  function Switch(s: Sched, next: Tid, rest: seq<Tid>): Sched
    requires s.current in s.state
  {
    if s.Runs()
    then s.(current := next, ready := rest + [s.current], state := s.state[s.current := Ready][next := Running])
    else s.(current := next, ready := rest, state := s.state[next := Running])
  }

  function ScheduleStep(s: Sched): Sched
    requires s.current in s.state
  {
    if s.ready == [] then s
    else if s.ready[0] != s.idle then Switch(s, s.ready[0], s.ready[1..])
    else if |s.ready| > 1 then Switch(s, s.ready[1], s.ready[2..] + [s.idle])
    else if s.Runs() then s
    else Switch(s, s.idle, [])
  }

  function Next(s: Sched, a: Step): Sched
    requires Enabled(s, a)
  {
    match a
    case Create(t) => s.(ready := s.ready + [t], state := s.state[t := Ready])
    case Schedule => ScheduleStep(s)
    case WaitOn(id) => Enqueue(s, WaitQ(id))
    case Wake(id) => WakeAll(s, WaitQ(id))
    case Lock(m) =>
      if m in s.lock then Enqueue(s, MutexQ(m))
      else s.(lock := s.lock + {m}, holds := s.holds + {(s.current, m)})
    case Unlock(m) =>
      WakeAll(s.(lock := s.lock - {m}, holds := s.holds - {(s.current, m)}), MutexQ(m))
  }

  // ---- Every step keeps the invariant ----

  lemma DistinctAppend(s: seq<Tid>, t: seq<Tid>)
    requires Distinct(s) && Distinct(t) && forall x :: x in s ==> x !in t
    ensures Distinct(s + t)
  {
    forall i, j | 0 <= i < j < |s + t| ensures (s + t)[i] != (s + t)[j] {
      if i < |s| <= j {
        assert s[i] in s && t[j - |s|] in t;
      }
    }
  }

  lemma {:induction false} WithoutDistinct(s: seq<Tid>, x: Tid)
    requires Distinct(s)
    ensures Distinct(Without(s, x))
  {
    if s != [] {
      assert forall i, j :: 0 <= i < j < |s[1..]| ==> s[1..][i] == s[i + 1] != s[j + 1] == s[1..][j];
      WithoutDistinct(s[1..], x);
      assert s[0] !in s[1..];
      DistinctAppend(if s[0] == x then [] else [s[0]], Without(s[1..], x));
    }
  }

  lemma EnqueueLocated(s: Sched, q: Queue)
    requires Located(s) && s.Runs() && s.current != s.idle
    ensures Located(Enqueue(s, q))
  {
    EnqueueQueues(s, q);
    EnqueueWaiters(s, q);
    hide OnSome, QueuesOk, WaitersOk;
  }

  lemma EnqueueQueues(s: Sched, q: Queue)
    requires Located(s) && s.Runs() && s.current != s.idle
    ensures QueuesOk(Enqueue(s, q))
  {
    hide OnSome, ReadyOk, WaitersOk;
    DistinctAppend(s.Q(q), [s.current]);
  }

  lemma EnqueueWaiters(s: Sched, q: Queue)
    requires Located(s) && s.Runs()
    ensures WaitersOk(Enqueue(s, q))
  {
    hide Distinct, ReadyOk, QueuesOk;
    var n := Enqueue(s, q);
    forall t | t in n.state && (n.state[t] == Waiting || n.state[t] == MutexWaiting) ensures OnSome(n, t) {
      if t == s.current {
        assert t in n.wq[q];
      } else {
        assert OnSome(s, t);
        var r :| r in s.wq && t in s.wq[r];
        assert t in n.wq[r];
      }
    }
  }

  lemma WakeLocated(s: Sched, q: Queue)
    requires Located(s)
    ensures Located(WakeAll(s, q))
  {
    WakeReady(s, q);
    WakeWaiters(s, q);
    WakeQueues(s, q);
    hide OnSome, ReadyOk, WaitersOk, QueuesOk, Distinct;
  }

  lemma WakeQueues(s: Sched, q: Queue)
    requires Located(s)
    ensures QueuesOk(WakeAll(s, q))
  {
    hide OnSome, ReadyOk, WaitersOk, Without;
    var n := WakeAll(s, q);
    assert Distinct<Tid>([]);
    hide Distinct;
    forall r, t | r in n.wq && t in n.wq[r] ensures r != q && r in s.wq && t in s.wq[r] && t !in s.Q(q) {
    }
  }

  lemma WakeReady(s: Sched, q: Queue)
    requires Located(s)
    ensures ReadyOk(WakeAll(s, q))
  {
    hide OnSome, WaitersOk;
    WithoutDistinct(s.Q(q), s.current);
    DistinctAppend(s.ready, Without(s.Q(q), s.current));
  }

  lemma WakeWaiters(s: Sched, q: Queue)
    requires Located(s)
    ensures WaitersOk(WakeAll(s, q))
  {
    hide Distinct, ReadyOk, QueuesOk;
    var n := WakeAll(s, q);
    forall t | t in n.state && (n.state[t] == Waiting || n.state[t] == MutexWaiting) ensures OnSome(n, t) {
      assert OnSome(s, t);
      var r :| r in s.wq && t in s.wq[r];
      assert t in n.wq[r];
    }
  }

  lemma SwitchLocated(s: Sched, next: Tid, rest: seq<Tid>)
    requires Located(s) && next in s.ready
    requires Distinct(rest) && forall t :: t in rest <==> t in s.ready && t != next
    ensures Located(Switch(s, next, rest))
  {
    SwitchQueues(s, next, rest);
    SwitchWaiters(s, next, rest);
    if s.Runs() {
      DistinctAppend(rest, [s.current]);
    }
    hide OnSome, Distinct, QueuesOk, WaitersOk;
  }

  lemma SwitchWaiters(s: Sched, next: Tid, rest: seq<Tid>)
    requires Located(s) && next in s.ready
    ensures WaitersOk(Switch(s, next, rest))
  {
    hide Distinct, QueuesOk;
    var n := Switch(s, next, rest);
    forall t | t in n.state && (n.state[t] == Waiting || n.state[t] == MutexWaiting) ensures OnSome(n, t) {
      assert OnSome(s, t);
      var r :| r in s.wq && t in s.wq[r];
      assert t in n.wq[r];
    }
  }

  lemma SwitchQueues(s: Sched, next: Tid, rest: seq<Tid>)
    requires Located(s) && next in s.ready
    ensures QueuesOk(Switch(s, next, rest))
  {
    hide Distinct, WaitersOk;
    var n := Switch(s, next, rest);
    forall q, t | q in n.wq && t in n.wq[q] ensures t in n.state && n.state[t] == q.Tag() && t != n.idle {
      assert q in s.wq && t in s.wq[q] && t != next;
      assert s.state[t] != Running;
    }
  }

  lemma ScheduleLocated(s: Sched)
    requires Located(s)
    ensures Located(ScheduleStep(s))
  {
    hide OnSome, QueuesOk, WaitersOk;
    if s.ready != [] && s.ready[0] != s.idle {
      SwitchLocated(s, s.ready[0], s.ready[1..]);
    } else if |s.ready| > 1 {
      RestAndIdle(s);
      SwitchLocated(s, s.ready[1], s.ready[2..] + [s.idle]);
    } else if s.ready != [] && !s.Runs() {
      SwitchLocated(s, s.idle, []);
    }
  }

  lemma RestAndIdle(s: Sched)
    requires Distinct(s.ready) && |s.ready| > 1 && s.ready[0] == s.idle
    ensures Distinct(s.ready[2..] + [s.idle])
    ensures forall t :: t in s.ready[2..] + [s.idle] <==> t in s.ready && t != s.ready[1]
  {
    assert s.ready == [s.idle] + [s.ready[1]] + s.ready[2..];
  }

  lemma CreateLocated(s: Sched, t: Tid)
    requires Located(s) && t !in s.state
    ensures Located(Next(s, Create(t)))
  {
    CreateWaiters(s, t);
    CreateReady(s, t);
    CreateQueues(s, t);
    hide Distinct, WaitersOk, ReadyOk, QueuesOk;
  }

  lemma CreateQueues(s: Sched, t: Tid)
    requires Located(s) && t !in s.state
    ensures QueuesOk(Next(s, Create(t)))
  {
    hide Distinct, WaitersOk, ReadyOk;
    var n := Next(s, Create(t));
    forall q, u | q in n.wq && u in n.wq[q] ensures u in n.state && n.state[u] == q.Tag() && u != n.idle {
      assert u in s.state && u != t;
    }
  }

  lemma CreateReady(s: Sched, t: Tid)
    requires Located(s) && t !in s.state
    ensures ReadyOk(Next(s, Create(t)))
  {
    hide WaitersOk, QueuesOk, CurrentOk;
    DistinctAppend(s.ready, [t]);
    hide Distinct;
  }

  lemma CreateWaiters(s: Sched, t: Tid)
    requires Located(s) && t !in s.state
    ensures WaitersOk(Next(s, Create(t)))
  {
    hide ReadyOk, QueuesOk, CurrentOk;
    var n := Next(s, Create(t));
    forall u | u in n.state && (n.state[u] == Waiting || n.state[u] == MutexWaiting) ensures OnSome(n, u) {
      assert OnSome(s, u);
      var r :| r in s.wq && u in s.wq[r];
      assert u in n.wq[r];
    }
  }

  lemma MutexStep(s: Sched, a: Step)
    requires Inv(s) && Enabled(s, a)
    ensures MutexOk(Next(s, a))
  {
    hide Located, Distinct, Without;
    var n := Next(s, a);
    match a {
      case Lock(m) =>
        if m !in s.lock {
          assert (s.current, m) in n.holds;
          forall k | k in n.lock ensures exists t :: (t, k) in n.holds {
            if k != m {
              var t :| (t, k) in s.holds;
              assert (t, k) in n.holds;
            }
          }
        }
      case Unlock(m) =>
        forall k | k in n.lock ensures exists t :: (t, k) in n.holds {
          var t :| (t, k) in s.holds;
          assert (t, k) in n.holds;
        }
      case _ =>
    }
    forall m | n.Q(MutexQ(m)) != [] ensures m in n.lock {
      assert a == Lock(m) || s.Q(MutexQ(m)) != [];
    }
  }

  /** Whatever step comes next, every thread stays in its one place and every mutex with its one holder. */
  lemma NextInv(s: Sched, a: Step)
    requires Inv(s) && Enabled(s, a)
    ensures Inv(Next(s, a))
  {
    hide ReadyOk, QueuesOk, WaitersOk, CurrentOk, MutexOk, Distinct, OnSome;
    MutexStep(s, a);
    match a {
      case Create(t) => CreateLocated(s, t);
      case Schedule => ScheduleLocated(s);
      case WaitOn(id) => EnqueueLocated(s, WaitQ(id));
      case Wake(id) => WakeLocated(s, WaitQ(id));
      case Lock(m) =>
        if m in s.lock {
          EnqueueLocated(s, MutexQ(m));
        } else {
          SameThreads(s, Next(s, a));
        }
      case Unlock(m) =>
        var u := s.(lock := s.lock - {m}, holds := s.holds - {(s.current, m)});
        SameThreads(s, u);
        WakeLocated(u, MutexQ(m));
    }
  }

  lemma SameThreads(s: Sched, n: Sched)
    requires Located(s)
    requires n.current == s.current && n.idle == s.idle && n.ready == s.ready && n.state == s.state && n.wq == s.wq
    ensures Located(n)
  {
    hide Distinct;
    forall t | OnSome(s, t) ensures OnSome(n, t) {
      var r :| r in s.wq && t in s.wq[r];
      assert r in n.wq && t in n.wq[r];
    }
    hide OnSome;
  }

  // ---- Runs ----

  /** The state after boot: one thread runs, idle is ready. */
  function Initial(main: Tid, idle: Tid): Sched {
    Sched(main, idle, [idle], map[main := Running, idle := Ready], map[], {}, {})
  }

  ghost predicate Possible(s: Sched, steps: seq<Step>)
    decreases |steps|
  {
    steps == [] || (Enabled(s, steps[0]) && Possible(Next(s, steps[0]), steps[1..]))
  }

  ghost function Run(s: Sched, steps: seq<Step>): Sched
    requires Possible(s, steps)
    decreases |steps|
  {
    if steps == [] then s else Run(Next(s, steps[0]), steps[1..])
  }

  lemma InitialInv(main: Tid, idle: Tid)
    requires main != idle
    ensures Inv(Initial(main, idle))
  {
    var s := Initial(main, idle);
    assert forall t :: t in s.ready <==> t == idle;
  }

  /** Scheduler partition and mutex safety over every interleaving. */
  lemma {:induction false} RunInv(s: Sched, steps: seq<Step>)
    requires Inv(s) && Possible(s, steps)
    ensures Inv(Run(s, steps))
    decreases |steps|
  {
    hide Inv, Next, Enabled;
    if steps != [] {
      NextInv(s, steps[0]);
      RunInv(Next(s, steps[0]), steps[1..]);
    }
  }

  /** In an invariant state each thread is in exactly one of: current, ready, one wait queue; only the
      current thread can also be on a queue, and then it is tagged as waiting there. */
  lemma Partition(s: Sched, t: Tid)
    requires Inv(s) && t in s.state
    ensures t == s.current || t in s.ready || OnSome(s, t)
    ensures !(t in s.ready && OnSome(s, t)) && !(t in s.ready && t == s.current)
    ensures t == s.current && OnSome(s, t) <==> t == s.current && !s.Runs()
    ensures forall q, r :: t in s.Q(q) && t in s.Q(r) ==> q == r
  {
    if OnSome(s, t) {
      var q :| q in s.wq && t in s.wq[q];
    }
  }

  /** What the scheduler and the wake-up assert about the queues always holds. */
  lemma AssertionsHold(s: Sched)
    requires Inv(s)
    ensures s.current in s.state
    ensures s.ready == [] ==> s.current == s.idle
    ensures s.ready != [] ==> s.ready[0] != s.current
    ensures |s.ready| > 1 && s.ready[0] == s.idle ==> s.ready[1] != s.idle && s.ready[1] != s.current
    ensures s.ready == [s.idle] && s.Runs() ==> s.current != s.idle
    ensures forall q, t :: t in s.Q(q) ==>
              t in s.state && t != s.idle && (s.state[t] == Waiting || s.state[t] == MutexWaiting)
  {
    assert s.ready != [] ==> s.ready[0] in s.ready;
    assert |s.ready| > 1 ==> s.ready[1] in s.ready;
    assert s.state[s.idle] == Ready ==> s.idle in s.ready;
  }

  /** Over every run from boot: each thread is in one place, tagged accordingly; idle runs or is ready;
      and a mutex has at most one holder, with waiters only while it has one. */
  lemma SchedulerSafety(main: Tid, idle: Tid, steps: seq<Step>)
    requires main != idle && Possible(Initial(main, idle), steps)
    ensures var s := Run(Initial(main, idle), steps);
            && s.current in s.state && s.idle in s.state
            && (s.idle == s.current || s.idle in s.ready)
            && (forall t :: t in s.state ==> t == s.current || t in s.ready || OnSome(s, t))
            && (forall t :: t in s.ready ==> t in s.state && t != s.current && !OnSome(s, t) && s.state[t] == Ready)
            && (forall q, r, t :: t in s.Q(q) && t in s.Q(r) ==> q == r)
            && (forall q, t :: t in s.Q(q) ==> t in s.state && s.state[t] == q.Tag() && t != s.idle)
    ensures var s := Run(Initial(main, idle), steps);
            && (forall t, u, m :: (t, m) in s.holds && (u, m) in s.holds ==> t == u)
            && (forall m: nat :: s.Q(MutexQ(m)) != [] ==> exists t :: (t, m) in s.holds)
  {
    InitialInv(main, idle);
    RunInv(Initial(main, idle), steps);
    var s := Run(Initial(main, idle), steps);
    hide Run, Possible, Initial, MutexOk;
    forall t | t in s.state ensures t == s.current || t in s.ready || OnSome(s, t) {
      Partition(s, t);
    }
    forall t | t in s.ready ensures t in s.state && t != s.current && !OnSome(s, t) {
      Partition(s, t);
    }
    hide OnSome, Distinct, WaitersOk;
    MutexFacts(s);
  }

  lemma MutexFacts(s: Sched)
    requires Inv(s)
    ensures forall t, u, m :: (t, m) in s.holds && (u, m) in s.holds ==> t == u
    ensures forall m: nat :: s.Q(MutexQ(m)) != [] ==> exists t :: (t, m) in s.holds
  {
    hide Located;
  }

  // ---- What a step achieves ----

  lemma {:induction false} RunSplit(s: Sched, a: seq<Step>, b: seq<Step>)
    requires Possible(s, a + b)
    ensures Possible(s, a) && Possible(Run(s, a), b) && Run(s, a + b) == Run(Run(s, a), b)
    decreases |a|
  {
    hide Next, Enabled;
    if a == [] {
      assert a + b == b;
    } else {
      assert (a + b)[0] == a[0] && (a + b)[1..] == a[1..] + b;
      RunSplit(Next(s, a[0]), a[1..], b);
    }
  }

  /** The state before step i of a run. */
  ghost function At(s: Sched, steps: seq<Step>, i: nat): Sched
    requires Possible(s, steps) && i <= |steps|
  {
    assert steps == steps[..i] + steps[i..];
    RunSplit(s, steps[..i], steps[i..]);
    Run(s, steps[..i])
  }

  lemma AtNext(s: Sched, steps: seq<Step>, i: nat)
    requires Possible(s, steps) && i < |steps|
    ensures At(s, steps, 0) == s
    ensures Enabled(At(s, steps, i), steps[i]) && At(s, steps, i + 1) == Next(At(s, steps, i), steps[i])
  {
    hide Next, Enabled;
    assert steps == steps[..i] + steps[i..];
    RunSplit(s, steps[..i], steps[i..]);
    assert steps[..i + 1] == steps[..i] + [steps[i]];
    assert steps == steps[..i + 1] + steps[i + 1..];
    RunSplit(s, steps[..i + 1], steps[i + 1..]);
    RunSplit(s, steps[..i], [steps[i]]);
    OneStep(At(s, steps, i), steps[i]);
  }

  lemma OneStep(s: Sched, a: Step)
    requires Possible(s, [a])
    ensures Enabled(s, a) && Run(s, [a]) == Next(s, a)
  {
    hide Next, Enabled;
    assert Run(Next(s, a), [][..]) == Next(s, a);
  }

  lemma {:induction false} AtInv(s: Sched, steps: seq<Step>, i: nat)
    requires Inv(s) && Possible(s, steps) && i <= |steps|
    ensures Inv(At(s, steps, i))
  {
    hide Inv, Run, Possible;
    assert steps == steps[..i] + steps[i..];
    RunSplit(s, steps[..i], steps[i..]);
    RunInv(s, steps[..i]);
  }

  /** Step i is an attempt at mutex m that finds it free. */
  ghost predicate Takes(s: Sched, steps: seq<Step>, i: nat, m: nat)
    requires Possible(s, steps) && i < |steps|
  {
    steps[i] == Lock(m) && m !in At(s, steps, i).lock
  }

  /** Step i is thread t's release of mutex m. */
  ghost predicate Releases(s: Sched, steps: seq<Step>, i: nat, t: Tid, m: nat)
    requires Possible(s, steps) && i < |steps|
  {
    steps[i] == Unlock(m) && At(s, steps, i).current == t
  }

  /** The thread that takes a mutex holds it from then on, until it releases it. */
  lemma {:induction false} HeldUntilReleased(s: Sched, steps: seq<Step>, i: nat, j: nat, m: nat)
    requires Inv(s) && Possible(s, steps) && i < j <= |steps| && Takes(s, steps, i, m)
    requires forall k :: i < k < j ==> !Releases(s, steps, k, At(s, steps, i).current, m)
    ensures (At(s, steps, i).current, m) in At(s, steps, j).holds && m in At(s, steps, j).lock
  {
    hide At, Possible, Located;
    var t := At(s, steps, i).current;
    AtNext(s, steps, j - 1);
    AtInv(s, steps, j);
    if j > i + 1 {
      HeldUntilReleased(s, steps, i, j - 1, m);
      assert !Releases(s, steps, j - 1, t, m);
    }
  }

  /** Over every run, between two successful attempts at a mutex, the thread that made the first one has
      released it. */
  lemma OneInside(s: Sched, steps: seq<Step>, i: nat, j: nat, m: nat)
    requires Inv(s) && Possible(s, steps) && i < j < |steps| && Takes(s, steps, i, m) && Takes(s, steps, j, m)
    ensures exists k :: i < k < j && Releases(s, steps, k, At(s, steps, i).current, m)
  {
    hide At, Possible, Inv, Releases;
    if forall k :: i < k < j ==> !Releases(s, steps, k, At(s, steps, i).current, m) {
      HeldUntilReleased(s, steps, i, j, m);
    }
  }

  /** A release leaves the mutex free, nobody holding it and nobody queued for it. */
  lemma ReleaseFrees(s: Sched, m: nat)
    requires Inv(s) && Enabled(s, Unlock(m))
    ensures var n := Next(s, Unlock(m));
            && m !in n.lock && (forall t :: (t, m) !in n.holds) && n.Q(MutexQ(m)) == []
            && (forall t, k :: k != m ==> ((t, k) in n.holds <==> (t, k) in s.holds))
  {
    hide Located, Without;
  }

  /** The steps that wake a queue's threads. */
  predicate Wakes(a: Step, q: Queue) {
    || (q.WaitQ? && a == Wake(q.id))
    || (q.MutexQ? && a == Unlock(q.id))
  }

  /** A thread on a queue stays there, tagged as waiting, until a step wakes the queue. */
  lemma {:induction false} WaitsUntilWoken(s: Sched, steps: seq<Step>, t: Tid, q: Queue)
    requires Inv(s) && Possible(s, steps) && t in s.Q(q)
    requires forall a :: a in steps ==> !Wakes(a, q)
    ensures t in Run(s, steps).Q(q) && t in Run(s, steps).state && Run(s, steps).state[t] == q.Tag()
    decreases |steps|
  {
    hide Next, Enabled;
    if steps != [] {
      NextInv(s, steps[0]);
      StaysQueued(s, steps[0], t, q);
      hide Inv;
      WaitsUntilWoken(Next(s, steps[0]), steps[1..], t, q);
    } else {
      hide MutexOk, ReadyOk, WaitersOk;
    }
  }

  lemma StaysQueued(s: Sched, a: Step, t: Tid, q: Queue)
    requires Inv(s) && Enabled(s, a) && !Wakes(a, q) && t in s.Q(q)
    ensures t in Next(s, a).Q(q)
  {
    hide Located, MutexOk, Without, Woken;
  }

  /** The step that wakes a queue empties it: its threads join the ready ones at the back, in their order, but for
      the current one, which runs on. */
  lemma WokenAreReady(s: Sched, a: Step, q: Queue)
    requires Inv(s) && Enabled(s, a) && Wakes(a, q)
    ensures var n := Next(s, a);
            && n.Q(q) == [] && n.ready == s.ready + Without(s.Q(q), s.current)
            && (s.current in s.Q(q) ==> n.Runs())
            && (forall t :: t in s.Q(q) && t != s.current ==> t in n.ready && t !in s.ready)
            && (forall r :: r != q ==> n.Q(r) == s.Q(r))
  {
    hide Inv, Located;
    JoinTheReady(s, q);
    hide Sched.Q, Without, Woken;
    assert Next(s, a) == WakeAll(s, q).(lock := Next(s, a).lock, holds := Next(s, a).holds);
    OtherQueuesKept(s, q);
    hide WakeAll;
    SameQueues(WakeAll(s, q), Next(s, a));
  }

  lemma SameQueues(s: Sched, n: Sched)
    requires n.wq == s.wq
    ensures forall q :: n.Q(q) == s.Q(q)
  {
  }

  lemma OtherQueuesKept(s: Sched, q: Queue)
    ensures WakeAll(s, q).Q(q) == [] && forall r :: r != q ==> WakeAll(s, q).Q(r) == s.Q(r)
  {
    hide Without, Woken;
  }

  lemma JoinTheReady(s: Sched, q: Queue)
    requires Inv(s)
    ensures s.current in s.state && WakeAll(s, q).current == s.current
    ensures s.current in s.Q(q) ==> WakeAll(s, q).Runs()
    ensures forall t :: t in s.Q(q) && t != s.current ==> t in WakeAll(s, q).ready && t !in s.ready
  {
    hide MutexOk, WaitersOk;
  }

  /** A thread that goes to wait is the last on its queue, and on no other; one that finds a mutex locked is
      the last to wait for it. */
  lemma WaiterIsLast(s: Sched, a: Step)
    requires Inv(s) && Enabled(s, a) && (a.WaitOn? || (a.Lock? && a.m in s.lock))
    ensures var n, q := Next(s, a), if a.WaitOn? then WaitQ(a.id) else MutexQ(a.m);
            && n.Q(q) == s.Q(q) + [s.current] && n.state[s.current] == q.Tag() && n.current == s.current
            && (forall r :: r != q ==> n.Q(r) == s.Q(r) && s.current !in n.Q(r))
            && n.ready == s.ready && n.lock == s.lock && n.holds == s.holds
  {
    hide MutexOk, ReadyOk, WaitersOk;
  }

  /** A fresh thread is the last of those that can run. */
  lemma FreshIsLast(s: Sched, t: Tid)
    requires Inv(s) && Enabled(s, Create(t))
    ensures var n := Next(s, Create(t));
            Others(n) == Others(s) + [t] && n.state.Keys == s.state.Keys + {t} && n.wq == s.wq
  {
    WithoutAppend(s.ready, [t], s.idle);
    Single(t, s.idle);
  }

  // ---- Bounded waiting ----

  /** The ready threads other than idle, in order. */
  function Others(s: Sched): seq<Tid> {
    Without(s.ready, s.idle)
  }

  lemma {:induction false} WithoutAppend(s: seq<Tid>, t: seq<Tid>, x: Tid)
    ensures Without(s + t, x) == Without(s, x) + Without(t, x)
  {
    if s == [] {
      assert s + t == t;
    } else {
      assert (s + t)[1..] == s[1..] + t;
      WithoutAppend(s[1..], t, x);
    }
  }

  lemma {:induction false} WithoutAbsent(s: seq<Tid>, x: Tid)
    requires x !in s
    ensures Without(s, x) == s
  {
    if s != [] {
      WithoutAbsent(s[1..], x);
    }
  }

  lemma Single(x: Tid, idle: Tid)
    ensures Without([x], idle) == if x == idle then [] else [x]
  {
    assert Without([], idle) == [];
  }

  /** The first ready thread takes over. */
  lemma DispatchFirst(s: Sched)
    requires s.current in s.state && s.ready != [] && s.ready[0] != s.idle
    ensures Others(s) != [] && Others(s)[0] == s.ready[0]
    ensures Others(Switch(s, s.ready[0], s.ready[1..])) ==
            Others(s)[1..] + if s.Runs() && s.current != s.idle then [s.current] else []
  {
    WithoutAppend(s.ready[1..], [s.current], s.idle);
    Single(s.current, s.idle);
  }

  /** Idle goes to the back, and the second ready thread takes over. */
  lemma DispatchSecond(s: Sched)
    requires s.current in s.state && |s.ready| > 1 && s.ready[0] == s.idle && s.ready[1] != s.idle
    ensures Others(s) != [] && Others(s)[0] == s.ready[1]
    ensures Others(Switch(s, s.ready[1], s.ready[2..] + [s.idle])) ==
            Others(s)[1..] + if s.Runs() && s.current != s.idle then [s.current] else []
  {
    assert s.ready == [s.idle, s.ready[1]] + s.ready[2..];
    WithoutAppend([s.idle, s.ready[1]], s.ready[2..], s.idle);
    WithoutAppend([s.idle], [s.ready[1]], s.idle);
    assert [s.idle] + [s.ready[1]] == [s.idle, s.ready[1]];
    WithoutAppend(s.ready[2..], [s.idle], s.idle);
    WithoutAppend(s.ready[2..] + [s.idle], [s.current], s.idle);
    Single(s.current, s.idle);
    Single(s.idle, s.idle);
    Single(s.ready[1], s.idle);
    hide Without;
  }

  /** The scheduler makes the first ready thread other than idle current; a running thread it takes
      over from goes to the back.  Idle gets the processor only if nobody else can use it. */
  lemma ScheduleDispatch(s: Sched)
    requires Inv(s)
    ensures Others(s) != [] ==>
              && ScheduleStep(s).current == Others(s)[0]
              && Others(ScheduleStep(s)) ==
                 Others(s)[1..] + if s.Runs() && s.current != s.idle then [s.current] else []
    ensures Others(s) == [] ==>
              ScheduleStep(s).current == if s.Runs() then s.current else s.idle
  {
    hide Located, MutexOk, Inv, Without;
    AssertionsHold(s);
    if s.ready == [] {
      NobodyReady(s);
    } else if s.ready[0] != s.idle {
      DispatchFirst(s);
    } else if |s.ready| > 1 {
      DispatchSecond(s);
    } else {
      assert s.ready == [s.idle];
      Single(s.idle, s.idle);
    }
  }

  lemma NobodyReady(s: Sched)
    requires Inv(s) && s.ready == []
    ensures Others(s) == [] && s.Runs() && s.current == s.idle
  {
    AssertionsHold(s);
  }

  /** Idle is dispatched exactly when no other thread is ready and the current one does not run on. */
  lemma IdleOnlyWhenAlone(s: Sched)
    requires Inv(s) && s.current != s.idle
    ensures ScheduleStep(s).current == s.idle <==> Others(s) == [] && !s.Runs()
  {
    ScheduleDispatch(s);
    if Others(s) != [] {
      assert Others(s)[0] in Others(s);
    }
  }

  /** Other steps only add to the back of the ready queue, and leave the current thread current. */
  lemma OthersGrow(s: Sched, a: Step)
    requires Inv(s) && Enabled(s, a) && a != Schedule
    ensures Next(s, a).current == s.current && Next(s, a).idle == s.idle
    ensures Others(s) <= Others(Next(s, a))
  {
    hide Located, MutexOk, Inv;
    var n := Next(s, a);
    match a {
      case Create(t) => WithoutAppend(s.ready, [t], s.idle);
      case Wake(id) => WithoutAppend(s.ready, Without(s.Q(WaitQ(id)), s.current), s.idle);
      case Unlock(m) => WithoutAppend(s.ready, Without(s.Q(MutexQ(m)), s.current), s.idle);
      case _ =>
    }
  }

  function Schedules(steps: seq<Step>): nat {
    if steps == [] then 0 else (if steps[0] == Schedule then 1 else 0) + Schedules(steps[1..])
  }

  /** Until then it stays ready, k minus the number of calls so far behind the front. */
  lemma {:induction false} StillWaiting(s: Sched, steps: seq<Step>, k: nat, t: Tid)
    requires Inv(s) && Possible(s, steps)
    requires k < |Others(s)| && Others(s)[k] == t && Schedules(steps) <= k
    ensures var n := Run(s, steps);
            k - Schedules(steps) < |Others(n)| && Others(n)[k - Schedules(steps)] == t && n.current != t
    decreases |steps|
  {
    hide Inv, ScheduleStep, Others, Enabled, Next;
    if steps == [] {
      ReadyIsNotCurrent(s, t);
    } else {
      var a, rest := steps[0], steps[1..];
      NextInv(s, a);
      if a == Schedule {
        AfterSchedule(s);
        StillWaiting(Next(s, a), rest, k - 1, t);
      } else {
        OthersGrow(s, a);
        StillWaiting(Next(s, a), rest, k, t);
      }
    }
  }

  lemma ReadyIsNotCurrent(s: Sched, t: Tid)
    requires Inv(s) && t in Others(s)
    ensures t != s.current
  {
    hide QueuesOk, WaitersOk, MutexOk, Without;
  }

  lemma {:induction false} ComesToRun(s: Sched, steps: seq<Step>, k: nat, t: Tid)
    requires Inv(s) && Possible(s, steps)
    requires k < |Others(s)| && Others(s)[k] == t
    requires steps != [] && steps[|steps| - 1] == Schedule && Schedules(steps) == k + 1
    ensures Run(s, steps).current == t
    decreases |steps|
  {
    hide Inv, ScheduleStep, Others, Enabled, Next;
    var a, rest := steps[0], steps[1..];
    NextInv(s, a);
    if a == Schedule {
      AfterSchedule(s);
      if rest != [] {
        assert rest[|rest| - 1] == Schedule;
        LastCounts(rest);
        ComesToRun(Next(s, a), rest, k - 1, t);
      }
    } else {
      OthersGrow(s, a);
      ComesToRun(Next(s, a), rest, k, t);
    }
  }

  lemma {:induction false} Prefix(s: Sched, steps: seq<Step>, n: nat)
    requires Possible(s, steps) && n <= |steps|
    ensures Possible(s, steps[..n])
    ensures n < |steps| && steps[|steps| - 1] == Schedule ==> Schedules(steps[..n]) < Schedules(steps)
    decreases |steps|
  {
    hide Enabled, Next;
    if n > 0 {
      assert steps[..n][0] == steps[0] && steps[..n][1..] == steps[1..][..n - 1];
      Prefix(Next(s, steps[0]), steps[1..], n - 1);
    } else if steps != [] && steps[|steps| - 1] == Schedule {
      LastCounts(steps);
    }
  }

  /** A ready thread with k others ahead of it is current right after the (k+1)-th call of the
      scheduler, whatever happens in between, and not before. */
  lemma BoundedWaiting(s: Sched, steps: seq<Step>, k: nat, t: Tid)
    requires Inv(s) && Possible(s, steps)
    requires k < |Others(s)| && Others(s)[k] == t
    requires steps != [] && steps[|steps| - 1] == Schedule && Schedules(steps) == k + 1
    ensures Run(s, steps).current == t
    ensures forall n: nat | n < |steps| :: Possible(s, steps[..n]) && Run(s, steps[..n]).current != t
  {
    hide Inv, Others, Run, Possible, Schedules;
    ComesToRun(s, steps, k, t);
    forall n: nat | n < |steps| ensures Possible(s, steps[..n]) && Run(s, steps[..n]).current != t {
      Prefix(s, steps, n);
      StillWaiting(s, steps[..n], k, t);
    }
  }

  lemma AfterSchedule(s: Sched)
    requires Inv(s) && Enabled(s, Schedule) && Others(s) != []
    ensures Next(s, Schedule).current == Others(s)[0]
    ensures Others(s)[1..] <= Others(Next(s, Schedule))
  {
    ScheduleDispatch(s);
    AssertionsHold(s);
    hide Inv, ScheduleStep, Others;
  }

  lemma {:induction false} LastCounts(steps: seq<Step>)
    requires steps != [] && steps[|steps| - 1] == Schedule
    ensures Schedules(steps) >= 1
  {
    if |steps| > 1 {
      LastCounts(steps[1..]);
    }
  }
}
