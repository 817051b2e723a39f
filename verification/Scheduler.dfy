/** The scheduler's code, step by step on its queues, against the state machine. */
module Scheduler {
  import opened SchedSpec

  datatype Ret = RetSwitch | RetRun

  class Scheduler {
    var current: Tid
    var idle: Tid
    var ready: seq<Tid>
    var state: map<Tid, State>
    var wq: map<Queue, seq<Tid>>
    var lock: set<nat>
    /** Which threads are between the return of a lock call and their unlock call. */
    ghost var holds: set<(Tid, nat)>

    ghost function M(): Sched
      reads this
    {
      Sched(current, idle, ready, state, wq, lock, holds)
    }

    /** The state after boot: main runs, and idle is on the ready queue. */
    constructor (main: Tid, idle: Tid)
      requires main != idle
      ensures M() == Initial(main, idle) && Inv(M())
    {
      current, this.idle := main, idle;
      ready, state, wq := [idle], map[main := Running, idle := Ready], map[];
      lock, holds := {}, {};
      new;
      InitialInv(main, idle);
    }

    /** A fresh thread is ready. */
    method ThreadCreate(t: Tid)
      requires Inv(M()) && Enabled(M(), Create(t))
      modifies this
      ensures M() == Next(old(M()), Create(t)) && Inv(M())
      ensures ready == old(ready) + [t] && state == old(state)[t := Ready] && current == old(current)
    {
      NextInv(M(), Create(t));
      state := state[t := Ready];
      ready := ready + [t];
    }

    /** The tail of a switch: the next thread runs. */
    method SchedSwitch(next: Tid)
      modifies this`state, this`current
      ensures state == old(state)[next := Running] && current == next
    {
      state := state[next := Running];
      current := next;
    }

    /** One call of the scheduler.  Its assertions about the queues never fail. */
    method SchedulePreemptDisabled() returns (ret: Ret)
      requires Inv(M())
      modifies this
      ensures M() == ScheduleStep(old(M())) && Inv(M())
      ensures ret == RetSwitch <==> current != old(current)
    {
      hide Inv, Located, MutexOk;
      AssertionsHold(M());
      NextInv(M(), Schedule);
      if ready == [] {
        assert current == idle;
        return RetRun;
      }
      var next := ready[0];
      ready := ready[1..];
      assert current != next;
      if next == idle {
        var empty := ready == [];
        if !empty {
          ready := ready + [idle];
          next := ready[0];
          ready := ready[1..];
          assert current != next;
          assert next != idle;
        } else if state[current] == Running {
          assert current != idle;
          ready := ready + [idle];
          return RetRun;
        }
      }
      if state[current] == Running {
        state := state[current := Ready];
        ready := ready + [current];
      }
      SchedSwitch(next);
      assert |old(ready)| > 1 ==> old(ready)[1..][1..] == old(ready)[2..];
      return RetSwitch;
    }

    /** Drains a wait queue.  Raises the scheduler interrupt if idle runs and someone became ready. */
    method WakeUp(q: Queue) returns (raise: bool)
      requires Located(M())
      modifies this`ready, this`state, this`wq
      ensures M() == WakeAll(old(M()), q) && Located(M())
      ensures raise <==> current == idle && old(M()).Q(q) != []
      ensures wq == old(wq)[q := []] && ready == old(ready) + Without(old(M()).Q(q), current)
      ensures forall t :: t in state ==>
                state[t] == if t !in old(M()).Q(q) then old(state)[t] else if t == current then Running else Ready
    {
      hide Located, Without, Woken;
      ghost var s0 := M();
      WakeLocated(s0, q);
      if q !in wq {
        wq := wq[q := []];
      }
      var queueIrq := DrainQueue(q, s0);
      WokenStates(s0, q);
      IdleNotQueued(s0, q);
      if current == idle {
        WithoutAbsent(s0.Q(q), idle);
      }
      raise := current == idle && queueIrq;
    }

    /** Unlinks and wakes the threads of the queue, from the front. */
    method DrainQueue(q: Queue, ghost s0: Sched) returns (queueIrq: bool)
      requires Located(s0) && q in wq && M() == s0.(wq := s0.wq[q := s0.Q(q)])
      modifies this`ready, this`state, this`wq
      ensures wq == s0.wq[q := []] && ready == s0.ready + Without(s0.Q(q), current)
      ensures state == Woken(s0.state, s0.Q(q), current)
      ensures queueIrq <==> Without(s0.Q(q), current) != []
    {
      hide Located, Without, Woken, Sched.Q;
      ghost var done: seq<Tid> := [];
      queueIrq := false;
      NobodyWoken(current);
      WokenNone(state, current);
      while wq[q] != []
        invariant q in wq && done + wq[q] == s0.Q(q)
        invariant wq == s0.wq[q := wq[q]]
        invariant ready == s0.ready + Without(done, current)
        invariant state == Woken(s0.state, done, current)
        invariant queueIrq <==> Without(done, current) != []
        decreases |wq[q]|
      {
        var t := wq[q][0];
        DrainStep(s0, q, done, wq[q]);
        WakeFirst(q);
        queueIrq := queueIrq || t != current;
        done := done + [t];
      }
      assert done == s0.Q(q);
    }

    /** Unlinks and wakes the first thread of the queue: the current thread just runs on. */
    method WakeFirst(q: Queue)
      requires q in wq && wq[q] != [] && wq[q][0] != idle
      requires wq[q][0] in state && (state[wq[q][0]] == Waiting || state[wq[q][0]] == MutexWaiting)
      modifies this`ready, this`state, this`wq
      ensures wq == old(wq)[q := old(wq)[q][1..]]
      ensures var t := old(wq)[q][0];
              && state == old(state)[t := if t == current then Running else Ready]
              && ready == old(ready) + if t == current then [] else [t]
    {
      var t := wq[q][0];
      wq := wq[q := wq[q][1..]];
      assert t != idle;
      assert state[t] == Waiting || state[t] == MutexWaiting;
      if t == current {
        state := state[t := Running];
      } else {
        state := state[t := Ready];
        ready := ready + [t];
      }
    }

    /** The current thread, still current, goes to the back of a queue. */
    method EnqueueCurrent(q: Queue)
      requires Located(M()) && M().Runs() && current != idle
      modifies this`state, this`wq
      ensures M() == Enqueue(old(M()), q) && Located(M())
    {
      hide Located;
      EnqueueLocated(M(), q);
      state := state[current := q.Tag()];
      wq := wq[q := (if q in wq then wq[q] else []) + [current]];
    }

    method WaitEnqueue(id: nat)
      requires Inv(M()) && Enabled(M(), WaitOn(id))
      modifies this`state, this`wq
      ensures M() == Next(old(M()), WaitOn(id)) && Inv(M())
      ensures wq == old(wq)[WaitQ(id) := old(M()).Q(WaitQ(id)) + [current]]
      ensures state == old(state)[current := Waiting]
    {
      hide Located;
      NextInv(M(), WaitOn(id));
      EnqueueCurrent(WaitQ(id));
    }

    /** One pass of the locking loop: take a free mutex, or queue up for a locked one. */
    method LockAttempt(m: nat) returns (taken: bool)
      requires Inv(M()) && Enabled(M(), Lock(m))
      modifies this
      ensures M() == Next(old(M()), Lock(m)) && Inv(M())
      ensures taken <==> m !in old(lock)
      ensures taken ==> m in lock && (current, m) in holds && state == old(state) && wq == old(wq)
      ensures !taken ==> wq == old(wq)[MutexQ(m) := old(M()).Q(MutexQ(m)) + [current]]
                         && state == old(state)[current := MutexWaiting] && lock == old(lock) && holds == old(holds)
    {
      hide Located;
      NextInv(M(), Lock(m));
      if m in lock {
        EnqueueCurrent(MutexQ(m));
        return false;
      }
      lock := lock + {m};
      holds := holds + {(current, m)};
      return true;
    }

    method MutexUnlock(m: nat)
      requires Inv(M()) && Enabled(M(), Unlock(m))
      modifies this
      ensures M() == Next(old(M()), Unlock(m)) && Inv(M())
      ensures m !in lock && (forall t :: (t, m) !in holds) && M().Q(MutexQ(m)) == []
      ensures ready == old(ready) + Without(old(M()).Q(MutexQ(m)), current)
    {
      ReleaseFrees(M(), m);
      NextInv(M(), Unlock(m));
      ghost var s := M();
      lock := lock - {m};
      holds := holds - {(current, m)};
      SameThreads(s, M());
      var raise := WakeUp(MutexQ(m));
    }
  }

  /** The head of the queue is a waiter that has not been woken yet. */
  lemma WakeOne(s: Sched, q: Queue, done: seq<Tid>, rest: seq<Tid>)
    requires Located(s) && done + rest == s.Q(q) && rest != []
    ensures rest[0] in s.state && rest[0] !in done && rest[0] != s.idle
    ensures var st := Woken(s.state, done, s.current); st[rest[0]] == Waiting || st[rest[0]] == MutexWaiting
  {
    var all := s.Q(q);
    assert all[|done|] == rest[0] && q in s.wq && rest[0] in s.wq[q];
    forall i | 0 <= i < |done| ensures done[i] != rest[0] {
      assert all[i] == done[i];
    }
  }

  /** What waking the next thread of the queue does to the states and to the ready queue. */
  lemma DrainStep(s: Sched, q: Queue, done: seq<Tid>, rest: seq<Tid>)
    requires Located(s) && done + rest == s.Q(q) && rest != []
    ensures var t, st := rest[0], Woken(s.state, done, s.current);
            && t != s.idle && t in st && (st[t] == Waiting || st[t] == MutexWaiting)
            && st[t := if t == s.current then Running else Ready] == Woken(s.state, done + [t], s.current)
            && Without(done + [t], s.current) == Without(done, s.current) + (if t == s.current then [] else [t])
            && (done + [t]) + rest[1..] == s.Q(q)
  {
    hide Located, Without, Woken, Sched.Q;
    WakeOne(s, q, done, rest);
    WokenOne(s.state, done, rest[0], s.current);
    WithoutAppend(done, [rest[0]], s.current);
    Single(rest[0], s.current);
  }

  lemma WokenStates(s: Sched, q: Queue)
    ensures forall t | t in s.state ::
              Woken(s.state, s.Q(q), s.current)[t] ==
              if t !in s.Q(q) then s.state[t] else if t == s.current then Running else Ready
  {
  }

  lemma NobodyWoken(x: Tid)
    ensures Without([], x) == []
  {
  }

  lemma IdleNotQueued(s: Sched, q: Queue)
    requires Located(s)
    ensures s.idle !in s.Q(q)
  {
  }
}
