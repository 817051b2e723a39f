/** The I/O request queue's code, against its state machine. */
module IoQueue {
  import opened Wrappers
  import opened SchedSpec
  import opened Scheduler
  import opened IoSpec

  class IoQueue {
    const sched: Scheduler
    var queue: seq<Req>
    var busy: int
    var done: map<Req, bool>
    ghost var device: Device
    ghost var waiting: map<Tid, Req>
    ghost var submitted: seq<Req>
    ghost var started: seq<Req>
    ghost var completed: seq<Req>

    ghost function K(): Io
      reads this, sched
    {
      Io(sched.M(), queue, busy, device, done, waiting, submitted, started, completed)
    }

    constructor (sched: Scheduler, ghost main: Tid, ghost idle: Tid)
      requires main != idle && sched.M() == Initial(main, idle)
      ensures this.sched == sched && K() == InitialIo(Initial(main, idle)) && InvIo(K())
    {
      this.sched := sched;
      queue, busy, done := [], 0, map[];
      device, waiting, submitted, started, completed := Free, map[], [], [], [];
      new;
      InitialIoInv(main, idle);
    }

    /** Claims the head of the queue, without unlinking it, unless a request is claimed already. */
    method ClaimNext() returns (r: Option<Req>)
      requires 0 <= busy
      modifies this`busy, this`device
      ensures K() == Claim(old(K()))
      ensures r == if old(busy) == 0 && queue != [] then Some(queue[0]) else None
    {
      r := None;
      if busy == 0 && queue != [] {
        busy := busy + 1;
        device := Claimed(queue[0]);
        r := Some(queue[0]);
      }
    }

    /** Hands a claimed request to the device. */
    method RunRequest(r: Option<Req>)
      requires r == if device.Claimed? then Some(device.req) else None
      modifies this`device, this`started
      ensures K() == IoSpec.Run(old(K()))
    {
      if r.None? {
        return;
      }
      device := Started(r.value);
      started := started + [r.value];
    }

    /** Queues a request; the caller starts the request that it thereby claims, if any. */
    method Submit(r: Req) returns (claimed: Option<Req>)
      requires InvIo(K()) && CanStep(K(), IoSpec.IoStep.Submit(r))
      modifies this, sched`wq
      ensures K() == NextIo(old(K()), IoSpec.IoStep.Submit(r)) && InvIo(K())
      ensures claimed == if old(queue) == [] then Some(r) else None
      ensures claimed.Some? ==> device == Claimed(claimed.value)
      ensures queue == old(queue) + [r] && done == old(done)[r := false] && started == old(started)
    {
      NextIoInv(K(), IoSpec.IoStep.Submit(r));
      QueueServed(K());
      hide Inv, WaitersServed, HistoryOk, AtLiberty;
      done := done[r := false];
      sched.wq := sched.wq[IocQ(r) := []];
      queue := queue + [r];
      submitted := submitted + [r];
      claimed := ClaimNext();
    }

    /** The submitter's start of the request that it claimed, which other submitters cannot have displaced. */
    method StartClaimed(claimed: Req)
      requires InvIo(K()) && CanStep(K(), Start) && device == Claimed(claimed)
      modifies this`device, this`started
      ensures K() == NextIo(old(K()), Start) && InvIo(K())
      ensures device == Started(claimed) && queue != [] && queue[0] == claimed
    {
      NextIoInv(K(), Start);
      QueueServed(K());
      hide Inv, WaitersServed, HistoryOk;
      RunRequest(Some(claimed));
    }

    /** Unlinks the completed head. */
    method DequeueSched() returns (r: Req)
      requires queue != []
      modifies this`busy, this`queue, this`completed, this`device
      ensures r == old(queue[0])
      ensures K() == old(K()).(busy := old(busy) - 1, device := Free, queue := old(queue)[1..],
                               completed := old(completed) + [r])
    {
      busy := busy - 1;
      r := queue[0];
      queue := queue[1..];
      completed := completed + [r];
      device := Free;
    }

    /** Marks a request done, wakes its waiters, and starts the next one. */
    method DoneSched(r: Req)
      requires Located(sched.M()) && busy == 0 && device == Free
      modifies this`done, this`busy, this`device, this`started
      modifies sched`ready, sched`state, sched`wq
      ensures K() == IoSpec.Run(Claim(old(K()).(s := WakeAll(old(sched.M()), IocQ(r)), done := old(done)[r := true])))
    {
      hide Located, WakeAll;
      done := done[r := true];
      var raise := sched.WakeUp(IocQ(r));
      var next := ClaimNext();
      RunRequest(next);
    }

    /** The completion handler of a device: what it unlinks is what the device was given. */
    method CompleteHead() returns (r: Req)
      requires InvIo(K()) && CanStep(K(), Complete)
      modifies this, sched
      ensures K() == NextIo(old(K()), Complete) && InvIo(K())
      ensures old(device) == Started(r) && r in done && done[r]
    {
      NextIoInv(K(), Complete);
      CompletesTheStarted(K());
      SchedLocated(K());
      hide Located, WakeAll, InvIo, Claim, IoSpec.Run, Inv, NextIo;
      ghost var k := K();
      r := DequeueSched();
      CompleteParts(k, K());
      DoneSched(r);
    }

    /** The first check of a wait: return at once, or go to the request's completion queue. */
    method WaitEnter(r: Req) returns (over: bool)
      requires InvIo(K()) && CanStep(K(), IoSpec.IoStep.WaitEnter(r))
      modifies this`waiting, sched`state, sched`wq
      ensures K() == NextIo(old(K()), IoSpec.IoStep.WaitEnter(r)) && InvIo(K())
      ensures over == done[r] && done == old(done)
      ensures over ==> K() == old(K())
      ensures !over ==> sched.wq == old(sched.wq)[IocQ(r) := old(sched.M()).Q(IocQ(r)) + [sched.current]]
                        && sched.state == old(sched.state)[sched.current := Waiting]
                        && waiting == old(waiting)[sched.current := r]
    {
      NextIoInv(K(), IoSpec.IoStep.WaitEnter(r));
      SchedLocated(K());
      hide Inv, Located, WaitersServed, HistoryOk;
      if done[r] {
        return true;
      }
      sched.EnqueueCurrent(IocQ(r));
      waiting := waiting[sched.current := r];
      return false;
    }

    /** The check of the waiting loop.  When it ends the wait, the caller runs and is on no queue. */
    method WaitCheck(r: Req) returns (over: bool)
      requires InvIo(K()) && CanStep(K(), IoSpec.IoStep.WaitCheck) && waiting[sched.current] == r
      modifies this`waiting
      ensures K() == NextIo(old(K()), IoSpec.IoStep.WaitCheck) && InvIo(K())
      ensures over == done[r]
      ensures over ==> sched.M().Runs() && !OnSome(sched.M(), sched.current)
      ensures waiting == if over then old(waiting) - {sched.current} else old(waiting)
    {
      NextIoInv(K(), IoSpec.IoStep.WaitCheck);
      over := done[r];
      if over {
        WaitReturns(K());
        waiting := waiting - {sched.current};
      }
    }
  }

  /** Completion is the two calls of the driver, one after the other. */
  lemma CompleteParts(k: Io, m: Io)
    requires CanStep(k, Complete)
    requires m == k.(busy := k.busy - 1, device := Free, queue := k.queue[1..], completed := k.completed + [k.queue[0]])
    ensures NextIo(k, Complete)
         == IoSpec.Run(Claim(m.(s := WakeAll(m.s, IocQ(k.queue[0])), done := m.done[k.queue[0] := true])))
  {
    hide WakeAll, Claim, IoSpec.Run;
  }

  lemma QueueServed(k: Io)
    requires InvIo(k)
    ensures k.queue != [] <==> k.device != Free
    ensures k.device.Claimed? ==> k.queue != [] && k.queue[0] == k.device.req
    ensures k.busy == if k.device == Free then 0 else 1
  {
  }

  lemma SchedLocated(k: Io)
    requires InvIo(k)
    ensures Located(k.s)
    ensures k.busy == if k.device == Free then 0 else 1
  {
  }
}
