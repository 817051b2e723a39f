/** The timer wheel as a state machine over absolute time.  `now` is the unbounded tick count, of
    which the code keeps only the low five bits; a timer's deadline is absolute. */
module WheelSpec {
  import opened Sequences

  const SLOTS: nat := 32

  type Id = nat

  datatype Wheel = Wheel(
    now: nat,
    slots: seq<seq<Id>>,
    req: set<nat>,        // slots with armed timers (timer_req_mask)
    recv: set<nat>,       // slots whose timers are due (timer_recv_mask)
    firing: set<nat>,     // due slots taken by the handler and not yet drained
    deadline: map<Id, nat>,
    fired: map<Id, nat>,  // when each timer that is no longer armed fired
    calls: seq<Id>)       // the calls of timer functions so far, in order

  function SlotOf(d: nat): nat {
    d % SLOTS
  }

  /** A slot is selected by a batch of t ticks. */
  predicate Selected(now: nat, t: nat, i: nat) {
    t >= SLOTS || (i + SLOTS - 1 - now % SLOTS) % SLOTS < t
  }

  ghost predicate Inv(w: Wheel) {
    SlotsOk(w) && MasksOk(w) && DueOk(w) && CallsOk(w)
  }

  /** The function of each fired timer has been called, once. */
  ghost predicate CallsOk(w: Wheel) {
    Distinct(w.calls) && forall x :: x in w.calls <==> x in w.fired
  }

  /** Slot i holds exactly the pending timers whose deadline is i modulo 32, once each. */
  ghost predicate SlotsOk(w: Wheel) {
    && |w.slots| == SLOTS
    && (forall i :: 0 <= i < SLOTS ==> Distinct(w.slots[i]))
    && (forall i, x :: 0 <= i < SLOTS && x in w.slots[i] ==> x in w.deadline && SlotOf(w.deadline[x]) == i)
    && (forall x :: x in w.deadline ==> x in w.slots[SlotOf(w.deadline[x])])
    && w.deadline.Keys !! w.fired.Keys
  }

  /** A request bit is set iff its slot is not empty, except for slots already being drained. */
  ghost predicate MasksOk(w: Wheel)
    requires |w.slots| == SLOTS
  {
    && (forall i :: i in w.req <==> 0 <= i < SLOTS && w.slots[i] != [] && i !in w.firing)
    && (forall i :: i in w.firing ==> 0 <= i < SLOTS && w.slots[i] != [])
    && w.recv <= w.req
  }

  predicate Due(w: Wheel, i: nat) {
    i in w.recv || i in w.firing
  }

  /** A pending timer is due iff its deadline has come; otherwise it is at most 32 ticks away. */
  ghost predicate DueOk(w: Wheel) {
    forall x :: x in w.deadline ==>
      if Due(w, SlotOf(w.deadline[x])) then w.deadline[x] <= w.now
      else w.now < w.deadline[x] <= w.now + SLOTS
  }

  // ---- Steps ----

  datatype Step = Arm(x: Id, ticks: nat) | Tick(t: nat) | Collect | Drain(i: nat)

  /** Arming happens only while no timer is due: the due ones fire before any thread runs. */
  predicate Enabled(w: Wheel, a: Step) {
    |w.slots| == SLOTS &&
    match a
    case Arm(x, ticks) =>
      0 < ticks <= SLOTS && x !in w.deadline && x !in w.fired && w.recv == {} && w.firing == {}
    case Tick(_) => true
    case Collect => w.firing == {}
    case Drain(i) => i in w.firing && i < SLOTS
  }

  /** The armed slots that a batch of t ticks makes due. */
  function Batch(w: Wheel, t: nat): (s: set<nat>)
    ensures forall i :: i in s <==> i in w.req && Selected(w.now, t, i)
  {
    set i | i in w.req && Selected(w.now, t, i)
  }

  function Next(w: Wheel, a: Step): Wheel
    requires Enabled(w, a)
  {
    match a
    case Arm(x, ticks) =>
      var i := SlotOf(w.now + ticks);
      w.(slots := w.slots[i := w.slots[i] + [x]], req := w.req + {i}, deadline := w.deadline[x := w.now + ticks])
    case Tick(t) =>
      w.(now := w.now + t, recv := w.recv + Batch(w, t))
    case Collect =>
      w.(firing := w.recv, req := w.req - w.recv, recv := {})
    case Drain(i) =>
      w.(slots := w.slots[i := []], firing := w.firing - {i},
         deadline := map x | x in w.deadline && x !in w.slots[i] :: w.deadline[x],
         fired := w.fired + map x | x in w.slots[i] :: w.now, calls := w.calls + w.slots[i])
  }

  // ---- Every step keeps the invariant ----

  /** Among the next 32 ticks, the slot of a deadline is selected iff the deadline has come. */
  lemma SelectedIffCome(now: nat, t: nat, d: nat)
    requires now < d <= now + SLOTS
    ensures Selected(now, t, SlotOf(d)) <==> d <= now + t
  {
    assert (SlotOf(d) + SLOTS - 1 - now % SLOTS) % SLOTS == d - now - 1;
  }

  /** A batch of t ticks makes due exactly the pending timers with a deadline up to now + t. */
  lemma TickSelects(w: Wheel, t: nat, x: Id)
    requires Inv(w) && x in w.deadline
    ensures Due(Next(w, Tick(t)), SlotOf(w.deadline[x])) <==> w.deadline[x] <= w.now + t
  {
    var i := SlotOf(w.deadline[x]);
    assert x in w.slots[i];
    if !Due(w, i) {
      SelectedIffCome(w.now, t, w.deadline[x]);
    }
  }

  lemma ArmInv(w: Wheel, x: Id, ticks: nat)
    requires Inv(w) && Enabled(w, Arm(x, ticks))
    ensures Inv(Next(w, Arm(x, ticks)))
  {
    ArmSlots(w, x, ticks);
    hide Distinct, SlotsOk;
    var n := Next(w, Arm(x, ticks));
    forall y | y in n.deadline ensures n.now < n.deadline[y] <= n.now + SLOTS {
    }
  }

  lemma ArmSlots(w: Wheel, x: Id, ticks: nat)
    requires Inv(w) && Enabled(w, Arm(x, ticks))
    ensures SlotsOk(Next(w, Arm(x, ticks)))
  {
    hide MasksOk, DueOk;
    var n := Next(w, Arm(x, ticks));
    var i := SlotOf(w.now + ticks);
    assert x !in w.slots[i];
    assert Distinct(n.slots[i]);
    hide Distinct;
    assert forall k, y :: 0 <= k < SLOTS && y in n.slots[k]
                     <==> 0 <= k < SLOTS && (y in w.slots[k] || (k == i && y == x));
  }

  lemma TickInv(w: Wheel, t: nat)
    requires Inv(w)
    ensures Inv(Next(w, Tick(t)))
  {
    var n := Next(w, Tick(t));
    forall x | x in n.deadline
      ensures if Due(n, SlotOf(n.deadline[x])) then n.deadline[x] <= n.now else n.now < n.deadline[x] <= n.now + SLOTS
    {
      TickSelects(w, t, x);
    }
    hide Selected;
  }

  lemma CollectInv(w: Wheel)
    requires Inv(w) && w.firing == {}
    ensures Inv(Next(w, Collect))
  {
  }

  lemma DrainCalls(w: Wheel, i: nat)
    requires Inv(w) && Enabled(w, Drain(i))
    ensures CallsOk(Next(w, Drain(i)))
  {
    hide MasksOk, DueOk;
    var c, l := w.calls, w.slots[i];
    forall x | x in l ensures x !in c {
      assert x in w.deadline.Keys && (x in c ==> x in w.fired.Keys);
    }
    forall j, k | 0 <= j < k < |c + l| ensures (c + l)[j] != (c + l)[k] {
      if j < |c| <= k {
        assert l[k - |c|] in l && c[j] in c;
      }
    }
  }

  lemma DrainSlots(w: Wheel, i: nat)
    requires Inv(w) && Enabled(w, Drain(i))
    ensures SlotsOk(Next(w, Drain(i)))
  {
    hide MasksOk, DueOk, CallsOk, Distinct;
    NothingTwice();
    var n := Next(w, Drain(i));
    forall k | 0 <= k < SLOTS ensures Distinct(n.slots[k]) {
      assert Distinct(w.slots[k]);
    }
    forall k, x | 0 <= k < SLOTS && x in n.slots[k] ensures x in n.deadline && SlotOf(n.deadline[x]) == k {
      assert k != i && x in w.slots[k];
      assert x in w.deadline && SlotOf(w.deadline[x]) == k;
      assert x !in w.slots[i];
    }
    forall x | x in n.deadline ensures x in n.slots[SlotOf(n.deadline[x])] {
      assert x in w.deadline && x !in w.slots[i];
      assert x in w.slots[SlotOf(w.deadline[x])];
    }
    forall x | x in n.deadline ensures x !in n.fired {
      assert x in w.deadline.Keys && x !in w.fired.Keys;
    }
  }

  lemma NothingTwice()
    ensures Distinct<Id>([])
  {
  }

  lemma DrainMasks(w: Wheel, i: nat)
    requires Inv(w) && Enabled(w, Drain(i))
    ensures |Next(w, Drain(i)).slots| == SLOTS && MasksOk(Next(w, Drain(i)))
  {
    hide DueOk, CallsOk, Distinct;
  }

  lemma DrainDue(w: Wheel, i: nat)
    requires Inv(w) && Enabled(w, Drain(i))
    ensures forall x :: x in w.slots[i] ==> x in w.deadline && w.deadline[x] <= w.now
    ensures DueOk(Next(w, Drain(i)))
  {
    hide CallsOk, Distinct, MasksOk;
    forall x | x in w.slots[i] ensures x in w.deadline && w.deadline[x] <= w.now {
      assert SlotOf(w.deadline[x]) == i;
    }
    var n := Next(w, Drain(i));
    forall x | x in n.deadline
      ensures if Due(n, SlotOf(n.deadline[x])) then n.deadline[x] <= n.now else n.now < n.deadline[x] <= n.now + SLOTS
    {
      assert x in w.deadline && x in w.slots[SlotOf(w.deadline[x])];
    }
  }

  lemma DrainInv(w: Wheel, i: nat)
    requires Inv(w) && Enabled(w, Drain(i))
    ensures Inv(Next(w, Drain(i)))
    ensures forall x :: x in w.slots[i] ==> x in w.deadline && w.deadline[x] <= w.now
  {
    hide CallsOk, Distinct, MasksOk, DueOk, SlotsOk, Next;
    DrainCalls(w, i);
    DrainSlots(w, i);
    DrainMasks(w, i);
    DrainDue(w, i);
  }

  lemma NextInv(w: Wheel, a: Step)
    requires Inv(w) && Enabled(w, a)
    ensures Inv(Next(w, a))
  {
    hide Inv, Next;
    match a {
      case Arm(x, ticks) => ArmInv(w, x, ticks);
      case Tick(t) => TickInv(w, t);
      case Collect => CollectInv(w);
      case Drain(i) => DrainInv(w, i);
    }
  }

  // ---- Runs ----

  ghost predicate Possible(w: Wheel, steps: seq<Step>)
    decreases |steps|
  {
    steps == [] || (Enabled(w, steps[0]) && Possible(Next(w, steps[0]), steps[1..]))
  }

  ghost function Run(w: Wheel, steps: seq<Step>): Wheel
    requires Possible(w, steps)
    decreases |steps|
  {
    if steps == [] then w else Run(Next(w, steps[0]), steps[1..])
  }

  lemma {:induction false} RunInv(w: Wheel, steps: seq<Step>)
    requires Inv(w) && Possible(w, steps)
    ensures Inv(Run(w, steps))
    decreases |steps|
  {
    hide Inv, Next, Enabled;
    if steps != [] {
      NextInv(w, steps[0]);
      RunInv(Next(w, steps[0]), steps[1..]);
    }
  }

  /** The wheel after boot. */
  function Empty(): Wheel {
    Wheel(0, seq(SLOTS, _ => []), {}, {}, {}, map[], map[], [])
  }

  /** Over every run from boot: a pending timer is in the slot of its deadline and in no other, and it is due
      iff its deadline has come, which is otherwise at most 32 ticks ahead; the request bit of a slot
      is set iff timers are in it, but for the slots that are just being drained.  No timer's function is
      called twice. */
  lemma WheelSafety(steps: seq<Step>)
    requires Possible(Empty(), steps)
    ensures var w := Run(Empty(), steps);
            && |w.slots| == SLOTS && w.deadline.Keys !! w.fired.Keys
            && Distinct(w.calls) && (forall x :: x in w.calls <==> x in w.fired)
            && (forall x, i :: 0 <= i < SLOTS ==>
                  (x in w.slots[i] <==> x in w.deadline && i == SlotOf(w.deadline[x])))
            && (forall x :: x in w.deadline ==>
                  && (Due(w, SlotOf(w.deadline[x])) <==> w.deadline[x] <= w.now)
                  && w.deadline[x] <= w.now + SLOTS)
            && (forall i :: 0 <= i < SLOTS && i !in w.firing ==> (i in w.req <==> w.slots[i] != []))
  {
    assert Inv(Empty());
    RunInv(Empty(), steps);
    hide Run, Empty, Possible;
  }

  /** Time does not run backwards, and a timer that has fired stays fired, at the same time. */
  lemma {:induction false} RunMonotone(w: Wheel, steps: seq<Step>)
    requires Inv(w) && Possible(w, steps)
    ensures w.now <= Run(w, steps).now
    ensures forall x :: x in w.fired ==> x in Run(w, steps).fired && Run(w, steps).fired[x] == w.fired[x]
    decreases |steps|
  {
    if steps != [] {
      FiredOnce(w, steps[0]);
      NextInv(w, steps[0]);
      hide Inv, Next, Enabled;
      RunMonotone(Next(w, steps[0]), steps[1..]);
    }
  }

  /** Draining a slot fires each of its timers once, and none of them has fired before. */
  lemma FiredOnce(w: Wheel, a: Step)
    requires Inv(w) && Enabled(w, a)
    ensures a.Drain? ==> Distinct(w.slots[a.i]) && forall x :: x in w.slots[a.i] ==> x in w.deadline && x !in w.fired
    ensures w.now <= Next(w, a).now
    ensures forall x :: x in w.fired ==> x in Next(w, a).fired && Next(w, a).fired[x] == w.fired[x]
    ensures forall x :: x in w.deadline ==>
              if x in Next(w, a).deadline then Next(w, a).deadline[x] == w.deadline[x]
              else x in Next(w, a).fired && Next(w, a).fired[x] == w.now >= w.deadline[x]
  {
    if a.Drain? {
      DrainInv(w, a.i);
    }
  }

  /** A timer armed once is, at every later moment, either still pending with the same deadline, or has
      fired, exactly once, at or after its deadline; when no slot is due, it has fired iff its
      deadline has come. */
  lemma {:induction false} TimerFate(w: Wheel, steps: seq<Step>, x: Id)
    requires Inv(w) && Possible(w, steps) && x in w.deadline
    ensures var e := Run(w, steps);
            && (x in e.deadline || x in e.fired) && !(x in e.deadline && x in e.fired)
            && (x in e.deadline ==> e.deadline[x] == w.deadline[x])
            && (x in e.fired ==> w.deadline[x] <= e.fired[x] <= e.now)
            && (e.recv == {} && e.firing == {} ==> (x in e.fired <==> w.deadline[x] <= e.now))
    decreases |steps|
  {
    RunInv(w, steps);
    if steps != [] {
      var n := Next(w, steps[0]);
      FiredOnce(w, steps[0]);
      NextInv(w, steps[0]);
      if x in n.deadline {
        TimerFate(n, steps[1..], x);
      } else {
        RunMonotone(n, steps[1..]);
      }
      hide Inv, Next, Enabled;
    }
  }

  /** The ticks that go by in a run. */
  function Elapsed(steps: seq<Step>): nat {
    if steps == [] then 0 else (if steps[0].Tick? then steps[0].t else 0) + Elapsed(steps[1..])
  }

  lemma {:induction false} ClockOf(w: Wheel, steps: seq<Step>)
    requires Possible(w, steps)
    ensures Run(w, steps).now == w.now + Elapsed(steps)
    decreases |steps|
  {
    if steps != [] {
      ClockOf(Next(w, steps[0]), steps[1..]);
    }
  }

  /** A timer armed for a number of ticks has not fired, and its function not been called, before that many
      ticks have gone by; and whenever they have and no slot is due, it has fired, with one call. */
  lemma FiresAfterItsTicks(w: Wheel, x: Id, ticks: nat, steps: seq<Step>)
    requires Inv(w) && Enabled(w, Arm(x, ticks)) && Possible(Next(w, Arm(x, ticks)), steps)
    ensures var e := Run(Next(w, Arm(x, ticks)), steps);
            && (Elapsed(steps) < ticks ==> x !in e.fired && x !in e.calls)
            && (Elapsed(steps) >= ticks && e.recv == {} && e.firing == {} ==> x in e.fired && x in e.calls)
            && (x in e.fired ==> w.now + ticks <= e.fired[x] <= w.now + Elapsed(steps))
            && Distinct(e.calls)
  {
    var n := Next(w, Arm(x, ticks));
    NextInv(w, Arm(x, ticks));
    TimerFate(n, steps, x);
    ClockOf(n, steps);
    RunInv(n, steps);
    hide Run, Possible, SlotsOk, MasksOk, DueOk, Distinct;
  }
}
