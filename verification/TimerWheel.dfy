/** The timer wheel's code: 32 list heads, two 32-bit masks and a 5-bit tick counter. */
module TimerWheel {
  import opened Shift
  import opened Word
  import opened WheelSpec

  // ---- Masks ----

  /** Rotate right by 0 < c < 32. */
  function Ror(v: word, c: nat): nat
    requires 0 < c < 32
  {
    Or(Shr(v, c), And(Shl(v, 32 - c), Mask(32)))
  }

  /** Rotate left, as the code does it. */
  function Rol(v: word, c: nat): nat
    requires c <= 32
  {
    if c % 32 == 0 then v else Ror(v, 32 - c)
  }

  lemma BitRor(v: word, c: nat, i: nat)
    requires 0 < c < 32
    ensures Bit(Ror(v, c), i) == (i < 32 && Bit(v, if i + c < 32 then i + c else i + c - 32))
  {
    HighBitsClear(v, i + c);
    hide Bit, Shr, Shl, And, Or, Mask;
    BitOr(Shr(v, c), And(Shl(v, 32 - c), Mask(32)), i);
    BitShr(v, c, i);
    BitAnd(Shl(v, 32 - c), Mask(32), i);
    BitMask(32, i);
    BitShl(v, 32 - c, i);
    if i >= 32 {
      HighBitsClear(v, i);
    }
  }

  lemma HighBitsClear(v: word, i: nat)
    ensures i >= 32 ==> !Bit(v, i)
  {
    WordPow2();
    BitBound(v, 32);
  }

  /** Bit i of the rotated word. */
  function Source(i: nat, c: nat): nat
    requires c <= 32
  {
    (i + 32 - c) % 32
  }

  lemma BitRol(v: word, c: nat, i: nat)
    requires c <= 32
    ensures Bit(Rol(v, c), i) == (i < 32 && Bit(v, Source(i, c)))
  {
    hide Bit, Ror;
    HighBitsClear(v, i);
    if c % 32 != 0 {
      BitRor(v, 32 - c, i);
      assert i < c ==> Source(i, c) == i + 32 - c;
      assert c <= i < 32 ==> Source(i, c) == i - c;
    }
  }

  /** The slots whose bits are set. */
  ghost function Slots(w: word): (s: set<nat>)
    ensures forall i :: i in s <==> 0 <= i < SLOTS && Bit(w, i)
  {
    set i: nat | i < SLOTS && Bit(w, i)
  }

  /** The mask of a batch of ticks: t consecutive slots after the current one, or all. */
  function BatchMask(ticks: nat, t: nat): nat
    requires ticks < 32
  {
    if t >= SLOTS then Mask(32) else Rol(LowMask(t), ticks + 1)
  }

  function LowMask(t: nat): word
    requires t < 32
  {
    MaskFits(t);
    Mask(t)
  }

  lemma MaskFits(t: nat)
    requires t <= 32
    ensures Mask(t) < 0x1_0000_0000
  {
    WordPow2();
    forall i: nat | i >= 32 ensures !Bit(Mask(t), i) {
      BitMask(t, i);
    }
    BitBound(Mask(t), 32);
  }

  lemma BatchMaskSelects(now: nat, t: nat, i: nat)
    requires i < SLOTS
    ensures Bit(BatchMask(now % SLOTS, t), i) <==> Selected(now, t, i)
  {
    if t >= SLOTS {
      BitMask(32, i);
    } else {
      BitRol(LowMask(t), now % SLOTS + 1, i);
      BitMask(t, (i + 32 - (now % SLOTS + 1)) % 32);
    }
  }

  lemma AndFits(a: nat, b: word)
    ensures And(a, b) < 0x1_0000_0000
  {
    WordPow2();
    BitBound(b, 32);
    forall i: nat | i >= 32 ensures !Bit(And(a, b), i) {
      BitAnd(a, b, i);
    }
    BitBound(And(a, b), 32);
  }

  lemma SlotsOfAnd(a: nat, b: word)
    ensures And(a, b) < 0x1_0000_0000
    ensures Slots(And(a, b)) == set i | i in Slots(b) && Bit(a, i)
  {
    AndFits(a, b);
    forall i: nat ensures Bit(And(a, b), i) == (Bit(a, i) && Bit(b, i)) {
      BitAnd(a, b, i);
    }
  }

  lemma SlotsOfOr(a: word, b: word)
    ensures Or(a, b) < 0x1_0000_0000
    ensures Slots(Or(a, b)) == Slots(a) + Slots(b)
  {
    WordPow2();
    OrFits(a, b, 32);
    forall i: nat ensures Bit(Or(a, b), i) == (Bit(a, i) || Bit(b, i)) {
      BitOr(a, b, i);
    }
  }

  lemma SlotsOfAndNot(a: word, b: word)
    ensures AndNot(a, b) < 0x1_0000_0000
    ensures Slots(AndNot(a, b)) == Slots(a) - Slots(b)
  {
    ClearBits(a, b);
  }

  lemma SlotsOfBit(i: nat)
    requires i < 32
    ensures Pow2(i) < 0x1_0000_0000 && Slots(Pow2(i)) == {i}
  {
    WordPow2();
    forall k: nat ensures Bit(Pow2(i), k) == (k == i) {
      BitPow2(i, k);
    }
    BitBound(Pow2(i), 32);
  }

  lemma SlotsEmpty(w: word)
    ensures w == 0 <==> Slots(w) == {}
  {
    if w == 0 {
      forall i: nat ensures !Bit(0, i) {
        BitZero(i);
      }
    } else if Slots(w) == {} {
      WordPow2();
      BitBound(w, 32);
      forall i: nat ensures Bit(w, i) == Bit(0, i) {
        BitZero(i);
        assert i !in Slots(w);
      }
      SameBits(w, 0);
    }
  }

  class TimerWheel {
    const heads: array<seq<Id>>
    var req: word
    var recv: word
    var ticks: nat
    /** The due slots that the handler has taken and not yet drained. */
    var mask: word
    ghost var now: nat
    ghost var deadline: map<Id, nat>
    ghost var fired: map<Id, nat>
    ghost var calls: seq<Id>

    ghost function W(): Wheel
      reads this, heads
    {
      Wheel(now, heads[..], Slots(req), Slots(recv), Slots(mask), deadline, fired, calls)
    }

    ghost predicate Valid()
      reads this, heads
    {
      heads.Length == SLOTS && ticks == now % SLOTS && Inv(W())
    }

    constructor ()
      ensures Valid() && W() == Empty()
      ensures fresh(heads)
    {
      heads := new seq<Id>[SLOTS](_ => []);
      req, recv, ticks, mask := 0, 0, 0, 0;
      now, deadline, fired, calls := 0, map[], map[], [];
      new;
      SlotsEmpty(0);
      assert heads[..] == seq(SLOTS, _ => []);
    }

    /** The tick handler: collects the slots of the elapsed ticks.  Raises the timer interrupt if any
        armed slot is among them. */
    method TickSoft(t: nat) returns (raise: bool)
      requires Valid()
      modifies this`recv, this`ticks, this`now
      ensures Valid() && W() == Next(old(W()), Tick(t))
      ensures raise <==> Batch(old(W()), t) != {}
      ensures now == old(now) + t
    {
      hide Inv, Selected, Rol, Mask, Slots, Or, And, Bit;
      ghost var w := W();
      TickInv(w, t);
      var m := if t >= SLOTS then Mask(32) else Rol(LowMask(t), ticks + 1);
      SlotsOfAnd(m, req);
      BatchIsSelected(w, t, m);
      var due: word := And(m, req);
      SlotsEmpty(due);
      assert Slots(due) == Batch(w, t);
      raise := false;
      if due != 0 {
        SlotsOfOr(recv, due);
        recv := Or(recv, due);
        raise := true;
      }
      ticks := (ticks + t) % SLOTS;
      now := now + t;
      assert Slots(recv) == w.recv + Batch(w, t);
    }

    /** Arms a timer, with the tick handler shut out. */
    method Arm(x: Id, t: nat)
      requires Valid() && Enabled(W(), WheelSpec.Step.Arm(x, t))
      modifies this`req, this`deadline, heads
      ensures Valid() && W() == Next(old(W()), WheelSpec.Step.Arm(x, t))
      ensures deadline == old(deadline)[x := now + t] && x !in old(deadline) && x !in fired
      ensures heads[..] == old(heads[..])[SlotOf(now + t) := old(heads[SlotOf(now + t)]) + [x]]
    {
      hide Inv, Slots, Or, And, AndNot, Pow2, Bit, SlotOf;
      ghost var w := W();
      ArmInv(w, x, t);
      var ft := (ticks + t) % SLOTS;
      ArmSlot(ticks, now, t);
      SlotsOfBit(ft);
      SlotsOfOr(req, Pow2(ft));
      heads[ft] := heads[ft] + [x];
      req := Or(req, Pow2(ft));
      deadline := deadline[x := now + t];
      ghost var n := Next(w, WheelSpec.Step.Arm(x, t));
      assert W().slots == n.slots;
      assert W().req == n.req;
    }

    /** The first part of the timer interrupt, with the tick handler shut out. */
    method Collect() returns (any: bool)
      requires Valid() && mask == 0
      modifies this`req, this`recv, this`mask
      ensures Valid() && W() == Next(old(W()), WheelSpec.Step.Collect)
      ensures any <==> old(W()).recv != {}
    {
      hide Inv, Slots, Or, And, AndNot, Pow2, Bit;
      SlotsEmpty(0);
      CollectInv(W());
      mask := recv;
      recv := 0;
      SlotsOfAndNot(req, mask);
      req := AndNot(req, mask);
      SlotsEmpty(mask);
      any := mask != 0;
    }

    /** Fires every timer of one due slot; ticks may come in between slots. */
    method Drain(i: nat)
      requires Valid() && i < SLOTS && And(mask, Pow2(i)) != 0
      modifies this`mask, this`deadline, this`fired, this`calls, heads
      ensures Enabled(old(W()), WheelSpec.Step.Drain(i))
      ensures Valid() && W() == Next(old(W()), WheelSpec.Step.Drain(i))
    {
      hide Inv, Slots, Or, And, AndNot, Pow2, Bit;
      ghost var w := W();
      TestBit(mask, i);
      DrainInv(w, i);
      FiringNotEmpty(w, i);
      assert heads[i] != [];
      FireList(i);
      SlotsOfBit(i);
      SlotsOfAndNot(mask, Pow2(i));
      mask := AndNot(mask, Pow2(i));
      ghost var n := Next(w, WheelSpec.Step.Drain(i));
      assert W().slots == n.slots;
      assert W().deadline == n.deadline;
      assert W().fired == n.fired;
      assert W().firing == n.firing;
      assert W().calls == n.calls;
    }

    /** Unlinks and fires the timers of one list, from the front. */
    method FireList(i: nat)
      requires i < heads.Length
      modifies this`deadline, this`fired, this`calls, heads
      ensures heads[..] == old(heads[..])[i := []]
      ensures deadline == Pending(old(deadline), old(heads[i])) && fired == Fired(old(fired), old(heads[i]), now)
      ensures calls == old(calls) + old(heads[i])
    {
      hide Pending, Fired;
      ghost var done: seq<Id> := [];
      OnePending(deadline, [], 0);
      OneFires(fired, [], 0, now);
      while heads[i] != []
        invariant done + heads[i] == old(heads[i]) && calls == old(calls) + done
        invariant heads[..] == old(heads[..])[i := heads[i]]
        invariant deadline == Pending(old(deadline), done)
        invariant fired == Fired(old(fired), done, now)
        decreases |heads[i]|
      {
        ghost var x := heads[i][0];
        OnePending(old(deadline), done, x);
        OneFires(old(fired), done, x, now);
        assert heads[i] == [x] + heads[i][1..];
        heads[i] := heads[i][1..];
        deadline := deadline - {x};
        fired := fired[x := now];
        calls, done := calls + [x], done + [x];
      }
      assert done == old(heads[i]);
    }

    /** The timer interrupt when no tick comes in between: all due slots are drained, in order. */
    method IrqTimer()
      requires Valid() && mask == 0
      modifies this, heads
      ensures Valid() && W().recv == {} && W().firing == {} && now == old(now)
      ensures forall x :: x in old(deadline) ==>
                if old(deadline[x]) <= now then x in fired && fired[x] == now
                else x in deadline && deadline[x] == old(deadline[x])
    {
      hide Inv, Slots, Or, And, AndNot, Pow2, Bit;
      ghost var d := deadline;
      var any := Collect();
      SlotsEmpty(recv);
      var i := 0;
      while i < SLOTS
        invariant 0 <= i <= SLOTS && Valid() && now == old(now) && recv == 0
        invariant forall k :: k in Slots(mask) ==> i <= k
        invariant forall x :: x in d ==>
                    if x in deadline then deadline[x] == d[x] else x in fired && fired[x] == now && d[x] <= now
      {
        TestBit(mask, i);
        if And(mask, Pow2(i)) != 0 {
          ghost var w := W();
          DrainInv(w, i);
          Drain(i);
        }
        i := i + 1;
      }
      SlotsEmpty(recv);
      AllDueFired(W());
    }
  }

  /** The timers left when those in calls have fired, and when each has fired. */
  ghost function Pending(d: map<Id, nat>, calls: seq<Id>): map<Id, nat> {
    map x | x in d && x !in calls :: d[x]
  }

  ghost function Fired(f: map<Id, nat>, calls: seq<Id>, now: nat): map<Id, nat> {
    f + map x | x in calls :: now
  }

  lemma ArmSlot(ticks: nat, now: nat, t: nat)
    requires ticks == now % SLOTS
    ensures (ticks + t) % SLOTS == SlotOf(now + t)
  {
  }

  lemma OnePending(d: map<Id, nat>, calls: seq<Id>, x: Id)
    ensures Pending(d, calls) - {x} == Pending(d, calls + [x])
    ensures Pending(d, []) == d
  {
    var l, r := Pending(d, calls) - {x}, Pending(d, calls + [x]);
    forall y ensures y in l <==> y in r {
      assert y in calls + [x] <==> y in calls || y == x;
    }
    assert l.Keys == r.Keys;
  }

  lemma OneFires(f: map<Id, nat>, calls: seq<Id>, x: Id, now: nat)
    ensures Fired(f, calls, now)[x := now] == Fired(f, calls + [x], now)
    ensures Fired(f, [], now) == f
  {
    var l, r := Fired(f, calls, now)[x := now], Fired(f, calls + [x], now);
    forall y ensures y in l <==> y in r {
      assert y in calls + [x] <==> y in calls || y == x;
    }
    assert l.Keys == r.Keys;
  }

  lemma BatchIsSelected(w: Wheel, t: nat, m: nat)
    requires m == BatchMask(w.now % SLOTS, t)
    ensures forall i: nat | i < SLOTS :: Bit(m, i) <==> Selected(w.now, t, i)
  {
    forall i: nat | i < SLOTS ensures Bit(m, i) <==> Selected(w.now, t, i) {
      BatchMaskSelects(w.now, t, i);
    }
  }

  lemma FiringNotEmpty(w: Wheel, i: nat)
    requires Inv(w) && i in w.firing && i < SLOTS
    ensures w.slots[i] != []
  {
  }

  lemma AllDueFired(w: Wheel)
    requires Inv(w) && w.recv == {} && w.firing == {}
    ensures forall x :: x in w.deadline ==> w.now < w.deadline[x]
  {
  }
}
