/** The interrupt entry as it runs: the counters in place, with nested interrupts arriving wherever the
    code has them enabled.  Module Interrupts covers thread switches and handlers that hold disables. */
module InterruptEntry {
  import opened Sequences
  import opened Shift
  import opened Word

  /** The interrupts that arrive at one place, one after the other; each carries the interrupts that
      arrive at the places it goes through. */
  datatype Arrivals =
    | Quiet
    | Arrival(inSoft: Arrivals, afterSoft: Arrivals, inSched: Arrivals, afterSched: Arrivals, inLastSoft: Arrivals,
              rest: Arrivals)

  /** How many interrupts arrive one after the other, not counting those nested in them. */
  function Count(a: Arrivals): nat {
    if a.Quiet? then 0 else 1 + Count(a.rest)
  }

  datatype Handler = Soft | Sched

  /** The handlers that one interrupt runs, given the counters it finds: the soft ones on the way in and again on
      the way out, and the scheduler's in between. */
  function RunByOne(soft: int, sched: int): seq<Handler> {
    if soft != 0 then [] else if sched != 0 then [Soft, Soft] else [Soft, Sched, Soft]
  }

  /** The handlers that n interrupts run, one after the other. */
  function RunBy(n: nat, soft: int, sched: int): seq<Handler> {
    if n == 0 then [] else RunByOne(soft, sched) + RunBy(n - 1, soft, sched)
  }

  /** Nothing runs while soft interrupts are disabled. */
  lemma {:induction false} NothingRuns(n: nat, soft: int, sched: int)
    requires soft != 0
    ensures RunBy(n, soft, sched) == []
  {
    if n > 0 {
      NothingRuns(n - 1, soft, sched);
    }
  }

  function Size(a: Arrivals): nat {
    if a.Quiet? then 0 else
    1 + Size(a.inSoft) + Size(a.afterSoft) + Size(a.inSched) + Size(a.afterSched) + Size(a.inLastSoft) + Size(a.rest)
  }

  class Processor {
    var soft: int
    var sched: int
    var inIrq: bool
    /** A soft handler is active. */
    var softActive: bool
    /** The entries of handlers, in order. */
    ghost var trace: seq<Handler>

    /** While soft handlers are active, or an interrupt is being served, soft interrupts are disabled. */
    predicate Valid()
      reads this
    {
      soft >= 0 && sched >= 0 && (softActive || inIrq ==> soft >= 1)
    }

    ghost predicate Same(soft0: int, sched0: int, irq0: bool, active0: bool)
      reads this
    {
      soft == soft0 && sched == sched0 && inIrq == irq0 && softActive == active0
    }

    /** Entered only when no soft handler is active. */
    method IrqSoft(a: Arrivals)
      requires Valid() && soft >= 1 && !softActive
      modifies this
      ensures Same(old(soft), old(sched), old(inIrq), old(softActive))
      ensures trace == old(trace) + [Soft]
      decreases Size(a), 2
    {
      softActive := true;
      trace := trace + [Soft];
      NothingRuns(Count(a), soft, sched);
      Interrupts(a);
      softActive := false;
    }

    method IrqSched(a: Arrivals)
      requires Valid() && sched >= 1
      modifies this
      ensures Same(old(soft), old(sched), old(inIrq), old(softActive))
      ensures trace == old(trace) + [Sched] + RunBy(Count(a), soft, sched)
      decreases Size(a), 2
    {
      trace := trace + [Sched];
      Interrupts(a);
    }

    method IrqSoftEnable(a: Arrivals)
      requires Valid() && soft >= 1
      // The caller gives up a disable of its own: one is left for whoever still needs it.
      requires softActive || inIrq ==> soft >= 2
      modifies this
      ensures Same(old(soft) - 1, old(sched), old(inIrq), old(softActive)) && Valid()
      ensures trace == old(trace) + if old(soft) == 1 then [Soft] else []
      decreases Size(a), 3
    {
      if !inIrq && soft == 1 {
        IrqSoft(a);
      }
      soft := soft - 1;
    }

    method IrqSchedEnable(a: Arrivals)
      requires Valid() && sched >= 1
      modifies this
      ensures Same(old(soft), old(sched) - 1, old(inIrq), old(softActive)) && Valid()
      ensures trace == old(trace) +
                       if !old(inIrq) && old(sched) == 1 then [Sched] + RunBy(Count(a), soft, old(sched)) else []
      decreases Size(a), 3
    {
      if !inIrq && sched == 1 {
        IrqSched(a);
      }
      sched := sched - 1;
    }

    /** One interrupt, with all that nest in it: the interrupted code finds both counters, the flag and
        the activity of soft handlers as they were.  Handlers run exactly if the interrupt found soft
        interrupts enabled: the soft ones on the way in, then the scheduler's if they were enabled too, and
        the soft ones again on the way out; nothing that nests runs any. */
    method ExcptIrq(a: Arrivals)
      requires Valid() && a.Arrival?
      modifies this
      ensures Same(old(soft), old(sched), old(inIrq), old(softActive))
      ensures old(soft) == 0 && old(sched) == 0 ==> trace == old(trace) + [Soft, Sched, Soft]
      ensures old(soft) == 0 && old(sched) != 0 ==> trace == old(trace) + [Soft, Soft]
      ensures old(soft) != 0 ==> trace == old(trace)
      decreases Size(a), 0
    {
      soft := soft + 1;
      if soft <= 1 {
        inIrq := true;
        IrqSoft(a.inSoft);
        NothingRuns(Count(a.afterSoft), soft, sched);
        Interrupts(a.afterSoft);
        sched := sched + 1;
        NothingRuns(Count(a.inSched), soft, sched);
        NothingRuns(Count(a.afterSched), soft, sched);
        if sched <= 1 {
          IrqSched(a.inSched);
        }
        Interrupts(a.afterSched);
        IrqSchedEnable(Quiet);
        inIrq := false;
      }
      IrqSoftEnable(a.inLastSoft);
    }

    method Interrupts(a: Arrivals)
      requires Valid()
      modifies this
      ensures Same(old(soft), old(sched), old(inIrq), old(softActive))
      ensures trace == old(trace) + RunBy(Count(a), soft, sched)
      decreases Size(a), 1
    {
      if a.Arrival? {
        ExcptIrq(a);
        Interrupts(a.rest);
      }
    }
  }

  // ---- Dispatch of pending soft interrupts ----

  /** Lines in a mask, each with or without a handler. */
  class Pending {
    var mask: word
    const hasHandler: seq<bool>

    constructor (handlers: seq<bool>)
      ensures mask == 0 && hasHandler == handlers
    {
      mask := 0;
      hasHandler := handlers;
    }

    /** `irq_soft_raise`. */
    method Raise(line: nat)
      requires line < 32
      modifies this
      ensures forall i: nat :: Bit(mask, i) == (Bit(old(mask), i) || i == line)
    {
      SetBit(mask, line);
      mask := Or(mask, Pow2(line));
    }

    /** One round of the dispatch loop: takes the mask, and calls the handlers of its lines.
        `calls` are the lines served, in order. */
    method DispatchRound() returns (calls: seq<nat>)
      modifies this`mask
      ensures mask == 0
      ensures calls == Served(hasHandler, old(mask), 0)
    {
      hide Served;
      var m: nat := mask;
      mask := 0;
      calls := [];
      var i := 0;
      while i < |hasHandler| && m != 0
        invariant i <= |hasHandler| && m == Shr(old(mask), i) && mask == 0
        invariant calls + Served(hasHandler, old(mask), i) == Served(hasHandler, old(mask), 0)
      {
        BitShr(old(mask), i, 0);
        ServedStep(hasHandler, old(mask), i, calls);
        if m % 2 == 1 && hasHandler[i] {
          calls := calls + [i];
        }
        ShrStep(old(mask), i);
        m := m / 2;
        i := i + 1;
      }
      if m == 0 {
        forall line: nat | line >= i ensures !Bit(old(mask), line) {
          BitShr(old(mask), i, line - i);
          BitZero(line - i);
        }
      }
      NothingServed(hasHandler, old(mask), i);
    }

    /** The dispatch loop.  raised[k] are the lines raised while round k is being served; nothing is raised after
        the last of them.  The loop ends with an empty mask, and has served, round by round, the lines
        pending at its start and all those raised before a round found the mask empty. */
    method DispatchLoop(raised: seq<word>) returns (calls: seq<nat>)
      modifies this`mask
      ensures mask == 0
      ensures calls == ServedRounds(hasHandler, old(mask), raised)
    {
      hide Served, ServedRounds;
      calls := [];
      var rounds := 0;
      assert raised[0..] == raised;
      while mask != 0
        invariant rounds <= |raised| + 1 && (rounds == |raised| + 1 ==> mask == 0)
        invariant rounds <= |raised| ==>
                    calls + ServedRounds(hasHandler, mask, raised[rounds..])
                    == ServedRounds(hasHandler, old(mask), raised)
        invariant rounds == |raised| + 1 ==> calls == ServedRounds(hasHandler, old(mask), raised)
        decreases |raised| + 1 - rounds
      {
        RoundServed(hasHandler, mask, raised, rounds, calls);
        var now := DispatchRound();
        if rounds < |raised| {
          mask := raised[rounds];
        }
        calls := calls + now;
        rounds := rounds + 1;
      }
      if rounds <= |raised| {
        NoRound(hasHandler, raised[rounds..]);
      }
    }
  }

  /** The lines from `from` on that are pending and have a handler, in ascending order. */
  function Served(handlers: seq<bool>, mask: nat, from: nat): seq<nat>
    decreases |handlers| - from
  {
    if from >= |handlers| then []
    else (if Bit(mask, from) && handlers[from] then [from] else []) + Served(handlers, mask, from + 1)
  }

  predicate Serves(handlers: seq<bool>, mask: nat, line: nat) {
    line < |handlers| && Bit(mask, line) && handlers[line]
  }

  lemma ServedFirst(handlers: seq<bool>, mask: nat, from: nat)
    ensures Served(handlers, mask, from) ==
            if from >= |handlers| then []
            else (if Serves(handlers, mask, from) then [from] else []) + Served(handlers, mask, from + 1)
  {
    hide Bit;
  }

  /** Exactly those lines, each once. */
  lemma {:induction false} ServedLines(handlers: seq<bool>, mask: nat, from: nat)
    ensures var s := Served(handlers, mask, from);
            && (forall line: nat :: line in s <==> from <= line && Serves(handlers, mask, line))
            && (forall i, j :: 0 <= i < j < |s| ==> s[i] < s[j])
    decreases |handlers| - from
  {
    hide Served, Bit;
    ServedFirst(handlers, mask, from);
    if from < |handlers| {
      hide Serves;
      var rest := Served(handlers, mask, from + 1);
      ServedLines(handlers, mask, from + 1);
      Ahead(from, rest);
      assert [] + rest == rest;
    }
  }

  lemma ServedStep(handlers: seq<bool>, mask: nat, i: nat, calls: seq<nat>)
    requires i < |handlers|
    ensures (if Bit(mask, i) && handlers[i] then calls + [i] else calls) + Served(handlers, mask, i + 1)
         == calls + Served(handlers, mask, i)
  {
    hide Bit;
  }

  lemma {:induction false} NothingServed(handlers: seq<bool>, mask: nat, from: nat)
    requires forall line: nat :: from <= line < |handlers| ==> !Bit(mask, line)
    ensures Served(handlers, mask, from) == []
    decreases |handlers| - from
  {
    hide Bit;
    if from < |handlers| {
      NothingServed(handlers, mask, from + 1);
    }
  }

  /** What the loop serves, given what is raised during its rounds. */
  function ServedRounds(handlers: seq<bool>, mask: nat, raised: seq<word>): seq<nat>
    decreases |raised|
  {
    if mask == 0 then []
    else Served(handlers, mask, 0) + if raised == [] then [] else ServedRounds(handlers, raised[0], raised[1..])
  }

  lemma NoRound(handlers: seq<bool>, raised: seq<word>)
    ensures ServedRounds(handlers, 0, raised) == []
  {
  }

  lemma RoundServed(handlers: seq<bool>, mask: nat, raised: seq<word>, k: nat, calls: seq<nat>)
    requires mask != 0 && k <= |raised|
    ensures k < |raised| ==>
              calls + Served(handlers, mask, 0) + ServedRounds(handlers, raised[k], raised[k + 1..])
              == calls + ServedRounds(handlers, mask, raised[k..])
    ensures k == |raised| ==> calls + Served(handlers, mask, 0) == calls + ServedRounds(handlers, mask, raised[k..])
  {
    hide Served;
    if k < |raised| {
      assert raised[k..][0] == raised[k] && raised[k..][1..] == raised[k + 1..];
    }
  }

  /** No raise is lost: while every round so far has found something, the lines raised in it are served. */
  lemma {:induction false} EveryRaiseServed(handlers: seq<bool>, mask: nat, raised: seq<word>, k: nat, line: nat)
    requires mask != 0 && k < |raised| && forall i :: 0 <= i < k ==> raised[i] != 0
    requires line < |handlers| && handlers[line] && Bit(raised[k], line)
    ensures line in ServedRounds(handlers, mask, raised)
    decreases k
  {
    hide Bit, Served;
    if k > 0 {
      EveryRaiseServed(handlers, raised[0], raised[1..], k - 1, line);
    } else {
      BitZero(line);
      assert Serves(handlers, raised[0], line);
      ServedLines(handlers, raised[0], 0);
    }
  }
}
