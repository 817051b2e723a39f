/** Interrupt levels: hard interrupts nest at any point, soft handlers run with soft interrupts
    disabled, and the scheduler's handlers with preemption disabled.  The machine interleaves
    the single reads and writes of the nesting counters and of the irq-context flag (raising a counter is a
    read, a write, and the read of the result); interrupts may arrive between any two of them, even
    where the code has them masked. */
module Interrupts {

  type Tid = nat

  /** Program counter of one activation of the interrupt entry `excpt_irq`. */
  datatype EntryPc =
    | E0    // entered, soft count not yet read
    | SoftRead(v: int)    // soft count read, not yet raised
    | SoftWritten         // soft count raised, result not yet read
    | E1    // soft count raised from 0
    | E2    // irq context, soft handlers running
    | E3    // soft handlers done
    | SchedRead(v: int)   // sched count read, not yet raised
    | SchedWritten        // sched count raised, result not yet read
    | E4    // sched count raised from 0, scheduler's handlers running
    | E5    // sched count raised, to be lowered
    | E6    // sched count lowered again
    | E7    // irq context left, soft count to be lowered
    | N     // soft count was not 0: nothing to do but lower it again
    | Ret   // about to return

  /** Program counter of one activation of `irq_soft_enable` or `irq_sched_enable`. */
  datatype EnablePc =
    | Test              // count not yet read
    | Tested(v: int)    // count read, irq-context flag not yet
    | Handlers          // handlers running
    | Lower             // handlers done, or not needed
    | Lowering(v: int)  // count read again, not yet lowered

  /** An activation; code of threads and of the scheduler's handlers holds soft and sched disables. */
  datatype Frame =
    | Entry(pc: EntryPc, soft0: int, sched0: int, irq0: bool)   // with what it found on entry
    | SoftRaise(v: int)       // `irq_soft_disable` has read the count
    | SchedRaise(v: int)      // `irq_sched_disable` has read the count
    | SoftEnable(spc: EnablePc)
    | SchedEnable(ppc: EnablePc)
    | SoftHandlers
    | SchedHandlers(softHeld: nat, schedHeld: nat)

  datatype Stack =
    | Base(baseSoft: nat, baseSched: nat)
    | Push(top: Frame, below: Stack)

  datatype Thread = Thread(soft: int, sched: int, inIrq: bool, stack: Stack)

  // ---- What the frames account for ----

  predicate InPrimary(pc: EntryPc) {
    || pc == E1 || pc == E2 || pc == E3 || pc.SchedRead? || pc == SchedWritten || pc == E4 || pc == E5 || pc == E6
    || pc == E7
  }

  function OwnSoft(f: Frame): nat {
    match f
    case Entry(pc, _, _, _) => if InPrimary(pc) || pc == N || pc == SoftWritten then 1 else 0
    case SchedHandlers(s, _) => s
    case _ => 0
  }

  function OwnSched(f: Frame): nat {
    match f
    case Entry(pc, _, _, _) => if pc == SchedWritten || pc == E4 || pc == E5 then 1 else 0
    case SchedHandlers(_, p) => p
    case _ => 0
  }

  predicate OwnIrq(f: Frame) {
    f.Entry? && InPrimary(f.pc) && f.pc != E1 && f.pc != E7
  }

  function SoftOf(k: Stack): nat {
    match k
    case Base(s, _) => s
    case Push(f, b) => OwnSoft(f) + SoftOf(b)
  }

  function SchedOf(k: Stack): nat {
    match k
    case Base(_, p) => p
    case Push(f, b) => OwnSched(f) + SchedOf(b)
  }

  predicate IrqOf(k: Stack) {
    k.Push? && (OwnIrq(k.top) || IrqOf(k.below))
  }

  /** The number of activations of the soft handlers. */
  function Softs(k: Stack): nat {
    match k
    case Base(_, _) => 0
    case Push(f, b) => (if f == SoftHandlers then 1 else 0) + Softs(b)
  }

  function HeldSoft(k: Stack): nat {
    match k
    case Base(s, _) => s
    case Push(SchedHandlers(s, _), _) => s
    case _ => 0
  }

  function HeldSched(k: Stack): nat {
    match k
    case Base(_, p) => p
    case Push(SchedHandlers(_, p), _) => p
    case _ => 0
  }

  predicate IsEntry(k: Stack, pc: EntryPc) {
    k.Push? && k.top.Entry? && k.top.pc == pc
  }

  // ---- Invariant ----

  predicate FrameOk(f: Frame, b: Stack) {
    match f
    case Entry(pc, s0, p0, q0) =>
      && TopRuns(b)
      && s0 == SoftOf(b) && p0 == SchedOf(b) && q0 == IrqOf(b)
      && (InPrimary(pc) ==> SoftOf(b) == 0 && !IrqOf(b))
      && (pc == N ==> SoftOf(b) > 0)
      && (pc == E4 ==> SchedOf(b) == 0)
      && (pc.SoftRead? ==> pc.v == SoftOf(b)) && (pc.SchedRead? ==> pc.v == SchedOf(b))
    case SoftRaise(v) => CodeOnTop(b) && v == SoftOf(b)
    case SchedRaise(v) => CodeOnTop(b) && v == SchedOf(b)
    case SoftEnable(pc) =>
      && (HeldSoft(b) > 0 || IsEntry(b, E7) || IsEntry(b, N))
      && (pc == Handlers ==> SoftOf(b) == 1 && !IrqOf(b))
      && ((pc.Tested? || pc.Lowering?) ==> pc.v == SoftOf(b))
    case SchedEnable(pc) =>
      && (HeldSched(b) > 0 || IsEntry(b, E5))
      && (pc == Handlers ==> SchedOf(b) == 1 && !IrqOf(b))
      && ((pc.Tested? || pc.Lowering?) ==> pc.v == SchedOf(b))
    case SoftHandlers =>
      b.Push? && (b.top == SoftEnable(Handlers) || IsEntry(b, E2))
    case SchedHandlers(_, _) =>
      b.Push? && (b.top == SchedEnable(Handlers) || IsEntry(b, E4))
  }

  predicate StackOk(k: Stack) {
    k.Push? ==> StackOk(k.below) && FrameOk(k.top, k.below)
  }

  /** The frame on top is not one that waits for a callee. */
  predicate TopRuns(k: Stack) {
    k.Push? ==>
      && k.top != SoftEnable(Handlers) && k.top != SchedEnable(Handlers)
      && !IsEntry(k, E2) && !IsEntry(k, E4)
  }

  predicate ThreadOk(t: Thread) {
    && StackOk(t.stack) && TopRuns(t.stack)
    && t.soft == SoftOf(t.stack) && t.sched == SchedOf(t.stack) && (t.inIrq <==> IrqOf(t.stack))
  }

  datatype Cpu = Cpu(current: Tid, threads: map<Tid, Thread>)

  ghost predicate Inv(c: Cpu) {
    && c.current in c.threads
    && (forall t :: t in c.threads ==> ThreadOk(c.threads[t]))
    && (forall t :: t in c.threads && t != c.current ==> Softs(c.threads[t].stack) == 0)
  }

  // ---- Steps ----

  datatype Step =
    | Irq                    // a hard interrupt arrives
    | Advance                // the next access of an entry or enable activation
    | HandlersReturn         // the running handlers return
    | SoftDisable | SoftEnableCall | SchedDisable | SchedEnableCall   // code on top
    | Switch(t: Tid)
    | Create(t: Tid)

  predicate CodeOnTop(k: Stack) {
    k.Base? || k.top.SchedHandlers?
  }

  function SetHeld(k: Stack, s: nat, p: nat): Stack
    requires CodeOnTop(k)
  {
    if k.Base? then Base(s, p) else Push(SchedHandlers(s, p), k.below)
  }

  /** The callee on top is gone; its caller goes on. */
  function Resume(k: Stack): Stack {
    match k
    case Push(SoftEnable(Handlers), b) => Push(SoftEnable(Lower), b)
    case Push(SchedEnable(Handlers), b) => Push(SchedEnable(Lower), b)
    case Push(Entry(E2, s, p, q), b) => Push(Entry(E3, s, p, q), b)
    case Push(Entry(E4, s, p, q), b) => Push(Entry(E5, s, p, q), b)
    case Push(Entry(E5, s, p, q), b) => Push(Entry(E6, s, p, q), b)
    case Push(Entry(E7, s, p, q), b) => Push(Entry(Ret, s, p, q), b)
    case Push(Entry(N, s, p, q), b) => Push(Entry(Ret, s, p, q), b)
    case _ => k
  }

  function At(k: Stack, pc: EntryPc): Stack
    requires k.Push? && k.top.Entry?
  {
    Push(k.top.(pc := pc), k.below)
  }

  function AdvanceEntry(t: Thread): Thread
    requires t.stack.Push? && t.stack.top.Entry?
  {
    var k := t.stack;
    match k.top.pc
    case E0 => t.(stack := At(k, SoftRead(t.soft)))
    case SoftRead(v) => t.(soft := v + 1, stack := At(k, SoftWritten))
    case SoftWritten => t.(stack := At(k, if t.soft > 1 then N else E1))
    case E1 => t.(inIrq := true, stack := Push(SoftHandlers, At(k, E2)))
    case E3 => t.(stack := At(k, SchedRead(t.sched)))
    case SchedRead(v) => t.(sched := v + 1, stack := At(k, SchedWritten))
    case SchedWritten => t.(stack := if t.sched > 1 then At(k, E5) else Push(SchedHandlers(0, 0), At(k, E4)))
    case E5 => t.(stack := Push(SchedEnable(Test), k))
    case E6 => t.(inIrq := false, stack := At(k, E7))
    case E7 => t.(stack := Push(SoftEnable(Test), k))
    case N => t.(stack := Push(SoftEnable(Test), k))
    case Ret => t.(stack := k.below)
    case _ => t
  }

  /** Who called an enable goes on: code with one disable less, or an interrupt entry. */
  function AfterSoft(b: Stack): Stack {
    if CodeOnTop(b) && HeldSoft(b) > 0 then SetHeld(b, HeldSoft(b) - 1, HeldSched(b)) else Resume(b)
  }

  function AfterSched(b: Stack): Stack {
    if CodeOnTop(b) && HeldSched(b) > 0 then SetHeld(b, HeldSoft(b), HeldSched(b) - 1) else Resume(b)
  }

  function AdvanceSoftEnable(t: Thread): Thread
    requires t.stack.Push? && t.stack.top.SoftEnable?
  {
    var b := t.stack.below;
    match t.stack.top.spc
    case Test => t.(stack := Push(SoftEnable(Tested(t.soft)), b))
    case Tested(v) =>
      if !t.inIrq && v == 1 then t.(stack := Push(SoftHandlers, Push(SoftEnable(Handlers), b)))
      else t.(stack := Push(SoftEnable(Lower), b))
    case Lower => t.(stack := Push(SoftEnable(Lowering(t.soft)), b))
    case Lowering(v) => t.(soft := v - 1, stack := AfterSoft(b))
    case Handlers => t
  }

  function AdvanceSchedEnable(t: Thread): Thread
    requires t.stack.Push? && t.stack.top.SchedEnable?
  {
    var b := t.stack.below;
    match t.stack.top.ppc
    case Test => t.(stack := Push(SchedEnable(Tested(t.sched)), b))
    case Tested(v) =>
      if !t.inIrq && v == 1 then t.(stack := Push(SchedHandlers(0, 0), Push(SchedEnable(Handlers), b)))
      else t.(stack := Push(SchedEnable(Lower), b))
    case Lower => t.(stack := Push(SchedEnable(Lowering(t.sched)), b))
    case Lowering(v) => t.(sched := v - 1, stack := AfterSched(b))
    case Handlers => t
  }

  /** One access of the activation on top. */
  function AdvanceThread(t: Thread): Thread {
    match t.stack
    case Push(Entry(_, _, _, _), _) => AdvanceEntry(t)
    case Push(SoftEnable(_), _) => AdvanceSoftEnable(t)
    case Push(SchedEnable(_), _) => AdvanceSchedEnable(t)
    case Push(SoftRaise(v), b) =>
      if CodeOnTop(b) then t.(soft := v + 1, stack := SetHeld(b, HeldSoft(b) + 1, HeldSched(b))) else t
    case Push(SchedRaise(v), b) =>
      if CodeOnTop(b) then t.(sched := v + 1, stack := SetHeld(b, HeldSoft(b), HeldSched(b) + 1)) else t
    case _ => t
  }

  predicate Enabled(c: Cpu, a: Step) {
    c.current in c.threads &&
    var t := c.threads[c.current];
    var k := t.stack;
    match a
    case Irq => true
    case Advance => true
    case HandlersReturn => k.Push? && (k.top == SoftHandlers || k.top == SchedHandlers(0, 0))
    case SoftDisable => CodeOnTop(k)
    case SchedDisable => CodeOnTop(k)
    case SoftEnableCall => CodeOnTop(k) && HeldSoft(k) > 0
    case SchedEnableCall => CodeOnTop(k) && HeldSched(k) > 0
    // The scheduler runs as a handler, or is called by a thread that asserts a sched count of 1.
    case Switch(u) =>
      u in c.threads && u != c.current && ((k.Push? && k.top.SchedHandlers?) || (k.Base? && t.sched == 1))
    case Create(u) => u !in c.threads
  }

  function NextThread(t: Thread, a: Step): Thread
    requires a.HandlersReturn? ==> t.stack.Push?
  {
    var k := t.stack;
    match a
    case Irq => t.(stack := Push(Entry(E0, t.soft, t.sched, t.inIrq), k))
    case Advance => AdvanceThread(t)
    case HandlersReturn => t.(stack := Resume(k.below))
    case SoftDisable => t.(stack := Push(SoftRaise(t.soft), k))
    case SchedDisable => t.(stack := Push(SchedRaise(t.sched), k))
    case SoftEnableCall => t.(stack := Push(SoftEnable(Test), k))
    case SchedEnableCall => t.(stack := Push(SchedEnable(Test), k))
    case _ => t
  }

  function Next(c: Cpu, a: Step): Cpu
    requires Enabled(c, a)
  {
    match a
    case Switch(t) => c.(current := t)
    case Create(t) => c.(threads := c.threads[t := Thread(0, 0, false, Base(0, 0))])
    case _ => c.(threads := c.threads[c.current := NextThread(c.threads[c.current], a)])
  }

  // ---- Soft handlers do not nest ----

  /** While soft handlers are active on a stack, they are active once, and above them there are only
      interrupt entries that found the soft count raised. */
  lemma {:induction false} OneSoft(k: Stack)
    requires StackOk(k)
    ensures Softs(k) <= 1
    ensures Softs(k) == 1 ==> (
              && SoftOf(k) >= 1 && k.Push?
              && (|| k.top == SoftHandlers || (k.top.Entry? && !InPrimary(k.top.pc))
                  || (k.top.SoftEnable? && k.top.spc != Handlers && SoftOf(k) >= 2)))
  {
    if k.Push? {
      OneSoft(k.below);
      if k.below.Push? {
        OneSoft(k.below.below);
      }
    }
  }

  // ---- Every step keeps the invariant ----

  lemma Unfold(k: Stack)
    requires StackOk(k) && k.Push?
    ensures StackOk(k.below) && FrameOk(k.top, k.below)
    ensures SoftOf(k) == OwnSoft(k.top) + SoftOf(k.below) && SchedOf(k) == OwnSched(k.top) + SchedOf(k.below)
    ensures IrqOf(k) <==> OwnIrq(k.top) || IrqOf(k.below)
  {
  }

  lemma Fold(f: Frame, b: Stack)
    requires StackOk(b) && FrameOk(f, b)
    ensures StackOk(Push(f, b))
    ensures SoftOf(Push(f, b)) == OwnSoft(f) + SoftOf(b) && SchedOf(Push(f, b)) == OwnSched(f) + SchedOf(b)
    ensures IrqOf(Push(f, b)) <==> OwnIrq(f) || IrqOf(b)
  {
  }

  lemma ResumeOk(k: Stack, callee: Frame)
    requires StackOk(Push(callee, k)) && (callee == SoftHandlers || callee == SchedHandlers(0, 0))
    ensures StackOk(Resume(k)) && TopRuns(Resume(k))
    ensures SoftOf(Resume(k)) == SoftOf(k) && SchedOf(Resume(k)) == SchedOf(k) && (IrqOf(Resume(k)) <==> IrqOf(k))
  {
    hide StackOk, SoftOf, SchedOf, IrqOf;
    Unfold(Push(callee, k));
    Unfold(k);
    Fold(Resume(k).top, k.below);
  }

  /** Code that holds disables may change how many. */
  lemma SetHeldOk(k: Stack, s: nat, p: nat)
    requires StackOk(k) && CodeOnTop(k)
    ensures StackOk(SetHeld(k, s, p)) && TopRuns(SetHeld(k, s, p))
    ensures SoftOf(SetHeld(k, s, p)) == SoftOf(k) - HeldSoft(k) + s
    ensures SchedOf(SetHeld(k, s, p)) == SchedOf(k) - HeldSched(k) + p
    ensures IrqOf(SetHeld(k, s, p)) <==> IrqOf(k)
  {
    if k.Push? {
      Unfold(k);
    }
  }

  /** Whoever called an enable that is on top goes on with one disable less. */
  lemma AfterSoftOk(b: Stack, f: Frame)
    requires StackOk(b) && f.SoftEnable? && FrameOk(f, b)
    ensures StackOk(AfterSoft(b)) && TopRuns(AfterSoft(b))
    ensures SoftOf(AfterSoft(b)) == SoftOf(b) - 1 && SchedOf(AfterSoft(b)) == SchedOf(b)
    ensures IrqOf(AfterSoft(b)) <==> IrqOf(b)
  {
    hide StackOk, SoftOf, SchedOf, IrqOf, SetHeld, Resume, TopRuns;
    if CodeOnTop(b) && HeldSoft(b) > 0 {
      SetHeldOk(b, HeldSoft(b) - 1, HeldSched(b));
    } else {
      EntryCalled(b);
    }
  }

  lemma EntryCalled(b: Stack)
    requires StackOk(b) && (IsEntry(b, E7) || IsEntry(b, N))
    ensures StackOk(Resume(b)) && TopRuns(Resume(b))
    ensures SoftOf(Resume(b)) == SoftOf(b) - 1 && SchedOf(Resume(b)) == SchedOf(b) && (IrqOf(Resume(b)) <==> IrqOf(b))
  {
    hide StackOk, SoftOf, SchedOf, IrqOf;
    Unfold(b);
    Fold(b.top.(pc := Ret), b.below);
  }

  lemma AfterSchedOk(b: Stack, f: Frame)
    requires StackOk(b) && f.SchedEnable? && FrameOk(f, b)
    ensures StackOk(AfterSched(b)) && TopRuns(AfterSched(b))
    ensures SoftOf(AfterSched(b)) == SoftOf(b) && SchedOf(AfterSched(b)) == SchedOf(b) - 1
    ensures IrqOf(AfterSched(b)) <==> IrqOf(b)
  {
    hide StackOk, SoftOf, SchedOf, IrqOf, SetHeld;
    if CodeOnTop(b) && HeldSched(b) > 0 {
      SetHeldOk(b, HeldSoft(b), HeldSched(b) - 1);
    } else {
      Unfold(b);
      Fold(b.top.(pc := E6), b.below);
    }
  }

  lemma IrqOwnsSoft(k: Stack)
    requires StackOk(k)
    ensures IrqOf(k) ==> SoftOf(k) >= 1
  {
  }

  lemma EntryAdvanceOk(t: Thread)
    requires ThreadOk(t) && t.stack.Push? && t.stack.top.Entry?
    ensures ThreadOk(AdvanceEntry(t))
  {
    hide StackOk, SoftOf, SchedOf, IrqOf;
    var f, b := t.stack.top, t.stack.below;
    Unfold(t.stack);
    match f.pc {
      case E0 => EntrySoftOk(t);
      case SoftRead(_) => EntrySoftOk(t);
      case SoftWritten => EntrySoftOk(t);
      case E1 =>
        Fold(f.(pc := E2), b);
        Fold(SoftHandlers, Push(f.(pc := E2), b));
      case E6 => Fold(f.(pc := E7), b);
      case E7 => Fold(SoftEnable(Test), t.stack);
      case N => Fold(SoftEnable(Test), t.stack);
      case Ret =>
      case _ => EntrySchedOk(t);
    }
  }

  lemma EntrySoftOk(t: Thread)
    requires ThreadOk(t) && t.stack.Push? && t.stack.top.Entry?
    requires var pc := t.stack.top.pc; pc == E0 || pc.SoftRead? || pc == SoftWritten
    ensures ThreadOk(AdvanceEntry(t))
  {
    hide StackOk, SoftOf, SchedOf, IrqOf;
    var f, b := t.stack.top, t.stack.below;
    Unfold(t.stack);
    IrqOwnsSoft(b);
    match f.pc {
      case E0 => Fold(f.(pc := SoftRead(t.soft)), b);
      case SoftRead(_) => Fold(f.(pc := SoftWritten), b);
      case SoftWritten => Fold(f.(pc := if t.soft > 1 then N else E1), b);
      case _ =>
    }
  }

  lemma EntrySchedOk(t: Thread)
    requires ThreadOk(t) && t.stack.Push? && t.stack.top.Entry?
    requires var pc := t.stack.top.pc;
             pc == E2 || pc == E3 || pc.SchedRead? || pc == SchedWritten || pc == E4 || pc == E5
    ensures ThreadOk(AdvanceEntry(t))
  {
    hide StackOk, SoftOf, SchedOf, IrqOf;
    var f, b := t.stack.top, t.stack.below;
    Unfold(t.stack);
    match f.pc {
      case E3 => Fold(f.(pc := SchedRead(t.sched)), b);
      case SchedRead(_) => Fold(f.(pc := SchedWritten), b);
      case SchedWritten =>
        if t.sched > 1 {
          Fold(f.(pc := E5), b);
        } else {
          Fold(f.(pc := E4), b);
          Fold(SchedHandlers(0, 0), Push(f.(pc := E4), b));
        }
      case E5 => Fold(SchedEnable(Test), t.stack);
      case _ =>
    }
  }

  lemma SoftEnableAdvanceOk(t: Thread)
    requires ThreadOk(t) && t.stack.Push? && t.stack.top.SoftEnable?
    ensures ThreadOk(AdvanceSoftEnable(t))
  {
    hide StackOk, SoftOf, SchedOf, IrqOf, AfterSoft;
    var f, b := t.stack.top, t.stack.below;
    Unfold(t.stack);
    match f.spc {
      case Test => Fold(SoftEnable(Tested(t.soft)), b);
      case Tested(v) =>
        if !t.inIrq && v == 1 {
          Fold(SoftEnable(Handlers), b);
          Fold(SoftHandlers, Push(SoftEnable(Handlers), b));
        } else {
          Fold(SoftEnable(Lower), b);
        }
      case Lower => Fold(SoftEnable(Lowering(t.soft)), b);
      case Lowering(_) => AfterSoftOk(b, f);
      case Handlers =>
    }
  }

  lemma SchedEnableAdvanceOk(t: Thread)
    requires ThreadOk(t) && t.stack.Push? && t.stack.top.SchedEnable?
    ensures ThreadOk(AdvanceSchedEnable(t))
  {
    hide StackOk, SoftOf, SchedOf, IrqOf, AfterSched;
    var f, b := t.stack.top, t.stack.below;
    Unfold(t.stack);
    match f.ppc {
      case Test => Fold(SchedEnable(Tested(t.sched)), b);
      case Tested(v) =>
        if !t.inIrq && v == 1 {
          Fold(SchedEnable(Handlers), b);
          Fold(SchedHandlers(0, 0), Push(SchedEnable(Handlers), b));
        } else {
          Fold(SchedEnable(Lower), b);
        }
      case Lower => Fold(SchedEnable(Lowering(t.sched)), b);
      case Lowering(_) => AfterSchedOk(b, f);
      case Handlers =>
    }
  }

  lemma AdvanceOk(t: Thread)
    requires ThreadOk(t)
    ensures ThreadOk(AdvanceThread(t))
  {
    hide StackOk, SoftOf, SchedOf, IrqOf, SetHeld, AdvanceEntry, AdvanceSoftEnable, AdvanceSchedEnable;
    var k := t.stack;
    if k.Push? {
      if k.top.Entry? {
        EntryAdvanceOk(t);
      } else if k.top.SoftEnable? {
        SoftEnableAdvanceOk(t);
      } else if k.top.SchedEnable? {
        SchedEnableAdvanceOk(t);
      } else if k.top.SoftRaise? {
        Unfold(k);
        SetHeldOk(k.below, HeldSoft(k.below) + 1, HeldSched(k.below));
      } else if k.top.SchedRaise? {
        Unfold(k);
        SetHeldOk(k.below, HeldSoft(k.below), HeldSched(k.below) + 1);
      }
    }
  }

  lemma NextThreadOk(c: Cpu, a: Step)
    requires Inv(c) && Enabled(c, a) && !a.Switch? && !a.Create?
    ensures ThreadOk(NextThread(c.threads[c.current], a))
  {
    hide StackOk, SoftOf, SchedOf, IrqOf, AdvanceThread;
    var t := c.threads[c.current];
    var k := t.stack;
    match a {
      case Irq => ArrivalOk(t);
      case Advance => AdvanceOk(t);
      case HandlersReturn =>
        Unfold(k);
        ResumeOk(k.below, k.top);
      case SoftDisable => CallOk(t, SoftRaise(t.soft));
      case SchedDisable => CallOk(t, SchedRaise(t.sched));
      case SoftEnableCall => CallOk(t, SoftEnable(Test));
      case SchedEnableCall => CallOk(t, SchedEnable(Test));
    }
  }

  lemma ArrivalOk(t: Thread)
    requires ThreadOk(t)
    ensures ThreadOk(t.(stack := Push(Entry(E0, t.soft, t.sched, t.inIrq), t.stack)))
  {
    hide StackOk, SoftOf, SchedOf, IrqOf;
    Fold(Entry(E0, t.soft, t.sched, t.inIrq), t.stack);
  }

  lemma CallOk(t: Thread, f: Frame)
    requires ThreadOk(t) && FrameOk(f, t.stack)
    requires f == SoftEnable(Test) || f == SchedEnable(Test) || f.SoftRaise? || f.SchedRaise?
    ensures ThreadOk(t.(stack := Push(f, t.stack)))
  {
    hide StackOk, SoftOf, SchedOf, IrqOf;
    Fold(f, t.stack);
  }

  lemma NextInv(c: Cpu, a: Step)
    requires Inv(c) && Enabled(c, a)
    ensures Inv(Next(c, a))
  {
    if a.Switch? {
      SwitchIsQuiet(c, a.t);
    } else if !a.Create? {
      NextThreadOk(c, a);
      hide ThreadOk, NextThread;
    }
  }

  /** No thread switch happens while a soft handler is active. */
  lemma SwitchIsQuiet(c: Cpu, t: Tid)
    requires Inv(c) && Enabled(c, Switch(t))
    ensures Softs(c.threads[c.current].stack) == 0
  {
    OneSoft(c.threads[c.current].stack);
  }

  // ---- Runs ----

  ghost predicate Possible(c: Cpu, steps: seq<Step>)
    decreases |steps|
  {
    steps == [] || (Enabled(c, steps[0]) && Possible(Next(c, steps[0]), steps[1..]))
  }

  ghost function Run(c: Cpu, steps: seq<Step>): Cpu
    requires Possible(c, steps)
    decreases |steps|
  {
    if steps == [] then c else Run(Next(c, steps[0]), steps[1..])
  }

  function Initial(main: Tid): Cpu {
    Cpu(main, map[main := Thread(0, 0, false, Base(0, 0))])
  }

  lemma {:induction false} RunInv(c: Cpu, steps: seq<Step>)
    requires Inv(c) && Possible(c, steps)
    ensures Inv(Run(c, steps))
    decreases |steps|
  {
    hide Inv, Next, Enabled;
    if steps != [] {
      NextInv(c, steps[0]);
      RunInv(Next(c, steps[0]), steps[1..]);
    }
  }

  /** Over every nesting of interrupts: at most one activation of the soft handlers exists in the whole
      system, on the current thread; and the irq context implies a raised soft count. */
  lemma SoftNonReentrancy(main: Tid, steps: seq<Step>)
    requires Possible(Initial(main), steps)
    ensures var c := Run(Initial(main), steps);
            && (forall t :: t in c.threads && t != c.current ==> Softs(c.threads[t].stack) == 0)
            && c.current in c.threads && Softs(c.threads[c.current].stack) <= 1
            && (forall t :: t in c.threads && c.threads[t].inIrq ==> c.threads[t].soft >= 1)
  {
    assert Inv(Initial(main));
    RunInv(Initial(main), steps);
    var c := Run(Initial(main), steps);
    OneSoft(c.threads[c.current].stack);
    forall t | t in c.threads && c.threads[t].inIrq ensures c.threads[t].soft >= 1 {
      assert ThreadOk(c.threads[t]);
      IrqOwnsSoft(c.threads[t].stack);
    }
  }

  /** A returning interrupt leaves both counters and the flag as it found them on entry. */
  lemma ReturnRestores(c: Cpu)
    requires Inv(c) && IsEntry(c.threads[c.current].stack, Ret)
    ensures var t := c.threads[c.current];
            var e := t.stack.top;
            t.soft == e.soft0 && t.sched == e.sched0 && t.inIrq == e.irq0
            && Next(c, Advance).threads[c.current] == t.(stack := t.stack.below)
  {
    assert ThreadOk(c.threads[c.current]);
  }

  /** No activation is ever stuck waiting for handlers that are not there. */
  lemma AlwaysProgress(c: Cpu)
    requires Inv(c)
    ensures var k := c.threads[c.current].stack;
            CodeOnTop(k) || Enabled(c, HandlersReturn) || Next(c, Advance).threads[c.current] != c.threads[c.current]
  {
    hide FrameOk, SetHeld, AfterSoft, AfterSched, StackOk, SoftOf, SchedOf, IrqOf, AdvanceThread, Resume;
    var t := c.threads[c.current];
    assert ThreadOk(t);
    if !CodeOnTop(t.stack) && t.stack.top != SoftHandlers {
      AdvanceMoves(t);
    }
  }

  function Height(k: Stack): nat {
    if k.Base? then 0 else 1 + Height(k.below)
  }

  lemma AdvanceMoves(t: Thread)
    requires ThreadOk(t) && !CodeOnTop(t.stack) && t.stack.top != SoftHandlers
    ensures AdvanceThread(t) != t
  {
    hide SetHeld, AfterSoft, AfterSched, StackOk, SoftOf, SchedOf, IrqOf;
    var k := t.stack;
    Unfold(k);
    if k.top.SoftRaise? || (k.top.SoftEnable? && k.top.spc.Lowering?) {
      assert AdvanceThread(t).soft != t.soft;
    } else if k.top.SchedRaise? || (k.top.SchedEnable? && k.top.ppc.Lowering?) {
      assert AdvanceThread(t).sched != t.sched;
    } else if IsEntry(k, Ret) {
      assert Height(k.below) < Height(k);
    } else {
      assert AdvanceThread(t).stack.top != k.top;
    }
  }

  // ---- The order of the handlers ----

  /** n accesses of the activation on top.  None gets past handlers that have not returned. */
  function Advances(t: Thread, n: nat): Thread
    decreases n
  {
    if n == 0 then t else Advances(AdvanceThread(t), n - 1)
  }

  lemma {:induction false} AdvancesAdd(t: Thread, m: nat, n: nat)
    ensures Advances(t, m + n) == Advances(Advances(t, m), n)
    decreases m
  {
    hide AdvanceThread;
    if m > 0 {
      AdvancesAdd(AdvanceThread(t), m - 1, n);
    }
  }

  lemma NextAdvance(t: Thread, n: nat)
    ensures Advances(t, 0) == t && Advances(t, n + 1) == AdvanceThread(Advances(t, n))
  {
    hide AdvanceThread;
    AdvancesAdd(t, n, 1);
    assert Advances(Advances(t, n), 1) == Advances(AdvanceThread(Advances(t, n)), 0);
  }

  lemma FirstSoft(t: Thread, k: Stack)
    requires k == t.stack && t.soft == 0 && !t.inIrq
    ensures Advances(NextThread(t, Irq), 4) ==
            Thread(1, t.sched, true, Push(SoftHandlers, Push(Entry(E2, 0, t.sched, false), k)))
  {
    hide Advances, AfterSoft, AfterSched, SetHeld;
    var a := NextThread(t, Irq);
    NextAdvance(a, 0);
    NextAdvance(a, 1);
    assert Advances(a, 2) == Thread(1, t.sched, false, Push(Entry(SoftWritten, 0, t.sched, false), k));
    NextAdvance(a, 2);
    NextAdvance(a, 3);
  }

  lemma SchedTested(t: Thread, p: int, k: Stack)
    requires t.stack == Push(Entry(SchedWritten, 0, p, false), k)
    ensures AdvanceThread(t) ==
            t.(stack := if t.sched > 1 then Push(Entry(E5, 0, p, false), k)
                        else Push(SchedHandlers(0, 0), Push(Entry(E4, 0, p, false), k)))
  {
  }

  lemma SchedNext(t: Thread, p: int, k: Stack)
    requires t == Thread(1, t.sched, true, Push(Entry(E3, 0, p, false), k))
    ensures Advances(t, 3) ==
            Thread(1, t.sched + 1, true,
                   if t.sched > 0 then Push(Entry(E5, 0, p, false), k)
                   else Push(SchedHandlers(0, 0), Push(Entry(E4, 0, p, false), k)))
  {
    SchedRaised(t, p, k);
    hide AdvanceThread, Advances;
    SchedTested(Advances(t, 2), p, k);
    NextAdvance(t, 2);
  }

  lemma SchedRaised(t: Thread, p: int, k: Stack)
    requires t == Thread(1, t.sched, true, Push(Entry(E3, 0, p, false), k))
    ensures Advances(t, 2) == Thread(1, t.sched + 1, true, Push(Entry(SchedWritten, 0, p, false), k))
  {
    var a := Thread(1, t.sched, true, Push(Entry(SchedRead(t.sched), 0, p, false), k));
    assert AdvanceThread(t) == a;
    assert AdvanceThread(a) == Thread(1, t.sched + 1, true, Push(Entry(SchedWritten, 0, p, false), k));
    hide AdvanceThread, Advances;
    NextAdvance(t, 0);
    NextAdvance(t, 1);
  }

  lemma SchedTests(t: Thread, b: Stack)
    requires t.stack == Push(SchedEnable(Test), b) && t.inIrq
    ensures Advances(t, 3) == t.(stack := Push(SchedEnable(Lowering(t.sched)), b))
  {
    var c := t.(stack := Push(SchedEnable(Tested(t.sched)), b));
    var d := t.(stack := Push(SchedEnable(Lower), b));
    assert AdvanceThread(t) == c;
    assert AdvanceThread(c) == d;
    assert AdvanceThread(d) == t.(stack := Push(SchedEnable(Lowering(t.sched)), b));
    hide AdvanceThread, Advances;
    NextAdvance(t, 0);
    NextAdvance(t, 1);
    NextAdvance(t, 2);
  }

  lemma SchedEnableEnds(t: Thread, v: int, p: int, k: Stack)
    requires t.stack == Push(SchedEnable(Lowering(v)), Push(Entry(E5, 0, p, false), k))
    ensures AdvanceThread(t) == t.(sched := v - 1, stack := Push(Entry(E6, 0, p, false), k))
  {
  }

  lemma SchedEnableCalled(t: Thread, p: int, k: Stack)
    requires t.stack == Push(Entry(E5, 0, p, false), k)
    ensures AdvanceThread(t) == t.(stack := Push(SchedEnable(Test), t.stack))
  {
  }

  lemma SchedLowered(t: Thread, p: int, k: Stack)
    requires t == Thread(1, t.sched, true, Push(Entry(E5, 0, p, false), k))
    ensures Advances(t, 5) == Thread(1, t.sched - 1, true, Push(Entry(E6, 0, p, false), k))
  {
    hide AdvanceThread, Advances;
    SchedEnableCalled(t, p, k);
    SchedTests(AdvanceThread(t), t.stack);
    NextAdvance(t, 0);
    AdvancesAdd(t, 1, 3);
    SchedEnableEnds(Advances(t, 4), t.sched, p, k);
    NextAdvance(t, 4);
  }

  lemma LastSoft(t: Thread, p: int, k: Stack)
    requires t == Thread(1, t.sched, true, Push(Entry(E6, 0, p, false), k))
    ensures Advances(t, 4) ==
            Thread(1, t.sched, false, Push(SoftHandlers, Push(SoftEnable(Handlers), Push(Entry(E7, 0, p, false), k))))
  {
    hide Advances, AfterSoft, AfterSched, SetHeld;
    NextAdvance(t, 0);
    NextAdvance(t, 1);
    assert Advances(t, 2) == Thread(1, t.sched, false, Push(SoftEnable(Test), Push(Entry(E7, 0, p, false), k)));
    NextAdvance(t, 2);
    NextAdvance(t, 3);
  }

  lemma Leaves(t: Thread, p: int, k: Stack)
    requires t.stack == Push(SoftEnable(Lower), Push(Entry(E7, 0, p, false), k))
    ensures Advances(t, 3) == t.(soft := t.soft - 1, stack := k)
  {
    hide Advances, AfterSched, SetHeld;
    NextAdvance(t, 0);
    NextAdvance(t, 1);
    assert Advances(t, 2) == t.(soft := t.soft - 1, stack := Push(Entry(Ret, 0, p, false), k));
    NextAdvance(t, 2);
  }

  /** An interrupt that finds soft interrupts enabled runs the soft handlers, then the scheduler's if those were
      enabled too, then the soft handlers again, and returns to what it found. */
  lemma HandlersInOrder(t: Thread)
    requires ThreadOk(t) && t.soft == 0
    ensures var first := Advances(NextThread(t, Irq), 4);
            && first.stack.Push? && first.stack.top == SoftHandlers && first.inIrq && first.soft == 1
            && var second := Advances(NextThread(first, HandlersReturn), 3);
            && second.stack.Push? && (second.stack.top == SchedHandlers(0, 0) <==> t.sched == 0)
            && (second.stack.top == SchedHandlers(0, 0) ==> second.inIrq && second.soft == 1 && second.sched == 1)
            && var third := Advances(if t.sched == 0 then NextThread(second, HandlersReturn) else second, 9);
            && third.stack.Push? && third.stack.top == SoftHandlers && !third.inIrq && third.soft == 1
            && Advances(NextThread(third, HandlersReturn), 3) == t
  {
    hide AdvanceThread, Advances;
    IrqOwnsSoft(t.stack);
    var k := t.stack;
    FirstSoft(t, k);
    var first := Advances(NextThread(t, Irq), 4);
    var after := NextThread(first, HandlersReturn);
    assert after == Thread(1, t.sched, true, Push(Entry(E3, 0, t.sched, false), k));
    hide ThreadOk, StackOk, SoftOf, SchedOf, IrqOf;
    SchedNext(after, t.sched, k);
    var second := Advances(after, 3);
    var back := if t.sched == 0 then NextThread(second, HandlersReturn) else second;
    assert back == Thread(1, t.sched + 1, true, Push(Entry(E5, 0, t.sched, false), k));
    SchedLowered(back, t.sched, k);
    LastSoft(Advances(back, 5), t.sched, k);
    AdvancesAdd(back, 5, 4);
    var last := NextThread(Advances(back, 9), HandlersReturn);
    assert last == Thread(1, t.sched, false, Push(SoftEnable(Lower), Push(Entry(E7, 0, t.sched, false), k)));
    Leaves(last, t.sched, k);
  }

  /** The accesses of an interrupt that finds soft interrupts disabled, but for the last. */
  lemma NoHandlersAt(t: Thread, n: nat)
    requires t.soft > 0 && n <= 8
    ensures var e := Entry(E0, t.soft, t.sched, t.inIrq);
            var k := Push(e.(pc := N), t.stack);
            Advances(NextThread(t, Irq), n) ==
            if n == 0 then t.(stack := Push(e, t.stack))
            else if n == 1 then t.(stack := Push(e.(pc := SoftRead(t.soft)), t.stack))
            else if n == 2 then t.(soft := t.soft + 1, stack := Push(e.(pc := SoftWritten), t.stack))
            else if n == 8 then t.(stack := Push(e.(pc := Ret), t.stack))
            else t.(soft := t.soft + 1, stack := if n == 3 then k else
                      Push(SoftEnable(if n == 4 then Test else if n == 5 then Tested(t.soft + 1) else
                                      if n == 6 then Lower else Lowering(t.soft + 1)), k))
  {
    NextAdvance(NextThread(t, Irq), if n == 0 then 0 else n - 1);
    if n > 0 {
      NoHandlersAt(t, n - 1);
    }
  }

  /** An interrupt that finds them disabled runs no handlers, and returns to what it found. */
  lemma NoHandlers(t: Thread)
    requires ThreadOk(t) && t.soft > 0
    ensures Advances(NextThread(t, Irq), 9) == t
    ensures forall n: nat :: n < 9 ==>
              var a := Advances(NextThread(t, Irq), n); a.stack.Push? && (a.stack.top.Entry? || a.stack.top.SoftEnable?)
  {
    NoHandlersAt(t, 8);
    NextAdvance(NextThread(t, Irq), 8);
    forall n: nat | n < 9
      ensures var a := Advances(NextThread(t, Irq), n); a.stack.Push? && (a.stack.top.Entry? || a.stack.top.SoftEnable?)
    {
      NoHandlersAt(t, n);
    }
  }

  /** A disable by a thread or by the scheduler's handlers raises its count by one, which the caller then holds. */
  lemma DisableRaises(t: Thread)
    requires CodeOnTop(t.stack)
    ensures Advances(NextThread(t, SoftDisable), 1) ==
            t.(soft := t.soft + 1, stack := SetHeld(t.stack, HeldSoft(t.stack) + 1, HeldSched(t.stack)))
    ensures Advances(NextThread(t, SchedDisable), 1) ==
            t.(sched := t.sched + 1, stack := SetHeld(t.stack, HeldSoft(t.stack), HeldSched(t.stack) + 1))
  {
    hide Advances;
    NextAdvance(NextThread(t, SoftDisable), 0);
    NextAdvance(NextThread(t, SchedDisable), 0);
  }

  /** The last enable outside the irq context runs the soft handlers, with the count still raised; each enable
      lowers the count by one, and the caller holds one disable less. */
  lemma SoftEnableLowers(t: Thread)
    requires CodeOnTop(t.stack) && HeldSoft(t.stack) > 0
    ensures var tested := Advances(NextThread(t, SoftEnableCall), 2);
            && tested.stack.Push? && (tested.stack.top == SoftHandlers <==> t.soft == 1 && !t.inIrq)
            && tested.soft == t.soft
            && Advances(if t.soft == 1 && !t.inIrq then NextThread(tested, HandlersReturn) else tested, 2) ==
               t.(soft := t.soft - 1, stack := SetHeld(t.stack, HeldSoft(t.stack) - 1, HeldSched(t.stack)))
  {
    hide Advances, SetHeld;
    var a := NextThread(t, SoftEnableCall);
    NextAdvance(a, 0);
    NextAdvance(a, 1);
    var b := Advances(a, 2);
    var c := if t.soft == 1 && !t.inIrq then NextThread(b, HandlersReturn) else b;
    assert c == t.(stack := Push(SoftEnable(Lower), t.stack));
    NextAdvance(c, 0);
    NextAdvance(c, 1);
  }

  lemma SchedEnableLowers(t: Thread)
    requires CodeOnTop(t.stack) && HeldSched(t.stack) > 0
    ensures var tested := Advances(NextThread(t, SchedEnableCall), 2);
            && tested.stack.Push? && (tested.stack.top == SchedHandlers(0, 0) <==> t.sched == 1 && !t.inIrq)
            && tested.sched == t.sched
            && Advances(if t.sched == 1 && !t.inIrq then NextThread(tested, HandlersReturn) else tested, 2) ==
               t.(sched := t.sched - 1, stack := SetHeld(t.stack, HeldSoft(t.stack), HeldSched(t.stack) - 1))
  {
    hide Advances, SetHeld;
    var a := NextThread(t, SchedEnableCall);
    NextAdvance(a, 0);
    NextAdvance(a, 1);
    var b := Advances(a, 2);
    var c := if t.sched == 1 && !t.inIrq then NextThread(b, HandlersReturn) else b;
    assert c == t.(stack := Push(SchedEnable(Lower), t.stack));
    NextAdvance(c, 0);
    NextAdvance(c, 1);
  }
}
