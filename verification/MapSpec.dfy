/** What mapping and unmapping a range do to the translation of every virtual address. */
module MapSpec {
  import opened Wrappers
  import opened Shift
  import opened Word
  import opened Descriptors
  import opened PageTables

  /** From t0 to t1, the first `off` bytes of the range got mapped as requested; nothing else changed. */
  ghost predicate Mapped(t0: Tables, t1: Tables, kpt: word, r: Request, off: nat): (b: bool)
    ensures b ==> Inv(t0, kpt) && Inv(t1, kpt)
  {
    && Inv(t0, kpt) && Inv(t1, kpt)
    && forall x: word :: Walk(t1, kpt, x) ==
         if r.vaStart <= x < r.vaStart + off
         then Some(Entry(r.paStart + (x - r.vaStart), r.mu, r.Attributes())) else Walk(t0, kpt, x)
  }

  /** From t0 to t1, the first `off` bytes of the range lost their mapping; nothing else changed. */
  ghost predicate Unmapped(t0: Tables, t1: Tables, kpt: word, r: Request, off: nat): (b: bool)
    ensures b ==> Inv(t0, kpt) && Inv(t1, kpt)
  {
    && Inv(t0, kpt) && Inv(t1, kpt)
    && forall x: word :: Walk(t1, kpt, x) == if r.vaStart <= x < r.vaStart + off then None else Walk(t0, kpt, x)
  }

  /** The slot of x is invalid: what the code asserts before it writes a descriptor there. */
  ghost predicate SlotFree(t: Tables, kpt: word, mu: Unit, x: word)
    requires Inv(t, kpt)
  {
    var k := PdeType(t.pd[PdeIndex(x)]);
    if mu.IsSection() then k == 0 else k == 0 || (k == 1 && Walk(t, kpt, x) == None)
  }

  ghost predicate SlotsFree(t: Tables, kpt: word, r: Request, off: nat)
    requires Inv(t, kpt)
  {
    forall x: word | r.vaStart + off <= x < r.vaStart + r.Length() :: SlotFree(t, kpt, r.mu, x)
  }

  /** The descriptors lo .. hi - 1 have type 0. */
  predicate AllInvalid(words: seq<word>, lo: nat, hi: nat)
    requires hi <= |words|
  {
    forall i | lo <= i < hi :: Extract(words[i], 0, 2) == 0
  }

  /** The slots of the unit at offset off are invalid. */
  ghost predicate UnitFree(t: Tables, kpt: word, r: Request, off: nat)
    requires Inv(t, kpt)
  {
    forall x: word | r.vaStart + off <= x < r.vaStart + off + r.mu.Size() :: SlotFree(t, kpt, r.mu, x)
  }

  /** From offset off on, the same slots are free in both. */
  ghost predicate SlotsSame(t1: Tables, t2: Tables, kpt: word, r: Request, off: nat)
  {
    && Inv(t1, kpt) && Inv(t2, kpt)
    && forall x: word | r.vaStart + off <= x < r.vaStart + r.Length() ::
         SlotFree(t1, kpt, r.mu, x) <==> SlotFree(t2, kpt, r.mu, x)
  }

  /** What the checks of the first `off` bytes have found: those were free at the start, and the rest is as free
      as it was at the start. */
  ghost predicate Checked(t0: Tables, t1: Tables, kpt: word, r: Request, off: nat)
  {
    && SlotsSame(t0, t1, kpt, r, off)
    && forall x: word | r.vaStart <= x < r.vaStart + off :: SlotFree(t0, kpt, r.mu, x)
  }

  lemma CheckedNothing(t: Tables, kpt: word, r: Request)
    requires Inv(t, kpt)
    ensures Checked(t, t, kpt, r, 0)
  {
  }

  lemma CheckedUnit(t0: Tables, t1: Tables, t2: Tables, kpt: word, r: Request, off: nat)
    requires Checked(t0, t1, kpt, r, off) && UnitFree(t1, kpt, r, off) && off + r.mu.Size() <= r.Length()
    requires SlotsSame(t1, t2, kpt, r, off + r.mu.Size())
    ensures Checked(t0, t2, kpt, r, off + r.mu.Size())
  {
    hide SlotFree, Inv, Unit.Size, Request.Length;
  }

  lemma CheckedTable(t0: Tables, t1: Tables, t2: Tables, kpt: word, r: Request, off: nat)
    requires Checked(t0, t1, kpt, r, off) && SlotsSame(t1, t2, kpt, r, off)
    ensures Checked(t0, t2, kpt, r, off)
  {
    hide SlotFree, Inv, Unit.Size, Request.Length;
  }

  /** The whole range has passed iff it was free at the start. */
  lemma CheckedAll(t0: Tables, t1: Tables, kpt: word, r: Request)
    requires r.Sized() && Checked(t0, t1, kpt, r, r.Length())
    ensures SlotsFree(t0, kpt, r, 0)
  {
    hide SlotFree, Inv, Unit.Size, Request.Length;
  }

  /** Where the code stops: the units before offset off were free, and are mapped; the one at off was not. */
  ghost predicate Stopped(t0: Tables, t1: Tables, kpt: word, r: Request, off: nat) {
    && off < r.Length() && off % r.mu.Size() == 0
    && Mapped(t0, t1, kpt, r, off) && !UnitFree(t0, kpt, r, off)
    && forall x: word | r.vaStart <= x < r.vaStart + off :: SlotFree(t0, kpt, r.mu, x)
  }

  lemma CheckFails(t0: Tables, t1: Tables, kpt: word, r: Request, off: nat)
    requires off % r.mu.Size() == 0 && off + r.mu.Size() <= r.Length()
    requires Mapped(t0, t1, kpt, r, off) && Checked(t0, t1, kpt, r, off) && !UnitFree(t1, kpt, r, off)
    ensures !SlotsFree(t0, kpt, r, 0) && Stopped(t0, t1, kpt, r, off)
  {
    hide SlotFree, Inv, Mapped, Unit.Size, Request.Length;
    var x: word :| r.vaStart + off <= x < r.vaStart + off + r.mu.Size() && !SlotFree(t1, kpt, r.mu, x);
    assert !SlotFree(t0, kpt, r.mu, x);
  }

  lemma StoppedOutside(t0: Tables, t1: Tables, kpt: word, r: Request, off: nat)
    requires Stopped(t0, t1, kpt, r, off)
    ensures Inv(t0, kpt) && Inv(t1, kpt)
    ensures forall x: word :: !r.Covers(x) ==> Walk(t1, kpt, x) == Walk(t0, kpt, x)
  {
    hide Walk, SlotFree, UnitFree, Inv;
  }

  /** Only tables were hooked up, and only at empty directory entries. */
  ghost predicate TablesAdded(pd0: seq<word>, pd1: seq<word>) {
    && |pd0| == |pd1|
    && forall j | 0 <= j < |pd0| :: pd1[j] == pd0[j] || (PdeType(pd0[j]) == 0 && PdeType(pd1[j]) == 1)
  }

  lemma NoTableAdded(pd: seq<word>)
    ensures TablesAdded(pd, pd)
  {
  }

  lemma OneTableAdded(pd0: seq<word>, pd1: seq<word>, j: nat, w: word)
    requires TablesAdded(pd0, pd1) && j < |pd1| && PdeType(pd1[j]) == 0 && PdeType(w) == 1
    ensures TablesAdded(pd0, pd1[j := w])
  {
    hide PdeType;
  }

  /** The free directory entries among lo .. hi - 1: each costs one fresh table. */
  function EmptyPdes(pd: seq<word>, lo: nat, hi: nat): nat
    requires hi <= |pd|
    decreases hi - lo
  {
    if lo >= hi then 0 else (if PdeType(pd[lo]) == 0 then 1 else 0) + EmptyPdes(pd, lo + 1, hi)
  }

  lemma {:induction false} EmptyPdesSame(pd: seq<word>, qd: seq<word>, lo: nat, hi: nat)
    requires hi <= |pd| == |qd|
    requires forall j :: lo <= j < hi ==> pd[j] == qd[j]
    ensures EmptyPdes(pd, lo, hi) == EmptyPdes(qd, lo, hi)
    decreases hi - lo
  {
    if lo < hi {
      EmptyPdesSame(pd, qd, lo + 1, hi);
    }
  }

  /** The directory entry of the last address of the range. */
  function LastPde(r: Request): (j: nat)
    requires r.Legal()
    ensures j < PDES
  {
    PdeIndex(r.vaStart + r.Length() - 1)
  }

  /** Fresh tables needed from address va on. */
  function TablesNeeded(pd: seq<word>, r: Request, va: nat): nat
    requires |pd| == PDES && r.Legal()
  {
    EmptyPdes(pd, PdeIndex(va), LastPde(r) + 1)
  }

  lemma CurrentPdeInRange(r: Request, off: nat)
    requires r.Legal() && off < r.Length()
    ensures PdeIndex(r.vaStart + off) <= LastPde(r)
  {
  }

  /** Hooking up the table of the current entry lowers the need by one. */
  lemma NeedAfterTable(pd: seq<word>, r: Request, off: nat, w: word)
    requires |pd| == PDES && r.Legal() && off < r.Length()
    requires PdeType(pd[PdeIndex(r.vaStart + off)]) == 0 && PdeType(w) != 0
    ensures TablesNeeded(pd[PdeIndex(r.vaStart + off) := w], r, r.vaStart + off) + 1
         == TablesNeeded(pd, r, r.vaStart + off)
  {
    hide PdeType, PdeIndex;
    CurrentPdeInRange(r, off);
    var j := PdeIndex(r.vaStart + off);
    EmptyPdesSame(pd, pd[j := w], j + 1, LastPde(r) + 1);
  }

  /** Going on to the next unit, behind the same table or the next entry, needs no more. */
  lemma NeedAtNext(pd: seq<word>, r: Request, off: nat)
    requires |pd| == PDES && r.Legal() && !r.mu.IsSection() && off + r.mu.Size() <= r.Length()
    requires PdeType(pd[PdeIndex(r.vaStart + off)]) != 0
    ensures TablesNeeded(pd, r, r.vaStart + off + r.mu.Size()) == TablesNeeded(pd, r, r.vaStart + off)
  {
    hide PdeType;
    CurrentPdeInRange(r, off);
    var j, j2 := PdeIndex(r.vaStart + off), PdeIndex(r.vaStart + off + r.mu.Size());
    assert j2 == j || j2 == j + 1;
  }

  lemma AlignedSum(a: nat, b: nat, size: nat)
    requires size > 0 && a % size == 0 && b % size == 0
    ensures (a + b) % size == 0
  {
    assert a == (a / size) * size && b == (b / size) * size;
    assert a + b == (a / size + b / size) * size;
    DivModUnique(a + b, size, a / size + b / size, 0);
  }

  /** The addresses of the unit at offset off are aligned and in range. */
  lemma UnitAddresses(r: Request, off: nat)
    requires r.Sized() && off % r.mu.Size() == 0 && off + r.mu.Size() <= r.Length()
    ensures (r.vaStart + off) % r.mu.Size() == 0 && (r.paStart + off) % r.mu.Size() == 0
    ensures r.vaStart + off + r.mu.Size() <= 0x1_0000_0000 && r.paStart + off + r.mu.Size() <= 0x1_0000_0000
  {
    hide Unit.Size, Request.Offset;
    AlignedSum(r.vaStart, off, r.mu.Size());
    AlignedSum(r.paStart, off, r.mu.Size());
  }

  /** The check of a section unit's directory entries decides whether it is free. */
  lemma SectionUnitFree(t: Tables, kpt: word, r: Request, off: nat)
    requires r.Legal() && r.mu.IsSection() && Inv(t, kpt)
    requires off % r.mu.Size() == 0 && off + r.mu.Size() <= r.Length()
    ensures PdeIndex(r.vaStart + off) + r.mu.Copies() <= PDES
    ensures UnitFree(t, kpt, r, off) <==>
            AllInvalid(t.pd, PdeIndex(r.vaStart + off), PdeIndex(r.vaStart + off) + r.mu.Copies())
  {
    hide Walk, Extract, PdeIndex;
    UnitAddresses(r, off);
    var va := r.vaStart + off;
    var j := PdeIndex(va);
    SectionSlots(r.mu, va, va);
    if UnitFree(t, kpt, r, off) {
      forall i | j <= i < j + r.mu.Copies() ensures Extract(t.pd[i], 0, 2) == 0 {
        FirstOfIndex(i);
        SectionSlots(r.mu, va, i * 0x10_0000);
        assert SlotFree(t, kpt, r.mu, i * 0x10_0000);
      }
    }
    if AllInvalid(t.pd, j, j + r.mu.Copies()) {
      forall x: word | va <= x < va + r.mu.Size() ensures SlotFree(t, kpt, r.mu, x) {
        SectionSlots(r.mu, va, x);
        IndexRange(x);
      }
    }
  }

  /** One more section unit. */
  lemma MapSectionStep(t0: Tables, t1: Tables, kpt: word, r: Request, off: nat)
    requires r.Legal() && r.mu.IsSection()
    requires Mapped(t0, t1, kpt, r, off) && UnitFree(t1, kpt, r, off)
    requires off % r.mu.Size() == 0 && off + r.mu.Size() <= r.Length()
    ensures PdeIndex(r.vaStart + off) + r.mu.Copies() <= PDES
    ensures var t2 := t1.(pd := Fill(t1.pd, PdeIndex(r.vaStart + off), r.mu.Copies(), SectionWord(r, r.paStart + off)));
            Mapped(t0, t2, kpt, r, off + r.mu.Size()) && SlotsSame(t1, t2, kpt, r, off + r.mu.Size())
  {
    hide Walk, Extract, SectionWord, PdeIndex;
    UnitAddresses(r, off);
    var va, pa := r.vaStart + off, r.paStart + off;
    SectionUnitFree(t1, kpt, r, off);
    SectionStep(t1, kpt, r, va, pa);
    var t2 := t1.(pd := Fill(t1.pd, PdeIndex(va), r.mu.Copies(), SectionWord(r, pa)));
    hide PdeType, UnitFree, AllInvalid;
    forall x: word | va + r.mu.Size() <= x < r.vaStart + r.Length()
      ensures SlotFree(t1, kpt, r.mu, x) <==> SlotFree(t2, kpt, r.mu, x)
    {
      SectionSlots(r.mu, va, x);
      IndexRange(x);
    }
  }

  /** Hooking up a table for the current unit. */
  lemma MapTableStep(t0: Tables, t1: Tables, kpt: word, r: Request, off: nat, tpa: word)
    requires r.Legal() && !r.mu.IsSection()
    requires Mapped(t0, t1, kpt, r, off) && off < r.Length()
    requires PdeType(t1.pd[PdeIndex(r.vaStart + off)]) == 0 && Fresh(t1, tpa)
    ensures var t2 := Tables(t1.pd[PdeIndex(r.vaStart + off) := TableWord(tpa)], Fill(t1.ram, tpa / 4, PTES, 0));
            && Mapped(t0, t2, kpt, r, off) && SlotsSame(t1, t2, kpt, r, off)
            && PdeType(t2.pd[PdeIndex(r.vaStart + off)]) == 1 && PdeTable(t2.pd[PdeIndex(r.vaStart + off)]) == tpa
  {
    hide Walk, PdeType, PdeTable, TableWord;
    var j := PdeIndex(r.vaStart + off);
    TableStep(t1, kpt, j, tpa);
    TableWordDecodes(tpa);
    var t2 := Tables(t1.pd[j := TableWord(tpa)], Fill(t1.ram, tpa / 4, PTES, 0));
    forall x: word | r.vaStart + off <= x < r.vaStart + r.Length()
      ensures SlotFree(t1, kpt, r.mu, x) <==> SlotFree(t2, kpt, r.mu, x)
    {
      if PdeIndex(x) == j {
        EmptyPde(t1, kpt, x);
      }
    }
  }

  /** One more page unit. */
  lemma MapPageStep(t0: Tables, t1: Tables, kpt: word, r: Request, off: nat)
    requires r.Legal() && !r.mu.IsSection()
    requires Mapped(t0, t1, kpt, r, off)
    requires off % r.mu.Size() == 0 && off + r.mu.Size() <= r.Length()
    requires PdeType(t1.pd[PdeIndex(r.vaStart + off)]) == 1
    ensures var start := TableStart(t1, kpt, PdeIndex(r.vaStart + off)) + PteIndex(r.vaStart + off);
            && start + r.mu.Copies() <= |t1.ram|
            && var t2 := t1.(ram := Fill(t1.ram, start, r.mu.Copies(), PageWord(r, r.paStart + off)));
               Mapped(t0, t2, kpt, r, off + r.mu.Size()) && SlotsSame(t1, t2, kpt, r, off + r.mu.Size())
  {
    hide Walk, PdeType, PdeTable, PageWord, TableStart, PteIndex;
    UnitAddresses(r, off);
    var va, pa := r.vaStart + off, r.paStart + off;
    PageStep(t1, kpt, r, va, pa);
  }

  /** The check of a page unit's directory entry, and of its table entries if that is a table, decides whether
      it is free. */
  lemma PageUnitFree(t: Tables, kpt: word, r: Request, off: nat)
    requires r.Legal() && !r.mu.IsSection() && Inv(t, kpt)
    requires off % r.mu.Size() == 0 && off + r.mu.Size() <= r.Length()
    ensures PdeIndex(r.vaStart + off) < PDES && PteIndex(r.vaStart + off) + r.mu.Copies() <= PTES
    ensures PdeType(t.pd[PdeIndex(r.vaStart + off)]) > 1 ==> !UnitFree(t, kpt, r, off)
    ensures PdeType(t.pd[PdeIndex(r.vaStart + off)]) == 1 ==>
              var start := TableStart(t, kpt, PdeIndex(r.vaStart + off)) + PteIndex(r.vaStart + off);
              && start + r.mu.Copies() <= |t.ram|
              && (UnitFree(t, kpt, r, off) <==> AllInvalid(t.ram, start, start + r.mu.Copies()))
  {
    hide PdeTable, Extract, PdeIndex, PteIndex, Walk, TableStart;
    UnitAddresses(r, off);
    var va: word := r.vaStart + off;
    IndexRange(va);
    PageSlots(r.mu, va, va);
    if PdeType(t.pd[PdeIndex(va)]) > 1 {
      assert !SlotFree(t, kpt, r.mu, va);
    } else if PdeType(t.pd[PdeIndex(va)]) == 1 {
      TableUnitFree(t, kpt, r, off);
    }
  }

  lemma TableUnitFree(t: Tables, kpt: word, r: Request, off: nat)
    requires r.Legal() && !r.mu.IsSection() && Inv(t, kpt)
    requires off % r.mu.Size() == 0 && off + r.mu.Size() <= r.Length()
    requires PdeIndex(r.vaStart + off) < PDES && PdeType(t.pd[PdeIndex(r.vaStart + off)]) == 1
    requires PteIndex(r.vaStart + off) + r.mu.Copies() <= PTES
    ensures var start := TableStart(t, kpt, PdeIndex(r.vaStart + off)) + PteIndex(r.vaStart + off);
            && start + r.mu.Copies() <= |t.ram|
            && (UnitFree(t, kpt, r, off) <==> AllInvalid(t.ram, start, start + r.mu.Copies()))
  {
    ShortcutAgrees(t, kpt, PdeIndex(r.vaStart + off));
    hide PdeTable, Extract, PdeIndex, PteIndex, Walk, TableStart, TableAddress, InWindow;
    UnitAddresses(r, off);
    var va: word := r.vaStart + off;
    var start := TableStart(t, kpt, PdeIndex(va)) + PteIndex(va);
    if UnitFree(t, kpt, r, off) {
      forall i | start <= i < start + r.mu.Copies() ensures Extract(t.ram[i], 0, 2) == 0 {
        EntryOfUnit(t, kpt, r, off, i - start);
      }
    }
    if AllInvalid(t.ram, start, start + r.mu.Copies()) {
      forall x: word | va <= x < va + r.mu.Size() ensures SlotFree(t, kpt, r.mu, x) {
        PageSlots(r.mu, va, x);
        WalkOfEntry(t, kpt, x);
      }
    }
  }

  /** Behind a table, an address is untranslated iff its table entry is invalid. */
  lemma WalkOfEntry(t: Tables, kpt: word, x: word)
    requires Inv(t, kpt) && PdeIndex(x) < PDES && PdeType(t.pd[PdeIndex(x)]) == 1
    ensures TableStart(t, kpt, PdeIndex(x)) + PTES <= |t.ram| && PteIndex(x) < PTES
    ensures Walk(t, kpt, x) == None <==> PteType(t.ram[TableStart(t, kpt, PdeIndex(x)) + PteIndex(x)]) == 0
  {
    hide PdeType, PdeTable, PteType, PdePa, PdeUnit, PdeAttrs, PtePa, PteUnit, PteAttrs, PdeIndex, PteIndex;
    ShortcutAgrees(t, kpt, PdeIndex(x));
    IndexRange(x);
  }

  lemma EntryOfUnit(t: Tables, kpt: word, r: Request, off: nat, k: nat)
    requires r.Legal() && !r.mu.IsSection() && Inv(t, kpt) && UnitFree(t, kpt, r, off)
    requires off % r.mu.Size() == 0 && off + r.mu.Size() <= r.Length() && k < r.mu.Copies()
    requires PdeIndex(r.vaStart + off) < PDES && PdeType(t.pd[PdeIndex(r.vaStart + off)]) == 1
    requires PteIndex(r.vaStart + off) + r.mu.Copies() <= PTES
    requires TableStart(t, kpt, PdeIndex(r.vaStart + off)) + PTES <= |t.ram|
    ensures PteType(t.ram[TableStart(t, kpt, PdeIndex(r.vaStart + off)) + PteIndex(r.vaStart + off) + k]) == 0
  {
    hide PdeType, PdeTable, PteType, PdeIndex, PteIndex, Walk, TableStart, Inv;
    UnitAddresses(r, off);
    var va := r.vaStart + off;
    var x := va + k * 0x1000;
    assert x < va + r.mu.Size() <= r.vaStart + r.Length();
    SlotNumber(va, k);
    assert SlotFree(t, kpt, r.mu, x);
    WalkOfEntry(t, kpt, x);
  }

  lemma SlotNumber(va: nat, k: nat)
    requires PteIndex(va) + k < PTES
    ensures PteIndex(va + k * 0x1000) == PteIndex(va) + k && PdeIndex(va + k * 0x1000) == PdeIndex(va)
  {
    var p := va / 0x1000;
    DivModUnique(va + k * 0x1000, 0x1000, p + k, va % 0x1000);
    DivModUnique(p + k, 0x100, p / 0x100, p % 0x100 + k);
    Hundredths(va);
    Hundredths(va + k * 0x1000);
  }

  lemma Hundredths(va: nat)
    ensures PdeIndex(va) == va / 0x1000 / 0x100 && PteIndex(va) == va / 0x1000 % 0x100
  {
  }

  lemma OffsetZero(r: Request)
    ensures r.Offset(0) == 0
  {
  }

  /** The offsets of the units of a request. */
  lemma UnitOffset(r: Request, i: nat)
    requires i < r.n
    ensures r.Offset(i) % r.mu.Size() == 0 && r.Offset(i) >= 0
    ensures r.Offset(i) + r.mu.Size() == r.Offset(i + 1) <= r.Length()
  {
    hide Unit.Size;
    DivModUnique(r.Offset(i), r.mu.Size(), i, 0);
    MulMonotone(i + 1, r.n, r.mu.Size());
  }

  // ---- Unmapping ----

  /** The pages of the range are behind tables: what the code asserts of each. */
  ghost predicate TablesBehind(pd: seq<word>, r: Request)
    requires |pd| == PDES
  {
    forall x: word | r.Covers(x) :: PdeType(pd[PdeIndex(x)]) == 1
  }

  /** The range touches no directory entry of the static tables. */
  ghost predicate ClearOfWindow(r: Request) {
    forall x: word | r.Covers(x) :: !InWindow(PdeIndex(x))
  }

  /** The directory entries of the first `off` bytes of the range are zeroed, and no others. */
  ghost predicate EntriesZeroed(pd0: seq<word>, pd1: seq<word>, r: Request, off: nat) {
    && |pd0| == PDES && |pd1| == PDES
    && forall j: nat | j < PDES :: pd1[j] == if r.vaStart <= j * 0x10_0000 < r.vaStart + off then 0 else pd0[j]
  }

  /** One more section unit. */
  lemma UnmapSectionStep(pd0: seq<word>, pd1: seq<word>, r: Request, off: nat)
    requires r.Sized() && r.mu.IsSection() && EntriesZeroed(pd0, pd1, r, off)
    requires off % r.mu.Size() == 0 && off + r.mu.Size() <= r.Length()
    ensures PdeIndex(r.vaStart + off) + r.mu.Copies() <= PDES
    ensures EntriesZeroed(pd0, Fill(pd1, PdeIndex(r.vaStart + off), r.mu.Copies(), 0), r, off + r.mu.Size())
  {
    hide PdeIndex;
    UnitAddresses(r, off);
    var va := r.vaStart + off;
    SectionSlots(r.mu, va, va);
    forall j: nat | j < PDES
      ensures va <= j * 0x10_0000 < va + r.mu.Size() <==> PdeIndex(va) <= j < PdeIndex(va) + r.mu.Copies()
    {
      FirstOfIndex(j);
      SectionSlots(r.mu, va, j * 0x10_0000);
    }
    hide Unit.Size, Unit.Copies, Request.Sized, Request.Length;
  }

  /** A range of sections covers whole megabytes. */
  lemma WholeMegabytes(r: Request, x: word)
    requires r.Sized() && r.mu.IsSection()
    ensures PdeIndex(x) < PDES && (r.Covers(x) <==> r.Covers(PdeIndex(x) * 0x10_0000))
  {
    var s := r.mu.Size();
    assert s % 0x10_0000 == 0;
    var k := s / 0x10_0000;
    assert r.Length() == r.n * (k * 0x10_0000) == (r.n * k) * 0x10_0000;
    MegabyteBounds(r.vaStart, r.n * k, x);
  }

  lemma MegabyteBounds(start: nat, m: nat, x: nat)
    requires start % 0x10_0000 == 0
    ensures start <= x < start + m * 0x10_0000 <==> start <= x / 0x10_0000 * 0x10_0000 < start + m * 0x10_0000
  {
  }

  /** Zeroing the entries of the whole range unmaps exactly the range, and keeps the tables in order, iff it is
      clear of the static tables. */
  lemma ZeroedIsUnmapped(t0: Tables, t1: Tables, kpt: word, r: Request)
    requires Inv(t0, kpt) && r.Sized() && r.mu.IsSection()
    requires EntriesZeroed(t0.pd, t1.pd, r, r.Length()) && t1.ram == t0.ram
    ensures Inv(t1, kpt) <==> ClearOfWindow(r)
    ensures ClearOfWindow(r) ==> Unmapped(t0, t1, kpt, r, r.Length())
  {
    hide PdeType, PdeTable, PdeIndex, PteIndex, PdePa, PdeUnit, PdeAttrs, PteType, PtePa, PteUnit, PteAttrs,
      Request.Sized, Request.Length;
    ZeroIsInvalid();
    forall j: nat | j < PDES ensures t1.pd[j] == if r.Covers(j * 0x10_0000) then 0 else t0.pd[j] {
    }
    if ClearOfWindow(r) {
      forall j: nat | j < PDES && InWindow(j) ensures t1.pd[j] == t0.pd[j] {
        FirstOfIndex(j);
        var x: word := j * 0x10_0000;
        assert InWindow(PdeIndex(x)) && !r.Covers(x);
      }
      assert Inv(t1, kpt);
      forall x: word ensures Walk(t1, kpt, x) == if r.Covers(x) then None else Walk(t0, kpt, x) {
        WholeMegabytes(r, x);
      }
    } else {
      var x: word :| r.Covers(x) && InWindow(PdeIndex(x));
      WholeMegabytes(r, x);
      assert PdeType(t1.pd[PdeIndex(x)]) != 1;
    }
  }

  lemma UnmapPageStep(t0: Tables, t1: Tables, kpt: word, r: Request, off: nat)
    requires r.Sized() && !r.mu.IsSection() && Unmapped(t0, t1, kpt, r, off)
    requires t1.pd == t0.pd && PdeIndex(r.vaStart + off) < PDES && PdeType(t1.pd[PdeIndex(r.vaStart + off)]) == 1
    requires off % r.mu.Size() == 0 && off + r.mu.Size() <= r.Length()
    ensures var start := TableStart(t1, kpt, PdeIndex(r.vaStart + off)) + PteIndex(r.vaStart + off);
            && start + r.mu.Copies() <= |t1.ram|
            && Unmapped(t0, t1.(ram := Fill(t1.ram, start, r.mu.Copies(), 0)), kpt, r, off + r.mu.Size())
  {
    hide Walk, PdeType, PdeTable, TableStart, PteIndex;
    UnitAddresses(r, off);
    PageClear(t1, kpt, r.mu, r.vaStart + off);
  }

  /** A page unit is behind one directory entry. */
  lemma UnitEntry(r: Request, off: nat, x: word)
    requires r.Sized() && !r.mu.IsSection() && off % r.mu.Size() == 0 && off + r.mu.Size() <= r.Length()
    requires r.vaStart + off <= x < r.vaStart + off + r.mu.Size()
    ensures PdeIndex(x) == PdeIndex(r.vaStart + off)
  {
    hide PdeIndex, PteIndex;
    UnitAddresses(r, off);
    PageSlots(r.mu, r.vaStart + off, x);
  }

  /** The value the loop variable `pa` has at unit i of a page unmapping: the base of the table used
      for the unit before, plus one unit, unless that table was one of the static ones. */
  function PaAt(pd: seq<word>, r: Request, i: nat): word
    requires |pd| == PDES && r.Sized() && i <= r.n
  {
    if i == 0 then r.paStart
    else
      UnitOffset(r, i - 1);
      var j := PdeIndex(r.vaStart + r.Offset(i - 1));
      ((if InWindow(j) then PaAt(pd, r, i - 1) else PdeTable(pd[j])) + r.mu.Size()) % 0x1_0000_0000
  }

  lemma PaFirst(pd: seq<word>, r: Request)
    requires |pd| == PDES && r.Sized()
    ensures PaAt(pd, r, 0) == r.paStart
  {
  }

  /** One round of the loop brings `pa` to its next value. */
  lemma PaNext(pd: seq<word>, r: Request, i: nat, va: word, pa: word)
    requires |pd| == PDES && r.Sized() && i < r.n && va == r.vaStart + r.Offset(i) && PdeIndex(va) < PDES
    requires pa == if InWindow(PdeIndex(va)) then PaAt(pd, r, i) else PdeTable(pd[PdeIndex(va)])
    ensures (pa + r.mu.Size()) % 0x1_0000_0000 == PaAt(pd, r, i + 1)
  {
    hide PdeTable, Unit.Size, Request.Offset, PdeIndex, InWindow;
  }

  /** No unit after the first finds `pa` below the start of the request. */
  ghost predicate PaCheckHolds(pd: seq<word>, r: Request)
    requires |pd| == PDES && r.Sized()
  {
    forall i: nat | i < r.n :: PaAt(pd, r, i) >= r.paStart
  }

  /** Outside the window the check at unit i compares the base of the table before it. */
  lemma PaCheckDynamic(pd: seq<word>, r: Request)
    requires |pd| == PDES && r.Sized()
    requires forall x: word | r.Covers(x) :: !InWindow(PdeIndex(x))
    ensures PaCheckHolds(pd, r) <==>
            forall i: nat | i + 1 < r.n :: TableBefore(pd, r, i) % 0x1_0000_0000 >= r.paStart
  {
    hide PdeTable, Unit.Size, Request.Offset, PdeIndex;
    forall i: nat | i + 1 < r.n ensures PaAt(pd, r, i + 1) == TableBefore(pd, r, i) % 0x1_0000_0000 {
      UnitOffset(r, i);
      SizePositive(r, i);
      assert r.Covers(r.vaStart + r.Offset(i));
    }
    if forall i: nat | i + 1 < r.n :: TableBefore(pd, r, i) % 0x1_0000_0000 >= r.paStart {
      forall i: nat | i < r.n ensures PaAt(pd, r, i) >= r.paStart {
        if i > 0 {
          assert TableBefore(pd, r, i - 1) % 0x1_0000_0000 >= r.paStart;
        }
      }
    }
    if PaCheckHolds(pd, r) {
      forall i: nat | i + 1 < r.n ensures TableBefore(pd, r, i) % 0x1_0000_0000 >= r.paStart {
        assert PaAt(pd, r, i + 1) >= r.paStart;
      }
    }
  }

  lemma SizePositive(r: Request, i: nat)
    requires r.Offset(i) + r.mu.Size() <= r.Length()
    ensures r.Offset(i) < r.Length()
  {
  }

  function TableBefore(pd: seq<word>, r: Request, i: nat): nat
    requires |pd| == PDES && r.Sized() && i < r.n
  {
    UnitOffset(r, i);
    PdeTable(pd[PdeIndex(r.vaStart + r.Offset(i))]) + r.mu.Size()
  }

  lemma RangeFits(r: Request)
    requires r.Sized()
    ensures r.paStart + r.Length() <= 0x1_0000_0000 && r.vaStart + r.Length() <= 0x1_0000_0000
  {
  }

  /** Unit i lies behind a table other than the static ones. */
  predicate Outside(r: Request, i: nat) {
    !InWindow(PdeIndex(r.vaStart + r.Offset(i)))
  }

  /** Unit l is the last one before unit i that is outside the window. */
  ghost predicate LastOutside(r: Request, l: nat, i: nat): (b: bool)
    ensures b ==> l < i
  {
    l < i && Outside(r, l) && forall m: nat | l < m < i :: !Outside(r, m)
  }

  /** The base of the table of unit l, plus the distance from there to unit i. */
  function SinceTable(pd: seq<word>, r: Request, l: nat, i: nat): int
    requires |pd| == PDES && r.Sized() && l < i < r.n
  {
    UnitOffset(r, l);
    (PdeTable(pd[PdeIndex(r.vaStart + r.Offset(l))]) + (r.Offset(i) - r.Offset(l))) % 0x1_0000_0000
  }

  lemma PaRound(pd: seq<word>, r: Request, i: nat)
    requires |pd| == PDES && r.Sized() && i < r.n
    ensures r.Offset(i + 1) == r.Offset(i) + r.mu.Size() && r.Offset(i) >= 0
    ensures r.vaStart + r.Offset(i) >= 0 && PdeIndex(r.vaStart + r.Offset(i)) < PDES
    ensures PaAt(pd, r, i + 1) ==
            ((if Outside(r, i) then PdeTable(pd[PdeIndex(r.vaStart + r.Offset(i))]) else PaAt(pd, r, i)) + r.mu.Size())
            % 0x1_0000_0000
  {
    hide PdeTable, Unit.Size, Request.Offset, InWindow;
    UnitOffset(r, i);
  }

  lemma RangeEnds(r: Request, i: nat)
    requires r.Sized() && i < r.n
    ensures r.Offset(i) >= 0 && r.paStart + r.Offset(i) < 0x1_0000_0000
  {
    hide Unit.Size, Request.Offset, Request.Sized;
    RangeFits(r);
    UnitOffset(r, i);
  }

  /** Up to the first unit outside the window `pa` is the unit's physical address. */
  lemma {:induction false} PaBefore(pd: seq<word>, r: Request, i: nat)
    requires |pd| == PDES && r.Sized() && i < r.n && forall m: nat | m < i :: !Outside(r, m)
    ensures PaAt(pd, r, i) == r.paStart + r.Offset(i) >= r.paStart
  {
    hide PdeTable, Unit.Size, Request.Offset, PdeIndex, Request.Sized, InWindow, Outside;
    RangeEnds(r, i);
    if i > 0 {
      PaBefore(pd, r, i - 1);
      PaRound(pd, r, i - 1);
      assert !Outside(r, i - 1);
      hide PaAt;
      Small(r.paStart + r.Offset(i), 0x1_0000_0000);
    } else {
      OffsetZero(r);
    }
  }

  lemma ModSum(a: nat, b: nat, m: nat)
    requires m == 0x1_0000_0000
    ensures (a % m + b) % m == (a + b) % m
  {
  }

  /** After that it counts on from the last table. */
  lemma {:induction false} PaSince(pd: seq<word>, r: Request, l: nat, i: nat)
    requires |pd| == PDES && r.Sized() && l < i < r.n && LastOutside(r, l, i)
    ensures PaAt(pd, r, i) == SinceTable(pd, r, l, i)
  {
    hide PaAt, PdeTable, Unit.Size, Request.Offset, PdeIndex, Request.Sized, InWindow, Outside;
    PaRound(pd, r, i - 1);
    if l < i - 1 {
      PaSince(pd, r, l, i - 1);
      PaRound(pd, r, l);
      FartherOn(r, l, i - 1);
      var base := PdeTable(pd[PdeIndex(r.vaStart + r.Offset(l))]);
      ModSum(base + (r.Offset(i - 1) - r.Offset(l)), r.mu.Size(), 0x1_0000_0000);
      assert !Outside(r, i - 1);
    }
  }

  lemma FartherOn(r: Request, l: nat, i: nat)
    requires l <= i
    ensures r.Offset(l) <= r.Offset(i)
  {
    MulMonotone(l, i, r.mu.Size());
  }

  lemma {:induction false} FindOutside(r: Request, i: nat)
    ensures (forall m: nat | m < i :: !Outside(r, m)) || exists l: nat :: LastOutside(r, l, i)
  {
    if i > 0 {
      var j: nat := i - 1;
      FindOutside(r, j);
      if Outside(r, j) {
        assert LastOutside(r, j, i);
      } else if l: nat :| LastOutside(r, l, j) {
        assert LastOutside(r, l, i);
      }
    }
  }

  /** Inside the window `pa` is never overwritten and the check always holds. */
  lemma PaCheckStatic(pd: seq<word>, r: Request)
    requires |pd| == PDES && r.Sized()
    requires forall x: word | r.Covers(x) :: InWindow(PdeIndex(x))
    ensures PaCheckHolds(pd, r)
  {
    hide PaAt, Unit.Size, Request.Offset, InWindow;
    forall i: nat | i < r.n ensures PaAt(pd, r, i) >= r.paStart {
      forall m: nat | m < i ensures !Outside(r, m) {
        UnitOffset(r, m);
        SizePositive(r, m);
        assert r.Covers(r.vaStart + r.Offset(m));
      }
      PaBefore(pd, r, i);
    }
  }

  /** The check in general: it holds iff at every unit with some unit before it outside the window, the table
      of the last such unit, plus the distance from there, is not below the request. */
  lemma PaCheckGeneral(pd: seq<word>, r: Request)
    requires |pd| == PDES && r.Sized()
    ensures PaCheckHolds(pd, r) <==>
            forall l: nat, i: nat | l < i < r.n && LastOutside(r, l, i) :: SinceTable(pd, r, l, i) >= r.paStart
  {
    hide PaAt, Unit.Size, Request.Offset, Outside, LastOutside, SinceTable;
    if PaCheckHolds(pd, r) {
      forall l: nat, i: nat | l < i < r.n && LastOutside(r, l, i) ensures SinceTable(pd, r, l, i) >= r.paStart {
        PaSince(pd, r, l, i);
        assert PaAt(pd, r, i) >= r.paStart;
      }
    }
    if forall l: nat, i: nat | l < i < r.n && LastOutside(r, l, i) :: SinceTable(pd, r, l, i) >= r.paStart {
      forall i: nat | i < r.n ensures PaAt(pd, r, i) >= r.paStart {
        FindOutside(r, i);
        if l: nat :| LastOutside(r, l, i) {
          PaSince(pd, r, l, i);
        } else {
          PaBefore(pd, r, i);
        }
      }
    }
  }

  /** The two frames from 0x90_2000 on, mapped at the end of the slab area but for its last nine pages. */
  const TWO_PAGES := Request(2, 0xf7ff_5000, 0x90_2000, 0, 0, SmallPage, 0)

  /** The reuse of `pa` does stop a legal request: two pages behind a table at 9MB, the first address that
      the frame allocator gives out after boot, at the end of the slab area. */
  lemma PaCheckCanFail(t: Tables, kpt: word)
    requires Inv(t, kpt) && PdeType(t.pd[0xf7f]) == 1 && PdeTable(t.pd[0xf7f]) == 0x90_0000
    ensures TWO_PAGES.Legal() && TablesBehind(t.pd, TWO_PAGES) && !PaCheckHolds(t.pd, TWO_PAGES)
  {
    hide PdeTable, PdeType;
    assert PaAt(t.pd, TWO_PAGES, 1) == 0x90_1000;
  }

  /** Such tables exist. */
  function NinthMbTables(): Tables {
    Tables(seq(PDES, j requires 0 <= j < PDES =>
                 if InWindow(j) then TableWord(0x10_0000 + (j - 0x400) * 0x400)
                 else if j == 0xf7f then TableWord(0x90_0000) else 0),
           seq(0x80_0000, _ => 0))
  }

  lemma NinthMbTablesOk()
    ensures Inv(NinthMbTables(), 0x10_0000)
    ensures PdeType(NinthMbTables().pd[0xf7f]) == 1 && PdeTable(NinthMbTables().pd[0xf7f]) == 0x90_0000
  {
    hide PdeType, PdeTable, PlainLink, TableWord;
    ZeroIsInvalid();
    var t := NinthMbTables();
    TableWordDecodes(0x90_0000);
    forall j: nat | j < PDES
      ensures PdeType(t.pd[j]) == 1 <==> InWindow(j) || j == 0xf7f
      ensures InWindow(j) ==> PdeTable(t.pd[j]) == 0x10_0000 + (j - 0x400) * 0x400 && PlainLink(t.pd[j])
    {
      if InWindow(j) {
        TableWordDecodes(0x10_0000 + (j - 0x400) * 0x400);
      }
    }
  }

  // ---- What follows from the specification ----

  /** Mapping a free range and unmapping it again restores every translation. */
  lemma MapThenUnmap(t0: Tables, t1: Tables, t2: Tables, kpt: word, r: Request)
    requires r.Legal() && Mapped(t0, t1, kpt, r, r.Length()) && SlotsFree(t0, kpt, r, 0)
    requires Unmapped(t1, t2, kpt, r, r.Length())
    ensures forall x: word :: Walk(t2, kpt, x) == Walk(t0, kpt, x)
  {
    hide Walk, PdeType;
    forall x: word ensures Walk(t2, kpt, x) == Walk(t0, kpt, x) {
      if r.Covers(x) {
        FreeIsUntranslated(t0, kpt, r, x);
      }
    }
  }

  lemma FreeIsUntranslated(t: Tables, kpt: word, r: Request, x: word)
    requires Inv(t, kpt) && SlotsFree(t, kpt, r, 0) && r.Covers(x)
    ensures Walk(t, kpt, x) == None
  {
    assert SlotFree(t, kpt, r.mu, x);
  }

  /** All addresses of one mapped unit are translated by the same unit: its replicated descriptors agree. */
  ghost predicate Coherent(t: Tables, kpt: word)
    requires Inv(t, kpt)
  {
    forall x: word, y: word | Walk(t, kpt, x).Some? && SameUnit(Walk(t, kpt, x).value.unit, x, y) ::
      Agree(t, kpt, x, y)
  }

  predicate SameUnit(mu: Unit, x: word, y: word) {
    x / mu.Size() == y / mu.Size()
  }

  ghost predicate Agree(t: Tables, kpt: word, x: word, y: word)
    requires Inv(t, kpt) && Walk(t, kpt, x).Some?
  {
    var e := Walk(t, kpt, x).value;
    Walk(t, kpt, y).Some? && Walk(t, kpt, y).value.unit == e.unit && Walk(t, kpt, y).value.attrs == e.attrs
    && Walk(t, kpt, y).value.pa - y == e.pa - x
  }

  lemma MapKeepsCoherence(t0: Tables, t1: Tables, kpt: word, r: Request)
    requires r.Legal() && Mapped(t0, t1, kpt, r, r.Length()) && SlotsFree(t0, kpt, r, 0)
    requires Coherent(t0, kpt)
    ensures Coherent(t1, kpt)
  {
    hide Walk, PdeType;
    forall x: word, y: word | Walk(t1, kpt, x).Some? && SameUnit(Walk(t1, kpt, x).value.unit, x, y)
      ensures Agree(t1, kpt, x, y)
    {
      if r.Covers(x) {
        UnitInRange(r, x, y);
      } else {
        assert Agree(t0, kpt, x, y);
        if r.Covers(y) {
          FreeIsUntranslated(t0, kpt, r, y);
          assert false;
        }
      }
    }
  }

  /** No mapped unit is cut by the range. */
  ghost predicate WholeUnits(t: Tables, kpt: word, r: Request)
    requires Inv(t, kpt)
  {
    forall x: word, y: word | Walk(t, kpt, x).Some? && SameUnit(Walk(t, kpt, x).value.unit, x, y) && r.Covers(y) ::
      r.Covers(x)
  }

  /** Unmapping keeps the tables coherent exactly when it cuts no mapped unit. */
  lemma UnmapKeepsCoherence(t0: Tables, t1: Tables, kpt: word, r: Request)
    requires r.Sized() && Unmapped(t0, t1, kpt, r, r.Length()) && Coherent(t0, kpt)
    ensures Coherent(t1, kpt) <==> WholeUnits(t0, kpt, r)
  {
    hide Walk;
    if WholeUnits(t0, kpt, r) {
      forall x: word, y: word | Walk(t1, kpt, x).Some? && SameUnit(Walk(t1, kpt, x).value.unit, x, y)
        ensures Agree(t1, kpt, x, y)
      {
        assert Walk(t1, kpt, x) == Walk(t0, kpt, x);
        assert Agree(t0, kpt, x, y);
        assert !r.Covers(x) && !r.Covers(y);
        assert Walk(t1, kpt, y) == Walk(t0, kpt, y);
      }
    }
    if Coherent(t1, kpt) {
      forall x: word, y: word | Walk(t0, kpt, x).Some? && SameUnit(Walk(t0, kpt, x).value.unit, x, y) && r.Covers(y)
        ensures r.Covers(x)
      {
        assert Walk(t1, kpt, y) == None;
        assert Walk(t1, kpt, x) == if r.Covers(x) then None else Walk(t0, kpt, x);
        assert Walk(t1, kpt, x).Some? ==> Agree(t1, kpt, x, y);
      }
    }
  }

  /** In particular, a range whose mappings are no larger than the unit it is unmapped by cuts none. */
  lemma SmallerUnitsAreWhole(t: Tables, kpt: word, r: Request)
    requires r.Sized() && Inv(t, kpt) && Coherent(t, kpt)
    requires forall x: word | r.Covers(x) && Walk(t, kpt, x).Some? :: Walk(t, kpt, x).value.unit.Size() <= r.mu.Size()
    ensures WholeUnits(t, kpt, r)
  {
    hide Walk, SameUnit, Inv, Request.Sized, Unit.Size, Request.Length;
    forall x: word, y: word | Walk(t, kpt, x).Some? && SameUnit(Walk(t, kpt, x).value.unit, x, y) && r.Covers(y)
      ensures r.Covers(x)
    {
      assert Agree(t, kpt, x, y);
      LargerUnit(Walk(t, kpt, x).value.unit, r.mu, x, y);
      UnitInRange(r, y, x);
    }
  }

  lemma LargerUnit(small: Unit, large: Unit, x: word, y: word)
    requires small.Size() <= large.Size() && SameUnit(small, x, y)
    ensures SameUnit(large, x, y) && SameUnit(large, y, x)
  {
    Coarser(x);
    Coarser(y);
  }

  lemma Coarser(x: nat)
    ensures x / 0x1_0000 == x / 0x1000 / 16
    ensures x / 0x10_0000 == x / 0x1000 / 256 && x / 0x10_0000 == x / 0x1_0000 / 16
    ensures x / 0x100_0000 == x / 0x1000 / 4096 && x / 0x100_0000 == x / 0x1_0000 / 256
    ensures x / 0x100_0000 == x / 0x10_0000 / 16
  {
  }

  lemma UnitInRange(r: Request, x: word, y: word)
    requires r.Sized() && r.Covers(x) && SameUnit(r.mu, x, y)
    ensures r.Covers(y)
  {
    var s, q := r.mu.Size(), r.vaStart / r.mu.Size();
    assert r.vaStart == q * s;
    assert r.vaStart + r.n * s == (q + r.n) * s;
    var u := x / s;
    assert u * s <= x < u * s + s && u * s <= y < u * s + s;
    UnitBounds(u, q, q + r.n, s, x);
  }

  lemma UnitBounds(u: nat, lo: nat, hi: nat, s: nat, x: nat)
    requires s > 0 && u * s <= x < u * s + s && lo * s <= x < hi * s
    ensures lo * s <= u * s && u * s + s <= hi * s
  {
    if u < lo {
      MulMonotone(u + 1, lo, s);
      assert false;
    }
    if hi < u + 1 {
      MulMonotone(hi, u, s);
      assert false;
    }
    MulMonotone(lo, u, s);
    MulMonotone(u + 1, hi, s);
  }
}
