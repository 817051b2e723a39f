/** The kernel's page-table code: mapping, unmapping and the software table walk. */
module Mmu {
  import opened Wrappers
  import opened Shift
  import opened Word
  import opened Descriptors
  import opened PageTables
  import opened MapSpec

  /** Writes the same word to a run of slots. */
  method WriteRun(a: array<word>, start: nat, count: nat, w: word)
    requires start + count <= a.Length
    modifies a
    ensures a[..] == Fill(old(a[..]), start, count, w)
  {
    var k := 0;
    while k < count
      invariant 0 <= k <= count
      invariant forall i :: 0 <= i < a.Length ==> a[i] == if start <= i < start + k then w else old(a[i])
    {
      a[start + k] := w;
      k := k + 1;
    }
  }

  class Mmu {
    const pd: array<word>
    const ram: array<word>
    /** Physical address of the static tables. */
    const kpt: word
    /** Physical addresses of the tables that the slab of tables has to give out. */
    var pool: seq<word>

    ghost function T(): Tables
      reads pd, ram
    {
      Tables(pd[..], ram[..])
    }

    ghost predicate Valid()
      reads this, pd, ram
    {
      && pd != ram && pd.Length == PDES && Inv(T(), kpt)
      && (forall i :: 0 <= i < |pool| ==> Fresh(T(), pool[i]))
      && (forall i, j :: 0 <= i < j < |pool| ==> pool[i] != pool[j])
    }

    /** Takes over tables that are in order, and a supply of tables that no entry names. */
    constructor (pd: array<word>, ram: array<word>, kpt: word, pool: seq<word>)
      requires pd != ram && pd.Length == PDES && Inv(Tables(pd[..], ram[..]), kpt)
      requires forall i :: 0 <= i < |pool| ==> Fresh(Tables(pd[..], ram[..]), pool[i])
      requires forall i, j :: 0 <= i < j < |pool| ==> pool[i] != pool[j]
      ensures Valid() && this.pd == pd && this.ram == ram && this.kpt == kpt && this.pool == pool
    {
      this.pd, this.ram, this.kpt, this.pool := pd, ram, kpt, pool;
    }

    /** Maps the section unit at va, if its slots are invalid; the code asserts that they are. */
    method MapSectionUnit(r: Request, va: word, pa: word, ghost t0: Tables, ghost off: nat) returns (ok: bool)
      requires Valid() && r.Legal() && r.mu.IsSection()
      requires Mapped(t0, T(), kpt, r, off) && Checked(t0, T(), kpt, r, off)
      requires off % r.mu.Size() == 0 && off + r.mu.Size() <= r.Length()
      requires va == r.vaStart + off && pa == r.paStart + off
      modifies pd
      ensures Valid()
      ensures ok ==> Mapped(t0, T(), kpt, r, off + r.mu.Size()) && Checked(t0, T(), kpt, r, off + r.mu.Size())
      ensures !ok ==> !SlotsFree(t0, kpt, r, 0) && Stopped(t0, T(), kpt, r, off)
    {
      hide SlotsFree, Checked, UnitFree, SlotsSame, Mapped, Stopped, Extract, SectionWord, Fresh, Unit.Size,
        Request.Offset, Walk, Inv, PdeIndex;
      assert va >= r.vaStart && pa >= r.paStart;
      ghost var t1 := T();
      SectionUnitFree(t1, kpt, r, off);
      IndexBits(va);
      var j := Extract(va, 20, 12);
      var k := 0;
      while k < r.mu.Copies()
        invariant 0 <= k <= r.mu.Copies()
        invariant AllInvalid(pd[..], j, j + k)
      {
        if Extract(pd[j + k], 0, 2) != 0 {
          CheckFails(t0, t1, kpt, r, off);
          return false;
        }
        k := k + 1;
      }
      assert pd[..] == t1.pd;
      hide AllInvalid;
      MapSectionStep(t0, t1, kpt, r, off);
      PoolKeptBySection(t1, pool, r, va, pa);
      WriteRun(pd, j, r.mu.Copies(), SectionWord(r, pa));
      CheckedUnit(t0, t1, T(), kpt, r, off);
      return true;
    }

    /** Maps a range by sections; stops, with ok false, where the code asserts that a slot is invalid. */
    method MapSections(r: Request) returns (ok: bool)
      requires Valid() && r.Legal() && r.mu.IsSection()
      modifies pd
      ensures Valid()
      ensures ok <==> SlotsFree(old(T()), kpt, r, 0)
      ensures ok ==> Mapped(old(T()), T(), kpt, r, r.Length())
      ensures !ok ==> exists off: nat :: Stopped(old(T()), T(), kpt, r, off)
    {
      hide SlotsFree, Checked, Mapped, Stopped, Inv, Fresh, Unit.Size, Request.Offset;
      var i, va, pa := 0, r.vaStart, r.paStart;
      ghost var t0 := T();
      ghost var off: nat := 0;
      MappedNothing(t0, kpt, r);
      CheckedNothing(t0, kpt, r);
      OffsetZero(r);
      while i < r.n
        invariant 0 <= i <= r.n && off == r.Offset(i)
        invariant i < r.n ==> va == r.vaStart + off && pa == r.paStart + off
        invariant Valid() && Mapped(t0, T(), kpt, r, off) && Checked(t0, T(), kpt, r, off)
      {
        UnitOffset(r, i);
        ok := MapSectionUnit(r, va, pa, t0, off);
        if !ok {
          return;
        }
        i, off := i + 1, off + r.mu.Size();
        va, pa := (va + r.mu.Size()) % 0x1_0000_0000, (pa + r.mu.Size()) % 0x1_0000_0000;
        NextUnit(r, i);
      }
      CheckedAll(t0, T(), kpt, r);
      return true;
    }

    /** The first word of the table behind directory entry j. */
    method TableOf(j: nat) returns (pt: nat)
      requires Valid() && j < PDES
      ensures pt == TableStart(T(), kpt, j)
    {
      if j >= 0x400 && j < 0x404 {
        pt := kpt / 4 + (j - 0x400) * 0x100;
      } else {
        pt := InPlace(pd[j], 10, 22) / 4;
      }
    }

    /** Takes a fresh table, zeroes it, and hooks it up at directory entry j. */
    method AddTable(j: nat, ghost r: Request, ghost t0: Tables, ghost off: nat) returns (pt: nat)
      requires Valid() && r.Legal() && !r.mu.IsSection() && pool != []
      requires Mapped(t0, T(), kpt, r, off) && Checked(t0, T(), kpt, r, off) && off < r.Length()
      requires j == PdeIndex(r.vaStart + off) && j < PDES && PdeType(pd[j]) == 0
      modifies this`pool, pd, ram
      ensures Valid() && pool == old(pool)[1..]
      ensures Mapped(t0, T(), kpt, r, off) && Checked(t0, T(), kpt, r, off)
      ensures pd[..] == old(pd[..])[j := TableWord(old(pool[0]))] && PdeType(pd[j]) == 1
      ensures pt == TableStart(T(), kpt, j)
    {
      hide Checked, SlotsSame, Mapped, PdeType, PdeTable, TableWord, Unit.Size, Request.Offset, Walk, Inv, PdeIndex,
        Fresh, TableStart;
      var tpa := pool[0];
      pool := pool[1..];
      ghost var t1 := T();
      MapTableStep(t0, t1, kpt, r, off, tpa);
      PoolKeptByTable(t1, old(pool), j);
      FreshInRam(t1, tpa);
      WriteRun(ram, tpa / 4, PTES, 0);
      pd[j] := TableWord(tpa);
      CheckedTable(t0, t1, T(), kpt, r, off);
      ShortcutAgrees(T(), kpt, j);
      pt := tpa / 4;
    }

    /** Maps the page unit at va, if its slots are invalid; the code asserts that they are. */
    method MapPageUnit(r: Request, va: word, pa: word, ghost t0: Tables, ghost off: nat) returns (ok: bool)
      requires Valid() && r.Legal() && !r.mu.IsSection()
      requires Mapped(t0, T(), kpt, r, off) && Checked(t0, T(), kpt, r, off)
      requires off % r.mu.Size() == 0 && off + r.mu.Size() <= r.Length()
      requires va == r.vaStart + off && pa == r.paStart + off
      requires |pool| >= TablesNeeded(pd[..], r, va)
      modifies this`pool, pd, ram
      ensures Valid()
      ensures ok ==> Mapped(t0, T(), kpt, r, off + r.mu.Size()) && Checked(t0, T(), kpt, r, off + r.mu.Size())
      ensures ok ==> |pool| >= TablesNeeded(pd[..], r, va + r.mu.Size())
      ensures TablesAdded(t0.pd, old(pd[..])) ==> TablesAdded(t0.pd, pd[..])
      ensures |pool| >= |old(pool)| - 1
      ensures !ok ==> !SlotsFree(t0, kpt, r, 0) && Stopped(t0, T(), kpt, r, off)
    {
      hide SlotsFree, Checked, UnitFree, SlotsSame, Mapped, Stopped, Extract, PageWord, Fresh, Unit.Size,
        Request.Offset, Walk, Inv, PdeIndex, PteIndex, TableStart, TablesNeeded, PdeTable, TableWord, AllInvalid,
        TablesAdded;
      assert va >= r.vaStart && pa >= r.paStart;
      IndexBits(va);
      var j, k := Extract(va, 20, 12), Extract(pd[Extract(va, 20, 12)], 0, 2);
      if k != 0 && k != 1 {
        PageUnitFree(T(), kpt, r, off);
        CheckFails(t0, T(), kpt, r, off);
        return false;
      }
      var pt;
      if k == 0 {
        NeedsOne(pd[..], r, off);
        TableWordType(T(), pool[0]);
        NeedAfterTable(pd[..], r, off, TableWord(pool[0]));
        if TablesAdded(t0.pd, pd[..]) {
          OneTableAdded(t0.pd, pd[..], j, TableWord(pool[0]));
        }
        pt := AddTable(j, r, t0, off);
      } else {
        pt := TableOf(j);
      }
      ok := WritePageUnit(r, va, pa, pt, t0, off);
      NeedAtNext(pd[..], r, off);
    }

    method WritePageUnit(r: Request, va: word, pa: word, pt: nat, ghost t0: Tables, ghost off: nat) returns (ok: bool)
      requires Valid() && r.Legal() && !r.mu.IsSection()
      requires Mapped(t0, T(), kpt, r, off) && Checked(t0, T(), kpt, r, off)
      requires off % r.mu.Size() == 0 && off + r.mu.Size() <= r.Length()
      requires va == r.vaStart + off && pa == r.paStart + off
      requires PdeType(pd[PdeIndex(va)]) == 1 && pt == TableStart(T(), kpt, PdeIndex(va))
      modifies ram
      ensures Valid()
      ensures ok ==> Mapped(t0, T(), kpt, r, off + r.mu.Size()) && Checked(t0, T(), kpt, r, off + r.mu.Size())
      ensures !ok ==> !SlotsFree(t0, kpt, r, 0) && Stopped(t0, T(), kpt, r, off)
    {
      hide SlotsFree, Checked, UnitFree, SlotsSame, Mapped, Stopped, Extract, PageWord, Fresh, Unit.Size,
        Request.Offset, Walk, Inv, PdeIndex, PteIndex, TableStart, PdeTable;
      IndexBits(va);
      ghost var t1 := T();
      PageUnitFree(t1, kpt, r, off);
      var slot := pt + Extract(va, 12, 8);
      var k := 0;
      while k < r.mu.Copies()
        invariant 0 <= k <= r.mu.Copies() && ram[..] == old(ram[..])
        invariant AllInvalid(ram[..], slot, slot + k)
      {
        if Extract(ram[slot + k], 0, 2) != 0 {
          CheckFails(t0, t1, kpt, r, off);
          return false;
        }
        k := k + 1;
      }
      MapPageStep(t0, t1, kpt, r, off);
      PoolKeptByPage(t1, pool, slot, r.mu.Copies(), PageWord(r, pa));
      WriteRun(ram, slot, r.mu.Copies(), PageWord(r, pa));
      CheckedUnit(t0, t1, T(), kpt, r, off);
      return true;
    }

    /** Maps a range by pages; stops, with ok false, where the code asserts that a slot is invalid. */
    method MapPages(r: Request) returns (ok: bool)
      requires Valid() && r.Legal() && !r.mu.IsSection()
      requires |pool| >= TablesNeeded(pd[..], r, r.vaStart)
      modifies this`pool, pd, ram
      ensures Valid()
      ensures ok <==> SlotsFree(old(T()), kpt, r, 0)
      ensures ok ==> Mapped(old(T()), T(), kpt, r, r.Length())
      ensures !ok ==> exists off: nat :: Stopped(old(T()), T(), kpt, r, off)
      ensures TablesAdded(old(pd[..]), pd[..]) && |pool| >= |old(pool)| - r.n
    {
      hide SlotsFree, Checked, Mapped, Stopped, Inv, Fresh, Unit.Size, Request.Offset, TablesNeeded, TablesAdded;
      var i, va, pa := 0, r.vaStart, r.paStart;
      ghost var t0 := T();
      ghost var off: nat := 0;
      MappedNothing(t0, kpt, r);
      CheckedNothing(t0, kpt, r);
      NoTableAdded(t0.pd);
      OffsetZero(r);
      while i < r.n
        invariant 0 <= i <= r.n && off == r.Offset(i)
        invariant i < r.n ==> va == r.vaStart + off && pa == r.paStart + off
        invariant Valid() && Mapped(t0, T(), kpt, r, off) && Checked(t0, T(), kpt, r, off)
        invariant |pool| >= TablesNeeded(pd[..], r, r.vaStart + off) && TablesAdded(t0.pd, pd[..])
        invariant |pool| >= |old(pool)| - i
      {
        UnitOffset(r, i);
        ok := MapPageUnit(r, va, pa, t0, off);
        if !ok {
          return;
        }
        i, off := i + 1, off + r.mu.Size();
        va, pa := (va + r.mu.Size()) % 0x1_0000_0000, (pa + r.mu.Size()) % 0x1_0000_0000;
        NextUnit(r, i);
      }
      CheckedAll(t0, T(), kpt, r);
      return true;
    }

    /** Maps a range.  Succeeds iff the range is free; then every address of the range is translated to base plus
        offset with the requested unit and attributes.  Else it stops at the first unit that is not free,
        with those before it mapped.  Every other address is translated as before in either case. */
    method Map(r: Request) returns (ok: bool)
      requires Valid() && r.Legal()
      requires !r.mu.IsSection() ==> |pool| >= TablesNeeded(pd[..], r, r.vaStart)
      modifies this`pool, pd, ram
      ensures Valid()
      ensures ok <==> SlotsFree(old(T()), kpt, r, 0)
      ensures ok ==> forall x: word :: r.Covers(x) ==>
                Walk(T(), kpt, x) == Some(Entry(r.paStart + (x - r.vaStart), r.mu, r.Attributes()))
      ensures !ok ==> exists off: nat :: Stopped(old(T()), T(), kpt, r, off)
      ensures !r.mu.IsSection() ==> TablesAdded(old(pd[..]), pd[..])
      ensures |pool| >= |old(pool)| - r.n
      ensures forall x: word :: !r.Covers(x) ==> Walk(T(), kpt, x) == Walk(old(T()), kpt, x)
    {
      hide SlotsFree, Inv, Fresh, TablesNeeded, Walk, Stopped, TablesAdded;
      ghost var t0 := T();
      if r.mu == Section || r.mu == SuperSection {
        ok := MapSections(r);
      } else {
        ok := MapPages(r);
      }
      if !ok {
        ghost var off: nat :| Stopped(t0, T(), kpt, r, off);
        StoppedOutside(t0, T(), kpt, r, off);
      }
    }

    /** The software table walk: the physical address behind a mapped virtual address. */
    method VaToPa(va: word) returns (pa: nat)
      requires Valid() && Walk(T(), kpt, va).Some?
      ensures pa == Walk(T(), kpt, va).value.pa
    {
      hide Extract, InPlace, AndNot, Shl, Mask, Inv, PdeIndex, PteIndex, TableStart;
      IndexBits(va);
      IndexRange(va);
      var i := Extract(va, 20, 12);
      var j := Extract(pd[i], 0, 2);
      assert j == 1 || j == 2;
      if j == 2 {
        j := Extract(pd[i], 18, 1);
        if j == 0 {
          pa := InPlace(pd[i], 20, 12);
          pa := (pa + AndNot(va, Shl(Mask(12), 20))) % 0x1_0000_0000;
        } else {
          pa := InPlace(pd[i], 24, 8);
          pa := (pa + AndNot(va, Shl(Mask(8), 24))) % 0x1_0000_0000;
        }
        return;
      }
      var pt := TableOf(i);
      ShortcutAgrees(T(), kpt, i);
      pt := pt + Extract(va, 12, 8);
      j := Extract(ram[pt], 0, 2);
      assert j != 0;
      if j == 1 {
        pa := InPlace(ram[pt], 16, 16);
        pa := (pa + AndNot(va, Shl(Mask(16), 16))) % 0x1_0000_0000;
      } else {
        pa := InPlace(ram[pt], 12, 20);
        pa := (pa + AndNot(va, Shl(Mask(20), 12))) % 0x1_0000_0000;
      }
    }

    /** Zeroes the directory entries of a range of sections. */
    method ZeroEntries(r: Request)
      requires pd.Length == PDES && r.Sized() && r.mu.IsSection()
      modifies pd
      ensures EntriesZeroed(old(pd[..]), pd[..], r, r.Length())
    {
      hide Unit.Size, Request.Offset, EntriesZeroed, PdeIndex, Extract;
      var i, va := 0, r.vaStart;
      ghost var pd0 := pd[..];
      ghost var off: nat := 0;
      NothingZeroed(pd0, r);
      OffsetZero(r);
      while i < r.n
        invariant 0 <= i <= r.n && off == r.Offset(i)
        invariant i < r.n ==> va == r.vaStart + off
        invariant EntriesZeroed(pd0, pd[..], r, off)
      {
        UnitOffset(r, i);
        UnmapSectionStep(pd0, pd[..], r, off);
        IndexBits(va);
        WriteRun(pd, Extract(va, 20, 12), r.mu.Copies(), 0);
        i, off := i + 1, off + r.mu.Size();
        va := (va + r.mu.Size()) % 0x1_0000_0000;
        NextUnit(r, i);
      }
    }

    /** Unmaps a range of sections.  The tables stay in order iff it is clear of the static tables. */
    method UnmapSections(r: Request)
      requires Valid() && r.Sized() && r.mu.IsSection()
      modifies pd
      ensures EntriesZeroed(old(pd[..]), pd[..], r, r.Length())
      ensures Valid() <==> ClearOfWindow(r)
      ensures ClearOfWindow(r) ==> Unmapped(old(T()), T(), kpt, r, r.Length())
    {
      hide Unmapped, Inv, Fresh, Unit.Size, Request.Offset, EntriesZeroed, ClearOfWindow;
      ghost var t0 := T();
      ZeroEntries(r);
      ZeroedIsUnmapped(t0, T(), kpt, r);
      PoolKeptByZero(t0, T(), pool, r);
    }

    /** Unmaps one page unit; returns the address that replaces `pa`. */
    method UnmapPageUnit(r: Request, va: word, pa: word, ghost t0: Tables, ghost off: nat) returns (pa': word)
      requires Valid() && r.Sized() && !r.mu.IsSection()
      requires Unmapped(t0, T(), kpt, r, off) && pd[..] == t0.pd
      requires off % r.mu.Size() == 0 && off + r.mu.Size() <= r.Length() && va == r.vaStart + off
      requires PdeType(pd[PdeIndex(va)]) == 1
      modifies ram
      ensures Valid() && Unmapped(t0, T(), kpt, r, off + r.mu.Size()) && pd[..] == t0.pd
      ensures PdeIndex(va) < PDES && pa' == if InWindow(PdeIndex(va)) then pa else PdeTable(t0.pd[PdeIndex(va)])
    {
      hide Unmapped, Inv, Fresh, Unit.Size, Request.Offset, PdeIndex, PteIndex, Extract, InPlace, TableStart, Walk;
      IndexBits(va);
      IndexRange(va);
      UnmapPageStep(t0, T(), kpt, r, off);
      var j := Extract(va, 20, 12);
      var pt := TableOf(j);
      pa' := pa;
      if !(j >= 0x400 && j < 0x404) {
        InPlaceFits(pd[j]);
        pa' := InPlace(pd[j], 10, 22);
      }
      pt := pt + Extract(va, 12, 8);
      PoolKeptByPage(T(), pool, pt, r.mu.Copies(), 0);
      WriteRun(ram, pt, r.mu.Copies(), 0);
    }

    /** Unmaps one page unit, if there is a table behind it. */
    method UnmapPageRound(r: Request, va: word, pa: word, ghost t0: Tables, ghost off: nat, ghost i: nat)
      returns (ok: bool, pa': word)
      requires Valid() && r.Sized() && !r.mu.IsSection() && i < r.n && off == r.Offset(i) && va == r.vaStart + off
      requires off % r.mu.Size() == 0 && off + r.mu.Size() <= r.Length()
      requires Unmapped(t0, T(), kpt, r, off) && pd[..] == t0.pd && BehindUpTo(t0.pd, r, off) && pa == PaAt(t0.pd, r, i)
      modifies ram
      ensures Valid() && pd[..] == t0.pd
      ensures ok ==> Unmapped(t0, T(), kpt, r, off + r.mu.Size()) && BehindUpTo(t0.pd, r, off + r.mu.Size())
      ensures ok ==> (pa' + r.mu.Size()) % 0x1_0000_0000 == PaAt(t0.pd, r, i + 1)
      ensures !ok ==> !TablesBehind(t0.pd, r) && Unmapped(t0, T(), kpt, r, off)
    {
      hide Unmapped, TablesBehind, Inv, Fresh, Unit.Size, Request.Offset, PdeIndex, PdeTable, PdeType, InWindow,
        Walk, PaAt, Extract, BehindUpTo;
      IndexBits(va);
      TypeBits(pd[Extract(va, 20, 12)]);
      if Extract(pd[Extract(va, 20, 12)], 0, 2) != 1 {
        NotBehind(t0.pd, r, off, va);
        return false, pa;
      }
      MoreBehind(t0.pd, r, off);
      pa' := UnmapPageUnit(r, va, pa, t0, off);
      PaNext(t0.pd, r, i, va, pa');
      return true, pa';
    }

    /** Stops, with ok false, at the first unit that finds `pa` below the start of the request, or no table. */
    method UnmapPages(r: Request) returns (ok: bool)
      requires Valid() && r.Sized() && !r.mu.IsSection()
      modifies ram
      ensures Valid()
      ensures ok <==> PaCheckHolds(old(pd[..]), r) && TablesBehind(old(pd[..]), r)
      ensures ok ==> Unmapped(old(T()), T(), kpt, r, r.Length())
      ensures !ok ==> exists off: nat :: off <= r.Length() && Unmapped(old(T()), T(), kpt, r, off)
    {
      hide Unmapped, TablesBehind, Inv, Fresh, Unit.Size, Request.Offset, PdeIndex, PdeTable, PdeType, InWindow,
        Walk, PaAt, Extract, BehindUpTo;
      var i, va, pa := 0, r.vaStart, r.paStart;
      ghost var t0 := T();
      ghost var off: nat := 0;
      UnmappedNothing(t0, kpt, r);
      OffsetZero(r);
      PaFirst(t0.pd, r);
      NoneBehind(t0.pd, r);
      while i < r.n
        invariant 0 <= i <= r.n && off == r.Offset(i)
        invariant i < r.n ==> va == r.vaStart + off
        invariant pa == PaAt(t0.pd, r, i)
        invariant forall k: nat | k < i :: PaAt(t0.pd, r, k) >= r.paStart
        invariant BehindUpTo(t0.pd, r, off)
        invariant Valid() && Unmapped(t0, T(), kpt, r, off) && pd[..] == t0.pd
      {
        UnitOffset(r, i);
        if pa < r.paStart {
          return false;
        }
        ok, pa := UnmapPageRound(r, va, pa, t0, off, i);
        if !ok {
          return;
        }
        i, off := i + 1, off + r.mu.Size();
        va, pa := (va + r.mu.Size()) % 0x1_0000_0000, (pa + r.mu.Size()) % 0x1_0000_0000;
        NextUnit(r, i);
      }
      AllBehind(t0.pd, r);
      return true;
    }

    /** Unmaps a range.  Sections: zeroes the directory entries of the range, which unmaps exactly the range
        unless it touches the entries of the static tables.  Pages: stops, with ok false, where the code
        asserts that there is a table, or, because the loop variable `pa` is also used for the base of
        the table, that `pa` is not below the start of the request; else unmaps exactly the range. */
    method Unmap(r: Request) returns (ok: bool)
      requires Valid() && r.Sized()
      modifies pd, ram
      ensures ok <==> r.mu.IsSection() || (PaCheckHolds(old(pd[..]), r) && TablesBehind(old(pd[..]), r))
      ensures r.mu.IsSection() ==> EntriesZeroed(old(pd[..]), pd[..], r, r.Length()) && ram[..] == old(ram[..])
      ensures Valid() <==> (r.mu.IsSection() ==> ClearOfWindow(r))
      ensures Valid() && ok ==> forall x: word :: r.Covers(x) ==> Walk(T(), kpt, x) == None
      ensures Valid() ==> forall x: word :: !r.Covers(x) ==> Walk(T(), kpt, x) == Walk(old(T()), kpt, x)
    {
      hide Inv, Fresh, Walk, TablesBehind, PaCheckHolds, EntriesZeroed, ClearOfWindow;
      if r.mu == Section || r.mu == SuperSection {
        UnmapSections(r);
        ok := true;
      } else {
        ok := UnmapPages(r);
      }
    }
  }

  lemma MappedNothing(t: Tables, kpt: word, r: Request)
    requires Inv(t, kpt)
    ensures Mapped(t, t, kpt, r, 0)
  {
  }

  lemma UnmappedNothing(t: Tables, kpt: word, r: Request)
    requires Inv(t, kpt)
    ensures Unmapped(t, t, kpt, r, 0)
  {
  }

  lemma InPlaceFits(de: word)
    ensures InPlace(de, 10, 22) < 0x1_0000_0000
  {
    hide InPlace, Extract, Pow2;
    InPlaceIsArrangeExtract(de, 10, 22);
    ExtractArith(de, 10, 22);
    Powers();
  }

  lemma NothingZeroed(pd: seq<word>, r: Request)
    requires |pd| == PDES
    ensures EntriesZeroed(pd, pd, r, 0)
  {
  }

  /** A zero word names no table. */
  lemma PoolKeptByZero(t0: Tables, t1: Tables, pool: seq<word>, r: Request)
    requires r.Sized() && EntriesZeroed(t0.pd, t1.pd, r, r.Length()) && t1.ram == t0.ram
    requires forall i :: 0 <= i < |pool| ==> Fresh(t0, pool[i])
    ensures forall i :: 0 <= i < |pool| ==> Fresh(t1, pool[i])
  {
    hide PdeType, PdeTable;
    ZeroIsInvalid();
  }

  lemma TypeBits(de: word)
    ensures PdeType(de) == Extract(de, 0, 2)
  {
  }

  /** The addresses of the first `off` bytes are behind tables. */
  ghost predicate BehindUpTo(pd: seq<word>, r: Request, off: nat)
    requires |pd| == PDES
  {
    forall x: word | r.vaStart <= x < r.vaStart + off :: PdeType(pd[PdeIndex(x)]) == 1
  }

  lemma NoneBehind(pd: seq<word>, r: Request)
    requires |pd| == PDES
    ensures BehindUpTo(pd, r, 0)
  {
  }

  lemma MoreBehind(pd: seq<word>, r: Request, off: nat)
    requires |pd| == PDES && r.Sized() && !r.mu.IsSection() && BehindUpTo(pd, r, off)
    requires off % r.mu.Size() == 0 && off + r.mu.Size() <= r.Length()
    requires PdeIndex(r.vaStart + off) < PDES && PdeType(pd[PdeIndex(r.vaStart + off)]) == 1
    ensures BehindUpTo(pd, r, off + r.mu.Size())
  {
    hide PdeType, PdeIndex;
    forall x: word | r.vaStart + off <= x < r.vaStart + off + r.mu.Size()
      ensures PdeIndex(x) == PdeIndex(r.vaStart + off)
    {
      UnitEntry(r, off, x);
    }
    hide Unit.Size;
  }

  lemma AllBehind(pd: seq<word>, r: Request)
    requires |pd| == PDES && r.Sized() && BehindUpTo(pd, r, r.Length())
    ensures TablesBehind(pd, r)
  {
  }

  lemma NotBehind(pd: seq<word>, r: Request, off: nat, va: word)
    requires |pd| == PDES && off < r.Length() && va == r.vaStart + off && PdeType(pd[PdeIndex(va)]) != 1
    ensures !TablesBehind(pd, r)
  {
    assert r.Covers(va);
  }

  lemma NextUnit(r: Request, i: nat)
    requires r.Sized() && i <= r.n
    ensures i < r.n ==> r.vaStart + r.Offset(i) < 0x1_0000_0000 && r.paStart + r.Offset(i) < 0x1_0000_0000
  {
    if i < r.n {
      UnitOffset(r, i);
    }
  }

  /** A section descriptor names no table, so fresh tables stay fresh. */
  lemma PoolKeptBySection(t: Tables, pool: seq<word>, r: Request, va: word, pa: word)
    requires |t.pd| == PDES && PdeIndex(va) + r.mu.Copies() <= PDES
    requires r.mu.IsSection() && r.mt < 9 && r.ap < 4
    requires forall i :: 0 <= i < |pool| ==> Fresh(t, pool[i])
    ensures forall i :: 0 <= i < |pool| ==>
              Fresh(t.(pd := Fill(t.pd, PdeIndex(va), r.mu.Copies(), SectionWord(r, pa))), pool[i])
  {
    SectionFields(r, pa);
    hide PdeType, PdeTable, SectionWord;
  }

  lemma FreshInRam(t: Tables, tpa: word)
    requires |t.pd| == PDES && Fresh(t, tpa)
    ensures tpa / 4 + PTES <= |t.ram|
  {
  }

  lemma TableWordType(t: Tables, tpa: word)
    requires |t.pd| == PDES && Fresh(t, tpa)
    ensures PdeType(TableWord(tpa)) == 1
  {
    TableWordDecodes(tpa);
  }

  /** The tables left in the pool stay fresh when the first one is hooked up. */
  lemma PoolKeptByTable(t: Tables, pool: seq<word>, j: nat)
    requires |t.pd| == PDES && j < PDES && pool != []
    requires forall i :: 0 <= i < |pool| ==> Fresh(t, pool[i])
    requires forall i, k :: 0 <= i < k < |pool| ==> pool[i] != pool[k]
    ensures pool[0] / 4 + PTES <= |t.ram| && pool[0] % 0x400 == 0
    ensures forall i :: 0 <= i < |pool[1..]| ==>
              Fresh(Tables(t.pd[j := TableWord(pool[0])], Fill(t.ram, pool[0] / 4, PTES, 0)), pool[1..][i])
  {
    TableWordDecodes(pool[0]);
    hide PdeType, PdeTable, TableWord;
  }

  /** Second-level writes hook up no table. */
  lemma PoolKeptByPage(t: Tables, pool: seq<word>, start: nat, count: nat, w: word)
    requires |t.pd| == PDES && start + count <= |t.ram|
    requires forall i :: 0 <= i < |pool| ==> Fresh(t, pool[i])
    ensures forall i :: 0 <= i < |pool| ==> Fresh(t.(ram := Fill(t.ram, start, count, w)), pool[i])
  {
    hide PdeType, PdeTable;
  }

  lemma NeedsOne(pd: seq<word>, r: Request, off: nat)
    requires |pd| == PDES && r.Legal() && off < r.Length()
    requires PdeType(pd[PdeIndex(r.vaStart + off)]) == 0
    ensures TablesNeeded(pd, r, r.vaStart + off) >= 1
  {
    hide PdeType, PdeIndex;
    CurrentPdeInRange(r, off);
  }
}
