/** Allocation of whole pages: an address range, a frame, and a mapping of the one to the other. */
module FullPages {
  import opened Wrappers
  import opened Shift
  import opened Word
  import opened BuddySpec
  import opened FramesSpec
  import opened FrameAllocator
  import opened Descriptors
  import opened PageTables
  import opened MapSpec
  import opened Mmu
  import opened VmArea
  import opened Boot

  /** Write-back memory for the supervisor, never executed. */
  function PageRequest(p: word, pa: word): Request {
    Request(1, p, pa, 7, 0, SmallPage, 9)
  }

  /** What it makes of a page: execute-never, accessed, write-back, read-write for the supervisor, in domain 0. */
  const SLUB_PAGE := Attrs(1, 0, 0, 1, 7, 0, 0, true)

  // ---- What the parts say about the pages handed out ----

  predicate InArea(base: nat, p: nat) {
    p % 0x1000 == 0 && base <= p && p + 0x1000 <= base + AREA_SIZE
  }

  /** The initial slabs take the last nine pages. */
  function SlabPages(base: nat): Seg {
    Seg(base + AREA_SIZE - 9 * PAGE, 9)
  }

  /** Page p is translated to frame f. */
  ghost predicate MapsTo(t: Tables, kpt: word, p: nat, f: nat)
    requires Inv(t, kpt)
  {
    forall x: word | p <= x < p + 0x1000 ::
      Walk(t, kpt, x) == Some(Entry(f * 0x1000 + (x - p), SmallPage, SLUB_PAGE))
  }

  ghost predicate PageFree(t: Tables, kpt: word, p: nat)
    requires Inv(t, kpt)
  {
    forall x: word | p <= x < p + 0x1000 :: SlotFree(t, kpt, SmallPage, x)
  }

  /** Pages in use, and stale ones, are translated to their frames; all others are free. */
  ghost predicate Translated(t: Tables, kpt: word, base: nat, pages: map<nat, nat>, stale: map<nat, nat>)
  {
    && Inv(t, kpt) && pages.Keys !! stale.Keys
    && (forall p | p in pages :: p % 0x1000 == 0 && MapsTo(t, kpt, p, pages[p]))
    && (forall p | p in stale :: p % 0x1000 == 0 && MapsTo(t, kpt, p, stale[p]))
    && (forall p: nat | InArea(base, p) && p < SlabPages(base).start && p !in pages && p !in stale ::
          PageFree(t, kpt, p))
  }

  /** The segments are those of the pages in use, and of the initial slabs. */
  ghost predicate Segmented(base: nat, segs: seq<Seg>, pages: map<nat, nat>) {
    && SlabPages(base) in segs
    && (forall s | s in segs :: s == SlabPages(base) || (s.npages == 1 && s.start in pages))
    && (forall p | p in pages :: InArea(base, p) && p < SlabPages(base).start && Seg(p, 1) in segs)
  }

  /** Each page in use has a live frame of its own. */
  ghost predicate Framed(live: map<Piece, Usage>, pages: map<nat, nat>) {
    && (forall p | p in pages :: Piece(0, pages[p]) in live && live[Piece(0, pages[p])] == Slub)
    && (forall p, q | p in pages && q in pages && p != q :: pages[p] != pages[q])
  }

  /** At boot no page of the area is in use or stale. */
  lemma BootIsReady(t: Tables, kpt: word, si: seq<Sect>, base: nat)
    requires Booted(t, kpt, si)
    requires 0x4040_0000 <= base && base + AREA_SIZE <= 0x1_0000_0000
    ensures Translated(t, kpt, base, map[], map[])
  {
    hide PdeType, Walk;
    forall x: word | base <= x ensures SlotFree(t, kpt, SmallPage, x) {
      assert PdeIndex(x) < PDES && !InWindow(PdeIndex(x));
    }
  }

  // ---- Mapping one more page ----

  lemma PageRequestFits(p: word, pa: word)
    requires p % 0x1000 == 0 && pa % 0x1000 == 0
    ensures PageRequest(p, pa).Legal() && PageRequest(p, pa).Length() == 0x1000
    ensures PageRequest(p, pa).Attributes() == SLUB_PAGE
  {
    RequestedAttributes(PageRequest(p, pa));
  }

  lemma OneTableEnough(pd: seq<word>, p: word, pa: word)
    requires |pd| == PDES && p % 0x1000 == 0 && pa % 0x1000 == 0
    ensures PageRequest(p, pa).Legal() && TablesNeeded(pd, PageRequest(p, pa), p) <= 1
  {
    hide PdeType;
    var j := PdeIndex(p);
    assert PdeIndex(p + 0xfff) == j;
    assert EmptyPdes(pd, j + 1, j + 1) == 0;
  }

  /** The slot of an address whose translation and table stay is as free as it was. */
  lemma SlotStays(t0: Tables, t1: Tables, kpt: word, x: word)
    requires Inv(t0, kpt) && Inv(t1, kpt) && TablesAdded(t0.pd, t1.pd) && Walk(t1, kpt, x) == Walk(t0, kpt, x)
    requires SlotFree(t0, kpt, SmallPage, x)
    ensures SlotFree(t1, kpt, SmallPage, x)
  {
    hide PdeType, Walk;
    IndexRange(x);
    var j := PdeIndex(x);
    if PdeType(t0.pd[j]) == 0 {
      EmptyPde(t0, kpt, x);
    }
    assert t1.pd[j] == t0.pd[j] || (PdeType(t0.pd[j]) == 0 && PdeType(t1.pd[j]) == 1);
  }

  lemma OtherPage(p: nat, q: nat, x: nat)
    requires p % 0x1000 == 0 && q % 0x1000 == 0 && p != q && q <= x < q + 0x1000
    ensures !(p <= x < p + 0x1000)
  {
  }

  lemma MappedOne(t0: Tables, t1: Tables, kpt: word, base: nat, pages: map<nat, nat>, stale: map<nat, nat>,
                  v: word, f: nat)
    requires Translated(t0, kpt, base, pages, stale) && Inv(t1, kpt) && TablesAdded(t0.pd, t1.pd)
    requires v % 0x1000 == 0 && v !in pages && v !in stale
    requires MapsTo(t1, kpt, v, f)
    requires forall x: word :: !(v <= x < v + 0x1000) ==> Walk(t1, kpt, x) == Walk(t0, kpt, x)
    ensures Translated(t1, kpt, base, pages[v := f], stale)
  {
    hide Walk, TablesAdded, SlotFree;
    forall q: nat, g: nat | q % 0x1000 == 0 && q != v && MapsTo(t0, kpt, q, g) ensures MapsTo(t1, kpt, q, g) {
      forall x: word | q <= x < q + 0x1000 ensures Walk(t1, kpt, x) == Walk(t0, kpt, x) {
        OtherPage(v, q, x);
      }
    }
    forall q: nat | q % 0x1000 == 0 && q != v && PageFree(t0, kpt, q) ensures PageFree(t1, kpt, q) {
      forall x: word | q <= x < q + 0x1000 ensures SlotFree(t1, kpt, SmallPage, x) {
        OtherPage(v, q, x);
        SlotStays(t0, t1, kpt, x);
      }
    }
    hide MapsTo, PageFree;
  }

  /** A page that is still translated is not free. */
  lemma TranslatedIsNotFree(t: Tables, kpt: word, p: word, f: nat)
    requires Inv(t, kpt) && MapsTo(t, kpt, p, f)
    ensures !PageFree(t, kpt, p)
  {
    hide PdeType;
    assert Walk(t, kpt, p).Some?;
    if PdeType(t.pd[PdeIndex(p)]) == 0 {
      EmptyPde(t, kpt, p);
    }
    assert !SlotFree(t, kpt, SmallPage, p);
  }

  // ---- Taking and giving back the address range ----

  lemma SegmentTaken(base: nat, segs: seq<Seg>, pages: map<nat, nat>, v: nat, f: nat)
    requires Segmented(base, segs, pages) && InArea(base, v) && VmArea.BlockFree(segs, v, v + 0x1000)
    ensures v !in pages && v < SlabPages(base).start
    ensures Segmented(base, [Seg(v, 1)] + segs, pages[v := f])
  {
    if v in pages {
      NotOverlapped(segs, Seg(v, 1), v);
    }
    if v >= SlabPages(base).start {
      NotOverlapped(segs, SlabPages(base), v);
    }
    var all := [Seg(v, 1)] + segs;
    assert forall s :: s in all <==> s == Seg(v, 1) || s in segs;
  }

  /** A segment of the list does not hold the start of a free block. */
  lemma NotOverlapped(segs: seq<Seg>, s: Seg, v: nat)
    requires s in segs && VmArea.BlockFree(segs, v, v + 0x1000)
    ensures !s.Has(v)
  {
    var k :| 0 <= k < |segs| && segs[k] == s;
    assert !Overlaps(segs[k], v, v + 0x1000);
  }

  lemma SegmentGiven(base: nat, segs: seq<Seg>, pages: map<nat, nat>, p: nat)
    requires Segmented(base, segs, pages) && p in pages
    ensures Segmented(base, Keep(segs, [p]), pages - {p})
  {
    hide Keep;
  }

  // ---- Frames ----

  /** A free frame is the frame of no live block. */
  lemma FrameIsNew(n: nat, busy: set<nat>, owned: set<Piece>, f: nat)
    requires Owns(n, busy, owned) && f < Width(n, 0) && BuddySpec.BlockFree(n, busy, 0, f)
    ensures Piece(0, f) !in owned
  {
    BlockExtent(n, 0, f);
    assert f * Pow2(0) in Piece(0, f).Frames(n) && f * Pow2(0) !in busy;
  }

  lemma FramedOne(live: map<Piece, Usage>, pages: map<nat, nat>, v: nat, f: nat)
    requires Framed(live, pages) && Piece(0, f) !in live && v !in pages
    ensures Framed(Record(live, 0, [f], Slub), pages[v := f])
  {
    var after := Record(live, 0, [f], Slub);
    assert Piece(0, f) in Pieces(0, [f]);
    assert forall p :: p in live ==> p !in Pieces(0, [f]) && after[p] == live[p];
  }

  lemma UnframedOne(live: map<Piece, Usage>, pages: map<nat, nat>, p: nat)
    requires Framed(live, pages) && p in pages
    ensures Framed(live - Pieces(0, [pages[p]]), pages - {p})
  {
  }

  lemma FrameAddress(f: nat)
    ensures Address(0, f) == f * 0x1000
  {
  }

  /** No live or reserved block but its own has a page's frame. */
  lemma OwnFrame(n: nat, busy: set<nat>, owned: set<Piece>, f: nat, q: Piece)
    requires Owns(n, busy, owned) && Piece(0, f) in owned && q in owned && q != Piece(0, f)
    ensures !q.Covers(f)
  {
    FullRangesDisjoint(n, Piece(0, f), q, f);
  }

  // ---- The allocator ----

  /** How an allocation ends: with a page, or at one of the code's assertions: no address, no frame, or an
      address that is still mapped. */
  datatype Outcome = Done(page: nat) | NoAddress | NoFrame | StillMapped

  class FullPages {
    const area: Area
    const mem: PhysMem
    const mmu: Mmu
    /** The frame of each page in use. */
    ghost var pages: map<nat, nat>
    /** Pages that were freed: releasing a page does not unmap it. */
    ghost var stale: map<nat, nat>

    /** The parts do not share storage. */
    ghost predicate Separated() {
      var records: object := mem.ramMap;
      && mem.Separate(mmu.pd) && mem.Separate(mmu.ram) && records != mmu.pd && records != mmu.ram
    }

    ghost predicate Valid()
      reads this, area, mem, mem.bdy, mem.bdy.nbits, mem.bdy.nbitsUntil, mem.bdy.store, mem.ramMap, mmu, mmu.pd, mmu.ram
    {
      && Separated()
      && area.Valid() && area.base + AREA_SIZE <= 0x1_0000_0000
      && mem.Valid() && mmu.Valid()
      && Segmented(area.base, area.segs, pages)
      && Framed(mem.live, pages)
      && Translated(mmu.T(), mmu.kpt, area.base, pages, stale)
    }

    /** The state after boot: only the slab pages of the area are in use. */
    constructor (area: Area, mem: PhysMem, mmu: Mmu)
      requires area.Valid() && area.base + AREA_SIZE <= 0x1_0000_0000 && area.segs == [SlabPages(area.base)]
      requires mem.Valid() && mmu.Valid() && mem.Separate(mmu.pd) && mem.Separate(mmu.ram)
      requires var records: object := mem.ramMap; records != mmu.pd && records != mmu.ram
      requires Translated(mmu.T(), mmu.kpt, area.base, map[], map[])
      ensures Valid() && pages == map[] && stale == map[]
      ensures this.area == area && this.mem == mem && this.mmu == mmu
    {
      this.area, this.mem, this.mmu := area, mem, mmu;
      pages, stale := map[], map[];
    }

    /** Allocates a page: the highest free address, and the lowest free frame.  The code's assertion that the
        address is not mapped fails exactly if it is that of a page freed before. */
    method Alloc() returns (r: Outcome)
      requires Valid() && |mmu.pool| >= 1
      modifies this`pages, area`segs, mem`live, mem.bdy.store, mem.ramMap, mmu`pool, mmu.pd, mmu.ram
      ensures r.NoAddress? <==>
                forall t: nat :: area.Slot(0, t) ==> !VmArea.BlockFree(old(area.segs), t, t + Align(0))
      ensures r.NoFrame? ==> FreeList(mem.bdy.n, old(mem.bdy.Frames()), 0, 0) == []
      ensures r.StillMapped? ==> FreeList(mem.bdy.n, old(mem.bdy.Frames()), 0, 0) != []
      ensures r.StillMapped? ==> exists v :: v in stale && area.HighestFree(0, old(area.segs), v)
      ensures r.Done? ==> Valid() && r.page !in stale && area.HighestFree(0, old(area.segs), r.page)
      ensures r.Done? ==> r.page !in old(pages) && r.page in pages && pages == old(pages)[r.page := pages[r.page]]
      ensures r.Done? ==> FreeList(mem.bdy.n, old(mem.bdy.Frames()), 0, 0) != []
      ensures r.Done? ==> area.segs == [Seg(r.page, 1)] + old(area.segs) && |mmu.pool| >= |old(mmu.pool)| - 1
      ensures r.Done? ==> mem.live == Record(old(mem.live), 0, [pages[r.page]], Slub)
                          && Piece(0, pages[r.page]) !in old(mem.live)
      ensures r.Done? ==> pages[r.page] == FreeList(mem.bdy.n, old(mem.bdy.Frames()), 0, 0)[0]
    {
      hide Segmented, Framed, Translated, VmArea.BlockFree, Disjoint, FreeList, Owns, Record, Pieces,
        StampedAll, Inv;
      ghost var segs0, live0, busy0, owned0 := area.segs, mem.live, mem.bdy.Frames(), mem.live.Keys + mem.reserved;
      var v := area.AllocOne(0);
      if v.None? {
        return NoAddress;
      }
      var p := v.value;
      var pa := new word[1];
      var ret := mem.RamAlloc(0, Slub, 1, pa);
      if ret != 0 {
        return NoFrame;
      }
      ghost var f := FreeList(mem.bdy.n, busy0, 0, 0)[0];
      FrameTaken(mem.bdy.n, busy0, owned0, live0, pages, p, f, pa[0]);
      SegmentTaken(area.base, segs0, pages, p, f);
      var ok := MapPage(p, pa[0], f);
      if !ok {
        return StillMapped;
      }
      pages := pages[p := f];
      return Done(p);
    }

    /** Releases a page: its frame, then its address.  It stays mapped. */
    method Free(p: word)
      requires Valid() && p in pages
      modifies this`pages, this`stale, area`segs, mem`live, mem.bdy.store, mem.ramMap
      ensures Valid() && pages == old(pages) - {p} && stale == old(stale)[p := old(pages[p])]
      ensures area.segs == Keep(old(area.segs), [p])
      ensures mem.live == old(mem.live) - Pieces(0, [old(pages[p])])
    {
      hide Segmented, Framed, Translated, VmArea.BlockFree, Disjoint, Owns, StampedAll, Inv, Walk, Keep;
      var pa := FrameAt(p);
      FreeFrame(p, pa);
      FreeAddress(p);
      NowStale(mmu.T(), mmu.kpt, area.base, pages, stale, p);
      pages, stale := pages - {p}, stale[p := pages[p]];
    }

    /** The frame's address, as the page tables have it. */
    method FrameAt(p: word) returns (pa: word)
      requires Valid() && p in pages
      ensures pa == Address(0, pages[p]) == pages[p] * 0x1000
    {
      hide Segmented, Framed, Owns, StampedAll, Inv, Walk, SlotFree;
      FrameOfPage(mem.bdy.n, mem.bdy.Frames(), mem.live.Keys + mem.reserved, mem.live, pages, p);
      assert Walk(mmu.T(), mmu.kpt, p).Some?;
      pa := mmu.VaToPa(p);
    }

    method FreeFrame(p: word, pa: word)
      requires mem.Valid() && Framed(mem.live, pages) && p in pages && pa == Address(0, pages[p])
      modifies mem`live, mem.bdy.store, mem.ramMap
      ensures mem.Valid() && Framed(mem.live, pages - {p})
      ensures mem.live == old(mem.live) - Pieces(0, [pages[p]])
    {
      hide Framed, Owns, StampedAll, Pieces;
      FrameOfPage(mem.bdy.n, mem.bdy.Frames(), mem.live.Keys + mem.reserved, mem.live, pages, p);
      UnframedOne(mem.live, pages, p);
      var buf := new word[1];
      buf[0] := pa;
      var ret := mem.RamFree(0, Slub, 1, buf, [pages[p]]);
    }

    method FreeAddress(p: word)
      requires area.Valid() && Segmented(area.base, area.segs, pages) && p in pages
      modifies area`segs
      ensures area.Valid() && Segmented(area.base, area.segs, pages - {p})
      ensures area.segs == Keep(old(area.segs), [p])
    {
      hide Segmented, Keep, Disjoint;
      SegmentGiven(area.base, area.segs, pages, p);
      OnlySegment(area.base, area.segs, pages, p);
      var va := new nat[1];
      va[0] := p;
      assert va[..1] == [p];
      area.Free(0, 1, va);
    }

    /** What a page is for its owner: it is translated to a frame that no other live or reserved block has, and
        that no other page in use is translated to. */
    lemma PageIsPrivate(p: nat, x: word)
      requires Valid() && p in pages && p <= x < p + 0x1000
      ensures Walk(mmu.T(), mmu.kpt, x)
           == Some(Entry(pages[p] * 0x1000 + (x - p), SmallPage, Attrs(1, 0, 0, 1, 7, 0, 0, true)))
      ensures forall q :: q in mem.live.Keys + mem.reserved && q != Piece(0, pages[p]) ==> !q.Covers(pages[p])
      ensures forall o :: o in pages && o != p ==> pages[o] != pages[p]
    {
      hide Owns, Walk, Segmented, StampedAll;
      assert MapsTo(mmu.T(), mmu.kpt, p, pages[p]);
      assert Piece(0, pages[p]) in mem.live;
      forall q | q in mem.live.Keys + mem.reserved && q != Piece(0, pages[p]) ensures !q.Covers(pages[p]) {
        OwnFrame(mem.bdy.n, mem.bdy.Frames(), mem.live.Keys + mem.reserved, pages[p], q);
      }
    }

    /** An allocation after the release of the page that was allocated last finds the same address, which is
        still mapped: the code stops at its assertion. */
    method AllocFreeAlloc() returns (a: Outcome, b: Outcome)
      requires Valid() && |mmu.pool| >= 2
      modifies this`pages, this`stale, area`segs, mem`live, mem.bdy.store, mem.ramMap, mmu`pool, mmu.pd, mmu.ram
      ensures a.Done? ==> b.StillMapped?
    {
      hide Segmented, Framed, Translated, VmArea.BlockFree, Disjoint, Keep, Owns, StampedAll, Inv,
        Walk, FreeList, Record, Pieces;
      ghost var segs0, live0, busy0 := area.segs, mem.live, mem.bdy.Frames();
      a := Alloc();
      b := a;
      if a.Done? {
        ghost var p, f := a.page, pages[a.page];
        PageFits(area.base, area.segs, pages, p);
        Free(a.page);
        SegmentsBack(area, segs0, p);
        LiveBack(live0, f);
        OwnersBack(mem.bdy.n, busy0, mem.bdy.Frames(), live0.Keys + mem.reserved);
        b := Alloc();
        if b.Done? {
          OneHighest(area, segs0, p, b.page);
        }
      }
    }

    /** Maps a page to a frame; the code asserts that it was not mapped. */
    method MapPage(p: word, pa: word, ghost f: nat) returns (ok: bool)
      requires mmu.Valid() && |mmu.pool| >= 1 && Translated(mmu.T(), mmu.kpt, area.base, pages, stale)
      requires InArea(area.base, p) && p < SlabPages(area.base).start && p !in pages && pa == f * 0x1000
      modifies mmu`pool, mmu.pd, mmu.ram
      ensures mmu.Valid() && (ok <==> p !in stale) && |mmu.pool| >= |old(mmu.pool)| - 1
      ensures ok ==> Translated(mmu.T(), mmu.kpt, area.base, pages[p := f], stale)
    {
      hide Translated, Walk, Inv, TablesNeeded, TablesAdded, SlotFree, Request.Legal;
      ghost var t0 := mmu.T();
      ghost var r := PageRequest(p, pa);
      OneTableEnough(mmu.pd[..], p, pa);
      PageRequestFits(p, pa);
      FreeUnlessStale(t0, mmu.kpt, area.base, pages, stale, p);
      ok := mmu.Map(PageRequest(p, pa));
      assert SlotsFree(t0, mmu.kpt, r, 0) <==> PageFree(t0, mmu.kpt, p);
      if ok {
        assert MapsTo(mmu.T(), mmu.kpt, p, f);
        MappedOne(t0, mmu.T(), mmu.kpt, area.base, pages, stale, p, f);
      }
    }
  }

  lemma FrameOfPage(n: nat, busy: set<nat>, owned: set<Piece>, live: map<Piece, Usage>, pages: map<nat, nat>, p: nat)
    requires n <= MAX_FRAMES && Owns(n, busy, owned) && live.Keys <= owned && Framed(live, pages) && p in pages
    ensures Piece(0, pages[p]) in live && live[Piece(0, pages[p])] == Slub
    ensures Address(0, pages[p]) == pages[p] * 0x1000 < 0x1_0000_0000
  {
    FrameAddress(pages[p]);
    assert Piece(0, pages[p]).Exists(n);
  }

  lemma OnlySegment(base: nat, segs: seq<Seg>, pages: map<nat, nat>, p: nat)
    requires Segmented(base, segs, pages) && p in pages
    ensures forall s :: s in segs && s.start == p ==> s.npages == Pow2(0)
  {
  }

  lemma PageFits(base: nat, segs: seq<Seg>, pages: map<nat, nat>, p: nat)
    requires Segmented(base, segs, pages) && p in pages
    ensures p + 0x1000 <= base + AREA_SIZE
  {
  }

  lemma SegmentsBack(area: Area, segs: seq<Seg>, p: nat)
    requires Disjoint(area.base, [Seg(p, 1)] + segs)
    ensures Keep([Seg(p, 1)] + segs, [p]) == segs
  {
    hide Disjoint, Keep;
    assert [Seg(p, 1)][0].start == p;
    FreeRestores(area.base, [Seg(p, 1)], segs, [p]);
  }

  lemma LiveBack(live: map<Piece, Usage>, f: nat)
    requires Piece(0, f) !in live
    ensures Record(live, 0, [f], Slub) - Pieces(0, [f]) == live
  {
    var l := Record(live, 0, [f], Slub) - Pieces(0, [f]);
    forall q ensures q in l <==> q in live {
      assert q in Pieces(0, [f]) <==> q == Piece(0, f);
    }
    assert l.Keys == live.Keys;
  }

  /** The live blocks determine the busy frames. */
  lemma OwnersBack(n: nat, busy: set<nat>, after: set<nat>, owned: set<Piece>)
    requires Owns(n, busy, owned) && Owns(n, after, owned)
    ensures busy == after
  {
    forall x: nat ensures x in busy <==> x in after {
    }
  }

  lemma OneHighest(area: Area, segs: seq<Seg>, p: nat, q: nat)
    requires area.HighestFree(0, segs, p) && area.HighestFree(0, segs, q)
    ensures p == q
  {
    hide VmArea.BlockFree;
  }

  lemma NowStale(t: Tables, kpt: word, base: nat, pages: map<nat, nat>, stale: map<nat, nat>, p: nat)
    requires Translated(t, kpt, base, pages, stale) && p in pages
    ensures Translated(t, kpt, base, pages - {p}, stale[p := pages[p]])
  {
    hide MapsTo, PageFree;
  }

  lemma FreeUnlessStale(t: Tables, kpt: word, base: nat, pages: map<nat, nat>, stale: map<nat, nat>, p: word)
    requires Translated(t, kpt, base, pages, stale)
    requires InArea(base, p) && p < SlabPages(base).start && p !in pages
    ensures PageFree(t, kpt, p) <==> p !in stale
  {
    hide MapsTo, PageFree;
    if p in stale {
      TranslatedIsNotFree(t, kpt, p, stale[p]);
    }
  }

  /** The frame that an allocation takes. */
  lemma FrameTaken(n: nat, busy: set<nat>, owned: set<Piece>, live: map<Piece, Usage>, pages: map<nat, nat>,
                   v: nat, f: nat, pa: nat)
    requires Owns(n, busy, owned) && live.Keys <= owned && Framed(live, pages)
    requires |FreeList(n, busy, 0, 0)| >= 1 && f == FreeList(n, busy, 0, 0)[0] && pa == Address(0, f)
    ensures pa == f * 0x1000 && Piece(0, f) !in live
    ensures FreeList(n, busy, 0, 0)[..1] == [f]
    ensures v !in pages ==> Framed(Record(live, 0, FreeList(n, busy, 0, 0)[..1], Slub), pages[v := f])
  {
    hide FreeList, Owns, Framed, Width, Block, BuddySpec.BlockFree, Record;
    FreeListContents(n, busy, 0);
    FrameIsNew(n, busy, owned, f);
    FrameAddress(f);
    if v !in pages {
      FramedOne(live, pages, v, f);
    }
  }
}
