/** The slab allocator for objects smaller than a page: headers and pages in place.
    List heads are sequences of headers; module Lists has the links. */
module Slub {
  import opened Shift
  import opened SlabSpec
  import opened SlubSpec
  import opened Wrappers

  /** The header of a slab, and its page. */
  class Header {
    const p: array<int>
    var free: int
    var nfree: int

    ghost function View(): Slab
      reads this, p
    {
      Slab(p[..], free, nfree)
    }

    constructor (page: array<int>)
      ensures p == page
    {
      p := page;
      free, nfree := 0, 0;
    }
  }

  lemma ListsCover<Id>(c: Cache<Id>, lg: Log, l: seq<Id>)
    requires Inv(c, lg) && l == c.busy + c.part + c.free
    ensures forall i :: i in l <==> i in c.slabs
  {
    forall i ensures i in l <==> i in c.slabs {
      assert i in c.On(Busy) + c.On(Part) + c.On(Free) <==> i in l;
    }
  }

  lemma OffsetOf(offset: nat, lg: Log)
    requires offset % Pow2(lg) == 0
    ensures offset == Shr(offset, lg) * Pow2(lg)
  {
    var q := offset / Pow2(lg);
    assert offset == q * Pow2(lg);
    ShrOfMultiple(q, lg);
  }

  /** The first words of the objects, `i` to `n`, one after another. */
  method WriteLinks(p: array<int>, lg: Log, first: nat)
    requires p.Length == PAGE_WORDS && first <= Count(lg)
    modifies p
    ensures forall k: nat :: first <= k < Count(lg) ==> Holds(p[..], At(k, lg), k + 1)
  {
    hide Count, At, Words, Pow2;
    var i, t := first, first * Pow2(lg);
    OffsetIsAt(i, lg);
    while i < Count(lg)
      invariant first <= i <= Count(lg) && t == i * Pow2(lg) == 4 * At(i, lg)
      invariant forall k: nat :: first <= k < i ==> Holds(p[..], At(k, lg), k + 1)
    {
      ObjectInPage(i, lg);
      Geometry(lg);
      ghost var was := p[..];
      p[t / 4] := i + 1;
      forall k: nat | first <= k < i + 1 ensures Holds(p[..], At(k, lg), k + 1) {
        if k < i {
          assert Holds(was, At(k, lg), k + 1);
          OtherObject(k, i, lg);
        }
      }
      i, t := i + 1, t + Pow2(lg);
      OffsetIsAt(i, lg);
      assert i * Pow2(lg) == (i - 1) * Pow2(lg) + Pow2(lg);
    }
  }

  class Subpages {
    const lg: Log
    var busy: seq<Header>
    var part: seq<Header>
    var free: seq<Header>

    ghost function Headers(): set<Header>
      reads this
    {
      set h | h in busy + part + free
    }

    ghost function Pages(): set<array<int>>
      reads this
    {
      set h | h in Headers() :: h.p
    }

    ghost predicate Apart()
      reads this
    {
      && (forall h, k :: h in Headers() && k in Headers() && h != k ==> h.p != k.p)
      && (forall h :: h in Headers() ==> h.p.Length == PAGE_WORDS)
    }

    ghost function View(): Cache<Header>
      reads this, Headers(), Pages()
    {
      Cache(busy, part, free, map h | h in Headers() :: h.View())
    }

    ghost predicate Valid()
      reads this, Headers(), Pages()
    {
      Apart() && Inv(View(), lg)
    }

    constructor (log: Log)
      ensures lg == log && Valid() && View() == Cache([], [], [], map[])
    {
      lg := log;
      busy, part, free := [], [], [];
    }

    /** A header that is on no list, and its page, are written. */
    method SetUpHeader(sl: Header)
      requires sl.p.Length == PAGE_WORDS
      modifies sl, sl.p
      ensures SetUp(sl.View(), lg)
    {
      Geometry(lg);
      if lg == 4 {
        sl.nfree, sl.free := Count(lg) - 9, 9;
      } else {
        sl.nfree, sl.free := Count(lg), 0;
      }
      WriteLinks(sl.p, lg, sl.free);
    }

    /** Takes a page and a header into use. */
    method SetUpSlab(sl: Header)
      requires Valid() && sl !in Headers() && sl.p !in Pages() && sl.p.Length == PAGE_WORDS
      modifies this, sl, sl.p
      ensures Valid() && SetUp(sl.View(), lg)
      ensures View() == Grown(old(View()), lg, sl, sl.View())
      ensures Headers() == old(Headers()) + {sl} && Pages() == old(Pages()) + {sl.p}
    {
      hide Count, At, Inv, SetUp, Holds;
      SetUpHeader(sl);
      if lg == 4 {
        part := part + [sl];
      } else {
        free := free + [sl];
      }
      hide View;
      assert Headers() == old(Headers()) + {sl};
      OneChanged(sl);
      GrownOk(old(View()), lg, sl, sl.View());
    }

    /** Only `sl` and its page were written. */
    twostate lemma OneChanged(sl: Header)
      requires old(Apart()) && Apart() && Headers() == old(Headers()) + {sl}
      requires forall h <- old(Headers()) :: h != sl ==> h.free == old(h.free) && h.nfree == old(h.nfree)
      requires forall h <- old(Headers()) :: h != sl ==> h.p[..] == old(h.p[..])
      ensures View().slabs == old(View()).slabs[sl := sl.View()]
      ensures View().busy == busy && View().part == part && View().free == free
      ensures old(View()).busy == old(busy) && old(View()).part == old(part) && old(View()).free == old(free)
      ensures old(View()).slabs.Keys == old(Headers())
    {
    }

    /** `list_del` and `list_add`: off its list, and to the front of list `h`. */
    method Move(sl: Header, h: Home)
      modifies this
      ensures Cache(busy, part, free, map[])
           == Linked(Unlinked(Cache(old(busy), old(part), old(free), map[]), sl), sl, h)
    {
      busy, part, free := RemoveFirst(busy, sl), RemoveFirst(part, sl), RemoveFirst(free, sl);
      match h {
        case Busy => busy := [sl] + busy;
        case Part => part := [sl] + part;
        case Free => free := [sl] + free;
      }
    }

    /** The first object of the free list of `sl`. */
    method Pop(sl: Header) returns (j: nat)
      requires Sound(sl.View(), lg) && sl.nfree > 0
      modifies sl, sl.p
      ensures j == old(sl.free) < Count(lg) && sl.View() == Popped(old(sl.View()), lg)
    {
      hide Count, Visit;
      Visited(sl.View(), lg);
      OffsetIsAt(sl.free, lg);
      Geometry(lg);
      ObjectInPage(sl.free, lg);
      j := sl.free;
      var word := j * Pow2(lg) / 4;
      sl.free := sl.p[word];
      sl.p[word] := 0;
      sl.nfree := sl.nfree - 1;
    }

    method Push(sl: Header, offset: nat)
      requires Sound(sl.View(), lg) && offset % Pow2(lg) == 0 && Shr(offset, lg) < Count(lg)
      modifies sl, sl.p
      ensures sl.View() == Pushed(old(sl.View()), lg, Shr(offset, lg))
    {
      hide Count, Visit, Shr;
      var j := Shr(offset, lg);
      OffsetIsAt(j, lg);
      Geometry(lg);
      ObjectInPage(j, lg);
      OffsetOf(offset, lg);
      sl.p[offset / 4] := sl.free;
      sl.free := j;
      sl.nfree := sl.nfree + 1;
    }

    lemma SettledView(c: Cache<Header>, sl: Header, s: Slab, l: Cache<Header>)
      requires Inv(c, lg) && sl in c.slabs && Sound(s, lg)
      requires l == (if HomeOf(c.slabs[sl], lg) == HomeOf(s, lg) then Cache(c.busy, c.part, c.free, map[])
                     else Linked(Unlinked(Cache(c.busy, c.part, c.free, map[]), sl), sl, HomeOf(s, lg)))
      ensures var e := Settled(c, lg, sl, s);
              Inv(e, lg) && e.busy == l.busy && e.part == l.part && e.free == l.free
              && forall h :: h in l.busy + l.part + l.free <==> h in c.slabs
    {
      SettledOk(c, lg, sl, s);
      var e := Settled(c, lg, sl, s);
      ListsCover(e, lg, e.busy + e.part + e.free);
    }

    /** An object, when some slab has one. */
    method Take() returns (sl: Header, j: nat)
      requires Valid() && Candidates(View()) != []
      modifies this, Headers(), Pages()
      ensures Valid() && Headers() == old(Headers()) && Pages() == old(Pages())
      ensures View() == Allocated(old(View()), lg)
      ensures sl == Candidates(old(View()))[0] && j == old(sl.free)
    {
      hide Count, Sound, Inv, RemoveFirst, Live, Chain;
      CandidateHasFree(View(), lg);
      Geometry(lg);
      sl := (if part == [] then free else part)[0];
      PopThreaded(sl.View(), lg);
      SlabOk(View(), lg, sl);
      var nh: Option<Home> := if sl.nfree == Count(lg) then Some(Part) else if sl.nfree == 1 then Some(Busy) else None;
      j := Pop(sl);
      if nh.Some? {
        Move(sl, nh.value);
      }
      ghost var c := old(View());
      assert c.slabs[sl] == old(sl.View());
      SettledView(c, sl, sl.View(), Cache(busy, part, free, map[]));
      hide View, Linked, Unlinked, Settled;
      assert Headers() == old(Headers());
      OneChanged(sl);
    }

    /** Frees the object at a byte offset of the page of `sl`. */
    method Kfree(sl: Header, offset: nat)
      requires Valid() && sl in View().slabs
      requires offset % Pow2(lg) == 0 && Shr(offset, lg) in Live(View().slabs[sl], lg)
      modifies this, Headers(), Pages()
      ensures Valid() && Headers() == old(Headers()) && Pages() == old(Pages())
      ensures View() == Freed(old(View()), lg, sl, Shr(offset, lg))
    {
      hide Count, Sound, Inv, RemoveFirst, Live, Chain;
      Geometry(lg);
      SlabOk(View(), lg, sl);
      PushThreaded(sl.View(), lg, Shr(offset, lg));
      Push(sl, offset);
      var nh: Option<Home> := if sl.nfree == Count(lg) then Some(Free) else if sl.nfree == 1 then Some(Part) else None;
      if nh.Some? {
        Move(sl, nh.value);
      }
      ghost var c := old(View());
      assert c.slabs[sl] == old(sl.View());
      SettledView(c, sl, sl.View(), Cache(busy, part, free, map[]));
      hide View, Linked, Unlinked, Settled;
      assert Headers() == old(Headers());
      OneChanged(sl);
    }

    /** An object; from `spare`, a header and a page nobody uses, if the cache has none left. */
    method Kmalloc(spare: Header) returns (sl: Header, j: nat, ghost page: Slab)
      requires Valid()
      requires Candidates(View()) == [] ==> lg != 4
      requires spare !in Headers() && spare.p !in Pages() && spare.p.Length == PAGE_WORDS
      modifies this, Headers(), Pages(), spare, spare.p
      ensures Valid()
      ensures Candidates(old(View())) == [] ==> SetUp(page, lg)
      ensures var a := SlubSpec.Kmalloc(spare, page);
              View() == Allocated(Ready(old(View()), lg, a), lg) && (sl, j) == Result(old(View()), lg, a)
    {
      if part == [] && free == [] {
        SetUpSlab(spare);
      }
      page := spare.View();
      sl, j := Take();
    }
  }

  // ---- Size classes ----

  /** What `kmalloc` does for a size: nothing, a class below a page, a page, or a failed assertion. */
  datatype Choice = Null | Subpage(i: nat) | Page | Refused

  /** Object size of class `i`. */
  function Size(i: nat): nat {
    Pow2(3 + i)
  }

  lemma SizeOf(i: nat)
    requires i <= 9
    ensures Size(i) == [8, 16, 32, 64, 128, 256, 512, 1024, 2048, 4096][i]
  {
    Powers();
    hide Pow2;
    if i == 0 {} else if i == 1 {} else if i == 2 {} else if i == 3 {} else if i == 4 {}
    else if i == 5 {} else if i == 6 {} else if i == 7 {} else if i == 8 {}
  }

  method KmallocClass(sz: nat) returns (c: Choice)
    ensures c.Null? <==> sz == 0
    ensures c.Subpage? <==> 0 < sz <= 2048
    ensures c.Page? <==> 2048 < sz <= 4096
    // The smallest class that fits.
    ensures c.Subpage? ==> c.i < 9 && sz <= Size(c.i) && forall i: nat :: i < c.i ==> Size(i) < sz
  {
    hide Size;
    if sz == 0 {
      return Null;
    }
    var i := 0;
    while i < 24 && Size(i) < sz
      invariant i <= 24 && forall k: nat :: k < i ==> Size(k) < sz
    {
      i := i + 1;
    }
    SizeOf(8);
    SizeOf(9);
    if i > 9 {
      return Refused;
    }
    if i < 9 && Size(i) > 2048 {
      SizeOf(i);
    }
    return if i == 9 then Page else Subpage(i);
  }
}
