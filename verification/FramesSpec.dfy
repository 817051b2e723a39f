/** Ownership of physical frames: the set of live blocks behind the busy frames. */
module FramesSpec {
  import opened Sequences
  import opened Shift
  import opened BuddySpec

  /** An allocated block: `1 << level` frames starting at `pos << level`. */
  datatype Piece = Piece(level: nat, pos: nat) {
    predicate Exists(n: nat) {
      ValidPos(n, level, pos)
    }

    function Frames(n: nat): set<nat> {
      Block(n, level, pos)
    }

    /** Frame number x lies in the piece, whether or not that frame exists. */
    predicate Covers(x: nat) {
      Shr(x, level) == pos
    }
  }

  /** Live pieces are pairwise frame-disjoint, and the busy frames are exactly their union. */
  ghost predicate Owns(n: nat, busy: set<nat>, live: set<Piece>) {
    && (forall p | p in live :: p.Exists(n))
    && (forall p, q | p in live && q in live && p != q :: p.Frames(n) !! q.Frames(n))
    && (forall p, f | p in live && f in p.Frames(n) :: f in busy)
    && (forall f | f in busy :: exists p :: p in live && f in p.Frames(n))
  }

  /** Taking a free block keeps ownership exact, and the block was not live before. */
  lemma OwnAlloc(n: nat, busy: set<nat>, live: set<Piece>, p: Piece)
    requires Owns(n, busy, live) && p.Exists(n) && BlockFree(n, busy, p.level, p.pos)
    ensures p !in live && Owns(n, busy + p.Frames(n), live + {p})
  {
    BlockExtent(n, p.level, p.pos);
    assert p.pos * Pow2(p.level) in p.Frames(n);
    forall f | f in busy + p.Frames(n) ensures exists q :: q in live + {p} && f in q.Frames(n) {
      if f in busy {
        var q :| q in live && f in q.Frames(n);
        assert q in live + {p};
      } else {
        assert p in live + {p};
      }
    }
    forall q | q in live ensures p.Frames(n) !! q.Frames(n) {
      assert forall f :: f in q.Frames(n) ==> f in busy;
    }
  }

  /** Releasing a live block keeps ownership exact. */
  lemma OwnFree(n: nat, busy: set<nat>, live: set<Piece>, p: Piece)
    requires Owns(n, busy, live) && p in live
    ensures Owns(n, busy - p.Frames(n), live - {p})
  {
    forall f | f in busy - p.Frames(n) ensures exists q :: q in live - {p} && f in q.Frames(n) {
      var q :| q in live && f in q.Frames(n);
      assert q in live - {p};
    }
    forall q, f | q in live - {p} && f in q.Frames(n) ensures f in busy - p.Frames(n) {
      assert p.Frames(n) !! q.Frames(n);
    }
  }

  /** Freeing the pieces of a sequence, in order. */
  function FreeAll(n: nat, busy: set<nat>, order: seq<Piece>): set<nat> {
    if order == [] then busy else FreeAll(n, busy - order[0].Frames(n), order[1..])
  }

  /** Freeing all live blocks, in any order, leaves no busy frame. */
  lemma {:induction false} FreeAllEmpties(n: nat, busy: set<nat>, live: set<Piece>, order: seq<Piece>)
    requires Owns(n, busy, live)
    requires forall i, j | 0 <= i < j < |order| :: order[i] != order[j]
    requires forall p :: p in live <==> p in order
    ensures FreeAll(n, busy, order) == {}
    decreases |order|
  {
    if order == [] {
      assert busy == {};
    } else {
      OwnFree(n, busy, live, order[0]);
      forall p ensures p in live - {order[0]} <==> p in order[1..] {
        if p in order[1..] {
          var i :| 0 <= i < |order[1..]| && order[1..][i] == p;
          assert order[i + 1] == p;
        }
      }
      FreeAllEmpties(n, busy - order[0].Frames(n), live - {order[0]}, order[1..]);
    }
  }

  /** Two live pieces do not even overlap in the address range past the last existing frame. */
  lemma FullRangesDisjoint(n: nat, p: Piece, q: Piece, x: nat)
    requires p.Exists(n) && q.Exists(n) && p.Frames(n) !! q.Frames(n)
    requires Shr(x, p.level) == p.pos
    ensures Shr(x, q.level) != q.pos
  {
    if p.level <= q.level {
      NestedRanges(n, p, q, x);
    } else {
      NestedRanges(n, q, p, x);
    }
  }

  lemma NestedRanges(n: nat, small: Piece, big: Piece, x: nat)
    requires small.Exists(n) && small.level <= big.level
    requires small.Frames(n) !! big.Frames(n)
    ensures !(Shr(x, small.level) == small.pos && Shr(x, big.level) == big.pos)
  {
    BlockExtent(n, small.level, small.pos);
    var first := small.pos * Pow2(small.level);
    assert first in small.Frames(n);
    ShrCompose(x, small.level, big.level - small.level);
    ShrCompose(first, small.level, big.level - small.level);
    assert first !in big.Frames(n);
  }

  // ---- First fit, repeated ----

  /** The positions of the free blocks of a level, from `from` on, in ascending order. */
  function FreeList(n: nat, busy: set<nat>, level: nat, from: nat): seq<nat>
    decreases Width(n, level) - from
  {
    if from >= Width(n, level) then []
    else (if BlockFree(n, busy, level, from) then [from] else []) + FreeList(n, busy, level, from + 1)
  }

  predicate FreeAt(n: nat, busy: set<nat>, level: nat, x: nat) {
    x < Width(n, level) && BlockFree(n, busy, level, x)
  }

  lemma FreeListFirst(n: nat, busy: set<nat>, level: nat, from: nat)
    ensures FreeList(n, busy, level, from) ==
            if from >= Width(n, level) then []
            else (if FreeAt(n, busy, level, from) then [from] else []) + FreeList(n, busy, level, from + 1)
  {
    hide Block, BlockFree, Width;
  }

  /** Exactly the free positions, ascending. */
  lemma {:induction false} FreeListFrom(n: nat, busy: set<nat>, level: nat, from: nat)
    ensures var s := FreeList(n, busy, level, from);
            && (forall x: nat :: x in s <==> from <= x && FreeAt(n, busy, level, x))
            && (forall i, j :: 0 <= i < j < |s| ==> s[i] < s[j])
    decreases Width(n, level) - from
  {
    hide FreeList, Block, BlockFree, Width;
    FreeListFirst(n, busy, level, from);
    if from < Width(n, level) {
      hide FreeAt;
      var rest := FreeList(n, busy, level, from + 1);
      FreeListFrom(n, busy, level, from + 1);
      Ahead(from, rest);
      assert [] + rest == rest;
    }
  }

  lemma FreeListContents(n: nat, busy: set<nat>, level: nat)
    ensures var s := FreeList(n, busy, level, 0);
            && (forall i :: 0 <= i < |s| ==> s[i] < Width(n, level) && BlockFree(n, busy, level, s[i]))
            && (forall i, j :: 0 <= i < j < |s| ==> s[i] < s[j])
            && (forall x: nat :: x in s <==> x < Width(n, level) && BlockFree(n, busy, level, x))
  {
    hide Block, BlockFree, Width;
    FreeListFrom(n, busy, level, 0);
    hide FreeList;
    var s := FreeList(n, busy, level, 0);
    assert forall i :: 0 <= i < |s| ==> s[i] in s;
  }

  lemma HeadIn(s: seq<nat>)
    ensures s != [] ==> s[0] in s
  {
  }

  lemma FreeListValid(n: nat, busy: set<nat>, level: nat)
    ensures forall i :: 0 <= i < |FreeList(n, busy, level, 0)| ==> FreeList(n, busy, level, 0)[i] < Width(n, level)
  {
    hide Block, BlockFree, Width, FreeList;
    FreeListContents(n, busy, level);
  }

  /** The free list is the only ascending list of exactly the free positions. */
  lemma {:induction false} AscendingUnique(s: seq<nat>, t: seq<nat>)
    requires forall i, j :: 0 <= i < j < |s| ==> s[i] < s[j]
    requires forall i, j :: 0 <= i < j < |t| ==> t[i] < t[j]
    requires forall x: nat :: x in s <==> x in t
    ensures s == t
    decreases |s|
  {
    HeadIn(s);
    HeadIn(t);
    if s != [] {
      assert s == [s[0]] + s[1..] && t == [t[0]] + t[1..];
      forall x: nat ensures x in s[1..] <==> x in t[1..] {
        assert x in s <==> x == s[0] || x in s[1..];
        assert x in t <==> x == t[0] || x in t[1..];
      }
      AscendingUnique(s[1..], t[1..]);
    }
  }

  lemma SameLevelDisjoint(n: nat, busy: set<nat>, level: nat, p: nat, q: nat)
    requires p != q
    ensures BlockFree(n, busy + Block(n, level, p), level, q) == BlockFree(n, busy, level, q)
  {
    assert Block(n, level, q) !! Block(n, level, p);
  }

  lemma FreeListIn(n: nat, busy: set<nat>, level: nat, x: nat)
    ensures x in FreeList(n, busy, level, 0) <==> x < Width(n, level) && BlockFree(n, busy, level, x)
  {
    hide Block, BlockFree, Width, FreeList;
    FreeListContents(n, busy, level);
  }

  lemma FreeListAscends(n: nat, busy: set<nat>, level: nat, s: seq<nat>)
    requires s == FreeList(n, busy, level, 0)
    ensures forall i, j :: 0 <= i < j < |s| ==> s[i] < s[j]
  {
    hide Block, BlockFree, Width, FreeList;
    FreeListContents(n, busy, level);
  }

  lemma TailAscends(s: seq<nat>, p: nat)
    requires s != [] && p == s[0] && forall i, j :: 0 <= i < j < |s| ==> s[i] < s[j]
    ensures forall i, j :: 0 <= i < j < |s[1..]| ==> s[1..][i] < s[1..][j]
    ensures forall x :: x in s[1..] <==> x in s && x != p
  {
    assert s == [p] + s[1..];
  }

  /** Taking the lowest free block removes it from the head of the free list. */
  lemma TakeFirst(n: nat, busy: set<nat>, level: nat)
    requires FreeList(n, busy, level, 0) != []
    ensures FreeList(n, busy + Block(n, level, FreeList(n, busy, level, 0)[0]), level, 0)
            == FreeList(n, busy, level, 0)[1..]
  {
    hide FreeList, Width;
    var s := FreeList(n, busy, level, 0);
    var p := s[0];
    var after := busy + Block(n, level, p);
    var t := FreeList(n, after, level, 0);
    FreeListIn(n, busy, level, p);
    BlockExtent(n, level, p);
    assert !BlockFree(n, after, level, p);
    hide Block, BlockFree;
    FreeListAscends(n, busy, level, s);
    FreeListAscends(n, after, level, t);
    TailAscends(s, p);
    var rest := s[1..];
    forall x: nat ensures x in t <==> x in s[1..] {
      FreeListIn(n, busy, level, x);
      FreeListIn(n, after, level, x);
      if x != p {
        SameLevelDisjoint(n, busy, level, p, x);
      }
    }
    AscendingUnique(t, rest);
  }

  /** Busy frames after taking the first k free blocks of a level. */
  function Take(n: nat, busy: set<nat>, level: nat, k: nat): set<nat>
    requires k <= |FreeList(n, busy, level, 0)|
    decreases k
  {
    if k == 0 then busy
    else Take(n, busy, level, k - 1) + Block(n, level, FreeList(n, busy, level, 0)[k - 1])
  }

  lemma TakeUnfold(n: nat, busy: set<nat>, level: nat, k: nat)
    requires k < |FreeList(n, busy, level, 0)|
    ensures Take(n, busy, level, k + 1)
            == Take(n, busy, level, k) + Block(n, level, FreeList(n, busy, level, 0)[k])
  {
  }

  lemma {:induction false} TakeLeaves(n: nat, busy: set<nat>, level: nat, k: nat)
    requires k <= |FreeList(n, busy, level, 0)|
    ensures FreeList(n, Take(n, busy, level, k), level, 0) == FreeList(n, busy, level, 0)[k..]
  {
    hide FreeList;
    if k > 0 {
      TakeLeaves(n, busy, level, k - 1);
      TakeFirst(n, Take(n, busy, level, k - 1), level);
    }
  }

  /** The lowest free block, once the first k of the free list are taken, is entry k of that list. */
  lemma NextFit(n: nat, busy: set<nat>, level: nat, k: nat, out: nat)
    requires k <= |FreeList(n, busy, level, 0)| && out <= Width(n, level)
    requires forall q: nat | q < out :: !BlockFree(n, Take(n, busy, level, k), level, q)
    requires out < Width(n, level) ==> BlockFree(n, Take(n, busy, level, k), level, out)
    ensures out == Width(n, level) <==> k == |FreeList(n, busy, level, 0)|
    ensures out < Width(n, level) ==> out == FreeList(n, busy, level, 0)[k]
    ensures out < Width(n, level) ==>
              Take(n, busy, level, k + 1) == Take(n, busy, level, k) + Block(n, level, out)
  {
    hide FreeList, Take, Block, BlockFree;
    TakeLeaves(n, busy, level, k);
    FreeListContents(n, Take(n, busy, level, k), level);
    var rest := FreeList(n, Take(n, busy, level, k), level, 0);
    assert rest == FreeList(n, busy, level, 0)[k..];
    HeadIn(rest);
    if out < Width(n, level) {
      assert out in rest;
      TakeUnfold(n, busy, level, k);
    }
  }

  /** The next free block is disjoint from all taken so far, so giving it back undoes taking it. */
  lemma TakeBack(n: nat, busy: set<nat>, level: nat, k: nat)
    requires k < |FreeList(n, busy, level, 0)|
    ensures Take(n, busy, level, k + 1) - Block(n, level, FreeList(n, busy, level, 0)[k]) == Take(n, busy, level, k)
  {
    hide FreeList;
    TakeLeaves(n, busy, level, k);
    FreeListFree(n, Take(n, busy, level, k), level);
    var s := FreeList(n, busy, level, 0);
    assert s[k..][0] == s[k];
    assert BlockFree(n, Take(n, busy, level, k), level, s[k]);
  }

  /** With nothing busy, the free list is every position in order. */
  lemma FreshFreeList(n: nat, level: nat)
    ensures FreeList(n, {}, level, 0) == seq(Width(n, level), i requires i >= 0 => i)
  {
    var all := seq(Width(n, level), i requires i >= 0 => i as nat);
    var s := FreeList(n, {}, level, 0);
    FreeListContents(n, {}, level);
    hide FreeList, Width;
    forall x: nat ensures x in s <==> x in all {
      if x < Width(n, level) {
        assert all[x] == x;
        assert BlockFree(n, {}, level, x);
      }
    }
    AscendingUnique(s, all);
  }

  /** The pieces of one level at the given positions. */
  function Pieces(level: nat, ps: seq<nat>): (s: set<Piece>)
    ensures forall p {:trigger p in s} :: p in s <==> p.level == level && p.pos in ps
  {
    set p | p in ps :: Piece(level, p)
  }

  /** Taking the first k free blocks makes exactly those k pieces live. */
  lemma {:induction false} TakeOwns(n: nat, busy: set<nat>, live: set<Piece>, level: nat, k: nat)
    requires Owns(n, busy, live) && level < NLEVELS && k <= |FreeList(n, busy, level, 0)|
    ensures var ps := FreeList(n, busy, level, 0)[..k];
            Owns(n, Take(n, busy, level, k), live + Pieces(level, ps)) && live !! Pieces(level, ps)
  {
    hide FreeList, Owns;
    var free := FreeList(n, busy, level, 0);
    if k == 0 {
      assert live + Pieces(level, free[..0]) == live;
    } else {
      TakeOwns(n, busy, live, level, k - 1);
      OneMore(n, busy, live, level, k - 1);
    }
  }

  lemma OneMore(n: nat, busy: set<nat>, live: set<Piece>, level: nat, k: nat)
    requires level < NLEVELS && k < |FreeList(n, busy, level, 0)|
    requires var ps := FreeList(n, busy, level, 0)[..k];
             Owns(n, Take(n, busy, level, k), live + Pieces(level, ps)) && live !! Pieces(level, ps)
    ensures var ps := FreeList(n, busy, level, 0)[..k + 1];
            Owns(n, Take(n, busy, level, k + 1), live + Pieces(level, ps)) && live !! Pieces(level, ps)
  {
    hide FreeList, Owns, Block, BlockFree, Width;
    var free := FreeList(n, busy, level, 0);
    var p := Piece(level, free[k]);
    TakeLeaves(n, busy, level, k);
    TakeUnfold(n, busy, level, k);
    FreeListValid(n, busy, level);
    FreeListFree(n, Take(n, busy, level, k), level);
    hide Take;
    assert free[k..][0] == p.pos;
    OwnAlloc(n, Take(n, busy, level, k), live + Pieces(level, free[..k]), p);
    MorePieces(level, free, k);
    assert live + Pieces(level, free[..k + 1]) == live + Pieces(level, free[..k]) + {p};
  }

  lemma MorePieces(level: nat, ps: seq<nat>, k: nat)
    requires k < |ps|
    ensures Pieces(level, ps[..k + 1]) == Pieces(level, ps[..k]) + {Piece(level, ps[k])}
  {
    assert ps[..k + 1] == ps[..k] + [ps[k]];
  }

  lemma FreeListFree(n: nat, busy: set<nat>, level: nat)
    ensures FreeList(n, busy, level, 0) != [] ==> BlockFree(n, busy, level, FreeList(n, busy, level, 0)[0])
  {
    hide Block, BlockFree, Width, FreeList;
    FreeListContents(n, busy, level);
  }

  /** The reservation at boot: a fresh memory of at least 8MB gives out 0, 2MB, 4MB and 6MB; the
      next 1MB block exists iff there is memory beyond 8MB, and then starts at 8MB.  It has all of its
      256 frames iff there are at least 9MB. */
  lemma BootReservation(n: nat)
    requires n >= 2048
    ensures |FreeList(n, {}, 9, 0)| >= 4 && FreeList(n, {}, 9, 0)[..4] == [0, 1, 2, 3]
    ensures var rest := FreeList(n, Take(n, {}, 9, 4), 8, 0);
            (rest != [] <==> n > 2048) && (rest != [] ==> rest[0] == 8)
    ensures |Block(n, 8, 8)| == 256 <==> n >= 2304
  {
    hide FreeList, Take;
    FirstEightMB(n);
    NinthMB(n, Take(n, {}, 9, 4));
    ExtentSize(n);
  }

  /** The frames that the two reservations take. */
  lemma BootFrames(n: nat)
    requires n >= 2048
    ensures |FreeList(n, {}, 9, 0)| >= 4
    ensures forall f: nat :: f in Take(n, {}, 9, 4) <==> f < 2048
    ensures |FreeList(n, Take(n, {}, 9, 4), 8, 0)| >= 1 ==>
              forall f: nat :: f in Take(n, Take(n, {}, 9, 4), 8, 1) <==> f < 2304 && f < n
  {
    hide FreeList, Take;
    FirstEightMB(n);
    var busy := Take(n, {}, 9, 4);
    NinthMB(n, busy);
    if |FreeList(n, busy, 8, 0)| >= 1 {
      TakeUnfold(n, busy, 8, 0);
      TakeNothing(n, busy, 8);
      assert Pow2(8) == 256;
      forall f: nat ensures f in Take(n, busy, 8, 1) <==> f < 2304 && f < n {
        ShrInterval(f, 8, 8);
      }
    }
  }

  lemma TakeNothing(n: nat, busy: set<nat>, level: nat)
    ensures Take(n, busy, level, 0) == busy
  {
  }

  lemma FirstEightMB(n: nat)
    requires n >= 2048
    ensures |FreeList(n, {}, 9, 0)| >= 4 && FreeList(n, {}, 9, 0)[..4] == [0, 1, 2, 3]
    ensures forall f: nat :: f in Take(n, {}, 9, 4) <==> f < 2048
  {
    hide FreeList, Take;
    FreshFreeList(n, 9);
    ShrInterval(2047, 9, 3);
    assert Pow2(9) == 512;
    FrameHasBlock(n, 2047, 9);
    TakeFour(n);
    forall f: nat ensures f in Take(n, {}, 9, 4) <==> f < 2048 {
      ShrInterval(f, 9, 0);
      ShrInterval(f, 9, 1);
      ShrInterval(f, 9, 2);
      ShrInterval(f, 9, 3);
    }
  }

  lemma NinthMB(n: nat, busy: set<nat>)
    requires n >= 2048 && forall f: nat :: f in busy <==> f < 2048
    ensures FreeList(n, busy, 8, 0) != [] <==> n > 2048
    ensures FreeList(n, busy, 8, 0) != [] ==> FreeList(n, busy, 8, 0)[0] == 8
  {
    hide FreeList;
    assert Pow2(8) == 256;
    forall q: nat | q < Width(n, 8) ensures BlockFree(n, busy, 8, q) <==> q >= 8 {
      BlockExtent(n, 8, q);
      assert q * 256 in Block(n, 8, q);
    }
    if n > 2048 {
      FrameHasBlock(n, 2048, 8);
      ShrInterval(2048, 8, 8);
    }
    if Width(n, 8) > 8 {
      FirstFrameExists(n, 8, 8);
    }
    FreeListHead(n, busy, 8, 8);
  }

  lemma TakeFour(n: nat)
    requires |FreeList(n, {}, 9, 0)| >= 4
    ensures var s := FreeList(n, {}, 9, 0);
            Take(n, {}, 9, 4) == Block(n, 9, s[0]) + Block(n, 9, s[1]) + Block(n, 9, s[2]) + Block(n, 9, s[3])
  {
    hide FreeList;
    TakeUnfold(n, {}, 9, 0);
    TakeUnfold(n, {}, 9, 1);
    TakeUnfold(n, {}, 9, 2);
    TakeUnfold(n, {}, 9, 3);
  }

  lemma FreeListHead(n: nat, busy: set<nat>, level: nat, first: nat)
    requires forall q: nat | q < Width(n, level) :: BlockFree(n, busy, level, q) <==> q >= first
    ensures FreeList(n, busy, level, 0) != [] <==> first < Width(n, level)
    ensures first < Width(n, level) ==> FreeList(n, busy, level, 0)[0] == first
  {
    hide Block, BlockFree, Width, FreeList;
    FreeListContents(n, busy, level);
    var s := FreeList(n, busy, level, 0);
    HeadIn(s);
    if first < Width(n, level) {
      assert BlockFree(n, busy, level, first);
      assert first in s;
    }
  }

  lemma {:induction false} RangeSize(lo: nat, hi: nat, s: set<nat>)
    requires lo <= hi && forall f: nat :: f in s <==> lo <= f < hi
    ensures |s| == hi - lo
    decreases hi
  {
    if lo == hi {
      assert s == {};
    } else {
      RangeSize(lo, hi - 1, s - {hi - 1});
    }
  }

  lemma ExtentSize(n: nat)
    requires n >= 2048
    ensures |Block(n, 8, 8)| == 256 <==> n >= 2304
  {
    assert Pow2(8) == 256;
    forall f: nat ensures f in Block(n, 8, 8) <==> 2048 <= f < 2304 && f < n {
      ShrInterval(f, 8, 8);
    }
    RangeSize(2048, if n < 2304 then n else 2304, Block(n, 8, 8));
  }
}
