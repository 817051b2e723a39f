/** The physical frame allocator on top of the buddy bitmap: transactional allocation of
    several blocks, and the per-frame records that guard against mismatched frees. */
module FrameAllocator {
  import opened Shift
  import opened Word
  import opened BuddySpec
  import opened FramesSpec
  import opened Buddy

  /** The RAM in use never exceeds 128MB. */
  const MAX_FRAMES: nat := 32768

  datatype Usage = Normal | Slub

  /** The per-frame record: allocation unit, usage, and reference count. */
  datatype Page = Page(unit: nat, use: Usage, ref: int)

  /** The record says: this frame belongs to a live block of this unit and use. */
  predicate Stamped(pg: Page, unit: nat, use: Usage) {
    pg.unit == unit && pg.use == use && (use == Normal ==> pg.ref == 1)
  }

  /** Physical address of the first frame of a block. */
  function Address(unit: nat, pos: nat): nat {
    pos * Pow2(unit) * 4096
  }

  lemma AddressFits(n: nat, unit: nat, pos: nat)
    requires n <= MAX_FRAMES && pos < Width(n, unit)
    ensures pos <= pos * Pow2(unit) < n && Address(unit, pos) < 0x1_0000_0000
  {
    FirstFrameExists(n, unit, pos);
    assert pos * (Pow2(unit) - 1) >= 0;
  }

  class PhysMem {
    const bdy: Bitmap
    const ramMap: array<Page>
    /** The blocks handed out, and for what use. */
    ghost var live: map<Piece, Usage>
    /** The blocks taken at boot, which are never freed. */
    ghost var reserved: set<Piece>

    /** The caller's address buffer is not part of the allocator. */
    ghost predicate Separate(pa: array<word>) {
      var o: object := pa;
      o != bdy.store && o != bdy.nbits && o != bdy.nbitsUntil
    }

    ghost predicate Valid()
      reads this, bdy, bdy.nbits, bdy.nbitsUntil, bdy.store, ramMap
    {
      && bdy.Valid() && bdy.n <= MAX_FRAMES
      && bdy.nbits != bdy.nbitsUntil
      && Owns(bdy.n, bdy.Frames(), live.Keys + reserved) && live.Keys !! reserved
      && ramMap.Length >= MAX_FRAMES + 4096
      && StampedAll(live, ramMap[..])
    }

    constructor (ramsz: nat)
      ensures Valid() && live == map[] && reserved == {}
      ensures bdy.n == (if ramsz > 128 * 1024 * 1024 then 128 * 1024 * 1024 else ramsz) / 4096
      ensures bdy.Frames() == {}
      ensures fresh(bdy) && fresh(bdy.nbits) && fresh(bdy.nbitsUntil) && fresh(bdy.store) && fresh(ramMap)
    {
      var sz := if ramsz > 128 * 1024 * 1024 then 128 * 1024 * 1024 else ramsz;
      bdy := new Bitmap(sz / 4096);
      ramMap := new Page[131072](_ => Page(0, Normal, 0));
      live, reserved := map[], {};
    }

    /** All or nothing: either the n lowest free blocks of the unit are taken, or the bitmap is
        as it was, bit for bit.  A request for no block fails. */
    method RamAllocBlocks(unit: nat, n: int, pa: array<word>) returns (ret: int)
      requires bdy.Valid() && bdy.n <= MAX_FRAMES && unit < NLEVELS
      requires pa.Length >= n && Separate(pa)
      modifies bdy.store, pa
      ensures bdy.Valid()
      ensures ret == 0 || ret == -1
      ensures ret == 0 <==> 0 < n <= |FreeList(bdy.n, old(bdy.Frames()), unit, 0)|
      ensures ret == 0 ==> forall k :: 0 <= k < n ==>
                pa[k] == Address(unit, FreeList(bdy.n, old(bdy.Frames()), unit, 0)[k])
      ensures ret == 0 ==> bdy.Frames() == Take(bdy.n, old(bdy.Frames()), unit, n)
      ensures ret == -1 ==> bdy.Bits() == old(bdy.Bits())
    {
      hide FreeList, Consistent;
      ghost var busy0, bits0 := bdy.Frames(), bdy.Bits();
      var taken;
      ret, taken := TakeBlocks(unit, n, pa);
      if ret == 0 {
        ToAddresses(unit, n, pa, FreeList(bdy.n, busy0, unit, 0));
      } else {
        Rollback(unit, taken, pa, busy0, bits0);
      }
    }

    /** Takes the lowest free block: entry i of the free list, if the entries before it are taken. */
    method TakeNext(unit: nat, ghost busy0: set<nat>, ghost i: nat) returns (ret: int, pos: nat)
      requires bdy.Valid() && bdy.n <= MAX_FRAMES && unit < NLEVELS
      requires i <= |FreeList(bdy.n, busy0, unit, 0)| && bdy.Frames() == Take(bdy.n, busy0, unit, i)
      modifies bdy.store
      ensures bdy.Valid()
      ensures ret == 0 || (ret == -1 && i == |FreeList(bdy.n, busy0, unit, 0)| && bdy.Frames() == old(bdy.Frames()))
      ensures ret == 0 ==> i < |FreeList(bdy.n, busy0, unit, 0)| && pos == FreeList(bdy.n, busy0, unit, 0)[i]
      ensures ret == 0 ==> pos < Width(bdy.n, unit) && pos < MAX_FRAMES
      ensures ret == 0 ==> bdy.Frames() == Take(bdy.n, busy0, unit, i + 1)
      ensures bdy.Bits()[Until(bdy.n, NLEVELS)..] == old(bdy.Bits())[Until(bdy.n, NLEVELS)..]
    {
      hide FreeList, Take, Consistent, Width, Until;
      ret, pos := bdy.Alloc(unit);
      NextFit(bdy.n, busy0, unit, i, if ret == 0 then pos else Width(bdy.n, unit));
      if ret == 0 {
        AddressFits(bdy.n, unit, pos);
      }
    }

    /** Takes free blocks until n are taken or none is left; pa receives their positions. */
    method TakeBlocks(unit: nat, n: int, pa: array<word>) returns (ret: int, i: nat)
      requires bdy.Valid() && bdy.n <= MAX_FRAMES && unit < NLEVELS
      requires pa.Length >= n && Separate(pa)
      modifies bdy.store, pa
      ensures bdy.Valid()
      ensures i <= |FreeList(bdy.n, old(bdy.Frames()), unit, 0)|
      ensures if ret == 0 then 0 < i == n
              else ret == -1 && (n <= i == 0 || i == |FreeList(bdy.n, old(bdy.Frames()), unit, 0)| < n)
      ensures i <= pa.Length && forall k :: 0 <= k < i ==>
                pa[k] == FreeList(bdy.n, old(bdy.Frames()), unit, 0)[k] < Width(bdy.n, unit)
      ensures bdy.Frames() == Take(bdy.n, old(bdy.Frames()), unit, i)
      ensures bdy.Bits()[Until(bdy.n, NLEVELS)..] == old(bdy.Bits())[Until(bdy.n, NLEVELS)..]
    {
      hide FreeList, Consistent, Width, Until, Bitmap.Valid, Bitmap.Shaped, Block, Bitmap.Frames, Unpack;
      ghost var busy0, bits0 := bdy.Frames(), bdy.Bits();
      ghost var free := FreeList(bdy.n, busy0, unit, 0);
      ret, i := -1, 0;
      while i < n
        invariant (i <= n || i == 0) && i <= |free|
        invariant bdy.Valid() && bdy.Frames() == Take(bdy.n, busy0, unit, i)
        invariant bdy.Bits()[Until(bdy.n, NLEVELS)..] == bits0[Until(bdy.n, NLEVELS)..]
        invariant forall k :: 0 <= k < i ==> pa[k] == free[k] < Width(bdy.n, unit)
        invariant ret == (if i == 0 then -1 else 0)
      {
        var pos;
        ret, pos := TakeNext(unit, busy0, i);
        if ret != 0 {
          break;
        }
        pa[i] := pos;
        i := i + 1;
      }
    }

    /** Positions to physical addresses. */
    method ToAddresses(unit: nat, n: nat, pa: array<word>, ghost ps: seq<nat>)
      requires bdy.n <= MAX_FRAMES && n <= pa.Length && n <= |ps|
      requires forall k :: 0 <= k < n ==> pa[k] == ps[k] < Width(bdy.n, unit)
      modifies pa
      ensures forall k :: 0 <= k < n ==> pa[k] == Address(unit, ps[k])
    {
      var i := 0;
      while i < n
        invariant 0 <= i <= n
        invariant forall k :: 0 <= k < i ==> pa[k] == Address(unit, ps[k])
        invariant forall k :: i <= k < n ==> pa[k] == ps[k]
      {
        AddressFits(bdy.n, unit, ps[i]);
        ShlMul(ps[i], unit);
        pa[i] := Shl(pa[i], unit);
        ShlMul(pa[i], 12);
        pa[i] := Shl(pa[i], 12);
        i := i + 1;
      }
    }

    /** Gives back the first n blocks of the free list that was current when busy0 was. */
    method Rollback(unit: nat, n: nat, pa: array<word>, ghost busy0: set<nat>, ghost bits0: Bits)
      requires bdy.Valid() && unit < NLEVELS && pa.Length >= n && Separate(pa)
      requires n <= |FreeList(bdy.n, busy0, unit, 0)| && bdy.Frames() == Take(bdy.n, busy0, unit, n)
      requires forall k :: 0 <= k < n ==> pa[k] == FreeList(bdy.n, busy0, unit, 0)[k]
      requires Fits(bdy.n, bits0) && Consistent(bdy.n, bits0) && Busy(bdy.n, bits0) == busy0
      requires |bits0| == |bdy.Bits()|
      requires bdy.Bits()[Until(bdy.n, NLEVELS)..] == bits0[Until(bdy.n, NLEVELS)..]
      modifies bdy.store
      ensures bdy.Valid() && bdy.Bits() == bits0
    {
      hide FreeList, Consistent;
      var i := n;
      while i > 0
        invariant 0 <= i <= n
        invariant bdy.Valid() && bdy.Frames() == Take(bdy.n, busy0, unit, i)
        invariant bdy.Bits()[Until(bdy.n, NLEVELS)..] == bits0[Until(bdy.n, NLEVELS)..]
      {
        i := i - 1;
        TakeBack(bdy.n, busy0, unit, i);
        FreeListValid(bdy.n, busy0, unit);
        var r := bdy.Free(unit, pa[i]);
      }
      DeterminedByFrames(bdy.n, bdy.Bits(), bits0);
    }

    /** Reserves the first 8MB and one more 1MB block for the page records. */
    method ReserveBoot(pa: array<word>) returns (ret: int)
      requires Valid() && live == map[] && reserved == {} && bdy.n >= 2048
      requires pa.Length >= 4 && Separate(pa)
      modifies this`reserved, bdy.store, pa
      ensures Valid()
      ensures ret == 0 <==> bdy.n > 2048
      ensures ret == 0 ==> pa[0] == 8 * 1024 * 1024
      ensures reserved == Pieces(9, [0, 1, 2, 3]) + if ret == 0 then {Piece(8, 8)} else {}
      ensures forall f: nat :: f in bdy.Frames() <==> f < bdy.n && f < (if ret == 0 then 2304 else 2048)
    {
      hide FreeList, Take, Block, BlockFree, Owns, StampedAll, Pieces, Consistent, Bitmap.Valid, Bitmap.Shaped,
        Bitmap.Bits, Busy, Width, Until, Unpack, Pow2, Address;
      ReserveFirst(pa);
      BootReservation(bdy.n);
      BootFrames(bdy.n);
      BootOwns(bdy.n);
      BootAddresses();
      ret := RamAllocBlocks(8, 1, pa);
      if ret == 0 {
        reserved := reserved + {Piece(8, 8)};
      }
      assert live.Keys + reserved == reserved;
    }

    method ReserveFirst(pa: array<word>)
      requires Valid() && live == map[] && reserved == {} && bdy.n >= 2048
      requires pa.Length >= 4 && Separate(pa)
      modifies this`reserved, bdy.store, pa
      ensures Valid() && reserved == Pieces(9, [0, 1, 2, 3])
      ensures |FreeList(bdy.n, {}, 9, 0)| >= 4 && bdy.Frames() == Take(bdy.n, {}, 9, 4)
      ensures forall i :: 0 <= i < 4 ==> pa[i] == i * 2 * 1024 * 1024
    {
      hide FreeList, Take, Block, BlockFree, Owns, StampedAll, Pieces, Consistent, Bitmap.Valid, Bitmap.Shaped,
        Bitmap.Frames, Bitmap.Bits, Busy, Width, Until, Unpack, Pow2, Address;
      assert live.Keys + reserved == {};
      NothingOwned(bdy.n, bdy.Frames(), {});
      FirstAddresses(bdy.n);
      BootOwns(bdy.n);
      var ret := RamAllocBlocks(9, 4, pa);
      assert ret == 0;
      reserved := Pieces(9, [0, 1, 2, 3]);
      assert live.Keys + reserved == reserved;
    }

    lemma BlockRange(unit: nat, pos: nat, t: nat)
      requires t == pos * Pow2(unit)
      ensures forall x: nat :: Shr(x, unit) == pos <==> t <= x < t + Pow2(unit)
    {
      forall x: nat ensures Shr(x, unit) == pos <==> t <= x < t + Pow2(unit) {
        ShrInterval(x, unit, pos);
        assert (pos + 1) * Pow2(unit) == t + Pow2(unit);
      }
    }

    /** Writes one record over a whole block. */
    method Stamp(unit: nat, pos: nat, pg: Page)
      requires unit < NLEVELS && pos < Width(bdy.n, unit) && bdy.n <= MAX_FRAMES
      requires ramMap.Length >= MAX_FRAMES + 4096
      modifies ramMap
      ensures forall x: nat :: x < ramMap.Length ==>
                ramMap[x] == if Shr(x, unit) == pos then pg else old(ramMap[x])
    {
      var t := pos * Pow2(unit);
      BlockInMap(bdy.n, unit, pos);
      var j := 0;
      while j < Pow2(unit)
        invariant 0 <= j <= Pow2(unit)
        invariant forall x: nat :: x < ramMap.Length ==>
                    ramMap[x] == if t <= x < t + j then pg else old(ramMap[x])
      {
        ramMap[t + j] := pg;
        j := j + 1;
      }
      BlockRange(unit, pos, t);
      hide Shr, Pow2;
    }

    /** Allocates n blocks of a unit for one use: the n lowest free ones, all recorded as live. */
    method RamAlloc(unit: nat, use: Usage, n: int, pa: array<word>) returns (ret: int)
      requires Valid() && unit < NLEVELS && pa.Length >= n && Separate(pa)
      modifies this`live, bdy.store, ramMap, pa
      ensures Valid()
      ensures ret == 0 <==> 0 < n <= |FreeList(bdy.n, old(bdy.Frames()), unit, 0)|
      ensures ret == 0 ==>
                var ps := FreeList(bdy.n, old(bdy.Frames()), unit, 0)[..n];
                && (forall k :: 0 <= k < n ==> pa[k] == Address(unit, ps[k]))
                && live == Record(old(live), unit, ps, use)
                && forall x: nat :: x < ramMap.Length ==>
                     ramMap[x] == if Shr(x, unit) in ps then Page(unit, use, if use == Normal then 1 else 0)
                     else old(ramMap[x])
      // After boot, everything handed out lies above the first 9MB.
      ensures ret == 0 && reserved == BootPieces() ==> forall k :: 0 <= k < n ==> pa[k] >= 9 * 1024 * 1024
      ensures ret != 0 ==> live == old(live) && bdy.Bits() == old(bdy.Bits()) && ramMap[..] == old(ramMap[..])
    {
      hide FreeList, Take, Consistent, Owns, StampedAll, Busy, Pieces, Width, Until;
      ghost var busy0, live0, map0 := bdy.Frames(), live, ramMap[..];
      ret := RamAllocBlocks(unit, n, pa);
      if ret != 0 {
        return;
      }
      ghost var ps := FreeList(bdy.n, busy0, unit, 0)[..n];
      TakeOwns(bdy.n, busy0, live.Keys + reserved, unit, n);
      var pg := Page(unit, use, if use == Normal then 1 else 0);
      FreeListValid(bdy.n, busy0, unit);
      StampAll(unit, n, pa, pg, ps);
      live := Record(live0, unit, ps, use);
      assert live0.Keys + reserved + Pieces(unit, ps) == live.Keys + reserved;
      StampsKept(bdy.n, bdy.Frames(), live.Keys + reserved, live0, live, unit, use, ps, map0, ramMap[..], pg);
      if reserved == BootPieces() {
        forall k | 0 <= k < n ensures pa[k] >= 9 * 1024 * 1024 {
          AddressAboveBoot(bdy.n, bdy.Frames(), live.Keys + reserved, Piece(unit, ps[k]));
        }
      }
    }

    /** Writes one record over all the blocks whose addresses are given. */
    method StampAll(unit: nat, n: nat, pa: array<word>, pg: Page, ghost ps: seq<nat>)
      requires unit < NLEVELS && bdy.n <= MAX_FRAMES && ramMap.Length >= MAX_FRAMES + 4096
      requires |ps| == n <= pa.Length
      requires forall k :: 0 <= k < n ==> ps[k] < Width(bdy.n, unit) && pa[k] == Address(unit, ps[k])
      modifies ramMap
      ensures forall x: nat :: x < ramMap.Length ==>
                ramMap[x] == if Shr(x, unit) in ps then pg else old(ramMap[x])
    {
      var i := 0;
      while i < n
        invariant 0 <= i <= n
        invariant forall x: nat :: x < ramMap.Length ==>
                    ramMap[x] == if Shr(x, unit) in ps[..i] then pg else old(ramMap[x])
      {
        FrameOfAddress(unit, ps[i]);
        Stamp(unit, Shr(Shr(pa[i], 12), unit), pg);
        assert ps[..i + 1] == ps[..i] + [ps[i]];
        i := i + 1;
      }
      assert ps[..n] == ps;
    }

    /** Frees blocks that are live for this unit and use.  The asserted checks on the address, the
        unit, the use and the reference count never fail. */
    method RamFree(unit: nat, use: Usage, n: nat, pa: array<word>, ghost ps: seq<nat>) returns (ret: int)
      requires Valid() && unit < NLEVELS && |ps| == n <= pa.Length && Separate(pa)
      requires forall k :: 0 <= k < n ==> pa[k] == Address(unit, ps[k])
      requires forall j, k :: 0 <= j < k < n ==> ps[j] != ps[k]
      requires forall k :: 0 <= k < n ==> Piece(unit, ps[k]) in live && live[Piece(unit, ps[k])] == use
      modifies this`live, bdy.store, ramMap
      ensures Valid() && ret == 0
      ensures live == old(live) - Pieces(unit, ps)
      ensures forall x: nat :: x < ramMap.Length ==>
                ramMap[x] == if Shr(x, unit) in ps then old(ramMap[x]).(ref := 0) else old(ramMap[x])
    {
      hide Pieces, Owns, Consistent, StampedAll, Busy, Shr;
      var i := 0;
      while i < n
        invariant 0 <= i <= n
        invariant Valid() && live == old(live) - Pieces(unit, ps[..i])
        invariant forall k :: 0 <= k < n ==> pa[k] == Address(unit, ps[k])
        invariant forall x: nat :: x < ramMap.Length ==>
                    ramMap[x] == if Shr(x, unit) in ps[..i] then old(ramMap[x]).(ref := 0) else old(ramMap[x])
      {
        StillLive(old(live), unit, ps, i);
        FreeOne(unit, use, pa[i], ps[i]);
        assert ps[..i + 1] == ps[..i] + [ps[i]];
        i := i + 1;
      }
      assert ps[..n] == ps;
      return 0;
    }

    /** The checks that precede the release of a block: every record agrees with the request. */
    method CheckRecords(unit: nat, use: Usage, p: nat, ghost pos: nat)
      requires p == pos * Pow2(unit) && p + Pow2(unit) <= ramMap.Length
      requires forall x: nat | Shr(x, unit) == pos && x < ramMap.Length :: Stamped(ramMap[x], unit, use)
    {
      var j := 0;
      while j < Pow2(unit)
        invariant 0 <= j <= Pow2(unit)
      {
        ShrInterval(p + j, unit, pos);
        assert (pos + 1) * Pow2(unit) == p + Pow2(unit);
        assert ramMap[p + j].unit == unit;
        assert ramMap[p + j].use == use;
        assert use == Normal ==> ramMap[p + j].ref == 1;
        j := j + 1;
      }
    }

    method DropRefs(unit: nat, p: nat, ghost pos: nat)
      requires p == pos * Pow2(unit) && p + Pow2(unit) <= ramMap.Length
      modifies ramMap
      ensures forall x: nat :: x < ramMap.Length ==>
                ramMap[x] == if Shr(x, unit) == pos then old(ramMap[x]).(ref := 0) else old(ramMap[x])
    {
      var j := 0;
      while j < Pow2(unit)
        invariant 0 <= j <= Pow2(unit)
        invariant forall x: nat :: x < ramMap.Length ==>
                    ramMap[x] == if p <= x < p + j then old(ramMap[x]).(ref := 0) else old(ramMap[x])
      {
        ramMap[p + j] := ramMap[p + j].(ref := 0);
        j := j + 1;
      }
      BlockRange(unit, pos, p);
      hide Shr, Pow2;
    }

    method FreeOne(unit: nat, use: Usage, addr: word, ghost pos: nat)
      requires Valid() && unit < NLEVELS && addr == Address(unit, pos)
      requires Piece(unit, pos) in live && live[Piece(unit, pos)] == use
      modifies this`live, bdy.store, ramMap
      ensures Valid() && live == old(live) - {Piece(unit, pos)}
      ensures forall x: nat :: x < ramMap.Length ==>
                ramMap[x] == if Shr(x, unit) == pos then old(ramMap[x]).(ref := 0) else old(ramMap[x])
    {
      hide Consistent, Busy, Bitmap.Valid, Bitmap.Shaped, Width, Until, StampedAll, Pow2, And, Shr;
      ghost var piece := Piece(unit, pos);
      var p := Shr(addr, 12);
      FrameOfAddress(unit, pos);
      LivePiece(bdy.n, bdy.Frames(), live.Keys + reserved, live, ramMap[..], piece);
      assert And(p, Mask(unit)) == 0;
      CheckRecords(unit, use, p, pos);
      OwnFree(bdy.n, bdy.Frames(), live.Keys + reserved, piece);
      var r := bdy.Free(unit, Shr(p, unit));
      assert r == 0;
      DropRefs(unit, p, pos);
      StampsOfOthers(bdy.n, old(bdy.Frames()), live.Keys + reserved, live, piece, old(ramMap[..]), ramMap[..]);
      live := live - {piece};
      assert old(live.Keys) + reserved - {piece} == live.Keys + reserved;
    }
  }

  /** The blocks reserved at boot. */
  function BootPieces(): set<Piece> {
    Pieces(9, [0, 1, 2, 3]) + {Piece(8, 8)}
  }

  lemma BootAddresses()
    ensures forall i :: 0 <= i < 4 ==> Address(9, i) == i * 2 * 1024 * 1024
    ensures Address(8, 8) == 8 * 1024 * 1024
  {
    assert Pow2(9) == 512 && Pow2(8) == 256;
  }

  lemma FirstAddresses(n: nat)
    requires n >= 2048
    ensures |FreeList(n, {}, 9, 0)| >= 4
    ensures forall i :: 0 <= i < 4 ==> Address(9, FreeList(n, {}, 9, 0)[i]) == i * 2 * 1024 * 1024
  {
    hide FreeList, Take, Block, Width, Address;
    BootReservation(n);
    BootAddresses();
    var first := FreeList(n, {}, 9, 0);
    assert first[..4][0] == 0 && first[..4][1] == 1 && first[..4][2] == 2 && first[..4][3] == 3;
  }

  lemma NothingOwned(n: nat, busy: set<nat>, owned: set<Piece>)
    requires Owns(n, busy, owned)
    ensures owned == {} ==> busy == {}
  {
  }

  /** The reservations at boot own exactly the frames they make busy. */
  lemma BootOwns(n: nat)
    requires n >= 2048
    ensures |FreeList(n, {}, 9, 0)| >= 4
    ensures Owns(n, Take(n, {}, 9, 4), Pieces(9, [0, 1, 2, 3]))
    ensures |FreeList(n, Take(n, {}, 9, 4), 8, 0)| >= 1 ==> Owns(n, Take(n, Take(n, {}, 9, 4), 8, 1), BootPieces())
  {
    hide FreeList, Take, Block;
    BootReservation(n);
    assert Owns(n, {}, {});
    hide Owns;
    TakeOwns(n, {}, {}, 9, 4);
    var busy := Take(n, {}, 9, 4);
    var rest := FreeList(n, busy, 8, 0);
    assert {} + Pieces(9, [0, 1, 2, 3]) == Pieces(9, [0, 1, 2, 3]);
    if |rest| >= 1 {
      TakeOwns(n, busy, Pieces(9, [0, 1, 2, 3]), 8, 1);
      assert rest[..1] == [8];
      assert Pieces(8, [8]) == {Piece(8, 8)};
    }
  }

  /** Next to the blocks reserved at boot, a block lies wholly above the first 2304 frames. */
  lemma AboveBoot(n: nat, busy: set<nat>, owned: set<Piece>, p: Piece, x: nat)
    requires Owns(n, busy, owned) && BootPieces() <= owned && p in owned && p !in BootPieces() && p.Covers(x)
    ensures x >= 2304
  {
    if x < 2304 {
      var q := if x < 2048 then Piece(9, x / 512) else Piece(8, 8);
      assert Pow2(9) == 512 && Pow2(8) == 256;
      ShrInterval(x, 9, x / 512);
      ShrInterval(x, 8, 8);
      assert x < 2048 ==> x / 512 in [0, 1, 2, 3];
      assert q in BootPieces();
      hide Pieces, Shr, Pow2, Block;
      FullRangesDisjoint(n, p, q, x);
    }
  }

  lemma AddressAboveBoot(n: nat, busy: set<nat>, owned: set<Piece>, p: Piece)
    requires Owns(n, busy, owned) && BootPieces() <= owned && p in owned && p !in BootPieces()
    ensures Address(p.level, p.pos) >= 9 * 1024 * 1024
  {
    ShrOfMultiple(p.pos, p.level);
    AboveBoot(n, busy, owned, p, p.pos * Pow2(p.level));
  }

  /** The free pages after boot are those from 9MB on, in order. */
  lemma PagesAfterBoot(n: nat, busy: set<nat>)
    requires forall f: nat :: f in busy <==> f < n && f < 2304
    ensures var s := FreeList(n, busy, 0, 0);
            && |s| == (if n > 2304 then n - 2304 else 0)
            && forall k: nat :: k < |s| ==> s[k] == 2304 + k && Address(0, s[k]) == 0x90_0000 + k * 4096
  {
    hide FreeList, Block, BlockFree, Width;
    var t: seq<nat> := seq(if n > 2304 then n - 2304 else 0, k => 2304 + k);
    FreeListContents(n, busy, 0);
    FreeListAscends(n, busy, 0, FreeList(n, busy, 0, 0));
    forall x: nat ensures x < Width(n, 0) && BlockFree(n, busy, 0, x) <==> x in t {
      SinglePage(n, busy, x);
      if 2304 <= x < n {
        assert t[x - 2304] == x;
      }
    }
    AscendingUnique(FreeList(n, busy, 0, 0), t);
  }

  lemma SinglePage(n: nat, busy: set<nat>, x: nat)
    ensures x < Width(n, 0) && BlockFree(n, busy, 0, x) <==> x < n && x !in busy
  {
  }

  /** The memory after boot: up to 128MB of it are managed, the first 9MB are busy and the rest is free, so that
      page k handed out is that at 9MB + 4KB * k.  Fails iff there is nothing beyond the first 8MB. */
  method PmInit(ramsz: nat, pa: array<word>) returns (m: PhysMem, ret: int)
    requires ramsz >= 8 * 1024 * 1024 && pa.Length >= 4
    modifies pa
    ensures m.Valid() && m.live == map[]
    ensures fresh(m) && fresh(m.bdy) && fresh(m.bdy.nbits) && fresh(m.bdy.nbitsUntil) && fresh(m.bdy.store)
    ensures fresh(m.ramMap)
    ensures m.bdy.n == (if ramsz > 128 * 1024 * 1024 then 32768 else ramsz / 4096)
    ensures ret == 0 <==> ramsz >= 8 * 1024 * 1024 + 4096
    ensures ret == 0 ==> m.reserved == BootPieces()
    ensures forall f: nat :: f in m.bdy.Frames() <==> f < m.bdy.n && f < (if ret == 0 then 2304 else 2048)
    ensures ret == 0 ==>
              var s := FreeList(m.bdy.n, m.bdy.Frames(), 0, 0);
              && |s| == (if m.bdy.n > 2304 then m.bdy.n - 2304 else 0)
              && forall k: nat :: k < |s| ==> Address(0, s[k]) == 0x90_0000 + k * 4096
  {
    hide FreeList, Address, Pow2, Owns, StampedAll, Busy, Bitmap.Bits, Pieces, Bitmap.Valid, Bitmap.Shaped, Width,
      Until;
    m := new PhysMem(ramsz);
    ret := m.ReserveBoot(pa);
    if ret == 0 {
      PagesAfterBoot(m.bdy.n, m.bdy.Frames());
    }
  }

  lemma BlockInMap(n: nat, unit: nat, pos: nat)
    requires n <= MAX_FRAMES && unit < NLEVELS && pos < Width(n, unit)
    ensures pos * Pow2(unit) + Pow2(unit) <= MAX_FRAMES + 4096
  {
    FirstFrameExists(n, unit, pos);
    Pow2Add(unit, 12 - unit);
    assert Pow2(12) == 4096;
    assert Pow2(unit) <= 4096 by {
      assert Pow2(unit) * (Pow2(12 - unit) - 1) >= 0;
    }
  }

  lemma FrameOfAddress(unit: nat, pos: nat)
    ensures Shr(Address(unit, pos), 12) == pos * Pow2(unit)
    ensures Shr(pos * Pow2(unit), unit) == pos
    ensures And(pos * Pow2(unit), Mask(unit)) == 0
  {
    LowPart(pos * Pow2(unit), unit);
    assert Pow2(12) == 4096;
    ShrOfMultiple(pos * Pow2(unit), 12);
    ShrOfMultiple(pos, unit);
  }

  lemma Regroup(p: nat, s: nat)
    ensures p * s * 4096 == p * (s * 4096)
  {
  }

  lemma AddressOrder(unit: nat, p: nat, q: nat)
    requires p < q
    ensures Address(unit, p) % (Pow2(unit) * 4096) == 0
    ensures Address(unit, p) + Pow2(unit) * 4096 <= Address(unit, q)
  {
    hide Pow2;
    MultipleGap(p, q, Pow2(unit) * 4096);
    DivModUnique(p * (Pow2(unit) * 4096), Pow2(unit) * 4096, p, 0);
    Regroup(p, Pow2(unit));
    Regroup(q, Pow2(unit));
  }

  lemma InPrefix(s: seq<nat>, j: nat, q: nat)
    requires j < |s| && q in s && q < s[j]
    requires forall i, k :: 0 <= i < k < |s| ==> s[i] < s[k]
    ensures q in s[..j]
  {
    var k :| 0 <= k < |s| && s[k] == q;
    assert s[..j][k] == q;
  }

  lemma NonePassedOver(n: nat, busy: set<nat>, unit: nat, j: nat)
    requires j < |FreeList(n, busy, unit, 0)|
    ensures var s := FreeList(n, busy, unit, 0);
            forall q: nat :: q < s[j] && q < Width(n, unit) && BlockFree(n, busy, unit, q) ==> q in s[..j]
  {
    hide Block, BlockFree, Width, FreeList;
    FreeListContents(n, busy, unit);
    var s := FreeList(n, busy, unit, 0);
    forall q: nat | q < s[j] && q < Width(n, unit) && BlockFree(n, busy, unit, q) ensures q in s[..j] {
      InPrefix(s, j, q);
    }
  }

  /** What a successful allocation hands out: strictly ascending, naturally aligned, disjoint ranges of
      addresses, all of whose frames were free; and no free block was passed over. */
  lemma AddressesOfFree(n: nat, busy: set<nat>, unit: nat, i: nat, j: nat)
    requires i < j < |FreeList(n, busy, unit, 0)|
    ensures var s := FreeList(n, busy, unit, 0);
            && Address(unit, s[i]) % (Pow2(unit) * 4096) == 0
            && Address(unit, s[i]) + Pow2(unit) * 4096 <= Address(unit, s[j])
            && BlockFree(n, busy, unit, s[i])
            && forall q: nat :: q < s[j] && q < Width(n, unit) && BlockFree(n, busy, unit, q) ==> q in s[..j]
  {
    hide Block, BlockFree, Width, Address, Pow2, FreeList;
    FreeListContents(n, busy, unit);
    NonePassedOver(n, busy, unit, j);
    var s := FreeList(n, busy, unit, 0);
    var p, q := s[i], s[j];
    assert p < q;
    AddressOrder(unit, p, q);
  }

  /** The live pieces once the pieces at ps are taken for one use. */
  ghost function Record(live: map<Piece, Usage>, unit: nat, ps: seq<nat>, use: Usage): (r: map<Piece, Usage>)
    ensures r.Keys == live.Keys + Pieces(unit, ps)
  {
    live + map p | p in Pieces(unit, ps) :: use
  }

  /** Every record of a live piece says so. */
  ghost predicate StampedAll(live: map<Piece, Usage>, m: seq<Page>) {
    forall p, x: nat {:trigger p.Covers(x)} | p in live && p.Covers(x) && x < |m| :: Stamped(m[x], p.level, live[p])
  }

  lemma StampsKept(n: nat, busy: set<nat>, owned: set<Piece>, live0: map<Piece, Usage>, live: map<Piece, Usage>,
                   unit: nat, use: Usage, ps: seq<nat>, m0: seq<Page>, m: seq<Page>, pg: Page)
    requires |m| == |m0| && StampedAll(live0, m0) && Stamped(pg, unit, use)
    requires live == Record(live0, unit, ps, use)
    requires live0.Keys !! Pieces(unit, ps)
    requires Owns(n, busy, owned) && live.Keys <= owned
    requires forall x: nat :: x < |m| ==> m[x] == if Shr(x, unit) in ps then pg else m0[x]
    ensures StampedAll(live, m)
  {
    forall p, x: nat {:trigger p.Covers(x)} | p in live && p.Covers(x) && x < |m|
      ensures Stamped(m[x], p.level, live[p])
    {
      if p in live0 && Shr(x, unit) in ps {
        var q := Piece(unit, Shr(x, unit));
        assert q in live.Keys;
        FullRangesDisjoint(n, p, q, x);
        assert false;
      }
    }
  }

  /** Writing over the frames of one live piece leaves the records of the others. */
  lemma StampsOfOthers(n: nat, busy: set<nat>, owned: set<Piece>, live: map<Piece, Usage>, gone: Piece,
                       m0: seq<Page>, m: seq<Page>)
    requires |m| == |m0| && StampedAll(live, m0) && Owns(n, busy, owned) && live.Keys <= owned && gone in live
    requires forall x: nat :: x < |m| && !gone.Covers(x) ==> m[x] == m0[x]
    ensures StampedAll(live - {gone}, m)
  {
    forall p, x: nat {:trigger p.Covers(x)} | p in live - {gone} && p.Covers(x) && x < |m|
      ensures Stamped(m[x], p.level, live[p])
    {
      FullRangesDisjoint(n, p, gone, x);
    }
  }

  lemma LivePiece(n: nat, busy: set<nat>, owned: set<Piece>, live: map<Piece, Usage>, m: seq<Page>, p: Piece)
    requires n <= MAX_FRAMES && |m| >= MAX_FRAMES + 4096
    requires StampedAll(live, m) && Owns(n, busy, owned) && live.Keys <= owned && p in live
    ensures ValidPos(n, p.level, p.pos)
    ensures p.pos * Pow2(p.level) + Pow2(p.level) <= |m|
    ensures forall x: nat | Shr(x, p.level) == p.pos && x < |m| :: Stamped(m[x], p.level, live[p])
  {
    hide Pow2, Shr, Width;
    assert p.Exists(n);
    BlockInMap(n, p.level, p.pos);
    forall x: nat | Shr(x, p.level) == p.pos && x < |m| ensures Stamped(m[x], p.level, live[p]) {
      assert p.Covers(x);
    }
  }

  lemma StillLive(live: map<Piece, Usage>, unit: nat, ps: seq<nat>, i: nat)
    requires i < |ps| && forall j, k :: 0 <= j < k < |ps| ==> ps[j] != ps[k]
    requires Piece(unit, ps[i]) in live
    ensures Piece(unit, ps[i]) in live - Pieces(unit, ps[..i])
    ensures (live - Pieces(unit, ps[..i])) - {Piece(unit, ps[i])} == live - Pieces(unit, ps[..i + 1])
  {
    assert ps[..i + 1] == ps[..i] + [ps[i]];
    assert Pieces(unit, ps[..i + 1]) == Pieces(unit, ps[..i]) + {Piece(unit, ps[i])};
  }
}
