/** The hierarchical buddy bitmap, updated in place in an array of 32-bit limbs. */
module Buddy {
  import opened Shift
  import opened BuddySpec
  import opened Word

  // ---- Packed limbs ----

  /** The bit string held by a sequence of limbs. */
  ghost function Unpack(limbs: seq<word>): (b: Bits)
    ensures |b| == 32 * |limbs|
    ensures forall i: nat {:trigger b[i]} :: i < |b| ==> b[i] == Bit(limbs[i / 32], i % 32)
  {
    seq(32 * |limbs|, i requires 0 <= i < 32 * |limbs| => Bit(limbs[i / 32], i % 32))
  }

  lemma UnpackWrite(limbs: seq<word>, i: nat, w: word, v: bool)
    requires i < 32 * |limbs|
    requires forall k: nat :: Bit(w, k) == if k == i % 32 then v else Bit(limbs[i / 32], k)
    ensures Unpack(limbs[i / 32 := w]) == Unpack(limbs)[i := v]
  {
    var after := limbs[i / 32 := w];
    forall k: nat | k < 32 * |limbs| ensures Unpack(after)[k] == Unpack(limbs)[i := v][k] {
      if k / 32 == i / 32 {
        assert Bit(w, k % 32) == if k % 32 == i % 32 then v else Bit(limbs[i / 32], k % 32);
      }
    }
  }

  lemma ReadBit(limbs: seq<word>, i: nat)
    requires i < 32 * |limbs|
    ensures Unpack(limbs)[i] <==> And(limbs[i / 32], Pow2(i % 32)) != 0
  {
    TestBit(limbs[i / 32], i % 32);
  }

  lemma ZeroLimbs(limbs: seq<word>)
    requires forall i :: 0 <= i < |limbs| ==> limbs[i] == 0
    ensures forall i :: 0 <= i < 32 * |limbs| ==> !Unpack(limbs)[i]
  {
    forall i: nat | i < 32 * |limbs| ensures !Unpack(limbs)[i] {
      BitZero(i % 32);
    }
  }

  // ---- Sizing ----

  /** The bytes the bitmap needs: enough for every level, and at most two pages for 128MB of RAM. */
  method MapSize(frames: nat) returns (bytes: nat)
    ensures 8 * bytes >= Until(frames, NLEVELS) > 8 * bytes - 8
    ensures frames <= 32768 ==> bytes <= 2 * 4096
  {
    var n, t := frames, 0;
    for i := 0 to NLEVELS
      invariant n == Width(frames, i) && t == Until(frames, i)
    {
      t := t + n;
      if n % 2 == 1 {
        n := n + 1;
      }
      n := n / 2;
    }
    if frames <= 32768 {
      TwoPagesSuffice(frames);
    }
    bytes := (t + 7) / 8;
  }

  /** The width and the starting bit of every level. */
  method FillLevels(nbits: array<int>, nbitsUntil: array<int>, frames: nat)
    requires nbits.Length == NLEVELS && nbitsUntil.Length == NLEVELS && nbits != nbitsUntil
    modifies nbits, nbitsUntil
    ensures forall l: nat {:trigger nbits[l]} {:trigger nbitsUntil[l]} | l < NLEVELS ::
              nbits[l] == Width(frames, l) && nbitsUntil[l] == Until(frames, l)
  {
    var w, t := frames, 0;
    for i := 0 to NLEVELS
      invariant w == Width(frames, i) && t == Until(frames, i)
      invariant forall l: nat {:trigger nbits[l]} {:trigger nbitsUntil[l]} | l < i ::
                    nbits[l] == Width(frames, l) && nbitsUntil[l] == Until(frames, l)
    {
      nbits[i], nbitsUntil[i] := w, t;
      t := t + w;
      if w % 2 == 1 {
        w := w + 1;
      }
      w := w / 2;
    }
  }

  class Bitmap {
    const n: nat
    const nbits: array<int>
    const nbitsUntil: array<int>
    const store: array<word>

    /** The level tables and the storage are in place (the bits may be anything). */
    ghost predicate Shaped()
      reads this, nbits, nbitsUntil
      ensures Shaped() ==> Until(n, NLEVELS) <= 32 * store.Length
    {
      && nbits.Length == NLEVELS && nbitsUntil.Length == NLEVELS
      && (forall l: nat {:trigger nbits[l]} {:trigger nbitsUntil[l]} | l < NLEVELS ::
            nbits[l] == Width(n, l) && nbitsUntil[l] == Until(n, l))
      && Until(n, NLEVELS) <= 32 * store.Length
      && nbits != nbitsUntil
    }

    ghost function Bits(): (b: Bits)
      reads store
      ensures |b| == 32 * store.Length
    {
      Unpack(store[..])
    }

    ghost predicate Valid()
      reads this, nbits, nbitsUntil, store
      ensures Valid() ==> Shaped() && Consistent(n, Bits())
    {
      Shaped() && Consistent(n, Bits())
    }

    ghost function Frames(): set<nat>
      requires Shaped()
      reads this, nbits, nbitsUntil, store
    {
      Busy(n, Bits())
    }

    constructor (frames: nat)
      ensures Valid() && n == frames && Frames() == {}
      ensures fresh(nbits) && fresh(nbitsUntil) && fresh(store)
      ensures forall i :: 0 <= i < |Bits()| ==> !Bits()[i]
    {
      var bytes := MapSize(frames);
      var widths, untils := new int[NLEVELS], new int[NLEVELS];
      var limbs := new word[(bytes + 3) / 4](_ => 0);
      n, nbits, nbitsUntil, store := frames, widths, untils, limbs;
      new;
      FillLevels(nbits, nbitsUntil, frames);
      ZeroLimbs(store[..]);
      AllClear(n, Bits());
    }

    method IsSet(level: nat, pos: nat) returns (r: bool)
      requires Shaped() && ValidPos(n, level, pos)
      ensures r == At(n, Bits(), level, pos)
    {
      PackingInjective(n, level, pos, level, pos);
      var i := pos + nbitsUntil[level];
      assert i == Index(n, level, pos);
      ReadBit(store[..], i);
      r := And(store[i / 32], Pow2(i % 32)) != 0;
    }

    method Set(level: nat, pos: nat)
      requires Shaped() && ValidPos(n, level, pos)
      modifies store
      ensures Shaped()
      ensures Bits() == Write(n, old(Bits()), level, pos, true)
    {
      PackingInjective(n, level, pos, level, pos);
      var i := pos + nbitsUntil[level];
      SetBit(store[i / 32], i % 32);
      var w: word := Or(store[i / 32], Pow2(i % 32));
      UnpackWrite(store[..], i, w, true);
      ghost var was := store[..];
      store[i / 32] := w;
      assert store[..] == was[i / 32 := w];
    }

    method Clear(level: nat, pos: nat)
      requires Shaped() && ValidPos(n, level, pos)
      modifies store
      ensures Shaped()
      ensures Bits() == Write(n, old(Bits()), level, pos, false)
    {
      PackingInjective(n, level, pos, level, pos);
      var i := pos + nbitsUntil[level];
      ClearBits(store[i / 32], Pow2(i % 32));
      forall k: nat ensures Bit(Pow2(i % 32), k) == (k == i % 32) {
        BitPow2(i % 32, k);
      }
      var w: word := AndNot(store[i / 32], Pow2(i % 32));
      UnpackWrite(store[..], i, w, false);
      ghost var was := store[..];
      store[i / 32] := w;
      assert store[..] == was[i / 32 := w];
    }

    /** The lowest clear bit of a level, or the level's width if all are set. */
    method FindClear(level: nat) returns (pos: nat)
      requires Shaped() && level < NLEVELS
      ensures pos <= Width(n, level)
      ensures forall q: nat | q < pos :: At(n, Bits(), level, q)
      ensures pos < Width(n, level) ==> !At(n, Bits(), level, pos)
    {
      pos := 0;
      while pos < nbits[level]
        invariant 0 <= pos <= Width(n, level)
        invariant forall q: nat | q < pos :: At(n, Bits(), level, q)
      {
        var busy := IsSet(level, pos);
        if !busy {
          break;
        }
        pos := pos + 1;
      }
    }

    /** First fit: the lowest block of the level all of whose existing frames are free. */
    method Alloc(level: nat) returns (ret: int, out: nat)
      requires Valid() && level < NLEVELS
      modifies store
      ensures Valid()
      ensures ret == 0 || ret == -1
      ensures ret == 0 ==> Taken(n, old(Bits()), Bits(), level, out)
      ensures ret == 0 ==> out < Width(n, level) && BlockFree(n, old(Frames()), level, out)
      ensures ret == 0 ==> forall q: nat | q < out :: !BlockFree(n, old(Frames()), level, q)
      ensures ret == 0 ==> Frames() == old(Frames()) + Block(n, level, out)
      ensures ret == -1 ==> forall q: nat | q < Width(n, level) :: !BlockFree(n, old(Frames()), level, q)
      ensures ret == -1 ==> Bits() == old(Bits())
      ensures Bits()[Until(n, NLEVELS)..] == old(Bits())[Until(n, NLEVELS)..]
    {
      ghost var b0 := Bits();
      var pos := FindClear(level);
      ClearMeansFree(n, b0, level);
      if pos == nbits[level] {
        return -1, 0;
      }
      MarkAncestors(level, pos);
      WriteDescendants(level, pos, true);
      assert Marked(n, b0, Bits(), level, pos);
      MarkedConsistent(n, b0, Bits(), level, pos);
      return 0, pos;
    }

    /** Set the bit of (level, pos) and of all its ancestors. */
    method MarkAncestors(level: nat, pos: nat)
      requires Shaped() && ValidPos(n, level, pos)
      modifies store
      ensures Shaped()
      ensures Ascended(n, old(Bits()), Bits(), level, pos, NLEVELS)
      ensures Bits()[Until(n, NLEVELS)..] == old(Bits())[Until(n, NLEVELS)..]
    {
      ghost var b0 := Bits();
      var i, j := level, pos;
      while i < NLEVELS
        invariant level <= i <= NLEVELS && j == Shr(pos, i - level)
        invariant Shaped() && Ascended(n, b0, Bits(), level, pos, i)
        invariant Bits()[Until(n, NLEVELS)..] == b0[Until(n, NLEVELS)..]
      {
        RelatedChildExists(n, level, pos, i);
        WriteOne(n, Bits(), i, j, true);
        Set(i, j);
        ShrStep(pos, i - level);
        i, j := i + 1, j / 2;
      }
    }

    /** Write the existing positions `[j, j + count)` of one level. */
    method WriteRun(i: nat, j: nat, count: nat, v: bool) returns (k: nat)
      requires Shaped() && i < NLEVELS
      modifies store
      ensures Shaped()
      ensures k == count || (k <= count && j + k >= Width(n, i))
      ensures forall l: nat, p: nat | ValidPos(n, l, p) ::
                At(n, Bits(), l, p) == if l == i && j <= p < j + k then v else At(n, old(Bits()), l, p)
      ensures Bits()[Until(n, NLEVELS)..] == old(Bits())[Until(n, NLEVELS)..]
    {
      ghost var b0 := Bits();
      k := 0;
      while k < count
        invariant 0 <= k <= count && Shaped()
        invariant forall l: nat, p: nat | ValidPos(n, l, p) ::
                    At(n, Bits(), l, p) == if l == i && j <= p < j + k then v else At(n, b0, l, p)
        invariant Bits()[Until(n, NLEVELS)..] == b0[Until(n, NLEVELS)..]
      {
        if j + k >= nbits[i] {
          break;
        }
        WriteOne(n, Bits(), i, j + k, v);
        if v {
          Set(i, j + k);
        } else {
          Clear(i, j + k);
        }
        k := k + 1;
      }
    }

    /** Write the bits of all existing descendants of (level, pos). */
    method WriteDescendants(level: nat, pos: nat, v: bool)
      requires Shaped() && ValidPos(n, level, pos)
      modifies store
      ensures Shaped()
      ensures Descended(n, old(Bits()), Bits(), level, pos, 0, v)
      ensures Bits()[Until(n, NLEVELS)..] == old(Bits())[Until(n, NLEVELS)..]
    {
      ghost var b0 := Bits();
      var i, j := level, pos;
      while i > 0
        invariant 0 <= i <= level && j == pos * Pow2(level - i)
        invariant Shaped() && Descended(n, b0, Bits(), level, pos, i, v)
        invariant Bits()[Until(n, NLEVELS)..] == b0[Until(n, NLEVELS)..]
      {
        ghost var c := Bits();
        DoubleProduct(pos, Pow2(level - i));
        i, j := i - 1, 2 * j;
        var k := WriteRun(i, j, Pow2(level - i), v);
        DescendedLevel(n, b0, c, Bits(), level, pos, i, j, k, v);
      }
    }

    /** Clears one bit, and tells whether its sibling exists and is set. */
    method ClearOne(i: nat, j: nat) returns (siblingBusy: bool)
      requires Shaped() && ValidPos(n, i, j)
      modifies store
      ensures Shaped()
      ensures Bits() == Write(n, old(Bits()), i, j, false)
      ensures Bits()[Until(n, NLEVELS)..] == old(Bits())[Until(n, NLEVELS)..]
      ensures siblingBusy == (ValidPos(n, i, Sibling(j)) && At(n, old(Bits()), i, Sibling(j)))
    {
      WriteOne(n, Bits(), i, j, false);
      Clear(i, j);
      var s := if j % 2 == 1 then j - 1 else j + 1;
      siblingBusy := false;
      if s < nbits[i] {
        siblingBusy := IsSet(i, s);
      }
    }

    /** One level of the upward walk. */
    method ClearAncestor(level: nat, pos: nat, i: nat, j: nat, ghost b0: Bits) returns (stop: bool)
      requires Shaped() && ValidPos(n, level, pos)
      requires Fits(n, b0) && Consistent(n, b0)
      requires level <= i < NLEVELS && j == Shr(pos, i - level)
      requires Cleared(n, b0, Bits(), level, pos, i)
      modifies store
      ensures Shaped()
      ensures stop ==> Consistent(n, Bits()) && Frames() == Busy(n, b0) - Block(n, level, pos)
      ensures !stop ==> Cleared(n, b0, Bits(), level, pos, i + 1)
      ensures Bits()[Until(n, NLEVELS)..] == old(Bits())[Until(n, NLEVELS)..]
    {
      RelatedChildExists(n, level, pos, i);
      ghost var c := Bits();
      stop := ClearOne(i, j);
      if stop {
        ClearedStop(n, b0, c, level, pos, i);
      } else {
        ClearedClimb(n, b0, c, level, pos, i);
      }
    }

    /** Clears (level, pos) and its ancestors, up to the first one with a busy sibling. */
    method ClearAncestors(level: nat, pos: nat, ghost b0: Bits)
      requires Shaped() && ValidPos(n, level, pos)
      requires Fits(n, b0) && Consistent(n, b0)
      requires Cleared(n, b0, Bits(), level, pos, level)
      modifies store
      ensures Valid() && Frames() == Busy(n, b0) - Block(n, level, pos)
      ensures Bits()[Until(n, NLEVELS)..] == old(Bits())[Until(n, NLEVELS)..]
    {
      hide Cleared;
      var i, j := level, pos;
      while i < NLEVELS
        invariant level <= i <= NLEVELS && j == Shr(pos, i - level)
        invariant Shaped() && Cleared(n, b0, Bits(), level, pos, i)
        invariant Bits()[Until(n, NLEVELS)..] == old(Bits())[Until(n, NLEVELS)..]
      {
        var stop := ClearAncestor(level, pos, i, j, b0);
        if stop {
          return;
        }
        ShrStep(pos, i - level);
        i, j := i + 1, j / 2;
      }
      ClearedTop(n, b0, Bits(), level, pos);
    }

    /** Frees every frame of the block, whatever its frames were before. */
    method Free(level: nat, pos: nat) returns (ret: int)
      requires Valid() && ValidPos(n, level, pos)
      modifies store
      ensures Valid() && ret == 0
      ensures Released(n, old(Bits()), Bits(), level, pos)
      ensures Frames() == old(Frames()) - Block(n, level, pos)
      ensures Bits()[Until(n, NLEVELS)..] == old(Bits())[Until(n, NLEVELS)..]
    {
      ghost var b0 := Bits();
      WriteDescendants(level, pos, false);
      DescendantsCleared(n, b0, Bits(), level, pos);
      ClearAncestors(level, pos, b0);
      return 0;
    }
  }
}
