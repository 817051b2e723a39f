/** The shape and the meaning of the hierarchical buddy bitmap.

    Level 0 holds one bit per 4KB frame; every further level halves the number of bits,
    rounding up.  All levels are packed one after the other into a single bit string. */
module BuddySpec {
  import opened Shift

  const NLEVELS: nat := 13

  /** Number of bits at a level (`nbits`). */
  function Width(n: nat, level: nat): nat
    decreases level, n
  {
    if level == 0 then n else (Width(n, level - 1) + 1) / 2
  }

  /** Number of bits at all lower levels (`nbits_until`). */
  function Until(n: nat, level: nat): nat
    decreases level, n
  {
    if level == 0 then 0 else Until(n, level - 1) + Width(n, level - 1)
  }

  predicate ValidPos(n: nat, level: int, pos: int) {
    0 <= level < NLEVELS && 0 <= pos < Width(n, level)
  }

  function Index(n: nat, level: nat, pos: nat): nat {
    Until(n, level) + pos
  }

  type Bits = seq<bool>

  predicate Fits(n: nat, b: Bits) {
    Until(n, NLEVELS) <= |b|
  }

  predicate At(n: nat, b: Bits, level: nat, pos: nat)
    requires Fits(n, b) && ValidPos(n, level, pos)
  {
    UntilMonotone(n, level + 1, NLEVELS);
    b[Index(n, level, pos)]
  }

  /** The bitmap with the bit of (level, pos) replaced by v. */
  function Write(n: nat, b: Bits, level: nat, pos: nat, v: bool): (c: Bits)
    requires Fits(n, b) && ValidPos(n, level, pos)
    ensures |c| == |b|
  {
    UntilMonotone(n, level + 1, NLEVELS);
    b[Index(n, level, pos) := v]
  }

  // ---- Packing ----

  lemma {:induction false} UntilMonotone(n: nat, lo: nat, hi: nat)
    requires lo <= hi
    ensures Until(n, lo) <= Until(n, hi)
    decreases hi
  {
    if lo < hi {
      UntilMonotone(n, lo, hi - 1);
    }
  }

  /** Distinct valid (level, pos) pairs occupy distinct bits, all below the packed total. */
  lemma PackingInjective(n: nat, l1: nat, p1: nat, l2: nat, p2: nat)
    requires ValidPos(n, l1, p1) && ValidPos(n, l2, p2)
    ensures Index(n, l1, p1) < Until(n, NLEVELS)
    ensures Index(n, l1, p1) == Index(n, l2, p2) ==> l1 == l2 && p1 == p2
  {
    UntilMonotone(n, l1 + 1, NLEVELS);
    if l1 < l2 {
      UntilMonotone(n, l1 + 1, l2);
    } else if l2 < l1 {
      UntilMonotone(n, l2 + 1, l1);
    }
  }

  /** Writing the bit of one pair changes no other pair and nothing above the packed total. */
  lemma WriteOne(n: nat, b: Bits, level: nat, pos: nat, v: bool)
    requires Fits(n, b) && ValidPos(n, level, pos)
    ensures forall l: nat, p: nat | ValidPos(n, l, p) ::
              At(n, Write(n, b, level, pos, v), l, p) == if l == level && p == pos then v else At(n, b, l, p)
    ensures Write(n, b, level, pos, v)[Until(n, NLEVELS)..] == b[Until(n, NLEVELS)..]
  {
    PackingInjective(n, level, pos, level, pos);
    var c := Write(n, b, level, pos, v);
    forall l: nat, p: nat | ValidPos(n, l, p)
      ensures At(n, c, l, p) == if l == level && p == pos then v else At(n, b, l, p)
    {
      PackingInjective(n, level, pos, l, p);
      PackingInjective(n, l, p, l, p);
      assert At(n, c, l, p) == c[Index(n, l, p)] && At(n, b, l, p) == b[Index(n, l, p)];
    }
  }

  /** Every bit below the packed total belongs to some (level, pos) pair. */
  lemma {:induction false} PackingSurjective(n: nat, top: nat, i: nat) returns (level: nat, pos: nat)
    requires i < Until(n, top)
    ensures level < top && pos < Width(n, level) && Index(n, level, pos) == i
  {
    if i >= Until(n, top - 1) {
      level, pos := top - 1, i - Until(n, top - 1);
    } else {
      level, pos := PackingSurjective(n, top - 1, i);
    }
  }

  /** A larger memory never needs a smaller bitmap. */
  lemma {:induction false} UntilMonotoneInFrames(m: nat, n: nat, level: nat)
    requires m <= n
    ensures Width(m, level) <= Width(n, level) && Until(m, level) <= Until(n, level)
  {
    if level > 0 {
      UntilMonotoneInFrames(m, n, level - 1);
    }
  }

  /** When the number of frames is a multiple of `1 << level` no level rounds up. */
  lemma {:induction false} UntilExact(n: nat, m: nat, level: nat)
    requires n == m * Pow2(level)
    ensures Width(n, level) == m && Until(n, level) + 2 * m == 2 * n
    decreases level
  {
    if level > 0 {
      assert n == (2 * m) * Pow2(level - 1);
      UntilExact(n, 2 * m, level - 1);
    }
  }

  lemma PowerOfTwoBound(n: nat, cap: nat, m: nat, level: nat)
    requires n <= cap == m * Pow2(level)
    ensures Until(n, level) <= 2 * cap
  {
    UntilExact(cap, m, level);
    UntilMonotoneInFrames(n, cap, level);
  }

  /** 128MB of RAM (32768 frames) needs at most two pages (65536 bits) of bitmap. */
  lemma TwoPagesSuffice(n: nat)
    requires n <= 32768
    ensures Until(n, NLEVELS) <= 8 * 2 * 4096
  {
    assert Pow2(13) == 8192;
    PowerOfTwoBound(n, 32768, 4, 13);
  }

  // ---- Blocks of frames ----

  /** The existing frames that block (level, pos) covers. */
  function Block(n: nat, level: nat, pos: nat): (s: set<nat>)
    ensures forall f {:trigger f in s} :: f in s <==> 0 <= f < n && Shr(f, level) == pos
  {
    set f: nat | 0 <= f < n && Shr(f, level) == pos
  }

  /** No existing frame of the block is busy. */
  predicate BlockFree(n: nat, busy: set<nat>, level: nat, pos: nat) {
    Block(n, level, pos) !! busy
  }

  /** The block covers `[pos << level, (pos + 1) << level)`, cut off at the last existing frame;
      it is never empty, and it is full exactly when it ends at or below frame n. */
  lemma BlockExtent(n: nat, level: nat, pos: nat)
    requires pos < Width(n, level)
    ensures forall f: nat :: f in Block(n, level, pos) <==>
              pos * Pow2(level) <= f < (pos + 1) * Pow2(level) && f < n
    ensures pos * Pow2(level) in Block(n, level, pos)
  {
    forall f: nat ensures Shr(f, level) == pos <==> pos * Pow2(level) <= f < (pos + 1) * Pow2(level) {
      ShrInterval(f, level, pos);
    }
    FirstFrameExists(n, level, pos);
    assert (pos + 1) * Pow2(level) == pos * Pow2(level) + Pow2(level);
  }

  lemma {:induction false} FirstFrameExists(n: nat, level: nat, pos: nat)
    requires pos < Width(n, level)
    ensures pos * Pow2(level) < n
  {
    if level > 0 {
      assert 2 * pos < Width(n, level - 1);
      FirstFrameExists(n, level - 1, 2 * pos);
      assert pos * Pow2(level) == (2 * pos) * Pow2(level - 1);
    }
  }

  /** Every frame lies in an existing block at every level. */
  lemma {:induction false} FrameHasBlock(n: nat, f: nat, level: nat)
    requires f < n
    ensures Shr(f, level) < Width(n, level)
  {
    if level > 0 {
      FrameHasBlock(n, f, level - 1);
      ShrStep(f, level - 1);
    }
  }

  /** Block (l, p) overlaps block (level, pos): it is the block itself, an ancestor or a descendant. */
  predicate Related(level: nat, pos: nat, l: nat, p: nat) {
    if l >= level then p == Shr(pos, l - level) else Shr(p, level - l) == pos
  }

  // ---- The index invariant ----

  predicate HasRight(n: nat, level: nat, pos: nat) {
    2 * pos + 1 < Width(n, level)
  }

  /** The parent bit (level + 1, pos) is the OR of its existing children. */
  predicate ParentIsOr(n: nat, b: Bits, level: nat, pos: nat)
    requires Fits(n, b) && ValidPos(n, level + 1, pos)
  {
    At(n, b, level + 1, pos)
    == (At(n, b, level, 2 * pos) || (HasRight(n, level, pos) && At(n, b, level, 2 * pos + 1)))
  }

  ghost predicate Consistent(n: nat, b: Bits)
    requires Fits(n, b)
  {
    forall level: nat, pos: nat | ValidPos(n, level + 1, pos) :: ParentIsOr(n, b, level, pos)
  }

  /** The busy frames: the level 0 part of the bitmap. */
  function Busy(n: nat, b: Bits): (s: set<nat>)
    requires Fits(n, b)
    ensures forall f {:trigger f in s} :: f in s <==> 0 <= f < n && At(n, b, 0, f)
  {
    set f: nat | 0 <= f < n && At(n, b, 0, f)
  }

  /** Index exactness: in a consistent bitmap the bit at (level, pos) is set
      iff some existing frame of that block is busy. */
  lemma {:induction false} Exactness(n: nat, b: Bits, level: nat, pos: nat)
    requires Fits(n, b) && Consistent(n, b) && ValidPos(n, level, pos)
    ensures At(n, b, level, pos) <==> !BlockFree(n, Busy(n, b), level, pos)
  {
    if level == 0 {
      assert pos in Block(n, 0, pos);
      assert forall f :: f in Block(n, 0, pos) ==> f == pos;
      if At(n, b, 0, pos) {
        assert pos in Block(n, 0, pos) * Busy(n, b);
      }
    } else {
      var l := level - 1;
      assert ParentIsOr(n, b, l, pos);
      Exactness(n, b, l, 2 * pos);
      BlockSplit(n, l, pos);
      if HasRight(n, l, pos) {
        Exactness(n, b, l, 2 * pos + 1);
      }
    }
  }

  lemma ClearMeansFree(n: nat, b: Bits, level: nat)
    requires Fits(n, b) && Consistent(n, b) && level < NLEVELS
    ensures forall q: nat | q < Width(n, level) :: At(n, b, level, q) <==> !BlockFree(n, Busy(n, b), level, q)
  {
    forall q: nat | q < Width(n, level)
      ensures At(n, b, level, q) <==> !BlockFree(n, Busy(n, b), level, q)
    {
      Exactness(n, b, level, q);
    }
  }

  /** A block is the disjoint union of its existing children. */
  lemma BlockSplit(n: nat, level: nat, pos: nat)
    requires pos < Width(n, level + 1)
    ensures Block(n, level + 1, pos) == Block(n, level, 2 * pos) + Block(n, level, 2 * pos + 1)
    ensures !HasRight(n, level, pos) ==> Block(n, level, 2 * pos + 1) == {}
  {
    forall f: nat | f < n ensures Shr(f, level + 1) == Shr(f, level) / 2 && Shr(f, level) < Width(n, level) {
      ShrStep(f, level);
      FrameHasBlock(n, f, level);
    }
  }

  /** Two consistent bitmaps with the same busy frames agree at every level:
      the upper levels are a redundant index over the flat frame bitmap. */
  lemma DeterminedByFrames(n: nat, b: Bits, c: Bits)
    requires Fits(n, b) && Consistent(n, b) && Fits(n, c) && Consistent(n, c)
    requires |b| == |c| && b[Until(n, NLEVELS)..] == c[Until(n, NLEVELS)..]
    requires Busy(n, b) == Busy(n, c)
    ensures b == c
  {
    var total := Until(n, NLEVELS);
    forall i: nat | i < |b| ensures b[i] == c[i] {
      if i < total {
        var level, pos := PackingSurjective(n, NLEVELS, i);
        Exactness(n, b, level, pos);
        Exactness(n, c, level, pos);
        assert b[i] == At(n, b, level, pos) && c[i] == At(n, c, level, pos);
      } else {
        assert b[i] == b[total..][i - total] && c[i] == c[total..][i - total];
      }
    }
  }

  /** An all-clear bitmap is consistent and has no busy frame. */
  lemma AllClear(n: nat, b: Bits)
    requires Fits(n, b) && forall i :: 0 <= i < |b| ==> !b[i]
    ensures Consistent(n, b) && Busy(n, b) == {}
  {
    forall level: nat, pos: nat | ValidPos(n, level, pos) ensures !At(n, b, level, pos) {
      UntilMonotone(n, level + 1, NLEVELS);
    }
    forall level: nat, pos: nat | ValidPos(n, level + 1, pos) ensures ParentIsOr(n, b, level, pos) {
      assert !At(n, b, level + 1, pos) && !At(n, b, level, 2 * pos);
    }
  }

  // ---- What allocating and freeing do ----

  /** `c` is `b` after the lowest block of the level that is all free was taken. */
  ghost predicate Taken(n: nat, b: Bits, c: Bits, level: nat, pos: nat) {
    && Fits(n, b) && Fits(n, c) && |b| == |c| && Consistent(n, c)
    && ValidPos(n, level, pos) && BlockFree(n, Busy(n, b), level, pos)
    && (forall q: nat | q < pos :: !BlockFree(n, Busy(n, b), level, q))
    && Busy(n, c) == Busy(n, b) + Block(n, level, pos)
    && c[Until(n, NLEVELS)..] == b[Until(n, NLEVELS)..]
  }

  /** `c` is `b` after the block was freed. */
  ghost predicate Released(n: nat, b: Bits, c: Bits, level: nat, pos: nat) {
    && Fits(n, b) && Fits(n, c) && |b| == |c| && Consistent(n, c)
    && ValidPos(n, level, pos)
    && Busy(n, c) == Busy(n, b) - Block(n, level, pos)
    && c[Until(n, NLEVELS)..] == b[Until(n, NLEVELS)..]
  }

  /** Freeing a block just allocated restores the bitmap bit for bit. */
  lemma FreeUndoesAlloc(n: nat, b: Bits, c: Bits, d: Bits, level: nat, pos: nat)
    requires Fits(n, b) && Consistent(n, b) && Taken(n, b, c, level, pos) && Released(n, c, d, level, pos)
    ensures d == b
  {
    hide Consistent;
    assert Busy(n, d) == Busy(n, b);
    DeterminedByFrames(n, b, d);
  }

  // ---- What the allocator's loops establish ----

  /** The bits that marking block (level, pos) busy leaves set. */
  ghost predicate Marked(n: nat, b: Bits, c: Bits, level: nat, pos: nat)
    requires Fits(n, b) && Fits(n, c)
  {
    forall l: nat, p: nat | ValidPos(n, l, p) ::
      At(n, c, l, p) == (At(n, b, l, p) || Related(level, pos, l, p))
  }

  /** The state of the descendant loops: the levels from `from` up to (not including) level are written with v. */
  ghost predicate Descended(n: nat, b: Bits, c: Bits, level: nat, pos: nat, from: nat, v: bool)
    requires Fits(n, b) && Fits(n, c)
  {
    forall l: nat, p: nat | ValidPos(n, l, p) ::
      At(n, c, l, p) == if from <= l < level && Shr(p, level - l) == pos then v else At(n, b, l, p)
  }

  /** The state of the ancestor loop: self and ancestors below level `to` are set. */
  ghost predicate Ascended(n: nat, b: Bits, c: Bits, level: nat, pos: nat, to: nat)
    requires Fits(n, b) && Fits(n, c)
  {
    forall l: nat, p: nat | ValidPos(n, l, p) ::
      At(n, c, l, p) == (At(n, b, l, p) || (level <= l < to && p == Shr(pos, l - level)))
  }

  /** Writing `1 << (level - at)` positions from the block's first descendant on, as far as they
      exist, completes level at. */
  lemma DescendedLevel(n: nat, b: Bits, c: Bits, d: Bits, level: nat, pos: nat, at: nat, j: nat, k: nat, v: bool)
    requires Fits(n, b) && Fits(n, c) && Fits(n, d) && at < level
    requires Descended(n, b, c, level, pos, at + 1, v)
    requires forall l: nat, p: nat | ValidPos(n, l, p) ::
               At(n, d, l, p) == if l == at && j <= p < j + k then v else At(n, c, l, p)
    requires j == pos * Pow2(level - at)
    requires k == Pow2(level - at) || (k <= Pow2(level - at) && j + k >= Width(n, at))
    ensures Descended(n, b, d, level, pos, at, v)
  {
    forall l: nat, p: nat | ValidPos(n, l, p)
      ensures At(n, d, l, p) == if at <= l < level && Shr(p, level - l) == pos then v else At(n, b, l, p)
    {
      if l == at {
        ShrInterval(p, level - at, pos);
        NextMultiple(pos, Pow2(level - at));
      }
    }
  }

  /** Parents and children stay together on one side of `Related`, so marking keeps the index exact. */
  lemma MarkedConsistent(n: nat, b: Bits, c: Bits, level: nat, pos: nat)
    requires Fits(n, b) && Fits(n, c) && Consistent(n, b) && ValidPos(n, level, pos)
    requires Marked(n, b, c, level, pos)
    ensures Consistent(n, c)
    ensures Busy(n, c) == Busy(n, b) + Block(n, level, pos)
  {
    forall l: nat, p: nat | ValidPos(n, l + 1, p) ensures ParentIsOr(n, c, l, p) {
      assert ParentIsOr(n, b, l, p);
      assert ValidPos(n, l, 2 * p);
      RelatedParent(level, pos, l, p);
      if l + 1 > level {
        RelatedChildExists(n, level, pos, l);
      }
    }
    forall f: nat | f < n ensures Related(level, pos, 0, f) <==> Shr(f, level) == pos {
    }
  }

  lemma RelatedParent(level: nat, pos: nat, l: nat, p: nat)
    ensures l + 1 <= level ==>
              (Related(level, pos, l + 1, p) <==> Related(level, pos, l, 2 * p)) &&
              (Related(level, pos, l + 1, p) <==> Related(level, pos, l, 2 * p + 1))
    ensures l + 1 > level ==>
              (Related(level, pos, l + 1, p) <==> Related(level, pos, l, 2 * p) || Related(level, pos, l, 2 * p + 1))
  {
    if l + 1 > level {
      ShrStep(pos, l - level);
    }
  }

  /** The ancestors of an existing block exist. */
  lemma {:induction false} RelatedChildExists(n: nat, level: nat, pos: nat, l: nat)
    requires level <= l && pos < Width(n, level)
    ensures Shr(pos, l - level) < Width(n, l)
    decreases l
  {
    if l > level {
      RelatedChildExists(n, level, pos, l - 1);
      ShrStep(pos, l - 1 - level);
    }
  }

  // ---- The upward walk of freeing ----

  /** Before level i is written: the block's descendants are clear, the children of the
      ancestor at level i are clear, all levels from i up are as they were, and every parent bit
      below level i, and at level i except for that ancestor, is exact. */
  ghost predicate Cleared(n: nat, b: Bits, c: Bits, level: nat, pos: nat, i: nat)
    requires Fits(n, b) && Fits(n, c) && level <= i
  {
    && FramesCleared(n, b, c, level, pos, i)
    && (forall l: nat, p: nat | ValidPos(n, l, p) && l >= i :: At(n, c, l, p) == At(n, b, l, p))
    && (forall l: nat, p: nat | ValidPos(n, l + 1, p) && l < i && !(l + 1 == i && p == Shr(pos, i - level)) ::
          ParentIsOr(n, c, l, p))
    && (i > 0 && ValidPos(n, i, Shr(pos, i - level)) ==> NoChild(n, c, i, Shr(pos, i - level)))
  }

  /** Level 0 has lost exactly the block's frames (for a level 0 block, once level 0 is written). */
  ghost predicate FramesCleared(n: nat, b: Bits, c: Bits, level: nat, pos: nat, i: nat)
    requires Fits(n, b) && Fits(n, c)
  {
    forall f: nat | ValidPos(n, 0, f) ::
      At(n, c, 0, f) == (At(n, b, 0, f) && !(i > 0 && Shr(f, level) == pos))
  }

  predicate NoChild(n: nat, c: Bits, l: nat, p: nat)
    requires Fits(n, c) && ValidPos(n, l, p) && l > 0
  {
    !At(n, c, l - 1, 2 * p) && (HasRight(n, l - 1, p) ==> !At(n, c, l - 1, 2 * p + 1))
  }

  /** Once the descendants are clear the walk starts at the block itself. */
  lemma DescendantsCleared(n: nat, b: Bits, c: Bits, level: nat, pos: nat)
    requires Fits(n, b) && Fits(n, c) && Consistent(n, b) && ValidPos(n, level, pos)
    requires Descended(n, b, c, level, pos, 0, false)
    ensures Cleared(n, b, c, level, pos, level)
  {
    forall l: nat, p: nat | ValidPos(n, l + 1, p) && l < level && !(l + 1 == level && p == pos)
      ensures ParentIsOr(n, c, l, p)
    {
      assert ParentIsOr(n, b, l, p);
      assert ValidPos(n, l, 2 * p);
      RelatedParent(level, pos, l, p);
    }
    if level > 0 {
      assert ValidPos(n, level - 1, 2 * pos);
      assert Shr(2 * pos, 1) == pos && Shr(2 * pos + 1, 1) == pos;
    }
  }

  function Sibling(j: nat): nat {
    if j % 2 == 1 then j - 1 else j + 1
  }

  /** Clearing (i, j) makes every parent up to level i exact, and leaves exact every parent at
      level i + 1 but the one above j. */
  lemma ClearedParents(n: nat, b: Bits, c: Bits, level: nat, pos: nat, i: nat, l: nat, p: nat)
    requires Fits(n, b) && Fits(n, c) && Consistent(n, b) && ValidPos(n, level, pos)
    requires level <= i < NLEVELS && ValidPos(n, i, Shr(pos, i - level))
    requires Cleared(n, b, c, level, pos, i)
    requires ValidPos(n, l + 1, p) && !(l == i && p == Shr(pos, i - level) / 2)
    ensures ParentIsOr(n, Write(n, c, i, Shr(pos, i - level), false), l, p)
  {
    var j := Shr(pos, i - level);
    WriteOne(n, c, i, j, false);
    assert ValidPos(n, l, 2 * p);
    if l >= i {
      assert ParentIsOr(n, b, l, p);
    } else if l + 1 == i && p == j {
      assert NoChild(n, c, i, j);
    } else {
      assert ParentIsOr(n, c, l, p);
    }
  }

  /** The sibling is absent or clear: the parent's children are now all clear. */
  lemma ClearedClimb(n: nat, b: Bits, c: Bits, level: nat, pos: nat, i: nat)
    requires Fits(n, b) && Fits(n, c) && Consistent(n, b) && ValidPos(n, level, pos)
    requires level <= i < NLEVELS && ValidPos(n, i, Shr(pos, i - level))
    requires Cleared(n, b, c, level, pos, i)
    requires var s := Sibling(Shr(pos, i - level)); ValidPos(n, i, s) ==> !At(n, c, i, s)
    ensures Cleared(n, b, Write(n, c, i, Shr(pos, i - level), false), level, pos, i + 1)
  {
    var j := Shr(pos, i - level);
    var d := Write(n, c, i, j, false);
    WriteOne(n, c, i, j, false);
    ShrStep(pos, i - level);
    assert FramesCleared(n, b, d, level, pos, i + 1);
    if ValidPos(n, i + 1, j / 2) {
      ClimbedChildren(n, c, i, j);
    }
    hide At, ParentIsOr, NoChild, FramesCleared, Consistent, Write, Width;
    forall l: nat, p: nat | ValidPos(n, l + 1, p) && l < i + 1 && !(l + 1 == i + 1 && p == j / 2)
      ensures ParentIsOr(n, d, l, p)
    {
      ClearedParents(n, b, c, level, pos, i, l, p);
    }
  }

  lemma ClimbedChildren(n: nat, c: Bits, i: nat, j: nat)
    requires Fits(n, c) && ValidPos(n, i, j) && ValidPos(n, i + 1, j / 2)
    requires ValidPos(n, i, Sibling(j)) ==> !At(n, c, i, Sibling(j))
    ensures NoChild(n, Write(n, c, i, j, false), i + 1, j / 2)
  {
    WriteOne(n, c, i, j, false);
    assert ValidPos(n, i, 2 * (j / 2));
  }

  /** The sibling is busy: the parent stays set, and the index is exact again. */
  lemma ClearedStop(n: nat, b: Bits, c: Bits, level: nat, pos: nat, i: nat)
    requires Fits(n, b) && Fits(n, c) && Consistent(n, b) && ValidPos(n, level, pos)
    requires level <= i < NLEVELS && ValidPos(n, i, Shr(pos, i - level))
    requires Cleared(n, b, c, level, pos, i)
    requires var s := Sibling(Shr(pos, i - level)); ValidPos(n, i, s) && At(n, c, i, s)
    ensures var d := Write(n, c, i, Shr(pos, i - level), false);
            Consistent(n, d) && Busy(n, d) == Busy(n, b) - Block(n, level, pos)
  {
    var j := Shr(pos, i - level);
    var d := Write(n, c, i, j, false);
    forall l: nat, p: nat | ValidPos(n, l + 1, p) ensures ParentIsOr(n, d, l, p) {
      if l == i && p == j / 2 {
        StoppedParent(n, b, c, i, j);
      } else {
        ClearedParents(n, b, c, level, pos, i, l, p);
      }
    }
    WriteOne(n, c, i, j, false);
    forall f: nat | f < n ensures f in Busy(n, d) <==> f in Busy(n, b) - Block(n, level, pos) {
      assert ValidPos(n, 0, f);
    }
  }

  lemma StoppedParent(n: nat, b: Bits, c: Bits, i: nat, j: nat)
    requires Fits(n, b) && Fits(n, c) && Consistent(n, b) && ValidPos(n, i, j)
    requires forall l: nat, p: nat | ValidPos(n, l, p) && l >= i :: At(n, c, l, p) == At(n, b, l, p)
    requires ValidPos(n, i, Sibling(j)) && At(n, c, i, Sibling(j)) && ValidPos(n, i + 1, j / 2)
    ensures ParentIsOr(n, Write(n, c, i, j, false), i, j / 2)
  {
    WriteOne(n, c, i, j, false);
    assert ParentIsOr(n, b, i, j / 2);
    assert ValidPos(n, i, 2 * (j / 2));
  }

  /** The walk reached the top. */
  lemma ClearedTop(n: nat, b: Bits, c: Bits, level: nat, pos: nat)
    requires Fits(n, b) && Fits(n, c) && ValidPos(n, level, pos)
    requires Cleared(n, b, c, level, pos, NLEVELS)
    ensures Consistent(n, c) && Busy(n, c) == Busy(n, b) - Block(n, level, pos)
  {
    forall f: nat | f < n ensures f in Busy(n, c) <==> f in Busy(n, b) - Block(n, level, pos) {
      assert ValidPos(n, 0, f);
    }
  }
}
