/** The allocator of virtual address ranges: a list of segments, searched from the top of the area. */
module VmArea {
  import opened Wrappers
  import opened Shift

  const AREA_SIZE: nat := 128 * 1024 * 1024
  const PAGE: nat := 4096
  const VM_UNITS: nat := 13

  datatype Seg = Seg(start: nat, npages: nat) {
    function End(): nat {
      start + npages * PAGE
    }

    predicate Has(a: nat) {
      start <= a < End()
    }
  }

  function Align(unit: nat): nat {
    PAGE * Pow2(unit)
  }

  /** Some address lies in both the segment and `[start, end)`. */
  ghost predicate Overlaps(seg: Seg, start: nat, end: nat) {
    exists a: nat :: seg.Has(a) && start <= a < end
  }

  /** The four comparisons of the search. */
  predicate FourWay(seg: Seg, start: nat, end: nat) {
    || (seg.start <= start && start < seg.End())
    || (seg.start < end && end <= seg.End())
    || (start <= seg.start && seg.start < end)
    || (start < seg.End() && seg.End() <= end)
  }

  /** For non-empty ranges the four comparisons decide overlap. */
  lemma FourWayIsOverlap(seg: Seg, start: nat, end: nat)
    requires start < end && seg.npages > 0
    ensures FourWay(seg, start, end) <==> Overlaps(seg, start, end)
  {
    if FourWay(seg, start, end) {
      var a := if seg.start <= start then start else seg.start;
      assert seg.Has(a) && start <= a < end;
    }
  }

  /** For an empty range they can disagree: an empty range strictly inside a segment is reported. */
  lemma FourWayOnEmptyRange(seg: Seg, start: nat)
    requires seg.npages > 0
    ensures !Overlaps(seg, start, start)
    ensures FourWay(seg, start, start) <==> seg.start <= start <= seg.End()
  {
  }

  /** No segment overlaps the block. */
  ghost predicate BlockFree(segs: seq<Seg>, start: nat, end: nat) {
    forall k | 0 <= k < |segs| :: !Overlaps(segs[k], start, end)
  }

  /** Segments are non-empty, inside the area, and pairwise disjoint. */
  ghost predicate Disjoint(base: nat, segs: seq<Seg>) {
    && (forall k | 0 <= k < |segs| ::
          segs[k].npages > 0 && base <= segs[k].start && segs[k].End() <= base + AREA_SIZE)
    && (forall j, k | 0 <= j < k < |segs| :: !Overlaps(segs[j], segs[k].start, segs[k].End()))
  }

  lemma SameStartOverlap(s: Seg, t: Seg)
    requires s.npages > 0 && t.npages > 0 && s.start == t.start
    ensures Overlaps(s, t.start, t.End())
  {
    assert s.Has(t.start);
  }

  lemma OverlapSymmetric(s: Seg, t: Seg)
    ensures Overlaps(s, t.start, t.End()) ==> Overlaps(t, s.start, s.End())
  {
    if Overlaps(s, t.start, t.End()) {
      var a: nat :| s.Has(a) && t.start <= a < t.End();
      assert t.Has(a);
    }
  }

  lemma StartsDistinct(base: nat, segs: seq<Seg>, j: nat, k: nat)
    requires Disjoint(base, segs) && j < |segs| && k < |segs| && segs[j].start == segs[k].start
    ensures j == k
  {
    var lo, hi := if j < k then j else k, if j < k then k else j;
    if lo < hi {
      SameStartOverlap(segs[lo], segs[hi]);
    }
  }

  /** A new segment over a free block goes to the front of the list. */
  lemma AddSegment(base: nat, segs: seq<Seg>, seg: Seg)
    requires Disjoint(base, segs) && BlockFree(segs, seg.start, seg.End())
    requires seg.npages > 0 && base <= seg.start && seg.End() <= base + AREA_SIZE
    ensures Disjoint(base, [seg] + segs)
  {
    var all := [seg] + segs;
    forall j, k | 0 <= j < k < |all| ensures !Overlaps(all[j], all[k].start, all[k].End()) {
      if j == 0 {
        assert !Overlaps(segs[k - 1], seg.start, seg.End());
        OverlapSymmetric(seg, all[k]);
      }
    }
  }

  /** The segments whose start is not among the given addresses. */
  function Keep(segs: seq<Seg>, vs: seq<nat>): (r: seq<Seg>)
    ensures |r| <= |segs|
    ensures forall s :: s in r <==> s in segs && s.start !in vs
  {
    if segs == [] then []
    else (if segs[0].start in vs then [] else [segs[0]]) + Keep(segs[1..], vs)
  }

  lemma TailDisjoint(base: nat, segs: seq<Seg>)
    requires Disjoint(base, segs) && segs != []
    ensures Disjoint(base, segs[1..])
  {
    forall j, k | 0 <= j < k < |segs[1..]| ensures !Overlaps(segs[1..][j], segs[1..][k].start, segs[1..][k].End()) {
      assert !Overlaps(segs[j + 1], segs[k + 1].start, segs[k + 1].End());
    }
  }

  lemma {:induction false} KeepDisjoint(base: nat, segs: seq<Seg>, vs: seq<nat>)
    requires Disjoint(base, segs)
    ensures Disjoint(base, Keep(segs, vs))
  {
    if segs != [] {
      TailDisjoint(base, segs);
      KeepDisjoint(base, segs[1..], vs);
      var rest := Keep(segs[1..], vs);
      if segs[0].start !in vs {
        var r := [segs[0]] + rest;
        forall j, k | 0 <= j < k < |r| ensures !Overlaps(r[j], r[k].start, r[k].End()) {
          if j == 0 {
            assert rest[k - 1] in segs[1..];
            var m :| 0 <= m < |segs[1..]| && segs[1..][m] == rest[k - 1];
            assert !Overlaps(segs[0], segs[m + 1].start, segs[m + 1].End());
          } else {
            assert !Overlaps(rest[j - 1], rest[k - 1].start, rest[k - 1].End());
          }
        }
      }
    }
  }

  lemma {:induction false} KeepAll(segs: seq<Seg>, vs: seq<nat>)
    requires forall s :: s in segs ==> s.start !in vs
    ensures Keep(segs, vs) == segs
  {
    if segs != [] {
      assert segs[0] in segs;
      KeepAll(segs[1..], vs);
    }
  }

  /** Round trip: freeing the addresses of segments put in front of a disjoint list restores the list. */
  lemma {:induction false} FreeRestores(base: nat, added: seq<Seg>, segs: seq<Seg>, vs: seq<nat>)
    requires Disjoint(base, added + segs)
    requires forall s :: s in added ==> s.start in vs
    requires forall v :: v in vs ==> exists k :: 0 <= k < |added| && added[k].start == v
    ensures Keep(added + segs, vs) == segs
  {
    forall s | s in segs ensures s.start !in vs {
      var m :| 0 <= m < |segs| && segs[m] == s;
      assert (added + segs)[|added| + m] == s;
      if s.start in vs {
        var k :| 0 <= k < |added| && added[k].start == s.start;
        StartsDistinct(base, added + segs, k, |added| + m);
        assert false;
      }
    }
    KeepAll(segs, vs);
    KeepNone(added, segs, vs);
  }

  lemma {:induction false} KeepNone(added: seq<Seg>, segs: seq<Seg>, vs: seq<nat>)
    requires forall s :: s in added ==> s.start in vs
    ensures Keep(added + segs, vs) == Keep(segs, vs)
  {
    if added == [] {
      assert added + segs == segs;
    } else {
      assert (added + segs)[1..] == added[1..] + segs;
      assert added[0] in added;
      KeepNone(added[1..], segs, vs);
    }
  }

  /** The block sizes divide the area. */
  lemma {:induction false} AlignDivides(unit: nat)
    requires unit < VM_UNITS
    ensures Align(unit) > 0 && Align(unit) * Pow2(12 - unit) == 0x100_0000
  {
    assert Pow2(12) == 4096;
    Pow2Add(unit, 12 - unit);
  }

  class Area {
    const base: nat
    var segs: seq<Seg>

    ghost predicate Valid()
      reads this
    {
      base % 0x100_0000 == 0 && base >= 0x100_0000 && Disjoint(base, segs)
    }

    /** The last nine pages of the area are taken by the initial slabs. */
    constructor (base: nat)
      requires base % 0x100_0000 == 0 && base >= 0x100_0000
      ensures Valid() && this.base == base
      ensures segs == [Seg(base + AREA_SIZE - 9 * PAGE, 9)]
    {
      this.base := base;
      segs := [Seg(base + AREA_SIZE - 9 * PAGE, 9)];
    }

    /** Some segment that overlaps `[start, end)`, if any does. */
    method FindSeg(start: nat, end: nat) returns (r: Option<Seg>)
      requires Valid() && start < end
      ensures r.Some? ==> r.value in segs && Overlaps(r.value, start, end)
      ensures r.None? <==> BlockFree(segs, start, end)
    {
      var i := |segs|;
      while i > 0
        invariant 0 <= i <= |segs|
        invariant forall k | i <= k < |segs| :: !Overlaps(segs[k], start, end)
      {
        i := i - 1;
        var seg := segs[i];
        var send := seg.start + seg.npages * PAGE;
        FourWayIsOverlap(seg, start, end);
        if seg.start <= start && start < send {
          return Some(seg);
        }
        if seg.start < end && end <= send {
          return Some(seg);
        }
        if start <= seg.start && seg.start < end {
          return Some(seg);
        }
        if start < send && send <= end {
          return Some(seg);
        }
      }
      return None;
    }

    /** The highest naturally aligned free block of the unit, if there is one. */
    method FindFree(unit: nat) returns (r: Option<nat>)
      requires Valid() && unit < VM_UNITS
      ensures r.Some? ==> Slot(unit, r.value) && BlockFree(segs, r.value, r.value + Align(unit))
      ensures r.Some? ==> forall t: nat :: Slot(unit, t) && t > r.value ==> !BlockFree(segs, t, t + Align(unit))
      ensures r.None? ==> forall t: nat :: Slot(unit, t) ==> !BlockFree(segs, t, t + Align(unit))
    {
      var align := PAGE * Pow2(unit);
      AlignDivides(unit);
      AreaIsWhole(base, unit);
      var t: nat := base + AREA_SIZE - align;
      while t >= base
        invariant t % align == 0 && base - align <= t <= base + AREA_SIZE - align
        invariant forall u: nat :: Slot(unit, u) && u > t ==> !BlockFree(segs, u, u + align)
      {
        var seg := FindSeg(t, t + align);
        if seg.None? {
          return Some(t);
        }
        forall u: nat | Slot(unit, u) && u > t - align ensures u >= t {
          StepDown(t, u, align);
        }
        MultipleBelow(t, align);
        t := t - align;
      }
      return None;
    }

    /** The naturally aligned blocks of the area. */
    predicate Slot(unit: nat, t: nat) {
      Align(unit) > 0 && t % Align(unit) == 0 && base <= t && t + Align(unit) <= base + AREA_SIZE
    }

    /** r is the highest free block of the unit, given the segments. */
    ghost predicate HighestFree(unit: nat, ss: seq<Seg>, r: nat) {
      && Slot(unit, r) && BlockFree(ss, r, r + Align(unit))
      && forall t: nat :: Slot(unit, t) && t > r ==> !BlockFree(ss, t, t + Align(unit))
    }

    /** Takes the highest free block, with a segment at the front of the list. */
    method AllocOne(unit: nat) returns (r: Option<nat>)
      requires Valid() && unit < VM_UNITS
      modifies this`segs
      ensures Valid()
      ensures r.Some? ==> HighestFree(unit, old(segs), r.value) && segs == [Seg(r.value, Pow2(unit))] + old(segs)
      ensures r.None? ==> segs == old(segs) && forall t: nat :: Slot(unit, t) ==> !BlockFree(segs, t, t + Align(unit))
    {
      hide BlockFree, Disjoint;
      r := FindFree(unit);
      if r.Some? {
        SlotInside(unit, r.value);
        AddSegment(base, segs, Seg(r.value, Pow2(unit)));
        segs := [Seg(r.value, Pow2(unit))] + segs;
      }
    }

    /** Takes n blocks, one after the other, each the highest one free; each gets a segment at the front
        of the list.  Stops, with ok false, where the code asserts that a block was found. */
    method Alloc(unit: nat, n: nat, va: array<nat>) returns (ok: bool)
      requires Valid() && unit < VM_UNITS && n <= va.Length
      modifies this`segs, va
      ensures Valid()
      ensures ok ==> segs == Added(unit, va[..n]) + old(segs)
      ensures ok ==> forall i | 0 <= i < n :: HighestFree(unit, Added(unit, va[..i]) + old(segs), va[i])
      ensures !ok ==> forall t: nat :: Slot(unit, t) ==> !BlockFree(segs, t, t + Align(unit))
    {
      hide Slot, BlockFree, Disjoint, Align, HighestFree, Added;
      NoneAdded(unit, va[..0], segs);
      var i := 0;
      while i < n
        invariant 0 <= i <= n
        invariant Valid() && segs == Added(unit, va[..i]) + old(segs)
        invariant forall k | 0 <= k < i :: HighestFree(unit, Added(unit, va[..k]) + old(segs), va[k])
      {
        var t := AllocOne(unit);
        if t.None? {
          return false;
        }
        ghost var before := va[..i];
        va[i] := t.value;
        OneAdded(unit, before, t.value, old(segs));
        assert va[..i] == before && va[..i + 1] == before + [t.value];
        assert forall k | 0 <= k < i :: va[..k] == before[..k];
        i := i + 1;
      }
      return true;
    }

    lemma SlotInside(unit: nat, t: nat)
      requires Slot(unit, t)
      ensures base <= t && Seg(t, Pow2(unit)).End() == t + Align(unit) <= base + AREA_SIZE
    {
    }

    /** Removes the segments that start at the given addresses, and zeroes the addresses found. */
    method Free(unit: nat, n: nat, va: array<nat>)
      requires Valid() && n <= va.Length
      requires forall i, j | 0 <= i < j < n :: va[i] == va[j] ==> va[i] == 0
      requires forall s, i | s in segs && 0 <= i < n && va[i] == s.start :: s.npages == Pow2(unit)
      modifies this`segs, va
      ensures Valid() && segs == Keep(old(segs), old(va[..n]))
      ensures Zeroed(va[..n], old(va[..n]), old(segs))
    {
      hide Disjoint, Keep, Starts, Zeroed;
      ghost var vs, all := va[..n], segs;
      var e := 0;
      ghost var done: nat := 0;
      EmptyList(vs);
      assert all[..0] == [];
      NoneZeroed(vs);
      while e < |segs|
        invariant 0 <= e <= |segs| && done <= |all|
        invariant segs[..e] == Keep(all[..done], vs) && segs[e..] == all[done..]
        invariant Zeroed(va[..n], vs, all[..done])
        decreases |segs| - e
      {
        ghost var was := segs;
        assert segs[e] == segs[e..][0] && all[done] == all[done..][0];
        var gone := FreeAt(unit, n, va, e, vs, all, done);
        KeepSnoc(all, done, vs);
        Split(was, segs, e, gone, all, done);
        done := done + 1;
        if !gone {
          e := e + 1;
        }
      }
      assert all[..done] == all;
      assert segs[..e] == segs;
      KeepDisjoint(base, all, vs);
    }

    /** Compares one segment with every address; unlinks it at the one that matches. */
    method FreeAt(unit: nat, n: nat, va: array<nat>, e: nat, ghost vs: seq<nat>, ghost all: seq<Seg>, ghost done: nat)
      returns (gone: bool)
      requires base > 0 && Disjoint(base, all) && n <= va.Length && |vs| == n
      requires e < |segs| && done < |all| && segs[e] == all[done]
      requires forall i, j | 0 <= i < j < n :: vs[i] == vs[j] ==> vs[i] == 0
      requires forall i | 0 <= i < n && vs[i] == all[done].start :: all[done].npages == Pow2(unit)
      requires Zeroed(va[..n], vs, all[..done])
      modifies this`segs, va
      ensures gone <==> all[done].start in vs
      ensures segs == if gone then old(segs)[..e] + old(segs)[e + 1..] else old(segs)
      ensures Zeroed(va[..n], vs, all[..done + 1])
    {
      assert forall k | 0 <= k < n :: va[k] == va[..n][k];
      var seg := segs[e];
      gone := false;
      NotBefore(base, all, done);
      hide Disjoint, Starts;
      var i := 0;
      while i < n
        invariant 0 <= i <= n
        invariant gone <==> seg.start in vs[..i]
        invariant segs == if gone then old(segs)[..e] + old(segs)[e + 1..] else old(segs)
        invariant forall k | 0 <= k < i :: va[k] == if Starts(all[..done + 1], vs[k]) then 0 else vs[k]
        invariant forall k | i <= k < n :: va[k] == if Starts(all[..done], vs[k]) then 0 else vs[k]
      {
        assert vs[..i + 1] == vs[..i] + [vs[i]];
        StartsSnoc(all, done, vs[i]);
        if va[i] != 0 && seg.start == va[i] {
          assert seg.npages == Pow2(unit);
          segs := segs[..e] + segs[e + 1..];
          gone := true;
          va[i] := 0;
        }
        i := i + 1;
      }
      assert vs[..n] == vs;
    }
  }

  /** The addresses, those at which a segment starts replaced by zero. */
  ghost predicate Zeroed(now: seq<nat>, was: seq<nat>, segs: seq<Seg>) {
    |now| == |was| && forall i | 0 <= i < |was| :: now[i] == if Starts(segs, was[i]) then 0 else was[i]
  }

  lemma NoneZeroed(vs: seq<nat>)
    ensures Zeroed(vs, vs, [])
  {
  }

  ghost predicate Starts(segs: seq<Seg>, v: nat) {
    exists s :: s in segs && s.start == v
  }

  lemma EmptyList(vs: seq<nat>)
    ensures Keep([], vs) == [] && forall v: nat :: !Starts([], v)
  {
  }

  lemma StartsSnoc(segs: seq<Seg>, k: nat, v: nat)
    requires k < |segs|
    ensures Starts(segs[..k + 1], v) <==> Starts(segs[..k], v) || segs[k].start == v
  {
    assert segs[..k + 1] == segs[..k] + [segs[k]];
    assert segs[k] in segs[..k + 1];
    if Starts(segs[..k], v) {
      var s :| s in segs[..k] && s.start == v;
      assert s in segs[..k + 1];
    }
  }

  lemma NotBefore(base: nat, segs: seq<Seg>, k: nat)
    requires Disjoint(base, segs) && k < |segs| && base > 0
    ensures !Starts(segs[..k], segs[k].start) && segs[k].start != 0
  {
    if Starts(segs[..k], segs[k].start) {
      var s :| s in segs[..k] && s.start == segs[k].start;
      var j :| 0 <= j < k && segs[j] == s;
      StartsDistinct(base, segs, j, k);
      assert false;
    }
  }

  /** Unlinking element e, or going past it. */
  lemma Split(was: seq<Seg>, now: seq<Seg>, e: nat, gone: bool, all: seq<Seg>, done: nat)
    requires e < |was| && done < |all| && was[e..] == all[done..]
    requires now == if gone then was[..e] + was[e + 1..] else was
    ensures gone ==> e <= |now| && now[..e] == was[..e] && now[e..] == all[done + 1..]
    ensures !gone ==> e < |now| && now[..e + 1] == was[..e] + [all[done]] && now[e + 1..] == all[done + 1..]
  {
    assert was[e..][1..] == was[e + 1..] && all[done..][1..] == all[done + 1..];
    assert was[e..][0] == all[done..][0];
  }

  lemma NoneAdded(unit: nat, vs: seq<nat>, ss: seq<Seg>)
    requires vs == []
    ensures Added(unit, vs) + ss == ss
  {
  }

  lemma OneAdded(unit: nat, vs: seq<nat>, v: nat, ss: seq<Seg>)
    ensures Added(unit, vs + [v]) + ss == [Seg(v, Pow2(unit))] + (Added(unit, vs) + ss)
  {
    assert (vs + [v])[..|vs|] == vs;
  }

  /** The segments of the blocks at vs, the last one first. */
  function Added(unit: nat, vs: seq<nat>): seq<Seg> {
    if vs == [] then [] else [Seg(vs[|vs| - 1], Pow2(unit))] + Added(unit, vs[..|vs| - 1])
  }

  lemma {:induction false} KeepAppend(a: seq<Seg>, b: seq<Seg>, vs: seq<nat>)
    ensures Keep(a + b, vs) == Keep(a, vs) + Keep(b, vs)
  {
    if a == [] {
      assert a + b == b;
    } else {
      assert (a + b)[1..] == a[1..] + b;
      KeepAppend(a[1..], b, vs);
    }
  }

  lemma KeepSnoc(segs: seq<Seg>, k: nat, vs: seq<nat>)
    requires k < |segs|
    ensures Keep(segs[..k + 1], vs) == Keep(segs[..k], vs) + if segs[k].start in vs then [] else [segs[k]]
  {
    assert segs[..k + 1] == segs[..k] + [segs[k]];
    KeepAppend(segs[..k], [segs[k]], vs);
  }

  lemma AreaIsWhole(base: nat, unit: nat)
    requires unit < VM_UNITS && base % 0x100_0000 == 0 && base >= 0x100_0000
    ensures 0 < Align(unit) <= 0x100_0000
    ensures base % Align(unit) == 0 && (base + AREA_SIZE - Align(unit)) % Align(unit) == 0
  {
    hide Align;
    AlignDivides(unit);
    var a, m := Align(unit), Pow2(12 - unit);
    var q := base / 0x100_0000;
    WholeBlocks(a, m, q, base);
  }

  lemma WholeBlocks(a: nat, m: nat, q: nat, base: nat)
    requires a > 0 && m > 0 && a * m == 0x100_0000 && base == q * 0x100_0000
    ensures a <= 0x100_0000 && base % a == 0 && (base + AREA_SIZE - a) % a == 0
  {
    assert a * (m - 1) >= 0;
    assert (q * m) * a == base by {
      assert (q * m) * a == q * (a * m);
    }
    DivModUnique(base, a, q * m, 0);
    var k := (q + 8) * m;
    assert k * a == base + AREA_SIZE by {
      assert k * a == (q + 8) * (a * m);
    }
    assert (k - 1) * a == base + AREA_SIZE - a;
    DivModUnique(base + AREA_SIZE - a, a, k - 1, 0);
  }

  /** Distinct multiples of align are at least align apart. */
  lemma StepDown(t: nat, u: nat, align: nat)
    requires align > 0 && t % align == 0 && u % align == 0 && u + align > t
    ensures u >= t
  {
    var p, q := t / align, u / align;
    assert t == p * align && u == q * align;
    if q < p {
      MultipleGap(q, p, align);
      assert false;
    }
  }

  lemma MultipleBelow(t: nat, align: nat)
    requires 0 < align <= t && t % align == 0
    ensures (t - align) % align == 0
  {
    var p := t / align;
    NextMultiple(p - 1, align);
    DivModUnique(t - align, align, p - 1, 0);
  }
}
