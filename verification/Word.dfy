/** 32-bit unsigned words (`uint32_t`, `uintptr_t`) as natural numbers, with the C bitwise
    operators defined bit by bit, and the bit-field helpers built from them. */
module Word {
  import opened Shift

  type word = x: int | 0 <= x < 0x1_0000_0000

  lemma WordPow2()
    ensures Pow2(32) == 0x1_0000_0000
  {
    assert Pow2(8) == 256;
    Pow2Add(8, 8);
    Pow2Add(16, 16);
  }

  /** Bit i of x. */
  predicate Bit(x: nat, i: nat) {
    Shr(x, i) % 2 == 1
  }

  function B2N(b: bool): (r: nat)
    ensures r < 2
  {
    if b then 1 else 0
  }

  /** `a | b` */
  function Or(a: nat, b: nat): nat {
    if a == 0 && b == 0 then 0
    else B2N(a % 2 == 1 || b % 2 == 1) + 2 * Or(a / 2, b / 2)
  }

  /** `a & b` */
  function And(a: nat, b: nat): nat {
    if a == 0 || b == 0 then 0
    else B2N(a % 2 == 1 && b % 2 == 1) + 2 * And(a / 2, b / 2)
  }

  /** `a & ~b` */
  function AndNot(a: nat, b: nat): nat {
    if a == 0 then 0
    else B2N(a % 2 == 1 && b % 2 == 0) + 2 * AndNot(a / 2, b / 2)
  }

  /** `x << k`, before truncation to 32 bits */
  function Shl(x: nat, k: nat): nat {
    if k == 0 then x else 2 * Shl(x, k - 1)
  }

  lemma {:induction false} ShlMul(x: nat, k: nat)
    ensures Shl(x, k) == x * Pow2(k)
  {
    if k > 0 {
      ShlMul(x, k - 1);
      DoubleProduct(x, Pow2(k - 1));
    }
  }

  // ---- The operators, bit by bit ----

  lemma {:induction false} BitZero(i: nat)
    ensures !Bit(0, i)
  {
    if i > 0 {
      BitZero(i - 1);
    }
  }

  lemma {:induction false} BitOr(a: nat, b: nat, i: nat)
    ensures Bit(Or(a, b), i) == (Bit(a, i) || Bit(b, i))
  {
    if a == 0 && b == 0 {
      BitZero(i);
    } else if i > 0 {
      BitOr(a / 2, b / 2, i - 1);
    }
  }

  lemma {:induction false} BitAnd(a: nat, b: nat, i: nat)
    ensures Bit(And(a, b), i) == (Bit(a, i) && Bit(b, i))
  {
    if a == 0 || b == 0 {
      BitZero(i);
    } else if i > 0 {
      BitAnd(a / 2, b / 2, i - 1);
    }
  }

  lemma {:induction false} BitAndNot(a: nat, b: nat, i: nat)
    ensures Bit(AndNot(a, b), i) == (Bit(a, i) && !Bit(b, i))
  {
    if a == 0 {
      BitZero(i);
    } else if i > 0 {
      BitAndNot(a / 2, b / 2, i - 1);
    }
  }

  lemma {:induction false} BitShl(x: nat, k: nat, i: nat)
    ensures Bit(Shl(x, k), i) == (i >= k && Bit(x, i - k))
  {
    if k > 0 && i > 0 {
      BitShl(x, k - 1, i - 1);
    }
  }

  lemma BitShr(x: nat, k: nat, i: nat)
    ensures Bit(Shr(x, k), i) == Bit(x, k + i)
  {
    ShrCompose(x, k, i);
  }

  /** `(1 << sz) - 1` */
  function Mask(sz: nat): nat {
    Pow2(sz) - 1
  }

  lemma {:induction false} BitMask(sz: nat, i: nat)
    ensures Bit(Mask(sz), i) == (i < sz)
  {
    if sz == 0 {
      BitZero(i);
    } else if i > 0 {
      assert Mask(sz) == 2 * Mask(sz - 1) + 1;
      BitMask(sz - 1, i - 1);
    }
  }

  lemma BitPow2(p: nat, i: nat)
    ensures Bit(Pow2(p), i) == (i == p)
  {
    ShlMul(1, p);
    BitShl(1, p, i);
    if i > p {
      BitZero(i - p - 1);
    }
  }

  /** Numbers with the same bits are equal. */
  lemma {:induction false} SameBits(a: nat, b: nat)
    requires forall i: nat :: Bit(a, i) == Bit(b, i)
    ensures a == b
    decreases a + b
  {
    assert Bit(a, 0) == Bit(b, 0);
    if a > 0 || b > 0 {
      forall i: nat ensures Bit(a / 2, i) == Bit(b / 2, i) {
        assert Bit(a, i + 1) == Bit(b, i + 1);
      }
      SameBits(a / 2, b / 2);
    }
  }

  /** x fits in k bits iff no bit from k up is set. */
  lemma {:induction false} BitBound(x: nat, k: nat)
    ensures x < Pow2(k) <==> forall i: nat :: i >= k ==> !Bit(x, i)
  {
    ShrInterval(x, k, 0);
    if Shr(x, k) == 0 {
      forall i: nat | i >= k ensures !Bit(x, i) {
        BitShr(x, k, i - k);
        BitZero(i - k);
      }
    } else if forall i: nat :: i >= k ==> !Bit(x, i) {
      forall i: nat ensures Bit(Shr(x, k), i) == Bit(0, i) {
        BitShr(x, k, i);
        BitZero(i);
      }
      SameBits(Shr(x, k), 0);
    }
  }

  lemma OrFits(a: nat, b: nat, k: nat)
    requires a < Pow2(k) && b < Pow2(k)
    ensures Or(a, b) < Pow2(k)
  {
    BitBound(a, k);
    BitBound(b, k);
    forall i: nat | i >= k ensures !Bit(Or(a, b), i) {
      BitOr(a, b, i);
    }
    BitBound(Or(a, b), k);
  }

  lemma {:induction false} AndNotShrinks(a: nat, b: nat)
    ensures AndNot(a, b) <= a
  {
    if a > 0 {
      AndNotShrinks(a / 2, b / 2);
    }
  }

  // ---- Single bits ----

  /** `w & (1 << p)` tests bit p. */
  lemma TestBit(w: nat, p: nat)
    ensures And(w, Pow2(p)) != 0 <==> Bit(w, p)
  {
    BitAnd(w, Pow2(p), p);
    BitPow2(p, p);
    if !Bit(w, p) {
      forall i: nat ensures Bit(And(w, Pow2(p)), i) == Bit(0, i) {
        BitAnd(w, Pow2(p), i);
        BitPow2(p, i);
        BitZero(i);
      }
      SameBits(And(w, Pow2(p)), 0);
    } else {
      BitZero(p);
    }
  }

  /** `w | (1 << p)` sets bit p and keeps the others; the result is still a word. */
  lemma SetBit(w: word, p: nat)
    requires p < 32
    ensures Or(w, Pow2(p)) < 0x1_0000_0000
    ensures forall i: nat :: Bit(Or(w, Pow2(p)), i) == (Bit(w, i) || i == p)
  {
    forall i: nat ensures Bit(Or(w, Pow2(p)), i) == (Bit(w, i) || i == p) {
      BitOr(w, Pow2(p), i);
      BitPow2(p, i);
    }
    WordPow2();
    BitBound(w, 32);
    BitBound(Or(w, Pow2(p)), 32);
  }

  /** `w & ~m` clears the bits of m and keeps the others. */
  lemma ClearBits(w: word, m: nat)
    ensures AndNot(w, m) < 0x1_0000_0000
    ensures forall i: nat :: Bit(AndNot(w, m), i) == (Bit(w, i) && !Bit(m, i))
  {
    AndNotShrinks(w, m);
    forall i: nat ensures Bit(AndNot(w, m), i) == (Bit(w, i) && !Bit(m, i)) {
      BitAndNot(w, m, i);
    }
  }

  // ---- Bit fields ----

  lemma AndMaskStep(x: nat, sz: nat)
    requires sz > 0
    ensures And(x, Mask(sz)) == x % 2 + 2 * And(x / 2, Mask(sz - 1))
  {
    assert Mask(sz) == 2 * Mask(sz - 1) + 1;
  }

  lemma {:induction false} LowPart(x: nat, sz: nat)
    ensures x == Shr(x, sz) * Pow2(sz) + And(x, Mask(sz))
    ensures And(x, Mask(sz)) < Pow2(sz)
  {
    if sz > 0 {
      LowPart(x / 2, sz - 1);
      AndMaskStep(x, sz);
      DoubleProduct(Shr(x, sz), Pow2(sz - 1));
    }
  }

  lemma AndMask(x: nat, sz: nat)
    ensures And(x, Mask(sz)) == x % Pow2(sz)
  {
    LowPart(x, sz);
    DivModUnique(x, Pow2(sz), Shr(x, sz), And(x, Mask(sz)));
  }

  lemma {:induction false} ShrDiv(x: nat, k: nat)
    ensures Shr(x, k) == x / Pow2(k)
  {
    ShrInterval(x, k, Shr(x, k));
    var q := Shr(x, k);
    NextMultiple(q, Pow2(k));
    DivModUnique(x, Pow2(k), q, x - q * Pow2(k));
  }

  /** `bits_arrange`: the low sz bits of val, moved to bit position pos */
  function Arrange(pos: nat, sz: nat, val: nat): nat {
    Shl(And(val, Mask(sz)), pos)
  }

  /** `bits_extract`: the sz-bit field at pos, moved down to bit 0 */
  function Extract(val: nat, pos: nat, sz: nat): nat {
    And(Shr(val, pos), Mask(sz))
  }

  /** `bits_extract_nodatashift`: the sz-bit field at pos, left in place */
  function InPlace(val: nat, pos: nat, sz: nat): nat {
    And(val, Shl(Mask(sz), pos))
  }

  lemma BitArrange(pos: nat, sz: nat, val: nat, i: nat)
    ensures Bit(Arrange(pos, sz, val), i) == (pos <= i < pos + sz && Bit(val, i - pos))
  {
    BitShl(And(val, Mask(sz)), pos, i);
    if i >= pos {
      BitAnd(val, Mask(sz), i - pos);
      BitMask(sz, i - pos);
    }
  }

  lemma BitExtract(val: nat, pos: nat, sz: nat, i: nat)
    ensures Bit(Extract(val, pos, sz), i) == (i < sz && Bit(val, pos + i))
  {
    BitAnd(Shr(val, pos), Mask(sz), i);
    BitMask(sz, i);
    BitShr(val, pos, i);
  }

  lemma BitInPlace(val: nat, pos: nat, sz: nat, i: nat)
    ensures Bit(InPlace(val, pos, sz), i) == (pos <= i < pos + sz && Bit(val, i))
  {
    BitAnd(val, Shl(Mask(sz), pos), i);
    BitShl(Mask(sz), pos, i);
    if i >= pos {
      BitMask(sz, i - pos);
    }
  }

  lemma ExtractArith(val: nat, pos: nat, sz: nat)
    ensures Extract(val, pos, sz) == (val / Pow2(pos)) % Pow2(sz)
  {
    AndMask(Shr(val, pos), sz);
    ShrDiv(val, pos);
  }

  lemma LowIdempotent(val: nat, pos: nat, sz: nat)
    ensures And(Extract(val, pos, sz), Mask(sz)) == Extract(val, pos, sz)
  {
    var e := Extract(val, pos, sz);
    LowPart(Shr(val, pos), sz);
    AndMask(e, sz);
    DivModUnique(e, Pow2(sz), 0, e);
  }

  /** Leaving a field in place is extracting it and arranging it again. */
  lemma InPlaceIsArrangeExtract(val: nat, pos: nat, sz: nat)
    ensures InPlace(val, pos, sz) == Arrange(pos, sz, Extract(val, pos, sz))
    ensures InPlace(val, pos, sz) == Extract(val, pos, sz) * Pow2(pos)
  {
    forall i: nat ensures Bit(InPlace(val, pos, sz), i) == Bit(Arrange(pos, sz, Extract(val, pos, sz)), i) {
      BitInPlace(val, pos, sz, i);
      BitArrange(pos, sz, Extract(val, pos, sz), i);
      if pos <= i {
        BitExtract(val, pos, sz, i - pos);
      }
    }
    SameBits(InPlace(val, pos, sz), Arrange(pos, sz, Extract(val, pos, sz)));
    AndMask(Shr(val, pos), sz);
    AndMask(Extract(val, pos, sz), sz);
    LowIdempotent(val, pos, sz);
    ShlMul(And(Extract(val, pos, sz), Mask(sz)), pos);
  }

  /** Round trip: what was arranged in a field is extracted from it, cut to the field's width. */
  lemma ExtractArrange(pos: nat, sz: nat, val: nat)
    ensures Extract(Arrange(pos, sz, val), pos, sz) == val % Pow2(sz)
  {
    var a := Arrange(pos, sz, val);
    forall i: nat ensures Bit(Extract(a, pos, sz), i) == Bit(And(val, Mask(sz)), i) {
      BitExtract(a, pos, sz, i);
      BitArrange(pos, sz, val, pos + i);
      BitAnd(val, Mask(sz), i);
      BitMask(sz, i);
    }
    SameBits(Extract(a, pos, sz), And(val, Mask(sz)));
    AndMask(val, sz);
  }

  lemma ExtractOr(a: nat, b: nat, pos: nat, sz: nat)
    ensures Extract(Or(a, b), pos, sz) == Or(Extract(a, pos, sz), Extract(b, pos, sz))
  {
    hide Or, Extract, Bit;
    forall i: nat ensures Bit(Extract(Or(a, b), pos, sz), i) == Bit(Or(Extract(a, pos, sz), Extract(b, pos, sz)), i) {
      BitExtract(Or(a, b), pos, sz, i);
      BitOr(a, b, pos + i);
      BitOr(Extract(a, pos, sz), Extract(b, pos, sz), i);
      BitExtract(a, pos, sz, i);
      BitExtract(b, pos, sz, i);
    }
    SameBits(Extract(Or(a, b), pos, sz), Or(Extract(a, pos, sz), Extract(b, pos, sz)));
  }

  lemma {:induction false} OrZero(a: nat)
    ensures Or(a, 0) == a && Or(0, a) == a
  {
    if a > 0 {
      OrZero(a / 2);
    }
  }

  /** `x & ~(mask << pos)` for a field that reaches up to bit 31 keeps the low pos bits. */
  lemma AndNotHigh(x: word, pos: nat, sz: nat)
    requires pos + sz == 32
    ensures AndNot(x, Shl(Mask(sz), pos)) == x % Pow2(pos)
  {
    WordPow2();
    BitBound(x, 32);
    forall i: nat ensures Bit(AndNot(x, Shl(Mask(sz), pos)), i) == Bit(And(x, Mask(pos)), i) {
      BitAndNot(x, Shl(Mask(sz), pos), i);
      BitShl(Mask(sz), pos, i);
      if i >= pos {
        BitMask(sz, i - pos);
      }
      BitAnd(x, Mask(pos), i);
      BitMask(pos, i);
    }
    SameBits(AndNot(x, Shl(Mask(sz), pos)), And(x, Mask(pos)));
    AndMask(x, pos);
  }
}
