/** Right shifts of non-negative integers, as repeated halving.
    `Shr(x, k)` is the C expression `x >> k`; `Pow2(k)` is `1 << k`. */
module Shift {

  function Pow2(k: nat): (p: nat)
    ensures p > 0
  {
    if k == 0 then 1 else 2 * Pow2(k - 1)
  }

  function Shr(x: nat, k: nat): (y: nat)
    ensures y <= x
  {
    if k == 0 then x else Shr(x / 2, k - 1)
  }

  /** Shifting by one bit more halves the result. */
  lemma {:induction false} ShrStep(x: nat, k: nat)
    ensures Shr(x, k + 1) == Shr(x, k) / 2
  {
    if k > 0 {
      ShrStep(x / 2, k - 1);
    }
  }

  lemma {:induction false} ShrCompose(x: nat, a: nat, b: nat)
    ensures Shr(Shr(x, a), b) == Shr(x, a + b)
  {
    if a > 0 {
      ShrCompose(x / 2, a - 1, b);
    }
  }

  // ---- Products ----

  lemma DoubleProduct(a: nat, b: nat)
    ensures a * (2 * b) == 2 * (a * b)
  {
  }

  lemma NextMultiple(q: nat, d: nat)
    ensures (q + 1) * d == q * d + d
  {
  }

  /** Distinct multiples of d are at least d apart. */
  lemma {:induction false} MultipleGap(q: nat, p: nat, d: nat)
    requires q < p
    ensures q * d + d <= p * d
  {
    NextMultiple(p - 1, d);
    if q < p - 1 {
      MultipleGap(q, p - 1, d);
    }
  }

  lemma MulMonotone(a: nat, b: nat, d: nat)
    requires a <= b
    ensures a * d <= b * d
  {
    if a < b {
      MultipleGap(a, b, d);
    }
  }

  /** Quotient and remainder are unique. */
  lemma DivModUnique(x: nat, d: nat, q: nat, r: nat)
    requires d > 0 && r < d && x == q * d + r
    ensures x / d == q && x % d == r
  {
    var p := x / d;
    assert x == p * d + x % d;
    if p < q {
      MultipleGap(p, q, d);
    } else if q < p {
      MultipleGap(q, p, d);
    }
  }

  // ---- Shifts and powers ----

  /** The numbers that shift down to `q` are exactly the aligned interval `[q << k, (q + 1) << k)`. */
  lemma {:induction false} ShrInterval(x: nat, k: nat, q: nat)
    ensures Shr(x, k) == q <==> q * Pow2(k) <= x < (q + 1) * Pow2(k)
  {
    if k > 0 {
      ShrInterval(x / 2, k - 1, q);
      IntervalDoubles(x, q, Pow2(k - 1));
    }
  }

  lemma IntervalDoubles(x: nat, q: nat, h: nat)
    ensures q * h <= x / 2 < (q + 1) * h <==> q * (2 * h) <= x < (q + 1) * (2 * h)
  {
    DoubleProduct(q, h);
    DoubleProduct(q + 1, h);
    Halved(x, q * h, (q + 1) * h);
  }

  lemma Halved(x: nat, a: nat, b: nat)
    ensures a <= x / 2 < b <==> 2 * a <= x < 2 * b
  {
  }

  lemma {:induction false} Pow2Add(a: nat, b: nat)
    ensures Pow2(a + b) == Pow2(a) * Pow2(b)
  {
    if a > 0 {
      Pow2Add(a - 1, b);
      DoubleProduct(Pow2(b), Pow2(a - 1));
    }
  }

  lemma ShrOfMultiple(x: nat, k: nat)
    ensures Shr(x * Pow2(k), k) == x
  {
    ShrInterval(x * Pow2(k), k, x);
    NextMultiple(x, Pow2(k));
  }
}
