/** Dividing a double limb by a normalized limb with a precomputed reciprocal. */
module Udiv {
  import opened Limbs
  import opened Products

  /** floor((B^2 - 1) / d) - B, written with wrapping limbs as -d-1 and -1. */
  function Udiv1normInit(d: Limb): (inv: Limb)
    requires d >= HALF
    ensures (B + inv) * d <= B * B - 1 < (B + inv + 1) * d
  {
    var a1, a0 := (0 - d - 1) % B, B - 1;
    InverseFits(d);
    (a1 * B + a0) / d
  }

  lemma {:induction false} InverseFits(d: int)
    requires HALF <= d < B
    ensures (0 - d - 1) % B == B - 1 - d
    ensures 0 <= ((B - 1 - d) * B + B - 1) / d < B
    ensures (B + ((B - 1 - d) * B + B - 1) / d) * d <= B * B - 1 < (B + ((B - 1 - d) * B + B - 1) / d + 1) * d
  {
    var x := (B - 1 - d) * B + B - 1;
    assert x == B * B - 1 - B * d;
    DivMod(x, d);
    DivLess(x, d, B);
  }

  /** The estimate is the quotient or one less (Granlund and Montgomery): with k = B^2 - m*d,
      the error d*B*(N/d - Y/B) is a1*k + a0*(B-d), reduced by (B-d)^2 - k when a0 is large. */
  lemma {:induction false} EstimateError(m: int, d: int, a1: int, a0: int, s: int, y: int)
    requires HALF <= d < B && 0 <= a1 < d && 0 <= a0 < B
    requires m * d <= B * B - 1 < (m + 1) * d
    requires s == if a0 >= HALF then 1 else 0
    requires y == m * a1 + a0 + s * (m + d - 2 * B)
    ensures 0 <= (a1 * B + a0) * B - y * d < d * B
  {
    var k := B * B - m * d;
    assert (m + 1) * d == m * d + d;
    assert 1 <= k <= d;
    ErrorIdentity(m, d, a1, a0, s, y, k);
    if s == 0 {
      MulMono(0, a1, k);
      MulMono(0, a0, B - d);
      SmallError(a1, k, a0, d);
    } else {
      LargeCase(a1, k, a0, d);
    }
  }

  lemma {:induction false} LargeCase(a1: int, k: int, a0: int, d: int)
    requires 0 <= a1 < d && 1 <= k <= d && HALF <= a0 < B && HALF <= d < B
    ensures 0 <= a1 * k + a0 * (B - d) - ((B - d) * (B - d) - k) < d * B
  {
    var x := a0 - (B - d);
    assert a1 * k + a0 * (B - d) - ((B - d) * (B - d) - k) == (a1 + 1) * k + (B - d) * x by { Regroup(a1, k, a0, B - d); }
    MulMono(0, a1 + 1, k);
    MulMono(0, x, B - d);
    LargeError(a1 + 1, k, x, d);
  }

  lemma {:induction false} Regroup(a1: int, k: int, a0: int, c: int)
    ensures a1 * k + a0 * c - (c * c - k) == (a1 + 1) * k + c * (a0 - c)
  {
  }

  lemma {:induction false} ErrorIdentity(m: int, d: int, a1: int, a0: int, s: int, y: int, k: int)
    requires k == B * B - m * d
    requires y == m * a1 + a0 + s * (m + d - 2 * B)
    ensures (a1 * B + a0) * B - y * d == a1 * k + a0 * (B - d) - s * ((B - d) * (B - d) - k)
  {
    assert a1 * k == a1 * (B * B) - (m * a1) * d;
    assert s * ((B - d) * (B - d) - k) == s * (d * d - 2 * B * d + m * d);
    assert (s * (m + d - 2 * B)) * d == s * (m * d + d * d - 2 * B * d);
    assert y * d == (m * a1) * d + a0 * d + (s * (m + d - 2 * B)) * d;
  }

  lemma {:induction false} SmallError(a1: int, k: int, a0: int, d: int)
    requires 0 <= a1 < d && 1 <= k <= d && 0 <= a0 < HALF <= d < B
    ensures a1 * k + a0 * (B - d) < d * B
  {
    MulMono(k, d, a1);
    MulMono(a1, d - 1, d);
    MulMono(a0, d, B - d);
  }

  lemma {:induction false} LargeError(a: int, k: int, x: int, d: int)
    requires 0 <= a <= d && 1 <= k <= d && 0 <= x < d < B
    ensures a * k + (B - d) * x < d * B
  {
    MulMono(k, d, a);
    MulMono(a, d, d);
    MulMono(x, d - 1, B - d);
  }

  /** Rounding the estimate down loses less than one more unit. */
  lemma {:induction false} EstimateBounds(n: int, d: int, y: int, q: int)
    requires d > 0 && 0 <= n * B - y * d < d * B && q * B <= y < q * B + B
    ensures 0 <= n - q * d < 2 * d
  {
    var r := y - q * B;
    MulMono(r, B - 1, d);
    MulMono(0, r, d);
    assert (q * B + r) * d == (q * d) * B + r * d;
  }

  /** Quotient and remainder of a1 * B + a0 by d; every step wraps as the limb types do. */
  method Udiv1norm(a1: Limb, a0: Limb, d: Limb, d_inv: Limb) returns (q: Limb, r: Limb)
    requires d >= HALF && a1 < d && d_inv == Udiv1normInit(d)
    ensures a1 * B + a0 == q * d + r && r < d
  {
    hide Udiv1normInit;
    ghost var s := if a0 >= HALF then 1 else 0;
    var top, n_adj := Adjust(a1, a0, d);
    ProductBound(d_inv, top);
    var a: int := d_inv * top + n_adj;
    var lo, hi := Halves(a);
    Estimate(d, d_inv, a1, a0, s, a + a1 * B, hi + a1);
    q := (hi + a1) % B;
    q, r := Udiv1normFix(a1, a0, d, q, hi + a1);
  }

  /** The sign mask of a0 adds d to the low limb and one to the high limb. */
  method Adjust(a1: Limb, a0: Limb, d: Limb) returns (top: Limb, n_adj: Limb)
    requires d >= HALF && a1 < d
    ensures top == a1 + (if a0 >= HALF then 1 else 0)
    ensures n_adj == a0 + (if a0 >= HALF then d - B else 0)
  {
    var n1m: Limb := if a0 >= HALF then B - 1 else 0;
    n_adj := (a0 + (if n1m == 0 then 0 else d)) % B;
    top := (a1 - n1m) % B;
  }

  lemma {:induction false} Estimate(d: Limb, d_inv: Limb, a1: Limb, a0: Limb, s: int, y: int, q0: int)
    requires d >= HALF && a1 < d
    requires (B + d_inv) * d <= B * B - 1 < (B + d_inv + 1) * d
    requires s == if a0 >= HALF then 1 else 0
    requires y == d_inv * (a1 + s) + a0 + s * (d - B) + a1 * B
    requires q0 * B <= y < q0 * B + B
    ensures 0 <= a1 * B + a0 - q0 * d < 2 * d
    ensures 0 <= q0 < B
  {
    var m := B + d_inv;
    assert d_inv * (a1 + s) == m * a1 + m * s - B * a1 - B * s;
    assert y == m * a1 + a0 + s * (m + d - 2 * B);
    EstimateError(m, d, a1, a0, s, y);
    EstimateBounds(a1 * B + a0, d, y, q0);
    if q0 >= B { MulMono(B, q0, d); MulMono(a1 + 1, d, B); }
    if q0 < 0 { assert y < 0; MulMono(0, d_inv, a1 + s); }
  }

  /** The correction step: subtract once too often and add back under the sign mask. */
  method Udiv1normFix(a1: Limb, a0: Limb, d: Limb, q: Limb, ghost q0: int) returns (q': Limb, r: Limb)
    requires d >= HALF && a1 < d && q == q0
    requires 0 <= a1 * B + a0 - q0 * d < 2 * d
    ensures a1 * B + a0 == q' * d + r && r < d
  {
    ghost var e: int := a1 * B + a0 - q0 * d - d;
    ProductBound(q, d);
    var a: int := (a1 * B + a0 - q * d - d) % (B * B);
    WrapTwice(e, d);
    var lo, ah := Halves(a);
    q' := (q + 1 + ah) % B;
    r := (lo + (if ah == 0 then 0 else d)) % B;
    FixedQuotient(a1, a0, d, q, e, lo, ah);
  }

  lemma {:induction false} WrapTwice(e: int, d: int)
    requires -d <= e < d < B
    ensures e % (B * B) == if e >= 0 then e else e + B * B
  {
  }

  lemma {:induction false} FixedQuotient(a1: int, a0: int, d: int, q: int, e: int, lo: int, ah: int)
    requires 0 <= a1 < d < B && 0 <= a0 < B && 0 <= q < B && e == a1 * B + a0 - q * d - d && -d <= e < d
    requires 0 <= lo < B && 0 <= ah < B
    requires ah * B + lo == if e >= 0 then e else e + B * B
    ensures a1 * B + a0 == ((q + 1 + ah) % B) * d + (lo + (if ah == 0 then 0 else d)) % B
    ensures (lo + (if ah == 0 then 0 else d)) % B < d
  {
    if e >= 0 {
      assert ah == 0 && lo == e;
      if q == B - 1 { FixTop(a1, a0, d); }
      NextTimes(q, d);
    } else {
      assert ah == B - 1 && lo == e + B;
      WrapOnce(q);
      WrapOnce(e + d);
    }
  }

  lemma {:induction false} NextTimes(q: int, d: int)
    ensures (q + 1) * d == q * d + d
  {
  }

  lemma {:induction false} WrapOnce(x: int)
    requires 0 <= x < B
    ensures (x + B) % B == x
  {
  }

  lemma {:induction false} FixTop(a1: int, a0: int, d: int)
    requires 0 <= a1 < d && 0 <= a0 < B
    ensures a1 * B + a0 - (B - 1) * d - d < 0
  {
  }
}
