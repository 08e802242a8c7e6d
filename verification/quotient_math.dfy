/** Integer facts behind long division: how far a quotient digit guessed from the leading
    limbs can be off, and how the digit-by-digit invariant advances. */
module QuotientMath {
  import opened Limbs

  /** The digit guessed from two leading limbs of the window and one of the divisor. */
  function Guess(u1: Limb, u0: Limb, b1: Limb): (q: Limb)
    requires b1 >= HALF
    ensures q * b1 <= u1 * B + u0
    ensures u1 < b1 ==> u1 * B + u0 < (q + 1) * b1
    ensures u1 >= b1 ==> q == B - 1
  {
    if u1 >= b1 then
      MulMono(b1, u1, B);
      B - 1
    else
      MulMono(u1 + 1, b1, B);
      DivLess(u1 * B + u0, b1, B);
      DivMod(u1 * B + u0, b1);
      (u1 * B + u0) / b1
  }

  /** Knuth's bound: the guess is never too small and at most two too large. */
  lemma {:induction false} GuessBounds(u1: Limb, u0: Limb, b1: Limb, q: int, p: int, w: int, v: int)
    requires b1 >= HALF && q == Guess(u1, u0, b1)
    requires (u1 * B + u0) * p <= w < (u1 * B + u0 + 1) * p
    requires b1 * p <= v < (b1 + 1) * p
    requires p >= 1 && w < B * v
    ensures w < (q + 1) * v
    ensures (q - 2) * v <= w
  {
    hide Guess;
    if u1 < b1 { GuessUpper(u1 * B + u0, b1, q, p, w, v); }
    GuessLower(u1 * B + u0, b1, q, p, w, v);
  }

  lemma {:induction false} GuessUpper(u: int, b1: int, q: int, p: int, w: int, v: int)
    requires u < (q + 1) * b1 && q >= 0 && p >= 1
    requires w < (u + 1) * p && b1 * p <= v
    ensures w < (q + 1) * v
  {
    MulMono(u + 1, (q + 1) * b1, p);
    MulAssoc(q + 1, b1, p);
    Regroup(q + 1, b1, p);
    MulMono(b1 * p, v, q + 1);
  }

  lemma {:induction false} GuessLower(u: int, b1: int, q: int, p: int, w: int, v: int)
    requires q * b1 <= u && 0 <= q < B <= 2 * b1 && p >= 1
    requires u * p <= w && b1 * p <= v < (b1 + 1) * p
    ensures (q - 2) * v <= w
  {
    MulMono(v, (b1 + 1) * p, q);
    MulAssoc(q, b1, p);
    Regroup(q, b1, p);
    MulMono(q * b1, u, p);
    MulMono(q, 2 * b1, p);
    MulAssoc(2, b1, p);
    assert (q - 2) * v == q * v - 2 * v;
  }

  lemma {:induction false} Regroup(x: int, y: int, z: int)
    ensures x * ((y + 1) * z) == x * (y * z) + x * z
    ensures (y * z) * x == x * (y * z) && z * x == x * z
  {
  }

  /** One digit further down: the low part, the window and the digits so far. */
  lemma {:induction false} DigitStep(a0: int, low: int, p: int, w: int, v: int, qs: int, q: int, r: int)
    requires a0 == low + p * w + (v * (B * p)) * qs
    requires w == q * v + r
    ensures a0 == low + p * r + (v * p) * (q + B * qs)
  {
    assert p * w == p * (q * v) + p * r;
    assert p * (q * v) == (v * p) * q;
    assert (v * (B * p)) * qs == (v * p) * (B * qs);
  }

  /** Adding back wraps the window exactly when the remainder becomes non-negative. */
  lemma {:induction false} WrapTest(low: int, top: int, c: int, p: int)
    requires 0 <= low < p
    ensures low + p * (c + top) >= p * B <==> c + top >= B
  {
    if c + top >= B { MulMono(B, c + top, p); } else { MulMono(c + top, B - 1, p); }
  }

  /** Two quotient-remainder pairs with the same divisor agree. */
  lemma {:induction false} UniqueQuotient(v: int, q: int, r: int, q': int, r': int)
    requires v > 0 && 0 <= r < v && 0 <= r' < v
    requires q * v + r == q' * v + r'
    ensures q == q' && r == r'
  {
    if q < q' { MulMono(q + 1, q', v); }
    if q > q' { MulMono(q' + 1, q, v); }
  }
}
