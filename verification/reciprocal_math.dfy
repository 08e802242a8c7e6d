/** Newton's iteration for the reciprocal B^(2n)/a, and the quotient it gives, over the integers.
    `bl` and `bh` stand for B^l and B^h with h > l, so B^n = bl * bh. */
module ReciprocalMath {
  import opened Limbs

  ghost predicate IsReciprocal(a: int, x: int, square: int) {
    a * x < square < a * (x + 2)
  }

  lemma {:induction false} Swap(x: int, y: int, z: int)
    ensures x * (y * z) == y * (x * z)
    ensures (x * y) * z == (x * z) * y
  {
  }

  /** Lifting the high half's reciprocal to the whole number leaves an error below 2a. */
  lemma {:induction false} ErrorUnchanged(a: int, ah: int, al: int, bl: int, bh: int, x: int, e: int)
    requires a == ah * bl + al && 0 <= al && bl >= 1 && x >= 0
    requires bh * bh < ah * (x + 2)
    requires a * x == bl * (bh * bh) - e
    ensures e < 2 * a
  {
    MulMono(bh * bh + 1, ah * (x + 2), bl);
    Swap(ah, x + 2, bl);
    MulMono(ah * bl, a, x + 2);
    assert (bh * bh + 1) * bl == bl * (bh * bh) + bl;
    assert a * (x + 2) == a * x + 2 * a;
  }

  /** The truncated correction never overshoots. */
  lemma {:induction false} NewtonUpper(a: int, x: int, e: int, bl: int, bh: int, m: int)
    requires a >= 0 && e > 0 && bl >= 1 && bh >= 1
    requires a * x == bl * (bh * bh) - e
    requires m * (bh * bh) <= e * x
    ensures a * m < e * bl
    ensures a * (x * bl + m) < (bl * bh) * (bl * bh)
  {
    var s := bh * bh;
    MulMono(m * s, e * x, a);
    assert (m * s) * a == (a * m) * s by { Swap(a, m, s); }
    assert (e * x) * a == e * (a * x) by { Swap(a, e, x); }
    assert e * (bl * s - e) == (e * bl) * s - e * e by { Swap(e, bl, s); }
    MulMono(1, e, e);
    if a * m >= e * bl { MulMono(e * bl, a * m, s); }
    NewtonTotal(a, x, e, bl, bh, m);
  }

  lemma {:induction false} NewtonTotal(a: int, x: int, e: int, bl: int, bh: int, m: int)
    requires a * x == bl * (bh * bh) - e
    ensures a * (x * bl + m) == (bl * bh) * (bl * bh) - e * bl + a * m
  {
    assert a * (x * bl) == (a * x) * bl;
    assert (bl * (bh * bh)) * bl == (bl * bh) * (bl * bh);
  }

  /** Nor does it fall short by two. */
  lemma {:induction false} NewtonLower(a: int, x: int, e: int, bl: int, bh: int, m: int)
    requires 0 < e < 2 * a && bl >= 1 && B * bl <= bh
    requires bl * bh <= 2 * a && a <= bl * bh
    requires a * x == bl * (bh * bh) - e
    requires e * x < (m + 1) * (bh * bh) + bl * x
    ensures (bl * bh) * (bl * bh) < a * (x * bl + m + 2)
  {
    var s := bh * bh;
    SmallTerms(a, e, bl, bh);
    MulMono(e * x + 1, (m + 1) * s + bl * x, a);
    assert (e * x + 1) * a == e * (a * x) + a by { Swap(a, e, x); }
    assert ((m + 1) * s + bl * x) * a == (a * (m + 1)) * s + bl * (a * x) by { Swap(a, m + 1, s); Swap(a, bl, x); }
    LowerCombine(a, e, bl, s, m);
    NewtonTotal(a, x, e, bl, bh, m);
    assert a * (x * bl + m + 2) == a * (x * bl + m) + 2 * a;
  }

  lemma {:induction false} LowerCombine(a: int, e: int, bl: int, s: int, m: int)
    requires e >= 0 && bl >= 0 && s > 0 && a > 0
    requires e * (bl * s - e) + a <= (a * (m + 1)) * s + bl * (bl * s - e)
    requires e * e + (bl * bl) * s <= a * s
    ensures e * bl < a * m + 2 * a
  {
    LowerExpanded(e, bl, s);
    MulMono(0, e, bl);
    LowerLinear(e * bl, a * m, a, s, (e * bl) * s, e * e, (bl * bl) * s, (a * m) * s, a * s);
  }

  lemma {:induction false} LowerExpanded(e: int, bl: int, s: int)
    ensures e * (bl * s - e) == (e * bl) * s - e * e
    ensures bl * (bl * s - e) == (bl * bl) * s - e * bl
  {
    Swap(e, bl, s);
    Swap(bl, bl, s);
  }

  /** The comparison, linear in its products. */
  lemma {:induction false} LowerLinear(y: int, z: int, a: int, s: int, ys: int, ee: int, bbs: int, zs: int, asum: int)
    requires s > 0 && a > 0 && y >= 0 && ys == y * s && zs + 2 * asum == (z + 2 * a) * s
    requires ys - ee + a <= zs + asum + (bbs - y) && ee + bbs <= asum
    ensures y < z + 2 * a
  {
    CancelFactor(y, z + 2 * a, s, zs, asum);
  }

  lemma {:induction false} CancelFactor(y: int, t: int, s: int, zs: int, twice: int)
    requires s > 0 && y * s < zs + 2 * twice && zs + 2 * twice == t * s
    ensures y < t
  {
    if y >= t { MulMono(t, y, s); }
  }

  /** Both error terms are a few units of a/B. */
  lemma {:induction false} SmallTerms(a: int, e: int, bl: int, bh: int)
    requires 0 < e < 2 * a && bl >= 1 && B * bl <= bh
    requires bl * bh <= 2 * a && a <= bl * bh
    ensures e * e + (bl * bl) * (bh * bh) <= a * (bh * bh)
  {
    SquareTerm(a, e, bl, bh);
    LowTerm(a, bl, bh);
    MulMono(0, a, bh * bh);
  }

  lemma {:induction false} SquareTerm(a: int, e: int, bl: int, bh: int)
    requires 0 < e < 2 * a && bl >= 1 && B * bl <= bh && a <= bl * bh
    ensures B * (e * e) <= 4 * (a * (bh * bh))
  {
    MulMono(e, 2 * a, e);
    MulMono(e, 2 * a, 2 * a);
    MulMono(a, bl * bh, a);
    MulMono(B * bl, bh, bh);
    MulMono((B * bl) * bh, bh * bh, a);
    assert (B * bl) * bh == B * (bl * bh);
  }

  lemma {:induction false} LowTerm(a: int, bl: int, bh: int)
    requires bl >= 1 && B * bl <= bh && bl * bh <= 2 * a
    ensures B * ((bl * bl) * (bh * bh)) <= 2 * (a * (bh * bh))
  {
    MulMono(B * bl, bh, bl);
    assert B * (bl * bl) <= 2 * a;
    MulMono(B * (bl * bl), 2 * a, bh * bh);
  }

  // ---------- the quotient from the reciprocal ----------

  /** a = ah * plow + al; the product of ah with the reciprocal is shifted down by psh. */
  lemma {:induction false} NeverOvershoots(a: int, ah: int, al: int, plow: int, psh: int, pnn: int, v: int, x: int, q: int)
    requires a == ah * plow + al && ah >= 0 && al >= 0 && psh >= 1 && v >= 0
    requires psh * plow == pnn && x * v <= pnn
    requires q * psh <= x * ah
    ensures q * v <= a
  {
    MulMono(q * psh, x * ah, v);
    MulMono(x * v, pnn, ah);
    assert (q * psh) * v == (q * v) * psh by { Swap(q, psh, v); }
    assert (x * ah) * v == (x * v) * ah by { Swap(x, ah, v); }
    WeightedHigh(a, ah, al, plow, psh, pnn);
    MulMono(0, al, psh);
    Cancel(q * v, a, psh);
  }

  lemma {:induction false} WeightedHigh(a: int, ah: int, al: int, plow: int, psh: int, pnn: int)
    requires a == ah * plow + al && psh * plow == pnn
    ensures a * psh == pnn * ah + al * psh
  {
  }

  lemma {:induction false} Cancel(x: int, y: int, s: int)
    requires s >= 1
    ensures x * s <= y * s ==> x <= y
    ensures x * s < y * s ==> x < y
  {
    if x > y { MulMono(y + 1, x, s); }
    if x == y { }
  }

  lemma {:induction false} CloseBelow(a: int, ah: int, al: int, plow: int, psh: int, pnn: int, v: int, x: int, q: int, c: int)
    requires a == ah * plow + al && ah >= 0 && 0 <= al < v && psh >= 1 && c >= 0
    requires psh * plow == pnn && pnn <= v * (x + c)
    requires x * ah < (q + 1) * psh && ah <= psh
    ensures a < (q + c + 2) * v
  {
    MulMono(pnn, v * (x + c), ah);
    Spread(v, x, c, ah);
    MulMono(x * ah, (q + 1) * psh - 1, v);
    DistRight1((q + 1) * psh, v);
    MulMono(0, v, c);
    MulMono(ah, psh, v * c);
    MulMono(al, v, psh);
    WeightedHigh(a, ah, al, plow, psh, pnn);
    Gather(q, psh, v, c);
    Cancel(a, (q + c + 2) * v, psh);
  }

  lemma {:induction false} DistRight1(x: int, v: int)
    ensures (x - 1) * v == x * v - v
  {
  }

  lemma {:induction false} Spread(v: int, x: int, c: int, ah: int)
    ensures (v * (x + c)) * ah == (x * ah) * v + ah * (v * c)
    ensures v * c == c * v
  {
  }

  lemma {:induction false} Gather(q: int, psh: int, v: int, c: int)
    ensures ((q + 1) * psh) * v + psh * (v * c) + v * psh == ((q + c + 2) * v) * psh
  {
  }

  /** Incrementing the truncated divisor costs at most five more units. */
  lemma {:induction false} TruncatedDivisor(vh: int, x: int, pn: int, v: int, pt: int, vl: int)
    requires v == vh * pt + vl && 0 <= vl && pt >= 1 && pn >= 1
    requires pn <= 2 * vh && x <= 2 * pn && x >= 0
    requires pn * pn <= (vh + 1) * (x + 2)
    ensures (pn * pn) * pt <= v * (x + 7)
  {
    ghost var square, upper := pn * pn, vh * (x + 7);
    assert square <= upper;
    Scaled3(square, upper, vh, x + 7, pt);
    MulMono(vh * pt, v, x + 7);
  }

  lemma {:induction false} Scaled3(square: int, upper: int, vh: int, y: int, pt: int)
    requires square <= upper && upper == vh * y && pt >= 0
    ensures square * pt <= (vh * pt) * y
  {
    MulMono(square, upper, pt);
    Swap3(vh, y, pt);
  }

  lemma {:induction false} Swap3(x: int, y: int, z: int)
    ensures (x * y) * z == (x * z) * y
  {
  }
}
