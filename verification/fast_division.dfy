/** Divisions by constants through multiplication: fast_udiv for any divisor, divdq_base for 10^19. */
module FastDivision {
  import opened Limbs
  import opened Rounding
  import opened BfBits
  import opened NttArith

  // ---------- fast_udiv ----------

  datatype FastDivData = FastDivData(m1: Limb, shift1: nat, shift2: nat)

  /** ceil_log2: the least l with d <= 2^l. */
  function CeilLog2(d: Limb): (l: nat) {
    if d <= 1 then 0 else 64 - Clz(d - 1)
  }

  lemma {:induction false} CeilLog2Range(d: Limb)
    requires 1 <= d <= B / 2
    ensures CeilLog2(d) <= 63 && d <= Two(CeilLog2(d)) && Two(CeilLog2(d)) < 2 * d
    ensures CeilLog2(d) == 0 ==> d == 1
  {
    hide Two;
    var l := CeilLog2(d);
    if d == 1 {
      ScaleOne(1);
    } else {
      HalfLimb();
      if l == 0 { ScaleOne(1); } else { TwoDouble(l); }
      TwoAbove(l);
    }
  }

  lemma {:induction false} TwoAbove(l: nat)
    ensures l > 63 ==> Two(l - 1) >= Two(63)
  {
    hide Two;
    if l > 63 { TwoMono(63, l - 1); }
  }

  /** The multiplier, with its implicit 65th bit, is 2^(64 + l) / d rounded up, or one more. */
  ghost predicate Multiplier(m1: int, l: nat, d: int) {
    1 <= (m1 + B) * d - B * Two(l) <= Two(l)
  }

  ghost predicate Prepared(s: FastDivData, d: Limb)
    requires 1 <= d <= B / 2
  {
    var l := CeilLog2(d);
    Multiplier(s.m1, l, d) && s.shift1 == (if l > 1 then 1 else l) && s.shift2 == if l >= 1 then l - 1 else 0
  }

  method FastUdivInit(d: Limb) returns (s: FastDivData)
    requires 1 <= d <= B / 2
    ensures Prepared(s, d)
  {
    hide Two;
    CeilLog2Range(d);
    var l := CeilLog2(d);
    var q := (Two(l) - d) * B / d;
    MultiplierBound(Two(l) - d, d, q);
    var m1 := q + 1;
    var shift1 := if l > 1 then 1 else l;
    var shift2 := if l < 1 then 0 else l - 1;
    s := FastDivData(m1, shift1, shift2);
    MultiplierExact(m1, l, d, q);
  }

  lemma {:induction false} MultiplierBound(x: int, d: int, q: int)
    requires 0 <= x < d && q == x * B / d && d <= B / 2
    ensures 0 <= q && q + 1 < B
  {
    DivMod(x * B, d);
    MulMono(0, x, B);
    MulMono(x, d - 1, B);
    if q < 0 { MulMono(q, -1, d); MulSwap(d, q); }
    if q + 1 >= B { MulMono(B - 1, q, d); MulSwap(d, q); }
  }

  lemma {:induction false} MultiplierExact(m1: int, l: nat, d: int, q: int)
    requires 1 <= d <= Two(l) && q == (Two(l) - d) * B / d && m1 == q + 1
    ensures Multiplier(m1, l, d)
  {
    hide Two;
    var x := (Two(l) - d) * B;
    DivMod(x, d);
    var e := d - x % d;
    assert (m1 + B) * d == B * Two(l) + e by { MultiplierSum(q, d, Two(l), x % d, x); }
  }

  lemma {:induction false} MultiplierSum(q: int, d: int, t: int, r: int, x: int)
    requires x == (t - d) * B && x == d * q + r
    ensures (q + 1 + B) * d == B * t + (d - r)
  {
    assert (q + 1 + B) * d == q * d + d + B * d;
    assert d * q == q * d;
  }

  /** fast_udiv: the quotient, for every limb. */
  method FastUdiv(a: Limb, s: FastDivData, ghost d: Limb) returns (q: Limb)
    requires 1 <= d <= B / 2 && Prepared(s, d)
    ensures q as int == a / d
  {
    hide Two, Clz, CeilLog2, Multiplier;
    CeilLog2Range(d);
    ghost var l := CeilLog2(d);
    var t1 := s.m1 * a / B;
    HighProduct(s.m1, a);
    ShiftBounds(a - t1, s.shift1);
    var t0 := (a - t1) / Two(s.shift1);
    Halved(a, t1, t0, s.shift1);
    ShiftBounds(t1 + t0, s.shift2);
    q := (t1 + t0) / Two(s.shift2);
    Exact(a, s.m1, l, d, t1, q);
  }

  lemma {:induction false} HighProduct(m: Limb, a: Limb)
    ensures 0 <= m * a / B <= a
  {
    DivMod(m * a, B);
    MulMono(0, m, a);
    MulMono(m, B, a);
  }

  lemma {:induction false} ShiftBounds(x: int, s: nat)
    requires 0 <= x
    ensures 0 <= x / Two(s) <= x
  {
    hide Two;
    DivMod(x, Two(s));
    if x / Two(s) < 0 { MulMono(x / Two(s), -1, Two(s)); MulSwap(Two(s), x / Two(s)); }
    if x / Two(s) >= 0 { MulMono(1, Two(s), x / Two(s)); }
  }

  lemma {:induction false} Halved(a: int, t1: int, t0: int, s: nat)
    requires 0 <= t1 <= a && s <= 1 && t0 == (a - t1) / Two(s)
    ensures t1 + t0 == (a + t1) / (if s == 1 then 2 else 1) || s == 0
    ensures s == 1 ==> t1 + t0 == (a + t1) / 2
    ensures t1 + t0 <= a
    ensures s == 0 ==> t1 + t0 == a
  {
  }

  /** Granlund and Montgomery's argument: rounding the multiplier up does not reach the next quotient. */
  lemma {:induction false} Exact(a: Limb, m1: int, l: nat, d: Limb, t1: int, q: int)
    requires d >= 1 && Multiplier(m1, l, d) && t1 == m1 * a / B && 0 <= m1
    requires l >= 1 ==> q == (a + t1) / 2 / Two(l - 1)
    requires l == 0 ==> d == 1 && q == a
    ensures q == a / d
  {
    hide Two;
    if l >= 1 {
      var e := (m1 + B) * d - B * Two(l);
      TwoDouble(l);
      NestedDivision(a + t1, 2, Two(l - 1));
      var w, r := m1 * a % B, (a + t1) % Two(l);
      DivMod(m1 * a, B);
      DivMod(a + t1, Two(l));
      DivMod(a, d);
      ExactSum(a, m1, Two(l), d, t1, q, e, w, r);
    } else {
      UniqueDivision(a, 1, a, 0);
    }
  }

  lemma {:induction false} ExactSum(a: int, m1: int, p: int, d: int, t1: int, q: int, e: int, w: int, r: int)
    requires 0 <= a < B && d >= 1 && p >= 1 && 1 <= e <= p && (m1 + B) * d == B * p + e
    requires m1 * a == B * t1 + w && 0 <= w < B && a + t1 == p * q + r && 0 <= r < p
    ensures q == a / d
  {
    var x, s1, s2 := a - q * d, d * (B * r + w), a * e;
    ExactIdentity(a, m1, p, d, t1, q, e, w, r);
    ExactIdentity2(a, p, d, q, r, w, e);
    ExactBelow(r, w, p, d);
    ExactAbove(a, e, p);
    Between(B * p, x, d, s1 - s2);
    MulSwap(q, d);
    UniqueDivision(a, d, q, x);
  }

  lemma {:induction false} ExactBelow(r: int, w: int, p: int, d: int)
    requires 0 <= r < p && 0 <= w < B && d >= 1
    ensures 0 <= d * (B * r + w) < d * (B * p)
  {
    MulMono(0, B * r + w, d);
    MulStrict(B * r + w, B * p, d);
    MulSwap(B * r + w, d);
    MulSwap(B * p, d);
  }

  lemma {:induction false} ExactAbove(a: int, e: int, p: int)
    requires 0 <= a < B && 1 <= e <= p
    ensures 0 <= a * e < B * p
  {
    MulMono(0, a, e);
    MulMono(e, p, a);
    MulStrict(a, B, p);
    MulSwap(e, a);
    MulSwap(p, a);
  }

  lemma {:induction false} Between(k: int, x: int, d: int, s: int)
    requires k >= 1 && k * x == s && -k < s < d * k
    ensures 0 <= x < d
  {
    if x <= -1 { MulMono(x, -1, k); MulSwap(x, k); }
    if x >= d { MulMono(d, x, k); MulSwap(x, k); }
  }

  lemma {:induction false} ExactIdentity(a: int, m1: int, p: int, d: int, t1: int, q: int, e: int, w: int, r: int)
    requires (m1 + B) * d == B * p + e && m1 * a == B * t1 + w && a + t1 == p * q + r
    ensures B * p * a + a * e == d * (B * (p * q + r) + w)
  {
    assert ((m1 + B) * d) * a == (B * p + e) * a;
    assert ((m1 + B) * d) * a == d * (m1 * a + B * a) by { ExactIdentity3(m1, d, a); }
    assert (B * p + e) * a == B * p * a + a * e by { MulSwap(e, a); }
  }

  lemma {:induction false} ExactIdentity3(m1: int, d: int, a: int)
    ensures ((m1 + B) * d) * a == d * (m1 * a + B * a)
  {
    MulSwap(m1 + B, d);
    MulAssoc(d, m1 + B, a);
  }

  lemma {:induction false} ExactIdentity2(a: int, p: int, d: int, q: int, r: int, w: int, e: int)
    requires B * p * a + a * e == d * (B * (p * q + r) + w)
    ensures (B * p) * (a - q * d) == d * (B * r + w) - a * e
  {
    assert d * (B * (p * q + r) + w) == d * (B * (p * q)) + d * (B * r + w);
    assert d * (B * (p * q)) == (B * p) * (q * d) by { MulAssoc(B, p, q); MulAssoc3(B * p, d, q); MulSwap(d, (B * p) * q); MulAssoc(B * p, q, d); }
  }

  // ---------- divdq_base ----------

  const BF_DEC_BASE: Limb := 10000000000000000000
  const BASE_INVERSE: Limb := 17014118346046923173

  /** The quotient by the scaled inverse is at most two too small. */
  lemma {:induction false} BaseQuotient(a: int, t0: int, q: int)
    requires 0 <= a < B * (B / 2) && t0 == a / (B / 2) && q == t0 * BASE_INVERSE / B
    ensures 0 <= a - q * BF_DEC_BASE < 3 * BF_DEC_BASE && 0 <= t0 < B && 0 <= q < B
  {
    BaseQuotientParts(a, t0, a % (B / 2), q, t0 * BASE_INVERSE % B);
  }

  lemma {:induction false} BaseQuotientParts(a: int, t0: int, r0: int, q: int, s: int)
    requires 0 <= a < B * (B / 2) && a == t0 * (B / 2) + r0 && 0 <= r0 < B / 2
    requires t0 * BASE_INVERSE == q * B + s && 0 <= s < B
    ensures 0 <= a - q * BF_DEC_BASE < 3 * BF_DEC_BASE && 0 <= t0 < B && 0 <= q < B
  {
    BaseRemainder(a, t0, r0, q, s);
    BaseBounds(a - q * BF_DEC_BASE, t0, r0, s);
    BaseLimb(t0, q, s);
  }

  /** The base times the inverse, which falls short of 2^127 by this much. */
  const INVERSE_ERROR := 1687303715884105728

  lemma {:induction false} BaseRemainder(a: int, t0: int, r0: int, q: int, s: int)
    requires a == t0 * (B / 2) + r0 && t0 * BASE_INVERSE == q * B + s
    ensures B * (a - q * BF_DEC_BASE) == B * r0 + t0 * INVERSE_ERROR + s * BF_DEC_BASE
  {
  }

  lemma {:induction false} BaseBounds(x: int, t0: int, r0: int, s: int)
    requires B * x == B * r0 + t0 * INVERSE_ERROR + s * BF_DEC_BASE
    requires 0 <= r0 < B / 2 && 0 <= t0 < B && 0 <= s < B
    ensures 0 <= x < 3 * BF_DEC_BASE
  {
  }

  lemma {:induction false} BaseLimb(t0: int, q: int, s: int)
    requires 0 <= t0 < B && t0 * BASE_INVERSE == q * B + s && 0 <= s < B
    ensures 0 <= q < B
  {
  }

  /** The double limb hi, lo less the double limb shi, slo. */
  method SubDq(hi: Limb, lo: Limb, shi: Limb, slo: Limb) returns (dhi: Limb, dlo: Limb)
    ensures dhi as int * B + dlo == (hi as int * B + lo - shi * B - slo) % DOUBLE
  {
    dlo := (lo - slo) % B;
    dhi := (hi - shi - (if lo < slo then 1 else 0)) % B;
    DoubleLimb(hi as int * B + lo - shi * B - slo, hi - shi - (if lo < slo then 1 else 0), dlo);
  }

  /** A double limb from a high part that may be out of range. */
  lemma {:induction false} DoubleLimb(x: int, high: int, low: Limb)
    requires x == high * B + low
    ensures high % B * B + low == x % DOUBLE
  {
    var q, h := high / B, high % B;
    assert x == DOUBLE * q + (h * B + low);
    UniqueDivision(x, DOUBLE, q, h * B + low);
  }

  method AddDq(hi: Limb, lo: Limb, slo: Limb) returns (dhi: Limb, dlo: Limb)
    ensures dhi as int * B + dlo == (hi as int * B + lo + slo) % DOUBLE
  {
    dlo := (lo + slo) % B;
    dhi := (hi + (if dlo < lo then 1 else 0)) % B;
    DoubleLimb(hi as int * B + lo + slo, hi + (if dlo < lo then 1 else 0), dlo);
  }

  /** The high limb of a small signed number, and half of it as a mask. */
  lemma {:induction false} HighLimb(v: int, hi: Limb, lo: Limb)
    requires -2 * BF_DEC_BASE <= v < BF_DEC_BASE && hi as int * B + lo == v % DOUBLE
    ensures SignedHalf(hi) == if v < 0 then B - 1 else 0
    ensures v >= 0 - BF_DEC_BASE ==> hi == (if v < 0 then B - 1 else 0) && lo == if v < 0 then v + B else v
  {
  }

  lemma {:induction false} ModShift(x: int, y: int, k: int)
    requires x == y % DOUBLE
    ensures (x + k) % DOUBLE == (y + k) % DOUBLE
  {
  }

  /** The end of divdq_base: the remainder v and the quotient q brought into range. */
  method Settle(hi0: Limb, lo0: Limb, q0: Limb, ghost v: int) returns (q: Limb, r: Limb)
    requires -2 * BF_DEC_BASE <= v < BF_DEC_BASE && hi0 as int * B + lo0 == v % DOUBLE
    ensures exists up: int :: 0 <= up <= 2 && q == Up(q0, up) && r < BF_DEC_BASE && r as int == v + (2 - up) * BF_DEC_BASE
  {
    hide SignedHalf, And;
    HighLimb(v, hi0, lo0);
    var t0 := SignedHalf(hi0);
    AndMask(BF_DEC_BASE);
    q := (q0 + 2 + t0) % B;
    var hi, lo := AddDq(hi0, lo0, And(BF_DEC_BASE, t0));
    ghost var v1 := if v < 0 then v + BF_DEC_BASE else v;
    ModShift(hi0 as int * B + lo0, v, And(BF_DEC_BASE, t0));
    HighLimb(v1, hi, lo);
    SettledQuotient(q0, t0, hi);
    q := (q + hi) % B;
    r := (lo + And(BF_DEC_BASE, hi)) % B;
    SettledRemainder(v1, lo, And(BF_DEC_BASE, hi), r);
    ghost var up := if v >= 0 then 2 else if v1 >= 0 then 1 else 0;
    assert q == Up(q0, up);
  }

  lemma {:induction false} AndMask(x: Limb)
    ensures And(x, 0) == 0 && And(x, B - 1) == x
  {
  }

  /** Each mask of ones takes one from the quotient. */
  lemma {:induction false} SettledQuotient(q0: Limb, t0: Limb, t1: Limb)
    requires (t0 == 0 || t0 == B - 1) && (t1 == 0 || t1 == B - 1)
    ensures ((q0 + 2 + t0) % B + t1) % B
         == Up(q0, if t0 == 0 && t1 == 0 then 2 else if t0 != 0 && t1 != 0 then 0 else 1)
  {
  }

  lemma {:induction false} SettledRemainder(v1: int, lo: Limb, add: Limb, r: Limb)
    requires 0 - BF_DEC_BASE <= v1 < BF_DEC_BASE && lo == (if v1 < 0 then v1 + B else v1)
    requires add == (if v1 < 0 then BF_DEC_BASE else 0) && r == (lo + add) % B
    ensures r as int == if v1 < 0 then v1 + BF_DEC_BASE else v1
  {
  }

  function Up(q: Limb, up: int): Limb {
    (q + up) % B
  }

  lemma {:induction false} SubtractTwo(x1: int, x2: int, y: int, v: int)
    requires x1 == y % DOUBLE && x2 == (x1 - B - (2 * BF_DEC_BASE - B)) % DOUBLE && v == y - 2 * BF_DEC_BASE
    ensures x2 == v % DOUBLE
  {
    ModShift(x1, y, -2 * BF_DEC_BASE);
  }

  lemma {:induction false} HighBits(a1: Limb, a0: Limb)
    requires a1 < B / 2
    ensures (a1 as int * B + a0) / (B / 2) == a1 * 2 + a0 / (B / 2)
    ensures 0 <= a1 as int * B + a0 < B * (B / 2)
  {
    UniqueDivision(a1 as int * B + a0, B / 2, a1 * 2 + a0 / (B / 2), a0 % (B / 2));
  }

  /** divdq_base: the double limb a1, a0 divided by 10^19, for a1 below 2^63. */
  method DivdqBase(a1: Limb, a0: Limb) returns (q: Limb, r: Limb)
    requires a1 < B / 2
    ensures a1 as int * B + a0 == q as int * BF_DEC_BASE + r && r < BF_DEC_BASE
  {
    ghost var a := a1 as int * B + a0;
    HighBits(a1, a0);
    var t0 := a1 * 2 + a0 / (B / 2);
    var q0 := t0 * BASE_INVERSE / B;
    BaseQuotient(a, t0, q0);
    var pHi, pLo := BaseProduct(q0);
    var hi, lo := SubDq(a1, a0, pHi, pLo);
    ghost var x1 := hi as int * B + lo;
    hi, lo := SubDq(hi, lo, 1, 2 * BF_DEC_BASE - B);
    ghost var v := a - q0 * BF_DEC_BASE - 2 * BF_DEC_BASE;
    SubtractTwo(x1, hi as int * B + lo, a - q0 * BF_DEC_BASE, v);
    q, r := Settle(hi, lo, q0, v);
    Settled(a, q0, q, r);
  }

  /** muldq by the base. */
  method BaseProduct(q: Limb) returns (hi: Limb, lo: Limb)
    ensures hi as int * B + lo == q * BF_DEC_BASE
  {
    var p := q * BF_DEC_BASE;
    hi, lo := p / B, p % B;
  }

  lemma {:induction false} Settled(a: int, q0: Limb, q: Limb, r: Limb)
    requires 0 <= a < B * (B / 2) && r < BF_DEC_BASE
    requires exists up: int :: 0 <= up <= 2 && q == Up(q0, up) && r as int == a - q0 * BF_DEC_BASE - 2 * BF_DEC_BASE + (2 - up) * BF_DEC_BASE
    ensures a == q as int * BF_DEC_BASE + r
  {
  }
}
