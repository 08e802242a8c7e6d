/** Modular arithmetic on limbs without divisions, for moduli of 62 bits. */
module NttArith {
  import opened Limbs
  import opened Modular

  const NTT_MOD_LOG2_MIN_POWER: int := 0x2000_0000_0000_0000
  const DOUBLE: int := 0x1_0000_0000_0000_0000_0000_0000_0000_0000

  /** The moduli of the table lie strictly between 2^61 and 2^62. */
  predicate IsModulus(m: Limb) {
    NTT_MOD_LOG2_MIN_POWER < m < 2 * NTT_MOD_LOG2_MIN_POWER
  }

  /** add_mod */
  function AddMod(a: Limb, b: Limb, m: Limb): (r: Limb)
    requires a < m && b < m && m < B / 2
    ensures r < m && (r == a + b || r == a + b - m)
  {
    var r := (a + b) % B;
    if r >= m then r - m else r
  }

  /** sub_mod, which notices the wrap-around. */
  function SubMod(a: Limb, b: Limb, m: Limb): (r: Limb)
    requires a < m && b < m && m < B / 2
    ensures r < m && (r == a - b || r == a - b + m)
  {
    var r := (a - b) % B;
    if r > a then (r + m) % B else r
  }

  /** init_mul_mod_fast */
  function InitMulModFast(m: Limb): (r: Limb)
    requires IsModulus(m)
  {
    QuotientBound(m);
    B * NTT_MOD_LOG2_MIN_POWER / m
  }

  lemma {:induction false} QuotientBound(m: int)
    requires m > NTT_MOD_LOG2_MIN_POWER
    ensures 0 <= B * NTT_MOD_LOG2_MIN_POWER / m < B
  {
    MulMono(NTT_MOD_LOG2_MIN_POWER + 1, m, B);
    DivLess(B * NTT_MOD_LOG2_MIN_POWER, m, B);
  }

  /** The quotient by the precomputed inverse is at most two too small. */
  lemma {:induction false} FastQuotient(r: int, m: int, mInv: int, a1: int, q: int)
    requires m > NTT_MOD_LOG2_MIN_POWER && 0 <= r < B * NTT_MOD_LOG2_MIN_POWER
    requires mInv == B * NTT_MOD_LOG2_MIN_POWER / m && a1 == r / NTT_MOD_LOG2_MIN_POWER && q == a1 * mInv / B
    ensures 0 <= r - q * m < 3 * m
  {
    var p := NTT_MOD_LOG2_MIN_POWER;
    var rho1, rho0, rho2 := B * p % m, r % p, a1 * mInv % B;
    DivMod(B * p, m);
    DivMod(r, p);
    DivMod(a1 * mInv, B);
    assert 0 <= a1 < B;
    FastIdentity(r, m, mInv, a1, q, p, rho0, rho1, rho2);
    MulMono(rho2, B - 1, m);
    MulMono(0, rho2, m);
    ProductBelow(a1, rho1, B, m);
    Bounds3(r - q * m, m, m * rho2, a1 * rho1, rho0);
  }

  lemma {:induction false} ProductBelow(x: int, y: int, p: int, q: int)
    requires 0 <= x < p && 0 <= y < q
    ensures 0 <= x * y && x * y < p * q
  {
    MulMono(0, x, y);
    MulMono(x, p, y);
    MulMono(y + 1, q, p);
    assert p * y == y * p && p * q == q * p && (y + 1) * p == y * p + p;
  }

  lemma {:induction false} FastIdentity(r: int, m: int, mInv: int, a1: int, q: int, p: int, rho0: int, rho1: int, rho2: int)
    requires B * p == m * mInv + rho1 && r == p * a1 + rho0 && a1 * mInv == B * q + rho2
    ensures B * (r - q * m) == m * rho2 + a1 * rho1 + B * rho0
  {
    assert B * (p * a1) == (B * p) * a1;
    assert (m * mInv + rho1) * a1 == m * (a1 * mInv) + a1 * rho1 by { FastIdentity2(m, mInv, a1, rho1); }
    assert m * (B * q + rho2) == B * (q * m) + m * rho2 by { FastIdentity3(m, q, rho2); }
  }

  lemma {:induction false} FastIdentity2(m: int, x: int, a: int, y: int)
    ensures (m * x + y) * a == m * (a * x) + a * y
  {
    assert (m * x) * a == m * (x * a) by { MulAssoc(m, x, a); }
  }

  lemma {:induction false} FastIdentity3(m: int, q: int, y: int)
    ensures m * (B * q + y) == B * (q * m) + m * y
  {
    assert m * (B * q) == B * (q * m) by { MulAssoc(m, B, q); }
  }

  lemma {:induction false} Bounds3(d: int, m: int, x: int, y: int, rho: int)
    requires B * d == x + y + B * rho && 0 <= x <= (B - 1) * m && 0 <= y < B * m && 0 <= rho < m
    ensures 0 <= d < 3 * m
  {
    assert B * d < 3 * (B * m);
  }

  /** x & t for a mask of all zeros or all ones. */
  function And(x: Limb, t: Limb): Limb
    requires t == 0 || t == B - 1
  {
    if t == 0 then 0 else x
  }

  /** An arithmetic shift right by one of a limb taken as a signed number. */
  function SignedHalf(x: Limb): Limb {
    if x < B / 2 then x / 2 else x / 2 + B / 2
  }

  /** The end of mod_fast: a double limb that stands for v, between -2m and m, brought to 0..m. */
  method Correct(x0: int, m: Limb, ghost v: int) returns (r0: Limb)
    requires IsModulus(m) && -2 * m <= v < m && x0 == v % DOUBLE
    ensures r0 < m && (r0 == v || r0 == v + m || r0 == v + 2 * m)
  {
    var x := x0;
    Wrapped(v, x);
    var r1 := x / B;
    var t0 := SignedHalf(r1);
    x := (x + And(m, t0)) % DOUBLE;
    ghost var v1 := if v < 0 then v + m else v;
    Wrapped(v1, x);
    r1 := x / B;
    r0 := (x % B + And(m, r1)) % B;
  }

  /** mod_fast: the exact residue of a double limb below 2^(64 + 61). */
  method ModFast(r: int, m: Limb, mInv: Limb) returns (r0: Limb)
    requires IsModulus(m) && mInv == InitMulModFast(m) && 0 <= r < B * NTT_MOD_LOG2_MIN_POWER
    ensures r0 < m && Eq(r0, r, m)
  {
    hide Eq;
    var a1 := r / NTT_MOD_LOG2_MIN_POWER;
    var q := a1 * mInv / B;
    FastQuotient(r, m, mInv, a1, q);
    ghost var v := r - q * m - m * 2;
    r0 := Correct((r - q * m - m * 2) % DOUBLE, m, v);
    ghost var back := if r0 == v then 2 else if r0 == v + m then 1 else 0;
    BackSum(r, q, m, back, r0);
    EqBy(r0, r, m, -(q + back));
  }

  lemma {:induction false} BackSum(r: int, q: int, m: int, back: int, r0: int)
    requires (back == 2 && r0 == r - q * m - m * 2) || (back == 1 && r0 == r - q * m - m * 2 + m)
          || (back == 0 && r0 == r - q * m - m * 2 + 2 * m)
    ensures r0 == r + m * (-(q + back))
  {
    assert m * (-(q + back)) == -(q * m) - back * m;
  }

  /** A small signed number as a double limb: the high limb is all zeros or all ones. */
  lemma {:induction false} Wrapped(v: int, x: int)
    requires -B / 2 <= v < B / 2 && x % DOUBLE == v % DOUBLE && 0 <= x < DOUBLE
    ensures x == if v < 0 then v + DOUBLE else v
    ensures x / B == if v < 0 then B - 1 else 0
    ensures x % B == if v < 0 then v + B else v
  {
  }

  /** mul_mod_fast */
  method MulModFast(a: Limb, b: Limb, m: Limb, mInv: Limb) returns (r: Limb)
    requires IsModulus(m) && mInv == InitMulModFast(m) && ((a < m && b < 2 * m) || (a < 2 * m && b < m))
    ensures r < m && Eq(r, a * b, m)
  {
    hide Eq, InitMulModFast;
    if a < m {
      ProductBelow(a, b, 2 * NTT_MOD_LOG2_MIN_POWER, 4 * NTT_MOD_LOG2_MIN_POWER);
    } else {
      ProductBelow(a, b, 4 * NTT_MOD_LOG2_MIN_POWER, 2 * NTT_MOD_LOG2_MIN_POWER);
    }
    r := ModFast(a * b, m, mInv);
  }

  /** init_mul_mod_fast2 */
  function InitMulModFast2(b: Limb, m: Limb): (r: Limb)
    requires b < m
  {
    DivLess(b * B, m, B);
    b * B / m
  }

  /** With a constant multiplier the quotient is at most one too small. */
  lemma {:induction false} ConstantQuotient(a: int, b: int, m: int, bInv: int, q: int)
    requires 0 <= a < B && 0 <= b < m && bInv == b * B / m && q == a * bInv / B
    ensures 0 <= a * b - q * m < 2 * m
  {
    var rho1, rho2 := b * B % m, a * bInv % B;
    DivMod(b * B, m);
    DivMod(a * bInv, B);
    ConstantIdentity(a, b, m, bInv, q, rho1, rho2);
    MulMono(rho2, B - 1, m);
    MulMono(0, rho2, m);
    ProductBelow(a, rho1, B, m);
    Bounds2(a * b - q * m, m, m * rho2, a * rho1);
  }

  lemma {:induction false} ConstantIdentity(a: int, b: int, m: int, bInv: int, q: int, rho1: int, rho2: int)
    requires b * B == m * bInv + rho1 && a * bInv == B * q + rho2
    ensures B * (a * b - q * m) == m * rho2 + a * rho1
  {
    assert a * (b * B) == B * (a * b) by { MulAssoc3(a, b, B); }
    assert a * (m * bInv + rho1) == m * (a * bInv) + a * rho1 by { MulAssoc3(a, m, bInv); FastIdentity2(m, bInv, a, rho1); }
    assert m * (B * q + rho2) == B * (q * m) + m * rho2 by { FastIdentity3(m, q, rho2); }
  }

  lemma {:induction false} Bounds2(d: int, m: int, x: int, y: int)
    requires B * d == x + y && 0 <= x <= (B - 1) * m && 0 <= y < B * m
    ensures 0 <= d < 2 * m
  {
    assert B * d < 2 * (B * m);
  }

  /** mul_mod_fast3: the residue of a * b, or that plus m; a is any limb. */
  method MulModFast3(a: Limb, b: Limb, m: Limb, bInv: Limb) returns (r: Limb)
    requires IsModulus(m) && b < m && bInv == InitMulModFast2(b, m)
    ensures r < 2 * m && Eq(r, a * b, m)
  {
    hide Eq;
    var q := a * bInv / B;
    ConstantQuotient(a, b, m, bInv, q);
    r := (a * b - q * m) % B;
    SmallMod(a * b - q * m, B);
    EqBy(r, a * b, m, -q);
  }

  /** mul_mod_fast2: the residue itself. */
  method MulModFast2(a: Limb, b: Limb, m: Limb, bInv: Limb) returns (r: Limb)
    requires IsModulus(m) && b < m && bInv == InitMulModFast2(b, m)
    ensures r < m && Eq(r, a * b, m)
  {
    hide Eq, InitMulModFast2;
    r := MulModFast3(a, b, m, bInv);
    if r >= m {
      EqBy(r - m, r, m, -1);
      EqTrans(r - m, r, a * b, m);
      r := r - m;
    }
  }
}
