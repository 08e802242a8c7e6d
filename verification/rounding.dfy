/** Rounding an integer to a number of significant bits, and what a sticky bit preserves of it. */
module Rounding {
  import opened Limbs

  datatype Mode = RNDN | RNDZ | RNDD | RNDU | RNDNA | RNDA

  function BitLen(m: nat): (n: nat)
    ensures m > 0 <==> n > 0
  {
    if m == 0 then 0 else 1 + BitLen(m / 2)
  }

  lemma {:induction false} BitLenRange(m: nat)
    ensures m < Two(BitLen(m))
    ensures m > 0 ==> Two(BitLen(m) - 1) <= m
    decreases m
  {
    if m > 0 {
      BitLenRange(m / 2);
    }
  }

  lemma {:induction false} TwoMono(m: nat, n: nat)
    requires m <= n
    ensures Two(m) <= Two(n)
    decreases n
  {
    if m < n { TwoMono(m, n - 1); }
  }

  lemma {:induction false} BitLenIs(m: nat, n: nat)
    requires n > 0 && Two(n - 1) <= m < Two(n)
    ensures BitLen(m) == n
  {
    hide Two, BitLen;
    BitLenRange(m);
    if BitLen(m) < n { TwoMono(BitLen(m), n - 1); }
    if BitLen(m) > n { TwoMono(n, BitLen(m) - 1); }
  }

  /** Whether to go up from q units, given the remainder. */
  predicate Up(mode: Mode, neg: bool, q: int, rem: int, unit: int) {
    match mode
    case RNDN => 2 * rem > unit || (2 * rem == unit && q % 2 == 1)
    case RNDNA => 2 * rem >= unit
    case RNDZ => false
    case RNDA => rem > 0
    case RNDD => neg && rem > 0
    case RNDU => !neg && rem > 0
  }

  lemma {:induction false} QuotientNat(m: int, unit: int)
    requires m >= 0 && unit > 0
    ensures m / unit >= 0
  {
  }

  /** The magnitude m with prec significant bits. */
  function RoundTo(mode: Mode, neg: bool, m: nat, prec: nat): (r: nat) {
    hide Up, Two, BitLen;
    if BitLen(m) <= prec then m
    else
      var unit := Two(BitLen(m) - prec);
      var q := m / unit + (if Up(mode, neg, m / unit, m % unit, unit) then 1 else 0);
      QuotientNat(m, unit);
      MulMono(0, q, unit);
      q * unit
  }

  /** The unit in the last place of the rounded number; 1 when m fits. */
  function Unit(m: nat, prec: nat): (u: nat)
    ensures u >= 1
  {
    if BitLen(m) <= prec then 1 else Two(BitLen(m) - prec)
  }

  // ---------- what rounding means ----------

  /** The numbers with at most prec significant bits. */
  ghost predicate Representable(x: nat, prec: nat) {
    exists c: nat, j: nat :: c < Two(prec) && x == Scaled(c, j)
  }

  function Scaled(c: nat, j: nat): nat {
    c * Two(j)
  }

  /** A multiple of a power of two whose factor has at most prec bits, or is the next power of two. */
  lemma {:induction false} ScaledRepresentable(c: nat, k: nat, prec: nat)
    requires prec >= 1 && c <= Two(prec)
    ensures Representable(c * Two(k), prec)
  {
    hide Two;
    if c < Two(prec) {
      assert c * Two(k) == Scaled(c, k);
    } else {
      TwoAdd(prec, k);
      TwoMono(1, prec);
      TwoOne();
      assert c * Two(k) == Scaled(1, prec + k);
    }
  }

  lemma {:induction false} TwoOne()
    ensures Two(1) == 2
  {
    assert Two(0) == 1;
  }

  /** The multiples of the unit around m are numbers with prec significant bits. */
  lemma {:induction false} NeighboursRepresentable(m: nat, prec: nat)
    requires prec >= 1 && BitLen(m) > prec
    ensures var u := Two(BitLen(m) - prec); Representable(m / u * u, prec) && Representable((m / u + 1) * u, prec)
  {
    hide Two, BitLen, Representable;
    BitLenRange(m);
    var k := BitLen(m) - prec;
    TwoAdd(prec, k);
    DivLess(m, Two(k), Two(prec)) by { MulSwap(Two(prec), Two(k)); }
    QuotientNat(m, Two(k));
    ScaledRepresentable(m / Two(k), k, prec);
    ScaledRepresentable(m / Two(k) + 1, k, prec);
  }

  lemma {:induction false} ShortRepresentable(m: nat, prec: nat)
    requires BitLen(m) <= prec
    ensures Representable(m, prec)
  {
    hide Two, BitLen;
    BitLenRange(m);
    TwoMono(BitLen(m), prec);
    ScaleOne(m);
    assert m == Scaled(m, 0);
  }

  lemma {:induction false} MulSwap(x: int, y: int)
    ensures x * y == y * x
  {
  }

  lemma {:induction false} ScaleOne(m: int)
    ensures m * Two(0) == m && Two(0) == 1
  {
  }

  /** No representable number lies strictly between the multiples of the unit around m, so the
      two candidates for rounding are the representable neighbours of m. */
  lemma {:induction false} NoneBetween(m: nat, prec: nat, x: nat)
    requires prec >= 1 && Representable(x, prec)
    ensures var u := Unit(m, prec); x <= m / u * u || x >= (m / u + 1) * u
  {
    hide Two, BitLen;
    var n, u := BitLen(m), Unit(m, prec);
    var c: nat, j: nat :| c < Two(prec) && x == Scaled(c, j);
    BitLenRange(m);
    if n <= prec {
      MultipleOutside(x, x, m, 1);
    } else if j >= n - prec {
      CoarserOutside(c, j, n - prec, m);
    } else {
      SmallBelow(c, j, n - prec, prec, m);
    }
  }

  /** A multiple of a coarser unit. */
  lemma {:induction false} CoarserOutside(c: nat, j: nat, k: nat, m: nat)
    requires j >= k
    ensures Scaled(c, j) <= m / Two(k) * Two(k) || Scaled(c, j) >= (m / Two(k) + 1) * Two(k)
  {
    hide Two;
    TwoAdd(k, j - k);
    MulAssoc3(c, Two(k), Two(j - k));
    MultipleOutside(c * Two(j), c * Two(j - k), m, Two(k));
  }

  lemma {:induction false} MultipleOutside(x: int, y: int, m: int, u: int)
    requires u > 0 && x == y * u
    ensures x <= m / u * u || x >= (m / u + 1) * u
  {
    if y <= m / u { MulMono(y, m / u, u); } else { MulMono(m / u + 1, y, u); }
  }

  /** A number with a smaller unit than m's is below the power of two m starts at. */
  lemma {:induction false} SmallBelow(c: nat, j: nat, k: nat, prec: nat, m: nat)
    requires c < Two(prec) && j < k && prec >= 1 && Two(k + prec - 1) <= m
    ensures c * Two(j) <= m / Two(k) * Two(k)
  {
    hide Two;
    TwoAdd(prec, j);
    MulMono(c, Two(prec), Two(j));
    TwoMono(prec + j, k + prec - 1);
    TwoAdd(prec - 1, k);
    var p := Two(prec - 1);
    if m / Two(k) < p { DivMod(m, Two(k)); MulMono(m / Two(k) + 1, p, Two(k)); Distribute(m / Two(k), Two(k)); }
    MulMono(p, m / Two(k), Two(k));
  }

  lemma {:induction false} Distribute(x: int, y: int)
    ensures (x + 1) * y == x * y + y && y * x == x * y
  {
  }

  /** The rounded number has prec significant bits, and each mode picks the right neighbour: exact
      values stay, the directed modes go their way, and the nearest modes pick the nearer one (the even
      one, or the larger one, at a tie). */
  lemma {:induction false} RoundMeans(mode: Mode, neg: bool, m: nat, prec: nat)
    requires prec >= 1
    ensures var u, r := Unit(m, prec), RoundTo(mode, neg, m, prec);
            var lower := m / u * u;
            && Representable(r, prec)
            && lower <= m < lower + u && (r == lower || r == lower + u) && (lower == m ==> r == m)
            && (mode.RNDZ? || (mode.RNDD? && !neg) || (mode.RNDU? && neg) ==> r == lower)
            && (lower != m && (mode.RNDA? || (mode.RNDD? && neg) || (mode.RNDU? && !neg)) ==> r == lower + u)
            && (mode.RNDN? || mode.RNDNA? ==>
                  (m - lower < lower + u - m ==> r == lower) && (m - lower > lower + u - m ==> r == lower + u))
            && (m - lower == lower + u - m && mode.RNDNA? ==> r == lower + u)
            && (m - lower == lower + u - m && mode.RNDN? ==> r == if m / u % 2 == 0 then lower else lower + u)
  {
    hide Two, BitLen, Representable;
    var u := Unit(m, prec);
    DivMod(m, u);
    Distribute(m / u, u);
    if BitLen(m) <= prec {
      ShortRepresentable(m, prec);
      assert u == 1 && m / u == m;
    } else {
      NeighboursRepresentable(m, prec);
      assert u >= 2 by { UnitEven(BitLen(m) - prec); }
      assert (m / u + 0) * u == m / u * u;
    }
  }

  /** Rounding to nearest: no number with prec significant bits is nearer. */
  lemma {:induction false} NearestIsNearest(m: nat, prec: nat, x: nat)
    requires prec >= 1 && Representable(x, prec)
    ensures Abs(m - RoundTo(RNDN, false, m, prec)) <= Abs(m - x)
  {
    hide Two, BitLen, Representable, RoundTo;
    RoundMeans(RNDN, false, m, prec);
    NoneBetween(m, prec, x);
    Distribute(m / Unit(m, prec), Unit(m, prec));
  }

  lemma {:induction false} UnitEven(k: nat)
    requires k > 0
    ensures Two(k) >= 2 && Two(k) % 2 == 0
  {
  }

  // ---------- scaling ----------

  lemma {:induction false} BitLenScale(m: nat, j: nat)
    requires m > 0
    ensures BitLen(m * Two(j)) == BitLen(m) + j
  {
    hide Two, BitLen;
    var n := BitLen(m);
    BitLenRange(m);
    TwoAdd(n, j);
    TwoAdd(n - 1, j);
    MulMono(Two(n - 1), m, Two(j));
    MulStrict(m, Two(n), Two(j));
    BitLenIs(m * Two(j), n + j);
  }

  lemma {:induction false} MulStrict(x: int, y: int, p: int)
    requires x < y && p > 0
    ensures x * p < y * p
  {
    MulMono(x + 1, y, p);
    Distribute(x, p);
  }

  lemma {:induction false} ScaledDivision(m: nat, u: nat, s: nat)
    requires u > 0 && s > 0
    ensures (m * s) / (u * s) == m / u && (m * s) % (u * s) == m % u * s
  {
    var q, r := m / u, m % u;
    DivMod(m, u);
    assert m * s == (u * s) * q + r * s by { ScaledSum(m, u, q, r, s); }
    MulStrict(r, u, s);
    MulMono(0, r, s);
    UniqueDivision(m * s, u * s, q, r * s);
  }

  lemma {:induction false} ScaledSum(m: int, u: int, q: int, r: int, s: int)
    requires m == u * q + r
    ensures m * s == (u * s) * q + r * s
  {
  }

  lemma {:induction false} UniqueDivision(x: int, y: int, q: int, r: int)
    requires y > 0 && x == y * q + r && 0 <= r < y
    ensures x / y == q && x % y == r
  {
    DivMod(x, y);
    var d := x / y - q;
    assert y * d == r - x % y by { Factor(x, y, x / y, q, r, x % y); }
    if d >= 1 { MulMono(1, d, y); MulSwap(y, d); }
    if d <= -1 { MulMono(d, -1, y); MulSwap(y, d); }
  }

  lemma {:induction false} Factor(x: int, y: int, a: int, q: int, r: int, s: int)
    requires x == y * q + r && x == y * a + s
    ensures y * (a - q) == r - s
  {
  }

  lemma {:induction false} NestedDivision(x: int, p: int, q: int)
    requires 0 <= x && p > 0 && q > 0
    ensures x / p / q == x / (p * q)
  {
    DivMod(x, p);
    DivMod(x / p, q);
    var r := p * (x / p % q) + x % p;
    MulMono(x / p % q + 1, q, p);
    MulSwap(q, p);
    Distribute(x / p % q, p);
    MulMono(0, x / p % q, p);
    NestedSum(x, p, q, x / p, x / p / q, x / p % q, x % p);
    UniqueDivision(x, p * q, x / p / q, r);
  }

  lemma {:induction false} NestedSum(x: int, p: int, q: int, d: int, dd: int, rr: int, r: int)
    requires x == p * d + r && d == q * dd + rr
    ensures x == (p * q) * dd + (p * rr + r)
  {
    MulAssoc(p, q, dd);
  }

  /** Rounding does not depend on the scale the number is written in. */
  lemma {:induction false} RoundScale(mode: Mode, neg: bool, m: nat, j: nat, prec: nat)
    requires m > 0 && prec >= 1
    ensures RoundTo(mode, neg, m * Two(j), prec) == RoundTo(mode, neg, m, prec) * Two(j)
  {
    hide Two, BitLen, RoundTo, Up;
    BitLenScale(m, j);
    var n := BitLen(m);
    RoundCases(mode, neg, m, prec);
    RoundCases(mode, neg, m * Two(j), prec);
    if n > prec {
      TwoAdd(n - prec, j);
      RoundedScaled(mode, neg, m, Two(n - prec), Two(j));
    } else if n + j > prec {
      TwoAdd(n + j - prec, prec - n);
      NothingCut(mode, neg, m, Two(n + j - prec), Two(prec - n));
    }
  }

  /** m in units of u, one more when the remainder says so. */
  function RoundedBy(mode: Mode, neg: bool, m: nat, u: nat): int
    requires u >= 1
  {
    (m / u + (if Up(mode, neg, m / u, m % u, u) then 1 else 0)) * u
  }

  lemma {:induction false} RoundCases(mode: Mode, neg: bool, m: nat, prec: nat)
    ensures BitLen(m) <= prec ==> RoundTo(mode, neg, m, prec) == m
    ensures BitLen(m) > prec ==> RoundTo(mode, neg, m, prec) == RoundedBy(mode, neg, m, Two(BitLen(m) - prec))
  {
    hide Two, BitLen, Up;
  }

  lemma {:induction false} RoundedScaled(mode: Mode, neg: bool, m: nat, u: nat, s: nat)
    requires u >= 1 && s >= 1 && m * s >= 0 && u * s >= 1
    ensures RoundedBy(mode, neg, m * s, u * s) == RoundedBy(mode, neg, m, u) * s
  {
    hide Up, RoundedBy;
    ScaledDivision(m, u, s);
    UpScaled(mode, neg, m / u, m % u, u, s);
    RoundedParts(mode, neg, m, u, s, m * s, u * s, m / u, m % u);
  }

  lemma {:induction false} RoundedParts(mode: Mode, neg: bool, m: nat, u: nat, s: nat, ms: nat, us: nat, q: int, r: int)
    requires u >= 1 && us >= 1 && us == u * s && m / u == q && m % u == r && ms / us == q && ms % us == r * s
    requires Up(mode, neg, q, r * s, us) == Up(mode, neg, q, r, u)
    ensures RoundedBy(mode, neg, ms, us) == RoundedBy(mode, neg, m, u) * s
  {
    hide Up, RoundedBy;
    RoundedIs(mode, neg, m, u, q, r);
    RoundedIs(mode, neg, ms, us, q, ms % us);
  }

  lemma {:induction false} RoundedIs(mode: Mode, neg: bool, m: nat, u: nat, q: int, r: int)
    requires u >= 1 && m / u == q && m % u == r
    ensures RoundedBy(mode, neg, m, u) == (q + (if Up(mode, neg, q, r, u) then 1 else 0)) * u
  {
    hide Up;
  }

  /** A multiple of the unit is rounded to itself. */
  lemma {:induction false} NothingCut(mode: Mode, neg: bool, m: nat, w: nat, v: nat)
    requires w >= 1 && v >= 1 && m * (w * v) >= 0
    ensures RoundedBy(mode, neg, m * (w * v), w) == m * (w * v)
  {
    var c := m * v;
    assert m * (w * v) == c * w by { MulAssoc3(m, w, v); }
    UniqueDivision(m * (w * v), w, c, 0) by { MulSwap(c, w); }
    assert (c + 0) * w == c * w;
  }

  lemma {:induction false} UpScaled(mode: Mode, neg: bool, q: nat, rem: nat, unit: nat, s: nat)
    requires s > 0
    ensures Up(mode, neg, q, rem * s, unit * s) == Up(mode, neg, q, rem, unit)
  {
    var d := 2 * rem - unit;
    assert 2 * (rem * s) - unit * s == d * s by { Spread(rem, unit, s); }
    if d > 0 { MulMono(1, d, s); }
    if d < 0 { MulMono(d, -1, s); }
    if rem > 0 { MulMono(1, rem, s); }
  }

  lemma {:induction false} Spread(x: int, y: int, s: int)
    ensures 2 * (x * s) - y * s == (2 * x - y) * s
  {
  }

  // ---------- the sticky bit ----------

  /** t with its lowest bit set when something was cut off below. */
  function Stuck(t: nat, sticky: bool): (r: nat) {
    if sticky && t % 2 == 0 then t + 1 else t
  }

  lemma {:induction false} StickyBitLen(t: nat, sticky: bool)
    requires t >= 2
    ensures BitLen(Stuck(t, sticky)) == BitLen(t)
  {
  }

  /** Cutting off any number of low bits and or-ing one sticky bit into the rest leaves the rounding
      unchanged, provided two bits more than the precision are kept. */
  lemma {:induction false} Sticky(mode: Mode, neg: bool, t: nat, low: nat, w: nat, prec: nat)
    requires prec >= 1 && BitLen(t) >= prec + 2 && low < Two(w)
    ensures RoundTo(mode, neg, t * Two(w) + low, prec) == RoundTo(mode, neg, Stuck(t, low > 0), prec) * Two(w)
  {
    hide Two, BitLen;
    BitLenRange(t);
    TwoMono(2, BitLen(t) - 1);
    Four();
    StickyBitLen(t, low > 0);
    var n, s := BitLen(t), Two(w);
    BitLenLow(t, low, w);
    var k := n - prec;
    var u, t' := Two(k), Stuck(t, low > 0);
    TwoAdd(k, w);
    UnitQuarter(k);
    StickyParts(t, t', low, u, s);
    StickyUp(mode, neg, t / u, t % u, low, t' % u, u, s);
    var up := if Up(mode, neg, t / u, t' % u, u) then 1 else 0;
    MulAssoc3(t / u + up, s, u);
    MulSwap(u, s);
  }

  lemma {:induction false} Four()
    ensures Two(2) == 4
  {
  }

  lemma {:induction false} UnitQuarter(k: nat)
    requires k >= 2
    ensures Two(k) >= 4 && Two(k) % 4 == 0
  {
    assert Two(k) == 4 * Two(k - 2);
  }

  lemma {:induction false} BitLenLow(t: nat, low: nat, w: nat)
    requires t > 0 && low < Two(w)
    ensures BitLen(t * Two(w) + low) == BitLen(t) + w
  {
    hide Two, BitLen;
    var n := BitLen(t);
    BitLenRange(t);
    TwoAdd(n, w);
    TwoAdd(n - 1, w);
    MulMono(Two(n - 1), t, Two(w));
    MulMono(t + 1, Two(n), Two(w));
    Distribute(t, Two(w));
    BitLenIs(t * Two(w) + low, n + w);
  }

  /** Quotient and remainder with and without what was cut off. */
  lemma {:induction false} StickyParts(t: nat, t': nat, low: nat, u: nat, s: nat)
    requires u >= 4 && u % 4 == 0 && 0 <= low < s && t' == Stuck(t, low > 0)
    ensures (t * s + low) / (u * s) == t / u && (t * s + low) % (u * s) == t % u * s + low
    ensures t' / u == t / u && t' % u == Stuck(t % u, low > 0)
  {
    var q, r := t / u, t % u;
    DivMod(t, u);
    assert t * s == (u * s) * q + r * s by { ScaledSum(t, u, q, r, s); }
    MulMono(r + 1, u, s);
    Distribute(r, s);
    MulMono(0, r, s);
    UniqueDivision(t * s + low, u * s, q, r * s + low);
    SameParity(t, u, q, r);
    UniqueDivision(t', u, q, Stuck(r, low > 0));
  }

  lemma {:induction false} SameParity(t: int, u: int, q: int, r: int)
    requires t == u * q + r && u % 4 == 0 && 0 <= r < u
    ensures t % 2 == r % 2 && (r % 2 == 0 ==> r + 1 < u)
  {
    Even(t, u / 4 * q, r);
  }

  lemma {:induction false} Even(t: int, x: int, r: int)
    requires t == 4 * x + r
    ensures t % 2 == r % 2
  {
    assert t == 2 * (2 * x) + r;
  }

  lemma {:induction false} StickyUp(mode: Mode, neg: bool, q: nat, r: nat, low: nat, r': nat, u: nat, s: nat)
    requires 0 <= low < s && u % 4 == 0 && r' == Stuck(r, low > 0)
    ensures Up(mode, neg, q, r * s + low, u * s) == Up(mode, neg, q, r', u)
  {
    var d := 2 * r - u;
    assert 2 * (r * s) - u * s == d * s by { Spread(r, u, s); }
    MulMono(0, r, s);
    if r > 0 { MulMono(1, r, s); }
    if d > 0 { MulMono(2, d, s); assert d % 2 == 0; }
    if d < 0 { assert d % 2 == 0; MulMono(d, -2, s); }
    if d == 0 { HalfEven(r, u); }
  }

  /** A remainder next to half the unit: the unit is a multiple of four. */
  lemma {:induction false} HalfEven(r: int, u: int)
    requires u % 4 == 0 && 2 * r == u
    ensures r % 2 == 0
  {
  }
}
