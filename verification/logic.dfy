/** bf_logic_op: and, or and exclusive or of integers as infinite two's complement numbers, computed
    on sign and magnitude. */
module Logic {
  import opened Limbs
  import opened Rounding
  import opened BfBits
  import opened BfRound
  import opened BfOperands
  import opened BfCompare
  import opened BfAdd

  datatype Op = OR | XOR | AND

  function OpBit(x: int, y: int, op: Op): (z: int)
    requires 0 <= x <= 1 && 0 <= y <= 1
    ensures 0 <= z <= 1
  {
    match op
    case OR => if x == 1 || y == 1 then 1 else 0
    case XOR => if x != y then 1 else 0
    case AND => if x == 1 && y == 1 then 1 else 0
  }

  /** Bit j of an integer in two's complement, for negative integers too. */
  function Bit(x: int, j: nat): (b: int)
    ensures 0 <= b <= 1
  {
    x / Two(j) % 2
  }

  lemma {:induction false} BitStep(x: int, j: nat)
    ensures Bit(x, 0) == x % 2 && Bit(x, j + 1) == Bit(x / 2, j)
  {
    hide Two;
    ScaleOne(x);
    TwoDouble(j + 1);
    var q, p := x / 2, Two(j);
    DivMod(q, p);
    HalvesSum2(x, q, p, q / p, q % p);
    UniqueDivision(x, 2 * p, q / p, 2 * (q % p) + x % 2);
  }

  lemma {:induction false} HalvesSum2(x: int, q: int, p: int, d: int, m: int)
    requires q == p * d + m && q == x / 2
    ensures x == (2 * p) * d + (2 * m + x % 2)
  {
    MulAssoc(2, p, d);
  }

  /** The complement flips every bit. */
  lemma {:induction false} BitComplement(x: int, j: nat)
    ensures Bit(-x - 1, j) == 1 - Bit(x, j)
    decreases j
  {
    hide Bit;
    if j == 0 {
      BitStep(x, 0);
      BitStep(-x - 1, 0);
    } else {
      BitStep(x, j - 1);
      BitStep(-x - 1, j - 1);
      BitComplement(x / 2, j - 1);
    }
  }

  /** Numbers with the same bits are the same. */
  lemma {:induction false} BitsUnique(x: int, y: int)
    requires forall j: nat :: Bit(x, j) == Bit(y, j)
    ensures x == y
    decreases Abs(x) + Abs(y)
  {
    hide Bit;
    BitStep(x, 0);
    BitStep(y, 0);
    assert Bit(x, 0) == Bit(y, 0);
    if !((x == 0 || x == -1) && (y == 0 || y == -1)) {
      forall j: nat ensures Bit(x / 2, j) == Bit(y / 2, j) {
        BitStep(x, j);
        BitStep(y, j);
        assert Bit(x, j + 1) == Bit(y, j + 1);
      }
      BitsUnique(x / 2, y / 2);
    }
  }

  lemma {:induction false} BitBeyond(x: int, j: nat)
    requires 0 <= x < Two(j)
    ensures Bit(x, j) == 0
  {
    UniqueDivision(x, Two(j), 0, x);
  }

  // ---------- one limb ----------

  /** The bitwise operation on numbers of n bits. */
  function OpBits(a: nat, b: nat, op: Op, n: nat): (z: nat)
    decreases n
  {
    if n == 0 then 0 else 2 * OpBits(a / 2, b / 2, op, n - 1) + OpBit(a % 2, b % 2, op)
  }

  lemma {:induction false} OpBitsBound(a: nat, b: nat, op: Op, n: nat)
    ensures OpBits(a, b, op, n) < Two(n)
    decreases n
  {
    if n > 0 { OpBitsBound(a / 2, b / 2, op, n - 1); }
  }

  lemma {:induction false} OpBitsAt(a: nat, b: nat, op: Op, n: nat, j: nat)
    requires j < n
    ensures Bit(OpBits(a, b, op, n), j) == OpBit(Bit(a, j), Bit(b, j), op)
    decreases n
  {
    hide Bit;
    var z := OpBits(a, b, op, n);
    if j == 0 {
      BitStep(a, 0);
      BitStep(b, 0);
      BitStep(z, 0);
    } else {
      BitStep(a, j - 1);
      BitStep(b, j - 1);
      BitStep(z, j - 1);
      OpBitsAt(a / 2, b / 2, op, n - 1, j - 1);
    }
  }

  /** bf_logic_op1 */
  function LogicOp1(a: Limb, b: Limb, op: Op): (z: Limb) {
    OpBitsBound(a, b, op, 64);
    TwoSixtyFour();
    OpBits(a, b, op, 64)
  }

  /** v ^ mask for a mask of all zeros or all ones. */
  function Masked(v: Limb, neg: bool): Limb {
    if neg then B - 1 - v else v
  }

  lemma {:induction false} MaskedBit(v: Limb, neg: bool, j: nat)
    requires j < 64
    ensures Bit(Masked(v, neg), j) == if neg then 1 - Bit(v, j) else Bit(v, j)
  {
    hide Bit, Two;
    if neg {
      BitComplement(v, j);
      assert -(v as int) - 1 == 0 - v - 1;
      BitShift(0 - v - 1, 1, j);
    }
  }

  /** Adding a multiple of 2^64 does not change the low bits. */
  lemma {:induction false} BitShift(x: int, k: int, j: nat)
    requires j < 64
    ensures Bit(x + k * B, j) == Bit(x, j)
  {
    hide Two;
    var p, r := Two(j), Two(64 - j);
    TwoLimb(j);
    UnitEven(64 - j);
    DivMod(x, p);
    MulAssoc3(p, k, r);
    MulSwap(k, r);
    var h := r / 2;
    assert x + k * B == p * (x / p + k * r) + x % p by { ShiftSum(x, p, k, r, x / p, x % p); }
    UniqueDivision(x + k * B, p, x / p + k * r, x % p);
    EvenPart(x / p, r, k);
  }

  lemma {:induction false} ShiftSum(x: int, p: int, k: int, r: int, d: int, m: int)
    requires p * r == B && x == p * d + m
    ensures x + k * B == p * (d + k * r) + m
  {
    MulAssoc3(p, k, r);
  }

  /** Bit j of a number of limbs is a bit of limb j / 64. */
  lemma {:induction false} LimbBit(t: seq<Limb>, j: nat)
    requires j < 64 * |t|
    ensures Bit(Val(t), j) == Bit(t[j / 64], j % 64)
  {
    hide Val;
    CutAt(t, j / 64, j % 64);
    LowBits(t[j / 64..], j % 64);
  }

  // ---------- integers ----------

  /** a is the integer x. */
  ghost predicate HasValue(a: Bf, x: int) {
    if x == 0 then IsSpecial(a) && a.expn == BF_EXP_ZERO
    else IsNormal(a) && a.sign == (x < 0) && SameValue(Val(a.tab), LowExp(a), Abs(x), 0)
  }

  /** The exponent is the number of bits. */
  lemma {:induction false} ExponentIsLength(a: Bf, x: int)
    requires HasValue(a, x) && x != 0
    ensures a.expn == BitLen(Abs(x)) && a.expn >= 1 && Abs(x) < Two(a.expn)
  {
    hide Val, Two, BitLen;
    TopBitLen(a.tab);
    TopPositive(a.tab);
    if LowExp(a) >= 0 {
      BitLenScale(Val(a.tab), LowExp(a));
    } else {
      BitLenScale(Abs(x), -LowExp(a));
    }
    BitLenRange(Abs(x));
  }

  /** The limbs the loop fetches from an integer operand. */
  function Fetched(a: Bf, i: nat): Limb {
    GetBits(a.tab, 64 * |a.tab| - a.expn + 64 * i)
  }

  function Row(a: Bf, n: nat): (s: seq<Limb>)
    ensures |s| == n
  {
    seq<Limb>(n, i requires 0 <= i < n => Fetched(a, i))
  }

  /** They are the limbs of its magnitude. */
  lemma {:induction false} RowValue2(a: Bf, x: int, n: nat)
    requires HasValue(a, x) && x != 0 && a.expn <= 64 * n
    ensures Val(Row(a, n)) == Abs(x)
  {
    hide Val, Two, Pow, SameValue, BitLen;
    var sh := LowExp(a);
    ExponentIsLength(a, x);
    RowIsBits(a, n);
    if sh >= 0 {
      BitsValue(a.tab, sh, n);
      SameValueMeans(Val(a.tab), sh, Abs(x));
    } else {
      SameValueMeans(Val(a.tab), sh, Abs(x));
      FractionRow(a.tab, Abs(x), -sh, n);
    }
  }

  lemma {:induction false} SameValueMeans(v: int, sh: int, m: int)
    requires SameValue(v, sh, m, 0)
    ensures if sh >= 0 then m == v * Two(sh) else v == m * Two(-sh)
  {
  }

  lemma {:induction false} RowIsBits(a: Bf, n: nat)
    ensures Row(a, n) == Bits(a.tab, (0 - LowExp(a)) / 64, (0 - LowExp(a)) % 64, n)
  {
    hide GetBits;
    var i0, p := (0 - LowExp(a)) / 64, (0 - LowExp(a)) % 64;
    forall i | 0 <= i < n ensures Row(a, n)[i] == Bits(a.tab, i0, p, n)[i] {
      assert 64 * (i + i0) + p == 64 * |a.tab| - a.expn + 64 * i;
    }
  }

  /** A number whose lowest bits are below the point, and zero. */
  lemma {:induction false} FractionRow(t: seq<Limb>, m: int, f: nat, n: nat)
    requires m >= 1 && f > 0 && Val(t) == m * Two(f) && 64 * |t| - f <= 64 * n
    ensures Val(Bits(t, f / 64, f % 64, n)) == m
  {
    hide Val, Two, Pow, Bits, Digits, GetLimbz;
    var i0, p := f / 64, f % 64;
    FractionFits(t, m, f);
    TwoParts(i0, p);
    CutAt(t, i0, p);
    DivisionExact(Val(t), m, Two(f));
    var x := Val(t[i0..]);
    DivMod(x, Two(p));
    ZeroPart(Val(t[..i0]), Pow(i0), x % Two(p));
    DigitsFrom(t, i0, n);
    if p == 0 {
      BitsAligned(t, i0, n);
      ScaleOne(x);
      assert x / 1 == x;
    } else {
      BitsSum(t, i0, p, n);
      LowBits(t[i0..], p);
      FractionEnds(t, i0, p, n);
      Cancel(Val(Bits(t, i0, p, n)), m, Two(p)) by { MulSwap(Two(p), Val(Bits(t, i0, p, n))); MulSwap(Two(p), m); }
    }
  }

  lemma {:induction false} ZeroPart(low: int, w: int, r: int)
    requires low >= 0 && w >= 1 && r >= 0 && low + w * r == 0
    ensures r == 0
  {
    if r >= 1 { MulMono(1, r, w); MulSwap(r, w); }
  }

  lemma {:induction false} FractionFits(t: seq<Limb>, m: int, f: nat)
    requires m >= 1 && Val(t) == m * Two(f)
    ensures f < 64 * |t| && f / 64 < |t|
  {
    hide Val, Two, Pow;
    ValBound(t);
    TwoPow(|t|);
    MulMono(1, m, Two(f));
    if f >= 64 * |t| { TwoMono(64 * |t|, f); }
  }

  lemma {:induction false} DivisionExact(v: int, m: int, p: int)
    requires p > 0 && v == m * p
    ensures v / p == m && v % p == 0
  {
    MulSwap(m, p);
    UniqueDivision(v, p, m, 0);
  }

  /** Starting inside the number drops its lowest limbs. */
  lemma {:induction false} DigitsFrom(t: seq<Limb>, i0: nat, n: nat)
    requires i0 <= |t| <= i0 + n
    ensures Val(Digits(t, i0, n)) == Val(t[i0..])
  {
    hide Val;
    var s, rest := Digits(t, i0, n), Digits(t, i0, n)[|t| - i0..];
    assert forall j :: 0 <= j < n ==> s[j] == GetLimbz(t, j + i0);
    assert s[..|t| - i0] == t[i0..];
    assert forall j :: 0 <= j < |rest| ==> rest[j] == s[|t| - i0 + j];
    ZerosValue(rest);
    WholeSplit(s, |t| - i0);
    assert Pow(|t| - i0) * Val(rest) == 0;
  }

  lemma {:induction false} FractionEnds(t: seq<Limb>, i0: nat, p: nat, n: nat)
    requires i0 < |t| <= i0 + n
    ensures GetLimbz(t, i0) == t[i0] && Pow(n) * (GetLimbz(t, n + i0) % Two(p)) == 0
  {
    SmallMod(0, Two(p));
  }

  /** The fetched limbs hold the bits of the magnitude, zero included. */
  lemma {:induction false} FetchedBit(a: Bf, x: int, i: nat, k: nat)
    requires HasValue(a, x) && k < 64
    ensures Bit(Fetched(a, i), k) == Bit(Abs(x), 64 * i + k)
  {
    hide Val, Two, Bit, SameValue, GetBits;
    if x == 0 {
      NothingFetched(a, i);
      ZeroBit(k);
      ZeroBit(64 * i + k);
    } else {
      ExponentIsLength(a, x);
      var n := if 64 * (i + 1) >= a.expn then i + 1 else a.expn;
      RowValue2(a, x, n);
      LimbBit(Row(a, n), 64 * i + k);
    }
  }

  lemma {:induction false} NothingFetched(a: Bf, i: nat)
    requires a.tab == [] && a.expn <= 0
    ensures Fetched(a, i) == 0
  {
    BitsOutside(a.tab, 64 * |a.tab| - a.expn + 64 * i);
  }

  lemma {:induction false} ZeroBit(j: nat)
    ensures Bit(0, j) == 0
  {
    BitBeyond(0, j);
  }

  // ---------- sums of integers ----------

  /** The default exponent range, 2^60. */
  const E_RANGE: int := 0x1000_0000_0000_0000

  function View(r: BfT): Bf
    requires r.Valid()
    reads r, r.tab
  {
    Bf(r.sign, r.expn, r.tab[..r.len])
  }

  function OneBf(neg: bool): Bf {
    Bf(neg, 1, [B / 2])
  }

  lemma {:induction false} OneHasValue(neg: bool)
    ensures HasValue(OneBf(neg), if neg then -1 else 1)
  {
    hide Two;
    HalfLimb();
    var t: seq<Limb> := [B / 2];
    assert t[0..1] == t;
    ValOne(t, 0);
  }

  lemma {:induction false} SameSwap(m1: int, e1: int, m2: int, e2: int)
    requires SameValue(m1, e1, m2, e2)
    ensures SameValue(m2, e2, m1, e1)
  {
    if e1 == e2 { ScaleOne(m1); ScaleOne(m2); }
  }

  /** The magnitude of an integer in any unit that divides it. */
  lemma {:induction false} ScaleOfInteger(a: Bf, x: int, e: int)
    requires HasValue(a, x) && x != 0 && e <= LowExp(a)
    ensures SameValue(Scale(a, e), e, Abs(x), 0)
  {
    hide Val, Two, SameValue;
    var l := LowExp(a);
    SameSwap(Val(a.tab), l, Abs(x), 0);
    SameScaledUp(Abs(x), 0, Val(a.tab), l, l - e);
    SameSwap(Abs(x), 0, Scale(a, e), e);
  }

  /** The rounded value of an integer within the range is that integer. */
  lemma {:induction false} RoundedInteger(r: BfT, m: nat, e: int, y: int, st: Status)
    requires r.Valid() && y != 0 && SameValue(m, e, Abs(y), 0) && r.sign == (y < 0) && BitLen(Abs(y)) <= E_RANGE
    requires r.RoundedFrom(m, e, BF_PREC_INF, RNDZ, E_RANGE, st)
    ensures HasValue(View(r), y)
  {
    hide Val, Two, BitLen, RoundTo, SameValue;
    SameValueMeans(m, e, Abs(y));
    if e <= 0 {
      ScaleOne(Abs(y));
      r.RoundedShift(Abs(y), 0, -e, BF_PREC_INF, RNDZ, E_RANGE, st);
      RoundFits(RNDZ, r.sign, Abs(y), BF_PREC_INF);
    } else {
      SignOfProduct(m, Two(e));
      BitLenScale(m, e);
      RoundFits(RNDZ, r.sign, m, BF_PREC_INF);
      SameScaledUp(r.Mag(), r.expn - 64 * r.len, m, e, e);
    }
  }

  /** What is added: the second operand, or its negative. */
  function Combined(x: int, y: int, bNeg: bool): int {
    if bNeg then x - y else x + y
  }

  /** The exact sum or difference of two integers. */
  lemma {:induction false} SumOfIntegers(a: Bf, x: int, b: Bf, y: int, bNeg: bool, e: int)
    requires HasValue(a, x) && HasValue(b, y) && x != 0 && y != 0 && e == CommonExp(a, b)
    ensures var z := Combined(x, y, bNeg);
            && SameValue(Abs(ExactSum(a, b, bNeg, e)), e, Abs(z), 0)
            && (ExactSum(a, b, bNeg, e) < 0 <==> z < 0) && (ExactSum(a, b, bNeg, e) == 0 <==> z == 0)
  {
    hide Val, Two, Scale;
    ScaleOfInteger(a, x, e);
    ScaleOfInteger(b, y, e);
    var y', s := if bNeg then -y else y, ExactSum(a, b, bNeg, e);
    hide ExactSum, HasValue;
    if e <= 0 {
      ScaleOne(Scale(a, e));
      ScaleOne(Scale(b, e));
      ScaleOne(Abs(s));
      FinerSum(Scale(a, e), Scale(b, e), x, y', s, Two(-e));
    } else {
      CoarserSum(Scale(a, e), Scale(b, e), x, y', s, Two(e));
    }
  }

  function Signed(m: int, neg: bool): int {
    if neg then -m else m
  }

  /** Units of 1 / p. */
  lemma {:induction false} FinerSum(m: int, n: int, x: int, y: int, s: int, p: int)
    requires p >= 1 && m == Abs(x) * p && n == Abs(y) * p && s == Signed(m, x < 0) + Signed(n, y < 0)
    ensures Abs(s) == Abs(x + y) * p && (s < 0 <==> x + y < 0) && (s == 0 <==> x + y == 0)
  {
    SignedProducts(Abs(x), Abs(y), x < 0, y < 0, p);
    SignOfProduct(x + y, p);
  }

  /** Units of p. */
  lemma {:induction false} CoarserSum(m: int, n: int, x: int, y: int, s: int, p: int)
    requires p >= 1 && m * p == Abs(x) && n * p == Abs(y) && s == Signed(m, x < 0) + Signed(n, y < 0)
    ensures Abs(s) * p == Abs(x + y) && (s < 0 <==> x + y < 0) && (s == 0 <==> x + y == 0)
  {
    SignedProducts(m, n, x < 0, y < 0, p);
    SignOfProduct(s, p);
  }

  lemma {:induction false} SignedProducts(x: int, y: int, xNeg: bool, yNeg: bool, p: int)
    ensures Signed(x * p, xNeg) + Signed(y * p, yNeg) == (Signed(x, xNeg) + Signed(y, yNeg)) * p
  {
  }

  lemma {:induction false} SignOfProduct(x: int, p: int)
    requires p >= 1
    ensures (x * p < 0 <==> x < 0) && (x * p == 0 <==> x == 0) && Abs(x * p) == Abs(x) * p
  {
    if x < 0 { MulMono(x, -1, p); } else if x > 0 { MulMono(1, x, p); }
  }

  /** bf_add and bf_sub on integers of any size are exact. */
  method AddIntegers(r: BfT, a: Bf, b: Bf, bNeg: bool, ghost x: int, ghost y: int)
    requires r.Valid() && HasValue(a, x) && HasValue(b, y) && BitLen(Abs(Combined(x, y, bNeg))) <= E_RANGE
    modifies r, r.tab
    ensures r.Valid() && HasValue(View(r), Combined(x, y, bNeg))
  {
    hide Val, Two, BitLen, SameValue, ExactSum, Scale, BfT.RoundedFrom, Abs;
    ghost var z := Combined(x, y, bNeg);
    var st, invalid := BfAddInternal(r, a, b, bNeg, BF_PREC_INF, RNDZ, E_RANGE);
    if x != 0 && y != 0 {
      ghost var e := CommonExp(a, b);
      SumOfIntegers(a, x, b, y, bNeg, e);
      if z != 0 { RoundedInteger(r, Abs(ExactSum(a, b, bNeg, e)), e, z, st); }
    } else if x != 0 {
      RoundedInteger(r, Val(a.tab), LowExp(a), z, st);
    } else if y != 0 {
      AbsOfNegative(y);
      RoundedInteger(r, Val(b.tab), LowExp(b), z, st);
    }
  }

  lemma {:induction false} AbsOfNegative(x: int)
    ensures Abs(-x) == Abs(x)
  {
  }

  /** bf_add_si with 1 or -1, exactly. */
  method AddSi(r: BfT, a: Bf, neg: bool, ghost x: int)
    requires r.Valid() && HasValue(a, x) && BitLen(Abs(x)) < E_RANGE
    modifies r, r.tab
    ensures r.Valid() && HasValue(View(r), x + (if neg then -1 else 1))
  {
    hide Val, Two, BitLen, SameValue, BfT.RoundedFrom, HasValue;
    ghost var k := if neg then -1 else 1;
    OneHasValue(neg);
    OneMore(x, k);
    AddIntegers(r, a, OneBf(neg), false, x, k);
  }

  lemma {:induction false} OneMore(x: int, k: int)
    requires (k == 1 || k == -1) && BitLen(Abs(x)) < E_RANGE
    ensures BitLen(Abs(x + k)) <= E_RANGE
  {
    hide Two, BitLen;
    BitLenRange(Abs(x));
    BitLenRange(Abs(x + k));
    if BitLen(Abs(x + k)) > E_RANGE {
      TwoMono(BitLen(Abs(x)) + 1, BitLen(Abs(x + k)) - 1);
      TwoDouble(BitLen(Abs(x)) + 1);
    }
  }

  // ---------- the operation ----------

  predicate IsConstant(x: int) {
    x == 0 || x == -1
  }

  /** The operation on infinite two's complement numbers. */
  function LogicOf(x: int, y: int, op: Op): int
    decreases Abs(x) + Abs(y)
  {
    if IsConstant(x) && IsConstant(y) then -OpBit(-x, -y, op)
    else 2 * LogicOf(x / 2, y / 2, op) + OpBit(x % 2, y % 2, op)
  }

  lemma {:induction false} ConstantBits(x: int, j: nat)
    requires IsConstant(x)
    ensures Bit(x, j) == -x
    decreases j
  {
    if j > 0 {
      BitStep(x, j - 1);
      ConstantBits(x / 2, j - 1);
    } else {
      BitStep(x, 0);
    }
  }

  /** One more bit, unless both are constant. */
  lemma {:induction false} LogicStep(x: int, y: int, op: Op)
    ensures IsConstant(x) && IsConstant(y) ==> IsConstant(LogicOf(x, y, op)) && -LogicOf(x, y, op) == OpBit(-x, -y, op)
    ensures !(IsConstant(x) && IsConstant(y)) ==>
      LogicOf(x, y, op) / 2 == LogicOf(x / 2, y / 2, op) && LogicOf(x, y, op) % 2 == OpBit(x % 2, y % 2, op)
  {
  }

  /** What the operations do to the numbers: and takes out what or counts twice, exclusive or is what is left
      between them, and of -1 and 0 the first is neutral for and, the second annihilates. */
  lemma {:induction false} LogicSums(x: int, y: int)
    ensures LogicOf(x, y, AND) + LogicOf(x, y, OR) == x + y
    ensures LogicOf(x, y, OR) - LogicOf(x, y, AND) == LogicOf(x, y, XOR)
    ensures LogicOf(x, -1, AND) == x && LogicOf(x, 0, AND) == 0
    decreases Abs(x) + Abs(y)
  {
    hide LogicOf;
    LogicStep(x, y, AND);
    LogicStep(x, y, OR);
    LogicStep(x, y, XOR);
    LogicStep(x, -1, AND);
    LogicStep(x, 0, AND);
    if !(IsConstant(x) && IsConstant(y)) { LogicSums(x / 2, y / 2); }
  }

  /** Its bits are the operation on the bits, at every place. */
  lemma {:induction false} LogicBits(x: int, y: int, op: Op, j: nat)
    ensures Bit(LogicOf(x, y, op), j) == OpBit(Bit(x, j), Bit(y, j), op)
    decreases Abs(x) + Abs(y), j
  {
    hide Bit, LogicOf, OpBit;
    LogicStep(x, y, op);
    if IsConstant(x) && IsConstant(y) {
      ConstantBits(x, j);
      ConstantBits(y, j);
      ConstantBits(LogicOf(x, y, op), j);
    } else if j == 0 {
      BitStep(x, 0);
      BitStep(y, 0);
      BitStep(LogicOf(x, y, op), 0);
    } else {
      BitStep(x, j - 1);
      BitStep(y, j - 1);
      BitStep(LogicOf(x, y, op), j - 1);
      LogicBits(x / 2, y / 2, op, j - 1);
    }
  }

  /** What the limbs hold for x: x itself, or its complement when x is negative. */
  function Folded(x: int): nat {
    if x < 0 then -x - 1 else x
  }

  lemma {:induction false} FoldedBit(x: int, j: nat)
    ensures Bit(x, j) == if x < 0 then 1 - Bit(Folded(x), j) else Bit(Folded(x), j)
  {
    hide Bit;
    if x < 0 { BitComplement(Folded(x), j); }
  }

  function SignBit(neg: bool): int {
    if neg then 1 else 0
  }

  /** The limb the loop stores at place i. */
  function ResultLimb(a: Bf, b: Bf, aNeg: bool, bNeg: bool, op: Op, i: nat): Limb {
    Masked(LogicOp1(Masked(Fetched(a, i), aNeg), Masked(Fetched(b, i), bNeg), op),
           OpBit(SignBit(aNeg), SignBit(bNeg), op) == 1)
  }

  lemma {:induction false} ResultLimbBit(a: Bf, b: Bf, xa: int, yb: int, x: int, y: int, op: Op, i: nat, k: nat)
    requires HasValue(a, xa) && HasValue(b, yb) && Abs(xa) == Folded(x) && Abs(yb) == Folded(y) && k < 64
    ensures var rNeg := OpBit(SignBit(x < 0), SignBit(y < 0), op) == 1;
            var v := OpBit(Bit(x, 64 * i + k), Bit(y, 64 * i + k), op);
            Bit(ResultLimb(a, b, x < 0, y < 0, op, i), k) == if rNeg then 1 - v else v
  {
    hide Bit, HasValue, Fetched, Masked, OpBits;
    FetchedBit(a, xa, i, k);
    FetchedBit(b, yb, i, k);
    FoldedBit(x, 64 * i + k);
    FoldedBit(y, 64 * i + k);
    var u, w := Masked(Fetched(a, i), x < 0), Masked(Fetched(b, i), y < 0);
    MaskedBit(Fetched(a, i), x < 0, k);
    MaskedBit(Fetched(b, i), y < 0, k);
    OpBitsAt(u, w, op, 64, k);
    MaskedBit(LogicOp1(u, w, op), OpBit(SignBit(x < 0), SignBit(y < 0), op) == 1, k);
  }

  /** The number of limbs computed: for an and of numbers that are not both negative, only those the
      shorter non-negative one has. */
  function ResultLimbs(aExpn: int, bExpn: int, aNeg: bool, bNeg: bool, op: Op): (l: int)
    ensures l >= 1
  {
    var bits :=
      if op.AND? && !(aNeg && bNeg) then
        if !aNeg && !bNeg then (if aExpn < bExpn then aExpn else bExpn) else if !aNeg then aExpn else bExpn
      else if aExpn > bExpn then aExpn else bExpn;
    ((if bits > 1 then bits else 1) + 63) / 64
  }

  /** Beyond the limbs computed every bit of the result is its sign. */
  lemma {:induction false} BeyondLimbs(a: Bf, b: Bf, xa: int, yb: int, x: int, y: int, op: Op, j: nat)
    requires HasValue(a, xa) && HasValue(b, yb) && Abs(xa) == Folded(x) && Abs(yb) == Folded(y)
    requires j >= 64 * ResultLimbs(a.expn, b.expn, x < 0, y < 0, op)
    ensures OpBit(Bit(x, j), Bit(y, j), op) == OpBit(SignBit(x < 0), SignBit(y < 0), op)
  {
    hide Bit, HasValue;
    FoldedBit(x, j);
    FoldedBit(y, j);
    if a.expn <= j { ShortBit(a, xa, j); }
    if b.expn <= j { ShortBit(b, yb, j); }
  }

  lemma {:induction false} ShortBit(a: Bf, x: int, j: nat)
    requires HasValue(a, x) && a.expn <= j
    ensures Bit(Abs(x), j) == 0
  {
    hide Bit, Two, Val, SameValue;
    if x == 0 {
      ZeroBit(j);
    } else {
      ExponentIsLength(a, x);
      TwoMono(a.expn, j);
      BitBeyond(Abs(x), j);
    }
  }

  /** The limbs, read with the sign, are the result. */
  lemma {:induction false} ResultValue(a: Bf, b: Bf, xa: int, yb: int, x: int, y: int, op: Op, t: seq<Limb>)
    requires HasValue(a, xa) && HasValue(b, yb) && Abs(xa) == Folded(x) && Abs(yb) == Folded(y)
    requires |t| == ResultLimbs(a.expn, b.expn, x < 0, y < 0, op)
    requires forall i :: 0 <= i < |t| ==> t[i] == ResultLimb(a, b, x < 0, y < 0, op, i)
    ensures LogicOf(x, y, op) == if OpBit(SignBit(x < 0), SignBit(y < 0), op) == 1 then -Val(t) - 1 else Val(t)
  {
    hide Bit, HasValue, Val, Pow, LogicOf, ResultLimb, ResultLimbs;
    var rNeg := OpBit(SignBit(x < 0), SignBit(y < 0), op) == 1;
    var z := if rNeg then -Val(t) - 1 else Val(t);
    forall j: nat ensures Bit(LogicOf(x, y, op), j) == Bit(z, j) {
      LogicBits(x, y, op, j);
      if rNeg { BitComplement(Val(t), j); }
      if j < 64 * |t| {
        LimbBit(t, j);
        ResultLimbBit(a, b, xa, yb, x, y, op, j / 64, j % 64);
      } else {
        ValBound(t);
        TwoPow(|t|);
        TwoMono(64 * |t|, j);
        BitBeyond(Val(t), j);
        BeyondLimbs(a, b, xa, yb, x, y, op, j);
      }
    }
    BitsUnique(LogicOf(x, y, op), z);
  }

  /** The operand the loop reads: a1 itself, or a1 + 1 when it is negative. */
  method Operand(a1: Bf, ghost x: int) returns (a: Bf, neg: bool, ghost xa: int)
    requires HasValue(a1, x) && BitLen(Abs(x)) < E_RANGE
    ensures neg == (x < 0) && HasValue(a, xa) && Abs(xa) == Folded(x) && a.expn <= (if a1.expn > 0 then a1.expn else 0)
  {
    hide Val, Two, BitLen, SameValue;
    if x != 0 { ExponentIsLength(a1, x); }
    neg := if a1.expn <= 0 then false else a1.sign;
    a, xa := a1, x;
    if neg {
      var r := new BfT();
      AddSi(r, a1, false, x);
      a, xa := View(r), x + 1;
      if xa != 0 {
        ExponentIsLength(a, xa);
        ShorterLength(Abs(xa), Abs(x));
      }
    }
  }

  lemma {:induction false} ShorterLength(m: nat, n: nat)
    requires m <= n
    ensures BitLen(m) <= BitLen(n)
  {
    hide Two, BitLen;
    BitLenRange(m);
    BitLenRange(n);
    if BitLen(m) > BitLen(n) { TwoMono(BitLen(n), BitLen(m) - 1); }
  }

  /** The loop over the limbs. */
  method Combine(r: BfT, a: Bf, b: Bf, aNeg: bool, bNeg: bool, op: Op, l: nat)
    requires r.Valid() && r.len == l
    modifies r.tab
    ensures forall i :: 0 <= i < l ==> r.tab[i] == ResultLimb(a, b, aNeg, bNeg, op, i)
  {
    hide Fetched, LogicOp1, Masked;
    var rNeg := OpBit(SignBit(aNeg), SignBit(bNeg), op) == 1;
    var aBitOffset, bBitOffset := |a.tab| * 64 - a.expn, |b.tab| * 64 - b.expn;
    var i := 0;
    while i < l
      invariant 0 <= i <= l
      invariant forall j :: 0 <= j < i ==> r.tab[j] == ResultLimb(a, b, aNeg, bNeg, op, j)
    {
      FetchedIs(a, i);
      FetchedIs(b, i);
      var v1 := Masked(GetBits(a.tab, aBitOffset + i * 64), aNeg);
      var v2 := Masked(GetBits(b.tab, bBitOffset + i * 64), bNeg);
      r.tab[i] := Masked(LogicOp1(v1, v2, op), rNeg);
      i := i + 1;
    }
  }

  lemma {:induction false} FetchedIs(a: Bf, i: nat)
    ensures Fetched(a, i) == GetBits(a.tab, |a.tab| * 64 - a.expn + i * 64)
  {
  }

  /** bf_logic_op: the operation of two integers of any sign as infinite two's complement numbers. */
  method BfLogicOp(r: BfT, a1: Bf, b1: Bf, op: Op, ghost x: int, ghost y: int)
    requires r.Valid() && HasValue(a1, x) && HasValue(b1, y)
    requires BitLen(Abs(x)) + 64 < E_RANGE && BitLen(Abs(y)) + 64 < E_RANGE
    modifies r, r.tab
    ensures r.Valid() && HasValue(View(r), LogicOf(x, y, op))
  {
    hide Val, Two, BitLen, SameValue, HasValue, LogicOf, ResultLimb, BfT.RoundedFrom;
    var a, aNeg, b, bNeg;
    ghost var xa, yb;
    a, aNeg, xa := Operand(a1, x);
    b, bNeg, yb := Operand(b1, y);
    var rNeg := OpBit(SignBit(aNeg), SignBit(bNeg), op) == 1;
    var l := ResultLimbs(a.expn, b.expn, aNeg, bNeg, op);
    r.Resize(l);
    Combine(r, a, b, aNeg, bNeg, op, l);
    ghost var t := r.tab[..l];
    ResultValue(a, b, xa, yb, x, y, op, t);
    ResultShort(a1, b1, x, y, a.expn, b.expn, aNeg, bNeg, op, t);
    r.expn, r.sign := l * 64, rNeg;
    var st := r.NormalizeAndRound(BF_PREC_INF, RNDZ, E_RANGE);
    MagnitudeValue(r, Val(t), rNeg, st);
    if rNeg {
      AddSi(r, View(r), true, -Val(t));
    }
  }

  /** The limbs computed stay within the exponent range. */
  lemma {:induction false} ResultShort(a1: Bf, b1: Bf, x: int, y: int, aExpn: int, bExpn: int, aNeg: bool, bNeg: bool, op: Op,
                                       t: seq<Limb>)
    requires HasValue(a1, x) && HasValue(b1, y) && |t| == ResultLimbs(aExpn, bExpn, aNeg, bNeg, op)
    requires BitLen(Abs(x)) + 64 < E_RANGE && BitLen(Abs(y)) + 64 < E_RANGE
    requires aExpn <= (if a1.expn > 0 then a1.expn else 0) && bExpn <= (if b1.expn > 0 then b1.expn else 0)
    ensures BitLen(Val(t)) < E_RANGE
  {
    hide Val, Two, BitLen, SameValue, Pow;
    if x != 0 { ExponentIsLength(a1, x); }
    if y != 0 { ExponentIsLength(b1, y); }
    ValBound(t);
    TwoPow(|t|);
    BitLenRange(Val(t));
    if BitLen(Val(t)) > 64 * |t| { TwoMono(64 * |t|, BitLen(Val(t)) - 1); }
  }

  lemma {:induction false} SameAsItself(v: int)
    ensures SameValue(v, 0, v, 0)
  {
    ScaleOne(v);
  }

  lemma {:induction false} MagnitudeValue(r: BfT, v: nat, neg: bool, st: Status)
    requires r.Valid() && r.sign == neg && BitLen(v) < E_RANGE
    requires v == 0 ==> r.len == 0 && r.expn == BF_EXP_ZERO
    requires v > 0 ==> r.RoundedFrom(v, 0, BF_PREC_INF, RNDZ, E_RANGE, st)
    ensures HasValue(View(r), if neg then 0 - v else v)
  {
    hide Val, Two, BitLen, SameValue, BfT.RoundedFrom;
    if v > 0 {
      assert SameValue(v, 0, v, 0) by { SameAsItself(v); }
      RoundedInteger(r, v, 0, if neg then 0 - v else v, st);
    }
  }
}
