/** Operands of different lengths and exponents, lined up limb by limb. */
module BfOperands {
  import opened Limbs
  import opened Rounding
  import opened BfBits
  import opened BfRound

  /** A number that is only read. Zero, infinity and NaN have no limbs and a special exponent. */
  datatype Bf = Bf(sign: bool, expn: int, tab: seq<Limb>)

  ghost predicate IsNormal(a: Bf) {
    BF_EXP_ZERO < a.expn < BF_EXP_INF && |a.tab| > 0 && a.tab[|a.tab| - 1] >= B / 2
  }

  ghost predicate IsSpecial(a: Bf) {
    a.tab == [] && (a.expn == BF_EXP_ZERO || a.expn == BF_EXP_INF || a.expn == BF_EXP_NAN)
  }

  /** get_limbz */
  function GetLimbz(t: seq<Limb>, i: int): Limb {
    if 0 <= i < |t| then t[i] else 0
  }

  /** get_bits: 64 bits from bit position pos, which may be negative, on. */
  function GetBits(t: seq<Limb>, pos: int): Limb {
    var i, p := pos / 64, pos % 64;
    if p == 0 then GetLimbz(t, i) else ShiftIn(GetLimbz(t, i), GetLimbz(t, i + 1), p)
  }

  /** n limbs of t from index i0 on, zeros outside. */
  function Digits(t: seq<Limb>, i0: int, n: nat): (s: seq<Limb>)
    ensures |s| == n
  {
    seq<Limb>(n, j => GetLimbz(t, j + i0))
  }

  /** n limbs of t from bit 64 * i0 + p on. */
  function Bits(t: seq<Limb>, i0: int, p: nat, n: nat): (s: seq<Limb>)
    ensures |s| == n
  {
    seq<Limb>(n, j => GetBits(t, 64 * (j + i0) + p))
  }

  lemma {:induction false} ZerosValue(t: seq<Limb>)
    requires forall k :: 0 <= k < |t| ==> t[k] == 0
    ensures Val(t) == 0
    decreases |t|
  {
    if |t| > 0 { ZerosValue(t[1..]); }
  }

  /** Starting below the number multiplies it. */
  lemma {:induction false} DigitsValue(t: seq<Limb>, low: nat, n: nat)
    requires low + |t| <= n
    ensures Val(Digits(t, 0 - low, n)) == Val(t) * Pow(low)
  {
    hide Val, Pow;
    var s := Digits(t, 0 - low, n);
    var zeros, rest := s[..low], s[low + |t|..];
    assert forall j :: 0 <= j < n ==> s[j] == GetLimbz(t, j + (0 - low));
    assert forall j :: 0 <= j < |rest| ==> rest[j] == s[low + |t| + j];
    assert s[low..low + |t|] == t;
    assert s == zeros + (t + rest);
    ZerosValue(zeros);
    ZerosValue(rest);
    ValConcat(t, rest);
    ValConcat(zeros, t + rest);
    MulSwap(Pow(low), Val(t));
    assert Pow(|t|) * Val(rest) == 0;
  }

  /** The shifted limbs add up to the limbs, divided by 2^p. */
  lemma {:induction false} BitsSum(t: seq<Limb>, i0: int, p: nat, n: nat)
    requires 0 < p < 64
    ensures Two(p) * Val(Bits(t, i0, p, n)) + GetLimbz(t, i0) % Two(p)
         == Val(Digits(t, i0, n)) + Pow(n) * (GetLimbz(t, n + i0) % Two(p))
    decreases n
  {
    hide Val, Pow, Two, GetLimbz, Bits, Digits, ShiftIn;
    if n == 0 {
      NoLimbs(Bits(t, i0, p, 0));
      NoLimbs(Digits(t, i0, 0));
      assert Pow(0) == 1 by { Empty(t, 0); }
    } else {
      BitsSum(t, i0, p, n - 1);
      var s, d := Bits(t, i0, p, n), Digits(t, i0, n);
      Prefixes(t, i0, p, n);
      ValSnoc(s, 0, n - 1);
      ValSnoc(d, 0, n - 1);
      PowStep(n);
      BitsStep(Two(p), s[n - 1], Pow(n - 1), Val(s[0..n - 1]), Val(d[0..n - 1]), d[n - 1], GetLimbz(t, i0) % Two(p),
               GetLimbz(t, n - 1 + i0) % Two(p), GetLimbz(t, n + i0) % Two(p));
    }
  }

  lemma {:induction false} Prefixes(t: seq<Limb>, i0: int, p: nat, n: nat)
    requires n > 0 && 0 < p < 64
    ensures var s, d := Bits(t, i0, p, n), Digits(t, i0, n);
            && s[0..n - 1] == Bits(t, i0, p, n - 1) && d[0..n - 1] == Digits(t, i0, n - 1) && s[0..n] == s && d[0..n] == d
            && d[n - 1] == GetLimbz(t, n - 1 + i0) && s[n - 1] == ShiftIn(d[n - 1], GetLimbz(t, n + i0), p)
  {
    hide GetLimbz, ShiftIn;
    var pos := 64 * (n - 1 + i0) + p;
    assert pos / 64 == n - 1 + i0 && pos % 64 == p;
    assert GetBits(t, pos) == ShiftIn(GetLimbz(t, n - 1 + i0), GetLimbz(t, n + i0), p);
  }

  lemma {:induction false} BitsStep(q: int, g: int, w: int, x: int, y: int, a: int, low: int, m: int, m': int)
    requires q * x + low == y + w * m && q * g + m == a + B * m'
    ensures q * (x + g * w) + low == y + a * w + (B * w) * m'
  {
    assert (q * g + m) * w == (a + B * m') * w;
  }

  /** The number shifted up by sh bits, as n limbs. */
  lemma {:induction false} BitsValue(t: seq<Limb>, sh: nat, n: nat)
    requires sh + 64 * |t| <= 64 * n
    ensures Val(Bits(t, (0 - sh) / 64, (0 - sh) % 64, n)) == Val(t) * Two(sh)
  {
    hide Val, Pow, Two, Bits, Digits, GetLimbz;
    var i0, p := (0 - sh) / 64, (0 - sh) % 64;
    var low := 0 - i0;
    assert sh + p == 64 * low;
    DigitsValue(t, low, n);
    TwoPow(low);
    TwoAdd(sh, p);
    if p == 0 {
      ScaleOne(1);
      BitsAligned(t, i0, n);
    } else {
      BitsSum(t, i0, p, n);
      Beyond(t, i0, n, p);
      var g := Val(Bits(t, i0, p, n));
      MulAssoc(Val(t), Two(sh), Two(p));
      MulSwap(Two(p), g);
      Cancel(g, Val(t) * Two(sh), Two(p));
    }
  }

  lemma {:induction false} Beyond(t: seq<Limb>, i0: int, n: nat, p: nat)
    requires i0 < 0 && n + i0 >= |t|
    ensures GetLimbz(t, i0) % Two(p) == 0 && Pow(n) * (GetLimbz(t, n + i0) % Two(p)) == 0
  {
    SmallMod(0, Two(p));
  }

  lemma {:induction false} BitsAligned(t: seq<Limb>, i0: int, n: nat)
    ensures Bits(t, i0, 0, n) == Digits(t, i0, n)
  {
    forall j | 0 <= j < n ensures Bits(t, i0, 0, n)[j] == Digits(t, i0, n)[j] {
      assert (64 * (j + i0)) / 64 == j + i0 && (64 * (j + i0)) % 64 == 0;
    }
  }

  lemma {:induction false} BitsOutside(t: seq<Limb>, pos: int)
    requires pos + 64 <= 0 || pos >= 64 * |t|
    ensures GetBits(t, pos) == 0
  {
    var p := pos % 64;
    if p != 0 {
      SmallMod(0, Two(p));
      assert GetLimbz(t, pos / 64) == 0 && GetLimbz(t, pos / 64 + 1) == 0;
      ShiftInZero(p);
    }
  }

  lemma {:induction false} ShiftInZero(p: nat)
    requires 1 <= p < 64
    ensures ShiftIn(0, 0, p) == 0
  {
    hide Two;
    SmallMod(0, Two(p));
    UniqueDivision(0, Two(p), 0, 0);
  }

  /** Two operands over one frame of n limbs below a's exponent: a on limb boundaries, b shifted
      down by the difference d of the exponents. */
  datatype Frame = Frame(a: seq<Limb>, b: seq<Limb>, d: nat, n: nat)

  ghost predicate Fits(f: Frame) {
    |f.a| <= f.n && f.d + 64 * |f.b| <= 64 * f.n
  }

  function ShiftOf(f: Frame): (sh: int) {
    64 * (f.n - |f.b|) - f.d
  }

  function LimbsA(f: Frame): (s: seq<Limb>)
    ensures |s| == f.n
  {
    Digits(f.a, |f.a| - f.n, f.n)
  }

  function LimbsB(f: Frame): (s: seq<Limb>)
    ensures |s| == f.n
  {
    Bits(f.b, (0 - ShiftOf(f)) / 64, (0 - ShiftOf(f)) % 64, f.n)
  }

  lemma {:induction false} FrameValues(f: Frame)
    requires Fits(f)
    ensures Val(LimbsA(f)) == Val(f.a) * Pow(f.n - |f.a|)
    ensures Val(LimbsB(f)) == Val(f.b) * Two(ShiftOf(f))
  {
    hide Val, Pow, Two, Bits, Digits;
    DigitsValue(f.a, f.n - |f.a|, f.n);
    BitsValue(f.b, ShiftOf(f), f.n);
  }

  /** Limb j of b's row, as the code fetches it. */
  lemma {:induction false} FetchB(f: Frame, j: nat)
    requires j < f.n
    ensures LimbsB(f)[j] == GetBits(f.b, 64 * j - ShiftOf(f))
  {
  }
}
