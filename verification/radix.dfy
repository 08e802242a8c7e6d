/** Divide-and-conquer conversion of integers from and to a radix, with powers shared per level. */
module Radix {
  import opened Limbs
  import opened Rounding
  import opened BfBits
  import opened FastDivision
  import Modular

  /** The number with the given digits, lowest first (Horner's rule). */
  ghost function Value(t: seq<Limb>, radix: int): int {
    Modular.Eval(t, radix)
  }

  function DigitsOf(a: nat, radix: Limb, n: nat): (t: seq<Limb>)
    requires radix >= 2
    ensures |t| == n
  {
    if n == 0 then [] else [a % radix] + DigitsOf(a / radix, radix, n - 1)
  }

  ghost predicate AreDigits(t: seq<Limb>, radix: int) {
    forall i :: 0 <= i < |t| ==> t[i] < radix
  }

  lemma {:induction false} ValueBound(t: seq<Limb>, radix: int)
    requires radix >= 2 && AreDigits(t, radix)
    ensures 0 <= Value(t, radix) < Modular.Pw(radix, |t|)
    decreases |t|
  {
    if t != [] {
      ValueBound(t[1..], radix);
      var v, p := Value(t[1..], radix), Modular.Pw(radix, |t| - 1);
      MulMono(v + 1, p, radix);
      Distribute(v, radix);
      MulMono(0, v, radix);
      MulSwap(radix, v);
      MulSwap(radix, p);
    }
  }

  /** The digits of a value are the digits it was made from. */
  lemma {:induction false} DigitsOfValue(t: seq<Limb>, radix: Limb)
    requires radix >= 2 && AreDigits(t, radix)
    ensures Value(t, radix) >= 0 && DigitsOf(Value(t, radix), radix, |t|) == t
    decreases |t|
  {
    ValueBound(t, radix);
    if t != [] {
      ValueBound(t[1..], radix);
      DigitsOfValue(t[1..], radix);
      UniqueDivision(Value(t, radix), radix, Value(t[1..], radix), t[0]);
    }
  }

  /** The value of the digits of a number that fits is the number. */
  lemma {:induction false} ValueOfDigits(a: nat, radix: Limb, n: nat)
    requires radix >= 2 && a < Modular.Pw(radix, n)
    ensures Value(DigitsOf(a, radix, n), radix) == a && AreDigits(DigitsOf(a, radix, n), radix)
    decreases n
  {
    if n > 0 {
      DivMod(a, radix);
      DivLess(a, radix, Modular.Pw(radix, n - 1));
      ValueOfDigits(a / radix, radix, n - 1);
      var t := DigitsOf(a, radix, n);
      assert t[1..] == DigitsOf(a / radix, radix, n - 1);
    }
  }

  /** The digits of a number cut at radix^k. */
  lemma {:induction false} DigitsSplit(q: nat, r: nat, radix: Limb, k: nat, n: nat)
    requires radix >= 2 && r < Modular.Pw(radix, k)
    ensures q * Modular.Pw(radix, k) + r >= 0
    ensures DigitsOf(q * Modular.Pw(radix, k) + r, radix, k + n) == DigitsOf(r, radix, k) + DigitsOf(q, radix, n)
    decreases k
  {
    var p := Modular.Pw(radix, k);
    MulMono(0, q, p);
    if k == 0 {
      assert DigitsOf(r, radix, 0) + DigitsOf(q, radix, n) == DigitsOf(q, radix, n);
    } else {
      var p', a := Modular.Pw(radix, k - 1), q * p + r;
      DivMod(r, radix);
      DivLess(r, radix, p');
      DigitsSplit(q, r / radix, radix, k - 1, n);
      assert q * p == radix * (q * p') by { MulAssoc3(q, radix, p'); MulAssoc3(q, p', radix); MulSwap(q * p', radix); MulSwap(radix, p'); }
      SplitStep(a, radix, q * p', r);
    }
  }

  lemma {:induction false} SplitStep(a: int, radix: int, x: int, r: int)
    requires radix >= 2 && a == radix * x + r && 0 <= r
    ensures a % radix == r % radix && a / radix == x + r / radix
  {
    DivMod(r, radix);
    assert radix * (x + r / radix) == radix * x + radix * (r / radix);
    UniqueDivision(a, radix, x + r / radix, r % radix);
  }

  // ---------- powers ----------

  /** bf_pow_ui, exactly: squaring, and multiplying where b has a one. */
  method PowUi(a: int, b: Limb) returns (r: int)
    ensures r == Modular.Pw(a, b)
  {
    hide Two, BitLen, Modular.Pw;
    if b == 0 {
      assert Modular.Pw(a, 0) == 1 by { PowNone(a); }
      return 1;
    }
    r := a;
    var nBits := 64 - Clz(b);
    var i := nBits - 2;
    TopBitOnly(a, b);
    while i >= 0
      invariant -1 <= i < nBits && r == Modular.Pw(a, b / Two(i + 1))
    {
      QuotientNat(b, Two(i + 1));
      QuotientNat(b, Two(i));
      NextBit(b, i);
      OneMoreBit(a, b / Two(i + 1), b / Two(i));
      r := r * r;
      if b / Two(i) % 2 == 1 {
        r := r * a;
      }
      i := i - 1;
    }
    ScaleOne(b);
    assert b / Two(0) == b;
  }

  lemma {:induction false} PowNone(a: int)
    ensures Modular.Pw(a, 0) == 1
  {
  }

  /** The exponent doubled, and one more when its next bit is set. */
  lemma {:induction false} OneMoreBit(a: int, e: nat, e': nat)
    requires e' == 2 * e + e' % 2
    ensures var p := Modular.Pw(a, e); Modular.Pw(a, e') == if e' % 2 == 1 then (p * p) * a else p * p
  {
    Modular.PwAdd(a, e, e);
    if e' % 2 == 1 { assert Modular.Pw(a, e + e + 1) == a * Modular.Pw(a, e + e); }
  }

  lemma {:induction false} TopBitOnly(a: int, b: Limb)
    requires b > 0
    ensures a == Modular.Pw(a, b / Two(64 - Clz(b) - 1))
  {
    hide Two;
    var n := 64 - Clz(b);
    TwoDouble(n);
    UniqueDivision(b, Two(n - 1), 1, b - Two(n - 1));
    Modular.PwSmall(a);
  }

  lemma {:induction false} NextBit(b: Limb, i: nat)
    ensures b / Two(i) == 2 * (b / Two(i + 1)) + b / Two(i) % 2
  {
    hide Two;
    TwoDouble(i + 1);
    NestedDivision(b, Two(i), 2);
    MulSwap(Two(i), 2);
  }

  // ---------- the recursion tree ----------

  /** How many digits the lower part of a node at this level has. */
  function LowDigits(n0: nat, level: nat): int {
    (n0 * 2 / Two(level + 1) + 1) / 2
  }

  /** The sizes that occur at a level. */
  ghost predicate NodeSize(n0: nat, level: nat, n: nat) {
    n >= 1 && (n == n0 / Two(level) || n == n0 / Two(level) + 1)
  }

  /** The two parts of a node are nodes of the next level, so one power serves the whole level. */
  lemma {:induction false} NodeParts(n0: nat, level: nat, n: nat)
    requires NodeSize(n0, level, n) && n >= 2
    ensures var n2 := LowDigits(n0, level);
            1 <= n2 < n && NodeSize(n0, level + 1, n2) && NodeSize(n0, level + 1, n - n2)
  {
    hide Two;
    TwoDouble(level + 1);
    ScaledDivision(n0, Two(level), 2);
    MulSwap(Two(level), 2);
    NestedDivision(n0, Two(level), 2);
  }

  /** A node that is split lies at a level the table has room for. */
  lemma {:induction false} LevelFits(n0: Limb, level: nat, n: nat)
    requires 1 <= n0 <= B / 2 && NodeSize(n0, level, n) && n >= 2
    ensures level <= CeilLog2(n0)
  {
    hide Two, CeilLog2;
    CeilLog2Range(n0);
    DivMod(n0, Two(level));
    if level > CeilLog2(n0) {
      TwoMono(CeilLog2(n0) + 1, level);
      TwoDouble(CeilLog2(n0) + 1);
      UniqueDivision(n0, Two(level), 0, n0);
    }
  }

  lemma {:induction false} RootSize(n0: nat)
    requires n0 >= 1
    ensures NodeSize(n0, 0, n0)
  {
    ScaleOne(n0);
    assert n0 / 1 == n0;
  }

  // ---------- the estimated quotient ----------

  /** The binary places of the reciprocal of b rounded to prec bits. */
  function InversePlaces(b: nat, prec: nat): nat
    requires b >= 1 && prec >= 1
  {
    prec + BitLen(b) - 1
  }

  /** 1 / b rounded to nearest with prec bits, as a multiple of 2^-InversePlaces. */
  function Inverse(b: nat, prec: nat): nat
    requires b >= 1 && prec >= 1
  {
    (2 * Two(InversePlaces(b, prec)) + b) / (2 * b)
  }

  function Times(a: nat, b: nat): (r: nat) {
    MulMono(0, a, b);
    a * b
  }

  /** a times the reciprocal, rounded to nearest with qPrec bits, and the fraction dropped. */
  function Estimate(a: nat, inv: nat, qPrec: nat, places: nat): nat {
    hide Two, RoundTo;
    QuotientNat(RoundTo(RNDN, false, Times(a, inv), qPrec), Two(places));
    RoundTo(RNDN, false, Times(a, inv), qPrec) / Two(places)
  }

  /** The bits kept of the reciprocal of a power of n2 digits: enough for a quotient of n2 + 1. */
  function InversePrec(radix: Limb, n2: nat): (prec: nat)
    requires radix >= 2
    ensures prec >= 2
  {
    Times(n2 + 1, CeilLog2(radix)) + 2
  }

  lemma {:induction false} InverseClose(b: nat, prec: nat)
    requires b >= 1 && prec >= 1
    ensures 2 * Abs(Inverse(b, prec) * b - Two(InversePlaces(b, prec))) <= b
  {
    hide Two, BitLen;
    var s := Two(InversePlaces(b, prec));
    DivMod(2 * s + b, 2 * b);
    HalfProduct(b, Inverse(b, prec));
  }

  lemma {:induction false} HalfProduct(b: int, i: int)
    ensures 2 * b * i == 2 * (i * b)
  {
  }

  /** The reciprocal has places enough for quotients below p. */
  lemma {:induction false} PlacesEnough(b: nat, prec: nat, qPrec: nat)
    requires b >= 1 && qPrec >= 1 && prec >= qPrec + 2
    ensures 2 * (b * Two(qPrec)) < Two(InversePlaces(b, prec))
  {
    hide Two, BitLen;
    var l := BitLen(b);
    BitLenRange(b);
    MulStrict(b, Two(l), Two(qPrec));
    TwoAdd(l, qPrec);
    TwoDouble(l + qPrec + 1);
    TwoMono(l + qPrec + 1, InversePlaces(b, prec));
  }

  /** How far the product with the reciprocal is from the quotient: less than a quarter. */
  lemma {:induction false} ProductClose(a: nat, b: nat, i: nat, s: nat, p: nat)
    requires b >= 1 && a < b * p && 2 * Abs(i * b - s) <= b && 2 * (b * p) < s
    ensures 4 * Abs(Times(a, i) * b - a * s) < b * s
  {
    hide Abs;
    PullOut(a, i, b, s);
    AbsProduct(a, i * b - s);
    Quarter(a, b, Abs(i * b - s), s);
  }

  lemma {:induction false} Quarter(a: nat, b: nat, x: nat, s: nat)
    requires b >= 1 && 2 * x <= b && 2 * a < s
    ensures 4 * (a * x) < b * s
  {
    MulMono(2 * x, b, 2 * a);
    MulStrict(2 * a, s, b);
    MulSwap(b, 2 * a);
    MulSwap(s, b);
    FourTimes(a, x);
  }

  lemma {:induction false} FourTimes(a: int, x: int)
    ensures 2 * x * (2 * a) == 4 * (a * x)
  {
  }

  lemma {:induction false} PullOut(a: nat, i: nat, b: int, s: int)
    ensures Times(a, i) * b - a * s == a * (i * b - s)
  {
  }

  lemma {:induction false} AbsProduct(a: nat, d: int)
    ensures Abs(a * d) == a * Abs(d)
  {
    MulSwap(a, d);
    if d < 0 { MulMono(d, 0, a); NegProduct(a, d); } else { MulMono(0, d, a); }
  }

  lemma {:induction false} NegProduct(a: int, d: int)
    ensures -(a * d) == a * -d
  {
  }

  /** Rounding to qPrec bits moves a number that exceeds 2^qPrec units by less than half a unit, by at
      most half a unit. */
  lemma {:induction false} RoundClose(m: nat, s: nat, qPrec: nat)
    requires qPrec >= 1 && 2 * m < 2 * (Two(s) * Two(qPrec)) + Two(s)
    ensures 2 * Abs(m - RoundTo(RNDN, false, m, qPrec)) <= Two(s)
  {
    hide Two, BitLen, RoundTo, Representable;
    var u, p := Two(s), Two(qPrec);
    var c := (2 * m + u) / (2 * u);
    DivMod(2 * m + u, 2 * u);
    HalfProduct(u, c);
    if c > p { MulMono(p + 1, c, u); Distribute(p, u); MulSwap(p, u); }
    MulMono(0, c, u);
    ScaledRepresentable(c, s, qPrec);
    NearestIsNearest(m, qPrec, c * u);
  }

  /** Numbers within one of each other have floors within one of each other. */
  lemma {:induction false} FloorsClose(r: nat, s: nat, a: nat, b: nat)
    requires s >= 1 && b >= 1 && Abs(r * b - a * s) < b * s
    ensures Abs(r / s - a / b) <= 1
  {
    var x, y := r / s, a / b;
    DivMod(r, s);
    DivMod(a, b);
    if x >= y + 2 { FloorGap(r, s, a, b, x, y); }
    if y >= x + 2 { FloorGap(a, b, r, s, y, x); MulSwap(b, s); }
  }

  lemma {:induction false} FloorGap(r: nat, s: nat, a: nat, b: nat, x: int, y: int)
    requires s >= 1 && b >= 1 && s * x <= r && a < b * y + b && x >= y + 2
    ensures r * b - a * s > b * s
  {
    MulMono(s * x, r, b);
    MulStrict(a, b * y + b, s);
    MulMono(y + 2, x, s * b);
    GapSum(s, b, x, y);
    MulMono(1, b, s);
  }

  lemma {:induction false} GapSum(s: int, b: int, x: int, y: int)
    ensures s * x * b == x * (s * b) && (b * y + b) * s == (y + 1) * (s * b) && (y + 2) * (s * b) == (y + 1) * (s * b) + s * b
    ensures s * b == b * s
  {
  }

  /** With a reciprocal of two bits more than the quotient can have, the estimate is at most one off. */
  lemma {:induction false} EstimateClose(a: nat, b: nat, prec: nat, qPrec: nat)
    requires b >= 1 && qPrec >= 1 && prec >= qPrec + 2 && a < b * Two(qPrec)
    ensures Abs(Estimate(a, Inverse(b, prec), qPrec, InversePlaces(b, prec)) - a / b) <= 1
  {
    hide Two, BitLen, RoundTo, Inverse, Times, Abs, InversePlaces;
    var i, t, p := Inverse(b, prec), InversePlaces(b, prec), Two(qPrec);
    var s, m := Two(t), Times(a, i);
    var r := RoundTo(RNDN, false, m, qPrec);
    InverseClose(b, prec);
    PlacesEnough(b, prec, qPrec);
    ProductClose(a, b, i, s, p);
    ProductBelow(a, b, m, s, p);
    RoundClose(m, t, qPrec);
    TotalError(a, b, m, r, s);
    FloorsClose(r, s, a, b);
  }

  lemma {:induction false} ProductBelow(a: nat, b: nat, m: nat, s: nat, p: nat)
    requires b >= 1 && s >= 1 && a < b * p && 4 * Abs(m * b - a * s) < b * s
    ensures 2 * m < 2 * (s * p) + s
  {
    MulStrict(a, b * p, s);
    if 2 * m >= 2 * (s * p) + s {
      MulMono(2 * (s * p) + s, 2 * m, b);
      BelowSum(b, m, s, p);
    }
  }

  lemma {:induction false} BelowSum(b: int, m: int, s: int, p: int)
    ensures 2 * m * b == 2 * (m * b) && (2 * (s * p) + s) * b == 2 * (b * p * s) + b * s
  {
  }

  lemma {:induction false} TotalError(a: nat, b: nat, m: nat, r: nat, s: nat)
    requires b >= 1 && 4 * Abs(m * b - a * s) < b * s && 2 * Abs(m - r) <= s
    ensures Abs(r * b - a * s) < b * s
  {
    MulMono(2 * Abs(m - r), s, b);
    AbsProduct(b, m - r);
    ErrorSum(b, m, r, s);
  }

  lemma {:induction false} ErrorSum(b: int, m: int, r: int, s: int)
    ensures 2 * Abs(m - r) * b == 2 * (b * Abs(m - r)) && b * (m - r) == m * b - r * b && s * b == b * s
  {
  }

  /** A power of the radix has no more bits than its digits need. */
  lemma {:induction false} PowerBits(radix: Limb, n: nat)
    requires radix >= 2
    ensures Modular.Pw(radix, n) <= Two(Times(n, CeilLog2(radix)))
    decreases n
  {
    hide Two, CeilLog2;
    var l := CeilLog2(radix);
    if n == 0 {
      ScaleOne(1);
    } else {
      PowerBits(radix, n - 1);
      RadixBits(radix);
      TwoAdd(l, Times(n - 1, l));
      Distribute(n - 1, l);
      PowerPositive(radix, n - 1);
      MulMono(radix, Two(l), Modular.Pw(radix, n - 1));
      MulMono(Modular.Pw(radix, n - 1), Two(Times(n - 1, l)), Two(l));
      MulSwap(Two(l), Two(Times(n - 1, l)));
      MulSwap(Two(l), Modular.Pw(radix, n - 1));
    }
  }

  lemma {:induction false} RadixBits(radix: Limb)
    requires radix >= 2
    ensures CeilLog2(radix) >= 1 && radix <= Two(CeilLog2(radix))
  {
    hide Two;
  }

  class Converter {
    const radix: Limb
    const n0: Limb
    /** Whether reciprocals are wanted as well. */
    const inverses: bool
    /** The powers computed so far, zero where none is. */
    const powTab: array<int>
    /** Their reciprocals. */
    const invTab: array<int>

    ghost predicate Valid()
      reads powTab, invTab
    {
      && radix >= 2 && 1 <= n0 <= B / 2 && powTab.Length == CeilLog2(n0) + 2 && invTab.Length == powTab.Length
      && powTab != invTab && forall k :: 0 <= k < powTab.Length ==> Cached(k)
    }

    ghost predicate Cached(k: nat)
      requires k < powTab.Length && k < invTab.Length && radix >= 2
      reads powTab, invTab
    {
      powTab[k] == 0
      || (LowDigits(n0, k) >= 0 && powTab[k] == Modular.Pw(radix, LowDigits(n0, k)) && HasInverse(k, LowDigits(n0, k)))
    }

    ghost predicate HasInverse(k: nat, n2: nat)
      requires k < powTab.Length && k < invTab.Length && radix >= 2
      reads powTab, invTab
    {
      powTab[k] >= 1 && (inverses ==> invTab[k] == Inverse(powTab[k], InversePrec(radix, n2)))
    }

    constructor (n0: Limb, radix: Limb, inverses: bool)
      requires radix >= 2 && 1 <= n0 <= B / 2
      ensures Valid() && this.n0 == n0 && this.radix == radix && this.inverses == inverses && fresh(powTab) && fresh(invTab)
    {
      this.n0, this.radix, this.inverses := n0, radix, inverses;
      powTab := new int[CeilLog2(n0) + 2](_ => 0);
      invTab := new int[CeilLog2(n0) + 2](_ => 0);
    }

    /** The power of a level, and its reciprocal, computed on first use. */
    method LevelPower(level: nat, n2: Limb) returns (b: int)
      requires Valid() && level < powTab.Length && n2 == LowDigits(n0, level)
      modifies powTab, invTab
      ensures Valid() && b == powTab[level] == Modular.Pw(radix, n2) && HasInverse(level, n2)
    {
      hide CeilLog2, LowDigits, Modular.Pw, Inverse;
      assert Cached(level);
      if powTab[level] == 0 {
        var p := PowUi(radix, n2);
        PowerPositive(radix, n2);
        powTab[level] := p;
        if inverses {
          invTab[level] := Inverse(p, InversePrec(radix, n2));
        }
        forall k | 0 <= k < powTab.Length ensures Cached(k) {
          assert old(Cached(k));
        }
      }
      b := powTab[level];
    }

    /** bf_integer_from_radix_rec */
    method FromRadixRec(tab: seq<Limb>, level: nat) returns (r: int)
      requires Valid() && |tab| >= 1 && NodeSize(n0, level, |tab|)
      modifies powTab, invTab
      ensures Valid() && r == Value(tab, radix)
      decreases |tab|
    {
      hide CeilLog2, Modular.Pw, Modular.Eval, Two, Cached, HasInverse, LowDigits, NodeSize;
      assert n0 >= 1;
      var n := |tab|;
      if n == 1 {
        OneDigit(tab, radix);
        r := tab[0];
      } else {
        SplitNode(n0, level, n);
        var n2 := LowDigits(n0, level);
        var b := LevelPower(level, n2);
        var high := FromRadixRec(tab[n2..], level + 1);
        var low := FromRadixRec(tab[..n2], level + 1);
        r := high * b + low;
        assert tab == tab[..n2] + tab[n2..];
        Modular.EvalConcat(tab[..n2], tab[n2..], radix);
        MulSwap(high, b);
      }
    }

    /** bf_integer_to_radix_rec: the n digits of a, written to out[o..o + n]. */
    method ToRadixRec(out: array<Limb>, o: nat, a: nat, n: nat, level: nat)
      requires Valid() && n >= 1 && NodeSize(n0, level, n) && o + n <= out.Length && a < Modular.Pw(radix, n)
      requires inverses && (out as object) != (powTab as object) && (out as object) != (invTab as object)
      modifies out, powTab, invTab
      ensures Valid() && out[o..o + n] == DigitsOf(a, radix, n)
      ensures forall i :: 0 <= i < out.Length && !(o <= i < o + n) ==> out[i] == old(out[i])
      decreases n
    {
      hide CeilLog2, Modular.Pw, Two, Cached, LowDigits, NodeSize, Inverse;
      if n == 1 {
        SmallDigits(a, radix);
        out[o] := a;
      } else if n == 2 {
        SmallDigits(a, radix);
        out[o], out[o + 1] := a % radix, a / radix;
      } else {
        SplitNode(n0, level, n);
        var n2 := LowDigits(n0, level);
        var b := LevelPower(level, n2);
        SplitBound(a, radix, n2, n - n2);
        var q, r, _ := Divide(a, b, invTab[level], n - n2, n2);
        QuotientDigits(a, q, r, radix, n2, n - n2);
        ToRadixRec(out, o + n2, q, n - n2, level + 1);
        ghost var high := out[o + n2..o + n];
        ToRadixRec(out, o, r, n2, level + 1);
        assert out[o + n2..o + n] == high;
        assert out[o..o + n] == out[o..o + n2] + out[o + n2..o + n];
      }
    }

    /** The estimated quotient, corrected until the remainder is in range: at most once. */
    method Divide(a: nat, b: int, inv: int, n1: nat, n2: nat) returns (q: nat, r: nat, ghost corrections: nat)
      requires radix >= 2 && 1 <= n1 <= n2 + 1 && b >= 1 && a < b * Modular.Pw(radix, n1)
      requires inv == Inverse(b, InversePrec(radix, n2))
      ensures a == q * b + r && r < b && corrections <= 1
    {
      hide Modular.Pw, Two, BitLen, CeilLog2, Inverse, Estimate, RoundTo;
      EstimateInTree(a, b, radix, n1, n2);
      var qPrec, invPrec := Times(n1, CeilLog2(radix)), InversePrec(radix, n2);
      var q0 := Estimate(a, inv, qPrec, InversePlaces(b, invPrec));
      q, r, corrections := Correct(a, b, q0);
    }
  }

  /** Adding or subtracting the divisor until the remainder is in range: as often as the estimate is
      off. */
  method Correct(a: nat, b: int, q0: int) returns (q: nat, r: nat, ghost corrections: nat)
    requires b >= 1
    ensures a == q * b + r && r < b && corrections == Abs(q0 - a / b)
  {
    var r0 := a - q0 * b;
    var qAdd := 0;
    corrections := 0;
    while r0 < 0
      invariant a == (q0 + qAdd) * b + r0 && corrections == -qAdd && (qAdd < 0 ==> r0 < b)
      decreases -r0
    {
      Distribute(q0 + qAdd - 1, b);
      r0 := r0 + b;
      qAdd := qAdd - 1;
      corrections := corrections + 1;
    }
    while r0 >= b
      invariant a == (q0 + qAdd) * b + r0 && r0 >= 0 && corrections == Abs(qAdd) && (qAdd < 0 ==> r0 < b)
      decreases r0
    {
      Distribute(q0 + qAdd, b);
      r0 := r0 - b;
      qAdd := qAdd + 1;
      corrections := corrections + 1;
    }
    NotNegative(a, q0 + qAdd, b, r0);
    QuotientIs(a, b, q0 + qAdd, r0);
    q, r := q0 + qAdd, r0;
  }

  lemma {:induction false} QuotientIs(a: int, b: int, q: int, r: int)
    requires b >= 1 && a == q * b + r && 0 <= r < b
    ensures a / b == q
  {
    MulSwap(q, b);
    UniqueDivision(a, b, q, r);
  }

  /** The estimate of a split: the precisions are those of the two numbers of digits. */
  lemma {:induction false} EstimateInTree(a: nat, b: nat, radix: Limb, n1: nat, n2: nat)
    requires radix >= 2 && 1 <= n1 <= n2 + 1 && b >= 1 && a < b * Modular.Pw(radix, n1)
    ensures var prec := InversePrec(radix, n2);
            Abs(Estimate(a, Inverse(b, prec), Times(n1, CeilLog2(radix)), InversePlaces(b, prec)) - a / b) <= 1
  {
    hide Two, CeilLog2, Estimate, Modular.Pw, Inverse, InversePlaces;
    var l := CeilLog2(radix);
    RadixBits(radix);
    MulMono(1, n1, l);
    MulMono(n1, n2 + 1, l);
    PowerBits(radix, n1);
    MulMono(Modular.Pw(radix, n1), Two(Times(n1, l)), b);
    MulSwap(Modular.Pw(radix, n1), b);
    MulSwap(Two(Times(n1, l)), b);
    EstimateClose(a, b, InversePrec(radix, n2), Times(n1, l));
  }

  lemma {:induction false} SplitBound(a: nat, radix: Limb, n2: nat, n1: nat)
    requires radix >= 2 && a < Modular.Pw(radix, n2 + n1)
    ensures a < Modular.Pw(radix, n2) * Modular.Pw(radix, n1)
  {
    Modular.PwAdd(radix, n2, n1);
  }

  lemma {:induction false} NotNegative(a: int, q: int, b: int, r: int)
    requires a >= 0 && b >= 1 && a == q * b + r && 0 <= r < b
    ensures q >= 0
  {
    if q < 0 { MulMono(q, -1, b); }
  }

  lemma {:induction false} PowerPositive(radix: int, n: nat)
    requires radix >= 1
    ensures Modular.Pw(radix, n) >= 1
    decreases n
  {
    if n > 0 {
      PowerPositive(radix, n - 1);
      MulMono(1, Modular.Pw(radix, n - 1), radix);
    }
  }

  lemma {:induction false} OneDigit(t: seq<Limb>, radix: int)
    requires |t| == 1
    ensures Value(t, radix) == t[0]
  {
    assert Modular.Eval(t[1..], radix) == 0;
  }

  /** Everything a split needs: both parts are nodes of the next level, and the table has the level. */
  lemma {:induction false} SplitNode(n0: Limb, level: nat, n: nat)
    requires 1 <= n0 <= B / 2 && NodeSize(n0, level, n) && n >= 2
    ensures var n2 := LowDigits(n0, level);
            && 1 <= n2 < n <= 2 * n2 + 1 && n2 < B && NodeSize(n0, level + 1, n2) && NodeSize(n0, level + 1, n - n2)
            && level < CeilLog2(n0) + 2
  {
    hide CeilLog2, Two;
    NodeParts(n0, level, n);
    LevelFits(n0, level, n);
    QuotientNat(n0, Two(level));
    ShiftBounds(n0, level);
  }

  lemma {:induction false} SmallDigits(a: nat, radix: Limb)
    requires radix >= 2
    ensures a < Modular.Pw(radix, 1) ==> a < radix && DigitsOf(a, radix, 1) == [a]
    ensures a < Modular.Pw(radix, 2) ==> 0 <= a / radix < radix && DigitsOf(a, radix, 2) == [a % radix, a / radix]
  {
    Modular.PwSmall(radix);
    if a < radix { SmallMod(a, radix); }
    if a < Modular.Pw(radix, 2) {
      DivLess(a, radix, radix);
      SmallMod(a / radix, radix);
      assert DigitsOf(a / radix, radix, 1) == [a / radix % radix];
    }
  }

  lemma {:induction false} QuotientDigits(a: nat, q: nat, r: nat, radix: Limb, n2: nat, n1: nat)
    requires radix >= 2 && a < Modular.Pw(radix, n2 + n1) && a == q * Modular.Pw(radix, n2) + r && r < Modular.Pw(radix, n2)
    ensures q < Modular.Pw(radix, n1) && DigitsOf(a, radix, n2 + n1) == DigitsOf(r, radix, n2) + DigitsOf(q, radix, n1)
  {
    hide Modular.Pw;
    DigitsSplit(q, r, radix, n2, n1);
    Modular.PwAdd(radix, n2, n1);
    PowerPositive(radix, n2);
    if q >= Modular.Pw(radix, n1) {
      MulMono(Modular.Pw(radix, n1), q, Modular.Pw(radix, n2));
      MulSwap(Modular.Pw(radix, n1), Modular.Pw(radix, n2));
    }
  }

  // ---------- whole conversions ----------

  /** bf_integer_from_radix */
  method FromRadix(tab: seq<Limb>, radix: Limb) returns (r: int)
    requires radix >= 2 && 1 <= |tab| <= B / 2
    ensures r == Value(tab, radix)
  {
    hide CeilLog2, NodeSize;
    var c := new Converter(|tab|, radix, false);
    RootSize(|tab|);
    r := c.FromRadixRec(tab, 0);
  }

  /** bf_integer_to_radix */
  method ToRadix(out: array<Limb>, a: nat, radix: Limb)
    requires radix >= 2 && 1 <= out.Length <= B / 2 && a < Modular.Pw(radix, out.Length)
    modifies out
    ensures out[..] == DigitsOf(a, radix, out.Length)
  {
    hide CeilLog2, NodeSize, Modular.Pw;
    var c := new Converter(out.Length, radix, true);
    RootSize(out.Length);
    c.ToRadixRec(out, 0, a, out.Length, 0);
    assert out[..] == out[0..out.Length];
  }

  /** Converting digits to a number and back gives the digits again. */
  method RoundTrip(tab: seq<Limb>, radix: Limb) returns (out: array<Limb>)
    requires radix >= 2 && 1 <= |tab| <= B / 2 && AreDigits(tab, radix)
    ensures out[..] == tab
  {
    var a := FromRadix(tab, radix);
    ValueBound(tab, radix);
    DigitsOfValue(tab, radix);
    out := new Limb[|tab|];
    ToRadix(out, a, radix);
  }
}
