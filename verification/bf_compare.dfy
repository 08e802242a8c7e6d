/** Comparing magnitudes, and how many leading bits cancel in a subtraction. */
module BfCompare {
  import opened Limbs
  import opened Rounding
  import opened BfBits
  import opened BfRound
  import opened BfOperands

  /** The exponent of the lowest bit of a. */
  function LowExp(a: Bf): int {
    a.expn - 64 * |a.tab|
  }

  /** The exponent of the lowest bit of either operand. */
  function CommonExp(a: Bf, b: Bf): int {
    if LowExp(a) <= LowExp(b) then LowExp(a) else LowExp(b)
  }

  /** The magnitude of a in units of 2^e. */
  ghost function Scale(a: Bf, e: int): int
    requires e <= LowExp(a)
  {
    Val(a.tab) * Two(LowExp(a) - e)
  }

  // ---------- bf_cmpu ----------

  lemma {:induction false} TopLess(x: seq<Limb>, y: seq<Limb>, i: nat)
    requires i < |x| == |y| && x[i + 1..] == y[i + 1..] && x[i] < y[i]
    ensures Val(x) < Val(y)
  {
    hide Val, Pow;
    WholeSplit(x, i + 1);
    WholeSplit(y, i + 1);
    assert x[..i + 1][0..i] == x[0..i] && y[..i + 1][0..i] == y[0..i];
    assert x[..i + 1] == x[0..i + 1] && y[..i + 1] == y[0..i + 1];
    ValSnoc(x, 0, i);
    ValSnoc(y, 0, i);
    ValBound(x[0..i]);
    MulMono(x[i] as int + 1, y[i], Pow(i));
    Distribute(x[i], Pow(i));
  }

  lemma {:induction false} SmallerExponent(a: Bf, b: Bf, e: int)
    requires IsNormal(a) && IsNormal(b) && a.expn < b.expn && e <= LowExp(a) && e <= LowExp(b)
    ensures Scale(a, e) < Scale(b, e)
  {
    hide Val, Two, Pow;
    var la, lb := |a.tab|, |b.tab|;
    ValBound(a.tab);
    TwoPow(la);
    TwoAdd(64 * la, LowExp(a) - e);
    MulStrict(Val(a.tab), Pow(la), Two(LowExp(a) - e));
    TopBitLen(b.tab);
    BitLenRange(Val(b.tab));
    TwoAdd(64 * lb - 1, LowExp(b) - e);
    MulMono(Two(64 * lb - 1), Val(b.tab), Two(LowExp(b) - e));
    TwoMono(a.expn - e, b.expn - 1 - e);
  }

  lemma {:induction false} RowValue(a: Bf, len: nat)
    requires |a.tab| <= len
    ensures Val(Digits(a.tab, |a.tab| - len, len)) == Scale(a, a.expn - 64 * len)
  {
    hide Val, Two, Pow, Digits;
    DigitsValue(a.tab, len - |a.tab|, len);
    TwoPow(len - |a.tab|);
  }

  /** The limb comparison, from the top, of numbers with the same exponent. */
  method CmpLimbs(a: seq<Limb>, b: seq<Limb>, len: nat) returns (r: int)
    ensures var x, y := Val(Digits(a, |a| - len, len)), Val(Digits(b, |b| - len, len));
            (r < 0 <==> x < y) && (r == 0 <==> x == y)
  {
    hide Val, Digits;
    ghost var x, y := Digits(a, |a| - len, len), Digits(b, |b| - len, len);
    var i: int := len - 1;
    while i >= 0
      invariant -1 <= i < len && x[i + 1..] == y[i + 1..]
    {
      var v1, v2 := GetLimbz(a, |a| - len + i), GetLimbz(b, |b| - len + i);
      DigitAt(a, |a| - len, len, i);
      DigitAt(b, |b| - len, len, i);
      if v1 != v2 {
        if v1 < v2 { TopLess(x, y, i); return -1; }
        TopLess(y, x, i);
        return 1;
      }
      SameFrom(x, y, i);
      i := i - 1;
    }
    assert x == x[0..] && y == y[0..];
    return 0;
  }

  lemma {:induction false} SameFrom(x: seq<Limb>, y: seq<Limb>, i: nat)
    requires i < |x| == |y| && x[i + 1..] == y[i + 1..] && x[i] == y[i]
    ensures x[i..] == y[i..]
  {
    assert x[i..] == [x[i]] + x[i + 1..] && y[i..] == [y[i]] + y[i + 1..];
  }

  /** bf_cmpu: compares absolute values; special values order by their exponents. */
  method CmpU(a: Bf, b: Bf) returns (r: int)
    requires (IsNormal(a) || IsSpecial(a)) && (IsNormal(b) || IsSpecial(b))
    ensures a.expn < b.expn ==> r < 0
    ensures a.expn > b.expn ==> r > 0
    ensures a.expn == b.expn && IsSpecial(a) ==> r == 0
    ensures IsNormal(a) && IsNormal(b) ==>
              var e := CommonExp(a, b);
              (r < 0 <==> Scale(a, e) < Scale(b, e)) && (r == 0 <==> Scale(a, e) == Scale(b, e))
  {
    hide Val, Two, Scale, Digits, IsNormal;
    if a.expn != b.expn {
      if a.expn < b.expn { SmallerIfNormal(a, b); } else { SmallerIfNormal(b, a); }
      return if a.expn < b.expn then -1 else 1;
    }
    var len := if |a.tab| > |b.tab| then |a.tab| else |b.tab|;
    r := CmpLimbs(a.tab, b.tab, len);
    RowValue(a, len);
    RowValue(b, len);
    if IsSpecial(a) { BothSpecial(a, b); }
  }

  lemma {:induction false} SmallerIfNormal(a: Bf, b: Bf)
    requires a.expn < b.expn
    ensures IsNormal(a) && IsNormal(b) ==> Scale(a, CommonExp(a, b)) < Scale(b, CommonExp(a, b))
  {
    hide Scale;
    if IsNormal(a) && IsNormal(b) { SmallerExponent(a, b, CommonExp(a, b)); }
  }

  lemma {:induction false} BothSpecial(a: Bf, b: Bf)
    requires IsSpecial(a) && (IsNormal(b) || IsSpecial(b)) && a.expn == b.expn
    ensures a.tab == b.tab
  {
  }

  lemma {:induction false} DigitAt(t: seq<Limb>, i0: int, n: nat, j: nat)
    requires j < n
    ensures Digits(t, i0, n)[j] == GetLimbz(t, i0 + j)
  {
  }

  // ---------- count_cancelled_bits ----------

  /** Exclusive or, bit by bit. */
  function Xor(x: nat, y: nat): (z: nat)
    decreases x + y
  {
    if x == 0 && y == 0 then 0 else 2 * Xor(x / 2, y / 2) + (if x % 2 != y % 2 then 1 else 0)
  }

  lemma {:induction false} XorSelf(x: nat)
    ensures Xor(x, x) == 0
    decreases x
  {
    if x > 0 { XorSelf(x / 2); }
  }

  /** The highest bit in which two numbers differ. */
  lemma {:induction false} XorTop(x: nat, y: nat)
    requires x > y
    ensures var h := BitLen(Xor(x, y)) - 1;
            && h >= 0 && x / Two(h) == y / Two(h) + 1 && x / Two(h + 1) == y / Two(h + 1)
    decreases x
  {
    hide Two, Xor, BitLen;
    XorHalves(x, y);
    if x / 2 == y / 2 {
      XorSelf(x / 2);
      LowestBit(x, y);
    } else {
      XorTop(x / 2, y / 2);
      var h := BitLen(Xor(x / 2, y / 2)) - 1;
      HalfDivision(x, h);
      HalfDivision(y, h);
      HalfDivision(x, h + 1);
      HalfDivision(y, h + 1);
    }
  }

  lemma {:induction false} XorHalves(x: nat, y: nat)
    requires x > y
    ensures x / 2 != y / 2 && Xor(x / 2, y / 2) > 0 ==> BitLen(Xor(x, y)) == BitLen(Xor(x / 2, y / 2)) + 1
    ensures Xor(x / 2, y / 2) == 0 && x / 2 == y / 2 ==> BitLen(Xor(x, y)) == 1
  {
    var d := Xor(x / 2, y / 2);
    assert Xor(x, y) / 2 == d;
    if d == 0 && x / 2 == y / 2 { assert Xor(x, y) == 1 && BitLen(0) == 0; }
  }

  lemma {:induction false} LowestBit(x: nat, y: nat)
    requires x > y && x / 2 == y / 2
    ensures x / Two(0) == y / Two(0) + 1 && x / Two(1) == y / Two(1)
  {
    TwoOne();
    ScaleOne(1);
  }

  lemma {:induction false} HalfDivision(x: nat, h: nat)
    ensures x / Two(h + 1) == x / 2 / Two(h)
  {
    hide Two;
    TwoDouble(h + 1);
    var q, p := x / 2, Two(h);
    DivMod(q, p);
    assert x == 2 * q + x % 2;
    assert x == (2 * p) * (q / p) + (2 * (q % p) + x % 2) by { MulAssoc(2, p, q / p); }
    UniqueDivision(x, 2 * p, q / p, 2 * (q % p) + x % 2);
  }

  lemma {:induction false} XorBound(x: nat, y: nat, n: nat)
    requires x < Two(n) && y < Two(n)
    ensures Xor(x, y) < Two(n)
    decreases n
  {
    if n > 0 { XorBound(x / 2, y / 2, n - 1); }
  }

  /** What the code fetches for limb t from the top. */
  function TopA(f: Frame, t: nat): Limb {
    GetLimbz(f.a, |f.a| - 1 - t)
  }

  function TopB(f: Frame, t: nat): Limb {
    GetBits(f.b, 64 * (|f.b| - 1 - t) + f.d)
  }

  lemma {:induction false} TopLimbs(f: Frame, t: nat)
    requires Fits(f)
    ensures t < f.n ==> TopA(f, t) == LimbsA(f)[f.n - 1 - t] && TopB(f, t) == LimbsB(f)[f.n - 1 - t]
    ensures t >= f.n ==> TopA(f, t) == 0 && TopB(f, t) == 0
  {
    hide Digits, Bits, GetBits;
    if t < f.n {
      DigitAt(f.a, |f.a| - f.n, f.n, f.n - 1 - t);
      FetchB(f, f.n - 1 - t);
    } else {
      BitsOutside(f.b, 64 * (|f.b| - 1 - t) + f.d);
    }
  }

  /** The difference of the top limbs, from limb k on. */
  ghost function Lead(f: Frame, k: nat): int
    requires k <= f.n
  {
    Val(LimbsA(f)[k..]) - Val(LimbsB(f)[k..])
  }

  ghost function Difference(f: Frame): int {
    Val(LimbsA(f)) - Val(LimbsB(f))
  }

  lemma {:induction false} LeadStep(f: Frame, k: nat)
    requires k < f.n
    ensures Lead(f, k) == LimbsA(f)[k] - LimbsB(f)[k] + B * Lead(f, k + 1)
  {
    hide Val, LimbsA, LimbsB;
    var x, y := LimbsA(f), LimbsB(f);
    assert x[k..] == x[k..f.n] && y[k..] == y[k..f.n] && x[k + 1..] == x[k + 1..f.n] && y[k + 1..] == y[k + 1..f.n];
    ValCons(x, k, f.n);
    ValCons(y, k, f.n);
  }

  /** The limbs below k cannot make up for one at k. */
  lemma {:induction false} LeadBounds(f: Frame, k: nat)
    requires k <= f.n
    ensures Difference(f) > (Lead(f, k) - 1) * Pow(k)
    ensures Difference(f) < (Lead(f, k) + 1) * Pow(k)
    ensures k == 0 ==> Difference(f) == Lead(f, k)
  {
    hide Val, LimbsA, LimbsB, Pow;
    var x, y := LimbsA(f), LimbsB(f);
    WholeSplit(x, k);
    WholeSplit(y, k);
    ValBound(x[..k]);
    ValBound(y[..k]);
    LeadProduct(Val(x[k..]), Val(y[k..]), Pow(k));
    if k == 0 { assert x[0..] == x && y[0..] == y; }
  }

  lemma {:induction false} LeadProduct(x: int, y: int, p: int)
    ensures (x - y - 1) * p == p * x - p * y - p
    ensures (x - y + 1) * p == p * x - p * y + p
  {
  }

  /** A difference in the leading limbs bounds the number of leading zeros of the whole. */
  lemma {:induction false} FewZeros(f: Frame, k: nat, g: nat, n: nat)
    requires k <= f.n && Lead(f, k) - 1 >= Two(g) && n + 1 + g == 64 * (f.n - k)
    ensures Two(n + 1) * Difference(f) > Pow(f.n)
  {
    hide Two, Pow, Lead, Difference;
    LeadBounds(f, k);
    MulMono(Two(g), Lead(f, k) - 1, Pow(k));
    var s := Difference(f);
    MulStrict(Two(g) * Pow(k), s, Two(n + 1));
    MulSwap(Two(n + 1), s);
    TwoAdd(n + 1, g);
    TwoPow(f.n - k);
    PowAdd(f.n - k, k);
    MulAssoc3(Two(g), Pow(k), Two(n + 1));
    MulSwap(Two(g), Two(n + 1));
  }

  /** The first limbs that differ: the bit where they do, and the run of zeros against ones after it. */
  lemma {:induction false} FirstLimbs(v1: Limb, v2: Limb)
    requires v1 > v2
    ensures var h := BitLen(Xor(v1, v2)) - 1;
            && 0 <= h < 64 && v1 - v2 == 1 + v1 % Two(h) + (Two(h) - 1 - v2 % Two(h))
            && 0 <= v1 % Two(h) < Two(h) && 0 <= v2 % Two(h) < Two(h) <= B
  {
    hide Two, BitLen, Xor;
    XorTop(v1, v2);
    TwoSixtyFour();
    XorBound(v1, v2, 64);
    BitLenRange(Xor(v1, v2));
    var h := BitLen(Xor(v1, v2)) - 1;
    if h >= 64 { TwoMono(64, h); }
    TwoMono(h, 64);
    DivMod(v1, Two(h));
    DivMod(v2, Two(h));
    MulSwap(Two(h), v1 / Two(h));
    MulSwap(Two(h), v2 / Two(h));
    Distribute(v2 / Two(h), Two(h));
  }

  /** The longer of two numbers decides how many bits their sum has. */
  lemma {:induction false} LongerSum(r1: Limb, r2: Limb, m: nat)
    requires m == if Clz(r1) <= Clz(r2) then Clz(r1) else Clz(r2)
    ensures m < 64 ==> r1 as int + r2 as int >= Two(63 - m)
    ensures m == 64 ==> r1 == 0 && r2 == 0
  {
    hide Two;
  }

  lemma {:induction false} ShortClz(r: Limb, h: nat)
    requires h <= 64 && r < Two(h)
    ensures Clz(r) >= 64 - h
  {
    hide Two;
    if r > 0 && Clz(r) < 64 - h { TwoMono(h, 63 - Clz(r)); }
  }

  method MinClz(r1: Limb, r2: Limb) returns (m: nat)
    ensures m <= 64 && (m < 64 ==> r1 as int + r2 as int >= Two(63 - m)) && (m == 64 ==> r1 == 0 && r2 == 0)
    ensures m == if Clz(r1) <= Clz(r2) then Clz(r1) else Clz(r2)
  {
    hide Two;
    m := if Clz(r1) <= Clz(r2) then Clz(r1) else Clz(r2);
    LongerSum(r1, r2, m);
  }


  function XorLimb(x: Limb, y: Limb): (z: Limb)
    ensures z == Xor(x, y)
  {
    hide Two, Xor;
    TwoSixtyFour();
    XorBound(x, y, 64);
    Xor(x, y)
  }

  /** Passes over the limbs that agree; n counts their bits. */
  method FirstDifference(a: seq<Limb>, b: seq<Limb>, d: nat, ghost f: Frame)
    returns (n: nat, bitOffset: int, v1: Limb, v2: Limb, ghost t: nat)
    requires f.a == a && f.b == b && f.d == d && Fits(f) && Difference(f) > 0
    ensures t < f.n && n == 64 * t && bitOffset == 64 * |a| - 1 - 64 * t && v1 == TopA(f, t) && v2 == TopB(f, t)
    ensures v1 > v2 && Lead(f, f.n - 1 - t) == v1 - v2
  {
    hide Pow, Lead, Difference, LimbsA, LimbsB, GetBits, GetLimbz;
    bitOffset := 64 * |a| - 1;
    var bOffset := (|b| - |a|) * 64 - 63 + d;
    n, t := 0, 0;
    LeadStart(f);
    while true
      invariant n == 64 * t && bitOffset == 64 * |a| - 1 - n && t <= f.n && Lead(f, f.n - t) == 0
      decreases f.n - t
    {
      v1 := GetLimbz(a, bitOffset / 64);
      v2 := GetBits(b, bitOffset + bOffset);
      assert bitOffset / 64 == |a| - 1 - t && bitOffset + bOffset == 64 * (|b| - 1 - t) + d;
      NotAllEqual(f, t);
      TopLimbs(f, t);
      LeadStep(f, f.n - 1 - t);
      if v1 != v2 {
        LeadPositive(f, f.n - 1 - t);
        return;
      }
      n, t, bitOffset := n + 64, t + 1, bitOffset - 64;
    }
  }

  lemma {:induction false} LeadStart(f: Frame)
    ensures Lead(f, f.n) == 0
  {
    assert LimbsA(f)[f.n..] == [] && LimbsB(f)[f.n..] == [];
  }

  lemma {:induction false} NotAllEqual(f: Frame, t: nat)
    requires t <= f.n && Difference(f) > 0 && Lead(f, f.n - t) == 0
    ensures t < f.n
  {
    hide Lead, Difference;
    LeadBounds(f, f.n - t);
  }

  lemma {:induction false} LeadPositive(f: Frame, k: nat)
    requires k <= f.n && Difference(f) > 0
    ensures Lead(f, k) >= 0
  {
    hide Lead, Difference, Pow;
    LeadBounds(f, k);
    if Lead(f, k) < 0 { MulMono(Lead(f, k) + 1, 0, Pow(k)); }
  }

  /** Passes over limbs of zeros in a against limbs of ones in b. */
  method SecondRun(a: seq<Limb>, b: seq<Limb>, d: nat, n0: nat, bitOffset0: int, ghost t0: nat, ghost f: Frame)
    returns (n: nat)
    requires f.a == a && f.b == b && f.d == d && Fits(f) && Difference(f) > 0
    requires t0 <= f.n && n0 == 64 * t0 && bitOffset0 == 64 * |a| - 1 - n0 && Lead(f, f.n - t0) == 1
    ensures Two(n + 1) * Difference(f) > Pow(f.n)
  {
    hide Pow, Two, Lead, Difference, LimbsA, LimbsB, GetBits, GetLimbz, Clz;
    n := n0;
    var bitOffset := bitOffset0;
    var bOffset := (|b| - |a|) * 64 - 63 + d;
    ghost var t := t0;
    while true
      invariant n == 64 * t && bitOffset == 64 * |a| - 1 - n && t <= f.n && Lead(f, f.n - t) == 1
      decreases f.n - t
    {
      var v1 := GetLimbz(a, bitOffset / 64);
      var v2 := GetBits(b, bitOffset + bOffset);
      assert bitOffset / 64 == |a| - 1 - t && bitOffset + bOffset == 64 * (|b| - 1 - t) + d;
      TopLimbs(f, t);
      if t < f.n { LeadStep(f, f.n - 1 - t); }
      if v1 != 0 || v2 != B - 1 {
        var p1 := MinClz(v1, B - 1 - v2);
        n := n + p1;
        RunEnds(f, t, v1, v2, p1, n);
        return;
      }
      n, t, bitOffset := n + 64, t + 1, bitOffset - 64;
    }
  }

  /** Where the run of zeros against ones ends, also when it is past the last limb. */
  lemma {:induction false} RunEnds(f: Frame, t: nat, v1: Limb, v2: Limb, p1: nat, n: nat)
    requires t <= f.n && Difference(f) > 0 && Lead(f, f.n - t) == 1 && n == 64 * t + p1
    requires t < f.n ==> Lead(f, f.n - 1 - t) == v1 - v2 + B
    requires t == f.n ==> v1 == 0 && v2 == 0
    requires (v1 != 0 || v2 != B - 1) && p1 == (if Clz(v1) <= Clz(B - 1 - v2) then Clz(v1) else Clz(B - 1 - v2))
    requires p1 < 64 ==> v1 as int + (B - 1 - v2) >= Two(63 - p1)
    requires p1 == 64 ==> v1 == 0 && B - 1 - v2 == 0
    ensures Two(n + 1) * Difference(f) > Pow(f.n)
  {
    hide Pow, Two, Lead, Difference;
    if t < f.n {
      FewZeros(f, f.n - 1 - t, 63 - p1, n);
    } else {
      AllOnesClz();
      LeadBounds(f, 0);
      TwoPow(f.n);
      TwoDouble(64 * f.n + 1);
    }
  }

  lemma {:induction false} AllOnesClz()
    ensures Clz(B - 1) == 0
  {
    hide Two;
    TwoSixtyFour();
    TwoMono(63, 63);
    if Clz(B - 1) > 0 { TwoMono(64 - Clz(B - 1), 63); TwoDouble(64); }
  }

  /** count_cancelled_bits: in a - b no more than n leading bits are zero. */
  method CountCancelledBits(a: seq<Limb>, b: seq<Limb>, d: nat, ghost f: Frame) returns (n: nat)
    requires f.a == a && f.b == b && f.d == d && Fits(f) && Difference(f) > 0
    ensures Two(n + 1) * Difference(f) > Pow(f.n)
  {
    hide Two, Pow, Lead, Difference, TopA, TopB, LimbsA, LimbsB, Clz, Fits;
    var bitOffset, v1, v2;
    ghost var t;
    n, bitOffset, v1, v2, t := FirstDifference(a, b, d, f);
    FirstLimbs(v1, v2);
    XorClz(v1, v2);
    var p := Clz(XorLimb(v1, v2)) + 1;
    n := n + p;
    p := 64 - p;
    if p > 0 {
      // zeros in a against ones in b among the bits below
      var r1, r2 := v1 % Two(p), Two(p) - 1 - v2 % Two(p);
      var p1 := MinClz(r1, r2);
      ShortClz(r1, p);
      ShortClz(r2, p);
      p1 := p1 - (64 - p);
      n := n + p1;
      if p1 != p {
        FewZeros(f, f.n - 1 - t, p - 1 - p1, n);
        return;
      }
    } else {
      ScaleOne(1);
    }
    n := SecondRun(a, b, d, n, bitOffset - 64, t + 1, f);
  }

  lemma {:induction false} XorClz(v1: Limb, v2: Limb)
    requires v1 > v2
    ensures Clz(XorLimb(v1, v2)) == 64 - BitLen(Xor(v1, v2))
  {
  }
}
