/** Rounding a floating point number in place: bf_get_rnd_add, __bf_round, bf_normalize_and_round. */
module BfRound {
  import opened Limbs
  import opened Rounding
  import opened BfBits

  const BF_EXP_ZERO: int := -0x8000_0000_0000_0000
  const BF_EXP_INF: int := 0x7fff_ffff_ffff_fffe
  const BF_EXP_NAN: int := 0x7fff_ffff_ffff_ffff
  const BF_PREC_INF: int := 0x3fff_ffff_ffff_ffff

  datatype Status = Status(inexact: bool, underflow: bool, overflow: bool)

  /** m1 * 2^e1 == m2 * 2^e2 */
  ghost predicate SameValue(m1: int, e1: int, m2: int, e2: int) {
    if e1 >= e2 then m1 * Two(e1 - e2) == m2 else m1 == m2 * Two(e2 - e1)
  }

  /** The decision of bf_get_rnd_add from its three bits. */
  function AddOne(mode: Mode, neg: bool, bit1: int, bit0: bool, last: int): bool {
    match mode
    case RNDZ => false
    case RNDN => bit1 == 1 && (bit0 || last == 1)
    case RNDD => neg && (bit1 == 1 || bit0)
    case RNDU => !neg && (bit1 == 1 || bit0)
    case RNDA => bit1 == 1 || bit0
    case RNDNA => bit1 == 1
  }

  /** The bits decide as the remainder does. */
  lemma {:induction false} AddOneIsUp(mode: Mode, neg: bool, v: nat, k: nat)
    requires k >= 1
    ensures var bit1, bit0, last := v / Two(k - 1) % 2, v % Two(k - 1) != 0, v / Two(k) % 2;
            && AddOne(mode, neg, bit1, bit0, last) == Up(mode, neg, v / Two(k), v % Two(k), Two(k))
            && ((bit1 == 1 || bit0) <==> v % Two(k) != 0)
  {
    hide Two;
    var h := Two(k - 1);
    assert Two(k) == 2 * h by { TwoDouble(k); }
    var d, m := v / h, v % h;
    DivMod(v, h);
    assert v == (2 * h) * (d / 2) + (m + h * (d % 2)) by { Halves(v, h, d, m); }
    if d % 2 == 1 { ScaleBit(h, 1); } else { ScaleBit(h, 0); }
    UniqueDivision(v, 2 * h, d / 2, m + h * (d % 2));
  }

  lemma {:induction false} Halves(v: int, h: int, d: int, m: int)
    requires v == h * d + m
    ensures v == (2 * h) * (d / 2) + (m + h * (d % 2))
  {
    var e, f := d / 2, d % 2;
    assert d == 2 * e + f;
    HalvesSum(h, e, f);
  }

  lemma {:induction false} HalvesSum(h: int, e: int, f: int)
    ensures h * (2 * e + f) == (2 * h) * e + h * f
  {
  }

  lemma {:induction false} ScaleBit(h: int, b: int)
    requires 0 <= b <= 1
    ensures h * b == if b == 1 then h else 0
  {
  }

  predicate ToInfinity(mode: Mode, neg: bool) {
    mode.RNDN? || mode.RNDNA? || mode.RNDA? || (mode.RNDD? && neg) || (mode.RNDU? && !neg)
  }

  lemma {:induction false} MinusOne(p: int, q: int)
    ensures (p - 1) * q == p * q - q
  {
  }

  /** Overflow goes to infinity exactly in the modes that take a remainder of more than half a unit up. */
  lemma {:induction false} OverflowDecided(mode: Mode, neg: bool, q: int, rem: int, unit: int)
    requires unit < 2 * rem < 2 * unit
    ensures ToInfinity(mode, neg) <==> Up(mode, neg, q, rem, unit)
  {
  }

  /** (2^prec - 1) * 2^(eMax - prec) is the largest number with prec significant bits below 2^eMax. */
  lemma {:induction false} LargestBelow(x: nat, e: int, prec: nat, eMax: int, k: int)
    requires Representable(x, prec) && prec >= 1 && e + BitLen(x) <= eMax && k <= e && k <= eMax - prec
    ensures x * Two(e - k) <= (Two(prec) - 1) * Two(eMax - prec - k)
  {
    hide Two, BitLen;
    var c: nat, j: nat :| c < Two(prec) && x == Scaled(c, j);
    var a, b := e - k + j, eMax - prec - k;
    MulAssoc(c, Two(j), Two(e - k));
    TwoAdd(j, e - k);
    assert x * Two(e - k) == c * Two(a);
    if a <= b {
      TwoMono(a, b);
      FewerUnits(c, Two(prec) - 1, Two(a), Two(b));
    } else {
      ScaledBelow(x, e - k);
      FewUnits(c, a, b, prec, x * Two(e - k), BitLen(x) + (e - k));
    }
  }

  lemma {:induction false} FewerUnits(c: int, d: int, p: int, q: int)
    requires 0 <= c <= d && 0 <= p <= q
    ensures c * p <= d * q
  {
    MulMono(c, d, p);
    MulMono(p, q, d);
    MulSwap(p, d);
    MulSwap(q, d);
  }

  lemma {:induction false} ScaledBelow(x: nat, s: nat)
    ensures x * Two(s) < Two(BitLen(x) + s)
  {
    hide Two, BitLen;
    BitLenRange(x);
    TwoAdd(BitLen(x), s);
    MulStrict(x, Two(BitLen(x)), Two(s));
  }

  /** A multiple of a larger unit below the limit stays a whole unit below it. */
  lemma {:induction false} FewUnits(c: nat, a: nat, b: nat, prec: nat, v: int, n: nat)
    requires a > b && v == c * Two(a) < Two(n) && n <= prec + b
    ensures v <= (Two(prec) - 1) * Two(b)
  {
    hide Two;
    TwoMono(n, prec + b);
    TwoAdd(prec, b);
    TwoAdd(a - b, b);
    MulAssoc(c, Two(a - b), Two(b));
    var d := c * Two(a - b);
    if d >= Two(prec) { MulMono(Two(prec), d, Two(b)); }
    MulMono(d, Two(prec) - 1, Two(b));
  }

  class BfT {
    var sign: bool
    var expn: int
    var tab: array<Limb>
    var len: nat

    ghost predicate Valid()
      reads this
    {
      len <= tab.Length
    }

    ghost function Mag(): (m: int)
      requires Valid()
      reads this, tab
      ensures m >= 0
    {
      Val(tab[..len])
    }

    /** A finite number other than zero, in canonical form. */
    ghost predicate Normal()
      requires Valid()
      reads this, tab
    {
      len > 0 && tab[len - 1] >= B / 2 && tab[0] != 0
    }

    constructor ()
      ensures Valid() && len == 0 && fresh(tab)
    {
      sign, expn, len := false, BF_EXP_ZERO, 0;
      tab := new Limb[0];
    }

    method SetZero(isNeg: bool)
      modifies this
      ensures Valid() && len == 0 && expn == BF_EXP_ZERO && sign == isNeg && tab == old(tab)
    {
      len, expn, sign := 0, BF_EXP_ZERO, isNeg;
    }

    method SetInf(isNeg: bool)
      modifies this
      ensures Valid() && len == 0 && expn == BF_EXP_INF && sign == isNeg && tab == old(tab)
    {
      len, expn, sign := 0, BF_EXP_INF, isNeg;
    }

    /** bf_resize, with the contents kept. */
    method Resize(n: nat)
      requires Valid()
      modifies this
      ensures Valid() && len == n && (tab == old(tab) || fresh(tab)) && sign == old(sign) && expn == old(expn)
      ensures forall i :: 0 <= i < n && i < old(len) ==> tab[i] == old(tab[i])
    {
      if n > tab.Length {
        var t := new Limb[n];
        forall i | 0 <= i < len {
          t[i] := tab[i];
        }
        tab := t;
      }
      len := n;
    }

    /** bf_get_rnd_add on the l limbs of tab. */
    method GetRndAdd(l: nat, prec: nat, mode: Mode) returns (addOne: bool, inexact: bool)
      requires Valid() && 1 <= l <= len && prec >= 1
      ensures var v, k := Val(tab[..l]), 64 * l - prec;
              if k <= 0 then !addOne && !inexact
              else addOne == Up(mode, sign, v / Two(k), v % Two(k), Two(k)) && (inexact <==> v % Two(k) != 0)
    {
      hide Val, Two, GetBit, Up;
      ghost var v, k := Val(tab[..l]), 64 * l - prec;
      var bit0 := ScanBitNz(tab, l, l * 64 - 1 - (prec + 1));
      var bit1 := GetBit(tab[..l], l * 64 - 1 - prec);
      var last := GetBit(tab[..l], l * 64 - 1 - (prec - 1));
      addOne := AddOne(mode, sign, bit1, bit0, last);
      inexact := bit1 == 1 || bit0;
      if k <= 0 {
        GetBitBelow(tab[..l], l * 64 - 1 - prec);
      } else {
        GetBitValue(tab[..l], k - 1);
        GetBitValue(tab[..l], k);
        if k == 1 { ScaleOne(1); }
        AddOneIsUp(mode, sign, v, k);
      }
    }

    /** Adds one at bit 64 * pos + shift; a carry out of the top moves the point. */
    method AddUnit(l: nat, pos: nat, shift: nat)
      requires Valid() && pos < l <= len && shift < 64
      modifies this`expn, tab
      ensures var x, n := old(Val(tab[pos..l])), l - pos;
              if x + Two(shift) < Pow(n) then
                expn == old(expn) && Val(tab[pos..l]) == x + Two(shift)
              else
                expn == old(expn) + 1 && 0 <= x + Two(shift) - 2 * Val(tab[pos..l]) <= 1
      ensures tab[l - 1] >= B / 2 || old(tab[l - 1]) < B / 2
    {
      hide Val, Pow, Two;
      ghost var s0, x, n := tab[..], Val(tab[pos..l]), l - pos;
      LimbPower(shift);
      var carry := MpAddUi(tab, pos, Two(shift), l - pos);
      ValBound(s0[pos..l]);
      ghost var s1, y := tab[..], Val(tab[pos..l]);
      assert s1[pos..l] == tab[pos..l] && s0[pos..l] == old(tab[pos..l]);
      ValBound(s1[pos..l]);
      assert y + carry * Pow(n) == x + Two(shift);
      if carry != 0 {
        // shift right by one digit
        TwoOne();
        var dropped := MpShr(tab, pos, tab, pos, l - pos, 1, 1);
        expn := expn + 1;
        assert 2 * Val(tab[pos..l]) + dropped == y + Pow(n);
        TopHalf(tab[..], pos, l, y);
      } else {
        TopKept(s0, s1, pos, l);
      }
    }

    /** The lowest limb from pos on that is not zero. */
    method FirstNonZero(pos: nat, l: nat) returns (i: nat)
      requires pos < l <= tab.Length && tab[l - 1] >= B / 2
      ensures pos <= i < l && tab[i] != 0 && Val(tab[pos..l]) == Val(tab[i..l]) * Pow(i - pos)
    {
      hide Val, Pow;
      i := pos;
      Empty(tab[..], pos);
      while tab[i] == 0
        invariant pos <= i < l && Val(tab[pos..l]) == Val(tab[i..l]) * Pow(i - pos)
        decreases l - i
      {
        assert tab[..][pos..l] == tab[pos..l] && tab[..][i..l] == tab[i..l] && tab[..][i + 1..l] == tab[i + 1..l];
        DropZero(tab[..], pos, i, l);
        i := i + 1;
      }
    }

    /** Clears the bits below 64 * pos + shift, drops the zero limbs at the low end, and shortens. */
    method Trim(l: nat, pos: nat, shift: nat)
      requires Valid() && pos < l <= len && shift < 64 && tab[l - 1] >= B / 2
      modifies this`len, tab
      ensures Valid() && Normal() && len <= l - pos
      ensures var y := old(Val(tab[pos..l])); Val(tab[..len]) * Pow(l - pos - len) == CutLow(y, shift)
    {
      hide Val, Pow, Two, Normal, CutLow;
      ClearLow(l, pos, shift);
      DropZeros(l, pos);
    }

    /** Zero limbs at the bottom are dropped. */
    method DropZeros(l: nat, pos: nat)
      requires Valid() && pos < l <= len && tab[l - 1] >= B / 2
      modifies this`len, tab
      ensures Valid() && Normal() && len <= l - pos
      ensures Val(tab[..len]) * Pow(l - pos - len) == old(Val(tab[pos..l]))
    {
      hide Val, Pow, Normal;
      ghost var y, s1 := Val(tab[pos..l]), tab[..];
      var i := FirstNonZero(pos, l);
      assert s1[i..l] == tab[i..l];
      ghost var z := Val(tab[i..l]);
      MoveDown(i, l - i);
      len := l - i;
      assert Val(tab[..len]) == z;
      IsNormal(s1[i..l]);
    }

    method ClearLow(l: nat, pos: nat, shift: nat)
      requires Valid() && pos < l <= len && shift < 64 && tab[l - 1] >= B / 2
      modifies tab
      ensures Val(tab[pos..l]) == CutLow(old(Val(tab[pos..l])), shift) && tab[l - 1] >= B / 2
    {
      hide Val, Two, CutLow;
      ghost var s0 := tab[..];
      if shift != 0 {
        LowBelow(tab[pos], Two(shift));
        tab[pos] := tab[pos] - tab[pos] % Two(shift);
      }
      assert tab[..][pos..l] == tab[pos..l] && s0[pos..l] == old(tab[pos..l]);
      Masked(s0, tab[..], pos, l, shift);
    }

    lemma {:induction false} IsNormal(t: seq<Limb>)
      requires Valid() && tab[..len] == t && |t| > 0 && t[|t| - 1] >= B / 2 && t[0] != 0
      ensures Normal()
    {
      assert tab[..len][len - 1] == tab[len - 1] && tab[..len][0] == tab[0];
    }

    /** memmove to the low end. */
    method MoveDown(i: nat, n: nat)
      requires i + n <= tab.Length
      modifies tab
      ensures tab[..n] == old(tab[i..i + n])
    {
      ghost var s0 := tab[..];
      if i == 0 { return; }
      var j := 0;
      while j < n
        invariant 0 <= j <= n && tab[..j] == s0[i..i + j] && tab[i + j..] == s0[i + j..]
      {
        assert tab[i + j] == tab[i + j..][0] == s0[i + j];
        tab[j] := tab[j + i];
        j := j + 1;
      }
    }

    /** bf_set_overflow: infinity, or the largest finite number when rounding towards zero. */
    method SetOverflow(prec: nat, mode: Mode, eMax: int)
      requires Valid() && prec >= 1
      modifies this, tab
      ensures Valid() && (tab == old(tab) || fresh(tab)) && sign == old(sign)
      ensures Overflowed(prec, mode, eMax)
    {
      hide Val, Pow, Two;
      if prec == BF_PREC_INF || ToInfinity(mode, sign) {
        SetInf(sign);
      } else {
        var l := (prec + 63) / 64;
        Resize(l);
        var low := (0 - prec) % 64;
        LimbPower(low);
        var t := tab;
        t[0] := B - Two(low);
        var i := 1;
        while i < l
          invariant 1 <= i <= l <= t.Length && t == tab && len == l && sign == old(sign)
          invariant t[0] == B - Two(low) && forall k :: 1 <= k < i ==> t[k] == B - 1
        {
          t[i] := B - 1;
          i := i + 1;
        }
        expn := eMax;
        AllOnes(tab[..len], low);
        assert 64 * l - prec == low;
      }
    }

    ghost predicate Overflowed(prec: nat, mode: Mode, eMax: int)
      requires Valid() && prec >= 1
      reads this, tab
    {
      if prec == BF_PREC_INF || ToInfinity(mode, sign) then len == 0 && expn == BF_EXP_INF
      else
        && expn == eMax && len == (prec + 63) / 64
        && Mag() == Pow(len) - Two((0 - prec) % 64)
    }

    /** What overflow leaves: infinity, or the largest number of the precision and the exponent range, as a
        remainder of more than half a unit would be rounded. */
    lemma {:induction false} OverflowMeans(prec: nat, mode: Mode, eMax: int, q: int, rem: int, unit: int)
      requires Valid() && 1 <= prec < BF_PREC_INF && Overflowed(prec, mode, eMax) && unit < 2 * rem < 2 * unit
      ensures Up(mode, sign, q, rem, unit) ==> len == 0 && expn == BF_EXP_INF
      ensures !Up(mode, sign, q, rem, unit) ==> expn == eMax && SameValue(Mag(), expn - 64 * len, Two(prec) - 1, eMax - prec)
    {
      hide Val, Two, Pow;
      OverflowDecided(mode, sign, q, rem, unit);
      if !ToInfinity(mode, sign) {
        var low := (0 - prec) % 64;
        assert 64 * len == prec + low;
        TwoPow(len);
        TwoAdd(prec, low);
        MinusOne(Two(prec), Two(low));
        ScaleOne(Mag());
      }
    }

    /** A rounded number is finite and not zero exactly when it lies from 2^(2 - eRange) up to 2^eRange. */
    lemma {:induction false} FiniteMeans(v: nat, e: int, prec: nat, mode: Mode, eRange: int, st: Status, k: nat)
      requires Valid() && prec >= 1 && v > 0 && RoundedFrom(v, e, prec, mode, eRange, st)
      requires k + e >= 0 && k + 2 - eRange >= 0 && k + eRange >= 0
      ensures var r := RoundTo(mode, sign, v, prec);
              (!st.underflow && !st.overflow) <==> Two(k + 2 - eRange) <= r * Two(k + e) < Two(k + eRange)
    {
      hide Val, Two, BitLen, RoundTo, Normal, Overflowed, SameValue;
      var r := RoundTo(mode, sign, v, prec);
      RoundPositive(mode, sign, v, prec);
      BitLenScale(r, k + e);
      MulStrict(0, r, Two(k + e));
      BitLenRange(r * Two(k + e));
      var n := BitLen(r) + (k + e);
      if n >= k + 3 - eRange { TwoMono(k + 2 - eRange, n - 1); } else { TwoMono(n, k + 2 - eRange); }
      if n <= k + eRange { TwoMono(n, k + eRange); } else { TwoMono(k + eRange, n - 1); }
    }

    /** The exponent of the rounded value of the l limbs of tab. */
    ghost function RoundedExp(l: nat, prec: nat, mode: Mode): int
      requires Valid() && l <= len
      reads this, tab
    {
      expn - 64 * l + BitLen(RoundTo(mode, sign, Val(tab[..l]), prec))
    }

    /** __bf_round: the l limbs of tab, top bit set, rounded to prec bits. */
    method Round(prec: nat, mode: Mode, eRange: int, l: nat) returns (st: Status)
      requires Valid() && 1 <= l <= len && tab[l - 1] >= B / 2 && prec >= 1
      modifies this, tab
      ensures Valid() && sign == old(sign) && (tab == old(tab) || fresh(tab))
      ensures var v, e := old(Val(tab[..l])), old(expn) - 64 * l;
              var r, expn' := RoundTo(mode, sign, v, prec), old(RoundedExp(l, prec, mode));
              if expn' < -eRange + 3 then
                st == Status(true, true, false) && len == 0 && expn == BF_EXP_ZERO
              else if expn' > eRange then
                st == Status(true, false, true) && Overflowed(prec, mode, eRange)
              else
                st == Status(r != v, false, false) && Normal() && expn == expn'
                && SameValue(Mag(), expn - 64 * len, r, e)
    {
      hide Val, Pow, Two, BitLen, Up, RoundTo, SameValue, Overflowed, Normal, CutLow;
      ghost var t, e := tab[..l], expn - 64 * l;
      ghost var v, r := Val(t), RoundTo(mode, sign, Val(t), prec);
      var eMin, eMax := -eRange + 3, eRange;
      var addOne, inexact := GetRndAdd(l, prec, mode);
      RoundChanges(t, prec, mode, sign);
      var k := if 64 * l >= prec then 64 * l - prec else 0;
      var pos, shift := k / 64, k % 64;
      if addOne {
        AddUnit(l, pos, shift);
      }
      ghost var y, carry := Val(tab[pos..l]), expn - (e + 64 * l);
      assert t[pos..] == t[pos..l] && old(tab[pos..l]) == t[pos..];
      KeptParts(t, prec, mode, sign, y, carry, addOne);
      if expn < eMin {
        SetZero(sign);
        return Status(true, true, false);
      }
      if expn > eMax {
        SetOverflow(prec, mode, eMax);
        return Status(true, false, true);
      }
      Trim(l, pos, shift);
      KeptSame(Mag(), l - pos - len, pos, CutLow(y, shift), carry, r, expn - 64 * len, e);
      st := Status(inexact, false, false);
    }

    /** tab[..l] shifted left by fewer bits than its leading zeros. */
    method ShiftUp(l: nat, shift: nat)
      requires 1 <= l <= tab.Length && 1 <= shift < 64 && tab[l - 1] < Two(64 - shift)
      modifies tab
      ensures Val(tab[..l]) == old(Val(tab[..l])) * Two(shift)
    {
      hide Val, Pow, Two;
      ghost var s0 := tab[..];
      var v: Limb := 0;
      var i := 0;
      Empty(s0, 0);
      TwoLimb(shift);
      SmallMod(0, Two(64 - shift));
      while i < l
        invariant 0 <= i <= l && tab[i..] == s0[i..] && (i > 0 ==> v == s0[i - 1]) && (i == 0 ==> v == 0)
        invariant Val(tab[0..i]) + v / Two(64 - shift) * Pow(i) == Val(s0[0..i]) * Two(shift)
      {
        ghost var s1 := tab[..];
        assert tab[i] == tab[i..][0] == s0[i];
        var a := tab[i];
        tab[i] := ShiftLeft(a, v, shift);
        ShiftStep(s0, s1, tab[..], i, a, v, shift);
        assert tab[..][0..i + 1] == tab[0..i + 1] && s1[0..i] == tab[0..i];
        v := a;
        i := i + 1;
      }
      TopGone(v, Two(64 - shift), Pow(l));
      assert tab[0..l] == tab[..l] && s0[0..l] == old(tab[..l]);
    }

    /** The number of limbs up to the highest that is not zero. */
    method Significant() returns (l: nat)
      requires Valid()
      ensures l <= len && Val(tab[..l]) == Mag() && (l > 0 ==> tab[l - 1] != 0)
    {
      hide Val, Pow;
      l := len;
      while l > 0 && tab[l - 1] == 0
        invariant 0 <= l <= len && Val(tab[..l]) == Mag()
      {
        assert tab[..][0..l] == tab[..l] && tab[..][0..l - 1] == tab[..l - 1];
        ValSnoc(tab[..], 0, l - 1);
        l := l - 1;
      }
    }

    /** Shifts the l limbs so that the top bit is set. */
    method Normalize(l: nat) returns (shift: nat)
      requires 1 <= l <= tab.Length && tab[l - 1] != 0
      modifies tab
      ensures Val(tab[..l]) == old(Val(tab[..l])) * Two(shift) && tab[l - 1] >= B / 2
    {
      hide Val, Pow, Two;
      ghost var s0 := tab[..l];
      shift := Clz(tab[l - 1]);
      ClzMeans(tab[l - 1]);
      if shift != 0 {
        ShiftUp(l, shift);
      } else {
        ScaleOne(Val(s0));
      }
      TopSet(tab[..l], s0, shift);
    }

    /** bf_normalize_and_round: any nonzero magnitude, wherever its top bit is. */
    method NormalizeAndRound(prec: nat, mode: Mode, eRange: int) returns (st: Status)
      requires Valid() && prec >= 1
      modifies this, tab
      ensures Valid() && sign == old(sign) && (tab == old(tab) || fresh(tab))
      ensures old(Mag()) == 0 ==> st == Status(false, false, false) && len == 0 && expn == BF_EXP_ZERO
      ensures var v, e := old(Mag()), old(expn - 64 * len);
              v > 0 ==> RoundedFrom(v, e, prec, mode, eRange, st)
    {
      hide Val, Pow, Two, BitLen, RoundTo, Normal, Overflowed, SameValue;
      ghost var v, e := Mag(), expn - 64 * len;
      var l := Significant();
      if l == 0 {
        NoLimbs(tab[..0]);
        expn, len := BF_EXP_ZERO, 0;
        return Status(false, false, false);
      }
      TopPositive(tab[..l]);
      expn := expn - (len - l) * 64;
      var shift := Normalize(l);
      expn := expn - shift;
      assert Val(tab[..l]) == v * Two(shift) && expn - 64 * l == e - shift;
      st := Round(prec, mode, eRange, l);
      RoundedShift(v, e, shift, prec, mode, eRange, st);
    }

    /** The result of rounding v * 2^e. */
    ghost predicate RoundedFrom(v: nat, e: int, prec: nat, mode: Mode, eRange: int, st: Status)
      requires Valid() && prec >= 1
      reads this, tab
    {
      var r := RoundTo(mode, sign, v, prec);
      var expn' := e + BitLen(r);
      if expn' < -eRange + 3 then
        st == Status(true, true, false) && len == 0 && expn == BF_EXP_ZERO
      else if expn' > eRange then
        st == Status(true, false, true) && Overflowed(prec, mode, eRange)
      else
        st == Status(r != v, false, false) && Normal() && expn == expn' && SameValue(Mag(), expn - 64 * len, r, e)
    }

    lemma {:induction false} RoundedShift(v: nat, e: int, shift: nat, prec: nat, mode: Mode, eRange: int, st: Status)
      requires Valid() && prec >= 1 && v > 0 && v * Two(shift) >= 0
      requires RoundedFrom(v * Two(shift), e - shift, prec, mode, eRange, st)
      ensures RoundedFrom(v, e, prec, mode, eRange, st)
    {
      hide Val, Two, BitLen, RoundTo, Normal, Overflowed, SameValue;
      var r := RoundTo(mode, sign, v, prec);
      RoundScale(mode, sign, v, shift, prec);
      RoundPositive(mode, sign, v, prec);
      BitLenScale(r, shift);
      if r * Two(shift) == v * Two(shift) { Cancel(r, v, Two(shift)); }
      if SameValue(Mag(), expn - 64 * len, r * Two(shift), e - shift) {
        SameScaled(Mag(), expn - 64 * len, r, e, shift);
      }
    }

    /** Rounding what is kept with a sticky bit is rounding the whole. */
    lemma {:induction false} RoundedSticky(t: nat, low: nat, w: nat, e: int, prec: nat, mode: Mode, eRange: int, st: Status)
      requires Valid() && prec >= 1 && t > 0 && low < Two(w) && (low == 0 || BitLen(t) >= prec + 2)
      requires RoundedFrom(Stuck(t, low > 0), e, prec, mode, eRange, st)
      requires t * Two(w) + low >= 0
      ensures RoundedFrom(t * Two(w) + low, e - w, prec, mode, eRange, st)
    {
      hide Val, Two, BitLen, RoundTo, Normal, Overflowed, SameValue, Stuck;
      var v1, v2 := Stuck(t, low > 0), t * Two(w) + low;
      var r1, r2 := RoundTo(mode, sign, v1, prec), RoundTo(mode, sign, v2, prec);
      StickyRounds(mode, sign, t, low, w, prec);
      assert r2 == r1 * Two(w);
      BitLenScale(r1, w);
      if SameValue(Mag(), expn - 64 * len, r1, e) {
        SameScaledUp(Mag(), expn - 64 * len, r1, e, w);
      }
    }

    lemma {:induction false} LimbPower(shift: nat)
      requires shift < 64
      ensures Two(shift) < B
    {
      hide Two;
      TwoLimb(shift);
      UnitEven(64 - shift);
      MulMono(2, Two(64 - shift), Two(shift));
      MulSwap(Two(shift), Two(64 - shift));
    }
  }

  /** The top bit of a stretch, as a bound on its value. */
  lemma {:induction false} TopBit(t: seq<Limb>, lo: nat, hi: nat)
    requires lo < hi <= |t|
    ensures t[hi - 1] >= B / 2 <==> 2 * Val(t[lo..hi]) >= Pow(hi - lo)
  {
    hide Val, Pow;
    var n := hi - lo;
    ValSnoc(t, lo, hi - 1);
    ValBound(t[lo..hi - 1]);
    PowStep(n);
    var top, p := t[hi - 1] as int, Pow(n - 1);
    if top >= B / 2 { MulMono(B / 2, top, p); } else { MulMono(top + 1, B / 2, p); Distribute(top, p); }
  }

  lemma {:induction false} TopHalf(t: seq<Limb>, pos: nat, l: nat, y: int)
    requires pos < l <= |t| && 0 <= y && 2 * Val(t[pos..l]) + 1 >= y + Pow(l - pos)
    ensures t[l - 1] >= B / 2
  {
    hide Val, Pow;
    PowEven(l - pos);
    TopBit(t, pos, l);
  }

  lemma {:induction false} PowEven(n: nat)
    requires n > 0
    ensures Pow(n) % 2 == 0
  {
    var h := B / 2 * Pow(n - 1);
    assert Pow(n) == 2 * h by { PowStep(n); MulAssoc(2, B / 2, Pow(n - 1)); }
  }

  lemma {:induction false} TopKept(s: seq<Limb>, t: seq<Limb>, pos: nat, l: nat)
    requires pos < l <= |s| == |t| && Val(t[pos..l]) >= Val(s[pos..l])
    ensures s[l - 1] >= B / 2 ==> t[l - 1] >= B / 2
  {
    hide Val, Pow;
    TopBit(s, pos, l);
    TopBit(t, pos, l);
  }

  /** y with its low bits cleared. */
  function CutLow(y: int, shift: nat): int {
    y - y % Two(shift)
  }

  lemma {:induction false} LowBelow(x: Limb, u: int)
    requires u >= 1
    ensures 0 <= x - x % u <= x
  {
  }

  /** Masking the lowest limb of a stretch masks its value. */
  lemma {:induction false} Masked(s: seq<Limb>, t: seq<Limb>, pos: nat, l: nat, shift: nat)
    requires pos < l <= |s| && shift < 64 && s[l - 1] >= B / 2
    requires t == if shift == 0 then s else s[pos := s[pos] - s[pos] % Two(shift)]
    ensures Val(t[pos..l]) == CutLow(Val(s[pos..l]), shift)
    ensures t[l - 1] >= B / 2
  {
    hide Val, Two;
    LowBits(s[pos..l], shift);
    ValCons(s, pos, l);
    ValCons(t, pos, l);
    assert t[pos + 1..l] == s[pos + 1..l];
    if shift == 0 {
      ScaleOne(0);
      assert s[pos] % 1 == 0;
    } else {
      MaskKeepsTop(s[pos], shift);
    }
  }

  lemma {:induction false} MaskKeepsTop(v: Limb, shift: nat)
    requires shift < 64
    ensures v >= B / 2 ==> v - v % Two(shift) >= B / 2
  {
    hide Two;
    var q, u := Two(shift), Two(63 - shift);
    TwoAdd(shift, 63 - shift);
    TwoDouble(64);
    TwoSixtyFour();
    DivMod(v, q);
    if v >= B / 2 {
      if v / q < u { MulMono(v / q + 1, u, q); Distribute(v / q, q); MulSwap(u, q); }
      MulMono(u, v / q, q);
      MulSwap(u, q);
      MulSwap(v / q, q);
    }
  }

  lemma {:induction false} DropZero(s: seq<Limb>, pos: nat, i: nat, l: nat)
    requires pos <= i < l <= |s| && s[i] == 0 && s[l - 1] >= B / 2
    requires Val(s[pos..l]) == Val(s[i..l]) * Pow(i - pos)
    ensures i + 1 < l && Val(s[pos..l]) == Val(s[i + 1..l]) * Pow(i + 1 - pos)
  {
    hide Val, Pow;
    ValCons(s, i, l);
    PowStep(i + 1 - pos);
    MulAssoc3(Val(s[i + 1..l]), Pow(i - pos), B);
    MulSwap(B, Val(s[i + 1..l]));
    MulSwap(Pow(i - pos), B);
  }

  // ---------- the rounded value ----------

  lemma {:induction false} TopBitLen(t: seq<Limb>)
    requires |t| > 0 && t[|t| - 1] >= B / 2
    ensures BitLen(Val(t)) == 64 * |t|
  {
    hide Val, Pow, Two, BitLen;
    var l := |t|;
    assert t[0..l] == t;
    TopBit(t, 0, l);
    ValBound(t);
    TwoPow(l);
    TwoDouble(64 * l);
    BitLenIs(Val(t), 64 * l);
  }

  /** The kept part of a number, rounded down, up, or up with a carry. */
  lemma {:induction false} KeptValue(t: seq<Limb>, prec: nat, mode: Mode, neg: bool, y: int)
    requires |t| > 0 && t[|t| - 1] >= B / 2 && 1 <= prec < 64 * |t|
    ensures var v, k := Val(t), 64 * |t| - prec;
            var pos, s, u := k / 64, k % 64, Two(k % 64);
            var x, n, r := Val(t[pos..]), |t| - pos, RoundTo(mode, neg, v, prec);
            var up := Up(mode, neg, v / Two(k), v % Two(k), Two(k));
            && pos < |t|
            && (!up && y == x ==> r == (y - y % u) * Pow(pos))
            && (up && x + u < Pow(n) && y == x + u ==> r == (y - y % u) * Pow(pos))
            && (up && x + u >= Pow(n) && 0 <= x + u - 2 * y <= 1 ==> r == 2 * (y - y % u) * Pow(pos) && r == Pow(|t|))
  {
    hide Val, Pow, Two, BitLen, Up;
    var v, k := Val(t), 64 * |t| - prec;
    var pos, s := k / 64, k % 64;
    var x, n, u, p := Val(t[pos..]), |t| - pos, Two(s), Pow(pos);
    TopBitLen(t);
    CutAt(t, pos, s);
    TwoParts(pos, s);
    var q := x / u;
    DivMod(x, u);
    MulSwap(q, u);
    MulAssoc3(q, p, u);
    MulAssoc3(q + 1, p, u);
    Distribute(q, u);
    if y == x { }
    if y == x + u { UniqueDivision(y, u, q + 1, x % u) by { MulSwap(q + 1, u); } }
    ValBound(t[pos..]);
    PowAdd(pos, n);
    if x + u >= Pow(n) && 0 <= x + u - 2 * y <= 1 {
      CarryValue(x, y, s, n);
      MulSwap(Pow(pos), Pow(n));
    }
  }

  /** A carry out of n limbs: everything kept was ones. */
  lemma {:induction false} CarryValue(x: int, y: int, s: nat, n: nat)
    requires s < 64 && n >= 1 && 0 <= x < Pow(n) && x + Two(s) >= Pow(n) && 0 <= x + Two(s) - 2 * y <= 1
    ensures 2 * (y - y % Two(s)) == Pow(n) && (x / Two(s) + 1) * Two(s) == Pow(n)
  {
    hide Two, Pow;
    var u, w := Two(s), Two(64 - s) * Pow(n - 1);
    PowStep(n);
    TwoLimb(s);
    MulAssoc(u, Two(64 - s), Pow(n - 1));
    UnitEven(64 - s);
    var h := Two(64 - s) / 2 * Pow(n - 1);
    MulAssoc(2, Two(64 - s) / 2, Pow(n - 1));
    assert w == 2 * h && u * w == Pow(n);
    MulAssoc3(u, h, 2);
    assert Pow(n) == 2 * (u * h);
    UniqueDivision(x, u, w - 1, x + u - u * w) by { MulLess(u, w); }
    MulSwap(u, w);
    UniqueDivision(y, u, h, y - u * h);
  }

  lemma {:induction false} MulLess(u: int, w: int)
    ensures u * (w - 1) == u * w - u
  {
  }

  lemma {:induction false} AllOnes(t: seq<Limb>, low: nat)
    requires |t| >= 1 && low < 64 && t[0] as int == B - Two(low) && forall k :: 1 <= k < |t| ==> t[k] == B - 1
    ensures Val(t) == Pow(|t|) - Two(low)
  {
    hide Val, Pow, Two;
    assert t[0..] == t && t[0..|t|] == t;
    ValCons(t, 0, |t|);
    OnesValue(t[1..|t|]);
    PowStep(|t|);
    MulLess(B, Pow(|t| - 1));
  }

  lemma {:induction false} OnesValue(t: seq<Limb>)
    requires forall k :: 0 <= k < |t| ==> t[k] == B - 1
    ensures Val(t) == Pow(|t|) - 1
    decreases |t|
  {
    if |t| > 0 { OnesValue(t[1..]); }
  }

  /** Rounding changes a number exactly when its remainder is not zero. */
  lemma {:induction false} RoundChanges(t: seq<Limb>, prec: nat, mode: Mode, neg: bool)
    requires |t| > 0 && t[|t| - 1] >= B / 2 && prec >= 1
    ensures var v, k := Val(t), 64 * |t| - prec;
            if k <= 0 then RoundTo(mode, neg, v, prec) == v
            else (RoundTo(mode, neg, v, prec) != v <==> v % Two(k) != 0)
  {
    hide Val, Two, BitLen, Up, RoundTo;
    TopBitLen(t);
    RoundMeans(mode, neg, Val(t), prec);
    RoundFits(mode, neg, Val(t), prec);
    var u := Unit(Val(t), prec);
    DivMod(Val(t), u);
    MulSwap(u, Val(t) / u);
  }

  lemma {:induction false} RoundFits(mode: Mode, neg: bool, m: nat, prec: nat)
    ensures BitLen(m) <= prec ==> RoundTo(mode, neg, m, prec) == m
  {
  }

  /** What is kept, with the exponent adjusted, is the rounded value. */
  lemma {:induction false} KeptParts(t: seq<Limb>, prec: nat, mode: Mode, neg: bool, y: int, carry: int, addOne: bool)
    requires |t| > 0 && t[|t| - 1] >= B / 2 && prec >= 1
    requires var v, k0 := Val(t), 64 * |t| - prec;
             addOne == (k0 > 0 && Up(mode, neg, v / Two(k0), v % Two(k0), Two(k0)))
    requires var k := if 64 * |t| >= prec then 64 * |t| - prec else 0;
             var x, u, n := Val(t[k / 64..]), Two(k % 64), |t| - k / 64;
             && k / 64 < |t|
             && (!addOne ==> y == x && carry == 0)
             && (addOne && x + u < Pow(n) ==> y == x + u && carry == 0)
             && (addOne && x + u >= Pow(n) ==> 0 <= x + u - 2 * y <= 1 && carry == 1)
    ensures var k := if 64 * |t| >= prec then 64 * |t| - prec else 0;
            var r := RoundTo(mode, neg, Val(t), prec);
            && 0 <= carry <= 1
            && r == (if carry == 1 then 2 else 1) * CutLow(y, k % 64) * Pow(k / 64)
            && BitLen(r) == 64 * |t| + carry
  {
    hide Val, Two, BitLen, Up, Pow, RoundTo;
    if prec >= 64 * |t| {
      TopBitLen(t);
      RoundFits(mode, neg, Val(t), prec);
      assert t[0..] == t;
      ScaleOne(0);
      assert y % 1 == 0 && Pow(0) == 1 by { Empty(t, 0); }
    } else {
      KeptCut(t, prec, mode, neg, y, carry, addOne, 64 * |t| - prec, Val(t[(64 * |t| - prec) / 64..]));
    }
  }

  lemma {:induction false} KeptCut(t: seq<Limb>, prec: nat, mode: Mode, neg: bool, y: int, carry: int, addOne: bool,
                                   k: nat, x: int)
    requires |t| > 0 && t[|t| - 1] >= B / 2 && prec >= 1 && k == 64 * |t| - prec && k > 0 && x == Val(t[k / 64..])
    requires addOne == Up(mode, neg, Val(t) / Two(k), Val(t) % Two(k), Two(k))
    requires var u, n := Two(k % 64), |t| - k / 64;
             && (!addOne ==> y == x && carry == 0)
             && (addOne && x + u < Pow(n) ==> y == x + u && carry == 0)
             && (addOne && x + u >= Pow(n) ==> 0 <= x + u - 2 * y <= 1 && carry == 1)
    ensures var r := RoundTo(mode, neg, Val(t), prec);
            && 0 <= carry <= 1
            && r == (if carry == 1 then 2 else 1) * CutLow(y, k % 64) * Pow(k / 64)
            && BitLen(r) == 64 * |t| + carry
  {
    hide Val, Two, BitLen, Up, Pow, RoundTo;
    var l, r := |t|, RoundTo(mode, neg, Val(t), prec);
    KeptValue(t, prec, mode, neg, y);
    RoundedLength(t, prec, mode, neg, r);
    ValBound(t[k / 64..]);
    if carry == 0 {
      KeptBelow(t, k / 64, y, Two(k % 64), r);
    } else {
      TwoPow(l);
      TwoDouble(64 * l + 1);
      BitLenIs(r, 64 * l + 1);
    }
  }

  /** Rounding never goes below the power of two a number starts at. */
  lemma {:induction false} RoundedLength(t: seq<Limb>, prec: nat, mode: Mode, neg: bool, r: int)
    requires |t| > 0 && t[|t| - 1] >= B / 2 && prec >= 1 && r == RoundTo(mode, neg, Val(t), prec)
    ensures r >= Two(64 * |t| - 1)
  {
    hide Val, Two, BitLen, Up, Pow, RoundTo;
    var v, l := Val(t), |t|;
    TopBitLen(t);
    BitLenRange(v);
    RoundMeans(mode, neg, v, prec);
    PowerRepresentable(64 * l - 1, prec);
    NoneBetween(v, prec, Two(64 * l - 1));
  }

  lemma {:induction false} PowerRepresentable(n: nat, prec: nat)
    requires prec >= 1
    ensures Representable(Two(n), prec)
  {
    hide Two;
    TwoMono(1, prec);
    TwoOne();
    assert Two(n) == Scaled(1, n);
  }

  lemma {:induction false} KeptBelow(t: seq<Limb>, pos: nat, y: int, u: int, r: int)
    requires pos < |t| && u >= 1 && 0 <= y < Pow(|t| - pos) && r == (y - y % u) * Pow(pos) && r >= Two(64 * |t| - 1)
    ensures BitLen(r) == 64 * |t|
  {
    hide Two, BitLen, Pow;
    var l := |t|;
    DivMod(y, u);
    MulStrict(y - y % u, Pow(l - pos), Pow(pos));
    PowAdd(l - pos, pos);
    TwoPow(l);
    BitLenIs(r, 64 * l);
  }

  lemma {:induction false} KeptSame(m: int, i: nat, pos: nat, y: int, carry: int, r: int, e1: int, e2: int)
    requires m * Pow(i) == y && r == (if carry == 1 then 2 else 1) * y * Pow(pos) && 0 <= carry <= 1
    requires e1 - e2 == 64 * (i + pos) + carry
    ensures SameValue(m, e1, r, e2)
  {
    hide Two, Pow;
    PowAdd(i, pos);
    TwoPow(i + pos);
    MulAssoc(m, Pow(i), Pow(pos));
    if carry == 1 {
      TwoDouble(64 * (i + pos) + 1);
      DoubleProduct(m, Pow(i + pos), y * Pow(pos), y, Pow(pos));
    }
  }

  lemma {:induction false} DoubleProduct(m: int, p: int, z: int, y: int, q: int)
    requires m * p == z && z == y * q
    ensures m * (2 * p) == 2 * y * q
  {
    assert m * (2 * p) == 2 * (m * p);
  }

  lemma {:induction false} Cancel(x: int, y: int, p: int)
    requires x * p == y * p && p > 0
    ensures x == y
  {
    if x < y { MulStrict(x, y, p); }
    if y < x { MulStrict(y, x, p); }
  }

  lemma {:induction false} RoundPositive(mode: Mode, neg: bool, v: nat, prec: nat)
    requires v > 0 && prec >= 1
    ensures RoundTo(mode, neg, v, prec) > 0
  {
    hide Two, BitLen, RoundTo;
    RoundMeans(mode, neg, v, prec);
    BitLenRange(v);
    PowerRepresentable(BitLen(v) - 1, prec);
    NoneBetween(v, prec, Two(BitLen(v) - 1));
  }

  lemma {:induction false} SameScaled(m: int, e1: int, r: int, e: int, s: nat)
    requires SameValue(m, e1, r * Two(s), e - s)
    ensures SameValue(m, e1, r, e)
  {
    hide Two;
    if e1 >= e {
      TwoAdd(e1 - e, s);
      MulAssoc(m, Two(e1 - e), Two(s));
      Cancel(m * Two(e1 - e), r, Two(s));
    } else if e1 >= e - s {
      var d := e1 - (e - s);
      TwoAdd(e - e1, d);
      MulAssoc(r, Two(e - e1), Two(d));
      Cancel(m, r * Two(e - e1), Two(d));
    } else {
      TwoAdd(s, e - s - e1);
      MulAssoc(r, Two(s), Two(e - s - e1));
    }
  }

  /** (a << s) | (v >> (64 - s)) */
  function ShiftLeft(a: Limb, v: Limb, s: nat): (r: Limb)
    requires 1 <= s < 64
    ensures r + B * (a / Two(64 - s)) == a * Two(s) + v / Two(64 - s)
  {
    hide Two;
    TwoLimb(s);
    ShiftLeftBound(a, v, Two(s), Two(64 - s));
    a % Two(64 - s) * Two(s) + v / Two(64 - s)
  }

  lemma {:induction false} ShiftLeftBound(a: Limb, v: Limb, p: int, q: int)
    requires p >= 1 && q >= 1 && p * q == B
    ensures 0 <= a % q * p + v / q < B
    ensures a % q * p + B * (a / q) == a * p
  {
    DivMod(a, q);
    DivLess(v, q, p) by { MulSwap(p, q); }
    MulMono(a % q + 1, q, p);
    Distribute(a % q, p);
    MulSwap(p, q);
    MulMono(0, a % q, p);
    LeftSum(a, p, q, a / q, a % q);
  }

  lemma {:induction false} LeftSum(a: int, p: int, q: int, d: int, m: int)
    requires a == q * d + m && p * q == B
    ensures m * p + B * d == a * p
  {
    MulAssoc(p, q, d);
  }

  lemma {:induction false} ShiftStep(s0: seq<Limb>, s1: seq<Limb>, s2: seq<Limb>, i: nat, a: Limb, v: Limb, s: nat)
    requires i < |s0| == |s1| == |s2| && 1 <= s < 64 && a == s0[i] && s2 == s1[i := ShiftLeft(a, v, s)]
    requires Val(s1[0..i]) + v / Two(64 - s) * Pow(i) == Val(s0[0..i]) * Two(s)
    ensures Val(s2[0..i + 1]) + a / Two(64 - s) * Pow(i + 1) == Val(s0[0..i + 1]) * Two(s)
  {
    hide Val, Two, Pow;
    assert s2[0..i] == s1[0..i];
    ValSnoc(s2, 0, i);
    ValSnoc(s0, 0, i);
    PowStep(i + 1);
    ShiftScaled(s2[i], a / Two(64 - s), a, v / Two(64 - s), Two(s), Pow(i), Val(s1[0..i]), Val(s0[0..i]));
  }

  lemma {:induction false} ShiftScaled(r: int, d: int, a: int, c: int, p: int, w: int, x: int, y: int)
    requires r + B * d == a * p + c && x + c * w == y * p
    ensures x + r * w + d * (B * w) == (y + a * w) * p
  {
    assert (r + B * d) * w == (a * p + c) * w;
    ShiftScaled2(r, d, a, c, p, w);
    MulAssoc3(a, w, p);
  }

  lemma {:induction false} ShiftScaled2(r: int, d: int, a: int, c: int, p: int, w: int)
    ensures (r + B * d) * w == r * w + d * (B * w)
    ensures (a * p + c) * w == (a * p) * w + c * w
    ensures (a * p) * w == (a * w) * p
  {
  }

  lemma {:induction false} TopGone(v: int, q: int, w: int)
    requires 0 <= v < q
    ensures v / q * w == 0
  {
    UniqueDivision(v, q, 0, v);
  }

  lemma {:induction false} TopPositive(t: seq<Limb>)
    requires |t| > 0 && t[|t| - 1] != 0
    ensures Val(t) > 0
  {
    ValZero(t);
  }

  lemma {:induction false} ClzMeans(v: Limb)
    requires v > 0
    ensures var s := Clz(v); s < 64 && v < Two(64 - s) && v as int * Two(s) >= B / 2
  {
    hide Two;
    var s := Clz(v);
    TwoLimb(s);
    TwoDouble(64 - s);
    MulMono(Two(63 - s), v, Two(s));
    MulAssoc3(2, Two(63 - s), Two(s));
    MulSwap(Two(s), Two(64 - s));
    HalfProduct(Two(63 - s), Two(s));
  }

  lemma {:induction false} HalfProduct(x: int, y: int)
    requires (2 * x) * y == B
    ensures x * y == B / 2
  {
    MulAssoc(2, x, y);
  }

  /** After the shift the top bit of the top limb is set. */
  lemma {:induction false} TopSet(t: seq<Limb>, s0: seq<Limb>, s: nat)
    requires |t| == |s0| > 0 && s < 64 && Val(t) == Val(s0) * Two(s)
    requires s0[|s0| - 1] as int * Two(s) >= B / 2
    ensures t[|t| - 1] >= B / 2
  {
    hide Val, Two, Pow;
    var l := |t|;
    assert t[0..l] == t && s0[0..l] == s0;
    TopBit(t, 0, l);
    ValSnoc(s0, 0, l - 1);
    var top, w, p := s0[l - 1] as int, Pow(l - 1), Two(s);
    PowStep(l);
    MulMono(top * w, Val(s0), p);
    MulAssoc3(top, p, w);
    MulMono(B / 2, top * p, w);
    MulAssoc(2, B / 2, w);
  }

  lemma {:induction false} NoLimbs(t: seq<Limb>)
    requires t == []
    ensures Val(t) == 0
  {
  }

  /** The rounded value scales, and is exact in the one case just when it is in the other. */
  lemma {:induction false} StickyRounds(mode: Mode, neg: bool, t: nat, low: nat, w: nat, prec: nat)
    requires prec >= 1 && t > 0 && low < Two(w) && (low == 0 || BitLen(t) >= prec + 2)
    requires t * Two(w) + low >= 0
    ensures var v1, v2 := Stuck(t, low > 0), t * Two(w) + low;
            var r1, r2 := RoundTo(mode, neg, v1, prec), RoundTo(mode, neg, v2, prec);
            r1 > 0 && r2 == r1 * Two(w) && (r1 != v1 <==> r2 != v2)
  {
    hide Two, BitLen, RoundTo;
    var v1 := Stuck(t, low > 0);
    var r1 := RoundTo(mode, neg, v1, prec);
    RoundPositive(mode, neg, v1, prec);
    if low == 0 {
      RoundScale(mode, neg, t, w, prec);
      if r1 * Two(w) == t * Two(w) { Cancel(r1, t, Two(w)); }
    } else {
      Sticky(mode, neg, t, low, w, prec);
      LongNotExact(mode, neg, t, prec);
      NotMultiple(r1, t, low, Two(w));
    }
  }

  lemma {:induction false} NotMultiple(r: int, t: int, low: int, p: int)
    requires 0 < low < p
    ensures r * p != t * p + low
  {
    if r > t { MulMono(t + 1, r, p); Distribute(t, p); } else { MulMono(r, t, p); }
  }

  /** With the sticky bit set and two bits too many, rounding is never exact. */
  lemma {:induction false} LongNotExact(mode: Mode, neg: bool, t: nat, prec: nat)
    requires prec >= 1 && BitLen(t) >= prec + 2
    ensures RoundTo(mode, neg, Stuck(t, true), prec) != Stuck(t, true)
  {
    hide BitLen, RoundTo;
    StuckLong(t, prec);
    RoundsToEven(mode, neg, Stuck(t, true), prec);
  }

  lemma {:induction false} StuckLong(t: nat, prec: nat)
    requires prec >= 1 && BitLen(t) >= prec + 2
    ensures BitLen(Stuck(t, true)) >= prec + 2
  {
    hide Two, BitLen;
    BitLenRange(t);
    TwoMono(2, BitLen(t) - 1);
    Four();
    StickyBitLen(t, true);
  }

  /** A number that does not fit is rounded to an even one. */
  lemma {:induction false} RoundsToEven(mode: Mode, neg: bool, v: nat, prec: nat)
    requires BitLen(v) > prec
    ensures RoundTo(mode, neg, v, prec) % 2 == 0
  {
    hide Two, BitLen, Up;
    var unit := Two(BitLen(v) - prec);
    UnitEven(BitLen(v) - prec);
    EvenMultiple(v / unit + (if Up(mode, neg, v / unit, v % unit, unit) then 1 else 0), unit);
  }

  lemma {:induction false} EvenMultiple(q: int, u: int)
    requires u % 2 == 0
    ensures q * u % 2 == 0
  {
    var h := u / 2;
    assert q * u == 2 * (q * h) by { MulAssoc3(q, h, 2); }
  }

  lemma {:induction false} SameScaledUp(m: int, e1: int, r: int, e: int, s: nat)
    requires SameValue(m, e1, r, e)
    ensures SameValue(m, e1, r * Two(s), e - s)
  {
    hide Two;
    if e1 >= e {
      TwoAdd(e1 - e, s);
      MulAssoc(m, Two(e1 - e), Two(s));
    } else if e1 >= e - s {
      var d := e1 - (e - s);
      TwoAdd(e - e1, d);
      MulAssoc(r, Two(e - e1), Two(d));
    } else {
      TwoAdd(s, e - s - e1);
      MulAssoc(r, Two(s), Two(e - s - e1));
    }
  }
}
