/** bf_add_internal: adds or subtracts magnitudes limb by limb, keeping only the precision, the
    cancelled bits and two more, and one sticky bit for everything below. */
module BfAdd {
  import opened Limbs
  import opened Rounding
  import opened BfBits
  import opened BfRound
  import opened BfOperands
  import opened BfCompare

  /** b's row, complemented for a subtraction. */
  function Masked(y: seq<Limb>, isSub: bool): (s: seq<Limb>)
    ensures |s| == |y|
  {
    if isSub then seq<Limb>(|y|, j requires 0 <= j < |y| => B - 1 - y[j]) else y
  }

  function One(isSub: bool): int {
    if isSub then 1 else 0
  }

  /** What the limbs below n have produced, apart from the carry out of them. */
  ghost function Sum(x: seq<Limb>, y: seq<Limb>, isSub: bool, n: nat, carry: int): int
    requires n <= |x| == |y|
  {
    Val(x[0..n]) + Val(Masked(y, isSub)[0..n]) + One(isSub) - carry * Pow(n)
  }

  lemma {:induction false} SumStep(x: seq<Limb>, y: seq<Limb>, isSub: bool, n: nat, carry: int, u: int, carry': int)
    requires n < |x| == |y|
    requires u + carry' * B == x[n] + Masked(y, isSub)[n] + carry
    ensures Sum(x, y, isSub, n + 1, carry') == Sum(x, y, isSub, n, carry) + u * Pow(n)
  {
    hide Val, Pow, Masked;
    ValSnoc(x, 0, n);
    ValSnoc(Masked(y, isSub), 0, n);
    PowStep(n + 1);
    SumScaled(u, carry', x[n], Masked(y, isSub)[n], carry, Pow(n));
  }

  lemma {:induction false} SumScaled(u: int, k': int, a: int, b: int, k: int, p: int)
    requires u + k' * B == a + b + k
    ensures k' * (B * p) == a * p + b * p + k * p - u * p
  {
    assert (u + k' * B) * p == (a + b + k) * p;
  }

  lemma {:induction false} SumStart(x: seq<Limb>, y: seq<Limb>, isSub: bool)
    requires |x| == |y|
    ensures Sum(x, y, isSub, 0, One(isSub)) == 0 && Pow(0) == 1
  {
    assert x[0..0] == [] && Masked(y, isSub)[0..0] == [];
  }

  /** A stretch of limbs outside both operands, the first of which has been processed. */
  lemma {:induction false} SumSkip(x: seq<Limb>, y: seq<Limb>, isSub: bool, n: nat, m: nat, carry: int)
    requires n < m <= |x| == |y| && 0 <= carry <= 1 && (!isSub ==> carry == 0)
    requires forall j :: n <= j < m ==> x[j] == 0 && y[j] == 0
    ensures Sum(x, y, isSub, m, carry) - Sum(x, y, isSub, n, carry) == if isSub && carry == 0 then Pow(m) - Pow(n) else 0
  {
    hide Val, Pow;
    var z := Masked(y, isSub);
    ValSplit(x, 0, n, m);
    ValSplit(z, 0, n, m);
    ZerosValue(x[n..m]);
    PowAdd(n, m - n);
    if isSub {
      OnesValue(z[n..m]);
      LeadProduct(Pow(m - n), 1, Pow(n));
    } else {
      ZerosValue(z[n..m]);
    }
  }

  /** The bits for rounding: everything below the kept limbs. */
  ghost predicate LowKnown(x: seq<Limb>, y: seq<Limb>, isSub: bool, n: nat, carry: int, z: bool)
    requires n <= |x| == |y|
  {
    0 <= carry <= 1 && 0 <= Sum(x, y, isSub, n, carry) < Pow(n) && (z <==> Sum(x, y, isSub, n, carry) != 0)
  }

  lemma {:induction false} LowStep(x: seq<Limb>, y: seq<Limb>, isSub: bool, n: nat, carry: int, z: bool, u: Limb, carry': int)
    requires n < |x| == |y| && LowKnown(x, y, isSub, n, carry, z) && 0 <= carry' <= 1
    requires u + carry' * B == x[n] + Masked(y, isSub)[n] + carry
    ensures LowKnown(x, y, isSub, n + 1, carry', z || u != 0)
  {
    hide Val, Pow, Masked, Sum;
    SumStep(x, y, isSub, n, carry, u, carry');
    PowStep(n + 1);
    MulMono(u as int + 1, B, Pow(n));
    Distribute(u, Pow(n));
    if u != 0 { MulMono(1, u, Pow(n)); }
  }

  /** Jumping over limbs outside both operands after processing the first of them. */
  lemma {:induction false} LowSkip(x: seq<Limb>, y: seq<Limb>, isSub: bool, n: nat, m: nat, carry: int, z: bool, u: Limb, carry': int)
    requires n < m <= |x| == |y| && LowKnown(x, y, isSub, n, carry, z) && 0 <= carry' <= 1
    requires m > n + 1 ==> forall j :: n <= j < m ==> x[j] == 0 && y[j] == 0
    requires u + carry' * B == x[n] + Masked(y, isSub)[n] + carry
    ensures LowKnown(x, y, isSub, m, carry', z || u != 0)
  {
    hide Val, Pow, Sum;
    LowStep(x, y, isSub, n, carry, z, u, carry');
    if n + 1 < m { SumSkip(x, y, isSub, n + 1, m, carry'); }
    PowMono(n + 1, m);
  }

  /** The skipping loop over the limbs that are not kept. */
  method LowPart(a: seq<Limb>, b: seq<Limb>, isSub: bool, aOffset: int, bBitOffset: int, i0: int, ghost f: Frame)
    returns (carry: Limb, z: bool)
    requires f.a == a && f.b == b && Fits(f) && i0 <= 0 && -i0 <= f.n
    requires aOffset == |a| - f.n - i0 && bBitOffset == -64 * i0 - ShiftOf(f) && aOffset < |a|
    ensures carry <= 1 && LowKnown(LimbsA(f), LimbsB(f), isSub, 0 - i0, carry, z)
  {
    hide Val, Pow, Masked, LimbsA, LimbsB, GetBits, GetLimbz, LowKnown, Fits;
    var i := i0;
    carry, z := if isSub then 1 else 0, false;
    LowStart(f, isSub);
    while i < 0
      invariant i0 <= i <= 0 && carry <= 1 && LowKnown(LimbsA(f), LimbsB(f), isSub, i - i0, carry, z)
      decreases -i
    {
      ghost var j := i - i0;
      var ap, bp := aOffset + i, bBitOffset + i * 64;
      var v1: Limb, v2: Limb, inflag := 0, 0, false;
      if 0 <= ap < |a| {
        v1 := a[ap];
        inflag := true;
      }
      if bp + 64 > 0 && bp < 64 * |b| {
        v2 := GetBits(b, bp);
        inflag := true;
      }
      Fetched(f, j, ap, bp);
      var next := i + 1;
      if !inflag {
        // nothing of either operand here: go to the next limb of one of them
        next := 0;
        if ap < 0 && -aOffset < next { next := -aOffset; }
        if bp + 64 <= 0 && (0 - bBitOffset) / 64 < next { next := (0 - bBitOffset) / 64; }
        Outsiders(f, i0, i, next, aOffset, bBitOffset);
      }
      if isSub { v2 := B - 1 - v2; }
      MaskedAt(LimbsB(f), isSub, j);
      var u, carry' := AddLimb(v1, v2, carry);
      LowSkip(LimbsA(f), LimbsB(f), isSub, j, next - i0, carry, z, u, carry');
      z := z || u != 0;
      carry := carry';
      i := next;
    }
  }

  lemma {:induction false} LowStart(f: Frame, isSub: bool)
    ensures LowKnown(LimbsA(f), LimbsB(f), isSub, 0, if isSub then 1 else 0, false)
  {
    hide LimbsA, LimbsB;
    SumStart(LimbsA(f), LimbsB(f), isSub);
  }

  lemma {:induction false} MaskedAt(y: seq<Limb>, isSub: bool, j: nat)
    requires j < |y|
    ensures Masked(y, isSub)[j] == if isSub then B - 1 - y[j] else y[j]
  {
  }

  /** The two limbs fetched for place j, zero outside the operands. */
  lemma {:induction false} Fetched(f: Frame, j: nat, ap: int, bp: int)
    requires Fits(f) && j < f.n && ap == |f.a| - f.n + j && bp == 64 * j - ShiftOf(f)
    ensures LimbsA(f)[j] == if 0 <= ap < |f.a| then f.a[ap] else 0
    ensures LimbsB(f)[j] == if bp + 64 > 0 && bp < 64 * |f.b| then GetBits(f.b, bp) else 0
  {
    hide GetBits;
    DigitAt(f.a, |f.a| - f.n, f.n, j);
    FetchB(f, j);
    if !(bp + 64 > 0 && bp < 64 * |f.b|) { BitsOutside(f.b, bp); }
  }

  /** The jump lands where an operand starts again, and skips only zeros. */
  lemma {:induction false} Outsiders(f: Frame, i0: int, i: int, next: int, aOffset: int, bBitOffset: int)
    requires Fits(f) && i0 <= i < 0 && -i0 <= f.n && aOffset < |f.a|
    requires aOffset == |f.a| - f.n - i0 && bBitOffset == -64 * i0 - ShiftOf(f)
    requires var ap, bp := aOffset + i, bBitOffset + i * 64;
             !(0 <= ap < |f.a|) && !(bp + 64 > 0 && bp < 64 * |f.b|)
    requires var first := if -aOffset < 0 then -aOffset else 0;
             next == if bBitOffset + i * 64 + 64 <= 0 && (0 - bBitOffset) / 64 < first then (0 - bBitOffset) / 64 else first
    ensures i < next <= 0
    ensures forall j :: i - i0 <= j < next - i0 ==> LimbsA(f)[j] == 0 && LimbsB(f)[j] == 0
  {
    hide GetBits, LimbsA, LimbsB;
    forall j | i - i0 <= j < next - i0 ensures LimbsA(f)[j] == 0 && LimbsB(f)[j] == 0 {
      Fetched(f, j, aOffset + (j + i0), bBitOffset + (j + i0) * 64);
    }
  }

  // ---------- the kept limbs ----------

  /** The result of the addition loop over n limbs from place k on. */
  method HighPart(tab: array<Limb>, a: seq<Limb>, b: seq<Limb>, isSub: bool, rLen: nat, aOffset: int, bBitOffset: int,
                  carry0: Limb, ghost f: Frame)
    returns (carry: Limb)
    requires f.a == a && f.b == b && Fits(f) && 1 <= rLen <= f.n && rLen <= tab.Length && carry0 <= 1
    requires aOffset == |a| - rLen && bBitOffset == 64 * (|b| - rLen) + f.d
    modifies tab
    ensures carry <= 1
    ensures Sum(LimbsA(f), LimbsB(f), isSub, f.n, carry)
         == Sum(LimbsA(f), LimbsB(f), isSub, f.n - rLen, carry0) + Val(tab[0..rLen]) * Pow(f.n - rLen)
  {
    hide Val, Pow, Masked, LimbsA, LimbsB, GetBits, GetLimbz, Sum, Fits;
    ghost var k, x, y := f.n - rLen, LimbsA(f), LimbsB(f);
    carry := carry0;
    var i := 0;
    Empty(tab[..], 0);
    while i < rLen
      invariant 0 <= i <= rLen && carry <= 1
      invariant Sum(x, y, isSub, k + i, carry) == Sum(x, y, isSub, k, carry0) + Val(tab[0..i]) * Pow(k)
    {
      var v1 := GetLimbz(a, aOffset + i);
      var v2 := GetBits(b, bBitOffset + i * 64);
      FetchedHigh(f, k + i, aOffset + i, bBitOffset + i * 64);
      if isSub { v2 := B - 1 - v2; }
      MaskedAt(y, isSub, k + i);
      var u, carry' := AddLimb(v1, v2, carry);
      SumStep(x, y, isSub, k + i, carry, u, carry');
      ghost var t0 := tab[0..i];
      tab[i] := u;
      assert tab[0..i] == t0;
      TabStep(tab[..], i, k);
      carry := carry';
      i := i + 1;
    }
  }

  lemma {:induction false} FetchedHigh(f: Frame, j: nat, ap: int, bp: int)
    requires Fits(f) && j < f.n && ap == |f.a| - f.n + j && bp == 64 * j - ShiftOf(f)
    ensures LimbsA(f)[j] == GetLimbz(f.a, ap) && LimbsB(f)[j] == GetBits(f.b, bp)
  {
    hide GetBits;
    DigitAt(f.a, |f.a| - f.n, f.n, j);
    FetchB(f, j);
  }

  lemma {:induction false} TabStep(t: seq<Limb>, i: nat, k: nat)
    requires i < |t|
    ensures Val(t[0..i + 1]) * Pow(k) == Val(t[0..i]) * Pow(k) + t[i] * Pow(k + i)
  {
    hide Val, Pow;
    ValSnoc(t, 0, i);
    PowAdd(i, k);
    MulAssoc(t[i], Pow(i), Pow(k));
    MulDistribute(Val(t[0..i]), t[i] * Pow(i), Pow(k));
  }

  lemma {:induction false} MulDistribute(x: int, y: int, p: int)
    ensures (x + y) * p == x * p + y * p
  {
  }

  // ---------- the exact sum ----------

  /** a + b or a - b in units of the lowest place of the frame. */
  ghost function Exact(f: Frame, isSub: bool): int {
    if isSub then Difference(f) else Val(LimbsA(f)) + Val(LimbsB(f))
  }

  /** All limbs together, with the carry out of the top. */
  lemma {:induction false} SumTotal(f: Frame, isSub: bool, carry: int)
    requires 0 <= carry <= 1 && 0 <= Sum(LimbsA(f), LimbsB(f), isSub, f.n, carry) < Pow(f.n)
    requires isSub ==> Difference(f) > 0
    ensures isSub ==> carry == 1
    ensures Exact(f, isSub) == Sum(LimbsA(f), LimbsB(f), isSub, f.n, carry) + (if isSub then 0 else carry * Pow(f.n))
  {
    hide Val, Pow, LimbsA, LimbsB;
    var x, y := LimbsA(f), LimbsB(f);
    assert x[0..f.n] == x && Masked(y, isSub)[0..f.n] == Masked(y, isSub);
    ValBound(x);
    if isSub {
      Complemented(y);
      ValBound(y);
    }
  }

  lemma {:induction false} Complemented(y: seq<Limb>)
    ensures Val(Masked(y, true)) == Pow(|y|) - 1 - Val(y)
    decreases |y|
  {
    if |y| > 0 {
      assert Masked(y, true)[1..] == Masked(y[1..], true);
      Complemented(y[1..]);
    }
  }

  /** The kept limbs and the carry are the exact sum, cut; z tells whether anything was cut off. */
  lemma {:induction false} Kept(f: Frame, isSub: bool, rLen: nat, carry0: int, z: bool, t: int, carry: int)
    requires 1 <= rLen <= f.n && 0 <= carry <= 1 && 0 <= t < Pow(rLen) && (isSub ==> Difference(f) > 0)
    requires LowKnown(LimbsA(f), LimbsB(f), isSub, f.n - rLen, carry0, z)
    requires Sum(LimbsA(f), LimbsB(f), isSub, f.n, carry)
          == Sum(LimbsA(f), LimbsB(f), isSub, f.n - rLen, carry0) + t * Pow(f.n - rLen)
    ensures var low := Sum(LimbsA(f), LimbsB(f), isSub, f.n - rLen, carry0);
            var k := f.n - rLen;
            && 0 <= low < Pow(k) && (z <==> low != 0)
            && Exact(f, isSub) == (if isSub then t else t + carry * Pow(rLen)) * Pow(k) + low
  {
    hide Val, Pow, LimbsA, LimbsB, Sum, Exact, Difference;
    var k, low := f.n - rLen, Sum(LimbsA(f), LimbsB(f), isSub, f.n - rLen, carry0);
    PowAdd(rLen, k);
    MulMono(t + 1, Pow(rLen), Pow(k));
    Distribute(t, Pow(k));
    MulMono(0, t, Pow(k));
    SumTotal(f, isSub, carry);
    MulAssoc(carry, Pow(rLen), Pow(k));
    MulDistribute(t, carry * Pow(rLen), Pow(k));
  }

  // ---------- enough bits are kept ----------

  /** The larger operand alone fills the frame from its top bit. */
  lemma {:induction false} TopOfA(f: Frame)
    requires Fits(f) && |f.a| > 0 && f.a[|f.a| - 1] >= B / 2
    ensures 2 * Val(LimbsA(f)) >= Pow(f.n)
  {
    hide Val, Pow, Digits;
    DigitAt(f.a, |f.a| - f.n, f.n, f.n - 1);
    assert LimbsA(f)[0..f.n] == LimbsA(f);
    TopBit(LimbsA(f), 0, f.n);
  }

  /** With exponents two or more apart at most one leading bit cancels. */
  lemma {:induction false} FarApart(f: Frame)
    requires Fits(f) && |f.a| > 0 && f.a[|f.a| - 1] >= B / 2 && f.d >= 2
    ensures Two(2) * Difference(f) >= Pow(f.n)
  {
    hide Val, Pow, LimbsA, LimbsB, Two;
    TopOfA(f);
    FrameValues(f);
    ValBound(f.b);
    TwoPow(|f.b|);
    TwoAdd(64 * |f.b|, ShiftOf(f));
    MulStrict(Val(f.b), Pow(|f.b|), Two(ShiftOf(f)));
    TwoMono(64 * f.n - f.d, 64 * f.n - 2);
    TwoPow(f.n);
    TwoDouble(64 * f.n);
    TwoDouble(64 * f.n - 1);
    Four();
  }

  /** The kept part has two bits more than the precision. */
  lemma {:induction false} EnoughBits(exact: int, t: nat, low: int, k: nat, n: nat, c: nat, prec: nat)
    requires k < n && exact == t * Pow(k) + low && 0 <= low < Pow(k)
    requires Two(c + 1) * exact >= Pow(n) && 64 * (n - k) >= c + prec + 2
    ensures BitLen(t) >= prec + 2
  {
    hide Two, Pow, BitLen;
    var g := 64 * (n - k) - c - 1;
    TwoAdd(c + 1, g);
    TwoPow(n - k);
    PowAdd(n - k, k);
    Distribute(t, Pow(k));
    MulStrict(exact, (t + 1) * Pow(k), Two(c + 1));
    MulSwap(Two(c + 1), exact);
    MulAssoc3(t + 1, Two(c + 1), Pow(k));
    MulSwap(Pow(k), Two(c + 1));
    MulAssoc(t + 1, Two(c + 1), Pow(k));
    if (t + 1) * Two(c + 1) <= Pow(n - k) { MulMono((t + 1) * Two(c + 1), Pow(n - k), Pow(k)); }
    if t + 1 <= Two(g) { MulMono(t + 1, Two(g), Two(c + 1)); MulSwap(Two(g), Two(c + 1)); }
    BitLenRange(t);
    if BitLen(t) < g + 1 { TwoMono(BitLen(t), g); }
  }

  // ---------- the operation ----------

  /** Units of 2^e carried over to the frame's lowest place. */
  lemma {:induction false} FrameScales(a: Bf, b: Bf, f: Frame, e: int)
    requires f == Frame(a.tab, b.tab, f.d, f.n) && Fits(f) && f.d == a.expn - b.expn
    requires a.expn - 64 * f.n <= e <= CommonExp(a, b)
    ensures var s := e - (a.expn - 64 * f.n);
            Val(LimbsA(f)) == Scale(a, e) * Two(s) && Val(LimbsB(f)) == Scale(b, e) * Two(s)
  {
    hide Val, Pow, Two, LimbsA, LimbsB;
    var s := e - (a.expn - 64 * f.n);
    FrameValues(f);
    TwoPow(f.n - |a.tab|);
    TwoAdd(LowExp(a) - e, s);
    MulAssoc(Val(a.tab), Two(LowExp(a) - e), Two(s));
    TwoAdd(LowExp(b) - e, s);
    MulAssoc(Val(b.tab), Two(LowExp(b) - e), Two(s));
  }

  /** tab[0] |= z */
  method OrSticky(r: BfT, z: bool)
    requires r.Valid() && r.len > 0
    modifies r.tab
    ensures r.Mag() == Stuck(old(r.Mag()), z)
  {
    hide Val;
    ghost var s := r.tab[..r.len];
    LowBit(s);
    if z && r.tab[0] % 2 == 0 {
      r.tab[0] := r.tab[0] + 1;
    }
    AddLow(s, r.tab[..r.len]);
  }

  lemma {:induction false} LowBit(s: seq<Limb>)
    requires |s| > 0
    ensures Val(s) % 2 == s[0] % 2
  {
    hide Val, Two;
    LowBits(s, 1);
    TwoOne();
  }

  lemma {:induction false} AddLow(s: seq<Limb>, t: seq<Limb>)
    requires |s| == |t| > 0 && s[1..] == t[1..]
    ensures Val(t) - Val(s) == t[0] as int - s[0]
  {
  }

  /** The sum of the kept limbs, with the sticky bit and the carry, in r. */
  method AddCut(r: BfT, a: Bf, b: Bf, isSub: bool, rLen: nat, ghost f: Frame)
    returns (ghost t: int, ghost low: int)
    requires f == Frame(a.tab, b.tab, f.d, f.n) && Fits(f) && 1 <= rLen <= f.n && |a.tab| > 0
    requires f.d == a.expn - b.expn && f.n == TotLen(a, b) && (isSub ==> Difference(f) > 0)
    requires r.Valid() && r.expn == a.expn
    modifies r, r.tab
    ensures r.Valid() && r.sign == old(r.sign) && (r.tab == old(r.tab) || fresh(r.tab))
    ensures t >= 0 && r.Mag() == Stuck(t, low > 0) && r.expn - 64 * r.len == a.expn - 64 * rLen
    ensures Exact(f, isSub) == t * Pow(f.n - rLen) + low && 0 <= low < Pow(f.n - rLen)
  {
    hide Val, Pow, LimbsA, LimbsB, Sum, Exact, Difference, LowKnown, Stuck;
    r.Resize(rLen);
    var totLen := TotLen(a, b);
    var aOffset, bBitOffset := |a.tab| - rLen, (|b.tab| - rLen) * 64 + (a.expn - b.expn);
    var carry0, z := LowPart(a.tab, b.tab, isSub, aOffset, bBitOffset, rLen - totLen, f);
    var carry := HighPart(r.tab, a.tab, b.tab, isSub, rLen, aOffset, bBitOffset, carry0, f);
    t := Val(r.tab[0..rLen]);
    low := Sum(LimbsA(f), LimbsB(f), isSub, f.n - rLen, carry0);
    ValBound(r.tab[0..rLen]);
    Kept(f, isSub, rLen, carry0, z, t, carry);
    assert r.tab[..r.len] == r.tab[0..rLen];
    OrSticky(r, z);
    if !isSub && carry != 0 {
      ghost var kept := r.tab[..rLen];
      r.Resize(rLen + 1);
      r.tab[rLen] := 1;
      r.expn := r.expn + 64;
      assert r.tab[..r.len] == kept + [1];
      CarryLimb(kept, t, z);
      t := t + Pow(rLen);
    }
  }

  /** tot_len: enough limbs for both operands. */
  function TotLen(a: Bf, b: Bf): int {
    var n := |b.tab| + (a.expn - b.expn + 63) / 64;
    if |a.tab| > n then |a.tab| else n
  }

  lemma {:induction false} CarryLimb(kept: seq<Limb>, t: int, z: bool)
    requires |kept| > 0 && t >= 0 && Val(kept) == Stuck(t, z)
    ensures Val(kept + [1]) == Stuck(t + Pow(|kept|), z)
  {
    hide Val, Pow;
    ValConcat(kept, [1]);
    assert [1][0..1] == [1];
    ValOne([1], 0);
    PowEven(|kept|);
  }

  /** Two normal numbers, the first one not smaller, and not equal in a subtraction. */
  method AddNormal(r: BfT, a: Bf, b: Bf, isSub: bool, sign: bool, prec: nat, mode: Mode, eRange: int) returns (st: Status)
    requires IsNormal(a) && IsNormal(b) && a.expn >= b.expn && prec >= 1 && r.Valid()
    requires var e := CommonExp(a, b); Scale(a, e) >= Scale(b, e) && (isSub ==> Scale(a, e) > Scale(b, e))
    modifies r, r.tab
    ensures r.Valid() && r.sign == sign && (r.tab == old(r.tab) || fresh(r.tab))
    ensures var e := CommonExp(a, b);
            var m := if isSub then Scale(a, e) - Scale(b, e) else Scale(a, e) + Scale(b, e);
            m > 0 && r.RoundedFrom(m, e, prec, mode, eRange, st)
  {
    hide Val, Pow, Two, Scale, LimbsA, LimbsB, Sum, Exact, Difference, Stuck, BitLen, Fits, BfT.RoundedFrom;
    var d := a.expn - b.expn;
    ghost var f, e := Frame(a.tab, b.tab, d, TotLen(a, b)), CommonExp(a, b);
    ghost var m := if isSub then Scale(a, e) - Scale(b, e) else Scale(a, e) + Scale(b, e);
    ExactScaled(a, b, f, e, isSub, m);
    r.sign, r.expn := sign, a.expn;
    var cancelledBits := 0;
    if isSub {
      if d <= 1 { cancelledBits := CountCancelledBits(a.tab, b.tab, d, f); } else { cancelledBits := 1; }
    }
    Cancelled(f, isSub, cancelledBits);
    var precl, totLen := (cancelledBits + prec + 2 + 63) / 64, TotLen(a, b);
    var rLen := if precl < totLen then precl else totLen;
    ghost var t, low;
    t, low := AddCut(r, a, b, isSub, rLen, f);
    st := r.NormalizeAndRound(prec, mode, eRange);
    AddRounded(r, a, f, isSub, e, m, t, low, rLen, cancelledBits, prec, mode, eRange, st);
  }

  /** The exact sum in the frame, and how many of its leading bits may be zero. */
  lemma {:induction false} ExactScaled(a: Bf, b: Bf, f: Frame, e: int, isSub: bool, m: int)
    requires IsNormal(a) && IsNormal(b) && a.expn >= b.expn && e == CommonExp(a, b)
    requires f == Frame(a.tab, b.tab, a.expn - b.expn, TotLen(a, b))
    requires m == if isSub then Scale(a, e) - Scale(b, e) else Scale(a, e) + Scale(b, e)
    requires isSub ==> m > 0
    ensures Fits(f) && a.expn - 64 * f.n <= e && f.n >= 1
    ensures m > 0 && Exact(f, isSub) == m * Two(e - (a.expn - 64 * f.n)) && Exact(f, isSub) > 0
    ensures isSub ==> Difference(f) > 0
  {
    hide Val, Two, LimbsA, LimbsB, Scale;
    var s := e - (a.expn - 64 * f.n);
    FrameScales(a, b, f, e);
    ScalePositive(a, e);
    ScalePositive(b, e);
    MulDistribute(Scale(a, e), Scale(b, e), Two(s));
    MulStrict(0, m, Two(s));
  }

  lemma {:induction false} ScalePositive(a: Bf, e: int)
    requires IsNormal(a) && e <= LowExp(a)
    ensures Scale(a, e) > 0
  {
    hide Val, Two;
    TopPositive(a.tab);
    MulStrict(0, Val(a.tab), Two(LowExp(a) - e));
  }

  lemma {:induction false} Cancelled(f: Frame, isSub: bool, n: nat)
    requires Fits(f) && |f.a| > 0 && f.a[|f.a| - 1] >= B / 2
    requires !isSub ==> n == 0
    requires isSub && f.d >= 2 ==> n == 1
    requires isSub && f.d <= 1 ==> Two(n + 1) * Difference(f) > Pow(f.n)
    ensures Two(n + 1) * Exact(f, isSub) >= Pow(f.n)
  {
    hide Val, Pow, Two, LimbsA, LimbsB, Difference;
    if !isSub {
      TopOfA(f);
      TwoOne();
    } else if f.d >= 2 {
      FarApart(f);
    }
  }

  lemma {:induction false} AddRounded(r: BfT, a: Bf, f: Frame, isSub: bool, e: int, m: int, t: int, low: int, rLen: nat,
                                      n: nat, prec: nat, mode: Mode, eRange: int, st: Status)
    requires r.Valid() && prec >= 1 && 1 <= rLen <= f.n && t >= 0 && m > 0 && a.expn - 64 * f.n <= e
    requires Exact(f, isSub) == t * Pow(f.n - rLen) + low && 0 <= low < Pow(f.n - rLen)
    requires Exact(f, isSub) == m * Two(e - (a.expn - 64 * f.n)) && Exact(f, isSub) > 0
    requires Two(n + 1) * Exact(f, isSub) >= Pow(f.n)
    requires rLen < f.n ==> 64 * rLen >= n + prec + 2
    requires Stuck(t, low > 0) > 0 ==> r.RoundedFrom(Stuck(t, low > 0), a.expn - 64 * rLen, prec, mode, eRange, st)
    ensures r.RoundedFrom(m, e, prec, mode, eRange, st)
  {
    hide Val, Pow, Two, BitLen, Exact, Stuck;
    var k := f.n - rLen;
    TwoPow(k);
    if k > 0 {
      EnoughBits(Exact(f, isSub), t, low, k, f.n, n, prec);
    } else {
      assert Pow(0) == 1 by { Empty([], 0); }
    }
    StuckPositive(t, low > 0);
    r.RoundedSticky(t, low, 64 * k, a.expn - 64 * rLen, prec, mode, eRange, st);
    r.RoundedShift(m, e, e - (a.expn - 64 * f.n), prec, mode, eRange, st);
  }

  lemma {:induction false} StuckPositive(t: nat, z: bool)
    ensures t > 0 ==> Stuck(t, z) > 0
  {
  }

  /** The exact a + b, or a - b when b's sign is flipped, in units of 2^e. */
  ghost function ExactSum(a: Bf, b: Bf, bNeg: bool, e: int): int
    requires e <= LowExp(a) && e <= LowExp(b)
  {
    (if a.sign then -Scale(a, e) else Scale(a, e)) + (if b.sign != bNeg then -Scale(b, e) else Scale(b, e))
  }

  /** bf_add_internal on normal numbers: the correctly rounded exact sum. */
  method AddFinite(r: BfT, a: Bf, b: Bf, bNeg: bool, cmp: int, prec: nat, mode: Mode, eRange: int) returns (st: Status)
    requires IsNormal(a) && IsNormal(b) && prec >= 1 && r.Valid()
    requires var e := CommonExp(a, b);
             (cmp < 0 <==> Scale(a, e) < Scale(b, e)) && (cmp == 0 <==> Scale(a, e) == Scale(b, e))
    requires (cmp < 0 ==> a.expn <= b.expn) && (cmp > 0 ==> a.expn >= b.expn) && (cmp == 0 ==> a.expn == b.expn)
    modifies r, r.tab
    ensures r.Valid()
    ensures var e := CommonExp(a, b);
            var x := ExactSum(a, b, bNeg, e);
            if x == 0 then st == Status(false, false, false) && r.len == 0 && r.expn == BF_EXP_ZERO && r.sign == mode.RNDD?
            else r.sign == (x < 0) && r.RoundedFrom(Abs(x), e, prec, mode, eRange, st)
  {
    hide Scale, BfT.RoundedFrom;
    ghost var e := CommonExp(a, b);
    ScalePositive(a, e);
    ScalePositive(b, e);
    var aSign, bSign := a.sign, b.sign != bNeg;
    var isSub := aSign != bSign;
    if cmp == 0 && isSub {
      r.SetZero(mode.RNDD?);
      st := Status(false, false, false);
    } else if cmp < 0 {
      st := AddNormal(r, b, a, isSub, bSign, prec, mode, eRange);
    } else {
      st := AddNormal(r, a, b, isSub, aSign, prec, mode, eRange);
    }
  }

  /** bf_set for a number with limbs. */
  method Assign(r: BfT, a: Bf)
    requires r.Valid()
    modifies r, r.tab
    ensures r.Valid() && r.sign == a.sign && r.expn == a.expn && r.len == |a.tab| && r.Mag() == Val(a.tab)
    ensures r.tab == old(r.tab) || fresh(r.tab)
  {
    r.Resize(|a.tab|);
    r.sign, r.expn := a.sign, a.expn;
    var t := r.tab;
    forall i | 0 <= i < |a.tab| {
      t[i] := a.tab[i];
    }
    assert r.tab[..r.len] == a.tab;
  }

  /** The sum when an operand is zero, infinite or not a number. */
  ghost predicate SpecialSum(r: BfT, a: Bf, aSign: bool, b: Bf, bSign: bool, prec: nat, mode: Mode, eRange: int,
                             st: Status, invalid: bool)
    requires r.Valid() && prec >= 1
    reads r, r.tab
  {
    if a.expn == BF_EXP_NAN || b.expn == BF_EXP_NAN then r.len == 0 && r.expn == BF_EXP_NAN && !invalid
    else if a.expn == BF_EXP_INF && b.expn == BF_EXP_INF then
      if aSign == bSign then r.len == 0 && r.expn == BF_EXP_INF && r.sign == aSign && !invalid
      else r.len == 0 && r.expn == BF_EXP_NAN && invalid
    else if a.expn == BF_EXP_INF then r.len == 0 && r.expn == BF_EXP_INF && r.sign == aSign && !invalid
    else if b.expn == BF_EXP_INF then r.len == 0 && r.expn == BF_EXP_INF && r.sign == bSign && !invalid
    else if a.expn == BF_EXP_ZERO && b.expn == BF_EXP_ZERO then
      r.len == 0 && r.expn == BF_EXP_ZERO && !invalid && r.sign == if aSign == bSign then aSign else mode.RNDD?
    else if a.expn == BF_EXP_ZERO then
      r.sign == bSign && !invalid && r.RoundedFrom(Val(b.tab), LowExp(b), prec, mode, eRange, st)
    else
      r.sign == aSign && !invalid && r.RoundedFrom(Val(a.tab), LowExp(a), prec, mode, eRange, st)
  }

  /** A sum with a special operand is the same in both orders, with every mode, flag and sign of zero. */
  lemma {:induction false} SpecialSwaps(r: BfT, a: Bf, aSign: bool, b: Bf, bSign: bool, prec: nat, mode: Mode, eRange: int,
                                        st: Status, invalid: bool)
    requires r.Valid() && prec >= 1 && (IsSpecial(a) || IsSpecial(b))
    ensures SpecialSum(r, a, aSign, b, bSign, prec, mode, eRange, st, invalid)
        <==> SpecialSum(r, b, bSign, a, aSign, prec, mode, eRange, st, invalid)
  {
    hide BfT.RoundedFrom, Val;
  }

  method SetNaN(r: BfT)
    requires r.Valid()
    modifies r
    ensures r.Valid() && r.len == 0 && r.expn == BF_EXP_NAN && r.tab == old(r.tab)
  {
    r.len, r.expn := 0, BF_EXP_NAN;
  }

  /** The branch with an empty operand; x is the larger one, y the other. */
  method AddSpecial(r: BfT, x: Bf, xSign: bool, y: Bf, isSub: bool, prec: nat, mode: Mode, eRange: int)
    returns (st: Status, invalid: bool)
    requires (IsNormal(x) || IsSpecial(x)) && (IsNormal(y) || IsSpecial(y)) && (IsSpecial(x) || IsSpecial(y))
    requires y.expn <= x.expn && prec >= 1 && r.Valid()
    requires !(x.expn == y.expn == BF_EXP_ZERO && isSub)
    modifies r, r.tab
    ensures r.Valid() && SpecialSum(r, x, xSign, y, xSign != isSub, prec, mode, eRange, st, invalid)
  {
    hide Val, BfT.RoundedFrom;
    st, invalid := Status(false, false, false), false;
    if x.expn >= BF_EXP_INF {
      if x.expn == BF_EXP_NAN {
        SetNaN(r);
      } else if y.expn == BF_EXP_INF && isSub {
        SetNaN(r);
        invalid := true;
      } else {
        r.SetInf(xSign);
      }
    } else {
      Assign(r, x);
      r.sign := xSign;
      if |x.tab| > 0 { TopPositive(x.tab); } else { NoLimbs(x.tab); }
      st := r.NormalizeAndRound(prec, mode, eRange);
    }
  }

  /** Addition, or subtraction when b's sign is flipped, for all operands: the correctly rounded exact
      sum of two normal numbers, and the special cases. */
  method BfAddInternal(r: BfT, a: Bf, b: Bf, bNeg: bool, prec: nat, mode: Mode, eRange: int) returns (st: Status, invalid: bool)
    requires (IsNormal(a) || IsSpecial(a)) && (IsNormal(b) || IsSpecial(b)) && prec >= 1 && r.Valid()
    modifies r, r.tab
    ensures r.Valid()
    ensures IsSpecial(a) || IsSpecial(b) ==> SpecialSum(r, a, a.sign, b, b.sign != bNeg, prec, mode, eRange, st, invalid)
    ensures IsNormal(a) && IsNormal(b) ==>
              var e := CommonExp(a, b);
              var x := ExactSum(a, b, bNeg, e);
              && !invalid
              && if x == 0 then st == Status(false, false, false) && r.len == 0 && r.expn == BF_EXP_ZERO && r.sign == mode.RNDD?
                 else r.sign == (x < 0) && r.RoundedFrom(Abs(x), e, prec, mode, eRange, st)
  {
    hide Val, Scale, ExactSum, BfT.RoundedFrom;
    var cmp := CmpU(a, b);
    var aSign, bSign := a.sign, b.sign != bNeg;
    var isSub := aSign != bSign;
    invalid := false;
    if |a.tab| > 0 && |b.tab| > 0 {
      st := AddFinite(r, a, b, bNeg, cmp, prec, mode, eRange);
    } else if cmp == 0 && isSub && a.expn < BF_EXP_INF {
      r.SetZero(mode.RNDD?);
      st := Status(false, false, false);
    } else if cmp < 0 {
      st, invalid := AddSpecial(r, b, bSign, a, isSub, prec, mode, eRange);
    } else {
      st, invalid := AddSpecial(r, a, aSign, b, isSub, prec, mode, eRange);
    }
  }
}
