/** Integer square root with remainder: one and two limbs, and the recursion over 2n limbs. */
module SquareRoot {
  import opened Limbs
  import opened Products
  import opened FftMultiply
  import opened SqrtMath
  import D = Division

  const QUARTER: int := 0x4000_0000_0000_0000
  const W32: int := 0x1_0000_0000

  // ---------- one limb ----------

  function TableEntry(j: int): (t: Limb)
    requires 0 <= j < 192
    ensures t * t <= 256 * (j + 64) < (t + 1) * (t + 1) && 128 <= t < 256
  {
    hide SQRT_TABLE;
    TableBounds(j);
    SQRT_TABLE[j]
  }

  /** Eight bits of root from sixteen bits of argument, out of the table. */
  method TableRoot(x: Limb) returns (s: Limb, r: Limb)
    requires 0x4000 <= x < 0x1_0000
    ensures IsSqrtRem(x, s, r) && 128 <= s < 256
  {
    hide TableEntry;
    s := TableEntry(x / 256 - 64);
    r := x - s * s;
    if r > 2 * s {
      r := r - (2 * s + 1);
      s := s + 1;
    }
    RootBetween(x, s, r, 128, 256);
  }

  /** Doubles the precision; the remainder is a limb read as signed by the test. */
  method Refine(ghost hi: int, s1: Limb, r1: Limb, b: int, x1: int, x0: int) returns (s: Limb, r: Limb)
    requires b == 256 || b == 65536
    requires IsSqrtRem(hi, s1, r1) && b <= 2 * s1 < 2 * b && 0 <= x1 < b && 0 <= x0 < b
    ensures IsSqrtRem(hi * (b * b) + x1 * b + x0, s, r)
  {
    var num := r1 * b + x1;
    var q, u := num / (2 * s1), num % (2 * s1);
    DivMod(num, 2 * s1);
    SqrtStep(hi, s1, r1, b, x1, x0, q, u);
    ghost var e := u * b + x0 - q * q;
    RefineBounds(s1, b, q, e);
    s := s1 * b + q;
    r := (u * b + x0 - q * q) % B;
    s, r := SignFix(s, r, e);
  }

  /** When the remainder, read as a signed limb, is negative the root was one too large. */
  method SignFix(s: Limb, r: Limb, ghost e: int) returns (s': Limb, r': Limb)
    requires s <= W32 && -W32 <= e <= 2 * W32 && r == e % B && (e < 0 ==> s >= 1 && e + 2 * (s - 1) + 1 >= 0)
    ensures s' == if e < 0 then s - 1 else s
    ensures r' == if e < 0 then e + 2 * (s - 1) + 1 else e
  {
    s', r' := s, r;
    assert r == if e < 0 then e + B else e;
    if r' >= HALF {
      s' := s' - 1;
      r' := (r' + 2 * s' + 1) % B;
    }
  }

  lemma {:induction false} RefineBounds(s1: int, b: int, q: int, e: int)
    requires 1 <= b <= 65536 && 0 <= s1 < b && 0 <= q <= b
    requires -(b * b) <= e <= 2 * (s1 * b + q)
    ensures 0 <= s1 * b + q <= W32 && -W32 <= e <= 2 * W32
  {
    RootMono(b, 65536);
    MulMono(0, s1, b);
    MulMono(s1, b - 1, b);
    assert (b - 1) * b == b * b - b;
  }

  /** The bytes of the argument feed the table and two refinements. */
  method MpSqrtrem1(a: Limb) returns (s: Limb, r: Limb)
    requires a >= QUARTER
    ensures IsSqrtRem(a, s, r) && W32 <= 2 * s < 2 * W32
  {
    hide IsSqrtRem;
    var x, y1, y0 := a / 0x1_0000_0000_0000, a / 0x100_0000_0000 % 256, a / W32 % 256;
    var z1, z0 := a / 0x1_0000 % 0x1_0000, a % 0x1_0000;
    ghost var top := a / W32;
    Bytes(a);
    s, r := TableRoot(x);
    s, r := Refine(x, s, r, 256, y1, y0);
    RootBetween(top, s, r, 0x8000, 0x1_0000);
    s, r := Refine(top, s, r, 65536, z1, z0);
    RootBetween(a, s, r, 0x8000_0000, W32);
  }

  lemma {:induction false} Bytes(a: int)
    requires QUARTER <= a < B
    ensures var x, y1, y0 := a / 0x1_0000_0000_0000, a / 0x100_0000_0000 % 256, a / W32 % 256;
            0x4000 <= x < 0x1_0000 && x * (256 * 256) + y1 * 256 + y0 == a / W32
    ensures a / W32 * (65536 * 65536) + a / 0x1_0000 % 0x1_0000 * 65536 + a % 0x1_0000 == a
    ensures 0x4000_0000 <= a / W32 < W32
  {
    ByteAbove32(a);
    ByteAbove40(a);
    LowWords(a);
    TopRange(a);
  }

  lemma {:induction false} ByteAbove32(a: int)
    ensures a / W32 / 256 == a / 0x100_0000_0000
  {
  }

  lemma {:induction false} ByteAbove40(a: int)
    ensures a / 0x100_0000_0000 / 256 == a / 0x1_0000_0000_0000
  {
  }

  lemma {:induction false} LowWords(a: int)
    ensures a == a / W32 * W32 + a / 0x1_0000 % 0x1_0000 * 65536 + a % 0x1_0000
  {
    assert a / 0x1_0000 / 0x1_0000 == a / W32;
  }

  lemma {:induction false} TopRange(a: int)
    requires QUARTER <= a < B
    ensures 0x4000_0000 <= a / W32 < W32 && 0x4000 <= a / 0x1_0000_0000_0000 < 0x1_0000
  {
  }

  // ---------- two limbs ----------

  /** Root and remainder of a1 * B + a0; the remainder is returned as two limbs. */
  method MpSqrtrem2(a1: Limb, a0: Limb) returns (s: Limb, r0: Limb, r1: Limb)
    requires a1 >= QUARTER
    ensures IsSqrtRem(a1 * B + a0, s, r0 + B * r1) && r1 <= 1
  {
    hide IsSqrtRem;
    var s1, t := MpSqrtrem1(a1);
    var x1, x0 := a0 / W32, a0 % W32;
    var num := t * W32 + x1;
    var q, u := num / (2 * s1), num % (2 * s1);
    DivMod(num, 2 * s1);
    SqrtStep(a1, s1, t, W32, x1, x0, q, u);
    ghost var sx, e := s1 * W32 + q, u * W32 + x0 - q * q;
    FloorBelow(a1 * B + a0, sx, e);
    s := (s1 * W32 + q) % B;
    var r: int;
    if q / W32 != 0 {
      r := (u * W32 + x0 - B) % (B * B);
    } else {
      r := (u * W32 + x0 - q * q) % (B * B);
    }
    assert q * q == B || q < W32 by { TopSquare(q); }
    s, r0, r1 := SignFix2(s, r, sx, e);
  }

  lemma {:induction false} TopSquare(q: int)
    requires 0 <= q <= W32
    ensures q == W32 ==> q * q == B
    ensures q < W32 <==> q / W32 == 0
  {
  }

  /** The true root of a double limb fits a limb, so a root of B comes with a negative remainder. */
  lemma {:induction false} FloorBelow(a: int, sx: int, e: int)
    requires 0 <= a < B * B && sx >= 0
    requires e >= 0 ==> IsSqrtRem(a, sx, e)
    requires e < 0 ==> IsSqrtRem(a, sx - 1, e + 2 * (sx - 1) + 1)
    ensures if e >= 0 then sx < B else 1 <= sx <= B && 0 <= e + 2 * (sx - 1) + 1 <= 2 * (sx - 1)
    ensures -B * B <= e
  {
    if e >= 0 { RootBetween(a, sx, e, 0, B); } else {
      RootBetween(a, sx - 1, e + 2 * (sx - 1) + 1, 0, B);
    }
  }

  /** The same correction on a double limb, the root itself being kept modulo B. */
  method SignFix2(s: Limb, r: int, ghost sx: int, ghost e: int) returns (s': Limb, r0: Limb, r1: Limb)
    requires 0 <= sx <= B && s == sx % B && -B * B / 4 <= e <= 2 * sx && r == e % (B * B)
    requires if e >= 0 then sx < B else 1 <= sx && 0 <= e + 2 * (sx - 1) + 1 <= 2 * B
    ensures s' == if e < 0 then sx - 1 else sx
    ensures r0 + B * r1 == if e < 0 then e + 2 * (sx - 1) + 1 else e
  {
    assert r == if e < 0 then e + B * B else e;
    s' := s;
    var r' := r;
    if r' / B >= HALF {
      s' := (s' - 1) % B;
      assert s' == sx - 1;
      r' := (r' + 2 * s' + 1) % (B * B);
    }
    r0, r1 := r' % B, r' / B;
  }

  // ---------- 2n limbs ----------

  /** Removes the bit above the h limbs of the remainder by subtracting the root once. */
  method DropHighBit(taba: array<Limb>, p: nat, tabs: array<Limb>, so: nat, h: nat, qh: Limb, ghost s1: int, ghost r1: int)
    requires p + h <= taba.Length && so + h <= tabs.Length && tabs != taba && qh <= 1
    requires s1 == Val(tabs[so..so + h]) && r1 == Val(taba[p..p + h]) + qh * Pow(h) && r1 <= 2 * s1
    modifies taba
    ensures r1 == Val(taba[p..p + h]) + qh * s1
    ensures Outside(old(taba[..]), taba[..], p, p + h)
  {
    hide Val, Pow;
    if qh != 0 {
      ghost var high := Val(taba[p..p + h]);
      ValBound(tabs[so..so + h]);
      var k := MpSub(taba, p, taba, p, tabs, so, h, 0);
      ValBound(taba[p..p + h]);
    }
  }

  /** Divides the remainder of the high half, extended by l limbs, by its (normalized) root. */
  method DivideByRoot(tabs: array<Limb>, so: nat, taba: array<Limb>, ao: nat, n: nat, l: nat, h: nat,
                      tmp: array<Limb>, qh0: Limb, ghost s1: int, ghost r1: int)
    returns (qh: Limb)
    requires 1 <= l <= h && l + h == n && ao + 2 * n <= taba.Length && so + n <= tabs.Length && tmp.Length >= l + 1
    requires tabs != taba && tabs != tmp && taba != tmp
    requires s1 == Val(tabs[so + l..so + n]) && Pow(h) <= 2 * s1
    requires r1 == Val(taba[ao + 2 * l..ao + 2 * l + h]) + qh0 * s1 && qh0 <= 1
    modifies tabs, taba, tmp
    ensures r1 * Pow(l) + old(Val(taba[ao + l..ao + 2 * l]))
         == (Val(tabs[so..so + l]) + qh * Pow(l)) * s1 + Val(taba[ao + l..ao + n])
    ensures Val(taba[ao + l..ao + n]) < s1 && qh <= 2
    ensures Outside(old(taba[..]), taba[..], ao + l, ao + 2 * n) && Outside(old(tabs[..]), tabs[..], so, so + l)
  {
    hide Val, Pow;
    ghost var a1, low := Val(taba[ao + l..ao + 2 * l]), Val(taba[ao + 2 * l..ao + 2 * l + h]);
    ValSplit(taba[..], ao + l, ao + 2 * l, ao + l + n);
    TopHalf(tabs[..], so + l, h);
    D.MpDivnorm(tmp, 0, taba, ao + l, n, tabs, so + l, h);
    ValSnoc(tmp[..], 0, l);
    qh := qh0 + tmp[l];
    D.Copy(tabs, so, tmp, 0, l);
    WholeQuotient(r1, low, qh0, tmp[l], Val(tmp[0..l]), s1, Val(taba[ao + l..ao + n]), Pow(l), a1,
                  Val(tabs[so..so + l]) + qh * Pow(l));
  }

  /** Quotient and remainder of the division by twice s. */
  ghost predicate DividedBy(a: int, s: int, q: int, u: int) {
    a == q * (2 * s) + u && 0 <= u < 2 * s
  }

  /** The same by twice the root. Returns the quotient's bit above the l limbs of tabs and the
      remainder's bit above h limbs. */
  method DivideByTwiceRoot(tabs: array<Limb>, so: nat, taba: array<Limb>, ao: nat, n: nat, l: nat, h: nat,
                           tmp: array<Limb>, qh0: Limb, ghost s1: int, ghost r1: int)
    returns (qh: Limb, rh: Limb)
    requires 1 <= l <= h && l + h == n && ao + 2 * n <= taba.Length && so + n <= tabs.Length && tmp.Length >= l + 1
    requires tabs != taba && tabs != tmp && taba != tmp
    requires s1 == Val(tabs[so + l..so + n]) && Pow(h) <= 2 * s1
    requires r1 == Val(taba[ao + 2 * l..ao + 2 * l + h]) + qh0 * Pow(h) && r1 <= 2 * s1 && qh0 <= 1
    modifies tabs, taba, tmp
    ensures DividedBy(r1 * Pow(l) + old(Val(taba[ao + l..ao + 2 * l])), s1,
                      Val(tabs[so..so + l]) + qh * Pow(l), Val(taba[ao + l..ao + n]) + rh * Pow(h))
    ensures qh <= 1 && rh <= 1
    ensures Outside(old(taba[..]), taba[..], ao + l, ao + 2 * n) && Outside(old(tabs[..]), tabs[..], so, so + l)
  {
    hide Val, Pow;
    ghost var x1 := taba[ao + l..ao + 2 * l];
    DropHighBit(taba, ao + 2 * l, tabs, so + l, h, qh0, s1, r1);
    assert taba[ao + l..ao + 2 * l] == x1;
    qh := DivideByRoot(tabs, so, taba, ao, n, l, h, tmp, qh0, s1, r1);
    assert tabs[so + l..so + n] == old(tabs[so + l..so + n]);
    ghost var u, t := Val(taba[ao + l..ao + n]), Val(tabs[so..so + l]) + qh * Pow(l);
    qh, rh := HalveQuotient(tabs, so, taba, ao, n, l, h, qh, u, s1, t);
    Doubled(t, Val(tabs[so..so + l]) + qh * Pow(l), s1, u, Val(taba[ao + l..ao + n]) + rh * Pow(h));
  }

  /** Halves the quotient; an odd quotient sends the root back into the remainder. */
  method HalveQuotient(tabs: array<Limb>, so: nat, taba: array<Limb>, ao: nat, n: nat, l: nat, h: nat, qh0: Limb,
                       ghost u: int, ghost s1: int, ghost t: int)
    returns (qh: Limb, rh: Limb)
    requires 1 <= l <= h && l + h == n && ao + 2 * n <= taba.Length && so + n <= tabs.Length && tabs != taba
    requires s1 == Val(tabs[so + l..so + n]) && u == Val(taba[ao + l..ao + n]) && u < s1 && qh0 <= 2
    requires t == Val(tabs[so..so + l]) + qh0 * Pow(l)
    modifies tabs, taba
    ensures t == 2 * (Val(tabs[so..so + l]) + qh * Pow(l)) + (if Val(taba[ao + l..ao + n]) + rh * Pow(h) == u then 0 else 1)
    ensures Val(taba[ao + l..ao + n]) + rh * Pow(h) == u
         || Val(taba[ao + l..ao + n]) + rh * Pow(h) == u + s1
    ensures qh <= 1 && rh <= 1
    ensures Outside(old(taba[..]), taba[..], ao + l, ao + n) && Outside(old(tabs[..]), tabs[..], so, so + l)
  {
    hide Val, Pow;
    assert Two(1) == 2;
    ghost var q0 := Val(tabs[so..so + l]);
    var ql := MpShr(tabs, so, tabs, so, l, 1, qh0 % 2);
    assert tabs[so + l..so + n] == old(tabs[so + l..so + n]);
    qh := qh0 / 2;
    BitAbove(q0, qh0, qh, Pow(l), Val(tabs[so..so + l]), ql, t);
    rh := 0;
    if ql != 0 {
      rh := MpAdd(taba, ao + l, taba, ao + l, tabs, so + l, h, 0);
    }
  }

  lemma {:induction false} BitAbove(q0: int, qh0: int, qh: int, p: int, q: int, ql: int, t: int)
    requires t == q0 + qh0 * p && qh == qh0 / 2 && 2 * q + ql == q0 + (qh0 % 2) * p
    ensures t == 2 * (q + qh * p) + ql
  {
    assert qh0 == 2 * qh + qh0 % 2;
    assert qh0 * p == 2 * (qh * p) + (qh0 % 2) * p;
  }

  /** A root of at least B^h / 2 has its top bit set. */
  lemma {:induction false} TopHalf(t: seq<Limb>, o: nat, n: nat)
    requires n >= 1 && o + n <= |t| && Pow(n) <= 2 * Val(t[o..o + n])
    ensures t[o + n - 1] >= HALF
  {
    hide Val, Pow;
    ValSnoc(t, o, o + n - 1);
    ValBound(t[o..o + n - 1]);
    PowStep(n);
    if t[o + n - 1] < HALF { MulMono(t[o + n - 1], HALF - 1, Pow(n - 1)); }
  }

  lemma {:induction false} WholeQuotient(r1: int, low: int, qh0: int, top: int, q0: int, s1: int, u: int, pl: int, a1: int, t: int)
    requires r1 == low + qh0 * s1 && a1 + pl * low == (q0 + top * pl) * s1 + u
    requires t == q0 + (qh0 + top) * pl
    ensures r1 * pl + a1 == t * s1 + u
  {
    assert r1 * pl == low * pl + (qh0 * pl) * s1;
    assert t * s1 == (q0 + top * pl) * s1 + (qh0 * pl) * s1;
  }

  lemma {:induction false} Doubled(t: int, q: int, s1: int, u: int, u': int)
    requires (u' == u && t == 2 * q) || (u' == u + s1 && t == 2 * q + 1)
    ensures t * s1 + u == q * (2 * s1) + u'
  {
  }

  /** The limb rh, read as signed, over the n limbs of the remainder. */
  ghost predicate SignedRem(low: int, rh: Limb, p: int, e: int) {
    (rh <= 1 && e == low + rh * p) || (rh == B - 1 && e == low - p)
  }

  /** Subtracts q^2 from the low 2l limbs; for q = B^l it is a single unit at limb 2l. */
  method SubtractSquareLow(tabs: array<Limb>, so: nat, taba: array<Limb>, ao: nat, n: nat, l: nat, qh: Limb, ghost q: int)
    returns (c: Limb)
    requires 1 <= l && 2 * l <= n && ao + 2 * n <= taba.Length && so + l <= tabs.Length && tabs != taba
    requires q == Val(tabs[so..so + l]) + qh * Pow(l) && q <= Pow(l) && qh <= 1
    modifies taba
    ensures Val(taba[ao..ao + 2 * l]) + q * q == old(Val(taba[ao..ao + 2 * l])) + c * Pow(2 * l) && c <= 1
    ensures taba[ao + 2 * l..ao + n] == old(taba[ao + 2 * l..ao + n])
    ensures Outside(old(taba[..]), taba[..], ao, ao + 2 * n)
  {
    hide Val, Pow;
    PowAdd(l, l);
    if qh != 0 {
      c := qh;
      assert q == Pow(l);
    } else {
      MpMul(taba, ao + n, tabs, so, l, tabs, so, l);
      assert taba[ao..ao + 2 * l] == old(taba[ao..ao + 2 * l]);
      c := MpSub(taba, ao, taba, ao, taba, ao + n, 2 * l, 0);
    }
  }

  method SubtractSquare(tabs: array<Limb>, so: nat, taba: array<Limb>, ao: nat, n: nat, l: nat, qh: Limb, rh0: Limb,
                        ghost x: int, ghost q: int)
    returns (rh: Limb)
    requires 1 <= l && 2 * l <= n && ao + 2 * n <= taba.Length && so + l <= tabs.Length && tabs != taba
    requires x == Val(taba[ao..ao + n]) + rh0 * Pow(n) && rh0 <= 1
    requires q == Val(tabs[so..so + l]) + qh * Pow(l) && q <= Pow(l) && qh <= 1
    modifies taba
    ensures SignedRem(Val(taba[ao..ao + n]), rh, Pow(n), x - q * q)
    ensures Outside(old(taba[..]), taba[..], ao, ao + 2 * n)
  {
    hide Val, Pow, SignedRem;
    ghost var T := taba[..];
    var c := SubtractSquareLow(tabs, so, taba, ao, n, l, qh, q);
    ghost var low := taba[ao..ao + 2 * l];
    var k := MpSubUi(taba, ao + 2 * l, c, n - 2 * l);
    assert taba[ao..ao + 2 * l] == low;
    rh := (rh0 - k) % B;
    ValSplit(T, ao, ao + 2 * l, ao + n);
    ValSplit(taba[..], ao, ao + 2 * l, ao + n);
    PowAdd(2 * l, n - 2 * l);
    SquareBorrow(Val(taba[ao..ao + 2 * l]), Val(T[ao..ao + 2 * l]), Val(taba[ao + 2 * l..ao + n]), Val(T[ao + 2 * l..ao + n]),
                 Pow(2 * l), Pow(n - 2 * l), q * q, c, k);
    SignedBorrow(Val(taba[ao..ao + n]), Val(T[ao..ao + n]), rh0, k, Pow(n), q * q, x);
  }

  lemma {:induction false} SquareBorrow(low: int, low0: int, high: int, high0: int, p: int, ph: int, sq: int, c: int, k: int)
    requires low + sq == low0 + c * p && high + c == high0 + k * ph
    ensures low + p * high + sq == low0 + p * high0 + k * (p * ph)
  {
    assert p * high + p * c == p * high0 + p * (k * ph);
  }

  lemma {:induction false} SignedBorrow(v: int, v0: int, rh0: int, k: int, p: int, sq: int, x: int)
    requires v + sq == v0 + k * p && x == v0 + rh0 * p && 0 <= rh0 <= 1 && 0 <= k <= 1
    ensures SignedRem(v, (rh0 - k) % B, p, x - sq)
  {
  }

  /** A negative remainder: the root (kept modulo B^n) drops by one, the remainder gains 2s + 1. */
  method FixNegative(tabs: array<Limb>, so: nat, taba: array<Limb>, ao: nat, n: nat, rh0: Limb,
                     ghost sx: int, ghost ks: int, ghost e: int)
    returns (rh: Limb)
    requires n >= 1 && ao + n <= taba.Length && so + n <= tabs.Length && tabs != taba
    requires Val(tabs[so..so + n]) == sx - ks * Pow(n) && 0 <= ks <= 1 && 1 <= sx <= Pow(n)
    requires rh0 == B - 1 && e == Val(taba[ao..ao + n]) - Pow(n)
    requires 0 <= e + 2 * (sx - 1) + 1 <= 2 * (sx - 1)
    modifies tabs, taba
    ensures Val(tabs[so..so + n]) == sx - 1
    ensures Val(taba[ao..ao + n]) + rh * Pow(n) == e + 2 * (sx - 1) + 1 && rh <= 1
    ensures Outside(old(taba[..]), taba[..], ao, ao + n) && Outside(old(tabs[..]), tabs[..], so, so + n)
  {
    hide Val, Pow;
    ghost var s0 := Val(tabs[so..so + n]);
    var k := MpSubUi(tabs, so, 1, n);
    ValBound(tabs[so..so + n]);
    RootDown(s0, Val(tabs[so..so + n]), sx, k, ks, Pow(n));
    rh := AddTwiceRoot(tabs, so, taba, ao, n, rh0, sx, e);
  }

  /** Adds 2S + 1 to the remainder. */
  method AddTwiceRoot(tabs: array<Limb>, so: nat, taba: array<Limb>, ao: nat, n: nat, rh0: Limb, ghost sx: int, ghost e: int)
    returns (rh: Limb)
    requires n >= 1 && ao + n <= taba.Length && so + n <= tabs.Length && tabs != taba
    requires Val(tabs[so..so + n]) == sx - 1 && 1 <= sx <= Pow(n)
    requires rh0 == B - 1 && e == Val(taba[ao..ao + n]) - Pow(n)
    requires 0 <= e + 2 * (sx - 1) + 1 <= 2 * (sx - 1)
    modifies taba
    ensures Val(taba[ao..ao + n]) + rh * Pow(n) == e + 2 * (sx - 1) + 1 && rh <= 1
    ensures Outside(old(taba[..]), taba[..], ao, ao + n)
  {
    hide Val, Pow;
    ghost var r0 := Val(taba[ao..ao + n]);
    var c1 := MpAddMul1(taba, ao, tabs, so, n, 2);
    ghost var r1 := Val(taba[ao..ao + n]);
    var c2 := MpAddUi(taba, ao, 1, n);
    ValBound(taba[ao..ao + n]);
    CarryBound(Val(taba[ao..ao + n]), c1, c2, Pow(n), r0, r1, sx, e);
    rh := (rh0 + c1 + c2) % B;
  }

  lemma {:induction false} SameResidue(a: int, b: int, d: int, p: int)
    requires a == b + d * p && 0 <= a < p && 0 <= b < p
    ensures a == b
  {
    if d >= 1 { MulMono(1, d, p); }
    if d <= -1 { MulMono(d, -1, p); }
  }

  lemma {:induction false} RootDown(s0: int, s: int, sx: int, k: int, ks: int, p: int)
    requires s + 1 == s0 + k * p && s0 == sx - ks * p && 0 <= s < p && 1 <= sx <= p
    ensures s == sx - 1
  {
    assert (k - ks) * p == k * p - ks * p;
    SameResidue(s, sx - 1, k - ks, p);
  }

  lemma {:induction false} CarryBound(r: int, c1: int, c2: int, p: int, r0: int, r1: int, sx: int, e: int)
    requires r1 + c1 * p == r0 + (sx - 1) * 2 && r + c2 * p == r1 + 1 && 0 <= r < p && c1 >= 0 && c2 >= 0
    requires e == r0 - p && sx <= p && 0 <= e + 2 * (sx - 1) + 1 <= 2 * (sx - 1)
    ensures 1 <= c1 + c2 <= 2
    ensures r + (c1 + c2 - 1) * p == e + 2 * (sx - 1) + 1
  {
    var c := c1 + c2;
    assert c * p == c1 * p + c2 * p;
    assert (c - 1) * p == c * p - p;
    if c >= 3 { MulMono(3, c, p); }
    if c <= 0 { MulMono(c, 0, p); }
  }

  /** mp_sqrtrem_rec: the root goes to tabs, the low limbs of the remainder stay in taba and its
      high limb is returned. */
  method MpSqrtremRec(tabs: array<Limb>, so: nat, taba: array<Limb>, ao: nat, n: nat, tmp: array<Limb>)
    returns (rh: Limb)
    requires n >= 1 && ao + 2 * n <= taba.Length && so + n <= tabs.Length && tmp.Length >= n / 2 + 1
    requires tabs != taba && tabs != tmp && taba != tmp
    requires taba[ao + 2 * n - 1] >= QUARTER
    modifies tabs, taba, tmp
    ensures IsSqrtRem(old(Val(taba[ao..ao + 2 * n])), Val(tabs[so..so + n]), Val(taba[ao..ao + n]) + rh * Pow(n))
    ensures rh <= 1
    ensures Outside(old(taba[..]), taba[..], ao, ao + 2 * n) && Outside(old(tabs[..]), tabs[..], so, so + n)
    decreases n, 2
  {
    hide Val, Pow, IsSqrtRem;
    if n == 1 {
      TwoLimbValue(taba[..], ao);
      var s, r0, r1 := MpSqrtrem2(taba[ao + 1], taba[ao]);
      tabs[so] := s;
      taba[ao] := r0;
      rh := r1;
      ValOne(tabs[..], so);
      ValOne(taba[..], ao);
      assert Pow(1) == B by { PowStep(1); Empty([], 0); }
      return;
    }
    rh := SqrtremSplit(tabs, so, taba, ao, n, tmp);
  }

  lemma {:induction false} TwoLimbValue(a: seq<Limb>, o: nat)
    requires o + 2 <= |a|
    ensures Val(a[o..o + 2]) == a[o + 1] * B + a[o]
  {
    hide Val, Pow;
    ValCons(a, o, o + 2);
    ValOne(a, o + 1);
  }

  lemma {:induction false} HighRoot(a: seq<Limb>, o: nat, h: nat, s1: int, r1: int)
    requires h >= 1 && o + 2 * h <= |a| && a[o + 2 * h - 1] >= QUARTER
    requires IsSqrtRem(Val(a[o..o + 2 * h]), s1, r1) && s1 >= 0
    ensures Pow(h) <= 2 * s1 && 0 <= r1 <= 2 * s1
  {
    hide Val, Pow;
    ValSnoc(a, o, o + 2 * h - 1);
    PowStep(2 * h);
    PowAdd(h, h);
    PowStep(h);
    MulMono(QUARTER, a[o + 2 * h - 1], Pow(2 * h - 1));
    HalfRoot(Val(a[o..o + 2 * h]), s1, r1, Pow(h), Pow(h - 1));
  }

  lemma {:induction false} HalfRoot(a: int, s1: int, r1: int, p: int, p1: int)
    requires IsSqrtRem(a, s1, r1) && s1 >= 0 && p == B * p1 && p1 >= 0 && 4 * a >= p * p
    ensures p <= 2 * s1
  {
    var c := HALF * p1;
    assert p == 2 * c;
    if s1 < c { RootMono(s1 + 1, c); }
  }

  /** All facts about one level: the dividend in pieces, and what sx and e are to it. */
  lemma {:induction false} SplitStep(a: seq<Limb>, ao: nat, n: nat, l: nat, h: nat, s1: int, r1: int, q: int, u: int,
                  t: seq<Limb>, rh: int, x: int)
    requires 1 <= l <= h && l + h == n && ao + 2 * n <= |a| == |t|
    requires IsSqrtRem(Val(a[ao + 2 * l..ao + 2 * n]), s1, r1) && Pow(h) <= 2 * s1
    requires DividedBy(r1 * Pow(l) + Val(a[ao + l..ao + 2 * l]), s1, q, u)
    requires t[ao..ao + l] == a[ao..ao + l] && u == Val(t[ao + l..ao + n]) + rh * Pow(h)
    requires x == Val(t[ao..ao + n]) + rh * Pow(n)
    ensures 0 <= q <= Pow(l)
    ensures RootState(Val(a[ao..ao + 2 * n]), s1 * Pow(l) + q, x - q * q, Pow(n))
  {
    hide Val, Pow, IsSqrtRem, RootState;
    var b, x1, x0 := Pow(l), Val(a[ao + l..ao + 2 * l]), Val(a[ao..ao + l]);
    DividendPieces(a, ao, n, l);
    RemainderPieces(a, t, ao, n, l, h, rh, u);
    PowMono(l, h);
    LevelMath(Val(a[ao + 2 * l..ao + 2 * n]), s1, r1, b, x1, x0, q, u, Pow(n), Val(a[ao..ao + 2 * n]), x);
  }

  lemma {:induction false} DividendPieces(a: seq<Limb>, ao: nat, n: nat, l: nat)
    requires l <= n && ao + 2 * n <= |a|
    ensures Val(a[ao..ao + 2 * n])
         == Val(a[ao + 2 * l..ao + 2 * n]) * (Pow(l) * Pow(l)) + Val(a[ao + l..ao + 2 * l]) * Pow(l) + Val(a[ao..ao + l])
    ensures Val(a[ao..ao + 2 * n]) < Pow(n) * Pow(n)
    ensures Val(a[ao..ao + l]) < Pow(l) && Val(a[ao + l..ao + 2 * l]) < Pow(l)
  {
    hide Val, Pow;
    ValSplit(a, ao, ao + l, ao + 2 * n);
    ValSplit(a, ao + l, ao + 2 * l, ao + 2 * n);
    ValBound(a[ao..ao + l]);
    ValBound(a[ao + l..ao + 2 * l]);
    ValBound(a[ao..ao + 2 * n]);
    PowAdd(n, n);
    Pieces(Val(a[ao + 2 * l..ao + 2 * n]), Pow(l), Val(a[ao + l..ao + 2 * l]), Val(a[ao..ao + l]));
  }

  lemma {:induction false} RemainderPieces(a: seq<Limb>, t: seq<Limb>, ao: nat, n: nat, l: nat, h: nat, rh: int, u: int)
    requires l + h == n && ao + n <= |t| && ao + n <= |a| && t[ao..ao + l] == a[ao..ao + l]
    requires u == Val(t[ao + l..ao + n]) + rh * Pow(h)
    ensures Val(t[ao..ao + n]) + rh * Pow(n) == u * Pow(l) + Val(a[ao..ao + l])
  {
    hide Val, Pow;
    ValSplit(t, ao, ao + l, ao + n);
    PowAdd(l, h);
  }

  lemma {:induction false} LevelMath(hi: int, s1: int, r1: int, b: int, x1: int, x0: int, q: int, u: int, pn: int, a: int, x: int)
    requires IsSqrtRem(hi, s1, r1) && 1 <= b <= 2 * s1 && 0 <= x1 < b && 0 <= x0 < b && pn >= 1
    requires r1 * b + x1 == q * (2 * s1) + u && 0 <= u < 2 * s1
    requires a == hi * (b * b) + x1 * b + x0 && 0 <= a < pn * pn && x == u * b + x0
    ensures 0 <= q <= b
    ensures RootState(a, s1 * b + q, x - q * q, pn)
  {
    SqrtStep(hi, s1, r1, b, x1, x0, q, u);
    MulMono(0, s1, b);
    hide IsSqrtRem;
    RootFits(a, s1 * b + q, x - q * q, pn);
  }

  lemma {:induction false} Pieces(hi: int, b: int, x1: int, x0: int)
    ensures x0 + b * (x1 + b * hi) == hi * (b * b) + x1 * b + x0
  {
  }

  /** sx is the root or one more than it, the latter exactly when e is negative. */
  ghost predicate RootState(a: int, sx: int, e: int, p: int) {
    if e >= 0 then IsSqrtRem(a, sx, e) && 0 <= sx < p
    else IsSqrtRem(a, sx - 1, e + 2 * (sx - 1) + 1) && 1 <= sx <= p && 0 <= e + 2 * (sx - 1) + 1 <= 2 * (sx - 1)
  }

  lemma {:induction false} RootFits(a: int, sx: int, e: int, p: int)
    requires 0 <= a < p * p && sx >= 0 && p >= 1
    requires e >= 0 ==> IsSqrtRem(a, sx, e)
    requires e < 0 ==> IsSqrtRem(a, sx - 1, e + 2 * (sx - 1) + 1)
    ensures RootState(a, sx, e, p)
  {
    if e >= 0 {
      RootBetween(a, sx, e, 0, p);
    } else {
      RootBetween(a, sx - 1, e + 2 * (sx - 1) + 1, 0, p);
    }
  }

  /** Adds the quotient's high bit to the root; the carry out of n limbs is lost. */
  method RaiseRoot(tabs: array<Limb>, so: nat, n: nat, l: nat, h: nat, qh: Limb, ghost s1: int, ghost sx: int)
    returns (ghost ks: int)
    requires 1 <= l <= h && l + h == n && so + n <= tabs.Length
    requires s1 == Val(tabs[so + l..so + n]) && sx == s1 * Pow(l) + (Val(tabs[so..so + l]) + qh * Pow(l))
    modifies tabs
    ensures Val(tabs[so..so + n]) == sx - ks * Pow(n) && 0 <= ks <= 1
    ensures tabs[so..so + l] == old(tabs[so..so + l])
    ensures Outside(old(tabs[..]), tabs[..], so, so + n)
  {
    hide Val, Pow;
    var k := MpAddUi(tabs, so + l, qh, h);
    ks := k;
    assert tabs[so..so + l] == old(tabs[so..so + l]);
    ValSplit(tabs[..], so, so + l, so + n);
    PowAdd(l, h);
    RaisedValue(Val(tabs[so + l..so + n]), s1, qh, k, Pow(l), Pow(h));
  }

  lemma {:induction false} RaisedValue(high: int, s1: int, qh: int, k: int, pl: int, ph: int)
    requires high + k * ph == s1 + qh
    ensures pl * high == s1 * pl + qh * pl - k * (pl * ph)
  {
    assert pl * (high + k * ph) == pl * (s1 + qh);
  }

  /** The sign test and its correction. */
  method FinishRoot(tabs: array<Limb>, so: nat, taba: array<Limb>, ao: nat, n: nat, rh0: Limb,
                    ghost sx: int, ghost ks: int, ghost e: int, ghost a: int)
    returns (rh: Limb)
    requires n >= 1 && ao + n <= taba.Length && so + n <= tabs.Length && tabs != taba
    requires RootState(a, sx, e, Pow(n))
    requires Val(tabs[so..so + n]) == sx - ks * Pow(n) && 0 <= ks <= 1
    requires SignedRem(Val(taba[ao..ao + n]), rh0, Pow(n), e)
    modifies tabs, taba
    ensures IsSqrtRem(a, Val(tabs[so..so + n]), Val(taba[ao..ao + n]) + rh * Pow(n)) && rh <= 1
    ensures Outside(old(taba[..]), taba[..], ao, ao + n) && Outside(old(tabs[..]), tabs[..], so, so + n)
  {
    hide Val, Pow, IsSqrtRem;
    ValBound(taba[ao..ao + n]);
    ValBound(tabs[so..so + n]);
    rh := rh0;
    if rh >= HALF {
      rh := FixNegative(tabs, so, taba, ao, n, rh, sx, ks, e);
    } else {
      MulMono(0, rh, Pow(n));
    }
  }

  /** What lies below the limbs written is unchanged. */
  lemma {:induction false} LowerSame(s: seq<Limb>, t: seq<Limb>, ao: nat, lo: nat, hi: nat, l: nat)
    requires Outside(s, t, lo, hi) && lo <= hi <= |s| && lo == ao + 2 * l
    ensures t[ao..ao + l] == s[ao..ao + l] && t[ao + l..ao + 2 * l] == s[ao + l..ao + 2 * l]
  {
  }

  /** Only [lo, mid) or [mid, hi) was written, so the other part is as it was. */
  lemma {:induction false} Beside(s: seq<Limb>, t: seq<Limb>, lo: nat, mid: nat, hi: nat)
    requires lo <= mid <= hi <= |s| && |s| == |t|
    ensures Outside(s, t, mid, hi) ==> t[lo..mid] == s[lo..mid]
    ensures Outside(s, t, lo, mid) ==> t[mid..hi] == s[mid..hi]
  {
  }

  /** Two changes in turn, one up to hi and one within the same range. */
  lemma {:induction false} OutsideBoth(s: seq<Limb>, t: seq<Limb>, u: seq<Limb>, lo: nat, mid: nat, lo': nat, hi: nat)
    requires lo <= mid <= hi && lo <= lo' && Outside(s, t, mid, hi)
    requires Outside(t, u, lo', hi) || Outside(t, u, lo', mid)
    ensures Outside(s, u, lo, hi)
  {
  }

  /** The root of the high half and the division by twice that root. */
  method SplitHigh(tabs: array<Limb>, so: nat, taba: array<Limb>, ao: nat, n: nat, l: nat, h: nat, tmp: array<Limb>)
    returns (qh: Limb, rh: Limb, ghost s1: int, ghost q: int, ghost x: int)
    requires n >= 2 && l == n / 2 && h == n - l
    requires ao + 2 * n <= taba.Length && so + n <= tabs.Length && tmp.Length >= n / 2 + 1
    requires tabs != taba && tabs != tmp && taba != tmp
    requires taba[ao + 2 * n - 1] >= QUARTER
    modifies tabs, taba, tmp
    ensures qh <= 1 && rh <= 1 && q == Val(tabs[so..so + l]) + qh * Pow(l) && q <= Pow(l)
    ensures s1 == Val(tabs[so + l..so + n]) && x == Val(taba[ao..ao + n]) + rh * Pow(n)
    ensures RootState(old(Val(taba[ao..ao + 2 * n])), s1 * Pow(l) + q, x - q * q, Pow(n))
    ensures Outside(old(taba[..]), taba[..], ao, ao + 2 * n) && Outside(old(tabs[..]), tabs[..], so, so + n)
    decreases n, 0
  {
    hide Val, Pow, IsSqrtRem, RootState, Outside;
    ghost var A, S := taba[..], tabs[..];
    qh := MpSqrtremRec(tabs, so + l, taba, ao + 2 * l, h, tmp);
    ghost var S1, A1 := tabs[..], taba[..];
    s1 := Val(tabs[so + l..so + n]);
    qh, rh, q, x := SplitLow(tabs, so, taba, ao, n, l, h, tmp, qh, A, s1);
    OutsideBoth(A, A1, taba[..], ao, ao + 2 * l, ao + l, ao + 2 * n);
    OutsideBoth(S, S1, tabs[..], so, so + l, so, so + n);
    Beside(S1, tabs[..], so, so + l, so + n);
    assert tabs[so + l..so + n] == S1[so + l..so + n];
  }

  /** The division, with the root of the high half in place; A is what stood in taba before. */
  method SplitLow(tabs: array<Limb>, so: nat, taba: array<Limb>, ao: nat, n: nat, l: nat, h: nat, tmp: array<Limb>, qh0: Limb,
                  ghost A: seq<Limb>, ghost s1: int)
    returns (qh: Limb, rh: Limb, ghost q: int, ghost x: int)
    requires n >= 2 && l == n / 2 && h == n - l
    requires ao + 2 * n <= taba.Length && so + n <= tabs.Length && tmp.Length >= n / 2 + 1
    requires tabs != taba && tabs != tmp && taba != tmp
    requires |A| == taba.Length && A[ao + 2 * n - 1] >= QUARTER && Outside(A, taba[..], ao + 2 * l, ao + 2 * n)
    requires s1 == Val(tabs[so + l..so + n]) && qh0 <= 1
    requires IsSqrtRem(Val(A[ao + 2 * l..ao + 2 * n]), s1, Val(taba[ao + 2 * l..ao + 2 * l + h]) + qh0 * Pow(h))
    modifies tabs, taba, tmp
    ensures qh <= 1 && rh <= 1 && q == Val(tabs[so..so + l]) + qh * Pow(l) && q <= Pow(l)
    ensures x == Val(taba[ao..ao + n]) + rh * Pow(n)
    ensures RootState(Val(A[ao..ao + 2 * n]), s1 * Pow(l) + q, x - q * q, Pow(n))
    ensures Outside(old(taba[..]), taba[..], ao + l, ao + 2 * n) && Outside(old(tabs[..]), tabs[..], so, so + l)
  {
    hide Val, Pow, IsSqrtRem, RootState, DividedBy, Outside;
    ghost var A1 := taba[..];
    ghost var r1 := Val(taba[ao + 2 * l..ao + 2 * l + h]) + qh0 * Pow(h);
    HighRoot(A, ao + 2 * l, h, s1, r1);
    LowerSame(A, A1, ao, ao + 2 * l, ao + 2 * n, l);
    qh, rh := DivideByTwiceRoot(tabs, so, taba, ao, n, l, h, tmp, qh0, s1, r1);
    Beside(A1, taba[..], ao, ao + l, ao + 2 * n);
    q := Val(tabs[so..so + l]) + qh * Pow(l);
    ghost var u := Val(taba[ao + l..ao + n]) + rh * Pow(h);
    x := Val(taba[ao..ao + n]) + rh * Pow(n);
    SplitStep(A, ao, n, l, h, s1, r1, q, u, taba[..], rh, x);
  }

  method SqrtremSplit(tabs: array<Limb>, so: nat, taba: array<Limb>, ao: nat, n: nat, tmp: array<Limb>)
    returns (rh: Limb)
    requires n >= 2 && ao + 2 * n <= taba.Length && so + n <= tabs.Length && tmp.Length >= n / 2 + 1
    requires tabs != taba && tabs != tmp && taba != tmp
    requires taba[ao + 2 * n - 1] >= QUARTER
    modifies tabs, taba, tmp
    ensures IsSqrtRem(old(Val(taba[ao..ao + 2 * n])), Val(tabs[so..so + n]), Val(taba[ao..ao + n]) + rh * Pow(n))
    ensures rh <= 1
    ensures Outside(old(taba[..]), taba[..], ao, ao + 2 * n) && Outside(old(tabs[..]), tabs[..], so, so + n)
    decreases n, 1
  {
    hide Val, Pow, IsSqrtRem, RootState;
    var l := n / 2;
    var h := n - l;
    ghost var a := Val(taba[ao..ao + 2 * n]);
    var qh;
    ghost var s1, q, x;
    qh, rh, s1, q, x := SplitHigh(tabs, so, taba, ao, n, l, h, tmp);
    rh := CompleteRoot(tabs, so, taba, ao, n, l, h, qh, rh, s1, s1 * Pow(l) + q, x, q, a);
  }

  /** Adds the quotient to the root, subtracts its square, corrects. */
  method CompleteRoot(tabs: array<Limb>, so: nat, taba: array<Limb>, ao: nat, n: nat, l: nat, h: nat, qh: Limb, rh0: Limb,
                      ghost s1: int, ghost sx: int, ghost x: int, ghost q: int, ghost a: int)
    returns (rh: Limb)
    requires 1 <= l <= h && l + h == n && ao + 2 * n <= taba.Length && so + n <= tabs.Length && tabs != taba
    requires qh <= 1 && rh0 <= 1 && q == Val(tabs[so..so + l]) + qh * Pow(l) && q <= Pow(l)
    requires s1 == Val(tabs[so + l..so + n]) && sx == s1 * Pow(l) + q
    requires x == Val(taba[ao..ao + n]) + rh0 * Pow(n) && RootState(a, sx, x - q * q, Pow(n))
    modifies tabs, taba
    ensures IsSqrtRem(a, Val(tabs[so..so + n]), Val(taba[ao..ao + n]) + rh * Pow(n)) && rh <= 1
    ensures Outside(old(taba[..]), taba[..], ao, ao + 2 * n) && Outside(old(tabs[..]), tabs[..], so, so + n)
  {
    hide Val, Pow, IsSqrtRem, RootState, SignedRem;
    ghost var ks := RaiseRoot(tabs, so, n, l, h, qh, s1, sx);
    rh := SubtractSquare(tabs, so, taba, ao, n, l, qh, rh0, x, q);
    rh := FinishRoot(tabs, so, taba, ao, n, rh, sx, ks, x - q * q, a);
  }

  /** mp_sqrtrem: root in tabs, remainder in the low n + 1 limbs of taba. */
  method MpSqrtrem(tabs: array<Limb>, taba: array<Limb>, n: nat)
    requires n >= 1 && 2 * n <= taba.Length && n <= tabs.Length && tabs != taba
    requires taba[2 * n - 1] >= QUARTER
    modifies tabs, taba
    ensures IsSqrtRem(old(Val(taba[0..2 * n])), Val(tabs[0..n]), Val(taba[0..n + 1]))
    ensures taba[n] <= 1
    ensures Outside(old(taba[..]), taba[..], 0, 2 * n) && Outside(old(tabs[..]), tabs[..], 0, n)
  {
    hide Val, Pow, IsSqrtRem;
    var tmp := new Limb[n / 2 + 1];
    var rh := MpSqrtremRec(tabs, 0, taba, 0, n, tmp);
    ghost var low := taba[0..n];
    taba[n] := rh;
    assert taba[0..n] == low;
    ValSnoc(taba[..], 0, n);
  }
}
