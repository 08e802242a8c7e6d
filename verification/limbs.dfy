/** Little-endian limb sequences and the in-place carry/borrow loops over them.
    A C pointer `tab + k` is an array together with the offset `k`. */
module Limbs {
  const B: int := 0x1_0000_0000_0000_0000
  /** The value of the top bit of a limb. */
  const HALF: int := 0x8000_0000_0000_0000

  function Abs(x: int): nat {
    if x < 0 then -x else x
  }

  type Limb = x: int | 0 <= x < 0x1_0000_0000_0000_0000

  // ---------- values ----------

  ghost function Pow(n: nat): (p: int)
    ensures p >= 1
  {
    if n == 0 then 1 else B * Pow(n - 1)
  }

  /** The number a limb sequence stands for, least significant limb first. */
  ghost function Val(s: seq<Limb>): (v: int)
    ensures v >= 0
  {
    if |s| == 0 then 0 else s[0] + B * Val(s[1..])
  }

  lemma {:induction false} PowAdd(m: nat, n: nat)
    ensures Pow(m + n) == Pow(m) * Pow(n)
  {
    if m > 0 {
      PowAdd(m - 1, n);
      assert Pow(m + n) == B * Pow(m - 1 + n);
      MulAssoc(B, Pow(m - 1), Pow(n));
    }
  }

  lemma {:induction false} MulAssoc(x: int, y: int, z: int)
    ensures (x * y) * z == x * (y * z)
  {
  }

  lemma {:induction false} PowMono(m: nat, n: nat)
    requires m <= n
    ensures Pow(m) <= Pow(n)
    decreases n
  {
    if m < n {
      PowMono(m, n - 1);
    }
  }

  lemma {:induction false} ValConcat(s: seq<Limb>, t: seq<Limb>)
    ensures Val(s + t) == Val(s) + Pow(|s|) * Val(t)
  {
    if |s| == 0 {
      assert s + t == t;
    } else {
      assert (s + t)[1..] == s[1..] + t;
      ValConcat(s[1..], t);
      MulAssoc(B, Pow(|s| - 1), Val(t));
    }
  }

  lemma {:induction false} ValBound(s: seq<Limb>)
    ensures Val(s) < Pow(|s|)
  {
    if |s| > 0 {
      ValBound(s[1..]);
    }
  }

  /** A slice splits at any middle index. */
  lemma {:induction false} ValSplit(s: seq<Limb>, lo: nat, mid: nat, hi: nat)
    requires lo <= mid <= hi <= |s|
    ensures Val(s[lo..hi]) == Val(s[lo..mid]) + Pow(mid - lo) * Val(s[mid..hi])
  {
    hide Val, Pow;
    assert s[lo..hi] == s[lo..mid] + s[mid..hi];
    ValConcat(s[lo..mid], s[mid..hi]);
  }

  lemma {:induction false} Empty(s: seq<Limb>, i: nat)
    requires i <= |s|
    ensures Val(s[i..i]) == 0 && Pow(0) == 1
  {
  }

  lemma {:induction false} ValOne(s: seq<Limb>, i: nat)
    requires i < |s|
    ensures Val(s[i..i + 1]) == s[i]
  {
    assert s[i..i + 1] == [s[i]];
  }

  /** The slice grows by one limb at its high end. */
  lemma {:induction false} ValSnoc(s: seq<Limb>, lo: nat, hi: nat)
    requires lo <= hi < |s|
    ensures Val(s[lo..hi + 1]) == Val(s[lo..hi]) + s[hi] * Pow(hi - lo)
  {
    hide Val, Pow;
    ValSplit(s, lo, hi, hi + 1);
    ValOne(s, hi);
  }

  /** The slice grows by one limb at its low end. */
  lemma {:induction false} ValCons(s: seq<Limb>, lo: nat, hi: nat)
    requires lo < hi <= |s|
    ensures Val(s[lo..hi]) == s[lo] + B * Val(s[lo + 1..hi])
  {
    assert s[lo..hi][1..] == s[lo + 1..hi];
  }

  /** Nothing but the limbs lo..hi changed. */
  ghost predicate Outside(s: seq<Limb>, t: seq<Limb>, lo: int, hi: int) {
    |s| == |t| && forall k :: 0 <= k < |s| && !(lo <= k < hi) ==> s[k] == t[k]
  }

  /** The loop may write r[ro..ro+n] limb by limb while it reads a[ao..ao+n]. */
  predicate NoClobber(r: array<Limb>, ro: nat, a: array<Limb>, ao: nat, n: nat) {
    r != a || ro == ao || ro + n <= ao || ao + n <= ro
  }

  // ---------- addition and subtraction ----------

  /** Scaling one limb equation by the weight of its position; `d` is +1 or -1 times a carry. */
  lemma {:induction false} Weigh(r: int, k: int, a: int, b: int, k0: int, p: int)
    requires r + k * B == a + b + k0
    ensures r * p + k * (B * p) == a * p + b * p + k0 * p
  {
    assert (r + k * B) * p == (a + b + k0) * p;
  }

  lemma {:induction false} AddStep(r: seq<Limb>, ro: nat, a: seq<Limb>, ao: nat, b: seq<Limb>, bo: nat, i: nat, k0: int, k: int, c: int)
    requires ro + i < |r| && ao + i < |a| && bo + i < |b|
    requires Val(r[ro..ro + i]) + k0 * Pow(i) == Val(a[ao..ao + i]) + Val(b[bo..bo + i]) + c
    requires r[ro + i] + k * B == a[ao + i] + b[bo + i] + k0
    ensures Val(r[ro..ro + i + 1]) + k * Pow(i + 1) == Val(a[ao..ao + i + 1]) + Val(b[bo..bo + i + 1]) + c
  {
    hide Val;
    ValSnoc(r, ro, ro + i);
    ValSnoc(a, ao, ao + i);
    ValSnoc(b, bo, bo + i);
    Weigh(r[ro + i], k, a[ao + i], b[bo + i], k0, Pow(i));
  }

  /** One limb of the addition loop: two wrapping additions, each with its overflow test. */
  method AddLimb(v: Limb, w: Limb, carry: Limb) returns (x: Limb, k: Limb)
    requires carry <= 1
    ensures k <= 1 && x + k * B == v + w + carry
  {
    x := (v + w) % B;
    var k1: Limb := if x < v then 1 else 0;
    x := (x + carry) % B;
    k := if x < carry || k1 == 1 then 1 else 0;
  }

  method SubLimb(v: Limb, w: Limb, borrow: Limb) returns (x: Limb, k: Limb)
    requires borrow <= 1
    ensures k <= 1 && x - k * B == v - w - borrow
  {
    var d: Limb := (v - w) % B;
    var k1: Limb := if d > v then 1 else 0;
    x := (d - borrow) % B;
    k := if x > d || k1 == 1 then 1 else 0;
  }

  method MpAdd(r: array<Limb>, ro: nat, a: array<Limb>, ao: nat, b: array<Limb>, bo: nat, n: nat, carry: Limb)
    returns (k: Limb)
    requires ro + n <= r.Length && ao + n <= a.Length && bo + n <= b.Length && carry <= 1
    requires NoClobber(r, ro, a, ao, n) && NoClobber(r, ro, b, bo, n)
    modifies r
    ensures k <= 1
    ensures Val(r[ro..ro + n]) + k * Pow(n) == old(Val(a[ao..ao + n])) + old(Val(b[bo..bo + n])) + carry
    ensures Outside(old(r[..]), r[..], ro, ro + n)
  {
    hide Val, Pow;
    ghost var R0, A, C := r[..], a[..], b[..];
    Empty(R0, ro);
    Empty(A, ao);
    Empty(C, bo);
    k := carry;
    for i := 0 to n
      invariant k <= 1
      invariant Outside(R0, r[..], ro, ro + i)
      invariant Val(r[ro..ro + i]) + k * Pow(i) == Val(A[ao..ao + i]) + Val(C[bo..bo + i]) + carry
    {
      assert a[ao + i] == A[ao + i] && b[bo + i] == C[bo + i];
      ghost var k0, before := k, r[ro..ro + i];
      var x: Limb;
      x, k := AddLimb(a[ao + i], b[bo + i], k);
      r[ro + i] := x;
      assert r[ro..ro + i] == before;
      AddStep(r[..], ro, A, ao, C, bo, i, k0, k, carry);
    }
  }

  method MpSub(r: array<Limb>, ro: nat, a: array<Limb>, ao: nat, b: array<Limb>, bo: nat, n: nat, carry: Limb)
    returns (k: Limb)
    requires ro + n <= r.Length && ao + n <= a.Length && bo + n <= b.Length && carry <= 1
    requires NoClobber(r, ro, a, ao, n) && NoClobber(r, ro, b, bo, n)
    modifies r
    ensures k <= 1
    ensures Val(r[ro..ro + n]) + old(Val(b[bo..bo + n])) + carry == old(Val(a[ao..ao + n])) + k * Pow(n)
    ensures Outside(old(r[..]), r[..], ro, ro + n)
  {
    hide Val, Pow;
    ghost var R0, A, C := r[..], a[..], b[..];
    Empty(R0, ro);
    Empty(A, ao);
    Empty(C, bo);
    k := carry;
    for i := 0 to n
      invariant k <= 1
      invariant Outside(R0, r[..], ro, ro + i)
      invariant Val(A[ao..ao + i]) + k * Pow(i) == Val(r[ro..ro + i]) + Val(C[bo..bo + i]) + carry
    {
      assert a[ao + i] == A[ao + i] && b[bo + i] == C[bo + i];
      ghost var k0, before := k, r[ro..ro + i];
      var x: Limb;
      x, k := SubLimb(a[ao + i], b[bo + i], k);
      r[ro + i] := x;
      assert r[ro..ro + i] == before;
      AddStep(A, ao, r[..], ro, C, bo, i, k0, k, carry);
    }
  }

  /** Loops that stop early leave the high limbs alone. */
  lemma {:induction false} SameTail(s: seq<Limb>, t: seq<Limb>, o: nat, i: nat, n: nat)
    requires i <= n && o + n <= |s| && Outside(s, t, o, o + i)
    ensures Val(t[o..o + n]) - Val(s[o..o + n]) == Val(t[o..o + i]) - Val(s[o..o + i])
  {
    hide Val, Pow;
    ValSplit(s, o, o + i, o + n);
    ValSplit(t, o, o + i, o + n);
    assert s[o + i..o + n] == t[o + i..o + n];
  }

  lemma {:induction false} UiStep(s: seq<Limb>, t: seq<Limb>, o: nat, i: nat, b: int, k0: int, k: int)
    requires o + i < |s| == |t|
    requires Val(t[o..o + i]) + k0 * Pow(i) == Val(s[o..o + i]) + b
    requires t[o + i] + k * B == s[o + i] + k0
    ensures Val(t[o..o + i + 1]) + k * Pow(i + 1) == Val(s[o..o + i + 1]) + b
  {
    hide Val;
    ValSnoc(s, o, o + i);
    ValSnoc(t, o, o + i);
    Weigh(t[o + i], k, s[o + i], 0, k0, Pow(i));
  }

  method MpAddUi(tab: array<Limb>, o: nat, b: Limb, n: nat) returns (k: Limb)
    requires o + n <= tab.Length
    modifies tab
    ensures n > 0 ==> k <= 1
    ensures Val(tab[o..o + n]) + k * Pow(n) == old(Val(tab[o..o + n])) + b
    ensures Outside(old(tab[..]), tab[..], o, o + n)
  {
    hide Val, Pow;
    ghost var T := tab[..];
    Empty(T, o);
    k := b;
    var i := 0;
    while i < n
      invariant i <= n && (i > 0 ==> k <= 1)
      invariant Outside(T, tab[..], o, o + i)
      invariant Val(tab[o..o + i]) + k * Pow(i) == Val(T[o..o + i]) + b
    {
      if k == 0 { break; }
      ghost var k0: int, before := k, tab[o..o + i];
      var a: Limb := (tab[o + i] + k) % B;
      k := if a < k then 1 else 0;
      assert a + k * B == k0 + T[o + i];
      tab[o + i] := a;
      assert tab[o..o + i] == before;
      UiStep(T, tab[..], o, i, b, k0, k);
      i := i + 1;
    }
    if k == 0 { SameTail(T, tab[..], o, i, n); }
  }

  method MpSubUi(tab: array<Limb>, o: nat, b: Limb, n: nat) returns (k: Limb)
    requires o + n <= tab.Length
    modifies tab
    ensures n > 0 ==> k <= 1
    ensures n == 0 ==> k == b
    ensures Val(tab[o..o + n]) + b == old(Val(tab[o..o + n])) + k * Pow(n)
    ensures Outside(old(tab[..]), tab[..], o, o + n)
  {
    hide Val, Pow;
    ghost var T := tab[..];
    Empty(T, o);
    k := b;
    var i := 0;
    while i < n
      invariant i <= n && (i > 0 ==> k <= 1) && (i == 0 ==> k == b)
      invariant Outside(T, tab[..], o, o + i)
      invariant Val(T[o..o + i]) + k * Pow(i) == Val(tab[o..o + i]) + b
    {
      ghost var k0, before := k, tab[o..o + i];
      var v := tab[o + i];
      var a: Limb := (v - k) % B;
      k := if a > v then 1 else 0;
      assert T[o + i] + k * B == a + k0;
      tab[o + i] := a;
      assert tab[o..o + i] == before;
      UiStep(tab[..], T, o, i, b, k0, k);
      i := i + 1;
      if k == 0 { break; }
    }
    if k == 0 { SameTail(T, tab[..], o, i, n); }
  }

  /** 0 - op2. */
  method MpNeg(r: array<Limb>, ro: nat, a: array<Limb>, ao: nat, n: nat, carry: Limb) returns (k: Limb)
    requires ro + n <= r.Length && ao + n <= a.Length && carry <= 1
    requires NoClobber(r, ro, a, ao, n)
    modifies r
    ensures k <= 1
    ensures Val(r[ro..ro + n]) + old(Val(a[ao..ao + n])) + carry == k * Pow(n)
    ensures Outside(old(r[..]), r[..], ro, ro + n)
  {
    hide Val, Pow;
    ghost var R0, A := r[..], a[..];
    Empty(R0, ro);
    Empty(A, ao);
    k := carry;
    for i := 0 to n
      invariant k <= 1
      invariant Outside(R0, r[..], ro, ro + i)
      invariant Val(r[ro..ro + i]) + Val(A[ao..ao + i]) + carry == k * Pow(i)
    {
      assert a[ao + i] == A[ao + i];
      ghost var k0, before := k, r[ro..ro + i];
      var x: Limb;
      x, k := SubLimb(0, a[ao + i], k);
      r[ro + i] := x;
      assert r[ro..ro + i] == before;
      NegStep(r[..], ro, A, ao, i, k0, k, carry);
    }
  }

  lemma {:induction false} NegStep(r: seq<Limb>, ro: nat, a: seq<Limb>, ao: nat, i: nat, k0: int, k: int, c: int)
    requires ro + i < |r| && ao + i < |a|
    requires Val(r[ro..ro + i]) + Val(a[ao..ao + i]) + c == k0 * Pow(i)
    requires k * B == r[ro + i] + a[ao + i] + k0
    ensures Val(r[ro..ro + i + 1]) + Val(a[ao..ao + i + 1]) + c == k * Pow(i + 1)
  {
    hide Val;
    ValSnoc(r, ro, ro + i);
    ValSnoc(a, ao, ao + i);
    Weigh(0, k, r[ro + i], a[ao + i], k0, Pow(i));
  }

  // ---------- shifting ----------

  function Two(n: nat): (p: int)
    ensures p >= 1
  {
    if n == 0 then 1 else 2 * Two(n - 1)
  }

  lemma {:induction false} TwoAdd(m: nat, n: nat)
    ensures Two(m + n) == Two(m) * Two(n)
  {
    if m > 0 {
      TwoAdd(m - 1, n);
      assert Two(m + n) == 2 * Two(m - 1 + n);
      MulAssoc(2, Two(m - 1), Two(n));
    }
  }

  lemma {:induction false} TwoSixtyFour()
    ensures Two(64) == B
  {
    var w := Two(8);
    assert w == 256;
    hide Two;
    TwoAdd(8, 8);
    TwoAdd(16, 16);
    TwoAdd(32, 32);
  }

  lemma {:induction false} TwoLimb(s: nat)
    requires s <= 64
    ensures Two(s) * Two(64 - s) == B
  {
    hide Two;
    TwoAdd(s, 64 - s);
    TwoSixtyFour();
  }

  /** A right shift: the two halves of the `|` occupy disjoint bits, so it is a sum. */
  function ShiftIn(a: Limb, l: Limb, s: nat): (r: Limb)
    requires 1 <= s < 64
    ensures Two(s) * r + a % Two(s) == a + B * (l % Two(s))
  {
    TwoLimb(s);
    ShiftBound(a, l, Two(s), Two(64 - s));
    a / Two(s) + (l % Two(s)) * Two(64 - s)
  }

  lemma {:induction false} ShiftBound(a: int, l: int, p: int, q: int)
    requires p >= 1 && q >= 1 && p * q == B && 0 <= a < B && 0 <= l
    ensures 0 <= a / p + (l % p) * q < B
    ensures p * (a / p + (l % p) * q) + a % p == a + B * (l % p)
  {
    var d, m := a / p, l % p;
    DivMod(a, p);
    DivLess(a, p, q);
    assert 0 <= m <= p - 1;
    MulMono(m, p - 1, q);
    assert (p - 1) * q == B - q;
    MulAssoc3(p, m, q);
  }

  lemma {:induction false} MulAssoc3(p: int, m: int, q: int)
    ensures p * (m * q) == (p * q) * m
  {
  }

  lemma {:induction false} DivMod(a: int, p: int)
    requires p > 0
    ensures a == p * (a / p) + a % p && 0 <= a % p < p
  {
  }

  lemma {:induction false} SmallMod(a: int, p: int)
    requires 0 <= a < p
    ensures a % p == a
  {
  }

  lemma {:induction false} DivLess(a: int, p: int, q: int)
    requires p > 0 && 0 <= a < p * q
    ensures 0 <= a / p < q
  {
    if a / p >= q { MulMono(q, a / p, p); DivMod(a, p); }
    if a / p < 0 { MulMono(a / p, -1, p); DivMod(a, p); }
  }

  lemma {:induction false} MulMono(x: int, y: int, p: int)
    requires x <= y && p >= 0
    ensures x * p <= y * p
  {
    assert 0 <= (y - x) * p;
  }

  /** r = (a + high * B^n) >> shift; the bits shifted out are returned. */
  method MpShr(r: array<Limb>, ro: nat, a: array<Limb>, ao: nat, n: nat, shift: nat, high: Limb) returns (rem: Limb)
    requires ro + n <= r.Length && ao + n <= a.Length && 1 <= shift < 64 && high < Two(shift)
    requires NoClobber(r, ro, a, ao, n)
    modifies r
    ensures Two(shift) * Val(r[ro..ro + n]) + rem == old(Val(a[ao..ao + n])) + high * Pow(n)
    ensures 0 <= rem < Two(shift)
    ensures Outside(old(r[..]), r[..], ro, ro + n)
  {
    hide Val, Pow, ShiftIn, Two;
    ghost var R0, A, p := r[..], a[..], Two(shift);
    Empty(R0, ro + n);
    Empty(A, ao + n);
    SmallMod(high, p);
    var l: Limb := high;
    var i := n;
    while i > 0
      invariant 0 <= i <= n
      invariant Outside(R0, r[..], ro + i, ro + n)
      invariant p * Val(r[ro + i..ro + n]) + l % p == Val(A[ao + i..ao + n]) + high * Pow(n - i)
    {
      i := i - 1;
      assert a[ao + i] == A[ao + i];
      ghost var l0, after := l, r[ro + i + 1..ro + n];
      var x: Limb := a[ao + i];
      r[ro + i] := ShiftIn(x, l, shift);
      l := x;
      assert r[ro + i + 1..ro + n] == after;
      ShrStep(r[..], ro, A, ao, i, n, p, l0, high);
    }
    DivMod(l, p);
    MulMono(1, Two(64 - shift), p);
    TwoLimb(shift);
    rem := l % Two(shift);
  }

  lemma {:induction false} PowStep(n: nat)
    requires n > 0
    ensures Pow(n) == B * Pow(n - 1)
  {
  }

  lemma {:induction false} ShrStep(r: seq<Limb>, ro: nat, a: seq<Limb>, ao: nat, i: nat, n: nat, p: int, l0: int, high: int)
    requires i < n && ro + n <= |r| && ao + n <= |a| && p > 0
    requires p * Val(r[ro + i + 1..ro + n]) + l0 % p == Val(a[ao + i + 1..ao + n]) + high * Pow(n - i - 1)
    requires p * r[ro + i] + a[ao + i] % p == a[ao + i] + B * (l0 % p)
    ensures p * Val(r[ro + i..ro + n]) + a[ao + i] % p == Val(a[ao + i..ao + n]) + high * Pow(n - i)
  {
    hide Val, Pow;
    ValCons(r, ro + i, ro + n);
    ValCons(a, ao + i, ao + n);
    var x, y, q := Val(r[ro + i + 1..ro + n]), Val(a[ao + i + 1..ao + n]), Pow(n - i - 1);
    PowStep(n - i);
  }
}
