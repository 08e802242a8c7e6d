/** Multiply-and-accumulate loops: one limb times a number, and the schoolbook product. */
module Products {
  import opened Limbs

  lemma {:induction false} ProductBound(a: Limb, b: Limb)
    ensures 0 <= a * b <= (B - 1) * (B - 1)
  {
    Square(a, b, B - 1);
  }

  lemma {:induction false} Square(a: int, b: int, m: int)
    requires 0 <= a <= m && 0 <= b <= m
    ensures 0 <= a * b <= m * m
  {
    MulMono(0, a, b);
    MulMono(a, m, b);
    MulMono(b, m, m);
  }

  /** Splitting a double-limb value into its two halves. */
  method Halves(t: int) returns (lo: Limb, hi: Limb)
    requires 0 <= t < B * B
    ensures t == lo + B * hi
  {
    lo, hi := t % B, t / B;
  }

  /** The weighted form of r[i] + k * B = a[i] * b + c + k0. */
  lemma {:induction false} MulWeigh(r: int, k: int, a: int, b: int, c: int, k0: int, p: int)
    requires r + k * B == a * b + c + k0
    ensures r * p + k * (B * p) == (a * p) * b + c * p + k0 * p
  {
    assert (r + k * B) * p == (a * b + c + k0) * p;
    assert (a * b) * p == (a * p) * b;
  }

  lemma {:induction false} MulStep(r: seq<Limb>, ro: nat, a: seq<Limb>, ao: nat, c: seq<Limb>, co: nat, i: nat, b: int, k0: int, k: int, l: int)
    requires ro + i < |r| && ao + i < |a| && co + i < |c|
    requires Val(r[ro..ro + i]) + k0 * Pow(i) == Val(a[ao..ao + i]) * b + Val(c[co..co + i]) + l
    requires r[ro + i] + k * B == a[ao + i] * b + c[co + i] + k0
    ensures Val(r[ro..ro + i + 1]) + k * Pow(i + 1) == Val(a[ao..ao + i + 1]) * b + Val(c[co..co + i + 1]) + l
  {
    hide Val, Pow;
    ValSnoc(r, ro, ro + i);
    ValSnoc(a, ao, ao + i);
    ValSnoc(c, co, co + i);
    PowStep(i + 1);
    MulWeigh(r[ro + i], k, a[ao + i], b, c[co + i], k0, Pow(i));
  }

  ghost function Zeros(n: nat): (s: seq<Limb>)
    ensures |s| == n && Val(s) == 0
  {
    if n == 0 then [] else [0] + Zeros(n - 1)
  }

  lemma {:induction false} ZerosAt(n: nat, i: nat)
    requires i < n
    ensures Zeros(n)[i] == 0 && Val(Zeros(n)[0..i]) == 0
  {
    if i == 0 {
    } else {
      ZerosAt(n - 1, i - 1);
      assert Zeros(n)[0..i][1..] == Zeros(n - 1)[0..i - 1];
    }
  }

  /** tabr[] = taba[] * b + l; returns the high limb. */
  method MpMul1(r: array<Limb>, ro: nat, a: array<Limb>, ao: nat, n: nat, b: Limb, l: Limb) returns (k: Limb)
    requires ro + n <= r.Length && ao + n <= a.Length
    requires NoClobber(r, ro, a, ao, n)
    modifies r
    ensures Val(r[ro..ro + n]) + k * Pow(n) == old(Val(a[ao..ao + n])) * b + l
    ensures Outside(old(r[..]), r[..], ro, ro + n)
  {
    hide Val, Pow, Zeros;
    ghost var R0, A, Z := r[..], a[..], Zeros(n);
    Empty(R0, ro);
    Empty(A, ao);
    Empty(Z, 0);
    k := l;
    for i := 0 to n
      invariant Outside(R0, r[..], ro, ro + i)
      invariant Val(r[ro..ro + i]) + k * Pow(i) == Val(A[ao..ao + i]) * b + Val(Z[0..i]) + l
    {
      assert a[ao + i] == A[ao + i];
      ghost var k0, before := k, r[ro..ro + i];
      ProductBound(a[ao + i], b);
      var t: int := a[ao + i] * b + k;
      var x: Limb;
      x, k := Halves(t);
      r[ro + i] := x;
      assert r[ro..ro + i] == before;
      ZerosAt(n, i);
      MulStep(r[..], ro, A, ao, Z, 0, i, b, k0, k, l);
    }
    assert Z[0..n] == Z;
  }

  /** tabr[] += taba[] * b; returns the high limb. */
  method MpAddMul1(r: array<Limb>, ro: nat, a: array<Limb>, ao: nat, n: nat, b: Limb) returns (k: Limb)
    requires ro + n <= r.Length && ao + n <= a.Length
    requires NoClobber(r, ro, a, ao, n)
    modifies r
    ensures Val(r[ro..ro + n]) + k * Pow(n) == old(Val(r[ro..ro + n])) + old(Val(a[ao..ao + n])) * b
    ensures Outside(old(r[..]), r[..], ro, ro + n)
  {
    hide Val, Pow;
    ghost var R0, A := r[..], a[..];
    Empty(R0, ro);
    Empty(A, ao);
    k := 0;
    for i := 0 to n
      invariant Outside(R0, r[..], ro, ro + i)
      invariant Val(r[ro..ro + i]) + k * Pow(i) == Val(A[ao..ao + i]) * b + Val(R0[ro..ro + i])
    {
      assert a[ao + i] == A[ao + i] && r[ro + i] == R0[ro + i];
      ghost var k0, before := k, r[ro..ro + i];
      ProductBound(a[ao + i], b);
      var t: int := a[ao + i] * b + k + r[ro + i];
      var x: Limb;
      x, k := Halves(t);
      r[ro + i] := x;
      assert r[ro..ro + i] == before;
      MulStep(r[..], ro, A, ao, R0, ro, i, b, k0, k, 0);
    }
  }

  /** One limb of tabr[] -= taba[] * b, computed modulo B^2 as the double limb type does. */
  method SubMulLimb(r: Limb, a: Limb, b: Limb, l: Limb) returns (x: Limb, k: Limb)
    ensures r + k * B == a * b + x + l
  {
    ProductBound(a, b);
    var p: int := a * b;
    x, k := SubHalves(r, p, l);
  }

  method SubHalves(r: Limb, p: int, l: Limb) returns (x: Limb, k: Limb)
    requires 0 <= p <= (B - 1) * (B - 1)
    ensures r + k * B == p + x + l
  {
    var t: int := (r - p - l) % (B * B);
    assert t == r - p - l || t == r - p - l + B * B;
    var hi: Limb;
    x, hi := Halves(t);
    k := (0 - hi) % B;
  }

  /** tabr[] -= taba[] * b; returns the value to subtract from the high limb. */
  method MpSubMul1(r: array<Limb>, ro: nat, a: array<Limb>, ao: nat, n: nat, b: Limb) returns (k: Limb)
    requires ro + n <= r.Length && ao + n <= a.Length
    requires NoClobber(r, ro, a, ao, n)
    modifies r
    ensures old(Val(r[ro..ro + n])) + k * Pow(n) == old(Val(a[ao..ao + n])) * b + Val(r[ro..ro + n])
    ensures Outside(old(r[..]), r[..], ro, ro + n)
  {
    hide Val, Pow;
    ghost var R0, A := r[..], a[..];
    Empty(R0, ro);
    Empty(A, ao);
    k := 0;
    for i := 0 to n
      invariant Outside(R0, r[..], ro, ro + i)
      invariant Val(R0[ro..ro + i]) + k * Pow(i) == Val(A[ao..ao + i]) * b + Val(r[ro..ro + i])
    {
      assert a[ao + i] == A[ao + i] && r[ro + i] == R0[ro + i];
      ghost var k0, before := k, r[ro..ro + i];
      var x: Limb;
      x, k := SubMulLimb(r[ro + i], a[ao + i], b, k);
      r[ro + i] := x;
      assert r[ro..ro + i] == before;
      MulStep(R0, ro, A, ao, r[..], ro, i, b, k0, k, 0);
    }
  }

  /** One more row of the schoolbook product. */
  lemma {:induction false} RowStep(s: seq<Limb>, t: seq<Limb>, ro: nat, n: nat, i: nat, va: int, b: seq<Limb>, bo: nat, k: Limb)
    requires ro + i + n < |s| == |t| && bo + i < |b|
    requires Outside(s, t, ro + i, ro + i + n + 1)
    requires Val(s[ro..ro + i + n]) == va * Val(b[bo..bo + i])
    requires t[ro + i + n] == k
    requires Val(t[ro + i..ro + i + n]) + k * Pow(n) == Val(s[ro + i..ro + i + n]) + va * b[bo + i]
    ensures Val(t[ro..ro + i + n + 1]) == va * Val(b[bo..bo + i + 1])
  {
    hide Val, Pow;
    ValSplit(s, ro, ro + i, ro + i + n);
    ValSplit(t, ro, ro + i, ro + i + n + 1);
    ValSnoc(t, ro + i, ro + i + n);
    ValSnoc(b, bo, bo + i);
    assert s[ro..ro + i] == t[ro..ro + i];
    RowIdentity(Pow(i), Val(s[ro + i..ro + i + n]), va, b[bo + i], Val(b[bo..bo + i]));
  }

  lemma {:induction false} RowIdentity(p: int, x: int, va: int, b: int, y: int)
    ensures p * (x + va * b) == p * x + (va * (y + b * p) - va * y)
  {
  }

  /** mp_mul_basecase: the product, row by row. */
  method MpMulBasecase(r: array<Limb>, ro: nat, a: array<Limb>, ao: nat, n: nat, b: array<Limb>, bo: nat, m: nat)
    requires ro + n + m <= r.Length && ao + n <= a.Length && bo + m <= b.Length
    requires r != a && r != b && m >= 1
    modifies r
    ensures Val(r[ro..ro + n + m]) == Val(a[ao..ao + n]) * Val(b[bo..bo + m])
    ensures Outside(old(r[..]), r[..], ro, ro + n + m)
  {
    hide Val, Pow;
    ghost var R0, va := r[..], Val(a[ao..ao + n]);
    var k := MpMul1(r, ro, a, ao, n, b[bo], 0);
    ghost var before := r[ro..ro + n];
    r[ro + n] := k;
    assert r[ro..ro + n] == before;
    ValSnoc(r[..], ro, ro + n);
    ValOne(b[..], bo);
    for i := 1 to m
      invariant Outside(R0, r[..], ro, ro + n + i)
      invariant Val(r[ro..ro + i + n]) == va * Val(b[bo..bo + i])
    {
      ghost var S := r[..];
      k := MpAddMul1(r, ro + i, a, ao, n, b[bo + i]);
      ghost var row := r[ro + i..ro + i + n];
      r[ro + i + n] := k;
      assert r[ro + i..ro + i + n] == row;
      RowStep(S, r[..], ro, n, i, va, b[..], bo, k);
    }
  }
}
