/** ntt_static_init: the tables of the transform, for every prime, from the constants alone. */
module FftTables {
  import opened Limbs
  import opened Modular
  import opened Fourier
  import opened NttArith
  import opened Ntt
  import opened FftRoots

  /** What is kept for one prime: the roots of all orders, and 1 / 2^i with its prepared form. */
  datatype ModTables = ModTables(m: Limb, mInv: Limb, fwd: Roots, back: Roots, lenInv: seq<Limb>, lenInv2: seq<Limb>)

  /** crInv holds the inverses of the primes, prepared for multiplication. */
  datatype BFNTTState = BFNTTState(mods: seq<ModTables>, crInv: seq<Limb>)

  ghost predicate LenInvAt(t: ModTables, i: nat)
    requires IsModulus(t.m)
  {
    && i < |t.lenInv| && i < |t.lenInv2| && t.lenInv[i] < t.m && t.lenInv2[i] == InitMulModFast2(t.lenInv[i], t.m)
    && Eq(t.lenInv[i] * Two(i), 1, t.m)
  }

  ghost predicate ModTablesOk(t: ModTables, j: nat) {
    && j < NB_MODS && t.m == NTT_MODS[j] && IsModulus(t.m) && t.mInv == InitMulModFast(t.m)
    && RootsOk(t.fwd, NTT_PROOT_2EXP, t.m) && RootsOk(t.back, NTT_PROOT_2EXP, t.m)
    && Inverse(t.fwd.pow, t.back.pow, NTT_PROOT_2EXP, t.m)
    && forall i :: 0 <= i <= NTT_PROOT_2EXP ==> LenInvAt(t, i)
  }

  ghost predicate CrInvAt(s: BFNTTState, j: nat, k: nat)
    requires j < k < NB_MODS
  {
    var l := PairIndex(j, k);
    l < |s.crInv| && NTT_MODS_CR[l] < NTT_MODS[k] && s.crInv[l] == InitMulModFast2(NTT_MODS_CR[l], NTT_MODS[k])
  }

  ghost predicate StateOk(s: BFNTTState) {
    && |s.mods| == NB_MODS && (forall j :: 0 <= j < NB_MODS ==> ModTablesOk(s.mods[j], j))
    && forall j, k :: 0 <= j < k < NB_MODS ==> CrInvAt(s, j, k)
  }

  /** The tables serve transforms of every length up to 2^51. */
  lemma {:induction false} TablesReady(s: BFNTTState, j: nat, k: nat)
    requires StateOk(s) && j < NB_MODS && 1 <= k <= NTT_PROOT_2EXP
    ensures |s.mods| == NB_MODS
    ensures var t := s.mods[j];
            t.m == NTT_MODS[j] && k < |t.lenInv| && k < |t.lenInv2|
            && TablesOk(t.fwd, t.back, t.lenInv[k], t.lenInv2[k], t.m, t.mInv, k)
  {
    hide Eq, InitMulModFast, InitMulModFast2;
    var t := s.mods[j];
    assert ModTablesOk(t, j);
    assert LenInvAt(t, k);
    LevelOk(t.fwd, t.back, NTT_PROOT_2EXP, k, t.m);
  }

  lemma {:induction false} PrimeIsModulus(j: nat)
    requires j < NB_MODS
    ensures IsModulus(NTT_MODS[j])
  {
    if j > 0 { PrimesSorted(0, j); } else { PrimesSorted(0, 1); }
  }

  lemma {:induction false} EqIsMod(r: int, x: int, m: int)
    requires 0 <= r < m && Eq(r, x, m)
    ensures r == x % m
  {
    var k :| r == x + Times(m, k);
    assert x == m * (-k) + r;
    ModUnique(x, m, -k, r);
  }

  lemma {:induction false} ModEq(x: int, m: int)
    requires m > 0
    ensures Eq(x % m, x, m) && Eq(x, x % m, m)
  {
    EqBy(x, x % m, m, x / m);
    EqSym(x, x % m, m);
  }

  // ---------- the roots ----------

  /** The root of order 2^(51 - i) is the given one squared i times. */
  ghost predicate RootAt(pow: seq<Limb>, inv: seq<Limb>, root: int, m: Limb, i: nat)
    requires m > 0 && i < NTT_PROOT_2EXP
  {
    var k := NTT_PROOT_2EXP - i;
    k < |pow| && k < |inv| && pow[k] == SquareChain(root, i, m) && pow[k] < m && inv[k] == InitMulModFast2(pow[k], m)
  }

  method SquareMod(c: Limb, m: Limb, mInv: Limb) returns (d: Limb)
    requires IsModulus(m) && mInv == InitMulModFast(m) && c < m
    ensures d < m && d == c as int * c % m
  {
    hide Eq, InitMulModFast;
    d := MulModFast(c, c, m, mInv);
    EqIsMod(d, c as int * c, m);
  }

  method FillRoots(root: Limb, m: Limb, mInv: Limb) returns (r: Roots)
    requires IsModulus(m) && mInv == InitMulModFast(m) && root < m && SquareChain(root, 50, m) == m - 1
    ensures RootsOk(r, NTT_PROOT_2EXP, m)
    ensures forall i :: 0 <= i < NTT_PROOT_2EXP ==> RootAt(r.pow, r.inv, root, m, i)
  {
    hide Eq, InitMulModFast, InitMulModFast2, SquareChain, RootsOk, RootAt;
    var pow, inv := new Limb[NTT_PROOT_2EXP + 1], new Limb[NTT_PROOT_2EXP + 1];
    pow[0], inv[0] := 0, 0;
    var c: Limb := root;
    ChainEnd(root, m);
    var i := 0;
    while i < NTT_PROOT_2EXP
      invariant 0 <= i <= NTT_PROOT_2EXP && c < m && c == SquareChain(root, i, m) && pow[0] == 0 && inv[0] == 0
      invariant forall j :: 0 <= j < i ==> RootAt(pow[..], inv[..], root, m, j)
    {
      ghost var p0, v0 := pow[..], inv[..];
      pow[NTT_PROOT_2EXP - i] := c;
      inv[NTT_PROOT_2EXP - i] := InitMulModFast2(c, m);
      RootsKept(p0, v0, pow[..], inv[..], root, m, i, c);
      c := SquareMod(c, m, mInv);
      ChainNext(root, i, m);
      i := i + 1;
    }
    r := Roots(pow[..], inv[..]);
    RootsFilled(r, root, m);
  }

  lemma {:induction false} RootsKept(p0: seq<Limb>, v0: seq<Limb>, p: seq<Limb>, v: seq<Limb>, root: int, m: Limb, i: nat, c: Limb)
    requires IsModulus(m) && i < NTT_PROOT_2EXP && |p0| == |v0| == NTT_PROOT_2EXP + 1 && c < m && c == SquareChain(root, i, m)
    requires p == p0[NTT_PROOT_2EXP - i := c] && v == v0[NTT_PROOT_2EXP - i := InitMulModFast2(c, m)]
    requires forall j :: 0 <= j < i ==> RootAt(p0, v0, root, m, j)
    ensures forall j :: 0 <= j <= i ==> RootAt(p, v, root, m, j)
  {
    hide InitMulModFast2, SquareChain;
    forall j | 0 <= j <= i ensures RootAt(p, v, root, m, j) {
      if j < i { assert RootAt(p0, v0, root, m, j); }
    }
  }

  lemma {:induction false} RootsFilled(r: Roots, root: int, m: Limb)
    requires IsModulus(m) && SquareChain(root, 50, m) == m - 1
    requires |r.pow| == |r.inv| == NTT_PROOT_2EXP + 1 && r.pow[0] == 0 && r.inv[0] == 0
    requires forall i :: 0 <= i < NTT_PROOT_2EXP ==> RootAt(r.pow, r.inv, root, m, i)
    ensures RootsOk(r, NTT_PROOT_2EXP, m)
  {
    hide Eq, SquareChain, InitMulModFast2;
    assert RootAt(r.pow, r.inv, root, m, 50);
    EqBy(r.pow[1], -1, m, 1);
    forall i | 2 <= i <= NTT_PROOT_2EXP ensures Squares(r.pow, i, m) {
      RootSquares(r, root, m, i);
    }
    ZeroPrepared(m);
    forall i | 0 <= i <= NTT_PROOT_2EXP ensures Prepared(r, i, m) {
      if i > 0 { assert RootAt(r.pow, r.inv, root, m, NTT_PROOT_2EXP - i); }
    }
  }

  lemma {:induction false} RootSquares(r: Roots, root: int, m: Limb, i: nat)
    requires m > 0 && 2 <= i <= NTT_PROOT_2EXP && |r.pow| == |r.inv| == NTT_PROOT_2EXP + 1
    requires RootAt(r.pow, r.inv, root, m, NTT_PROOT_2EXP - i) && RootAt(r.pow, r.inv, root, m, NTT_PROOT_2EXP - i + 1)
    ensures Squares(r.pow, i, m)
  {
    hide Eq, SquareChain, InitMulModFast2;
    ChainNext(root, NTT_PROOT_2EXP - i, m);
    ModEq(r.pow[i] as int * r.pow[i], m);
  }

  lemma {:induction false} ZeroPrepared(m: Limb)
    requires m > 0
    ensures InitMulModFast2(0, m) == 0
  {
    assert 0 * B == 0;
  }

  /** Squaring keeps two numbers inverse to each other. */
  lemma {:induction false} ChainsInvert(p: int, q: int, n: nat, m: int)
    requires m > 1 && p * q % m == 1
    ensures SquareChain(p, n, m) * SquareChain(q, n, m) % m == 1
    decreases n
  {
    hide SquareChain;
    ChainEnd(p, m);
    ChainEnd(q, m);
    if n > 0 {
      ChainsInvert(p, q, n - 1, m);
      ChainNext(p, n - 1, m);
      ChainNext(q, n - 1, m);
      SquaresInvert(SquareChain(p, n - 1, m), SquareChain(q, n - 1, m), m);
    }
  }

  lemma {:induction false} SquaresInvert(p: int, q: int, m: int)
    requires m > 1 && p * q % m == 1
    ensures (p * p % m) * (q * q % m) % m == 1
  {
    hide Eq;
    var x, y := p * p % m, q * q % m;
    ModEq(p * p, m);
    ModEq(q * q, m);
    ModEq(p * q, m);
    EqMul(x, p * p, y, q * q, m);
    EqMul(p * q, 1, p * q, 1, m);
    ProductStep(p, p, q, q);
    SquareProduct(p, q);
    EqTrans(x * y, (p * q) * (p * q), 1, m);
    EqSym(x * y, 1, m);
    EqIsMod(1, x * y, m);
  }

  lemma {:induction false} SquareProduct(p: int, q: int)
    ensures (p * p) * (q * q) == (p * q) * (p * q)
  {
    ProductStep(p, p, q, q);
  }

  // ---------- one prime ----------

  /** 1 / 2^i for every i. */
  method FillLengths(m: Limb, mInv: Limb) returns (lenInv: seq<Limb>, lenInv2: seq<Limb>)
    requires IsModulus(m) && m % 2 == 1 && mInv == InitMulModFast(m)
    ensures |lenInv| == |lenInv2| == NTT_PROOT_2EXP + 1
    ensures forall i :: 0 <= i <= NTT_PROOT_2EXP ==>
              lenInv[i] < m && lenInv2[i] == InitMulModFast2(lenInv[i], m) && Eq(lenInv[i] * Two(i), 1, m)
  {
    hide Eq, InitMulModFast, InitMulModFast2, Two;
    var cInv2: Limb := (m + 1) / 2;
    var cInv: Limb := 1;
    lenInv, lenInv2 := [], [];
    HalfStart(m);
    var i := 0;
    while i <= NTT_PROOT_2EXP
      invariant 0 <= i <= NTT_PROOT_2EXP + 1 && |lenInv| == |lenInv2| == i && cInv < m && Eq(cInv * Two(i), 1, m)
      invariant forall j :: 0 <= j < i ==>
                  lenInv[j] < m && lenInv2[j] == InitMulModFast2(lenInv[j], m) && Eq(lenInv[j] * Two(j), 1, m)
    {
      lenInv := lenInv + [cInv];
      lenInv2 := lenInv2 + [InitMulModFast2(cInv, m)];
      ghost var c0 := cInv;
      cInv := MulModFast(cInv, cInv2, m, mInv);
      HalfStep(c0, cInv, cInv2, i, m);
      i := i + 1;
    }
  }

  lemma {:induction false} HalfStart(m: int)
    requires m > 0
    ensures Eq(1 * Two(0), 1, m)
  {
    EqSelf(1, m);
  }

  lemma {:induction false} HalfStep(c: int, d: int, half: int, i: nat, m: int)
    requires m > 0 && Eq(c * Two(i), 1, m) && Eq(d, c * half, m) && 2 * half == m + 1
    ensures Eq(d * Two(i + 1), 1, m)
  {
    hide Eq;
    var p := Two(i);
    assert Two(i + 1) == 2 * p;
    EqSelf(2 * p, m);
    EqMul(d, c * half, 2 * p, 2 * p, m);
    EqBy(2 * half, 1, m, 1);
    EqMul(c * p, 1, 2 * half, 1, m);
    ProductStep(c, half, p, 2);
    HalfIdentity(c, half, p);
    EqTrans(d * (2 * p), (c * p) * (2 * half), 1, m);
  }

  lemma {:induction false} HalfIdentity(c: int, half: int, p: int)
    ensures (c * half) * (2 * p) == (c * p) * (2 * half)
  {
    ProductStep(c, half, 2, p);
    ProductStep(c, p, 2, half);
  }

  method InitModulus(j: nat) returns (t: ModTables)
    requires j < NB_MODS
    ensures ModTablesOk(t, j)
  {
    hide Eq, InitMulModFast, InitMulModFast2, SquareChain, RootsOk, Two;
    PrimeIsModulus(j);
    var m := NTT_MODS[j];
    var mInv := InitMulModFast(m);
    var lenInv, lenInv2 := FillLengths(m, mInv);
    RootTurns(0, j);
    RootTurns(1, j);
    var fwd := FillRoots(NTT_PROOT[0][j], m, mInv);
    var back := FillRoots(NTT_PROOT[1][j], m, mInv);
    t := ModTables(m, mInv, fwd, back, lenInv, lenInv2);
    RootsReciprocal(fwd, back, j);
  }

  lemma {:induction false} RootsReciprocal(fwd: Roots, back: Roots, j: nat)
    requires j < NB_MODS
    requires forall i :: 0 <= i < NTT_PROOT_2EXP ==> RootAt(fwd.pow, fwd.inv, NTT_PROOT[0][j], NTT_MODS[j], i)
    requires forall i :: 0 <= i < NTT_PROOT_2EXP ==> RootAt(back.pow, back.inv, NTT_PROOT[1][j], NTT_MODS[j], i)
    ensures Inverse(fwd.pow, back.pow, NTT_PROOT_2EXP, NTT_MODS[j])
  {
    hide Eq, SquareChain, InitMulModFast2;
    var m := NTT_MODS[j];
    PrimeIsModulus(j);
    RootsInvert(j);
    assert RootAt(fwd.pow, fwd.inv, NTT_PROOT[0][j], m, 0) && RootAt(back.pow, back.inv, NTT_PROOT[1][j], m, 0);
    forall i | 1 <= i <= NTT_PROOT_2EXP ensures i < |fwd.pow| && i < |back.pow| && Reciprocal(fwd.pow, back.pow, i, m) {
      assert RootAt(fwd.pow, fwd.inv, NTT_PROOT[0][j], m, NTT_PROOT_2EXP - i);
      assert RootAt(back.pow, back.inv, NTT_PROOT[1][j], m, NTT_PROOT_2EXP - i);
      ChainsInvert(NTT_PROOT[0][j], NTT_PROOT[1][j], NTT_PROOT_2EXP - i, m);
      ModEq(fwd.pow[i] as int * back.pow[i], m);
    }
  }

  // ---------- all of them ----------

  /** ntt_static_init */
  method NttStaticInit() returns (s: BFNTTState)
    ensures StateOk(s)
  {
    hide ModTablesOk, InitMulModFast2;
    var mods: seq<ModTables>, crInv: seq<Limb> := [], [];
    var j := 0;
    while j < NB_MODS
      invariant 0 <= j <= NB_MODS && |mods| == j && forall i :: 0 <= i < j ==> ModTablesOk(mods[i], i)
    {
      var t := InitModulus(j);
      mods := mods + [t];
      j := j + 1;
    }
    j := 0;
    while j < NB_MODS - 1
      invariant 0 <= j <= NB_MODS - 1 && |crInv| == (if j < NB_MODS - 1 then PairIndex(j, j + 1) else 10)
      invariant forall i, k :: 0 <= i < j && i < k < NB_MODS ==> CrInvAt(BFNTTState(mods, crInv), i, k)
    {
      var k := j + 1;
      while k < NB_MODS
        invariant j + 1 <= k <= NB_MODS && |crInv| == PairIndex(j, j + 1) + (k - (j + 1))
        invariant forall i, l :: 0 <= i < j && i < l < NB_MODS ==> CrInvAt(BFNTTState(mods, crInv), i, l)
        invariant forall l :: j < l < k ==> CrInvAt(BFNTTState(mods, crInv), j, l)
      {
        PrimesInvert(j, k);
        ghost var before := BFNTTState(mods, crInv);
        crInv := crInv + [InitMulModFast2(NTT_MODS_CR[|crInv|], NTT_MODS[k])];
        ghost var after := BFNTTState(mods, crInv);
        forall i, l | 0 <= i < l < NB_MODS && CrInvAt(before, i, l) ensures CrInvAt(after, i, l) {
        }
        k := k + 1;
      }
      j := j + 1;
    }
    s := BFNTTState(mods, crInv);
  }
}
