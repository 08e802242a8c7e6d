/** The Chinese remainders of ntt_to_limb: from residues modulo the primes to the number itself. */
module FftCrt {
  import opened Limbs
  import opened Products
  import opened Modular
  import opened NttArith
  import opened FftRoots
  import opened FftTables
  import R = Rounding

  /** c divided by the primes from f up to but not including k: what is left of the mixed radix digits from k on. */
  function Left(c: nat, f: nat, k: nat): (r: nat)
    requires f <= k <= NB_MODS
    decreases k
  {
    if k == f then c else PrimeIsModulus(k - 1); R.QuotientNat(Left(c, f, k - 1), NTT_MODS[k - 1]); Left(c, f, k - 1) / NTT_MODS[k - 1]
  }

  lemma {:induction false} LeftNext(c: nat, f: nat, k: nat)
    requires f <= k < NB_MODS
    ensures NTT_MODS[k] > 0 && Left(c, f, k) == NTT_MODS[k] * Left(c, f, k + 1) + Left(c, f, k) % NTT_MODS[k]
    ensures 0 <= Left(c, f, k) % NTT_MODS[k] < NTT_MODS[k]
  {
    PrimeIsModulus(k);
    DivMod(Left(c, f, k), NTT_MODS[k]);
  }

  /** A number below the product of the primes leaves less and less. */
  lemma {:induction false} LeftBound(c: nat, f: nat, k: nat)
    requires f <= k <= NB_MODS && c < Primes(f)
    ensures Left(c, f, k) < Primes(k)
    decreases k
  {
    if k > f {
      PrimeIsModulus(k - 1);
      LeftBound(c, f, k - 1);
      assert Primes(k - 1) == NTT_MODS[k - 1] * Primes(k);
      DivLess(Left(c, f, k - 1), NTT_MODS[k - 1], Primes(k));
    }
  }

  // ---------- mixed radix digits ----------

  /** y[j] is the residue of what is left at k. */
  ghost predicate ResidueOf(y: seq<Limb>, c: nat, f: nat, k: nat, j: nat)
    requires f <= k <= NB_MODS && f + |y| == NB_MODS && j < |y|
  {
    PrimeIsModulus(f + j);
    y[j] < NTT_MODS[f + j] && Eq(y[j], Left(c, f, k), NTT_MODS[f + j])
  }

  ghost predicate DigitOf(y: seq<Limb>, c: nat, f: nat, j: nat)
    requires f + |y| == NB_MODS && j < |y|
  {
    PrimeIsModulus(f + j);
    y[j] == Left(c, f, f + j) % NTT_MODS[f + j]
  }

  ghost predicate ResiduesOf(y: seq<Limb>, c: nat, f: nat, k: nat, lo: nat, hi: nat)
    requires f <= k <= NB_MODS && f + |y| == NB_MODS && hi <= |y|
  {
    forall i :: lo <= i < hi ==> ResidueOf(y, c, f, k, i)
  }

  ghost predicate DigitsOf(y: seq<Limb>, c: nat, f: nat, n: nat)
    requires f + |y| == NB_MODS && n <= |y|
  {
    forall i :: 0 <= i < n ==> DigitOf(y, c, f, i)
  }

  lemma {:induction false} ExactDigit(y: seq<Limb>, c: nat, f: nat, j: nat)
    requires f + |y| == NB_MODS && j < |y| && ResidueOf(y, c, f, f + j, j)
    ensures DigitOf(y, c, f, j)
  {
    hide Eq;
    PrimeIsModulus(f + j);
    EqIsMod(y[j], Left(c, f, f + j), NTT_MODS[f + j]);
  }

  /** Subtracting the digit and multiplying with the inverse of its prime divides by the prime. */
  lemma {:induction false} GarnerStep(c: int, yj: int, yk: int, mj: int, mk: int, cr: int, r: int)
    requires mk > 1 && mj > 0 && yj == c % mj && Eq(yk, c, mk) && cr * mj % mk == 1
    requires Eq(r, (yk - yj + mk) * cr, mk)
    ensures Eq(r, c / mj, mk)
  {
    hide Eq;
    var q := c / mj;
    DivMod(c, mj);
    EqBy(mk, 0, mk, 1);
    EqSelf(yj, mk);
    EqSelf(cr, mk);
    EqSelf(q, mk);
    EqAdd(yk, c, yj, yj, mk);
    EqAdd(yk - yj, c - yj, mk, 0, mk);
    EqMul(yk - yj + mk, mj * q, cr, cr, mk);
    ModEq(cr * mj, mk);
    EqMul(cr * mj, 1, q, q, mk);
    MulAssoc(cr, mj, q);
    R.MulSwap(cr, mj * q);
    EqTrans(r, (yk - yj + mk) * cr, (mj * q) * cr, mk);
    EqTrans(r, (mj * q) * cr, q, mk);
  }

  /** One entry of the table of inverses. */
  method ReduceDigit(yj: Limb, yk: Limb, s: BFNTTState, l: nat, ghost c: nat, ghost f: nat, gj: nat, gk: nat) returns (r: Limb)
    requires StateOk(s) && f <= gj < gk < NB_MODS && l == PairIndex(gj, gk)
    requires NTT_MODS[gj] > 0 && yj == Left(c, f, gj) % NTT_MODS[gj] && yk < NTT_MODS[gk] && NTT_MODS[gk] > 0
    requires Eq(yk, Left(c, f, gj), NTT_MODS[gk])
    ensures r < NTT_MODS[gk] && Eq(r, Left(c, f, gj + 1), NTT_MODS[gk])
  {
    hide Eq, InitMulModFast2, Left;
    assert CrInvAt(s, gj, gk);
    PrimesInvert(gj, gk);
    PrimesSorted(gj, gk);
    PrimeIsModulus(gk);
    LeftNext(c, f, gj);
    var m := NTT_MODS[gk];
    r := MulModFast2(yk - yj + m, NTT_MODS_CR[l], m, s.crInv[l]);
    GarnerStep(Left(c, f, gj), yj, yk, NTT_MODS[gj], m, NTT_MODS_CR[l], r);
    LeftDivides(c, f, gj);
  }

  lemma {:induction false} LeftDivides(c: nat, f: nat, k: nat)
    requires f <= k < NB_MODS
    ensures NTT_MODS[k] > 0 && Left(c, f, k + 1) == Left(c, f, k) / NTT_MODS[k]
  {
    PrimeIsModulus(k);
  }

  lemma {:induction false} FirstIndex(f: nat)
    requires f < NB_MODS - 1
    ensures NB_MODS * (NB_MODS - 1) / 2 - (NB_MODS - f) * (NB_MODS - f - 1) / 2 == PairIndex(f, f + 1)
  {
  }

  /** The Chinese remainders: residues of c become its digits in the mixed radix of the primes. */
  method MixedRadix(y: array<Limb>, s: BFNTTState, ghost c: nat, ghost f: nat)
    requires StateOk(s) && 2 <= y.Length <= NB_MODS && f == NB_MODS - y.Length
    requires ResiduesOf(y[..], c, f, f, 0, y.Length)
    modifies y
    ensures DigitsOf(y[..], c, f, y.Length)
  {
    hide Eq, Left, InitMulModFast2, ModTablesOk, PairIndex, DigitsOf, ResiduesOf;
    var nbMods := y.Length;
    var first := NB_MODS - nbMods;
    FirstIndex(first);
    var l := NB_MODS * (NB_MODS - 1) / 2 - nbMods * (nbMods - 1) / 2;
    var j := 0;
    NothingRead(y[..], c, f);
    while j < nbMods - 1
      invariant 0 <= j <= nbMods - 1 && (j < nbMods - 1 ==> l == PairIndex(first + j, first + j + 1))
      invariant DigitsOf(y[..], c, f, j) && ResiduesOf(y[..], c, f, f + j, j, nbMods)
    {
      OneMoreDigit(y[..], c, f, j);
      var k := j + 1;
      NoneReduced(y[..], c, f, j);
      while k < nbMods
        invariant j + 1 <= k <= nbMods && (k < nbMods ==> l == PairIndex(first + j, first + k))
        invariant k == nbMods && j + 1 < nbMods - 1 ==> l == PairIndex(first + j + 1, first + j + 2)
        invariant DigitsOf(y[..], c, f, j + 1) && ResiduesOf(y[..], c, f, f + j + 1, j + 1, k)
        invariant ResiduesOf(y[..], c, f, f + j, k, nbMods)
      {
        ghost var y0 := y[..];
        assert ResidueOf(y0, c, f, f + j, k) && DigitOf(y0, c, f, j) by { AtIndex(y0, c, f, j, k); }
        y[k] := ReduceDigit(y[j], y[k], s, l, c, f, first + j, first + k);
        DigitReduced(y0, y[..], c, f, j, k);
        NextIndex(first + j, first + k);
        l := l + 1;
        k := k + 1;
      }
      j := j + 1;
    }
    OneMoreDigit(y[..], c, f, j);
  }

  lemma {:induction false} NothingRead(y: seq<Limb>, c: nat, f: nat)
    requires f + |y| == NB_MODS
    ensures DigitsOf(y, c, f, 0)
  {
  }

  lemma {:induction false} OneMoreDigit(y: seq<Limb>, c: nat, f: nat, j: nat)
    requires f + |y| == NB_MODS && j < |y| && DigitsOf(y, c, f, j) && ResiduesOf(y, c, f, f + j, j, |y|)
    ensures DigitsOf(y, c, f, j + 1)
  {
    hide Left, Eq;
    ExactDigit(y, c, f, j);
  }

  lemma {:induction false} NoneReduced(y: seq<Limb>, c: nat, f: nat, j: nat)
    requires f + |y| == NB_MODS && j < |y| && ResiduesOf(y, c, f, f + j, j, |y|)
    ensures ResiduesOf(y, c, f, f + j, j + 1, |y|) && ResiduesOf(y, c, f, f + j + 1, j + 1, j + 1)
  {
    hide Left, Eq;
  }

  lemma {:induction false} AtIndex(y: seq<Limb>, c: nat, f: nat, j: nat, k: nat)
    requires f + |y| == NB_MODS && j < k < |y| && DigitsOf(y, c, f, j + 1) && ResiduesOf(y, c, f, f + j, k, |y|)
    ensures ResidueOf(y, c, f, f + j, k) && DigitOf(y, c, f, j)
  {
    hide Left, Eq;
  }

  lemma {:induction false} NextIndex(j: nat, k: nat)
    requires j < k < NB_MODS
    ensures k + 1 < NB_MODS ==> PairIndex(j, k + 1) == PairIndex(j, k) + 1
    ensures k + 1 == NB_MODS && j + 2 < NB_MODS ==> PairIndex(j + 1, j + 2) == PairIndex(j, k) + 1
  {
  }

  lemma {:induction false} DigitReduced(y0: seq<Limb>, y: seq<Limb>, c: nat, f: nat, j: nat, k: nat)
    requires f + |y0| == NB_MODS && j < k < |y0| && |y| == |y0| && y == y0[k := y[k]]
    requires NTT_MODS[f + k] > 0 && y[k] < NTT_MODS[f + k] && Eq(y[k], Left(c, f, f + j + 1), NTT_MODS[f + k])
    requires DigitsOf(y0, c, f, j + 1) && ResiduesOf(y0, c, f, f + j + 1, j + 1, k) && ResiduesOf(y0, c, f, f + j, k, |y0|)
    ensures DigitsOf(y, c, f, j + 1) && ResiduesOf(y, c, f, f + j + 1, j + 1, k + 1) && ResiduesOf(y, c, f, f + j, k + 1, |y|)
  {
    hide Eq, Left;
    var now, next := f + j, f + j + 1;
    forall i | 0 <= i <= j ensures DigitOf(y, c, f, i) { assert DigitOf(y0, c, f, i); }
    forall i | j + 1 <= i < k + 1 ensures ResidueOf(y, c, f, next, i) { if i < k { assert ResidueOf(y0, c, f, next, i); } }
    forall i | k + 1 <= i < |y| ensures ResidueOf(y, c, f, now, i) { assert ResidueOf(y0, c, f, now, i); }
  }

  // ---------- back to limbs ----------

  /** The last step of the way back: u * b + l + carry, limb by limb, in place; the limb above is returned. */
  method MulAddCarry(u: array<Limb>, carry: array<Limb>, n: nat, b: Limb, l: Limb) returns (r: Limb)
    requires n <= u.Length && n <= carry.Length && u != carry && b < HALF
    modifies u
    ensures Val(u[0..n]) + r * Pow(n) == old(Val(u[0..n])) * b + Val(carry[0..n]) + l
    ensures Outside(old(u[..]), u[..], 0, n)
  {
    hide Val, Pow;
    ghost var U, C := u[..], carry[..];
    Empty(U, 0);
    Empty(C, 0);
    r := l;
    for k := 0 to n
      invariant Outside(U, u[..], 0, k)
      invariant Val(u[0..k]) + r * Pow(k) == Val(U[0..k]) * b + Val(C[0..k]) + l
    {
      assert u[k] == U[k] && carry[k] == C[k];
      ghost var k0, before := r, u[0..k];
      ProductBelow(u[k], b, B, HALF);
      var t: int := u[k] * b + r + carry[k];
      var x: Limb;
      x, r := Halves(t);
      u[k] := x;
      assert u[0..k] == before;
      MulStep(u[..], 0, U, 0, C, 0, k, b, k0, r, l);
    }
  }

  /** The mixed radix digits but the last put together again, in nbMods - 1 limbs. */
  method RecomposeHigh(u: array<Limb>, y: array<Limb>, ghost c: nat, ghost f: nat)
    requires 2 <= y.Length <= NB_MODS && f == NB_MODS - y.Length && u.Length == y.Length
    requires u != y && c < Primes(f) && DigitsOf(y[..], c, f, y.Length)
    modifies u
    ensures Val(u[0..y.Length - 1]) == Left(c, f, f + 1)
  {
    hide Val, Pow, Left, Primes;
    var nbMods := y.Length;
    var first := NB_MODS - nbMods;
    ghost var Y := y[..];
    assert DigitOf(Y, c, f, nbMods - 1);
    u[0] := y[nbMods - 1];
    TopDigit(c, f);
    ValOne(u[..], 0);
    var l, j := 1, nbMods - 2;
    while j >= 1
      invariant 0 <= j <= nbMods - 2 && l == nbMods - 1 - j && y[..] == Y
      invariant Val(u[0..l]) == Left(c, f, f + j + 1)
    {
      assert DigitOf(Y, c, f, j);
      LeftNext(c, f, f + j);
      R.MulSwap(Val(u[0..l]), NTT_MODS[first + j]);
      // the inner loop is that of mp_mul1
      var r := MpMul1(u, 0, u, 0, l, NTT_MODS[first + j], y[j]);
      ghost var low := u[0..l];
      u[l] := r;
      assert u[0..l] == low;
      ValSnoc(u[..], 0, l);
      l := l + 1;
      j := j - 1;
    }
  }

  /** All of them, with the carry of the coefficients before added. */
  method Recompose(u: array<Limb>, y: array<Limb>, carry: array<Limb>, ghost c: nat, ghost f: nat)
    requires 2 <= y.Length <= NB_MODS && f == NB_MODS - y.Length && u.Length == carry.Length == y.Length
    requires u != y && u != carry && c < Primes(f) && DigitsOf(y[..], c, f, y.Length)
    requires c + Val(carry[..]) < Pow(y.Length)
    modifies u
    ensures Val(u[..]) == c + Val(carry[..])
  {
    hide Val, Pow, Left, Primes;
    var l, first := y.Length - 1, NB_MODS - y.Length;
    assert DigitOf(y[..], c, f, 0);
    RecomposeHigh(u, y, c, f);
    LeftNext(c, f, f);
    LeftWhole(c, f);
    PrimeHalf(first);
    R.MulSwap(Val(u[0..l]), NTT_MODS[first]);
    var r := MulAddCarry(u, carry, l, NTT_MODS[first], y[0]);
    ValSnoc(carry[..], 0, l);
    assert carry[..] == carry[0..l + 1];
    PowStep(l + 1);
    TopRoom(Val(u[0..l]), r, carry[l], Pow(l), c + Val(carry[..]));
    ghost var low := u[0..l];
    u[l] := r + carry[l];
    assert u[0..l] == low && u[..] == u[0..l + 1];
    ValSnoc(u[..], 0, l);
  }

  lemma {:induction false} LeftWhole(c: nat, f: nat)
    requires f <= NB_MODS
    ensures Left(c, f, f) == c
  {
  }

  lemma {:induction false} PrimeHalf(j: nat)
    requires j < NB_MODS
    ensures NTT_MODS[j] < HALF
  {
  }

  lemma {:induction false} TopDigit(c: nat, f: nat)
    requires f < NB_MODS && c < Primes(f)
    ensures 0 < NTT_MODS[NB_MODS - 1] && Left(c, f, NB_MODS - 1) % NTT_MODS[NB_MODS - 1] == Left(c, f, NB_MODS - 1)
  {
    LeftBound(c, f, NB_MODS - 1);
    assert Primes(NB_MODS - 1) == NTT_MODS[NB_MODS - 1] * Primes(NB_MODS);
    SmallMod(Left(c, f, NB_MODS - 1), NTT_MODS[NB_MODS - 1]);
  }

  /** The limb above does not overflow. */
  lemma {:induction false} TopRoom(low: int, r: int, k: int, p: int, total: int)
    requires 0 <= low && p >= 1 && low + r * p + k * p == total && total < B * p
    ensures r + k < B
    ensures low + (r + k) * p == total
  {
    assert (r + k) * p == r * p + k * p;
    if r + k >= B { MulMono(B, r + k, p); }
  }
}
