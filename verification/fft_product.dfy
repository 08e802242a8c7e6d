/** Numbers as polynomials: the chunks of a number, and the cyclic product that does not wrap. */
module FftProduct {
  import opened Limbs
  import R = Rounding
  import opened Modular
  import opened Fourier

  // ---------- chunks ----------

  /** The n lowest digits of v in base x. */
  function Chunks(v: nat, x: int, n: nat): (r: seq<int>)
    requires x >= 1
    ensures |r| == n
  {
    if n == 0 then [] else R.QuotientNat(v, x); [v % x] + Chunks(v / x, x, n - 1)
  }

  lemma {:induction false} PwPositive(x: int, n: nat)
    requires x >= 1
    ensures Pw(x, n) >= 1
    decreases n
  {
    if n > 0 {
      PwPositive(x, n - 1);
      MulMono(1, x, Pw(x, n - 1));
    }
  }

  lemma {:induction false} ChunksValue(v: nat, x: int, n: nat)
    requires x >= 1 && v < Pw(x, n)
    ensures Eval(Chunks(v, x, n), x) == v
    decreases n
  {
    if n > 0 {
      var s := Chunks(v, x, n);
      R.QuotientNat(v, x);
      DivMod(v, x);
      DivLess(v, x, Pw(x, n - 1));
      ChunksValue(v / x, x, n - 1);
      assert s[1..] == Chunks(v / x, x, n - 1);
    }
  }

  lemma {:induction false} ChunkAt(v: nat, x: int, n: nat, i: nat)
    requires x >= 1 && i < n
    ensures Pw(x, i) >= 1 && Chunks(v, x, n)[i] == v / Pw(x, i) % x
    ensures 0 <= Chunks(v, x, n)[i] < x
    decreases n
  {
    PwPositive(x, i);
    R.QuotientNat(v, x);
    if i > 0 {
      PwPositive(x, i - 1);
      ChunkAt(v / x, x, n - 1, i - 1);
      R.NestedDivision(v, x, Pw(x, i - 1));
    } else {
      R.UniqueDivision(v, 1, v, 0);
    }
  }

  // ---------- the product ----------

  /** Nothing from n on. */
  ghost predicate EndsAt(s: seq<int>, n: int) {
    forall i :: 0 <= i < |s| && i >= n ==> s[i] == 0
  }

  lemma {:induction false} ChunksEnd(v: nat, x: int, n: nat, k: nat)
    requires x >= 1 && v < Pw(x, k)
    ensures EndsAt(Chunks(v, x, n), k)
  {
    hide Chunks, Pw;
    forall i | 0 <= i < n && i >= k ensures Chunks(v, x, n)[i] == 0 {
      ChunkAt(v, x, n, i);
      PwMono(x, k, i);
      R.UniqueDivision(v, Pw(x, i), 0, v);
      SmallMod(0, x);
    }
  }

  lemma {:induction false} PwMono(x: int, k: nat, n: nat)
    requires x >= 1 && k <= n
    ensures Pw(x, k) <= Pw(x, n)
    decreases n
  {
    if k < n {
      PwMono(x, k, n - 1);
      PwPositive(x, n - 1);
      MulMono(1, x, Pw(x, n - 1));
    }
  }

  /** How far a product reaches. */
  function Reach(na: nat, nb: nat): (n: int) {
    if na == 0 || nb == 0 then 0 else na + nb - 1
  }

  /** Where both factors end early enough the product does not wrap, so it is the product of the polynomials. */
  lemma {:induction false} CyclicExact(a: seq<int>, b: seq<int>, na: nat, nb: nat, z: int)
    requires b != [] && EndsAt(a, na) && EndsAt(b, nb) && Reach(na, nb) <= |b|
    ensures EndsAt(Cyclic(a, b), Reach(na, nb))
    ensures Eval(Cyclic(a, b), z) == Eval(a, z) * Eval(b, z)
    decreases |a|
  {
    hide Eval, Cyclic, Rotate;
    if a == [] {
      NothingTimes(b, z);
    } else {
      var rest, n := a[1..], if na == 0 then 0 else na - 1;
      CyclicExact(rest, b, n, nb, z);
      var c := Cyclic(rest, b);
      CyclicUnfold(a, b);
      RotateShifts(c, Reach(n, nb), z);
      EvalPlus(Scaled(a[0], b), Rotate(c), z);
      EvalScaled(a[0], b, z);
      EvalUnfold(a, z);
      ConvolutionStep(a[0], z, Eval(rest, z), Eval(b, z));
      SumEnds(a, b, na, nb, Rotate(c));
    }
  }

  lemma {:induction false} NothingTimes(b: seq<int>, z: int)
    requires b != []
    ensures EndsAt(Cyclic([], b), 0) && Eval(Cyclic([], b), z) == 0 && Eval([], z) == 0
  {
    EvalZeros(|b|, z);
  }

  lemma {:induction false} CyclicUnfold(a: seq<int>, b: seq<int>)
    requires a != [] && b != []
    ensures Cyclic(a, b) == Plus(Scaled(a[0], b), Rotate(Cyclic(a[1..], b)))
  {
  }

  lemma {:induction false} EvalUnfold(s: seq<int>, z: int)
    requires s != []
    ensures Eval(s, z) == s[0] + z * Eval(s[1..], z)
  {
  }

  lemma {:induction false} SumEnds(a: seq<int>, b: seq<int>, na: nat, nb: nat, r: seq<int>)
    requires a != [] && |r| == |b| && EndsAt(a, na) && EndsAt(b, nb)
    requires EndsAt(r, if Reach(if na == 0 then 0 else na - 1, nb) == 0 then 0 else na + nb - 1)
    ensures EndsAt(Plus(Scaled(a[0], b), r), Reach(na, nb))
  {
    var t := Plus(Scaled(a[0], b), r);
    forall i | 0 <= i < |t| && i >= Reach(na, nb) ensures t[i] == 0 {
      assert b[i] == 0 || a[0] == 0;
      assert a[0] * b[i] == 0;
    }
  }

  /** A polynomial whose last coefficient is zero is shifted by the rotation. */
  lemma {:induction false} RotateShifts(c: seq<int>, n: int, z: int)
    requires c != [] && EndsAt(c, n) && 0 <= n < |c|
    ensures Eval(Rotate(c), z) == z * Eval(c, z)
    ensures EndsAt(Rotate(c), if n == 0 then 0 else n + 1)
  {
    var init := c[..|c| - 1];
    assert c == init + [0];
    EvalConcat(init, [0], z);
    assert Eval([0], z) == 0 + z * Eval([], z);
    assert Rotate(c) == [0] + init;
    assert Rotate(c)[1..] == init;
    forall i | 0 <= i < |c| && i >= (if n == 0 then 0 else n + 1) ensures Rotate(c)[i] == 0 {
      if i > 0 { assert Rotate(c)[i] == c[i - 1]; }
    }
  }

  // ---------- sizes and residues ----------

  ghost predicate Below(s: seq<int>, x: int) {
    forall i :: 0 <= i < |s| ==> 0 <= s[i] < x
  }

  /** A coefficient of a product is a sum of |a| products. */
  lemma {:induction false} ConvolvedBound(a: seq<int>, b: seq<int>, x: int, i: int)
    requires b != [] && x >= 1 && Below(a, x) && Below(b, x)
    ensures 0 <= Convolved(a, b, i) <= |a| * ((x - 1) * (x - 1))
    decreases |a|
  {
    if a != [] {
      ConvolvedBound(a[1..], b, x, i - 1);
      TermBound(a[0], b[i % |b|], x - 1);
      R.Distribute(|a| - 1, (x - 1) * (x - 1));
    }
  }

  lemma {:induction false} TermBound(p: int, q: int, x: int)
    requires 0 <= p <= x && 0 <= q <= x
    ensures 0 <= p * q <= x * x
  {
    MulMono(0, p, q);
    MulMono(p, x, q);
    MulMono(q, x, x);
  }

  /** Convolving residues is convolving the numbers. */
  lemma {:induction false} ConvolvedSame(a: seq<int>, a': seq<int>, b: seq<int>, b': seq<int>, i: int, m: int)
    requires m > 0 && b != [] && Same(a, a', m) && Same(b, b', m)
    ensures Eq(Convolved(a, b, i), Convolved(a', b', i), m)
    decreases |a|
  {
    hide Eq;
    if a == [] {
      EqSelf(0, m);
    } else {
      var k := i % |b|;
      ConvolvedSame(a[1..], a'[1..], b, b', i - 1, m);
      EqMul(a[0], a'[0], b[k], b'[k], m);
      EqAdd(a[0] * b[k], a'[0] * b'[k], Convolved(a[1..], b, i - 1), Convolved(a'[1..], b', i - 1), m);
    }
  }
}
