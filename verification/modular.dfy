/** Congruences, powers and polynomial evaluation modulo m; the discrete Fourier transform as
    evaluation at the powers of a root of unity. */
module Modular {
  import opened Limbs

  /** a and b are congruent modulo m. */
  ghost predicate Eq(a: int, b: int, m: int)
    requires m > 0
  {
    exists k: int :: a == b + Times(m, k)
  }

  ghost function Times(m: int, k: int): int {
    m * k
  }

  lemma {:induction false} EqBy(a: int, b: int, m: int, k: int)
    requires m > 0 && a == b + m * k
    ensures Eq(a, b, m)
  {
    assert a == b + Times(m, k);
  }

  lemma {:induction false} EqSelf(a: int, m: int)
    requires m > 0
    ensures Eq(a, a, m)
  {
    EqBy(a, a, m, 0);
  }

  lemma {:induction false} EqTrans(a: int, b: int, c: int, m: int)
    requires m > 0 && Eq(a, b, m) && Eq(b, c, m)
    ensures Eq(a, c, m)
  {
    var k :| a == b + Times(m, k);
    var l :| b == c + Times(m, l);
    assert m * (k + l) == m * k + m * l;
    EqBy(a, c, m, k + l);
  }

  lemma {:induction false} EqSym(a: int, b: int, m: int)
    requires m > 0 && Eq(a, b, m)
    ensures Eq(b, a, m)
  {
    var k :| a == b + Times(m, k);
    assert m * (-k) == -(m * k);
    EqBy(b, a, m, -k);
  }

  lemma {:induction false} EqAdd(a: int, b: int, c: int, d: int, m: int)
    requires m > 0 && Eq(a, b, m) && Eq(c, d, m)
    ensures Eq(a + c, b + d, m) && Eq(a - c, b - d, m)
  {
    var k :| a == b + Times(m, k);
    var l :| c == d + Times(m, l);
    assert m * (k + l) == m * k + m * l && m * (k - l) == m * k - m * l;
    EqBy(a + c, b + d, m, k + l);
    EqBy(a - c, b - d, m, k - l);
  }

  lemma {:induction false} EqMul(a: int, b: int, c: int, d: int, m: int)
    requires m > 0 && Eq(a, b, m) && Eq(c, d, m)
    ensures Eq(a * c, b * d, m)
  {
    var k :| a == b + Times(m, k);
    var l :| c == d + Times(m, l);
    MulOffsets(b, d, m, k, l);
    EqBy(a * c, b * d, m, b * l + d * k + m * k * l);
  }

  lemma {:induction false} MulOffsets(b: int, d: int, m: int, k: int, l: int)
    ensures (b + m * k) * (d + m * l) == b * d + m * (b * l + d * k + m * k * l)
  {
    assert (b + m * k) * (d + m * l) == b * d + b * (m * l) + (m * k) * d + (m * k) * (m * l);
    assert m * (b * l + d * k + m * k * l) == m * (b * l) + m * (d * k) + m * (m * k * l);
  }

  lemma {:induction false} MultipleSize(m: int, k: int)
    requires m > 0
    ensures (k >= 1 ==> m * k >= m) && (k <= -1 ==> m * k <= -m)
  {
    if k >= 1 { assert m * (k - 1) >= 0; }
    if k <= -1 { assert m * (-k - 1) >= 0; }
  }

  // ---------- powers ----------

  ghost function Pw(w: int, e: nat): int {
    if e == 0 then 1 else w * Pw(w, e - 1)
  }

  lemma {:induction false} PwAdd(w: int, d: nat, e: nat)
    ensures Pw(w, d + e) == Pw(w, d) * Pw(w, e)
    decreases d
  {
    if d > 0 {
      PwAdd(w, d - 1, e);
      MulAssoc(w, Pw(w, d - 1), Pw(w, e));
    }
  }

  lemma {:induction false} PwMul(w: int, d: nat, e: nat)
    ensures d * e >= 0 && Pw(w, d * e) == Pw(Pw(w, d), e)
    decreases e
  {
    if e > 0 {
      PwMul(w, d, e - 1);
      assert d * e == d + d * (e - 1);
      PwAdd(w, d, d * (e - 1));
    }
  }

  lemma {:induction false} PwProduct(v: int, w: int, e: nat)
    ensures Pw(v * w, e) == Pw(v, e) * Pw(w, e)
    decreases e
  {
    if e > 0 {
      PwProduct(v, w, e - 1);
      ProductStep(v, w, Pw(v, e - 1), Pw(w, e - 1));
    }
  }

  lemma {:induction false} ProductStep(v: int, w: int, a: int, b: int)
    ensures (v * w) * (a * b) == (v * a) * (w * b)
  {
    MulAssoc(v, w, a * b);
    MulAssoc(w, a, b);
    MulAssoc(a, w, b);
    MulAssoc(v, a, w * b);
  }

  lemma {:induction false} PwEq(v: int, w: int, e: nat, m: int)
    requires m > 0 && Eq(v, w, m)
    ensures Eq(Pw(v, e), Pw(w, e), m)
    decreases e
  {
    if e == 0 {
      EqSelf(1, m);
    } else {
      PwEq(v, w, e - 1, m);
      EqMul(v, w, Pw(v, e - 1), Pw(w, e - 1), m);
    }
  }

  lemma {:induction false} PwOne(e: nat)
    ensures Pw(1, e) == 1
    decreases e
  {
    if e > 0 { PwOne(e - 1); }
  }

  lemma {:induction false} PwSmall(w: int)
    ensures Pw(w, 0) == 1 && Pw(w, 1) == w && Pw(w, 2) == w * w
  {
    assert Pw(w, 1) == w * Pw(w, 0);
    assert Pw(w, 2) == w * Pw(w, 1);
  }

  // ---------- polynomials ----------

  /** The polynomial with coefficients s, lowest first, at z. */
  ghost function Eval(s: seq<int>, z: int): int {
    if s == [] then 0 else s[0] + z * Eval(s[1..], z)
  }

  /** Coefficient by coefficient congruent. */
  ghost predicate Same(s: seq<int>, t: seq<int>, m: int)
    requires m > 0
  {
    |s| == |t| && forall i :: 0 <= i < |s| ==> Eq(s[i], t[i], m)
  }

  lemma {:induction false} EvalEq(s: seq<int>, t: seq<int>, y: int, z: int, m: int)
    requires m > 0 && Same(s, t, m) && Eq(y, z, m)
    ensures Eq(Eval(s, y), Eval(t, z), m)
    decreases |s|
  {
    hide Eq;
    if s == [] {
      EqSelf(0, m);
    } else {
      EvalEq(s[1..], t[1..], y, z, m);
      EqMul(y, z, Eval(s[1..], y), Eval(t[1..], z), m);
      EqAdd(s[0], t[0], y * Eval(s[1..], y), z * Eval(t[1..], z), m);
    }
  }

  lemma {:induction false} EvalConcat(s: seq<int>, t: seq<int>, z: int)
    ensures Eval(s + t, z) == Eval(s, z) + Pw(z, |s|) * Eval(t, z)
    decreases |s|
  {
    if s == [] {
      assert s + t == t;
    } else {
      assert (s + t)[1..] == s[1..] + t;
      EvalConcat(s[1..], t, z);
      ConcatStep(z, Eval(s[1..], z), Pw(z, |s| - 1), Eval(t, z));
    }
  }

  lemma {:induction false} ConcatStep(z: int, a: int, p: int, b: int)
    ensures z * (a + p * b) == z * a + (z * p) * b
  {
    MulAssoc(z, p, b);
  }

  function Plus(s: seq<int>, t: seq<int>): (r: seq<int>)
    requires |s| == |t|
    ensures |r| == |s|
  {
    seq(|s|, i requires 0 <= i < |s| => s[i] + t[i])
  }

  function Minus(s: seq<int>, t: seq<int>): (r: seq<int>)
    requires |s| == |t|
    ensures |r| == |s|
  {
    seq(|s|, i requires 0 <= i < |s| => s[i] - t[i])
  }

  function Scaled(c: int, s: seq<int>): (r: seq<int>)
    ensures |r| == |s|
  {
    seq(|s|, i requires 0 <= i < |s| => c * s[i])
  }

  lemma {:induction false} EvalPlus(s: seq<int>, t: seq<int>, z: int)
    requires |s| == |t|
    ensures Eval(Plus(s, t), z) == Eval(s, z) + Eval(t, z)
    ensures Eval(Minus(s, t), z) == Eval(s, z) - Eval(t, z)
    decreases |s|
  {
    if s != [] {
      assert Plus(s, t)[1..] == Plus(s[1..], t[1..]) && Minus(s, t)[1..] == Minus(s[1..], t[1..]);
      EvalPlus(s[1..], t[1..], z);
      Spread(z, Eval(s[1..], z), Eval(t[1..], z));
    }
  }

  lemma {:induction false} Spread(z: int, a: int, b: int)
    ensures z * (a + b) == z * a + z * b && z * (a - b) == z * a - z * b
  {
  }

  lemma {:induction false} EvalScaled(c: int, s: seq<int>, z: int)
    ensures Eval(Scaled(c, s), z) == c * Eval(s, z)
    decreases |s|
  {
    if s != [] {
      assert Scaled(c, s)[1..] == Scaled(c, s[1..]);
      EvalScaled(c, s[1..], z);
      ScaleStep(c, s[0], z, Eval(s[1..], z));
    }
  }

  lemma {:induction false} ScaleStep(c: int, a: int, z: int, e: int)
    ensures c * a + z * (c * e) == c * (a + z * e)
  {
    MulAssoc(z, c, e);
    MulAssoc(c, z, e);
  }

  /** Coefficient i times w^i. */
  ghost function Twist(s: seq<int>, w: int): (r: seq<int>)
    ensures |r| == |s|
  {
    seq(|s|, i requires 0 <= i < |s| => s[i] * Pw(w, i))
  }

  lemma {:induction false} EvalTwist(s: seq<int>, w: int, z: int)
    ensures Eval(Twist(s, w), z) == Eval(s, w * z)
    decreases |s|
  {
    if s != [] {
      EvalTwist(s[1..], w, z);
      var t := Twist(s, w);
      assert t[1..] == Scaled(w, Twist(s[1..], w)) by {
        forall i | 0 <= i < |s| - 1 ensures t[1..][i] == Scaled(w, Twist(s[1..], w))[i] {
          TwistStep(s[i + 1], w, Pw(w, i));
          assert t[1..][i] == s[i + 1] * Pw(w, i + 1) == s[i + 1] * (w * Pw(w, i));
          assert Twist(s[1..], w)[i] == s[1..][i] * Pw(w, i);
        }
      }
      EvalScaled(w, Twist(s[1..], w), z);
      MulAssoc(z, w, Eval(s[1..], w * z));
    }
  }

  lemma {:induction false} TwistStep(a: int, w: int, p: int)
    ensures a * (w * p) == w * (a * p)
  {
    MulAssoc(a, w, p);
    MulAssoc(w, a, p);
  }
}
