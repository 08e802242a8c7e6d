/** The discrete Fourier transform modulo m: its halving step, its inverse, and cyclic convolution. */
module Fourier {
  import opened Limbs
  import opened Modular

  /** Transform value k: the polynomial x at w^k. */
  ghost function Dft(x: seq<int>, w: int, k: nat): int {
    Eval(x, Pw(w, k))
  }

  /** w is a root of unity of order 2h: its h-th power is -1. */
  ghost predicate HalfTurn(w: int, h: nat, m: int)
    requires m > 0
  {
    Eq(Pw(w, h), -1, m)
  }

  lemma {:induction false} TurnPower(w: int, h: nat, k: nat, m: int)
    requires m > 0 && HalfTurn(w, h, m)
    ensures Eq(Pw(Pw(w, k), h), if k % 2 == 0 then 1 else -1, m)
    decreases k
  {
    hide Eq;
    if k == 0 {
      PwOne(h);
      EqSelf(1, m);
    } else {
      TurnPower(w, h, k - 1, m);
      PwProduct(w, Pw(w, k - 1), h);
      EqMul(Pw(w, h), -1, Pw(Pw(w, k - 1), h), if (k - 1) % 2 == 0 then 1 else -1, m);
    }
  }

  /** A sequence of even length at a point whose h-th power is 1 or -1 folds in half. */
  lemma {:induction false} Fold(x: seq<int>, h: nat, z: int, sign: int, m: int)
    requires m > 0 && |x| == 2 * h && (sign == 1 || sign == -1) && Eq(Pw(z, h), sign, m)
    ensures Eq(Eval(x, z), Eval(if sign == 1 then Plus(x[..h], x[h..]) else Minus(x[..h], x[h..]), z), m)
  {
    hide Eq;
    assert x == x[..h] + x[h..];
    EvalConcat(x[..h], x[h..], z);
    EvalPlus(x[..h], x[h..], z);
    EqSelf(Eval(x[h..], z), m);
    EqMul(Pw(z, h), sign, Eval(x[h..], z), Eval(x[h..], z), m);
    EqSelf(Eval(x[..h], z), m);
    EqAdd(Eval(x[..h], z), Eval(x[..h], z), Pw(z, h) * Eval(x[h..], z), sign * Eval(x[h..], z), m);
  }

  /** The halving step: even transform values are those of the sums, odd ones those of the twisted
      differences, over the squared root. */
  lemma {:induction false} Halve(x: seq<int>, h: nat, w: int, v: int, u: nat, m: int)
    requires m > 0 && |x| == 2 * h && HalfTurn(w, h, m) && Eq(w * w, v, m)
    ensures Eq(Dft(x, w, 2 * u), Dft(Plus(x[..h], x[h..]), v, u), m)
    ensures Eq(Dft(x, w, 2 * u + 1), Dft(Twist(Minus(x[..h], x[h..]), w), v, u), m)
  {
    hide Eq, HalfTurn;
    var e, d := Plus(x[..h], x[h..]), Minus(x[..h], x[h..]);
    var y, y1 := Pw(w, 2 * u), Pw(w, 2 * u + 1);
    SquarePower(w, v, u, m);
    TurnPower(w, h, 2 * u, m);
    Fold(x, h, y, 1, m);
    SameSelf(e, m);
    EvalEq(e, e, y, Pw(v, u), m);
    EqTrans(Eval(x, y), Eval(e, y), Eval(e, Pw(v, u)), m);
    TurnPower(w, h, 2 * u + 1, m);
    Fold(x, h, y1, -1, m);
    assert y1 == w * y;
    SameSelf(d, m);
    EqSelf(w, m);
    EqMul(w, w, y, Pw(v, u), m);
    EvalEq(d, d, y1, w * Pw(v, u), m);
    EvalTwist(d, w, Pw(v, u));
    EqTrans(Eval(x, y1), Eval(d, y1), Eval(d, w * Pw(v, u)), m);
  }

  lemma {:induction false} SameSelf(s: seq<int>, m: int)
    requires m > 0
    ensures Same(s, s, m)
  {
    forall i | 0 <= i < |s| ensures Eq(s[i], s[i], m) { EqSelf(s[i], m); }
  }

  lemma {:induction false} SquarePower(w: int, v: int, u: nat, m: int)
    requires m > 0 && Eq(w * w, v, m)
    ensures Eq(Pw(w, 2 * u), Pw(v, u), m)
  {
    hide Eq;
    PwMul(w, 2, u);
    PwSmall(w);
    PwEq(w * w, v, u, m);
  }

  // ---------- the inverse ----------

  /** Every second coefficient, from the first or from the second on. */
  function EveryOther(s: seq<int>, from: nat): (r: seq<int>)
    requires from <= 1 && |s| % 2 == 0
    ensures |r| == |s| / 2
  {
    seq(|s| / 2, i requires 0 <= i < |s| / 2 => s[2 * i + from])
  }

  lemma {:induction false} Interleave(s: seq<int>, z: int)
    requires |s| % 2 == 0
    ensures Eval(s, z) == Eval(EveryOther(s, 0), z * z) + z * Eval(EveryOther(s, 1), z * z)
    decreases |s|
  {
    if s != [] {
      var e, o := EveryOther(s, 0), EveryOther(s, 1);
      assert s[1..][1..] == s[2..];
      assert Eval(s, z) == s[0] + z * Eval(s[1..], z) && Eval(s[1..], z) == s[1] + z * Eval(s[2..], z);
      Interleave(s[2..], z);
      assert e[1..] == EveryOther(s[2..], 0) && o[1..] == EveryOther(s[2..], 1);
      InterleaveStep(z, s[0], s[1], Eval(e[1..], z * z), Eval(o[1..], z * z));
    }
  }

  lemma {:induction false} InterleaveStep(z: int, a: int, b: int, x: int, y: int)
    ensures a + z * (b + z * (x + z * y)) == (a + (z * z) * x) + z * (b + (z * z) * y)
  {
    MulAssoc(z, z, x);
    MulAssoc(z, z, y);
    Spread(z, b, z * (x + z * y));
    Spread(z, x, z * y);
    Spread(z, z * x, z * (z * y));
    Spread(z, b, (z * z) * y);
  }

  /** A chain of square roots of -1: roots[1] is -1 and every root squares to the one before. */
  ghost predicate Chain(roots: seq<int>, k: nat, m: int)
    requires m > 0
  {
    k < |roots| && (k >= 1 ==> Eq(roots[1], -1, m))
    && forall i :: 2 <= i <= k ==> Squares(roots, i, m)
  }

  ghost predicate Squares(roots: seq<int>, i: nat, m: int)
    requires m > 0 && 1 <= i < |roots|
  {
    Eq(roots[i] * roots[i], roots[i - 1], m)
  }

  lemma {:induction false} ChainTurn(roots: seq<int>, k: nat, m: int)
    requires m > 0 && k >= 1 && Chain(roots, k, m)
    ensures HalfTurn(roots[k], Two(k - 1), m)
    decreases k
  {
    hide Eq;
    if k == 1 {
      PwSmall(roots[1]);
    } else {
      assert Squares(roots, k, m);
      ChainTurn(roots, k - 1, m);
      SquarePower(roots[k], roots[k - 1], Two(k - 2), m);
      EqTrans(Pw(roots[k], Two(k - 1)), Pw(roots[k - 1], Two(k - 2)), -1, m);
    }
  }

  /** All values of the transform of length 2^k. */
  ghost function Transform(x: seq<int>, w: int): (r: seq<int>)
    ensures |r| == |x|
  {
    seq(|x|, k requires 0 <= k < |x| => Dft(x, w, k))
  }

  ghost predicate Inverse(roots: seq<int>, inv: seq<int>, k: nat, m: int)
    requires m > 0
  {
    k < |roots| && k < |inv| && forall i :: 1 <= i <= k ==> Reciprocal(roots, inv, i, m)
  }

  ghost predicate Reciprocal(roots: seq<int>, inv: seq<int>, i: nat, m: int)
    requires m > 0 && i < |roots| && i < |inv|
  {
    Eq(roots[i] * inv[i], 1, m)
  }

  lemma {:induction false} ChainBelow(roots: seq<int>, k: nat, m: int)
    requires m > 0 && k >= 2 && Chain(roots, k, m)
    ensures Chain(roots, k - 1, m) && Eq(roots[k] * roots[k], roots[k - 1], m)
  {
    hide Eq;
    assert Squares(roots, k, m);
  }

  lemma {:induction false} InverseBelow(roots: seq<int>, inv: seq<int>, k: nat, m: int)
    requires m > 0 && k >= 1 && Inverse(roots, inv, k, m)
    ensures Inverse(roots, inv, k - 1, m) && Eq(roots[k] * inv[k], 1, m)
  {
    hide Eq;
    assert Reciprocal(roots, inv, k, m);
  }

  /** The even and the odd half of a transform are the transforms of the folded halves. */
  lemma {:induction false} Halves(x: seq<int>, h: nat, w: int, v: int, m: int)
    requires m > 0 && |x| == 2 * h && HalfTurn(w, h, m) && Eq(w * w, v, m)
    ensures var e, o := Plus(x[..h], x[h..]), Twist(Minus(x[..h], x[h..]), w);
            Same(EveryOther(Transform(x, w), 0), Transform(e, v), m)
            && Same(EveryOther(Transform(x, w), 1), Transform(o, v), m)
  {
    hide Eq, HalfTurn, Dft;
    forall u | 0 <= u < h
      ensures Eq(Dft(x, w, 2 * u), Dft(Plus(x[..h], x[h..]), v, u), m)
              && Eq(Dft(x, w, 2 * u + 1), Dft(Twist(Minus(x[..h], x[h..]), w), v, u), m)
    {
      Halve(x, h, w, v, u, m);
    }
  }

  /** n and n - h give the same power of the squared inverse. */
  lemma {:induction false} WrappedPower(z: int, z': int, h: nat, n: nat, m: int)
    requires m > 0 && HalfTurn(z, h, m) && Eq(z * z, z', m) && h <= n
    ensures Eq(Pw(z', n), Pw(z', n - h), m)
  {
    hide Eq;
    TurnPower(z, h, 2, m);
    PwSmall(z);
    PwEq(z * z, z', h, m);
    EqSym(Pw(z * z, h), Pw(z', h), m);
    EqTrans(Pw(z', h), Pw(z * z, h), 1, m);
    PwAdd(z', h, n - h);
    EqSelf(Pw(z', n - h), m);
    EqMul(Pw(z', h), 1, Pw(z', n - h), Pw(z', n - h), m);
  }

  /** The inverse transform of one half, at the point it is needed. */
  lemma {:induction false} HalfInverse(xs: seq<int>, e: seq<int>, w': int, z: int, z': int, h: nat, n: nat, c: int, m: int)
    requires m > 0 && Same(xs, Transform(e, w'), m) && HalfTurn(z, h, m) && Eq(z * z, z', m) && n < 2 * h && |e| == h
    requires var n' := if n < h then n else n - h; Eq(Dft(Transform(e, w'), z', n'), c * e[n'], m)
    ensures var n' := if n < h then n else n - h; Eq(Eval(xs, Pw(z, n) * Pw(z, n)), c * e[n'], m)
  {
    hide Eq, HalfTurn, Same, Transform;
    var n' := if n < h then n else n - h;
    var y2 := Pw(z, n) * Pw(z, n);
    PwAdd(z, n, n);
    SquarePower(z, z', n, m);
    assert Pw(z, 2 * n) == y2;
    if n >= h {
      WrappedPower(z, z', h, n, m);
      EqTrans(y2, Pw(z', n), Pw(z', n'), m);
    }
    EvalEq(xs, Transform(e, w'), y2, Pw(z', n'), m);
    EqTrans(Eval(xs, y2), Dft(Transform(e, w'), z', n'), c * e[n'], m);
  }

  /** The twist cancels against the inverse root, with a minus sign in the upper half. */
  lemma {:induction false} Untwist(w: int, z: int, d: int, h: nat, n: nat, m: int)
    requires m > 0 && Eq(w * z, 1, m) && HalfTurn(z, h, m) && n < 2 * h
    ensures var n' := if n < h then n else n - h;
            Eq(Pw(z, n) * (d * Pw(w, n')), if n < h then d else -d, m)
  {
    hide Eq;
    var n' := if n < h then n else n - h;
    PwProduct(w, z, n');
    PwEq(w * z, 1, n', m);
    PwOne(n');
    EqSelf(d, m);
    EqMul(Pw(w, n') * Pw(z, n'), 1, d, d, m);
    Rearrange(Pw(z, n'), d, Pw(w, n'));
    if n >= h {
      PwAdd(z, h, n');
      EqMul(Pw(z, h), -1, Pw(z, n') * (d * Pw(w, n')), d, m);
      MulAssoc(Pw(z, h), Pw(z, n'), d * Pw(w, n'));
    }
  }

  lemma {:induction false} Rearrange(a: int, b: int, c: int)
    ensures a * (b * c) == (c * a) * b
  {
    MulAssoc(c, a, b);
    MulAssoc(a, b, c);
    assert a * b * c == c * (a * b);
  }

  /** Transforming with the roots and then with their inverses multiplies by the length. */
  lemma {:induction false} Inversion(x: seq<int>, k: nat, w: int, z: int, roots: seq<int>, inv: seq<int>, n: nat, m: int)
    requires m > 0 && |x| == Two(k) && n < |x|
    requires k >= 1 ==> k < |roots| && k < |inv| && w == roots[k] && z == inv[k]
    requires k >= 1 ==> Chain(roots, k, m) && Chain(inv, k, m) && Inverse(roots, inv, k, m)
    ensures Eq(Dft(Transform(x, w), z, n), Two(k) * x[n], m)
    decreases k
  {
    hide Eq, Same, Chain, Inverse, Twist, Plus, Minus, HalfTurn, EveryOther, Dft, Transform;
    if k == 0 {
      SingleInverse(x, w, z, m);
    } else {
      var h := Two(k - 1);
      var w', z' := if k >= 2 then roots[k - 1] else w * w, if k >= 2 then inv[k - 1] else z * z;
      var e, o := Plus(x[..h], x[h..]), Twist(Minus(x[..h], x[h..]), w);
      var n' := if n < h then n else n - h;
      ChainTurn(roots, k, m);
      ChainTurn(inv, k, m);
      InverseBelow(roots, inv, k, m);
      if k >= 2 {
        ChainBelow(roots, k, m);
        ChainBelow(inv, k, m);
      } else {
        EqSelf(w * w, m);
        EqSelf(z * z, m);
      }
      Inversion(e, k - 1, w', z', roots, inv, n', m);
      Inversion(o, k - 1, w', z', roots, inv, n', m);
      InverseHalves(x, h, w, z, w', z', n, m);
    }
  }

  /** Inverting both halves inverts the whole. */
  lemma {:induction false} InverseHalves(x: seq<int>, h: nat, w: int, z: int, w': int, z': int, n: nat, m: int)
    requires m > 0 && |x| == 2 * h && n < 2 * h && HalfTurn(w, h, m) && HalfTurn(z, h, m)
    requires Eq(w * w, w', m) && Eq(z * z, z', m) && Eq(w * z, 1, m)
    requires var n', e, o := if n < h then n else n - h, Plus(x[..h], x[h..]), Twist(Minus(x[..h], x[h..]), w);
             Eq(Dft(Transform(e, w'), z', n'), h * e[n'], m) && Eq(Dft(Transform(o, w'), z', n'), h * o[n'], m)
    ensures Eq(Dft(Transform(x, w), z, n), (2 * h) * x[n], m)
  {
    hide Eq, Same, Twist, Plus, Minus, HalfTurn, EveryOther, Eval, Pw, Transform;
    var e, o := Plus(x[..h], x[h..]), Twist(Minus(x[..h], x[h..]), w);
    var xs, y := Transform(x, w), Pw(z, n);
    Halves(x, h, w, w', m);
    HalfInverse(EveryOther(xs, 0), e, w', z, z', h, n, h, m);
    HalfInverse(EveryOther(xs, 1), o, w', z, z', h, n, h, m);
    Interleave(xs, y);
    Recombine(x, h, w, z, n, Eval(EveryOther(xs, 0), y * y), Eval(EveryOther(xs, 1), y * y), m);
  }

  lemma {:induction false} SingleInverse(x: seq<int>, w: int, z: int, m: int)
    requires m > 0 && |x| == 1
    ensures Eq(Dft(Transform(x, w), z, 0), x[0], m)
  {
    assert Transform(x, w)[0] == Eval(x, 1) == x[0] + 1 * Eval(x[1..], 1);
    assert Transform(x, w)[1..] == [] && x[1..] == [];
    EqSelf(x[0], m);
  }

  /** Even part plus inverse root times odd part gives back twice the coefficient. */
  lemma {:induction false} Recombine(x: seq<int>, h: nat, w: int, z: int, n: nat, xe: int, xo: int, m: int)
    requires m > 0 && |x| == 2 * h && n < 2 * h && Eq(w * z, 1, m) && HalfTurn(z, h, m)
    requires var n' := if n < h then n else n - h;
             && Eq(xe, h * Plus(x[..h], x[h..])[n'], m)
             && Eq(xo, h * Twist(Minus(x[..h], x[h..]), w)[n'], m)
    ensures Eq(xe + Pw(z, n) * xo, (2 * h) * x[n], m)
  {
    hide Eq, HalfTurn, Pw, Plus, Minus, Twist;
    var n', y := if n < h then n else n - h, Pw(z, n);
    var s, d := x[n'] + x[n' + h], x[n'] - x[n' + h];
    var t := d * Pw(w, n');
    assert Plus(x[..h], x[h..])[n'] == s by { PlusAt(x, h, n'); }
    assert Twist(Minus(x[..h], x[h..]), w)[n'] == t by { TwistAt(x, h, n', w); }
    Untwist(w, z, d, h, n, m);
    var u := if n < h then d else -d;
    RecombineScalars(xe, xo, y, h, s, t, u, m);
    TwiceOne(h, s + u, x[n]);
  }

  lemma {:induction false} PlusAt(x: seq<int>, h: nat, n: nat)
    requires |x| == 2 * h && n < h
    ensures Plus(x[..h], x[h..])[n] == x[n] + x[n + h]
  {
  }

  lemma {:induction false} TwistAt(x: seq<int>, h: nat, n: nat, w: int)
    requires |x| == 2 * h && n < h
    ensures Twist(Minus(x[..h], x[h..]), w)[n] == (x[n] - x[n + h]) * Pw(w, n)
  {
    hide Pw;
  }

  lemma {:induction false} RecombineScalars(xe: int, xo: int, y: int, h: int, s: int, t: int, u: int, m: int)
    requires m > 0 && Eq(xe, h * s, m) && Eq(xo, h * t, m) && Eq(y * t, u, m)
    ensures Eq(xe + y * xo, h * (s + u), m)
  {
    hide Eq;
    EqSelf(y, m);
    EqMul(y, y, xo, h * t, m);
    EqSelf(h, m);
    EqMul(h, h, y * t, u, m);
    Swap3(y, h, t);
    EqTrans(y * xo, h * (y * t), h * u, m);
    EqAdd(xe, h * s, y * xo, h * u, m);
    Spread(h, s, u);
  }

  lemma {:induction false} Swap3(y: int, h: int, t: int)
    ensures y * (h * t) == h * (y * t)
  {
    MulAssoc(y, h, t);
    MulAssoc(h, y, t);
  }

  lemma {:induction false} TwiceOne(h: int, s: int, v: int)
    requires s == 2 * v
    ensures h * s == (2 * h) * v
  {
    MulAssoc(h, 2, v);
  }

  // ---------- cyclic convolution ----------

  function Rotate(s: seq<int>): (r: seq<int>)
    requires s != []
    ensures |r| == |s|
  {
    [s[|s| - 1]] + s[..|s| - 1]
  }

  function Zeros(n: nat): (r: seq<int>)
    ensures |r| == n
  {
    seq(n, _ => 0)
  }

  /** The product of two polynomials modulo x^N - 1, N the length of b. */
  function Cyclic(a: seq<int>, b: seq<int>): (r: seq<int>)
    requires b != []
    ensures |r| == |b|
    decreases |a|
  {
    if a == [] then Zeros(|b|) else Plus(Scaled(a[0], b), Rotate(Cyclic(a[1..], b)))
  }

  /** a[0] * b[i] + a[1] * b[i - 1] + ..., the places of b counted round the circle. */
  function Convolved(a: seq<int>, b: seq<int>, i: int): int
    requires b != []
    decreases |a|
  {
    if a == [] then 0 else a[0] * b[i % |b|] + Convolved(a[1..], b, i - 1)
  }

  lemma {:induction false} ConvolvedWraps(a: seq<int>, b: seq<int>, i: int)
    requires b != []
    ensures Convolved(a, b, i) == Convolved(a, b, i + |b|)
    decreases |a|
  {
    if a != [] {
      ConvolvedWraps(a[1..], b, i - 1);
      WrapIndex(i, |b|);
    }
  }

  lemma {:induction false} WrapIndex(i: int, n: int)
    requires n > 0
    ensures (i + n) % n == i % n
  {
    var q, r := i / n, i % n;
    assert i + n == n * (q + 1) + r;
    ModUnique(i + n, n, q + 1, r);
  }

  lemma {:induction false} ModUnique(x: int, n: int, q: int, r: int)
    requires n > 0 && x == n * q + r && 0 <= r < n
    ensures x % n == r
  {
    var d := x / n - q;
    assert x == n * (x / n) + x % n;
    assert n * d == r - x % n by { assert n * (x / n - q) == n * (x / n) - n * q; }
    MultipleSize(n, d);
  }

  lemma {:induction false} CyclicStep(a: seq<int>, b: seq<int>, i: nat)
    requires b != [] && i < |b| && a != []
    ensures var before := if i == 0 then |b| - 1 else i - 1;
            Cyclic(a, b)[i] == a[0] * b[i] + Cyclic(a[1..], b)[before]
  {
    var c := Cyclic(a[1..], b);
    assert Rotate(c)[i] == if i == 0 then c[|b| - 1] else c[i - 1];
  }

  lemma {:induction false} ConvolvedStep(a: seq<int>, b: seq<int>, i: nat)
    requires b != [] && i < |b| && a != []
    ensures Convolved(a, b, i) == a[0] * b[i] + Convolved(a[1..], b, i - 1)
  {
    ModUnique(i, |b|, 0, i);
  }

  /** The recursive product has the usual coefficients. */
  lemma {:induction false} CyclicAt(a: seq<int>, b: seq<int>, i: nat)
    requires b != [] && i < |b|
    ensures Cyclic(a, b)[i] == Convolved(a, b, i)
    decreases |a|
  {
    hide Cyclic, Convolved;
    if a == [] {
      CyclicNothing(b, i);
    } else {
      CyclicStep(a, b, i);
      ConvolvedStep(a, b, i);
      if i == 0 {
        CyclicAt(a[1..], b, |b| - 1);
        ConvolvedWraps(a[1..], b, -1);
      } else {
        CyclicAt(a[1..], b, i - 1);
      }
    }
  }

  lemma {:induction false} CyclicNothing(b: seq<int>, i: nat)
    requires b != [] && i < |b|
    ensures Cyclic([], b)[i] == Convolved([], b, i)
  {
  }

  lemma {:induction false} EvalRotate(s: seq<int>, z: int, m: int)
    requires m > 0 && s != [] && Eq(Pw(z, |s|), 1, m)
    ensures Eq(Eval(Rotate(s), z), z * Eval(s, z), m)
  {
    hide Eq, Eval, Pw, Rotate;
    var n, last, init := |s|, s[|s| - 1], s[..|s| - 1];
    EvalLast(s, z);
    RotateStep(z, Eval(init, z), Pw(z, n - 1), last);
    RotateFirst(Pw(z, n), last, z * Eval(init, z), m);
  }

  /** A text of coefficients by its last one, and rotated. */
  lemma {:induction false} EvalLast(s: seq<int>, z: int)
    requires s != []
    ensures var n, last, init := |s|, s[|s| - 1], s[..|s| - 1];
            && Eval(s, z) == Eval(init, z) + Pw(z, n - 1) * last
            && Eval(Rotate(s), z) == last + z * Eval(init, z)
            && Pw(z, n) == z * Pw(z, n - 1)
  {
    var last, init := s[|s| - 1], s[..|s| - 1];
    assert s == init + [last];
    EvalConcat(init, [last], z);
    assert Eval([last], z) == last + z * Eval([], z);
    assert Rotate(s)[1..] == init;
  }

  lemma {:induction false} RotateFirst(p: int, last: int, rest: int, m: int)
    requires m > 0 && Eq(p, 1, m)
    ensures Eq(last + rest, p * last + rest, m)
  {
    hide Eq;
    EqSelf(last, m);
    EqMul(p, 1, last, last, m);
    EqSym(p * last, last, m);
    EqSelf(rest, m);
    EqAdd(last, p * last, rest, rest, m);
  }

  lemma {:induction false} RotateStep(z: int, e: int, p: int, last: int)
    ensures z * (e + p * last) == (z * p) * last + z * e
  {
    Spread(z, e, p * last);
    MulAssoc(z, p, last);
  }

  lemma {:induction false} EvalZeros(n: nat, z: int)
    ensures Eval(Zeros(n), z) == 0
    decreases n
  {
    if n > 0 {
      assert Zeros(n)[1..] == Zeros(n - 1);
      EvalZeros(n - 1, z);
    }
  }

  /** Multiplying transform values is transforming the cyclic convolution. */
  lemma {:induction false} Convolution(a: seq<int>, b: seq<int>, z: int, m: int)
    requires m > 0 && b != [] && Eq(Pw(z, |b|), 1, m)
    ensures Eq(Eval(Cyclic(a, b), z), Eval(a, z) * Eval(b, z), m)
    decreases |a|
  {
    hide Eq, Rotate;
    if a == [] {
      EvalZeros(|b|, z);
      EqSelf(0, m);
    } else {
      var c := Cyclic(a[1..], b);
      Convolution(a[1..], b, z, m);
      EvalPlus(Scaled(a[0], b), Rotate(c), z);
      EvalScaled(a[0], b, z);
      EvalRotate(c, z, m);
      ConvolutionEq(a[0], z, Eval(a[1..], z), Eval(b, z), Eval(c, z), Eval(Rotate(c), z), m);
    }
  }

  lemma {:induction false} ConvolutionEq(x: int, z: int, e: int, f: int, c: int, r: int, m: int)
    requires m > 0 && Eq(c, e * f, m) && Eq(r, z * c, m)
    ensures Eq(x * f + r, (x + z * e) * f, m)
  {
    hide Eq;
    EqSelf(z, m);
    EqMul(z, z, c, e * f, m);
    EqTrans(r, z * c, z * (e * f), m);
    EqSelf(x * f, m);
    EqAdd(x * f, x * f, r, z * (e * f), m);
    ConvolutionStep(x, z, e, f);
  }

  lemma {:induction false} ConvolutionStep(c: int, z: int, e: int, f: int)
    ensures c * f + z * (e * f) == (c + z * e) * f
  {
    MulAssoc(z, e, f);
    assert (c + z * e) * f == c * f + (z * e) * f;
  }

  /** Every power of a root of order 2h is 1 to the 2h. */
  lemma {:induction false} FullTurn(w: int, h: nat, j: nat, m: int)
    requires m > 0 && HalfTurn(w, h, m)
    ensures Eq(Pw(Pw(w, j), 2 * h), 1, m)
  {
    hide Eq, HalfTurn;
    PwMul(Pw(w, j), 2, h);
    PwSmall(Pw(w, j));
    PwAdd(w, j, j);
    TurnPower(w, h, 2 * j, m);
  }

  lemma {:induction false} LengthCancels(norm: int, n: int, c: int, x: int, m: int)
    requires m > 0 && Eq(norm * n, 1, m) && Eq(x, n * c, m)
    ensures Eq(norm * x, c, m)
  {
    hide Eq;
    EqSelf(norm, m);
    EqMul(norm, norm, x, n * c, m);
    EqSelf(c, m);
    EqMul(norm * n, 1, c, c, m);
    MulAssoc(norm, n, c);
    EqTrans(norm * x, norm * (n * c), c, m);
  }

  lemma {:induction false} DftSame(f: seq<int>, g: seq<int>, v: int, u: nat, m: int)
    requires m > 0 && Same(f, g, m)
    ensures Eq(Dft(f, v, u), Dft(g, v, u), m)
  {
    EqSelf(Pw(v, u), m);
    EvalEq(f, g, Pw(v, u), Pw(v, u), m);
  }
}
