/** The split of a long transform into columns and rows: why transforming the columns, multiplying
    the rows cyclically and transforming the columns back multiplies the whole. */
module FourStep {
  import opened Limbs
  import opened Modular
  import opened Fourier

  /** n1 rows of n2 coefficients, one behind the other. */
  ghost predicate Grid(a: seq<int>, n1: nat, n2: nat) {
    |a| == n1 * n2
  }

  lemma {:induction false} GridRest(a: seq<int>, n1: nat, n2: nat)
    requires Grid(a, n1, n2) && n1 >= 1
    ensures n2 <= |a| && Grid(a[n2..], n1 - 1, n2)
  {
    assert n1 * n2 == n2 + (n1 - 1) * n2;
    assert (n1 - 1) * n2 >= 0;
  }

  /** Where row i meets column j. */
  function Place(n2: nat, i: nat, j: nat): (p: nat) {
    i * n2 + j
  }

  lemma {:induction false} PlaceIn(n1: nat, n2: nat, i: nat, j: nat)
    requires i < n1 && j < n2
    ensures Place(n2, i, j) < n1 * n2
  {
    assert (n1 - 1 - i) * n2 >= 0;
    assert n1 * n2 == (n1 - 1 - i) * n2 + i * n2 + n2;
  }

  /** The coefficients at one place of every row. */
  function Column(a: seq<int>, n1: nat, n2: nat, j: nat): (r: seq<int>)
    requires Grid(a, n1, n2) && j < n2
    ensures |r| == n1
  {
    seq(n1, i requires 0 <= i < n1 => PlaceIn(n1, n2, i, j); a[Place(n2, i, j)])
  }

  /** The rows added up with the powers of y: what each column evaluates to at y. */
  function Mix(a: seq<int>, n1: nat, n2: nat, y: int): (r: seq<int>)
    requires Grid(a, n1, n2)
    ensures |r| == n2
    decreases n1
  {
    if n1 == 0 then Zeros(n2)
    else
      GridRest(a, n1, n2);
      Plus(a[..n2], Scaled(y, Mix(a[n2..], n1 - 1, n2, y)))
  }

  lemma {:induction false} ColumnFirst(a: seq<int>, n1: nat, n2: nat, j: nat)
    requires Grid(a, n1, n2) && n1 >= 1 && j < n2
    ensures n2 <= |a| && Grid(a[n2..], n1 - 1, n2)
    ensures Column(a, n1, n2, j) == [a[j]] + Column(a[n2..], n1 - 1, n2, j)
  {
    GridRest(a, n1, n2);
    var c, d := Column(a, n1, n2, j), [a[j]] + Column(a[n2..], n1 - 1, n2, j);
    forall i | 0 <= i < n1 ensures c[i] == d[i] {
      PlaceIn(n1, n2, i, j);
      if i == 0 {
        assert Place(n2, 0, j) == j;
      } else {
        PlaceIn(n1 - 1, n2, i - 1, j);
        assert Place(n2, i, j) == n2 + Place(n2, i - 1, j);
      }
    }
  }

  lemma {:induction false} MixAt(a: seq<int>, n1: nat, n2: nat, y: int, j: nat)
    requires Grid(a, n1, n2) && j < n2
    ensures Mix(a, n1, n2, y)[j] == Eval(Column(a, n1, n2, j), y)
    decreases n1
  {
    if n1 > 0 {
      ColumnFirst(a, n1, n2, j);
      MixAt(a[n2..], n1 - 1, n2, y, j);
      var c := Column(a, n1, n2, j);
      assert c[1..] == Column(a[n2..], n1 - 1, n2, j);
    }
  }

  /** Where the step from one row to the next is worth y, mixing the rows keeps the value. */
  lemma {:induction false} MixEval(a: seq<int>, n1: nat, n2: nat, y: int, z: int, m: int)
    requires m > 0 && Grid(a, n1, n2) && Eq(Pw(z, n2), y, m)
    ensures Eq(Eval(Mix(a, n1, n2, y), z), Eval(a, z), m)
    decreases n1
  {
    hide Eq;
    if n1 == 0 {
      assert a == [];
      EvalZeros(n2, z);
      EqSelf(0, m);
    } else {
      GridRest(a, n1, n2);
      var rest := Mix(a[n2..], n1 - 1, n2, y);
      MixEval(a[n2..], n1 - 1, n2, y, z, m);
      EvalPlus(a[..n2], Scaled(y, rest), z);
      EvalScaled(y, rest, z);
      EvalConcat(a[..n2], a[n2..], z);
      assert a == a[..n2] + a[n2..];
      EqSym(Pw(z, n2), y, m);
      EqMul(y, Pw(z, n2), Eval(rest, z), Eval(a[n2..], z), m);
      EqSelf(Eval(a[..n2], z), m);
      EqAdd(Eval(a[..n2], z), Eval(a[..n2], z), y * Eval(rest, z), Pw(z, n2) * Eval(a[n2..], z), m);
    }
  }

  /** Row i after the columns are transformed with v and multiplied by powers of w. */
  ghost function RowOf(a: seq<int>, n1: nat, n2: nat, v: int, w: int, i: nat): (r: seq<int>)
    requires Grid(a, n1, n2)
    ensures |r| == n2
  {
    Twist(Mix(a, n1, n2, Pw(v, i)), Pw(w, i))
  }

  /** The step from row to row: the n2-nd power of the root w of the whole is the root v of a column. */
  ghost predicate Steps(w: int, n2: nat, v: int, m: int)
    requires m > 0
  {
    Eq(Pw(w, n2), v, m)
  }

  /** At a root z of order n2, row i has the value of the whole at w^i z. */
  lemma {:induction false} RowEval(a: seq<int>, n1: nat, n2: nat, v: int, w: int, i: nat, z: int, m: int)
    requires m > 0 && Grid(a, n1, n2) && Steps(w, n2, v, m) && Eq(Pw(z, n2), 1, m)
    ensures Eq(Eval(RowOf(a, n1, n2, v, w, i), z), Eval(a, Pw(w, i) * z), m)
  {
    hide Eq, Mix, Grid;
    var y := Pw(w, i) * z;
    EvalTwist(Mix(a, n1, n2, Pw(v, i)), Pw(w, i), z);
    RowStep(w, n2, v, i, z, m);
    MixEval(a, n1, n2, Pw(v, i), y, m);
  }

  lemma {:induction false} RowStep(w: int, n2: nat, v: int, i: nat, z: int, m: int)
    requires m > 0 && Steps(w, n2, v, m) && Eq(Pw(z, n2), 1, m)
    ensures Eq(Pw(Pw(w, i) * z, n2), Pw(v, i), m)
  {
    hide Eq;
    PwProduct(Pw(w, i), z, n2);
    PwSwap(w, i, n2);
    PwEq(Pw(w, n2), v, i, m);
    EqMul(Pw(Pw(w, n2), i), Pw(v, i), Pw(z, n2), 1, m);
  }

  lemma {:induction false} PwSwap(w: int, d: nat, e: nat)
    ensures Pw(Pw(w, d), e) == Pw(Pw(w, e), d)
  {
    PwMul(w, d, e);
    PwMul(w, e, d);
    assert d * e == e * d;
  }

  /** Every power of w times a root of order n2 is a root of order n1 n2. */
  lemma {:induction false} WholeTurn(w: int, n1: nat, n2: nat, v: int, i: nat, z: int, m: int)
    requires m > 0 && Steps(w, n2, v, m) && Eq(Pw(z, n2), 1, m) && Eq(Pw(v, n1), 1, m)
    ensures n1 * n2 >= 0 && Eq(Pw(Pw(w, i) * z, n1 * n2), 1, m)
  {
    hide Eq;
    var y := Pw(w, i) * z;
    RowStep(w, n2, v, i, z, m);
    PwMul(y, n2, n1);
    assert n2 * n1 == n1 * n2;
    PwEq(Pw(y, n2), Pw(v, i), n1, m);
    PwSwap(v, i, n1);
    PwEq(Pw(v, n1), 1, i, m);
    PwOne(i);
    EqTrans(Pw(Pw(y, n2), n1), Pw(Pw(v, i), n1), 1, m);
  }

  // ---------- rows of the product ----------

  /** Multiplying row i of both factors cyclically gives row i of the cyclic product, as far as its
      values at a root of order n2 tell. */
  lemma {:induction false} RowProductAt(a: seq<int>, b: seq<int>, n1: nat, n2: nat, v: int, w: int, i: nat, s: seq<int>, t: seq<int>,
                                        z: int, m: int)
    requires m > 0 && n1 >= 1 && n2 >= 1 && Grid(a, n1, n2) && Grid(b, n1, n2) && |b| >= 1
    requires Steps(w, n2, v, m) && Eq(Pw(z, n2), 1, m) && Eq(Pw(v, n1), 1, m)
    requires Same(s, RowOf(a, n1, n2, v, w, i), m) && Same(t, RowOf(b, n1, n2, v, w, i), m)
    ensures Grid(Cyclic(a, b), n1, n2)
    ensures Eq(Eval(Cyclic(s, t), z), Eval(RowOf(Cyclic(a, b), n1, n2, v, w, i), z), m)
  {
    hide Eq, RowOf, Same, Cyclic, Eval, Steps;
    var y, c := Pw(w, i) * z, Cyclic(a, b);
    RowValue(a, n1, n2, v, w, i, s, z, m);
    RowValue(b, n1, n2, v, w, i, t, z, m);
    assert |t| == n2 by { SameLength(t, RowOf(b, n1, n2, v, w, i), m); }
    Convolution(s, t, z, m);
    WholeTurn(w, n1, n2, v, i, z, m);
    Convolution(a, b, y, m);
    EqMul(Eval(s, z), Eval(a, y), Eval(t, z), Eval(b, y), m);
    EqTrans(Eval(Cyclic(s, t), z), Eval(s, z) * Eval(t, z), Eval(a, y) * Eval(b, y), m);
    EqSym(Eval(c, y), Eval(a, y) * Eval(b, y), m);
    EqTrans(Eval(Cyclic(s, t), z), Eval(a, y) * Eval(b, y), Eval(c, y), m);
    RowEval(c, n1, n2, v, w, i, z, m);
    EqSym(Eval(RowOf(c, n1, n2, v, w, i), z), Eval(c, y), m);
    EqTrans(Eval(Cyclic(s, t), z), Eval(c, y), Eval(RowOf(c, n1, n2, v, w, i), z), m);
  }

  lemma {:induction false} SameLength(s: seq<int>, t: seq<int>, m: int)
    requires m > 0 && Same(s, t, m)
    ensures |s| == |t|
  {
  }

  lemma {:induction false} RowValue(a: seq<int>, n1: nat, n2: nat, v: int, w: int, i: nat, s: seq<int>, z: int, m: int)
    requires m > 0 && Grid(a, n1, n2) && Steps(w, n2, v, m) && Eq(Pw(z, n2), 1, m)
    requires Same(s, RowOf(a, n1, n2, v, w, i), m)
    ensures Eq(Eval(s, z), Eval(a, Pw(w, i) * z), m)
  {
    hide Eq, RowOf, Same, Steps;
    var r := RowOf(a, n1, n2, v, w, i);
    EqSelf(z, m);
    EvalEq(s, r, z, z, m);
    RowEval(a, n1, n2, v, w, i, z, m);
    EqTrans(Eval(s, z), Eval(r, z), Eval(a, Pw(w, i) * z), m);
  }

  /** Sequences with the same transform are the same, where their length can be divided by. */
  lemma {:induction false} SameTransform(s: seq<int>, t: seq<int>, k: nat, roots: seq<int>, inv: seq<int>, c: int, m: int)
    requires m > 0 && k >= 1 && |s| == |t| == Two(k) && k < |roots| && k < |inv|
    requires Chain(roots, k, m) && Chain(inv, k, m) && Inverse(roots, inv, k, m) && Eq(c * Two(k), 1, m)
    requires Same(Transform(s, roots[k]), Transform(t, roots[k]), m)
    ensures Same(s, t, m)
  {
    hide Eq, Chain, Inverse, Transform, Dft;
    var w, z, n := roots[k], inv[k], Two(k);
    forall i | 0 <= i < |s| ensures Eq(s[i], t[i], m) {
      Inversion(s, k, w, z, roots, inv, i, m);
      Inversion(t, k, w, z, roots, inv, i, m);
      DftSame(Transform(s, w), Transform(t, w), z, i, m);
      LengthCancels(c, n, s[i], Dft(Transform(s, w), z, i), m);
      LengthCancels(c, n, t[i], Dft(Transform(t, w), z, i), m);
      Divided(c, Dft(Transform(s, w), z, i), Dft(Transform(t, w), z, i), s[i], t[i], m);
    }
  }

  lemma {:induction false} Divided(c: int, x: int, y: int, s: int, t: int, m: int)
    requires m > 0 && Eq(x, y, m) && Eq(c * x, s, m) && Eq(c * y, t, m)
    ensures Eq(s, t, m)
  {
    hide Eq;
    EqSelf(c, m);
    EqMul(c, c, x, y, m);
    EqSym(c * x, s, m);
    EqTrans(s, c * x, c * y, m);
    EqTrans(s, c * y, t, m);
  }

  /** Multiplying row i of both factors cyclically gives row i of the cyclic product. */
  lemma {:induction false} RowProduct(a: seq<int>, b: seq<int>, n1: nat, k2: nat, v: int, w: int, i: nat, s: seq<int>, t: seq<int>,
                                      roots: seq<int>, inv: seq<int>, c: int, m: int)
    requires m > 0 && n1 >= 1 && k2 >= 1 && Grid(a, n1, Two(k2)) && Grid(b, n1, Two(k2)) && |b| >= 1
    requires k2 < |roots| && k2 < |inv| && Chain(roots, k2, m) && Chain(inv, k2, m) && Inverse(roots, inv, k2, m)
    requires Eq(c * Two(k2), 1, m) && Steps(w, Two(k2), v, m) && Eq(Pw(v, n1), 1, m)
    requires Same(s, RowOf(a, n1, Two(k2), v, w, i), m) && Same(t, RowOf(b, n1, Two(k2), v, w, i), m) && |t| >= 1
    ensures Grid(Cyclic(a, b), n1, Two(k2))
    ensures Same(Cyclic(s, t), RowOf(Cyclic(a, b), n1, Two(k2), v, w, i), m)
  {
    hide Eq, RowOf, Same, Cyclic, Steps, Chain, Inverse, Two, Grid;
    var n2, z := Two(k2), roots[k2];
    assert Grid(Cyclic(a, b), n1, n2) by { GridLength(a, b, Cyclic(a, b), n1, n2); }
    var p, r := Cyclic(s, t), RowOf(Cyclic(a, b), n1, n2, v, w, i);
    SameLength(t, RowOf(b, n1, n2, v, w, i), m);
    ChainTurn(roots, k2, m);
    PowerHalf(k2);
    assert Same(Transform(p, z), Transform(r, z), m) by {
      forall l | 0 <= l < n2 ensures Eq(Dft(p, z, l), Dft(r, z, l), m) {
        FullTurn(z, Two(k2 - 1), l, m);
        RowProductAt(a, b, n1, n2, v, w, i, s, t, Pw(z, l), m);
      }
      TransformsSame(p, r, z, m);
    }
    SameTransform(p, r, k2, roots, inv, c, m);
  }

  lemma {:induction false} GridLength(a: seq<int>, b: seq<int>, c: seq<int>, n1: nat, n2: nat)
    requires Grid(b, n1, n2) && |c| == |b|
    ensures Grid(c, n1, n2)
  {
  }

  lemma {:induction false} PowerHalf(k: nat)
    requires k >= 1
    ensures Two(k) == 2 * Two(k - 1) && Two(k) >= 2
  {
  }

  lemma {:induction false} TransformsSame(p: seq<int>, r: seq<int>, z: int, m: int)
    requires m > 0 && |p| == |r| && forall l :: 0 <= l < |p| ==> Eq(Dft(p, z, l), Dft(r, z, l), m)
    ensures Same(Transform(p, z), Transform(r, z), m)
  {
    hide Eq, Dft;
  }

  // ---------- and back ----------

  /** The cell of u holds g times the row of c. */
  ghost predicate CellOf(u: seq<int>, c: seq<int>, n1: nat, n2: nat, v: int, w: int, g: int, i: nat, j: nat, m: int)
    requires m > 0 && Grid(u, n1, n2) && Grid(c, n1, n2) && i < n1 && j < n2
  {
    Eq(Column(u, n1, n2, j)[i], g * RowOf(c, n1, n2, v, w, i)[j], m)
  }

  lemma {:induction false} RowAt(c: seq<int>, n1: nat, n2: nat, v: int, w: int, i: nat, j: nat)
    requires Grid(c, n1, n2) && j < n2
    ensures RowOf(c, n1, n2, v, w, i)[j] == Dft(Column(c, n1, n2, j), v, i) * Pw(Pw(w, j), i)
  {
    hide Mix, Column;
    MixAt(c, n1, n2, Pw(v, i), j);
    PwSwap(w, i, j);
  }

  /** Multiplying by the powers of the inverse root undoes the twist. */
  lemma {:induction false} TwistBack(w: int, w': int, i: nat, j: nat, x: int, y: int, g: int, m: int)
    requires m > 0 && Eq(w * w', 1, m) && Eq(x, g * (y * Pw(Pw(w, j), i)), m)
    ensures Eq(x * Pw(Pw(w', j), i), g * y, m)
  {
    hide Eq;
    var p, q := Pw(Pw(w, j), i), Pw(Pw(w', j), i);
    assert Eq(p * q, 1, m) by {
      PwProduct(w, w', j);
      PwProduct(Pw(w, j), Pw(w', j), i);
      PwEq(w * w', 1, j, m);
      PwOne(j);
      PwEq(Pw(w * w', j), 1, i, m);
      PwOne(i);
    }
    EqSelf(q, m);
    EqMul(x, g * (y * p), q, q, m);
    Regroup(g, y, p, q);
    EqSelf(g * y, m);
    EqMul(g * y, g * y, p * q, 1, m);
    EqTrans(x * q, (g * (y * p)) * q, g * y, m);
  }

  lemma {:induction false} Regroup(g: int, y: int, p: int, q: int)
    ensures (g * (y * p)) * q == (g * y) * (p * q)
  {
    MulAssoc(g, y, p);
    MulAssoc(g * y, p, q);
  }

  /** A column of the rows, twisted back, is the scaled transform of the column of the product. */
  lemma {:induction false} ColumnOfRows(u: seq<int>, c: seq<int>, n1: nat, n2: nat, v: int, w: int, w': int, g: int, j: nat, m: int)
    requires m > 0 && Grid(u, n1, n2) && Grid(c, n1, n2) && j < n2 && Eq(w * w', 1, m)
    requires forall i :: 0 <= i < n1 ==> CellOf(u, c, n1, n2, v, w, g, i, j, m)
    ensures Same(Twist(Column(u, n1, n2, j), Pw(w', j)), Scaled(g, Transform(Column(c, n1, n2, j), v)), m)
  {
    hide Eq, Column, RowOf, Dft;
    var e, d := Column(u, n1, n2, j), Column(c, n1, n2, j);
    forall i | 0 <= i < n1 ensures Eq(e[i] * Pw(Pw(w', j), i), g * Dft(d, v, i), m) {
      assert CellOf(u, c, n1, n2, v, w, g, i, j, m);
      RowAt(c, n1, n2, v, w, i, j);
      TwistBack(w, w', i, j, e[i], Dft(d, v, i), g, m);
    }
  }

  /** Transforming it with the inverse root gives the column, once more scaled. */
  lemma {:induction false} ColumnBack(u: seq<int>, c: seq<int>, k1: nat, n2: nat, w: int, w': int, g: int, j: nat, r: nat,
                                      roots: seq<int>, inv: seq<int>, m: int)
    requires m > 0 && k1 >= 1 && Grid(u, Two(k1), n2) && Grid(c, Two(k1), n2) && j < n2 && r < Two(k1)
    requires k1 < |roots| && k1 < |inv| && Chain(roots, k1, m) && Chain(inv, k1, m) && Inverse(roots, inv, k1, m)
    requires Eq(w * w', 1, m)
    requires forall i :: 0 <= i < Two(k1) ==> CellOf(u, c, Two(k1), n2, roots[k1], w, g, i, j, m)
    ensures Eq(Dft(Twist(Column(u, Two(k1), n2, j), Pw(w', j)), inv[k1], r), g * (Two(k1) * Column(c, Two(k1), n2, j)[r]), m)
  {
    hide Eq, Column, RowOf, Chain, Inverse, Twist, Transform, Same, Two, Grid, CellOf, Eval, Pw;
    var v, v', n1 := roots[k1], inv[k1], Two(k1);
    var e, d := Twist(Column(u, n1, n2, j), Pw(w', j)), Column(c, n1, n2, j);
    ColumnOfRows(u, c, n1, n2, v, w, w', g, j, m);
    DftSame(e, Scaled(g, Transform(d, v)), v', r, m);
    EvalScaled(g, Transform(d, v), Pw(v', r));
    Inversion(d, k1, v, v', roots, inv, r, m);
    EqSelf(g, m);
    EqMul(g, g, Dft(Transform(d, v), v', r), n1 * d[r], m);
    EqTrans(Dft(e, v', r), g * Dft(Transform(d, v), v', r), g * (n1 * d[r]), m);
  }

  // ---------- the roots of a split ----------

  /** Squaring a root k2 times leads k2 levels down. */
  lemma {:induction false} ChainSteps(roots: seq<int>, k: nat, k2: nat, m: int)
    requires m > 0 && k2 < k < |roots| && Chain(roots, k, m)
    ensures Steps(roots[k], Two(k2), roots[k - k2], m)
    decreases k2
  {
    hide Eq, Chain;
    if k2 == 0 {
      PwSmall(roots[k]);
      EqSelf(roots[k], m);
    } else {
      ChainBelow(roots, k, m);
      ChainSteps(roots, k - 1, k2 - 1, m);
      SquarePower(roots[k], roots[k - 1], Two(k2 - 1), m);
      EqTrans(Pw(roots[k], Two(k2)), Pw(roots[k - 1], Two(k2 - 1)), roots[k - k2], m);
    }
  }

  lemma {:induction false} RootTurn(roots: seq<int>, k: nat, m: int)
    requires m > 0 && 1 <= k < |roots| && Chain(roots, k, m)
    ensures Eq(Pw(roots[k], Two(k)), 1, m)
  {
    hide Eq, Chain;
    ChainTurn(roots, k, m);
    PowerHalf(k);
    FullTurn(roots[k], Two(k - 1), 1, m);
    PwSmall(roots[k]);
  }
}
