/** One pass of the transform over an array: P partial transforms side by side become 2P. */
module NttStage {
  import opened Limbs
  import opened Modular
  import opened Fourier
  import opened NttArith

  function At(s: seq<Limb>, i: int): int {
    if 0 <= i < |s| then s[i] else 0
  }

  /** Every P-th element from j on. */
  function Col(s: seq<Limb>, p: nat, n: nat, j: int): (r: seq<int>)
    ensures |r| == n
  {
    seq(n, b => At(s, p * b + j))
  }

  /** Place p * t + j of the transform of x is place t of the transform of column j. */
  ghost predicate Cell(s: seq<Limb>, x: seq<int>, p: nat, n: nat, w: int, top: int, m: int, j: nat, t: nat)
    requires m > 0
  {
    p * t + j >= 0 && Eq(Dft(x, top, p * t + j), Dft(Col(s, p, n, j), w, t), m)
  }

  ghost predicate Partial(s: seq<Limb>, x: seq<int>, p: nat, n: nat, w: int, top: int, m: int)
    requires m > 0
  {
    forall j: nat, t: nat :: j < p && t < n ==> Cell(s, x, p, n, w, top, m, j, t)
  }

  ghost predicate Butterfly(s: seq<Limb>, t: seq<Limb>, p: nat, h: nat, w: int, m: int, i: nat, j: nat)
    requires m > 0
  {
    && Eq(At(t, 2 * p * i + j), At(s, p * i + j) + At(s, p * (i + h) + j), m)
    && Eq(At(t, 2 * p * i + (p + j)), (At(s, p * i + j) - At(s, p * (i + h) + j)) * Pw(w, i), m)
  }

  ghost predicate Stage(s: seq<Limb>, t: seq<Limb>, p: nat, h: nat, w: int, m: int)
    requires m > 0
  {
    forall i: nat, j: nat :: i < h && j < p ==> Butterfly(s, t, p, h, w, m, i, j)
  }

  lemma {:induction false} StageColumns(s: seq<Limb>, t: seq<Limb>, p: nat, h: nat, w: int, m: int, j: nat)
    requires m > 0 && j < p && Stage(s, t, p, h, w, m)
    ensures var c := Col(s, p, 2 * h, j);
            && Same(Plus(c[..h], c[h..]), Col(t, 2 * p, h, j), m)
            && Same(Twist(Minus(c[..h], c[h..]), w), Col(t, 2 * p, h, p + j), m)
  {
    hide Eq, At, Pw;
    var c := Col(s, p, 2 * h, j);
    forall i | 0 <= i < h
      ensures Eq(Plus(c[..h], c[h..])[i], Col(t, 2 * p, h, j)[i], m)
      ensures Eq(Twist(Minus(c[..h], c[h..]), w)[i], Col(t, 2 * p, h, p + j)[i], m)
    {
      assert Butterfly(s, t, p, h, w, m, i, j);
      assert c[..h][i] == At(s, p * i + j) && c[h..][i] == c[h + i] == At(s, p * (i + h) + j);
      EqSym(At(t, 2 * p * i + j), At(s, p * i + j) + At(s, p * (i + h) + j), m);
      EqSym(At(t, 2 * p * i + (p + j)), (At(s, p * i + j) - At(s, p * (i + h) + j)) * Pw(w, i), m);
    }
  }

  /** A stage halves the columns and doubles their number. */
  lemma {:induction false} StagePartial(s: seq<Limb>, t: seq<Limb>, x: seq<int>, p: nat, h: nat, w: int, v: int, top: int, m: int)
    requires m > 0 && Partial(s, x, p, 2 * h, w, top, m) && Stage(s, t, p, h, w, m)
    requires HalfTurn(w, h, m) && Eq(w * w, v, m)
    ensures Partial(t, x, 2 * p, h, v, top, m)
  {
    hide Eq, Dft, Stage, HalfTurn, Cell;
    forall j': nat, u: nat | j' < 2 * p && u < h ensures Cell(t, x, 2 * p, h, v, top, m, j', u) {
      CellStep(s, t, x, p, h, w, v, top, m, j', u);
    }
  }

  lemma {:induction false} CellStep(s: seq<Limb>, t: seq<Limb>, x: seq<int>, p: nat, h: nat, w: int, v: int, top: int, m: int,
                                    j': nat, u: nat)
    requires m > 0 && Partial(s, x, p, 2 * h, w, top, m) && Stage(s, t, p, h, w, m)
    requires HalfTurn(w, h, m) && Eq(w * w, v, m) && j' < 2 * p && u < h
    ensures Cell(t, x, 2 * p, h, v, top, m, j', u)
  {
    hide Eq, Dft, Stage, HalfTurn, Col, Same, Plus, Minus, Twist;
    var j := if j' < p then j' else j' - p;
    var k := if j' < p then 2 * u else 2 * u + 1;
    var c, c' := Col(s, p, 2 * h, j), Col(t, 2 * p, h, j');
    var f := if j' < p then Plus(c[..h], c[h..]) else Twist(Minus(c[..h], c[h..]), w);
    StageColumns(s, t, p, h, w, m, j);
    Halve(c, h, w, v, u, m);
    EqSelf(Pw(v, u), m);
    DftSame(f, c', v, u, m);
    assert Cell(s, x, p, 2 * h, w, top, m, j, k);
    PlaceSplit(p, u, j, j');
    EqTrans(Dft(x, top, p * k + j), Dft(c, w, k), Dft(f, v, u), m);
    EqTrans(Dft(x, top, p * k + j), Dft(f, v, u), Dft(c', v, u), m);
  }

  lemma {:induction false} PlaceSplit(p: nat, u: nat, j: nat, j': nat)
    requires j' == j || j' == p + j
    ensures 2 * p * u + j' >= 0
    ensures j' == j ==> 2 * p * u + j' == p * (2 * u) + j
    ensures j' == p + j ==> 2 * p * u + j' == p * (2 * u + 1) + j
  {
  }

  /** At the start there is one column, the input. */
  lemma {:induction false} PartialStart(s: seq<Limb>, x: seq<int>, w: int, m: int)
    requires m > 0 && |x| == |s| && forall i :: 0 <= i < |s| ==> x[i] == s[i]
    ensures Partial(s, x, 1, |s|, w, w, m)
  {
    hide Eq, Dft;
    assert Col(s, 1, |s|, 0) == x;
    forall j: nat, t: nat | j < 1 && t < |s| ensures Cell(s, x, 1, |s|, w, w, m, j, t) {
      EqSelf(Dft(x, w, t), m);
    }
  }

  /** At the end every column is a single value of the transform. */
  lemma {:induction false} PartialEnd(s: seq<Limb>, x: seq<int>, p: nat, w: int, top: int, m: int, k: nat)
    requires m > 0 && Partial(s, x, p, 1, w, top, m) && k < p == |s|
    ensures Eq(s[k], Dft(x, top, k), m)
  {
    hide Eq;
    assert Cell(s, x, p, 1, w, top, m, k, 0);
    var c := Col(s, p, 1, k);
    assert Eval(c, 1) == c[0] + 1 * Eval(c[1..], 1) && c[1..] == [];
    EqSym(Dft(x, top, k), s[k], m);
  }

  // ---------- the loops ----------

  ghost predicate Small(s: seq<Limb>, m: int) {
    forall i :: 0 <= i < |s| ==> s[i] < 2 * m
  }

  /** What a butterfly makes of the pair a0, a1 with the factor c. */
  ghost predicate Crossed(b0: int, b1: int, a0: int, a1: int, c: int, m: int)
    requires m > 0
  {
    b0 < 2 * m && b1 < 2 * m && Eq(b0, a0 + a1, m) && Eq(b1, (a0 - a1) * c, m)
  }

  method Cross(a0: Limb, a1: Limb, c: Limb, cInv: Limb, m: Limb) returns (b0: Limb, b1: Limb)
    requires IsModulus(m) && c < m && cInv == InitMulModFast2(c, m) && a0 < 2 * m && a1 < 2 * m
    ensures Crossed(b0, b1, a0, a1, c, m)
  {
    hide Eq, InitMulModFast2;
    var m2 := 2 * m;
    b0 := AddMod(a0, a1, m2);
    b1 := a0 + (m2 - a1);
    b1 := MulModFast3(b1, c, m, cInv);
    Twiddled(a0, a1, b0, b1, c, m);
  }

  /** The inner loop: one twiddle factor, p butterflies. */
  method Block(tabIn: array<Limb>, tabOut: array<Limb>, k: nat, q: nat, p: nat, stride: nat, c: Limb, cInv: Limb, m: Limb)
    requires IsModulus(m) && c < m && cInv == InitMulModFast2(c, m) && tabIn != tabOut
    requires k + p <= stride && stride + k + p <= tabIn.Length && q + 2 * p <= tabOut.Length && Small(tabIn[..], m)
    modifies tabOut
    ensures forall i :: 0 <= i < tabOut.Length && !(q <= i < q + 2 * p) ==> tabOut[i] == old(tabOut[i])
    ensures forall j :: 0 <= j < p ==> Paired(tabIn[..], tabOut[..], k, q, p, stride, c, m, j)
  {
    hide Eq, InitMulModFast2, Crossed;
    var j := 0;
    ghost var s := tabIn[..];
    while j < p
      invariant 0 <= j <= p
      invariant forall i :: 0 <= i < tabOut.Length && !(q <= i < q + 2 * p) ==> tabOut[i] == old(tabOut[i])
      invariant forall i :: 0 <= i < j ==> Paired(s, tabOut[..], k, q, p, stride, c, m, i)
    {
      assert s[k + j] == tabIn[k + j] && s[k + j + stride] == tabIn[k + j + stride];
      ghost var t0 := tabOut[..];
      var b0, b1 := Cross(tabIn[k + j], tabIn[k + j + stride], c, cInv, m);
      tabOut[q + j], tabOut[q + j + p] := b0, b1;
      forall i | 0 <= i < j ensures Paired(s, tabOut[..], k, q, p, stride, c, m, i) {
        assert Paired(s, t0, k, q, p, stride, c, m, i);
      }
      j := j + 1;
    }
  }

  ghost predicate Paired(s: seq<Limb>, t: seq<Limb>, k: nat, q: nat, p: nat, stride: nat, c: int, m: int, j: nat)
    requires m > 0 && stride + k + j < |s| && q + j + p < |t|
  {
    Crossed(t[q + j], t[q + j + p], s[k + j], s[k + j + stride], c, m)
  }

  lemma {:induction false} Twiddled(a0: Limb, a1: Limb, b0: Limb, r: Limb, c: Limb, m: Limb)
    requires IsModulus(m) && a0 < 2 * m && a1 < 2 * m && (b0 == a0 + a1 || b0 == a0 + a1 - 2 * m)
    requires Eq(r, (a0 + (2 * m - a1)) * c, m)
    ensures Eq(b0, a0 + a1, m) && Eq(r, (a0 as int - a1) * c, m)
  {
    hide Eq;
    if b0 == a0 + a1 { EqSelf(b0, m); } else { EqBy(b0, a0 + a1, m, -2); }
    EqBy(a0 + (2 * m - a1), a0 as int - a1, m, 2);
    EqSelf(c, m);
    EqMul(a0 + (2 * m - a1), a0 as int - a1, c, c, m);
    EqTrans(r, (a0 + (2 * m - a1)) * c, (a0 as int - a1) * c, m);
  }
}
