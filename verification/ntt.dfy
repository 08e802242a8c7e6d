/** The number theoretic transform and the cyclic convolution computed with it. */
module Ntt {
  import opened Limbs
  import opened Modular
  import opened Fourier
  import opened NttArith
  import opened NttStage

  const NTT_TRIG_K_MAX := 19

  /** The tables ntt_static_init fills for one modulus and one direction: for every k a root of
      order 2^k and its precomputed inverse for multiplication. */
  datatype Roots = Roots(pow: seq<Limb>, inv: seq<Limb>)

  ghost predicate Prepared(r: Roots, i: nat, m: Limb)
    requires m > 0 && i < |r.pow| == |r.inv|
  {
    r.pow[i] < m && r.inv[i] == InitMulModFast2(r.pow[i], m)
  }

  ghost predicate RootsOk(r: Roots, k: nat, m: Limb)
    requires m > 0
  {
    && k < |r.pow| == |r.inv| && Chain(r.pow, k, m)
    && forall i :: 0 <= i <= k ==> Prepared(r, i, m)
  }

  /** The twiddle factors w^i and their precomputed inverses, side by side. */
  ghost predicate TrigOk(trig: seq<Limb>, n: nat, w: int, m: Limb)
    requires IsModulus(m)
  {
    |trig| == 2 * n && forall i :: 0 <= i < n ==> Factor(trig, i, w, m)
  }

  ghost predicate Factor(trig: seq<Limb>, i: nat, w: int, m: Limb)
    requires IsModulus(m) && 2 * i + 1 < |trig|
  {
    trig[2 * i] < m && trig[2 * i + 1] == InitMulModFast2(trig[2 * i], m) && Eq(trig[2 * i], Pw(w, i), m)
  }

  /** get_trig, without the cache. */
  method GetTrig(k: nat, roots: Roots, m: Limb) returns (trig: array<Limb>)
    requires IsModulus(m) && k >= 1 && RootsOk(roots, k, m)
    ensures fresh(trig) && TrigOk(trig[..], Two(k - 1), roots.pow[k], m)
  {
    hide Eq, Chain, InitMulModFast2, Pw, Factor;
    assert Prepared(roots, k, m);
    var n2 := Two(k - 1);
    trig := new Limb[2 * n2];
    var c: Limb := 1;
    var cMul, cMulInv := roots.pow[k], roots.inv[k];
    var i := 0;
    PowerStart(cMul, m);
    while i < n2
      invariant 0 <= i <= n2 && c < m && Eq(c, Pw(cMul, i), m)
      invariant forall j :: 0 <= j < i ==> Factor(trig[..], j, cMul, m)
    {
      ghost var t0 := trig[..];
      trig[2 * i] := c;
      trig[2 * i + 1] := InitMulModFast2(c, m);
      FactorSet(t0, trig[..], i, c, cMul, m);
      ghost var c0 := c;
      c := MulModFast2(c, cMul, m, cMulInv);
      NextPower(c0, c, cMul, i, m);
      i := i + 1;
    }
  }

  lemma {:induction false} PowerStart(w: int, m: Limb)
    requires IsModulus(m)
    ensures Eq(1, Pw(w, 0), m)
  {
    EqSelf(1, m);
  }

  lemma {:induction false} FactorSet(t0: seq<Limb>, t: seq<Limb>, i: nat, c: Limb, w: int, m: Limb)
    requires IsModulus(m) && c < m && Eq(c, Pw(w, i), m) && 2 * i + 1 < |t0|
    requires t == t0[2 * i := c][2 * i + 1 := InitMulModFast2(c, m)]
    requires forall j :: 0 <= j < i ==> Factor(t0, j, w, m)
    ensures forall j :: 0 <= j <= i ==> Factor(t, j, w, m)
  {
    hide Eq, InitMulModFast2, Pw;
    forall j | 0 <= j <= i ensures Factor(t, j, w, m) {
      if j < i { assert Factor(t0, j, w, m); }
    }
  }

  lemma {:induction false} NextPower(c0: int, c: int, w: int, i: nat, m: int)
    requires m > 0 && Eq(c0, Pw(w, i), m) && Eq(c, c0 * w, m)
    ensures Eq(c, Pw(w, i + 1), m)
  {
    hide Eq;
    EqSelf(w, m);
    EqMul(c0, Pw(w, i), w, w, m);
    EqTrans(c, c0 * w, Pw(w, i) * w, m);
    assert Pw(w, i + 1) == w * Pw(w, i);
  }

  // ---------- one stage ----------

  /** The i-th block of a stage. */
  ghost predicate BlockDone(s: seq<Limb>, t: seq<Limb>, p: nat, h: nat, c: int, m: int, i: nat)
    requires m > 0
  {
    forall j :: 0 <= j < p ==> Butterflied(s, t, p, h, c, m, i, j)
  }

  ghost predicate Butterflied(s: seq<Limb>, t: seq<Limb>, p: nat, h: nat, c: int, m: int, i: nat, j: nat)
    requires m > 0
  {
    Crossed(At(t, 2 * p * i + j), At(t, 2 * p * i + (p + j)), At(s, p * i + j), At(s, p * (i + h) + j), c, m)
  }

  /** The blocks before i, each with its twiddle factor from f. */
  ghost predicate BlocksDone(s: seq<Limb>, t: seq<Limb>, p: nat, h: nat, f: seq<Limb>, m: int, i: nat)
    requires m > 0
  {
    forall j :: 0 <= j < i ==> BlockDone(s, t, p, h, At(f, 2 * j), m, j)
  }

  /** Where block i is read and written, in a stage of h blocks over len elements. */
  ghost predicate Laid(p: nat, h: nat, i: nat, k: nat, q: nat, stride: nat, len: nat) {
    i <= h && k == p * i && q == 2 * p * i && stride == p * h && len == 2 * p * h
  }

  lemma {:induction false} LaidRoom(p: nat, h: nat, i: nat, k: nat, q: nat, stride: nat, len: nat)
    requires Laid(p, h, i, k, q, stride, len) && i < h
    ensures k + p <= stride && stride + k + p <= len && q + 2 * p <= len
    ensures Laid(p, h, i + 1, k + p, q + 2 * p, stride, len)
  {
    Places(p, h, i);
  }

  lemma {:induction false} Places(p: nat, h: nat, i: nat)
    requires i < h
    ensures 0 <= p * i && p * i + p <= p * h && 2 * p * i + 2 * p <= 2 * p * h && 2 * (p * h) == 2 * p * h
    ensures p * (i + h) == p * i + p * h && 2 * p * (i + 1) == 2 * p * i + 2 * p && p * (i + 1) == p * i + p
    ensures 2 * p * i == 2 * (p * i)
  {
    MulMono(i + 1, h, p);
    assert p * h == h * p && p * (i + 1) == (i + 1) * p;
  }

  /** The block just written. */
  lemma {:induction false} BlockWritten(s: seq<Limb>, t: seq<Limb>, p: nat, h: nat, c: int, m: int, i: nat, k: nat, q: nat,
                                        stride: nat)
    requires m > 0 && i < h && Laid(p, h, i, k, q, stride, |s|) && |t| == |s| && k + p <= stride
    requires stride + k + p <= |s| && q + 2 * p <= |t|
    requires forall j :: 0 <= j < p ==> Paired(s, t, k, q, p, stride, c, m, j)
    ensures BlockDone(s, t, p, h, c, m, i)
  {
    hide Eq, Crossed;
    Places(p, h, i);
    forall j | 0 <= j < p ensures Butterflied(s, t, p, h, c, m, i, j) {
      assert Paired(s, t, k, q, p, stride, c, m, j);
    }
  }

  /** A block written before, after more has been written from q on. */
  lemma {:induction false} BlockKept(s: seq<Limb>, t: seq<Limb>, t': seq<Limb>, p: nat, h: nat, c: int, m: int, i: nat, n: nat, q: nat)
    requires m > 0 && |t| == |t'| && i < n && q == 2 * p * n && q <= |t| && BlockDone(s, t, p, h, c, m, i)
    requires forall k :: 0 <= k < q ==> t'[k] == t[k]
    ensures BlockDone(s, t', p, h, c, m, i)
  {
    hide Eq, Crossed;
    Places(p, n, i);
    forall j | 0 <= j < p ensures Butterflied(s, t', p, h, c, m, i, j) {
      assert Butterflied(s, t, p, h, c, m, i, j);
      assert At(t', 2 * p * i + j) == At(t, 2 * p * i + j) && At(t', 2 * p * i + (p + j)) == At(t, 2 * p * i + (p + j));
    }
  }

  lemma {:induction false} BlocksNext(s: seq<Limb>, t0: seq<Limb>, t: seq<Limb>, p: nat, h: nat, i: nat, k: nat, q: nat,
                                      stride: nat, f: seq<Limb>, m: int)
    requires m > 0 && i < h && Laid(p, h, i, k, q, stride, |s|) && |t| == |t0| == |s|
    requires k + p <= stride && stride + k + p <= |s| && q + 2 * p <= |t|
    requires BlocksDone(s, t0, p, h, f, m, i)
    requires forall x :: 0 <= x < |t| && !(q <= x < q + 2 * p) ==> t[x] == t0[x]
    requires forall j :: 0 <= j < p ==> Paired(s, t, k, q, p, stride, At(f, 2 * i), m, j)
    ensures BlocksDone(s, t, p, h, f, m, i + 1)
  {
    hide Eq, BlockDone, Paired, At;
    BlockWritten(s, t, p, h, At(f, 2 * i), m, i, k, q, stride);
    forall j | 0 <= j < i ensures BlockDone(s, t, p, h, At(f, 2 * j), m, j) {
      BlockKept(s, t0, t, p, h, At(f, 2 * j), m, j, i, q);
    }
  }

  /** The middle loop: all blocks of a stage. */
  method StagePass(tabIn: array<Limb>, tabOut: array<Limb>, p: nat, h: nat, stride: nat, trig: array<Limb>, ghost w: int, m: Limb)
    requires IsModulus(m) && tabIn != tabOut && tabIn != trig && trig != tabOut && p >= 1
    requires tabIn.Length == tabOut.Length && Laid(p, h, 0, 0, 0, stride, tabIn.Length) && Small(tabIn[..], m)
    requires TrigOk(trig[..], h, w, m)
    modifies tabOut
    ensures Stage(tabIn[..], tabOut[..], p, h, w, m) && Small(tabOut[..], m)
  {
    hide Eq, InitMulModFast2, BlocksDone, Small, Factor, Stage, Pw, Laid, Paired, At;
    var i, k, q := 0, 0, 0;
    ghost var f, s := trig[..], tabIn[..];
    NoBlocks(s, tabOut[..], p, h, f, m);
    while i < h
      invariant 0 <= i <= h && 0 <= k && 0 <= q && Laid(p, h, i, k, q, stride, tabIn.Length)
      invariant BlocksDone(s, tabOut[..], p, h, f, m, i)
    {
      LaidRoom(p, h, i, k, q, stride, tabIn.Length);
      FactorAt(f, h, w, m, i);
      ghost var t0 := tabOut[..];
      assert trig[2 * i] == f[2 * i] && trig[2 * i + 1] == f[2 * i + 1];
      Block(tabIn, tabOut, k, q, p, stride, trig[2 * i], trig[2 * i + 1], m);
      assert tabIn[..] == s;
      BlocksNext(s, t0, tabOut[..], p, h, i, k, q, stride, f, m);
      k, q, i := k + p, q + 2 * p, i + 1;
    }
    StageFromBlocks(s, tabOut[..], p, h, k, q, stride, f, w, m);
  }

  lemma {:induction false} NoBlocks(s: seq<Limb>, t: seq<Limb>, p: nat, h: nat, f: seq<Limb>, m: int)
    requires m > 0
    ensures BlocksDone(s, t, p, h, f, m, 0)
  {
  }

  lemma {:induction false} FactorAt(f: seq<Limb>, h: nat, w: int, m: Limb, i: nat)
    requires IsModulus(m) && TrigOk(f, h, w, m) && i < h
    ensures 2 * i + 1 < |f| && f[2 * i] < m && f[2 * i + 1] == InitMulModFast2(f[2 * i], m) && Eq(f[2 * i], Pw(w, i), m)
    ensures At(f, 2 * i) == f[2 * i]
  {
    hide Eq, InitMulModFast2, Pw;
    assert Factor(f, i, w, m);
  }

  lemma {:induction false} StageFromBlocks(s: seq<Limb>, t: seq<Limb>, p: nat, h: nat, k: nat, q: nat, stride: nat,
                                           f: seq<Limb>, w: int, m: Limb)
    requires IsModulus(m) && p >= 1 && Laid(p, h, h, k, q, stride, |t|) && TrigOk(f, h, w, m)
    requires BlocksDone(s, t, p, h, f, m, h)
    ensures Stage(s, t, p, h, w, m) && Small(t, m)
  {
    hide Eq, InitMulModFast2, Pw, At, Crossed, TrigOk, BlockDone, Butterfly, Laid;
    forall i: nat, j: nat | i < h && j < p ensures Butterfly(s, t, p, h, w, m, i, j) {
      FactorAt(f, h, w, m, i);
      assert BlockDone(s, t, p, h, At(f, 2 * i), m, i);
      FactorPower(s, t, p, h, f[2 * i], w, m, i, j);
    }
    forall x | 0 <= x < |t| ensures t[x] < 2 * m {
      SmallAt(s, t, p, h, k, q, stride, f, m, x);
    }
  }

  lemma {:induction false} FactorPower(s: seq<Limb>, t: seq<Limb>, p: nat, h: nat, c: int, w: int, m: int, i: nat, j: nat)
    requires m > 0 && BlockDone(s, t, p, h, c, m, i) && j < p && Eq(c, Pw(w, i), m)
    ensures Butterfly(s, t, p, h, w, m, i, j)
  {
    hide Eq, At, Pw;
    assert Butterflied(s, t, p, h, c, m, i, j);
    var d := At(s, p * i + j) - At(s, p * (i + h) + j);
    EqSelf(d, m);
    EqMul(d, d, c, Pw(w, i), m);
    EqTrans(At(t, 2 * p * i + (p + j)), d * c, d * Pw(w, i), m);
  }

  lemma {:induction false} SmallAt(s: seq<Limb>, t: seq<Limb>, p: nat, h: nat, k: nat, q: nat, stride: nat, f: seq<Limb>,
                                   m: int, x: nat)
    requires m > 0 && p >= 1 && Laid(p, h, h, k, q, stride, |t|) && x < |t|
    requires BlocksDone(s, t, p, h, f, m, h)
    ensures t[x] < 2 * m
  {
    hide Eq;
    var i, r := x / (2 * p), x % (2 * p);
    DivMod(x, 2 * p);
    DivLess(x, 2 * p, h);
    assert BlockDone(s, t, p, h, At(f, 2 * i), m, i);
    var j := if r < p then r else r - p;
    assert Butterflied(s, t, p, h, At(f, 2 * i), m, i, j);
  }

  // ---------- the transform ----------

  lemma {:induction false} StageLaid(k: nat, l: nat)
    requires 1 <= l <= k
    ensures var p, h := Two(k - l), Two(l - 1);
            Laid(p, h, 0, 0, 0, Two(k) / 2, Two(k)) && Two(k) / 2 == Two(k - 1)
    ensures Two(l) == 2 * Two(l - 1) && Two(k) == 2 * Two(k - 1) && Two(k - (l - 1)) == 2 * Two(k - l)
  {
    TwoAdd(k - l, l - 1);
    var p, h := Two(k - l), Two(l - 1);
    assert 2 * (p * h) == 2 * p * h by { MulAssoc(2, p, h); }
  }

  /** The last pair of values as a butterfly without a twiddle factor. */
  ghost predicate LastDone(s: seq<Limb>, t: seq<Limb>, p: nat, m: int, k: nat)
    requires m > 0
  {
    Crossed(At(t, k), At(t, p + k), At(s, k), At(s, p + k), 1, m)
  }

  method SumAndDifference(a0: Limb, a1: Limb, m: Limb) returns (b0: Limb, b1: Limb)
    requires IsModulus(m) && a0 < 2 * m && a1 < 2 * m
    ensures Crossed(b0, b1, a0, a1, 1, m)
  {
    hide Eq;
    b0 := AddMod(a0, a1, 2 * m);
    b1 := SubMod(a0, a1, 2 * m);
    if b0 == a0 + a1 { EqSelf(b0, m); } else { EqBy(b0, a0 + a1, m, -2); }
    if b1 as int == a0 as int - a1 { EqSelf(b1, m); } else { EqBy(b1, a0 as int - a1, m, 2); }
  }

  /** The last step, which may work in place. */
  method LastStage(tabIn: array<Limb>, outBuf: array<Limb>, stride: nat, ghost w: int, m: Limb)
    requires IsModulus(m) && tabIn.Length == outBuf.Length == 2 * stride && Small(tabIn[..], m)
    modifies outBuf
    ensures Stage(old(tabIn[..]), outBuf[..], stride, 1, w, m) && Small(outBuf[..], m)
  {
    hide Eq, Crossed, At, Stage;
    ghost var s := tabIn[..];
    var k := 0;
    while k < stride
      invariant 0 <= k <= stride
      invariant forall i :: 0 <= i < tabIn.Length && (k <= i < stride || stride + k <= i) ==> tabIn[i] == s[i]
      invariant forall i :: 0 <= i < k ==> LastDone(s, outBuf[..], stride, m, i)
    {
      var a0, a1 := tabIn[k], tabIn[k + stride];
      var b0, b1 := SumAndDifference(a0, a1, m);
      ghost var t0 := outBuf[..];
      outBuf[k], outBuf[k + stride] := b0, b1;
      LastWritten(s, t0, outBuf[..], stride, m, k);
      k := k + 1;
    }
    LastStageDone(s, outBuf[..], stride, w, m);
  }

  lemma {:induction false} LastWritten(s: seq<Limb>, t0: seq<Limb>, t: seq<Limb>, p: nat, m: int, k: nat)
    requires m > 0 && k < p && |s| == |t0| == 2 * p
    requires |t| == |t0| && t == t0[k := t[k]][k + p := t[k + p]] && Crossed(t[k], t[k + p], s[k], s[k + p], 1, m)
    requires forall i :: 0 <= i < k ==> LastDone(s, t0, p, m, i)
    ensures forall i :: 0 <= i <= k ==> LastDone(s, t, p, m, i)
  {
    hide Crossed;
    forall i | 0 <= i <= k ensures LastDone(s, t, p, m, i) {
      if i < k {
        assert LastDone(s, t0, p, m, i);
        assert At(t, i) == At(t0, i) && At(t, p + i) == At(t0, p + i);
      }
    }
  }

  lemma {:induction false} LastStageDone(s: seq<Limb>, t: seq<Limb>, p: nat, w: int, m: int)
    requires m > 0 && |t| == 2 * p && forall i :: 0 <= i < p ==> LastDone(s, t, p, m, i)
    ensures Stage(s, t, p, 1, w, m) && Small(t, m)
  {
    hide Eq;
    forall i: nat, j: nat | i < 1 && j < p ensures Butterfly(s, t, p, 1, w, m, i, j) {
      assert LastDone(s, t, p, m, j);
      assert Pw(w, 0) == 1;
    }
    forall x | 0 <= x < |t| ensures t[x] < 2 * m {
      assert LastDone(s, t, p, m, if x < p then x else x - p);
    }
  }

  /** t holds the transform of s, up to multiples of m. */
  ghost predicate Transformed(s: seq<Limb>, t: seq<Limb>, w: int, m: int)
    requires m > 0
  {
    |t| == |s| && forall k :: 0 <= k < |t| ==> Eq(t[k], Dft(s, w, k), m)
  }

  lemma {:induction false} RootsLevel(r: Roots, k: nat, l: nat, m: Limb)
    requires m > 0 && 1 <= l <= k && RootsOk(r, k, m)
    ensures RootsOk(r, l, m) && HalfTurn(r.pow[l], Two(l - 1), m)
    ensures l >= 2 ==> Eq(r.pow[l] as int * r.pow[l] as int, r.pow[l - 1], m)
  {
    hide Eq, InitMulModFast2;
    ChainTurn(r.pow, l, m);
    if l >= 2 { ChainBelow(r.pow, l, m); }
  }

  /** One turn of the loop of ntt_fft: from columns of length 2^l to columns of length 2^(l - 1). */
  method FftPass(tabIn: array<Limb>, tabOut: array<Limb>, k: nat, l: nat, p: nat, h: nat, roots: Roots,
                 ghost x: seq<int>, ghost top: int, m: Limb)
    requires IsModulus(m) && 2 <= l <= k && RootsOk(roots, k, m) && tabIn != tabOut
    requires tabIn.Length == tabOut.Length == Two(k) && p == Two(k - l) && h == Two(l - 1)
    requires Small(tabIn[..], m) && Partial(tabIn[..], x, p, 2 * h, roots.pow[l], top, m)
    modifies tabOut
    ensures Small(tabOut[..], m) && Partial(tabOut[..], x, 2 * p, h, roots.pow[l - 1], top, m)
  {
    hide Eq, Small, Partial, Stage, TrigOk, Chain, Laid, InitMulModFast2, HalfTurn;
    ghost var s := tabIn[..];
    RootsLevel(roots, k, l, m);
    StageLaid(k, l);
    var trig := GetTrig(l, roots, m);
    StagePass(tabIn, tabOut, p, h, tabIn.Length / 2, trig, roots.pow[l], m);
    assert tabIn[..] == s;
    StagePartial(s, tabOut[..], x, p, h, roots.pow[l], roots.pow[l - 1], top, m);
  }

  /** ntt_fft: in each stage the buffers change roles; the last one writes outBuf, in place when that
      is where the values stand. */
  method NttFft(outBuf: array<Limb>, inBuf: array<Limb>, tmpBuf: array<Limb>, k: nat, roots: Roots, m: Limb)
    returns (ok: bool)
    requires IsModulus(m) && k >= 1 && RootsOk(roots, k, m)
    requires outBuf.Length == inBuf.Length == tmpBuf.Length == Two(k) && inBuf != tmpBuf && outBuf != tmpBuf
    requires Small(inBuf[..], m)
    modifies outBuf, inBuf, tmpBuf
    ensures ok == (k <= NTT_TRIG_K_MAX)
    ensures ok ==> Small(outBuf[..], m) && Transformed(old(inBuf[..]), outBuf[..], roots.pow[k], m)
  {
    hide Eq, Small, Partial, Stage, Chain, Two, Laid, Transformed, InitMulModFast2, HalfTurn, Dft;
    ghost var x: seq<int>, top := inBuf[..], roots.pow[k];
    var n := Two(k);
    var nbBlocks, fftPerBlock, strideIn := n, 1, n / 2;
    var tabIn, tabOut := inBuf, tmpBuf;
    var l := k;
    PartialStart(inBuf[..], x, top, m);
    PowersApart(k);
    while nbBlocks != 2
      invariant 1 <= l <= k && nbBlocks == Two(l) && fftPerBlock == Two(k - l) && (l < k ==> k <= NTT_TRIG_K_MAX)
      invariant (tabIn == inBuf && tabOut == tmpBuf) || (tabIn == tmpBuf && tabOut == inBuf)
      invariant Small(tabIn[..], m) && Partial(tabIn[..], x, fftPerBlock, nbBlocks, roots.pow[l], top, m)
      decreases l
    {
      OneLeft(l);
      StageLaid(k, l);
      nbBlocks := nbBlocks / 2;
      if l > NTT_TRIG_K_MAX { return false; }
      FftPass(tabIn, tabOut, k, l, fftPerBlock, nbBlocks, roots, x, top, m);
      fftPerBlock := fftPerBlock * 2;
      l := l - 1;
      tabIn, tabOut := tabOut, tabIn;
    }
    OneLeft(l);
    StageLaid(k, 1);
    RootsLevel(roots, k, 1, m);
    ghost var s := tabIn[..];
    LastStage(tabIn, outBuf, strideIn, roots.pow[1], m);
    FinalValues(s, outBuf[..], old(inBuf[..]), x, strideIn, roots.pow[1], top, m);
    return true;
  }

  lemma {:induction false} PowersApart(k: nat)
    ensures Two(0) == 1 && Two(1) == 2
  {
  }

  lemma {:induction false} OneLeft(l: nat)
    requires l >= 1
    ensures Two(l) == 2 <==> l == 1
    ensures Two(l) / 2 == Two(l - 1) && Two(l) == 2 * Two(l - 1)
    decreases l
  {
    if l > 1 { OneLeft(l - 1); }
  }

  lemma {:induction false} FinalValues(s: seq<Limb>, t: seq<Limb>, input: seq<Limb>, x: seq<int>, p: nat, w: int, top: int, m: int)
    requires m > 0 && |t| == |input| == 2 * p && |x| == |input| && forall i :: 0 <= i < |x| ==> x[i] == input[i]
    requires Partial(s, x, p, 2, w, top, m) && Stage(s, t, p, 1, w, m) && HalfTurn(w, 1, m)
    ensures Transformed(input, t, top, m)
  {
    hide Eq, Partial, Stage, HalfTurn, Dft;
    EqSelf(w * w, m);
    StagePartial(s, t, x, p, 1, w, w * w, top, m);
    assert x == input;
    forall k | 0 <= k < |t| ensures Eq(t[k], Dft(input, top, k), m) {
      PartialEnd(t, x, 2 * p, w * w, top, m, k);
    }
  }

  // ---------- the convolution ----------

  /** ntt_vec_mul: pointwise product with the factor for the length. */
  method NttVecMul(tab1: array<Limb>, tab2: array<Limb>, norm: Limb, normInv: Limb, m: Limb, mInv: Limb)
    requires IsModulus(m) && mInv == InitMulModFast(m) && norm < m && normInv == InitMulModFast2(norm, m)
    requires tab1 != tab2 && tab1.Length == tab2.Length && Small(tab1[..], m) && Small(tab2[..], m)
    modifies tab1
    ensures Small(tab1[..], m)
    ensures forall i :: 0 <= i < tab1.Length ==> Multiplied(old(tab1[..]), tab2[..], tab1[..], norm, m, i)
  {
    hide Eq, InitMulModFast, InitMulModFast2, Multiplied;
    ghost var s1, s2 := tab1[..], tab2[..];
    var i := 0;
    while i < tab1.Length
      invariant 0 <= i <= tab1.Length
      invariant forall j :: i <= j < tab1.Length ==> tab1[j] == s1[j]
      invariant forall j :: 0 <= j < i ==> tab1[j] < 2 * m && Multiplied(s1, s2, tab1[..], norm, m, j)
    {
      assert s1[i] < 2 * m && s2[i] < 2 * m;
      var a := tab1[i];
      if a >= m { a := a - m; }
      ghost var a0 := a;
      a := MulModFast(a, tab2[i], m, mInv);
      ghost var a1 := a;
      a := MulModFast3(a, norm, m, normInv);
      ghost var t0 := tab1[..];
      tab1[i] := a;
      ProductEq(s1[i], a0, s2[i], a1, norm, a, m);
      MultipliedKept(s1, s2, t0, tab1[..], norm, m, i);
      i := i + 1;
    }
  }

  ghost predicate Multiplied(s1: seq<Limb>, s2: seq<Limb>, t: seq<Limb>, norm: int, m: int, i: nat)
    requires m > 0
  {
    Eq(At(t, i), At(s1, i) * At(s2, i) * norm, m)
  }

  lemma {:induction false} ProductEq(x: int, a0: int, y: int, a1: int, norm: int, a: int, m: int)
    requires m > 0 && (a0 == x || a0 == x - m) && Eq(a1, a0 * y, m) && Eq(a, a1 * norm, m)
    ensures Eq(a, x * y * norm, m)
  {
    hide Eq;
    if a0 == x { EqSelf(x, m); } else { EqBy(a0, x, m, -1); }
    EqSelf(y, m);
    EqMul(a0, x, y, y, m);
    EqTrans(a1, a0 * y, x * y, m);
    EqSelf(norm, m);
    EqMul(a1, x * y, norm, norm, m);
    EqTrans(a, a1 * norm, x * y * norm, m);
  }

  lemma {:induction false} MultipliedKept(s1: seq<Limb>, s2: seq<Limb>, t0: seq<Limb>, t: seq<Limb>, norm: int, m: int, i: nat)
    requires m > 0 && i < |t0| == |t| == |s1| == |s2| && t == t0[i := t[i]]
    requires Eq(t[i], s1[i] as int * s2[i] as int * norm, m)
    requires forall j :: 0 <= j < i ==> Multiplied(s1, s2, t0, norm, m, j)
    ensures forall j :: 0 <= j <= i ==> Multiplied(s1, s2, t, norm, m, j)
  {
    hide Eq;
    forall j | 0 <= j <= i ensures Multiplied(s1, s2, t, norm, m, j) {
      if j < i { assert Multiplied(s1, s2, t0, norm, m, j); }
    }
  }

  /** The tables for one modulus: roots for both directions, and 1 / 2^k. */
  ghost predicate TablesOk(fwd: Roots, back: Roots, norm: Limb, normInv: Limb, m: Limb, mInv: Limb, k: nat) {
    && IsModulus(m) && mInv == InitMulModFast(m) && norm < m && normInv == InitMulModFast2(norm, m)
    && RootsOk(fwd, k, m) && RootsOk(back, k, m) && Inverse(fwd.pow, back.pow, k, m)
    && Eq(norm * Two(k), 1, m)
  }

  /** What a convolution of length 2^k leaves at i: the coefficient, scaled by norm * 2^k. */
  ghost predicate ConvolvedAt(t: seq<Limb>, a: seq<Limb>, b: seq<Limb>, norm: int, k: nat, m: int, i: nat)
    requires m > 0 && b != []
  {
    Eq(At(t, i), norm * (Two(k) * Convolved(a, b, i)), m)
  }

  ghost predicate ConvolvedTo(t: seq<Limb>, a: seq<Limb>, b: seq<Limb>, norm: int, k: nat, m: int)
    requires m > 0 && b != []
  {
    forall i :: 0 <= i < |t| ==> ConvolvedAt(t, a, b, norm, k, m, i)
  }

  /** ntt_conv where the transform is not split: the first buffer becomes the cyclic convolution of both
      modulo m, times 2^k and the factor for the total length. */
  method NttConvWhole(buf1: array<Limb>, buf2: array<Limb>, k: nat, kTot: nat, fwd: Roots, back: Roots, norm: Limb, normInv: Limb,
                      m: Limb, mInv: Limb)
    requires 1 <= k <= NTT_TRIG_K_MAX && k <= kTot && TablesOk(fwd, back, norm, normInv, m, mInv, kTot)
    requires buf1 != buf2 && buf1.Length == buf2.Length == Two(k) && Small(buf1[..], m) && Small(buf2[..], m)
    modifies buf1, buf2
    ensures Small(buf1[..], m)
    ensures ConvolvedTo(buf1[..], old(buf1[..]), old(buf2[..]), norm, k, m)
  {
    hide Eq, InitMulModFast, InitMulModFast2, Small, Two, Convolved, Transformed, Inverse, RootsOk, Multiplied, ConvolvedAt;
    ghost var a, b := buf1[..], buf2[..];
    LevelOk(fwd, back, kTot, k, m);
    var buf3 := new Limb[Two(k)];
    var ok := NttFft(buf1, buf1, buf3, k, fwd, m);
    ghost var s1 := buf1[..];
    ok := NttFft(buf2, buf2, buf3, k, fwd, m);
    ghost var s2 := buf2[..];
    assert buf1[..] == s1 && |s1| == |s2| == Two(k);
    NttVecMul(buf1, buf2, norm, normInv, m, mInv);
    ghost var s3 := buf1[..];
    assert buf2[..] == s2;
    assert forall j :: 0 <= j < |s1| ==> Multiplied(s1, s2, s3, norm, m, j);
    ok := NttFft(buf1, buf1, buf3, k, back, m);
    forall i | 0 <= i < buf1.Length ensures ConvolvedAt(buf1[..], a, b, norm, k, m, i) {
      BackAgain(a, b, s1, s2, s3, buf1[..], k, fwd, back, norm, m, i);
    }
  }

  /** Tables for one length serve every shorter one. */
  lemma {:induction false} LevelOk(fwd: Roots, back: Roots, kTot: nat, k: nat, m: Limb)
    requires m > 0 && 1 <= k <= kTot && RootsOk(fwd, kTot, m) && RootsOk(back, kTot, m) && Inverse(fwd.pow, back.pow, kTot, m)
    ensures RootsOk(fwd, k, m) && RootsOk(back, k, m) && Inverse(fwd.pow, back.pow, k, m)
  {
    hide Eq, RootsOk;
    RootsLevel(fwd, kTot, k, m);
    RootsLevel(back, kTot, k, m);
  }

  /** The product of transform values, scaled, is the scaled transform of the convolution. */
  lemma {:induction false} ProductTransform(a: seq<int>, b: seq<int>, s1: int, s2: int, s3: int, w: int, h: nat, norm: int, j: nat, m: int)
    requires m > 0 && |b| == 2 * h && h >= 1 && HalfTurn(w, h, m)
    requires Eq(s1, Dft(a, w, j), m) && Eq(s2, Dft(b, w, j), m) && Eq(s3, s1 * s2 * norm, m)
    ensures Eq(s3, norm * Dft(Cyclic(a, b), w, j), m)
  {
    hide Eq, HalfTurn, Cyclic, Eval, Pw;
    var z := Pw(w, j);
    FullTurn(w, h, j, m);
    Convolution(a, b, z, m);
    ScaledProduct(s1, Eval(a, z), s2, Eval(b, z), s3, norm, Eval(Cyclic(a, b), z), m);
  }

  lemma {:induction false} ScaledProduct(s1: int, x: int, s2: int, y: int, s3: int, norm: int, c: int, m: int)
    requires m > 0 && Eq(s1, x, m) && Eq(s2, y, m) && Eq(s3, s1 * s2 * norm, m) && Eq(c, x * y, m)
    ensures Eq(s3, norm * c, m)
  {
    hide Eq;
    EqMul(s1, x, s2, y, m);
    EqSym(c, x * y, m);
    EqTrans(s1 * s2, x * y, c, m);
    EqSelf(norm, m);
    EqMul(s1 * s2, c, norm, norm, m);
    EqTrans(s3, s1 * s2 * norm, c * norm, m);
    assert c * norm == norm * c;
  }

  lemma {:induction false} BackAgain(a: seq<Limb>, b: seq<Limb>, s1: seq<Limb>, s2: seq<Limb>, s3: seq<Limb>, t: seq<Limb>, k: nat,
                                     fwd: Roots, back: Roots, norm: Limb, m: Limb, i: nat)
    requires m > 0 && k >= 1 && RootsOk(fwd, k, m) && RootsOk(back, k, m) && Inverse(fwd.pow, back.pow, k, m) && i < |t|
    requires |a| == |b| == |s1| == |s2| == |s3| == |t| == Two(k)
    requires Transformed(a, s1, fwd.pow[k], m) && Transformed(b, s2, fwd.pow[k], m)
    requires forall j :: 0 <= j < |s1| ==> Multiplied(s1, s2, s3, norm, m, j)
    requires Transformed(s3, t, back.pow[k], m)
    ensures ConvolvedAt(t, a, b, norm, k, m, i)
  {
    hide Eq, HalfTurn, InitMulModFast, InitMulModFast2, Dft, Cyclic, Convolved, Same, Chain, Inverse, Prepared;
    var w, v, c := fwd.pow[k], back.pow[k], Cyclic(a, b);
    var tr := Transform(c, w);
    RootsLevel(fwd, k, k, m);
    OneLeft(k);
    assert Same(s3, Scaled(norm, tr), m) by { AllProducts(a, b, s1, s2, s3, w, norm, Two(k - 1), m); }
    DftSame(s3, Scaled(norm, tr), v, i, m);
    DftScaled(norm, tr, v, i);
    Inversion(c, k, w, v, fwd.pow, back.pow, i, m);
    EqSelf(norm, m);
    EqMul(norm, norm, Dft(tr, v, i), Two(k) * c[i], m);
    CyclicAt(a, b, i);
    EqTrans(t[i], Dft(s3, v, i), norm * Dft(tr, v, i), m);
    EqTrans(t[i], norm * Dft(tr, v, i), norm * (Two(k) * c[i]), m);
  }

  lemma {:induction false} DftScaled(c: int, s: seq<int>, v: int, i: nat)
    ensures Dft(Scaled(c, s), v, i) == c * Dft(s, v, i)
  {
    EvalScaled(c, s, Pw(v, i));
  }

  lemma {:induction false} AllProducts(a: seq<int>, b: seq<int>, s1: seq<Limb>, s2: seq<Limb>, s3: seq<Limb>, w: int, norm: int,
                                       h: nat, m: int)
    requires m > 0 && h >= 1 && |a| == |b| == |s1| == |s2| == |s3| == 2 * h && HalfTurn(w, h, m)
    requires forall j :: 0 <= j < |s1| ==> Eq(s1[j], Dft(a, w, j), m) && Eq(s2[j], Dft(b, w, j), m)
    requires forall j :: 0 <= j < |s1| ==> Multiplied(s1, s2, s3, norm, m, j)
    ensures Same(s3, Scaled(norm, Transform(Cyclic(a, b), w)), m)
  {
    hide Eq, HalfTurn, Dft, Cyclic;
    var r := Scaled(norm, Transform(Cyclic(a, b), w));
    forall j | 0 <= j < |s3| ensures Eq(s3[j], r[j], m) {
      assert Multiplied(s1, s2, s3, norm, m, j);
      ProductTransform(a, b, s1[j], s2[j], s3[j], w, h, norm, j, m);
    }
  }
}
