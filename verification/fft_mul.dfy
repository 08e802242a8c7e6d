/** fft_mul: the product of two limb arrays through number theoretic transforms; and mp_mul, which chooses. */
module FftMultiply {
  import opened Limbs
  import opened Products
  import opened BfBits
  import opened Modular
  import opened Fourier
  import opened NttArith
  import opened NttStage
  import opened Ntt
  import opened FourStep
  import opened NttSplit
  import opened FftRoots
  import opened FftTables
  import opened FftProduct
  import opened FftDigits
  import opened FftLimbs
  import R = Rounding
  import F = FastDivision

  const LEN_MAX: int := 0x10_0000_0000_0000
  const FFT_MUL_THRESHOLD: nat := 100

  // ---------- the size ----------

  /** A length 2^l and a chunk size that hold a product of len limbs, with coefficients below the primes' product. */
  ghost predicate SizeOk(len: nat, dpl: nat, nbMods: nat, l: nat) {
    && 3 <= nbMods <= NB_MODS && 1 <= dpl <= 188 && l <= NTT_PROOT_2EXP
    && Two(l) * dpl >= 64 * len && l + 2 * dpl <= NTT_INT_BITS[NB_MODS - nbMods]
  }

  /** The chunks of dpl bits that len limbs need. */
  function ChunkCount(len: nat, dpl: nat): (n: nat)
    requires dpl >= 1
  {
    R.QuotientNat(len * 64 + dpl - 1, dpl);
    (len * 64 + dpl - 1) / dpl
  }

  lemma {:induction false} ChunkCountRange(len: nat, dpl: nat)
    requires dpl >= 1
    ensures dpl * ChunkCount(len, dpl) >= 64 * len && dpl * ChunkCount(len, dpl) < 64 * len + dpl
    ensures ChunkCount(len, dpl) <= 64 * len
  {
    var x := len * 64 + dpl - 1;
    DivMod(x, dpl);
    if ChunkCount(len, dpl) > 64 * len {
      MulMono(64 * len + 1, ChunkCount(len, dpl), dpl);
      MulMono(1, dpl, 64 * len);
      R.MulSwap(dpl, ChunkCount(len, dpl));
      R.MulSwap(dpl, 64 * len);
      R.Distribute(64 * len, dpl);
    }
  }

  /** The length found is enough, and the least. */
  lemma {:induction false} LengthFound(len: nat, dpl: nat)
    requires dpl >= 1 && 64 * len + dpl < HALF
    ensures ChunkCount(len, dpl) < HALF
    ensures var l := F.CeilLog2(ChunkCount(len, dpl)); Two(l) >= ChunkCount(len, dpl) && Two(l) * dpl >= 64 * len
    ensures forall k: nat :: Two(k) >= ChunkCount(len, dpl) ==> k >= F.CeilLog2(ChunkCount(len, dpl))
  {
    hide Two, ChunkCount;
    ChunkCountRange(len, dpl);
    var n := ChunkCount(len, dpl);
    var l := F.CeilLog2(n);
    if n <= 1 { R.ScaleOne(0); } else { F.CeilLog2Range(n); }
    MulMono(n, Two(l), dpl);
    R.MulSwap(n, dpl);
    forall k: nat | Two(k) >= n ensures k >= l {
      if k < l {
        R.TwoMono(k, l - 1);
        TwoDouble(l);
      }
    }
  }

  /** The inner loop of bf_get_fft_size: the largest chunk size for a number of primes. */
  method TryMods(len: nat, nbMods: nat) returns (found: bool, dpl: nat, l: nat)
    requires 3 <= nbMods <= NB_MODS && 64 * len + 256 < HALF
    ensures found ==> SizeOk(len, dpl, nbMods, l)
    ensures nbMods == NB_MODS && len <= LEN_MAX ==> found
  {
    hide Two, ChunkCount, F.CeilLog2;
    var intBits := NTT_INT_BITS[NB_MODS - nbMods];
    dpl := if (intBits - 4) / 2 < 188 then (intBits - 4) / 2 else 188;
    l := 0;
    found := false;
    while true
      invariant 1 <= dpl <= 188 && (nbMods == NB_MODS && len <= LEN_MAX ==> dpl >= 128)
      decreases dpl
    {
      LengthFound(len, dpl);
      l := F.CeilLog2(ChunkCount(len, dpl));
      if len <= LEN_MAX && dpl >= 128 { LengthSmall(len, dpl); }
      if l > NTT_PROOT_2EXP {
        return;
      }
      if l + 2 * dpl <= intBits {
        found := true;
        return;
      }
      dpl := dpl - 1;
      if dpl == 0 { return; }
    }
  }

  lemma {:induction false} LengthSmall(len: nat, dpl: nat)
    requires len <= LEN_MAX && 128 <= dpl <= 188 && 64 * len + dpl < HALF
    ensures F.CeilLog2(ChunkCount(len, dpl)) <= 51
  {
    hide Two, ChunkCount, F.CeilLog2;
    ChunkCountRange(len, dpl);
    LengthFound(len, dpl);
    var n := ChunkCount(len, dpl);
    MulMono(128, dpl, n);
    TwoFiftyOne();
    if n > Two(51) { MulMono(Two(51) + 1, n, dpl); R.MulSwap(n, dpl); }
  }

  lemma {:induction false} TwoFiftyOne()
    ensures Two(51) == 0x8_0000_0000_0000
  {
    TwoTen();
    hide Two;
    TwoSixtyOne();
    TwoAdd(51, 10);
  }

  lemma {:induction false} TwoTen()
    ensures Two(10) == 1024
  {
  }

  /** Longer products do not fit any choice. */
  lemma {:induction false} SizeLimit(len: nat, dpl: nat, nbMods: nat, l: nat)
    requires SizeOk(len, dpl, nbMods, l)
    ensures len <= LEN_MAX
  {
    hide Two;
    assert 2 * dpl <= 307 - l;
    var k := 51 - l;
    TwoFiftyOne();
    TwoAdd(k, l);
    TwoGrows(k);
    MulMono(256 + k, 256 * Two(k), Two(l));
    MulMono(2 * dpl, 256 + k, Two(l));
    assert (256 * Two(k)) * Two(l) == 256 * Two(51) by { MulAssoc(256, Two(k), Two(l)); }
    assert 2 * dpl * Two(l) == 2 * (Two(l) * dpl) by { MulAssoc(2, dpl, Two(l)); R.MulSwap(dpl, Two(l)); }
  }

  lemma {:induction false} TwoGrows(k: nat)
    ensures 256 + k <= 256 * Two(k)
    decreases k
  {
    if k > 0 { TwoGrows(k - 1); }
  }

  /** bf_get_fft_size; the original aborts where there is no size, that is beyond 2^52 limbs. */
  method GetFftSize(len: nat) returns (ok: bool, dpl: nat, nbMods: nat, l: nat)
    requires 64 * len + 256 < HALF
    ensures ok ==> SizeOk(len, dpl, nbMods, l)
    ensures ok <==> len <= LEN_MAX
  {
    hide Two;
    var minCost: Limb := B - 1;
    dpl, nbMods, l := 0, 4, 0;
    var n := 3;
    while n <= NB_MODS
      invariant 3 <= n <= NB_MODS + 1 && (dpl != 0 ==> SizeOk(len, dpl, nbMods, l)) && (dpl == 0 ==> minCost == B - 1)
      invariant n == NB_MODS + 1 && len <= LEN_MAX ==> dpl != 0
    {
      var found, d, k := TryMods(len, n);
      if found {
        CostSmall(k, n);
        var cost: Limb := (k + 1) * Two(k) * n;
        if cost < minCost {
          minCost, dpl, nbMods, l := cost, d, n, k;
        }
      }
      n := n + 1;
    }
    ok := dpl != 0;
    if ok { SizeLimit(len, dpl, nbMods, l); }
    if ok && dpl > 125 && 125 * Two(l) >= 64 * len {
      R.MulSwap(125, Two(l));
      dpl := 125;
    }
  }

  lemma {:induction false} CostSmall(k: nat, n: nat)
    requires k <= 51 && 3 <= n <= 5
    ensures 0 <= (k + 1) * Two(k) * n < B - 1
  {
    hide Two;
    TwoFiftyOne();
    R.TwoMono(k, 51);
    Square(k + 1, Two(k), Two(51));
    MulMono(k + 1, 52, Two(k));
    MulMono(0, n, (k + 1) * Two(k));
    MulMono((k + 1) * Two(k), 52 * Two(51), n);
    R.MulSwap(n, (k + 1) * Two(k));
  }

  // ---------- what the transforms have to do ----------

  /** A number of n limbs has chunks to give it back, and none beyond those it needs. */
  lemma {:induction false} ChunksWhole(a: seq<Limb>, dpl: nat, n: nat)
    requires dpl >= 1 && n * dpl >= 64 * |a|
    ensures Eval(ChunksOf(a, dpl, n), Two(dpl)) == Val(a) && Below(ChunksOf(a, dpl, n), Two(dpl))
    ensures EndsAt(ChunksOf(a, dpl, n), ChunkCount(|a|, dpl))
  {
    hide Two, Val, Pow, Chunks, ChunkCount, Pw;
    var k := ChunkCount(|a|, dpl);
    ChunkCountRange(|a|, dpl);
    ValBound(a);
    TwoPow(|a|);
    TwoPw(dpl, n);
    TwoPw(dpl, k);
    R.MulSwap(n, dpl);
    R.TwoMono(64 * |a|, dpl * n);
    R.TwoMono(64 * |a|, dpl * k);
    ChunksValue(Val(a), Two(dpl), n);
    ChunksEnd(Val(a), Two(dpl), n, k);
    forall i | 0 <= i < n ensures 0 <= ChunksOf(a, dpl, n)[i] < Two(dpl) {
      ChunkAt(Val(a), Two(dpl), n, i);
    }
  }

  /** The chunks of both factors are few enough for the length. */
  lemma {:induction false} ReachFits(la: nat, lb: nat, dpl: nat, n: nat)
    requires dpl >= 1 && n * dpl >= 64 * (la + lb)
    ensures Reach(ChunkCount(la, dpl), ChunkCount(lb, dpl)) <= n
  {
    hide ChunkCount;
    ChunkCountRange(la, dpl);
    ChunkCountRange(lb, dpl);
    var r := ChunkCount(la, dpl) + ChunkCount(lb, dpl) - 1;
    assert dpl * r == dpl * ChunkCount(la, dpl) + dpl * ChunkCount(lb, dpl) - dpl;
    R.MulSwap(n, dpl);
    if r > n { MulMono(n + 1, r, dpl); R.MulSwap(r, dpl); R.Distribute(n, dpl); }
  }

  /** The cyclic product of the chunks, at 2^dpl, is the product of the numbers. */
  lemma {:induction false} CoefficientsProduct(a: seq<Limb>, b: seq<Limb>, dpl: nat, n: nat)
    requires dpl >= 1 && n >= 1 && n * dpl >= 64 * (|a| + |b|)
    ensures Eval(Cyclic(ChunksOf(a, dpl, n), ChunksOf(b, dpl, n)), Two(dpl)) == Val(a) * Val(b)
    ensures Val(a) * Val(b) < Pow(|a| + |b|)
  {
    hide Two, Val, Pow, ChunksOf, ChunkCount, Cyclic, Eval;
    ChunksWhole(a, dpl, n);
    ChunksWhole(b, dpl, n);
    ReachFits(|a|, |b|, dpl, n);
    CyclicExact(ChunksOf(a, dpl, n), ChunksOf(b, dpl, n), ChunkCount(|a|, dpl), ChunkCount(|b|, dpl), Two(dpl));
    ValBound(a);
    ValBound(b);
    PowAdd(|a|, |b|);
    ProductBelow(Val(a), Val(b), Pow(|a|), Pow(|b|));
  }

  /** Every coefficient is below the product of the primes. */
  lemma {:induction false} CoefficientsBounded(a: seq<Limb>, b: seq<Limb>, dpl: nat, l: nat, nbMods: nat)
    requires SizeOk(|a| + |b|, dpl, nbMods, l)
    ensures Bounded(Cyclic(ChunksOf(a, dpl, Two(l)), ChunksOf(b, dpl, Two(l))), Primes(NB_MODS - nbMods))
  {
    hide Two, Val, Pow, ChunksOf, ChunkCount, Cyclic, Convolved, Primes;
    var n, x := Two(l), Two(dpl);
    var da, db := ChunksOf(a, dpl, n), ChunksOf(b, dpl, n);
    var c := Cyclic(da, db);
    ChunksWhole(a, dpl, n);
    ChunksWhole(b, dpl, n);
    forall i | 0 <= i < n ensures 0 <= c[i] < Primes(NB_MODS - nbMods) {
      CyclicAt(da, db, i);
      ConvolvedBound(da, db, x, i);
      SquareBelow(n, x);
      TwoAdd(dpl, dpl);
      TwoAdd(l, 2 * dpl);
      R.TwoMono(l + 2 * dpl, NTT_INT_BITS[NB_MODS - nbMods]);
      PrimesRoom(NB_MODS - nbMods);
    }
  }

  lemma {:induction false} SquareBelow(n: int, x: int)
    requires n >= 1 && x >= 1
    ensures n * ((x - 1) * (x - 1)) < n * (x * x)
  {
    var y := (x - 1) * (x - 1);
    assert x * x == y + 2 * x - 1;
    R.MulStrict(y, x * x, n);
    R.MulSwap(n, y);
    R.MulSwap(n, x * x);
  }

  // ---------- the transforms ----------

  /** Rows before j hold coefficients, those from j on the chunks of the first factor. */
  ghost predicate RowState(t: seq<int>, n1: nat, n2: nat, da: seq<int>, c: seq<int>, j: nat, r: nat, l: nat)
    requires Grid(t, n1, n2) && |da| == |c| == n2 && n1 <= NB_MODS && r < n1 && l < n2
  {
    if r < j then CoefficientAt(t, n1, n2, c, r, l) else CellIs(t, n1, n2, da, NB_MODS - n1, r, l)
  }

  ghost predicate RowsState(t: seq<int>, n1: nat, n2: nat, da: seq<int>, c: seq<int>, j: nat)
    requires Grid(t, n1, n2) && |da| == |c| == n2 && n1 <= NB_MODS
  {
    forall r, l :: 0 <= r < n1 && 0 <= l < n2 ==> RowState(t, n1, n2, da, c, j, r, l)
  }

  lemma {:induction false} RowsAtStart(t: seq<int>, n1: nat, n2: nat, da: seq<int>, c: seq<int>)
    requires Grid(t, n1, n2) && |da| == |c| == n2 && n1 <= NB_MODS && Residues(t, n1, n2, da, NB_MODS - n1)
    ensures RowsState(t, n1, n2, da, c, 0)
  {
    hide Grid, Column, Eq, CellIs;
    forall r, l | 0 <= r < n1 && 0 <= l < n2 ensures RowState(t, n1, n2, da, c, 0, r, l) {
      assert CellIs(t, n1, n2, da, NB_MODS - n1, r, l);
    }
  }

  lemma {:induction false} RowsAtEnd(t: seq<int>, n1: nat, n2: nat, da: seq<int>, c: seq<int>)
    requires Grid(t, n1, n2) && |da| == |c| == n2 && n1 <= NB_MODS && RowsState(t, n1, n2, da, c, n1)
    ensures Coefficients(t, n1, n2, c)
  {
    hide Grid, Column, Eq, CoefficientAt;
    forall j, l | 0 <= j < n1 && 0 <= l < n2 ensures CoefficientAt(t, n1, n2, c, j, l) {
      assert RowState(t, n1, n2, da, c, n1, j, l);
    }
  }

  /** A row of residues of chunks. */
  ghost predicate ResidueRow(row: seq<int>, d: seq<int>, m: int)
    requires m > 0
  {
    Same(row, d, m) && forall l :: 0 <= l < |row| ==> 0 <= row[l] < m
  }

  lemma {:induction false} RowResidues(t: seq<int>, n1: nat, n2: nat, d: seq<int>, first: nat, j: nat)
    requires Grid(t, n1, n2) && |d| == n2 && first + n1 <= NB_MODS && j < n1
    requires forall l :: 0 <= l < n2 ==> CellIs(t, n1, n2, d, first, j, l)
    ensures NTT_MODS[first + j] > 0 && ResidueRow(Row(t, n1, n2, j), d, NTT_MODS[first + j])
  {
    hide Grid, Column, Eq;
    PrimeIsModulus(first + j);
    var row := Row(t, n1, n2, j);
    forall l | 0 <= l < n2 ensures 0 <= row[l] < NTT_MODS[first + j] && Eq(row[l], d[l], NTT_MODS[first + j]) {
      assert CellIs(t, n1, n2, d, first, j, l);
    }
  }

  lemma {:induction false} RowSmall(row: seq<Limb>, d: seq<int>, m: Limb)
    requires m > 0 && ResidueRow(row, d, m)
    ensures Small(row, m)
  {
    hide Eq;
  }

  /** A single row is its own grid. */
  lemma {:induction false} OneRow(t: seq<int>, n2: nat, d: seq<int>, first: nat)
    requires Grid(t, 1, n2) && |d| == n2 && first < NB_MODS && Residues(t, 1, n2, d, first)
    ensures NTT_MODS[first] > 0 && ResidueRow(t, d, NTT_MODS[first])
  {
    hide Column, Eq, Place;
    RowResidues(t, 1, n2, d, first, 0) by {
      forall l | 0 <= l < n2 ensures CellIs(t, 1, n2, d, first, 0, l) { assert Residues(t, 1, n2, d, first); }
    }
    var row := Row(t, 1, n2, 0);
    assert row == t by {
      forall l | 0 <= l < n2 ensures row[l] == t[l] {
        PlaceOfColumn(t, 1, n2, l, 0);
        PlaceFirst(n2, l);
      }
    }
  }

  lemma {:induction false} PlaceFirst(n2: nat, l: nat)
    ensures Place(n2, 0, l) == l
  {
  }

  /** The convolution of residues has the coefficients of the product as residues. */
  lemma {:induction false} ConvolvedRow(x: seq<Limb>, y: seq<Limb>, z: seq<Limb>, da: seq<int>, db: seq<int>, m: Limb)
    requires m > 0 && y != [] && |x| == |y| == |z| && ResidueRow(x, da, m) && ResidueRow(y, db, m) && Small(z, m)
    requires forall i :: 0 <= i < |z| ==> Eq(z[i], Convolved(x, y, i), m)
    ensures forall i :: 0 <= i < |z| ==> z[i] < 2 * m && Eq(z[i], Cyclic(da, db)[i], m)
  {
    hide Eq, Convolved, Cyclic;
    forall i | 0 <= i < |z| ensures z[i] < 2 * m && Eq(z[i], Cyclic(da, db)[i], m) {
      ConvolvedSame(x, da, y, db, i, m);
      CyclicAt(da, db, i);
      EqTrans(z[i], Convolved(x, y, i), Convolved(da, db, i), m);
    }
  }

  lemma {:induction false} RowsNext(t: seq<Limb>, u: seq<Limb>, n1: nat, n2: nat, da: seq<int>, c: seq<int>, j: nat, row: seq<Limb>)
    requires Grid(t, n1, n2) && Grid(u, n1, n2) && |da| == |c| == |row| == n2 && n1 <= NB_MODS && j < n1
    requires RowsState(t, n1, n2, da, c, j) && RowStored(t, u, n1, n2, j, row, n2) && NTT_MODS[NB_MODS - n1 + j] > 0
    requires forall i :: 0 <= i < n2 ==> row[i] < 2 * NTT_MODS[NB_MODS - n1 + j] && Eq(row[i], c[i], NTT_MODS[NB_MODS - n1 + j])
    ensures RowsState(u, n1, n2, da, c, j + 1)
  {
    hide Grid, Column, Eq;
    var next := j + 1;
    forall r, l | 0 <= r < n1 && 0 <= l < n2 ensures RowState(u, n1, n2, da, c, next, r, l) {
      assert RowState(t, n1, n2, da, c, j, r, l);
      assert RowStoredAt(t, u, n1, n2, j, row, n2, r, l);
    }
  }

  /** One modulus: row j of buf1 is convolved with the second factor in ptr. */
  method ConvolveRow(buf1: array<Limb>, ptr: array<Limb>, nbMods: nat, l: nat, j: nat, s: BFNTTState,
                     ghost da: seq<int>, ghost db: seq<int>)
    requires StateOk(s) && nbMods <= NB_MODS && j < nbMods && 1 <= l <= NTT_PROOT_2EXP && buf1 != ptr
    requires Grid(buf1[..], nbMods, Two(l)) && ptr.Length == |da| == |db| == Two(l)
    requires RowsState(buf1[..], nbMods, Two(l), da, Cyclic(da, db), j)
    requires NTT_MODS[NB_MODS - nbMods + j] > 0 && ResidueRow(ptr[..], db, NTT_MODS[NB_MODS - nbMods + j])
    modifies buf1, ptr
    ensures Grid(buf1[..], nbMods, Two(l)) && RowsState(buf1[..], nbMods, Two(l), da, Cyclic(da, db), j + 1)
  {
    hide Grid, Column, Eq, Cyclic, Convolved, InitMulModFast, InitMulModFast2, RowStored, StateOk, Two, Small, ResidueRow;
    var fftLen, first := Two(l), NB_MODS - nbMods;
    TablesReady(s, first + j, l);
    var t := s.mods[first + j];
    ghost var b0, y := buf1[..], ptr[..];
    var row := new Limb[fftLen];
    LoadRow(buf1, nbMods, fftLen, j, row);
    ghost var x := row[..];
    RowLoaded(b0, nbMods, fftLen, da, Cyclic(da, db), j);
    RowSmall(x, da, t.m);
    RowSmall(y, db, t.m);
    NttConv(row, ptr, l, l, t.fwd, t.back, t.lenInv[l], t.lenInv2[l], t.m, t.mInv);
    ConvolvedRow(x, y, row[..], da, db, t.m);
    StoreRow(buf1, nbMods, fftLen, j, row);
    RowsNext(b0, buf1[..], nbMods, fftLen, da, Cyclic(da, db), j, row[..]);
  }

  lemma {:induction false} RowLoaded(t: seq<Limb>, n1: nat, n2: nat, da: seq<int>, c: seq<int>, j: nat)
    requires Grid(t, n1, n2) && |da| == |c| == n2 && n1 <= NB_MODS && j < n1 && RowsState(t, n1, n2, da, c, j)
    ensures NTT_MODS[NB_MODS - n1 + j] > 0 && ResidueRow(Row(t, n1, n2, j), da, NTT_MODS[NB_MODS - n1 + j])
  {
    hide Grid, Column, Eq, CellIs;
    var first := NB_MODS - n1;
    forall l | 0 <= l < n2 ensures CellIs(t, n1, n2, da, first, j, l) {
      assert RowState(t, n1, n2, da, c, j, j, l);
    }
    RowResidues(t, n1, n2, da, first, j);
  }

  /** fft_mul, for a result that is not resized; false where the original aborts, beyond 2^52 limbs. */
  method FftMul(r: array<Limb>, o: nat, a: seq<Limb>, b: seq<Limb>, s: BFNTTState) returns (ok: bool)
    requires StateOk(s) && o + |a| + |b| <= r.Length && |a| + |b| >= 3 && 64 * (|a| + |b|) + 256 < HALF
    modifies r
    ensures ok <==> |a| + |b| <= LEN_MAX
    ensures ok ==> Val(r[o..o + |a| + |b|]) == Val(a) * Val(b)
    ensures Outside(old(r[..]), r[..], o, o + |a| + |b|)
  {
    hide Val, Two, Pow, Grid, Cyclic, ChunksOf, Residues, RowsState, Coefficients, Bounded, StateOk, ResidueRow, Primes;
    var dpl, nbMods, l;
    ok, dpl, nbMods, l := GetFftSize(|a| + |b|);
    if !ok { return; }
    LengthPositive(|a| + |b|, dpl, nbMods, l);
    var fftLen, first := Two(l), NB_MODS - nbMods;
    ghost var c := Cyclic(ChunksOf(a, dpl, fftLen), ChunksOf(b, dpl, fftLen));
    GridRoom(nbMods, fftLen);
    var buf1 := new Limb[nbMods * fftLen];
    GridIs(buf1[..], nbMods, fftLen);
    LimbToNtt(buf1, fftLen, a, dpl, first, nbMods, s);
    ConvolveRows(buf1, b, dpl, nbMods, l, s, ChunksOf(a, dpl, fftLen));
    CoefficientsBounded(a, b, dpl, l, nbMods);
    NttToLimb(r, o, |a| + |b|, buf1, fftLen, dpl, nbMods, s, c);
    CoefficientsProduct(a, b, dpl, fftLen);
    SmallMod(Val(a) * Val(b), Pow(|a| + |b|));
  }

  /** The transforms of the second factor, all at once or, to save memory, one by one; and the convolutions. */
  method ConvolveRows(buf1: array<Limb>, b: seq<Limb>, dpl: nat, nbMods: nat, l: nat, s: BFNTTState, ghost da: seq<int>)
    requires StateOk(s) && 1 <= nbMods <= NB_MODS && 1 <= l <= NTT_PROOT_2EXP && 1 <= dpl <= 188
    requires Grid(buf1[..], nbMods, Two(l)) && |da| == Two(l) && Residues(buf1[..], nbMods, Two(l), da, NB_MODS - nbMods)
    modifies buf1
    ensures Grid(buf1[..], nbMods, Two(l)) && Coefficients(buf1[..], nbMods, Two(l), Cyclic(da, ChunksOf(b, dpl, Two(l))))
  {
    hide Val, Two, Grid, Cyclic, ChunksOf, Residues, RowsState, Coefficients, StateOk, ResidueRow;
    var fftLen, first := Two(l), NB_MODS - nbMods;
    ghost var db := ChunksOf(b, dpl, fftLen);
    ghost var c := Cyclic(da, db);
    RowsAtStart(buf1[..], nbMods, fftLen, da, c);
    GridRoom(nbMods, fftLen);
    var reducedMem := l >= 14;
    var buf2 := new Limb[if reducedMem then fftLen else nbMods * fftLen];
    if !reducedMem {
      GridIs(buf2[..], nbMods, fftLen);
      LimbToNtt(buf2, fftLen, b, dpl, first, nbMods, s);
    }
    var ptr := new Limb[fftLen];
    var j := 0;
    while j < nbMods
      invariant 0 <= j <= nbMods && Grid(buf1[..], nbMods, fftLen) && RowsState(buf1[..], nbMods, fftLen, da, c, j)
      invariant reducedMem ==> buf2.Length == fftLen
      invariant !reducedMem ==> Grid(buf2[..], nbMods, fftLen) && Residues(buf2[..], nbMods, fftLen, db, first)
    {
      if reducedMem {
        GridIs(buf2[..], 1, fftLen);
        LimbToNtt(buf2, fftLen, b, dpl, first + j, 1, s);
        OneRow(buf2[..], fftLen, db, first + j);
        ConvolveRow(buf1, buf2, nbMods, l, j, s, da, db);
      } else {
        LoadRow(buf2, nbMods, fftLen, j, ptr);
        RowOfResidues(buf2[..], nbMods, fftLen, db, first, j);
        ConvolveRow(buf1, ptr, nbMods, l, j, s, da, db);
      }
      j := j + 1;
    }
    RowsAtEnd(buf1[..], nbMods, fftLen, da, c);
  }

  lemma {:induction false} RowOfResidues(t: seq<int>, n1: nat, n2: nat, d: seq<int>, first: nat, j: nat)
    requires Grid(t, n1, n2) && |d| == n2 && first + n1 <= NB_MODS && j < n1 && Residues(t, n1, n2, d, first)
    ensures NTT_MODS[first + j] > 0 && ResidueRow(Row(t, n1, n2, j), d, NTT_MODS[first + j])
  {
    hide Grid, Column, Eq, CellIs, ResidueRow;
    RowResidues(t, n1, n2, d, first, j);
  }

  lemma {:induction false} GridRoom(n1: nat, n2: nat)
    ensures n1 * n2 >= 0
  {
  }

  lemma {:induction false} GridIs(t: seq<int>, n1: nat, n2: nat)
    requires |t| == n1 * n2
    ensures Grid(t, n1, n2)
  {
  }

  /** Three limbs do not fit one chunk. */
  lemma {:induction false} LengthPositive(len: nat, dpl: nat, nbMods: nat, l: nat)
    requires SizeOk(len, dpl, nbMods, l) && len >= 3
    ensures l >= 1 && dpl <= 64 * nbMods
  {
    if l == 0 { R.ScaleOne(1); }
  }

  /** mp_mul: the product, by transforms where both factors are long. */
  method MpMul(r: array<Limb>, ro: nat, a: array<Limb>, ao: nat, n: nat, b: array<Limb>, bo: nat, m: nat)
    requires ro + n + m <= r.Length && ao + n <= a.Length && bo + m <= b.Length
    requires r != a && r != b && m >= 1
    modifies r
    ensures Val(r[ro..ro + n + m]) == Val(a[ao..ao + n]) * Val(b[bo..bo + m])
    ensures Outside(old(r[..]), r[..], ro, ro + n + m)
  {
    hide Val, Pow, StateOk;
    if n >= FFT_MUL_THRESHOLD && m >= FFT_MUL_THRESHOLD && n + m <= LEN_MAX {
      var s := NttStaticInit();
      var ok := FftMul(r, ro, a[ao..ao + n], b[bo..bo + m], s);
    } else {
      MpMulBasecase(r, ro, a, ao, n, b, bo, m);
    }
  }
}
