/** limb_to_ntt: a number cut into chunks of dpl bits, and the residues of the chunks modulo each prime. */
module FftDigits {
  import opened Limbs
  import opened BfBits
  import opened BfOperands
  import opened Modular
  import opened NttArith
  import opened Ntt
  import opened FourStep
  import opened NttSplit
  import opened FftRoots
  import opened FftTables
  import opened FftProduct
  import R = Rounding

  // ---------- windows of bits ----------

  lemma {:induction false} ModSplit(w: int, p: int, q: int)
    requires w >= 0 && p > 0 && q > 0
    ensures w % (p * q) == w % p + p * (w / p % q)
    ensures p * q > 0 && w / (p * q) == w / p / q
  {
    DivMod(w, p);
    DivMod(w / p, q);
    MulMono(1, q, p);
    MulAssoc(p, q, w / p / q);
    SplitRoom(w % p, w / p % q, p, q);
    R.UniqueDivision(w, p * q, w / p / q, w % p + p * (w / p % q)) by {
      SplitSum(w, p, q, w / p, w % p, w / p / q, w / p % q);
    }
  }

  lemma {:induction false} SplitRoom(r: int, s: int, p: int, q: int)
    requires 0 <= r < p && 0 <= s < q
    ensures 0 <= r + p * s < p * q
  {
    MulMono(s + 1, q, p);
    MulMono(0, s, p);
    R.Distribute(s, p);
    R.MulSwap(p, q);
  }

  lemma {:induction false} SplitSum(w: int, p: int, q: int, d: int, r: int, e: int, s: int)
    requires w == p * d + r && d == q * e + s
    ensures w == (p * q) * e + (r + p * s)
  {
    MulAssoc(p, q, e);
  }

  /** The limb a shifted fetch returns, as a quotient. */
  lemma {:induction false} FetchQuotient(a: int, next: int, h: int, p: int, q: int, r: int, v: int)
    requires p >= 1 && q >= 1 && p * q == B && 0 <= r < B && 0 <= a && 0 <= next && 0 <= h
    requires p * r + a % p == a + B * (next % p) && v == a + B * (next + B * h)
    ensures v / p % B == r
  {
    var e, f := next / p, next % p;
    DivMod(next, p);
    DivMod(a, p);
    var k := e + q * h;
    assert v == p * (r + B * k) + a % p by { FetchSum(a, next, h, p, q, r, v, e, f); }
    R.UniqueDivision(v, p, r + B * k, a % p);
    R.UniqueDivision(r + B * k, B, k, r);
  }

  lemma {:induction false} FetchSum(a: int, next: int, h: int, p: int, q: int, r: int, v: int, e: int, f: int)
    requires p * q == B && p >= 1 && p * r + a % p == a + B * f && next == p * e + f && v == a + B * (next + B * h)
    ensures v == p * (r + B * (e + q * h)) + a % p
  {
    assert p * (B * (q * h)) == B * (B * h) by { MulAssoc(p, q, h); MulAssoc3(p, B, q * h); R.MulSwap(p * (q * h), B); }
    assert p * (B * e) == B * (p * e);
    Spread(B, e, q * h);
    Spread(p, r, B * (e + q * h));
    Spread(p, B * e, B * (q * h));
  }

  /** get_bits from a bit position that is not negative. */
  lemma {:induction false} GetBitsIs(t: seq<Limb>, pos: nat)
    ensures GetBits(t, pos) == Val(t) / Two(pos) % B
  {
    hide Val, Two, ShiftIn;
    var i, p := pos / 64, pos % 64;
    if i >= |t| {
      BitsOutside(t, pos);
      ValBound(t);
      BitsBeyond(t, pos);
    } else {
      var x := Val(t[i..]);
      CutAt(t, i, p);
      var next, h := GetLimbz(t, i + 1), if i + 1 < |t| then Val(t[i + 2..]) else 0;
      assert x == t[i] + B * (next + B * h) by { TwoLimbs(t, i); }
      if p == 0 {
        R.ScaleOne(1);
        R.UniqueDivision(x, 1, x, 0);
        R.UniqueDivision(x, B, next + B * h, t[i]);
      } else {
        TwoLimb(p);
        FetchQuotient(t[i], next, h, Two(p), Two(64 - p), ShiftIn(t[i], next, p), x);
      }
    }
  }

  lemma {:induction false} TwoLimbs(t: seq<Limb>, i: nat)
    requires i < |t|
    ensures Val(t[i..]) == t[i] + B * (GetLimbz(t, i + 1) + B * (if i + 1 < |t| then Val(t[i + 2..]) else 0))
  {
    assert t[i..][1..] == t[i + 1..];
    if i + 1 < |t| { assert t[i + 1..][1..] == t[i + 2..]; }
  }

  lemma {:induction false} BitsBeyond(t: seq<Limb>, pos: nat)
    requires pos >= 64 * |t|
    ensures Val(t) / Two(pos) == 0
  {
    hide Val, Two;
    ValBound(t);
    TwoPow(|t|);
    R.TwoMono(64 * |t|, pos);
    R.UniqueDivision(Val(t), Two(pos), 0, Val(t));
  }

  // ---------- one chunk ----------

  /** The bits of the number from pos on. */
  ghost function From(t: seq<Limb>, pos: nat): (w: nat) {
    R.QuotientNat(Val(t), Two(pos));
    Val(t) / Two(pos)
  }

  lemma {:induction false} FromNext(t: seq<Limb>, pos: nat)
    ensures From(t, pos + 64) == From(t, pos) / B && GetBits(t, pos) == From(t, pos) % B
  {
    hide Val, Two;
    GetBitsIs(t, pos);
    TwoAdd(pos, 64);
    TwoSixtyFour();
    R.NestedDivision(Val(t), Two(pos), B);
  }

  /** x & base_mask1, for dpl bits. */
  function MaskLow(x: Limb, dpl: nat): (r: Limb)
    ensures dpl % 64 != 0 ==> r == x % Two(dpl % 64)
    ensures dpl % 64 == 0 ==> r == x
  {
    if dpl % 64 == 0 then x else MaskSmall(x, Two(dpl % 64)); x % Two(dpl % 64)
  }

  lemma {:induction false} MaskSmall(x: int, p: int)
    requires x >= 0 && p >= 1
    ensures 0 <= x % p <= x
  {
    DivMod(x, p);
    R.QuotientNat(x, p);
    MulMono(0, x / p, p);
  }

  /** What limb_to_ntt hands to the reductions: the chunk itself, or its bits from 63 on and those below. */
  ghost predicate ChunkRead(a: int, a0: int, chunk: int, dpl: nat) {
    && 0 <= a < B * NTT_MOD_LOG2_MIN_POWER
    && if dpl <= 125 then a == chunk else a * HALF + a0 == chunk && 0 <= a0 < HALF
  }

  lemma {:induction false} LowChunk(w: nat, a0: Limb, dpl: nat)
    requires 1 <= dpl <= 64 && a0 == w % B
    ensures MaskLow(a0, dpl) == w % Two(dpl)
  {
    hide Two;
    TwoSixtyFour();
    if dpl < 64 {
      TwoLimb(dpl);
      ModMod(w, Two(dpl), Two(64 - dpl));
    }
  }

  lemma {:induction false} ModMod(w: nat, p: int, q: int)
    requires p > 0 && q > 0
    ensures p * q > 0 && w % (p * q) % p == w % p
  {
    ModSplit(w, p, q);
    DivMod(w, p);
    var s := w / p % q;
    R.UniqueDivision(w % p + p * s, p, s, w % p);
  }

  lemma {:induction false} MidChunk(w: nat, a0: Limb, a1: Limb, dpl: nat)
    requires 64 < dpl <= 128 && a0 == w % B && a1 == w / B % B
    ensures a0 + B * MaskLow(a1, dpl) == w % Two(dpl)
  {
    hide Two;
    TwoSixtyFour();
    TwoAdd(64, dpl - 64);
    ModSplit(w, B, Two(dpl - 64));
    R.QuotientNat(w, B);
    if dpl < 128 {
      TwoLimb(dpl - 64);
      ModMod(w / B, Two(dpl - 64), Two(128 - dpl));
      assert dpl % 64 == dpl - 64;
    }
  }

  lemma {:induction false} HighChunk(w: nat, a0: Limb, a1: Limb, a2: Limb, dpl: nat)
    requires 128 < dpl < 192 && a0 == w % B && a1 == w / B % B && a2 == w / B / B % B
    ensures a0 + B * (a1 + B * MaskLow(a2, dpl)) == w % Two(dpl)
  {
    hide Two;
    TwoSixtyFour();
    TwoAdd(64, dpl - 64);
    ModSplit(w, B, Two(dpl - 64));
    R.QuotientNat(w, B);
    TwoAdd(64, dpl - 128);
    ModSplit(w / B, B, Two(dpl - 128));
    R.QuotientNat(w / B, B);
    TwoLimb(dpl - 128);
    ModMod(w / B / B, Two(dpl - 128), Two(192 - dpl));
    assert dpl % 64 == dpl - 128;
  }

  /** The three limbs regrouped: 63 bits, and the rest as a double limb. */
  lemma {:induction false} Regrouped(a0: Limb, a1: Limb, a2: Limb, chunk: int)
    requires a0 + B * (a1 + B * a2) == chunk
    ensures (a0 / HALF + 2 * a1 + 2 * B * a2) * HALF + a0 % HALF == chunk
  {
  }

  lemma {:induction false} ChunkRoom(chunk: int, dpl: nat, a: int, a0: int)
    requires 0 <= chunk < Two(dpl) && dpl <= 188
    requires if dpl <= 125 then a == chunk else a * HALF + a0 == chunk && 0 <= a0 < HALF
    ensures 0 <= a < B * NTT_MOD_LOG2_MIN_POWER
  {
    hide Two;
    TwoBounds();
    if dpl <= 125 { R.TwoMono(dpl, 125); } else { R.TwoMono(dpl, 188); }
  }

  lemma {:induction false} TwoBounds()
    ensures Two(125) == B * NTT_MOD_LOG2_MIN_POWER && Two(188) == HALF * (B * NTT_MOD_LOG2_MIN_POWER)
  {
    hide Two;
    TwoSixtyFour();
    HalfLimb();
    TwoLarge();
    TwoAdd(64, 61);
    TwoAdd(63, 125);
  }

  /** The limbs of one chunk, put together as the code does. */
  method ReadChunk(taba: seq<Limb>, pos: nat, dpl: nat) returns (a: int, a0: Limb)
    requires 1 <= dpl <= 188
    ensures ChunkRead(a, a0, From(taba, pos) % Two(dpl), dpl)
  {
    hide Val, Two, GetBits, From, MaskLow;
    ghost var w := From(taba, pos);
    ghost var chunk := w % Two(dpl);
    DivMod(w, Two(dpl));
    FromNext(taba, pos);
    FromNext(taba, pos + 64);
    FromNext(taba, pos + 128);
    a0 := GetBits(taba, pos);
    if dpl <= 64 {
      LowChunk(w, a0, dpl);
      a0 := MaskLow(a0, dpl);
      a := a0;
    } else {
      var a1 := GetBits(taba, pos + 64);
      if dpl <= 125 {
        MidChunk(w, a0, a1, dpl);
        a := a0 + B * MaskLow(a1, dpl);
      } else {
        var a2: Limb := 0;
        if dpl > 128 {
          a2 := GetBits(taba, pos + 128);
          HighChunk(w, a0, a1, a2, dpl);
          a2 := MaskLow(a2, dpl);
        } else {
          MidChunk(w, a0, a1, dpl);
          a1 := MaskLow(a1, dpl);
        }
        Regrouped(a0, a1, a2, chunk);
        var b0: int, b1: int, b2: int := a0, a1, a2;
        a := b0 / HALF + 2 * b1 + 2 * B * b2;
        a0 := a0 % HALF;
      }
    }
    ChunkRoom(chunk, dpl, a, a0);
  }

  /** One or two reductions of a chunk. */
  method ChunkResidue(a: int, a0: Limb, dpl: nat, m: Limb, mInv: Limb, ghost chunk: int) returns (r: Limb)
    requires IsModulus(m) && mInv == InitMulModFast(m) && ChunkRead(a, a0, chunk, dpl)
    ensures r < m && Eq(r, chunk, m)
  {
    hide Eq, InitMulModFast;
    r := ModFast(a, m, mInv);
    if dpl > 125 {
      ghost var r0 := r;
      r := ModFast(r * HALF + a0, m, mInv);
      TwoReductions(r0, r, a, a0, m);
    }
  }

  lemma {:induction false} TwoReductions(r0: int, r: int, a: int, a0: int, m: int)
    requires m > 0 && Eq(r0, a, m) && Eq(r, r0 * HALF + a0, m)
    ensures Eq(r, a * HALF + a0, m)
  {
    hide Eq;
    EqSelf(HALF, m);
    EqSelf(a0, m);
    EqMul(r0, a, HALF, HALF, m);
    EqAdd(r0 * HALF, a * HALF, a0, a0, m);
    EqTrans(r, r0 * HALF + a0, a * HALF + a0, m);
  }

  // ---------- all chunks ----------

  /** The chunks of dpl bits of a number. */
  ghost function ChunksOf(t: seq<Limb>, dpl: nat, n: nat): (r: seq<int>)
    ensures |r| == n
  {
    Chunks(Val(t), Two(dpl), n)
  }

  lemma {:induction false} TwoPw(d: nat, i: nat)
    ensures d * i >= 0 && Pw(Two(d), i) == Two(d * i)
    decreases i
  {
    hide Two;
    if i == 0 {
      R.ScaleOne(0);
    } else {
      TwoPw(d, i - 1);
      assert d * i == d + d * (i - 1);
      TwoAdd(d, d * (i - 1));
    }
  }

  lemma {:induction false} ChunkFrom(t: seq<Limb>, dpl: nat, n: nat, i: nat)
    requires i < n
    ensures i * dpl >= 0 && From(t, i * dpl) % Two(dpl) == ChunksOf(t, dpl, n)[i]
  {
    hide Val, Two, Chunks;
    TwoPw(dpl, i);
    R.MulSwap(dpl, i);
    ChunkAt(Val(t), Two(dpl), n, i);
  }

  /** Nothing is left behind the last limb. */
  lemma {:induction false} ChunkBeyond(t: seq<Limb>, dpl: nat, n: nat, i: nat)
    requires i < n && i * dpl >= 64 * |t|
    ensures ChunksOf(t, dpl, n)[i] == 0
  {
    hide Val, Two, Chunks;
    ChunkFrom(t, dpl, n, i);
    BitsBeyond(t, i * dpl);
    SmallMod(0, Two(dpl));
  }

  /** The residue of chunk l modulo prime first + r, in row r. */
  ghost predicate CellIs(t: seq<int>, n1: nat, n2: nat, chunks: seq<int>, first: nat, r: nat, l: nat)
    requires Grid(t, n1, n2) && |chunks| == n2 && first + n1 <= NB_MODS && r < n1 && l < n2
  {
    PrimeIsModulus(first + r);
    var m := NTT_MODS[first + r];
    0 <= Column(t, n1, n2, l)[r] < m && Eq(Column(t, n1, n2, l)[r], chunks[l], m)
  }

  /** The columns before i and the first j cells of column i are written, the rest is zero. */
  ghost predicate CellState(t: seq<int>, n1: nat, n2: nat, chunks: seq<int>, first: nat, i: nat, j: nat, r: nat, l: nat)
    requires Grid(t, n1, n2) && |chunks| == n2 && first + n1 <= NB_MODS && r < n1 && l < n2
  {
    if l < i || (l == i && r < j) then CellIs(t, n1, n2, chunks, first, r, l) else Column(t, n1, n2, l)[r] == 0
  }

  ghost predicate Filled(t: seq<int>, n1: nat, n2: nat, chunks: seq<int>, first: nat, i: nat, j: nat)
    requires Grid(t, n1, n2) && |chunks| == n2 && first + n1 <= NB_MODS
  {
    forall r, l :: 0 <= r < n1 && 0 <= l < n2 ==> CellState(t, n1, n2, chunks, first, i, j, r, l)
  }

  ghost predicate Residues(t: seq<int>, n1: nat, n2: nat, chunks: seq<int>, first: nat)
    requires Grid(t, n1, n2) && |chunks| == n2 && first + n1 <= NB_MODS
  {
    forall r, l :: 0 <= r < n1 && 0 <= l < n2 ==> CellIs(t, n1, n2, chunks, first, r, l)
  }

  lemma {:induction false} FilledNone(t: seq<int>, n1: nat, n2: nat, chunks: seq<int>, first: nat)
    requires Grid(t, n1, n2) && |chunks| == n2 && first + n1 <= NB_MODS && forall k :: 0 <= k < |t| ==> t[k] == 0
    ensures Filled(t, n1, n2, chunks, first, 0, 0)
  {
    hide Column, Place, Grid, Eq;
    forall r, l | 0 <= r < n1 && 0 <= l < n2 ensures CellState(t, n1, n2, chunks, first, 0, 0, r, l) {
      PlaceOfColumn(t, n1, n2, l, r);
    }
  }

  lemma {:induction false} FilledOne(t: seq<int>, u: seq<int>, n1: nat, n2: nat, chunks: seq<int>, first: nat, i: nat, j: nat, x: int)
    requires Grid(t, n1, n2) && |chunks| == n2 && first + n1 <= NB_MODS && i < n2 && j < n1
    requires Filled(t, n1, n2, chunks, first, i, j) && Place(n2, j, i) < |t| && u == t[Place(n2, j, i) := x]
    requires 0 <= x < NTT_MODS[first + j] && Eq(x, chunks[i], NTT_MODS[first + j])
    ensures Grid(u, n1, n2) && Filled(u, n1, n2, chunks, first, i, j + 1)
  {
    hide Place, Column, Grid, Eq;
    assert Grid(u, n1, n2) by { GridLength(t, t, u, n1, n2); }
    var next := j + 1;
    forall r, l | 0 <= r < n1 && 0 <= l < n2 ensures CellState(u, n1, n2, chunks, first, i, next, r, l) {
      assert CellState(t, n1, n2, chunks, first, i, j, r, l);
      PlaceOfColumn(t, n1, n2, l, r);
      PlaceOfColumn(u, n1, n2, l, r);
      if Place(n2, r, l) == Place(n2, j, i) { PlacesApart(n2, r, l, j, i); }
    }
  }

  lemma {:induction false} FilledColumn(t: seq<int>, n1: nat, n2: nat, chunks: seq<int>, first: nat, i: nat)
    requires Grid(t, n1, n2) && |chunks| == n2 && first + n1 <= NB_MODS && Filled(t, n1, n2, chunks, first, i, n1)
    ensures Filled(t, n1, n2, chunks, first, i + 1, 0)
  {
    hide Column, Grid, Eq, CellIs;
    var next := i + 1;
    forall r, l | 0 <= r < n1 && 0 <= l < n2 ensures CellState(t, n1, n2, chunks, first, next, 0, r, l) {
      assert CellState(t, n1, n2, chunks, first, i, n1, r, l);
    }
  }

  /** Chunks behind the last limb are zero, as the cells are. */
  lemma {:induction false} FilledAll(t: seq<int>, n1: nat, n2: nat, chunks: seq<int>, first: nat, i: nat)
    requires Grid(t, n1, n2) && |chunks| == n2 && first + n1 <= NB_MODS && Filled(t, n1, n2, chunks, first, i, 0)
    requires forall l :: i <= l < n2 ==> chunks[l] == 0
    ensures Residues(t, n1, n2, chunks, first)
  {
    hide Column, Grid, Eq;
    forall r, l | 0 <= r < n1 && 0 <= l < n2 ensures CellIs(t, n1, n2, chunks, first, r, l) {
      assert CellState(t, n1, n2, chunks, first, i, 0, r, l);
      PrimeIsModulus(first + r);
      if l >= i { EqSelf(0, NTT_MODS[first + r]); }
    }
  }

  lemma {:induction false} EnoughChunks(len: nat, dpl: nat, n: nat)
    requires dpl >= 1 && n == (len * 64 + dpl - 1) / dpl
    ensures n * dpl >= 64 * len
  {
    var x := len * 64 + dpl - 1;
    DivMod(x, dpl);
    R.MulSwap(dpl, n);
  }

  /** limb_to_ntt: row j of the result holds the residues of all chunks modulo prime first + j. */
  method LimbToNtt(tabr: array<Limb>, fftLen: nat, taba: seq<Limb>, dpl: nat, first: nat, nbMods: nat, s: BFNTTState)
    requires StateOk(s) && 1 <= dpl <= 188 && first + nbMods <= NB_MODS && Grid(tabr[..], nbMods, fftLen)
    modifies tabr
    ensures Grid(tabr[..], nbMods, fftLen) && Residues(tabr[..], nbMods, fftLen, ChunksOf(taba, dpl, fftLen), first)
  {
    hide Val, Two, ChunksOf, Filled, From, Grid, InitMulModFast, Eq, Place, ModTablesOk, ChunkRead;
    forall k | 0 <= k < tabr.Length { tabr[k] := 0; }
    ghost var t0, chunks := tabr[..], ChunksOf(taba, dpl, fftLen);
    assert Grid(t0, nbMods, fftLen) by { GridLength(old(tabr[..]), old(tabr[..]), t0, nbMods, fftLen); }
    FilledNone(t0, nbMods, fftLen, chunks, first);
    var n := (|taba| * 64 + dpl - 1) / dpl;
    ghost var whole := n;
    EnoughChunks(|taba|, dpl, whole);
    if fftLen < n { n := fftLen; }
    var i := 0;
    while i < n
      invariant 0 <= i <= n <= fftLen && |tabr[..]| == |t0| && Grid(tabr[..], nbMods, fftLen)
      invariant Filled(tabr[..], nbMods, fftLen, chunks, first, i, 0)
    {
      ChunkFrom(taba, dpl, fftLen, i);
      var a, a0 := ReadChunk(taba, i * dpl, dpl);
      WriteColumn(tabr, fftLen, a, a0, dpl, first, nbMods, s, i, chunks);
      FilledColumn(tabr[..], nbMods, fftLen, chunks, first, i);
      i := i + 1;
    }
    forall l | i <= l < fftLen ensures chunks[l] == 0 {
      MulMono(whole, l, dpl);
      ChunkBeyond(taba, dpl, fftLen, l);
    }
    FilledAll(tabr[..], nbMods, fftLen, chunks, first, i);
  }

  /** The inner loop: one chunk, modulo every prime. */
  method WriteColumn(tabr: array<Limb>, fftLen: nat, a: int, a0: Limb, dpl: nat, first: nat, nbMods: nat, s: BFNTTState,
                     i: nat, ghost chunks: seq<int>)
    requires StateOk(s) && first + nbMods <= NB_MODS && Grid(tabr[..], nbMods, fftLen) && |chunks| == fftLen && i < fftLen
    requires ChunkRead(a, a0, chunks[i], dpl) && Filled(tabr[..], nbMods, fftLen, chunks, first, i, 0)
    modifies tabr
    ensures Grid(tabr[..], nbMods, fftLen) && Filled(tabr[..], nbMods, fftLen, chunks, first, i, nbMods)
  {
    hide Filled, Grid, InitMulModFast, Eq, Place, ChunkRead, RootsOk, LenInvAt;
    var j := 0;
    while j < nbMods
      invariant 0 <= j <= nbMods && Grid(tabr[..], nbMods, fftLen) && Filled(tabr[..], nbMods, fftLen, chunks, first, i, j)
    {
      var t := s.mods[first + j];
      assert ModTablesOk(t, first + j);
      var r := ChunkResidue(a, a0, dpl, t.m, t.mInv, chunks[i]);
      ghost var before := tabr[..];
      PlaceOfColumn(before, nbMods, fftLen, i, j);
      tabr[Place(fftLen, j, i)] := r;
      FilledOne(before, tabr[..], nbMods, fftLen, chunks, first, i, j, r);
      j := j + 1;
    }
  }
}
