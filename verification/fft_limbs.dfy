/** ntt_to_limb: the coefficients of a product, known by their residues, added up with carries into limbs. */
module FftLimbs {
  import opened Limbs
  import opened BfBits
  import opened BfOperands
  import opened Modular
  import opened FourStep
  import opened NttSplit
  import opened FftRoots
  import opened FftTables
  import opened FftProduct
  import opened FftDigits
  import opened FftCrt
  import R = Rounding

  // ---------- writing bits ----------

  lemma {:induction false} ValUpdate(s: seq<Limb>, i: nat, x: Limb)
    requires i < |s|
    ensures Val(s[i := x]) == Val(s) + (x - s[i]) * Pow(i)
  {
    hide Val, Pow;
    var t := s[i := x];
    assert s[..i] == t[..i] && s[i + 1..] == t[i + 1..];
    WholeSplit(s, i);
    WholeSplit(t, i);
    ValHead(s, i);
    ValHead(t, i);
  }

  lemma {:induction false} ValHead(s: seq<Limb>, i: nat)
    requires i < |s|
    ensures Val(s[i..]) == s[i] + B * Val(s[i + 1..])
  {
    assert s[i..][1..] == s[i + 1..];
  }

  /** Above the bits that are set there is room. */
  lemma {:induction false} ClearAbove(s: seq<Limb>, i: nat, p: nat)
    requires p < 64 && Val(s) < Two(64 * i + p)
    ensures i < |s| ==> s[i] < Two(p)
    ensures i + 1 < |s| ==> s[i + 1] == 0
  {
    hide Val, Two;
    if i < |s| {
      CutAt(s, i, p);
      var x := Val(s[i..]);
      R.UniqueDivision(Val(s), Two(64 * i + p), 0, Val(s));
      DivMod(x, Two(p));
      ValHead(s, i);
      R.TwoMono(p, 63);
      HalfLimb();
      if i + 1 < |s| { ValHead(s, i + 1); }
    }
  }

  /** val << p and what is shifted out of it. */
  lemma {:induction false} ShiftedOut(val: Limb, p: nat)
    requires p < 64
    ensures val * Two(p) == B * (val / Two(64 - p)) + val * Two(p) % B
    ensures 0 <= val / Two(64 - p) < B && (p == 0 ==> val / Two(64 - p) == 0)
    ensures 0 <= val * Two(p) % B && val * Two(p) % B + Two(p) <= B
  {
    hide Two;
    TwoLimb(p);
    var q, d, r := Two(64 - p), val / Two(64 - p), val % Two(64 - p);
    DivMod(val, q);
    DivLess(val, q, Two(p)) by { R.MulSwap(q, Two(p)); }
    assert val * Two(p) == B * d + r * Two(p) by { ShiftedSum(val, q, d, r, Two(p)); }
    MulMono(r + 1, q, Two(p));
    R.Distribute(r, Two(p));
    R.MulSwap(q, Two(p));
    MulMono(0, r, Two(p));
    R.UniqueDivision(val * Two(p), B, d, r * Two(p));
    R.TwoMono(p, 64);
    TwoSixtyFour();
    if p == 0 { R.UniqueDivision(val, B, 0, val); }
  }

  lemma {:induction false} ShiftedSum(val: int, q: int, d: int, r: int, p: int)
    requires val == q * d + r && p * q == B
    ensures val * p == B * d + r * p
  {
    assert (q * d) * p == (p * q) * d;
  }

  /** x | y where x lies below bit p and y has no bits there: a sum. */
  function OrAbove(x: Limb, y: int, p: nat): (r: Limb)
    requires x < Two(p) && 0 <= y && y + Two(p) <= B
  {
    x + y
  }

  lemma {:induction false} PutSum(x: int, lo: int, hi: int, val: int, p: int, pi: int, pos: int)
    requires val * p == B * hi + lo && pi * p == pos
    ensures x + lo * pi + hi * (B * pi) == x + val * pos
  {
    assert (val * p) * pi == (B * hi + lo) * pi;
    assert (val * p) * pi == val * (pi * p);
    assert (B * hi + lo) * pi == hi * (B * pi) + lo * pi;
  }

  /** The bits that fall off the end make no difference modulo B^len. */
  lemma {:induction false} PutRest(x: int, total: int, k: int, m: int)
    requires 0 <= x < m && total == x + m * k
    ensures total % m == x
  {
    R.UniqueDivision(total, m, k, x);
  }

  lemma {:induction false} FallsOff(n: nat, i: nat, p: nat, val: int)
    requires i >= n
    ensures val * Two(64 * i + p) == Pow(n) * (val * Two(64 * (i - n) + p))
  {
    hide Two, Pow;
    TwoParts(n, 64 * (i - n) + p);
    MulAssoc3(val, Pow(n), Two(64 * (i - n) + p));
    R.MulSwap(val * Two(64 * (i - n) + p), Pow(n));
  }

  lemma {:induction false} PutRoom(x: int, val: int, t: int, v: int, m: int)
    requires 0 <= x < t && 0 <= val < B && m > 0 && v == (x + val * t) % m
    ensures v < t * B
  {
    MulMono(val + 1, B, t);
    R.Distribute(val, t);
    MulMono(0, val, t);
    MaskSmall(x + val * t, m);
  }

  /** The slice after the two writes of put_bits. */
  lemma {:induction false} PutValue(s: seq<Limb>, t: seq<Limb>, i: nat, p: nat, val: Limb)
    requires p < 64 && Val(s) < Two(64 * i + p) && |t| == |s|
    requires var lo, hi := val * Two(p) % B, val / Two(64 - p);
             && (i < |s| ==> t[i] == s[i] + lo) && (p != 0 && i + 1 < |s| ==> t[i + 1] == hi)
    requires forall k :: 0 <= k < |s| && k != i && !(p != 0 && k == i + 1) ==> t[k] == s[k]
    ensures Val(t) == (Val(s) + val * Two(64 * i + p)) % Pow(|s|)
  {
    hide Val, Two, Pow;
    var lo, hi, n, total := val * Two(p) % B, val / Two(64 - p), |s|, Val(s) + val * Two(64 * i + p);
    ShiftedOut(val, p);
    ValBound(s);
    ValBound(t);
    if i >= n {
      assert t == s;
      FallsOff(n, i, p, val);
      PutRest(Val(s), total, val * Two(64 * (i - n) + p), Pow(n));
    } else {
      ClearAbove(s, i, p);
      TwoParts(i, p);
      PowStep(i + 1);
      PutSum(Val(s), lo, hi, val, Two(p), Pow(i), Two(64 * i + p));
      ValUpdate(s, i, t[i]);
      var s1 := s[i := t[i]];
      if i + 1 == n {
        assert t == s1;
        R.MulSwap(hi, Pow(n));
        PutRest(Val(t), total, hi, Pow(n));
      } else {
        ValUpdate(s1, i + 1, t[i + 1]);
        assert t == s1[i + 1 := t[i + 1]];
        if p == 0 { assert t[i + 1] == s[i + 1]; }
        assert s1[i + 1] == 0 && t[i + 1] == hi;
        PutRest(Val(t), total, 0, Pow(n));
      }
    }
  }

  /** put_bits: a limb or-ed in at bit position pos, where everything from pos on is zero; what lies behind
      the last limb is dropped. */
  method PutBits(tab: array<Limb>, o: nat, len: nat, pos: nat, val: Limb)
    requires o + len <= tab.Length && Val(tab[o..o + len]) < Two(pos)
    modifies tab
    ensures Val(tab[o..o + len]) == (old(Val(tab[o..o + len])) + val * Two(pos)) % Pow(len)
    ensures Val(tab[o..o + len]) < Two(pos + 64)
    ensures Outside(old(tab[..]), tab[..], o, o + len)
  {
    hide Val, Two, Pow;
    ghost var s := tab[o..o + len];
    var i, p := pos / 64, pos % 64;
    ghost var i0 := i;
    assert pos == 64 * i + p;
    ClearAbove(s, i, p);
    ShiftedOut(val, p);
    if i < len {
      assert tab[o + i] == s[i];
      tab[o + i] := OrAbove(tab[o + i], val * Two(p) % B, p);
    }
    if p != 0 {
      i := i + 1;
      if i < len {
        assert tab[o + i] == s[i] == 0;
        R.ScaleOne(0);
        HighRoom(val, p);
        tab[o + i] := OrAbove(tab[o + i], val / Two(64 - p), 0);
      }
    }
    PutValue(s, tab[o..o + len], i0, p, val);
    TwoAdd(pos, 64);
    TwoSixtyFour();
    PutRoom(Val(s), val, Two(pos), Val(tab[o..o + len]), Pow(len));
  }

  lemma {:induction false} HighRoom(val: Limb, p: nat)
    requires 1 <= p < 64
    ensures val / Two(64 - p) + 1 <= B
  {
    ShiftedOut(val, p);
  }

  // ---------- one coefficient ----------

  lemma {:induction false} TwoWrites(x0: int, w: int, val: int, pj: int, t0: int, m: int, x: int, y: int)
    requires m > 0 && x == (x0 + w * t0) % m && y == (x + val * (t0 * pj)) % m
    ensures y == (x0 + (w + val * pj) * t0) % m
  {
    MulAssoc3(val, t0, pj);
    ModSum(x0, w * t0, val * (t0 * pj), m, x, y, (w + val * pj) * t0);
  }

  lemma {:induction false} ModSum(x0: int, a: int, b: int, m: int, x: int, y: int, total: int)
    requires m > 0 && x == (x0 + a) % m && y == (x + b) % m && total == a + b
    ensures y == (x0 + total) % m
  {
    ModAdd(x0 + a, b, m);
  }

  lemma {:induction false} ModAdd(a: int, b: int, m: int)
    requires m > 0
    ensures (a % m + b) % m == (a + b) % m
  {
    DivMod(a, m);
    DivMod(a % m + b, m);
    var k, j := a / m, (a % m + b) / m;
    Spread(m, k, j);
    R.UniqueDivision(a + b, m, k + j, (a % m + b) % m);
  }

  /** The low dpl bits of u, limb by limb. */
  lemma {:induction false} LowLimbs(u: seq<Limb>, dpl: nat)
    requires 1 <= dpl <= 64 * |u|
    ensures var n := (dpl - 1) / 64;
            n < |u| && Val(u[0..n]) + MaskLow(u[n], dpl) * Pow(n) == Val(u) % Two(dpl)
  {
    hide Val, Two, Pow, MaskLow;
    var n := (dpl - 1) / 64;
    var s := dpl - 64 * n;
    assert dpl == 64 * n + s;
    CutAt(u, n, s);
    LowBits(u[n..], s);
    MaskIs(u[n], n, s);
    R.MulSwap(u[n] % Two(s), Pow(n));
    assert u[..n] == u[0..n];
  }

  lemma {:induction false} MaskIs(x: Limb, n: nat, s: nat)
    requires 1 <= s <= 64
    ensures MaskLow(x, 64 * n + s) == x % Two(s)
  {
    hide Two;
    if s == 64 {
      TwoSixtyFour();
      SmallMod(x, B);
    } else {
      assert (64 * n + s) % 64 == s;
    }
  }

  lemma {:induction false} ChunkFits(x: int, w: int, t0: int, p: int, m: int, v: int)
    requires 0 <= x < t0 && 0 <= w < p && m > 0 && v == (x + w * t0) % m
    ensures v < t0 * p
  {
    MulMono(w + 1, p, t0);
    R.Distribute(w, t0);
    MulMono(0, w, t0);
    R.MulSwap(p, t0);
    MaskSmall(x + w * t0, m);
  }

  /** Writing the digits: the low dpl bits of u from bit pos on. */
  method WriteChunk(tab: array<Limb>, o: nat, len: nat, pos: nat, u: array<Limb>, dpl: nat)
    requires o + len <= tab.Length && Val(tab[o..o + len]) < Two(pos) && tab != u && 1 <= dpl <= 64 * u.Length
    modifies tab
    ensures Val(tab[o..o + len]) == (old(Val(tab[o..o + len])) + Val(u[..]) % Two(dpl) * Two(pos)) % Pow(len)
    ensures Val(tab[o..o + len]) < Two(pos + dpl)
    ensures Outside(old(tab[..]), tab[..], o, o + len)
  {
    hide Val, Two, Pow, MaskLow;
    ghost var x0, U := Val(tab[o..o + len]), u[..];
    var nLimb1 := (dpl - 1) / 64;
    LowLimbs(U, dpl);
    WriteLimbs(tab, o, len, pos, u, nLimb1);
    ghost var x := Val(tab[o..o + len]);
    assert u[nLimb1] == U[nLimb1];
    PutBits(tab, o, len, pos + 64 * nLimb1, MaskLow(u[nLimb1], dpl));
    OneMoreLimb(x0, U, nLimb1, MaskLow(u[nLimb1], dpl), pos, Pow(len), x, Val(tab[o..o + len]));
    DivMod(Val(U), Two(dpl));
    TwoAdd(pos, dpl);
    ChunkFits(x0, Val(U) % Two(dpl), Two(pos), Two(dpl), Pow(len), Val(tab[o..o + len]));
  }

  /** The whole limbs of it. */
  method WriteLimbs(tab: array<Limb>, o: nat, len: nat, pos: nat, u: array<Limb>, nLimb1: nat)
    requires o + len <= tab.Length && Val(tab[o..o + len]) < Two(pos) && tab != u && nLimb1 <= u.Length
    modifies tab
    ensures Written(Val(tab[o..o + len]), old(Val(tab[o..o + len])), Val(u[0..nLimb1]), Two(pos), Pow(len))
    ensures Val(tab[o..o + len]) < Two(pos + 64 * nLimb1)
    ensures Outside(old(tab[..]), tab[..], o, o + len)
  {
    hide Val, Two, Pow, Written;
    ghost var x0, U, T0 := Val(tab[o..o + len]), u[..], tab[..];
    NothingWritten(tab[o..o + len], U, Two(pos));
    var j, at := 0, pos;
    while j < nLimb1
      invariant 0 <= j <= nLimb1 && at == pos + 64 * j && u[..] == U && Outside(T0, tab[..], o, o + len)
      invariant Written(Val(tab[o..o + len]), x0, Val(U[0..j]), Two(pos), Pow(len)) && Val(tab[o..o + len]) < Two(at)
    {
      ghost var x := Val(tab[o..o + len]);
      assert u[j] == U[j];
      PutBits(tab, o, len, at, u[j]);
      OneMoreLimb(x0, U, j, u[j], pos, Pow(len), x, Val(tab[o..o + len]));
      at := at + 64;
      ValSnoc(U, 0, j);
      j := j + 1;
    }
  }

  /** v is x0 and w from the place t on, modulo m. */
  ghost predicate Written(v: int, x0: int, w: int, t: int, m: int)
    requires m > 0
  {
    v == (x0 + w * t) % m
  }

  lemma {:induction false} NothingWritten(s: seq<Limb>, u: seq<Limb>, t: int)
    ensures Written(Val(s), Val(s), Val(u[0..0]), t, Pow(|s|))
  {
    hide Val, Pow;
    Empty(u, 0);
    ValBound(s);
    SmallMod(Val(s), Pow(|s|));
    assert 0 * t == 0;
  }

  lemma {:induction false} OneMoreLimb(x0: int, u: seq<Limb>, j: nat, val: int, pos: nat, m: int, x: int, y: int)
    requires j < |u| && m > 0 && Written(x, x0, Val(u[0..j]), Two(pos), m) && y == (x + val * Two(pos + 64 * j)) % m
    ensures Written(y, x0, Val(u[0..j]) + val * Pow(j), Two(pos), m)
  {
    hide Val, Two, Pow;
    TwoAdd(pos, 64 * j);
    TwoPow(j);
    TwoWrites(x0, Val(u[0..j]), val, Pow(j), Two(pos), m, x, y);
  }

  // ---------- the carry ----------

  /** n limbs of t from bit pos on. */
  function Window(t: seq<Limb>, pos: nat, n: nat): (s: seq<Limb>)
    ensures |s| == n
    decreases n
  {
    if n == 0 then [] else [GetBits(t, pos)] + Window(t, pos + 64, n - 1)
  }

  lemma {:induction false} WindowAt(t: seq<Limb>, pos: nat, n: nat, k: nat)
    requires k < n
    ensures Window(t, pos, n)[k] == GetBits(t, pos + 64 * k)
    decreases n
  {
    hide GetBits;
    if k > 0 { WindowAt(t, pos + 64, n - 1, k - 1); }
  }

  lemma {:induction false} WindowValue(t: seq<Limb>, pos: nat, n: nat)
    ensures Val(Window(t, pos, n)) == From(t, pos) % Pow(n)
    decreases n
  {
    hide From, GetBits;
    if n > 0 {
      var s := Window(t, pos, n);
      WindowValue(t, pos + 64, n - 1);
      FromNext(t, pos);
      assert s[1..] == Window(t, pos + 64, n - 1);
      ModSplit(From(t, pos), B, Pow(n - 1));
    }
  }

  lemma {:induction false} CarryValue(u: seq<Limb>, c: seq<Limb>, dpl: nat)
    requires |c| == |u| && forall k :: 0 <= k < |c| ==> c[k] == GetBits(u, dpl + 64 * k)
    ensures Val(c) == Val(u) / Two(dpl)
  {
    hide Val, Two, Pow, GetBits;
    var n := |u|;
    assert c == Window(u, dpl, n) by {
      forall k | 0 <= k < n ensures c[k] == Window(u, dpl, n)[k] { WindowAt(u, dpl, n, k); }
    }
    WindowValue(u, dpl, n);
    ValBound(u);
    R.QuotientNat(Val(u), Two(dpl));
    DivideDown(Val(u), Two(dpl));
    SmallMod(From(u, dpl), Pow(n));
  }

  lemma {:induction false} DivideDown(x: int, p: int)
    requires x >= 0 && p >= 1
    ensures 0 <= x / p <= x
  {
    R.QuotientNat(x, p);
    DivMod(x, p);
    MulMono(1, p, x / p);
  }

  /** One limb of the carry: two limbs of u, or the top one with zeros above. */
  lemma {:induction false} CarryLimb(u: seq<Limb>, dpl: nat, k: nat)
    requires 1 <= dpl
    ensures var n, s := dpl / 64, dpl % 64;
            && (n + k >= |u| ==> GetBits(u, dpl + 64 * k) == 0)
            && (n + k < |u| && s == 0 ==> GetBits(u, dpl + 64 * k) == u[n + k])
            && (n + k < |u| && s != 0 ==>
                  GetBits(u, dpl + 64 * k) == ShiftIn(u[n + k], if n + k + 1 < |u| then u[n + k + 1] else 0, s))
  {
    hide ShiftIn;
    var n, s := dpl / 64, dpl % 64;
    var pos := dpl + 64 * k;
    assert pos / 64 == n + k && pos % 64 == s;
    if n + k >= |u| { BitsOutside(u, pos); }
  }

  /** Shifting u down by dpl bits into the carry, whose upper limbs have never been anything but zero. */
  method ShiftCarry(u: array<Limb>, carry: array<Limb>, dpl: nat)
    requires u != carry && carry.Length == u.Length && 1 <= dpl <= 64 * u.Length
    requires forall k :: 0 <= k < u.Length && k + dpl / 64 >= u.Length ==> carry[k] == 0
    modifies carry
    ensures Val(carry[..]) == Val(u[..]) / Two(dpl)
    ensures forall k :: 0 <= k < u.Length && k + dpl / 64 >= u.Length ==> carry[k] == 0
  {
    hide Val, Two, GetBits, ShiftIn;
    ghost var U := u[..];
    var nbMods, nLimb1, shift := u.Length, (dpl - 1) / 64, dpl % 64;
    ghost var n := dpl / 64;
    if shift == 0 {
      var j := nLimb1 + 1;
      while j < nbMods
        invariant nLimb1 + 1 == n <= j <= nbMods
        invariant forall k :: 0 <= k < j - n ==> carry[k] == GetBits(U, dpl + 64 * k)
        invariant forall k :: nbMods - n <= k < nbMods ==> carry[k] == 0
      {
        CarryLimb(U, dpl, j - n);
        carry[j - (nLimb1 + 1)] := u[j];
        j := j + 1;
      }
    } else {
      var j := nLimb1;
      while j < nbMods - 1
        invariant nLimb1 == n <= j <= nbMods - 1
        invariant forall k :: 0 <= k < j - n ==> carry[k] == GetBits(U, dpl + 64 * k)
        invariant forall k :: nbMods - n <= k < nbMods ==> carry[k] == 0
      {
        CarryLimb(U, dpl, j - n);
        carry[j - nLimb1] := ShiftIn(u[j], u[j + 1], shift);
        j := j + 1;
      }
      CarryLimb(U, dpl, j - n);
      carry[nbMods - 1 - nLimb1] := ShiftIn(u[nbMods - 1], 0, shift);
    }
    forall k | 0 <= k < nbMods ensures carry[k] == GetBits(U, dpl + 64 * k) {
      CarryLimb(U, dpl, k);
    }
    CarryValue(U, carry[..], dpl);
  }

  // ---------- all coefficients ----------

  /** Cell (j, l) is a residue, perhaps m too large, of coefficient l modulo prime j of those from first on. */
  ghost predicate CoefficientAt(t: seq<int>, n1: nat, n2: nat, c: seq<int>, j: nat, l: nat)
    requires Grid(t, n1, n2) && |c| == n2 && n1 <= NB_MODS && j < n1 && l < n2
  {
    var m := NTT_MODS[NB_MODS - n1 + j];
    m > 0 && 0 <= Column(t, n1, n2, l)[j] < 2 * m && Eq(Column(t, n1, n2, l)[j], c[l], m)
  }

  ghost predicate Coefficients(t: seq<int>, n1: nat, n2: nat, c: seq<int>)
    requires Grid(t, n1, n2) && |c| == n2 && n1 <= NB_MODS
  {
    forall j, l :: 0 <= j < n1 && 0 <= l < n2 ==> CoefficientAt(t, n1, n2, c, j, l)
  }

  /** ntt_limb_to_int for every prime. */
  method ReadResidues(buf: array<Limb>, fftLen: nat, i: nat, y: array<Limb>, ghost c: seq<int>)
    requires 2 <= y.Length <= NB_MODS && Grid(buf[..], y.Length, fftLen) && |c| == fftLen && i < fftLen && y != buf && c[i] >= 0
    requires Coefficients(buf[..], y.Length, fftLen, c)
    modifies y
    ensures ResiduesOf(y[..], c[i], NB_MODS - y.Length, NB_MODS - y.Length, 0, y.Length)
  {
    hide Eq, Grid, Column, Place;
    var nbMods := y.Length;
    var first := NB_MODS - nbMods;
    ghost var b := buf[..];
    var j := 0;
    while j < nbMods
      invariant 0 <= j <= nbMods && ResiduesOf(y[..], c[i], first, first, 0, j)
    {
      PlaceOfColumn(b, nbMods, fftLen, i, j);
      assert CoefficientAt(b, nbMods, fftLen, c, j, i);
      var m := NTT_MODS[first + j];
      var x := buf[Place(fftLen, j, i)];
      ghost var x0 := x;
      if x >= m { x := x - m; EqBy(x, x0, m, -1); EqTrans(x, x0, c[i], m); }
      ghost var y0 := y[..];
      y[j] := x;
      ResidueRead(y0, y[..], c[i], first, j);
      j := j + 1;
    }
  }

  lemma {:induction false} ResidueRead(y0: seq<Limb>, y: seq<Limb>, c: nat, f: nat, j: nat)
    requires f + |y0| == NB_MODS && j < |y0| && |y| == |y0| && y == y0[j := y[j]] && ResiduesOf(y0, c, f, f, 0, j)
    requires NTT_MODS[f + j] > 0 && y[j] < NTT_MODS[f + j] && Eq(y[j], c, NTT_MODS[f + j])
    ensures ResiduesOf(y, c, f, f, 0, j + 1)
  {
    hide Eq;
    LeftWhole(c, f);
    forall i | 0 <= i < j + 1 ensures ResidueOf(y, c, f, f, i) { if i < j { assert ResidueOf(y0, c, f, f, i); } }
  }

  /** The sum of the coefficients before i is what has been written, t, and the carry. */
  ghost predicate Added(c: seq<int>, x: int, i: nat, t: int, carry: int)
    requires i <= |c|
  {
    0 <= t < Pw(x, i) && t + carry * Pw(x, i) == Eval(c[..i], x)
  }

  lemma {:induction false} AddedStep(c: seq<int>, x: int, i: nat, t: int, carry: int, u: int)
    requires i < |c| && x >= 1 && Added(c, x, i, t, carry) && u == c[i] + carry && u >= 0
    ensures Added(c, x, i + 1, t + u % x * Pw(x, i), u / x)
  {
    var p, w := Pw(x, i), u % x;
    assert c[..i + 1] == c[..i] + [c[i]];
    EvalConcat(c[..i], [c[i]], x);
    assert Eval([c[i]], x) == c[i] + x * Eval([], x);
    DivMod(u, x);
    PwPositive(x, i);
    MulMono(w + 1, x, p);
    R.Distribute(w, p);
    MulMono(0, w, p);
    StepSum(t, carry, c[i], u, x, u / x, w, p);
  }

  lemma {:induction false} StepSum(t: int, carry: int, c: int, u: int, x: int, q: int, w: int, p: int)
    requires u == c + carry && u == x * q + w
    ensures t + w * p + q * (x * p) == t + carry * p + p * c
  {
    assert (x * q + w) * p == q * (x * p) + w * p;
    assert (c + carry) * p == carry * p + p * c;
  }

  /** What has been written is right modulo every m that x^i is a multiple of. */
  lemma {:induction false} AddedAll(c: seq<int>, x: int, i: nat, t: int, carry: int, m: int, k: int)
    requires i <= |c| && Added(c, x, i, t, carry) && m > 0 && Pw(x, i) == m * k
    ensures t % m == Eval(c, x) % m
  {
    var p, rest := Pw(x, i), Eval(c[i..], x);
    assert c == c[..i] + c[i..];
    EvalConcat(c[..i], c[i..], x);
    AllSum(t, carry, p, rest, m, k);
    ModShift(t, m, k * (carry + rest));
  }

  lemma {:induction false} AllSum(t: int, carry: int, p: int, rest: int, m: int, k: int)
    requires p == m * k
    ensures t + carry * p + p * rest == t + m * (k * (carry + rest))
  {
    MulAssoc(m, k, carry + rest);
    Spread(p, carry, rest);
    R.MulSwap(carry, p);
  }

  lemma {:induction false} ModShift(t: int, m: int, k: int)
    requires m > 0
    ensures (t + m * k) % m == t % m
  {
    DivMod(t, m);
    Spread(m, t / m, k);
    R.UniqueDivision(t + m * k, m, t / m + k, t % m);
  }

  /** Coefficients and carries stay far below what the limbs of u can hold. */
  lemma {:induction false} PrimesBelow(n: nat)
    requires 1 <= n <= NB_MODS
    ensures 2 * Primes(NB_MODS - n) <= Pow(n)
  {
    hide Pow;
    PrimesValue();
    assert Pow(0) == 1 by { Empty([], 0); }
    PowStep(1);
    PowStep(2);
    PowStep(3);
    PowStep(4);
    PowStep(5);
  }

  lemma {:induction false} CarryRoom(c: int, carry: int, p: int, x: int)
    requires 0 <= c < p && 0 <= carry < p && x >= 2
    ensures 0 <= (c + carry) / x < p
  {
    MulMono(2, x, p);
    R.MulSwap(x, p);
    DivLess(c + carry, x, p);
  }

  ghost predicate Bounded(c: seq<int>, p: int) {
    forall i :: 0 <= i < |c| ==> 0 <= c[i] < p
  }

  /** The limbs hold the digits written so far, modulo what fits them. */
  ghost predicate Limbed(v: int, c: seq<int>, dpl: nat, i: nat, t: int, carry: int, m: int)
    requires i <= |c| && m > 0
  {
    Added(c, Two(dpl), i, t, carry) && v == t % m && i * dpl >= 0 && v < Two(i * dpl)
  }

  lemma {:induction false} LimbedStart(c: seq<int>, dpl: nat, m: int)
    requires m > 0
    ensures Limbed(0, c, dpl, 0, 0, 0, m)
  {
    hide Two;
    assert c[..0] == [];
    SmallMod(0, m);
    R.ScaleOne(0);
  }

  lemma {:induction false} LimbedStep(v: int, v': int, c: seq<int>, dpl: nat, i: nat, t: int, carry: int, u: int, m: int)
    requires i < |c| && m > 0 && Limbed(v, c, dpl, i, t, carry, m) && u == c[i] + carry && u >= 0
    requires v' == (v + u % Two(dpl) * Two(i * dpl)) % m && v' < Two(i * dpl + dpl)
    ensures Limbed(v', c, dpl, i + 1, t + u % Two(dpl) * Two(i * dpl), u / Two(dpl), m)
  {
    hide Two, Added;
    TwoPw(dpl, i);
    R.MulSwap(dpl, i);
    AddedStep(c, Two(dpl), i, t, carry, u);
    ModAdd(t, u % Two(dpl) * Two(i * dpl), m);
    assert (i + 1) * dpl == i * dpl + dpl;
  }

  lemma {:induction false} LimbedAll(v: int, c: seq<int>, dpl: nat, i: nat, t: int, carry: int, rLen: nat)
    requires i <= |c| && Limbed(v, c, dpl, i, t, carry, Pow(rLen)) && i * dpl >= 64 * rLen
    ensures v == Eval(c, Two(dpl)) % Pow(rLen)
  {
    hide Two, Added, Pow;
    TwoPw(dpl, i);
    R.MulSwap(dpl, i);
    TwoParts(rLen, i * dpl - 64 * rLen);
    AddedAll(c, Two(dpl), i, t, carry, Pow(rLen), Two(i * dpl - 64 * rLen));
  }

  /** One turn of the loop over the coefficients; x is what has been written of the digits before. */
  method AddCoefficient(tab: array<Limb>, o: nat, rLen: nat, buf: array<Limb>, fftLen: nat, dpl: nat, s: BFNTTState,
                        y: array<Limb>, u: array<Limb>, carry: array<Limb>, i: nat, ghost c: seq<int>, ghost x: int)
    returns (ghost x': int)
    requires StateOk(s) && 2 <= y.Length <= NB_MODS && u.Length == carry.Length == y.Length && 1 <= dpl <= 64 * y.Length
    requires o + rLen <= tab.Length && y != u && y != carry && u != carry
    requires tab != buf && tab != y && tab != u && tab != carry && buf != y && buf != u && buf != carry
    requires Grid(buf[..], y.Length, fftLen) && |c| == fftLen && i < fftLen
    requires Coefficients(buf[..], y.Length, fftLen, c) && Bounded(c, Primes(NB_MODS - y.Length))
    requires Limbed(Val(tab[o..o + rLen]), c, dpl, i, x, Val(carry[..]), Pow(rLen)) && Val(carry[..]) < Primes(NB_MODS - y.Length)
    requires forall k :: 0 <= k < y.Length && k + dpl / 64 >= y.Length ==> carry[k] == 0
    modifies tab, y, u, carry
    ensures Limbed(Val(tab[o..o + rLen]), c, dpl, i + 1, x', Val(carry[..]), Pow(rLen)) && Val(carry[..]) < Primes(NB_MODS - y.Length)
    ensures forall k :: 0 <= k < y.Length && k + dpl / 64 >= y.Length ==> carry[k] == 0
    ensures Outside(old(tab[..]), tab[..], o, o + rLen)
  {
    hide Val, Two, Pow, Primes, Grid, ResiduesOf, DigitsOf, Coefficients, Added, StateOk;
    ghost var v, k, f := Val(tab[o..o + rLen]), Val(carry[..]), NB_MODS - y.Length;
    ReadResidues(buf, fftLen, i, y, c);
    MixedRadix(y, s, c[i], f);
    PrimesBelow(y.Length);
    Recompose(u, y, carry, c[i], f);
    ghost var w := Val(u[..]);
    WriteChunk(tab, o, rLen, i * dpl, u, dpl);
    LimbedStep(v, Val(tab[o..o + rLen]), c, dpl, i, x, k, w, Pow(rLen));
    ShiftCarry(u, carry, dpl);
    R.TwoMono(1, dpl);
    R.TwoOne();
    CarryRoom(c[i], k, Primes(f), Two(dpl));
    x' := x + w % Two(dpl) * Two(i * dpl);
  }

  /** ntt_to_limb: the polynomial with the given coefficients at 2^dpl, modulo what rLen limbs can hold. */
  method NttToLimb(tabr: array<Limb>, o: nat, rLen: nat, buf: array<Limb>, fftLen: nat, dpl: nat, nbMods: nat, s: BFNTTState,
                   ghost c: seq<int>)
    requires StateOk(s) && 2 <= nbMods <= NB_MODS && 1 <= dpl <= 64 * nbMods && o + rLen <= tabr.Length && tabr != buf
    requires Grid(buf[..], nbMods, fftLen) && |c| == fftLen && fftLen * dpl >= 64 * rLen
    requires Coefficients(buf[..], nbMods, fftLen, c) && Bounded(c, Primes(NB_MODS - nbMods))
    modifies tabr
    ensures Val(tabr[o..o + rLen]) == Eval(c, Two(dpl)) % Pow(rLen)
    ensures Outside(old(tabr[..]), tabr[..], o, o + rLen)
  {
    hide Val, Two, Pow, Primes, Grid, Coefficients, StateOk, Bounded, Limbed;
    ghost var before, b := tabr[..], buf[..];
    var y, u, carry := new Limb[nbMods], new Limb[nbMods], new Limb[nbMods];
    forall k | 0 <= k < nbMods { carry[k] := 0; }
    forall k | o <= k < o + rLen { tabr[k] := 0; }
    ZerosValue(carry[..]);
    ZerosValue(tabr[o..o + rLen]);
    LimbedStart(c, dpl, Pow(rLen));
    PrimesPositive(nbMods);
    var len := (rLen * 64 + dpl - 1) / dpl;
    EnoughChunks(rLen, dpl, len);
    if fftLen < len { len := fftLen; }
    ghost var x := 0;
    var i := 0;
    while i < len
      invariant 0 <= i <= len <= fftLen && buf[..] == b && Outside(before, tabr[..], o, o + rLen)
      invariant Limbed(Val(tabr[o..o + rLen]), c, dpl, i, x, Val(carry[..]), Pow(rLen)) && Val(carry[..]) < Primes(NB_MODS - nbMods)
      invariant forall k :: 0 <= k < nbMods && k + dpl / 64 >= nbMods ==> carry[k] == 0
    {
      x := AddCoefficient(tabr, o, rLen, buf, fftLen, dpl, s, y, u, carry, i, c, x);
      i := i + 1;
    }
    LimbedAll(Val(tabr[o..o + rLen]), c, dpl, i, x, Val(carry[..]), rLen);
  }

  lemma {:induction false} PrimesPositive(n: nat)
    requires 2 <= n <= NB_MODS
    ensures Primes(NB_MODS - n) > 0
  {
    PrimesValue();
  }
}
