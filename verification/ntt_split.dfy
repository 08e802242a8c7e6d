/** The convolution of any length: a long transform is split into columns, rows and columns. */
module NttSplit {
  import opened Limbs
  import opened Modular
  import opened Fourier
  import opened FourStep
  import opened NttArith
  import opened NttStage
  import opened Ntt

  /** mul_trig: the powers of c multiplied in. */
  method MulTrig(buf: array<Limb>, cMul: Limb, m: Limb, mInv: Limb)
    requires IsModulus(m) && mInv == InitMulModFast(m) && cMul < m && Small(buf[..], m)
    modifies buf
    ensures Small(buf[..], m) && Same(buf[..], Twist(old(buf[..]), cMul), m)
  {
    hide Eq, InitMulModFast, InitMulModFast2, Pw;
    ghost var s := buf[..];
    var c0: Limb := 1;
    var cMulInv := InitMulModFast2(cMul, m);
    var i := 0;
    PowerStart(cMul, m);
    while i < buf.Length
      invariant 0 <= i <= buf.Length && c0 < m && Eq(c0, Pw(cMul, i), m)
      invariant forall j :: i <= j < buf.Length ==> buf[j] == s[j]
      invariant forall j :: 0 <= j < i ==> buf[j] < 2 * m && Eq(buf[j], s[j] * Pw(cMul, j), m)
    {
      assert s[i] < 2 * m;
      var x := MulModFast(buf[i], c0, m, mInv);
      TimesPower(x, s[i], c0, Pw(cMul, i), m);
      buf[i] := x;
      ghost var c := c0;
      c0 := MulModFast2(c0, cMul, m, cMulInv);
      NextPower(c, c0, cMul, i, m);
      i := i + 1;
    }
  }

  lemma {:induction false} TimesPower(x: int, y: int, c: int, p: int, m: int)
    requires m > 0 && Eq(x, y * c, m) && Eq(c, p, m)
    ensures Eq(x, y * p, m)
  {
    hide Eq;
    EqSelf(y, m);
    EqMul(y, y, c, p, m);
    EqTrans(x, y * c, y * p, m);
  }

  // ---------- columns in and out ----------

  method LoadColumn(buf: array<Limb>, n1: nat, n2: nat, j: nat, col: array<Limb>)
    requires Grid(buf[..], n1, n2) && j < n2 && col.Length == n1 && col != buf
    modifies col
    ensures col[..] == Column(buf[..], n1, n2, j)
  {
    hide Grid, Place;
    var i := 0;
    while i < n1
      invariant 0 <= i <= n1 && forall r :: 0 <= r < i ==> col[r] == Column(buf[..], n1, n2, j)[r]
    {
      PlaceOfColumn(buf[..], n1, n2, j, i);
      col[i] := buf[Place(n2, i, j)];
      i := i + 1;
    }
  }

  lemma {:induction false} PlaceOfColumn(s: seq<int>, n1: nat, n2: nat, j: nat, i: nat)
    requires Grid(s, n1, n2) && j < n2 && i < n1
    ensures Place(n2, i, j) < |s| && Column(s, n1, n2, j)[i] == s[Place(n2, i, j)]
  {
    PlaceIn(n1, n2, i, j);
  }

  /** Different places are different cells. */
  lemma {:induction false} PlacesApart(n2: nat, i: nat, j: nat, i': nat, j': nat)
    requires j < n2 && j' < n2 && Place(n2, i, j) == Place(n2, i', j')
    ensures i == i' && j == j'
  {
    MultipleSize(n2, i - i');
  }

  /** Column j of t is col from row i on, everything else is as in s. */
  ghost predicate Stored(s: seq<int>, t: seq<int>, n1: nat, n2: nat, j: nat, col: seq<int>, i: nat)
    requires Grid(s, n1, n2) && Grid(t, n1, n2) && j < n2 && |col| == n1
  {
    forall r, l :: 0 <= r < n1 && 0 <= l < n2 ==> StoredAt(s, t, n1, n2, j, col, i, r, l)
  }

  ghost predicate StoredAt(s: seq<int>, t: seq<int>, n1: nat, n2: nat, j: nat, col: seq<int>, i: nat, r: nat, l: nat)
    requires Grid(s, n1, n2) && Grid(t, n1, n2) && j < n2 && |col| == n1 && r < n1 && l < n2
  {
    Column(t, n1, n2, l)[r] == if l == j && r < i then col[r] else Column(s, n1, n2, l)[r]
  }

  method StoreColumn(buf: array<Limb>, n1: nat, n2: nat, j: nat, col: array<Limb>)
    requires Grid(buf[..], n1, n2) && j < n2 && col.Length == n1 && col != buf
    modifies buf
    ensures Grid(buf[..], n1, n2)
    ensures forall l :: 0 <= l < n2 ==>
              Column(buf[..], n1, n2, l) == if l == j then col[..] else old(Column(buf[..], n1, n2, l))
  {
    hide Place, Column, Stored;
    ghost var s := buf[..];
    var i := 0;
    StoredNone(s, n1, n2, j, col[..]);
    while i < n1
      invariant 0 <= i <= n1 && |buf[..]| == |s| && Stored(s, buf[..], n1, n2, j, col[..], i)
    {
      PlaceOfColumn(buf[..], n1, n2, j, i);
      ghost var t := buf[..];
      buf[Place(n2, i, j)] := col[i];
      StoredOne(s, t, buf[..], n1, n2, j, col[..], i);
      i := i + 1;
    }
    StoredAll(s, buf[..], n1, n2, j, col[..]);
  }

  lemma {:induction false} StoredNone(s: seq<int>, n1: nat, n2: nat, j: nat, col: seq<int>)
    requires Grid(s, n1, n2) && j < n2 && |col| == n1
    ensures Stored(s, s, n1, n2, j, col, 0)
  {
    hide Column;
  }

  lemma {:induction false} StoredOne(s: seq<int>, t: seq<int>, u: seq<int>, n1: nat, n2: nat, j: nat, col: seq<int>, i: nat)
    requires Grid(s, n1, n2) && Grid(t, n1, n2) && j < n2 && |col| == n1 && i < n1 && Stored(s, t, n1, n2, j, col, i)
    requires Place(n2, i, j) < |t| && u == t[Place(n2, i, j) := col[i]]
    ensures Grid(u, n1, n2) && Stored(s, u, n1, n2, j, col, i + 1)
  {
    hide Place, Column, Grid;
    assert Grid(u, n1, n2) by { GridLength(s, t, u, n1, n2); }
    var next := i + 1;
    forall r, l | 0 <= r < n1 && 0 <= l < n2 ensures StoredAt(s, u, n1, n2, j, col, next, r, l) {
      assert StoredAt(s, t, n1, n2, j, col, i, r, l);
      PlaceOfColumn(t, n1, n2, l, r);
      PlaceOfColumn(u, n1, n2, l, r);
      if Place(n2, r, l) == Place(n2, i, j) { PlacesApart(n2, r, l, i, j); }
    }
  }

  lemma {:induction false} StoredAll(s: seq<int>, t: seq<int>, n1: nat, n2: nat, j: nat, col: seq<int>)
    requires Grid(s, n1, n2) && Grid(t, n1, n2) && j < n2 && |col| == n1 && Stored(s, t, n1, n2, j, col, n1)
    ensures forall l :: 0 <= l < n2 ==> Column(t, n1, n2, l) == if l == j then col else Column(s, n1, n2, l)
  {
    hide Column;
    forall l | 0 <= l < n2 ensures Column(t, n1, n2, l) == if l == j then col else Column(s, n1, n2, l) {
      var c, d := Column(t, n1, n2, l), if l == j then col else Column(s, n1, n2, l);
      forall r | 0 <= r < n1 ensures c[r] == d[r] {
        assert StoredAt(s, t, n1, n2, j, col, n1, r, l);
      }
    }
  }

  // ---------- transforming the columns ----------

  /** A transformed column: twisted before on the way back, after on the way there. */
  ghost function Image(s: seq<int>, v: int, w: int, inverse: bool): (r: seq<int>)
    ensures |r| == |s|
  {
    if inverse then Transform(Twist(s, w), v) else Twist(Transform(s, v), w)
  }

  ghost predicate ColumnDone(s: seq<int>, t: seq<int>, n1: nat, n2: nat, v: int, w: int, inverse: bool, j: nat, m: int)
    requires m > 0 && Grid(s, n1, n2) && Grid(t, n1, n2) && j < n2
  {
    Same(Column(t, n1, n2, j), Image(Column(s, n1, n2, j), v, Pw(w, j), inverse), m)
  }

  ghost predicate ColumnsDone(s: seq<int>, t: seq<int>, n1: nat, n2: nat, v: int, w: int, inverse: bool, m: int)
    requires m > 0 && Grid(s, n1, n2) && Grid(t, n1, n2)
  {
    forall j :: 0 <= j < n2 ==> ColumnDone(s, t, n1, n2, v, w, inverse, j, m)
  }

  /** One column, in a buffer of its own. */
  method TransformColumn(col: array<Limb>, buf3: array<Limb>, k1: nat, cMul: Limb, inverse: bool, roots: Roots, m: Limb, mInv: Limb,
                         ghost w: int)
    requires IsModulus(m) && mInv == InitMulModFast(m) && 1 <= k1 <= NTT_TRIG_K_MAX && RootsOk(roots, k1, m)
    requires col.Length == buf3.Length == Two(k1) && col != buf3 && Small(col[..], m) && cMul < m && Eq(cMul, w, m)
    modifies col, buf3
    ensures Small(col[..], m) && Same(col[..], Image(old(col[..]), roots.pow[k1], w, inverse), m)
  {
    hide Eq, InitMulModFast, Small, Same, Two, RootsOk, Transform, Twist, Transformed;
    ghost var s := col[..];
    TopRoot(roots, k1, m);
    if inverse { MulTrig(col, cMul, m, mInv); }
    ghost var s1 := col[..];
    var ok := NttFft(col, col, buf3, k1, roots, m);
    ghost var s2 := col[..];
    if !inverse { MulTrig(col, cMul, m, mInv); }
    ImageIs(s, s1, s2, col[..], roots.pow[k1], cMul, w, inverse, m);
  }

  lemma {:induction false} ImageIs(s: seq<Limb>, s1: seq<Limb>, s2: seq<Limb>, t: seq<Limb>, v: int, c: int, w: int, inverse: bool, m: int)
    requires m > 0 && Eq(c, w, m) && Transformed(s1, s2, v, m)
    requires if inverse then Same(s1, Twist(s, c), m) && t == s2 else s1 == s && Same(t, Twist(s2, c), m)
    ensures Same(t, Image(s, v, w, inverse), m)
  {
    hide Eq, Dft, Pw;
    if inverse {
      TwistSame(s1, s, c, w, m);
      forall i | 0 <= i < |t| ensures Eq(t[i], Image(s, v, w, true)[i], m) {
        DftSame(s1, Twist(s, w), v, i, m);
        EqTrans(t[i], Dft(s1, v, i), Dft(Twist(s, w), v, i), m);
      }
    } else {
      forall i | 0 <= i < |t| ensures Eq(t[i], Image(s, v, w, false)[i], m) {
        PwEq(c, w, i, m);
        EqMul(s2[i], Dft(s, v, i), Pw(c, i), Pw(w, i), m);
        EqTrans(t[i], s2[i] * Pw(c, i), Dft(s, v, i) * Pw(w, i), m);
      }
    }
  }

  lemma {:induction false} TwistSame(t: seq<int>, s: seq<int>, c: int, w: int, m: int)
    requires m > 0 && Eq(c, w, m) && Same(t, Twist(s, c), m)
    ensures Same(t, Twist(s, w), m)
  {
    hide Eq, Pw;
    forall i | 0 <= i < |s| ensures Eq(t[i], Twist(s, w)[i], m) {
      PwEq(c, w, i, m);
      TimesPower(t[i], s[i], Pw(c, i), Pw(w, i), m);
    }
  }

  /** ntt_fft_partial: the columns transformed, and multiplied by powers of the root of the whole. */
  method NttFftPartial(buf1: array<Limb>, k1: nat, k2: nat, inverse: bool, roots: Roots, m: Limb, mInv: Limb)
    requires IsModulus(m) && mInv == InitMulModFast(m) && 1 <= k1 <= NTT_TRIG_K_MAX && RootsOk(roots, k1 + k2, m)
    requires Grid(buf1[..], Two(k1), Two(k2)) && Small(buf1[..], m)
    modifies buf1
    ensures Small(buf1[..], m)
    ensures Grid(buf1[..], Two(k1), Two(k2))
    ensures ColumnsDone(old(buf1[..]), buf1[..], Two(k1), Two(k2), roots.pow[k1], roots.pow[k1 + k2], inverse, m)
  {
    hide Eq, InitMulModFast, InitMulModFast2, Small, Two, RootsOk, Column, ColumnDone, Prepared, Pw, Image, Grid;
    var n1, n2 := Two(k1), Two(k2);
    RootsLevel(roots, k1 + k2, k1, m);
    TopRoot(roots, k1 + k2, m);
    var buf3 := new Limb[n1];
    var col := new Limb[n1];
    var c0 := roots.pow[k1 + k2];
    var cMul: Limb := 1;
    ghost var s := buf1[..];
    PowerStart(c0, m);
    var j := 0;
    while j < n2
      invariant 0 <= j <= n2 && cMul < m && Eq(cMul, Pw(c0, j), m) && |buf1[..]| == |s| && Grid(buf1[..], n1, n2)
      invariant Small(buf1[..], m)
      invariant forall l :: 0 <= l < j ==> ColumnDone(s, buf1[..], n1, n2, roots.pow[k1], c0, inverse, l, m)
      invariant forall l :: j <= l < n2 ==> Column(buf1[..], n1, n2, l) == Column(s, n1, n2, l)
    {
      ghost var t := buf1[..];
      LoadColumn(buf1, n1, n2, j, col);
      SmallColumn(t, n1, n2, j, col[..], m);
      TransformColumn(col, buf3, k1, cMul, inverse, roots, m, mInv, Pw(c0, j));
      StoreColumn(buf1, n1, n2, j, col);
      SmallStored(t, buf1[..], n1, n2, j, col[..], m);
      ColumnsKept(s, t, buf1[..], n1, n2, roots.pow[k1], c0, inverse, j, m);
      ghost var c := cMul;
      cMul := MulModFast(cMul, c0, m, mInv);
      NextPower(c, cMul, c0, j, m);
      j := j + 1;
    }
  }

  lemma {:induction false} TopRoot(roots: Roots, k: nat, m: Limb)
    requires m > 0 && RootsOk(roots, k, m)
    ensures k < |roots.pow| && roots.pow[k] < m
  {
    assert Prepared(roots, k, m);
  }

  lemma {:induction false} SmallColumn(s: seq<Limb>, n1: nat, n2: nat, j: nat, col: seq<Limb>, m: int)
    requires Grid(s, n1, n2) && j < n2 && Small(s, m) && col == Column(s, n1, n2, j)
    ensures Small(col, m)
  {
    hide Grid, Place, Column;
    forall i | 0 <= i < |col| ensures col[i] < 2 * m {
      PlaceOfColumn(s, n1, n2, j, i);
    }
  }

  lemma {:induction false} SmallStored(s: seq<Limb>, t: seq<Limb>, n1: nat, n2: nat, j: nat, col: seq<Limb>, m: int)
    requires Grid(s, n1, n2) && Grid(t, n1, n2) && j < n2 && |col| == n1 && Small(s, m) && Small(col, m)
    requires forall l :: 0 <= l < n2 ==> Column(t, n1, n2, l) == if l == j then col else Column(s, n1, n2, l)
    ensures Small(t, m)
  {
    hide Column, Place;
    forall p | 0 <= p < |t| ensures t[p] < 2 * m {
      var i, l := p / n2, p % n2;
      PlaceAt(n1, n2, p);
      PlaceOfColumn(t, n1, n2, l, i);
      PlaceOfColumn(s, n1, n2, l, i);
      if l == j { assert Column(t, n1, n2, l)[i] == col[i]; } else { assert Column(t, n1, n2, l)[i] == Column(s, n1, n2, l)[i]; }
    }
  }

  /** Every place is a cell. */
  lemma {:induction false} PlaceAt(n1: nat, n2: nat, p: nat)
    requires n2 >= 1 && p < n1 * n2
    ensures 0 <= p / n2 < n1 && 0 <= p % n2 < n2 && Place(n2, p / n2, p % n2) == p
  {
    DivMod(p, n2);
    DivLess(p, n2, n1) by { assert n1 * n2 == n2 * n1; }
    assert n2 * (p / n2) == (p / n2) * n2;
  }

  lemma {:induction false} ColumnsKept(s: seq<int>, t: seq<int>, u: seq<int>, n1: nat, n2: nat, v: int, w: int, inverse: bool, j: nat, m: int)
    requires m > 0 && Grid(s, n1, n2) && Grid(t, n1, n2) && Grid(u, n1, n2) && j < n2
    requires forall l :: 0 <= l < j ==> ColumnDone(s, t, n1, n2, v, w, inverse, l, m)
    requires forall l :: j <= l < n2 ==> Column(t, n1, n2, l) == Column(s, n1, n2, l)
    requires Same(Column(u, n1, n2, j), Image(Column(t, n1, n2, j), v, Pw(w, j), inverse), m)
    requires forall l :: 0 <= l < n2 && l != j ==> Column(u, n1, n2, l) == Column(t, n1, n2, l)
    ensures forall l :: 0 <= l <= j ==> ColumnDone(s, u, n1, n2, v, w, inverse, l, m)
    ensures forall l :: j < l < n2 ==> Column(u, n1, n2, l) == Column(s, n1, n2, l)
  {
    hide Column, Same, Image, Pw;
    forall l | 0 <= l <= j ensures ColumnDone(s, u, n1, n2, v, w, inverse, l, m) {
      if l < j { assert ColumnDone(s, t, n1, n2, v, w, inverse, l, m); }
    }
  }

  // ---------- rows in and out ----------

  /** The n2 coefficients of row i. */
  function Row(s: seq<int>, n1: nat, n2: nat, i: nat): (r: seq<int>)
    requires Grid(s, n1, n2) && i < n1
    ensures |r| == n2
  {
    seq(n2, j requires 0 <= j < n2 => Column(s, n1, n2, j)[i])
  }

  method LoadRow(buf: array<Limb>, n1: nat, n2: nat, i: nat, row: array<Limb>)
    requires Grid(buf[..], n1, n2) && i < n1 && row.Length == n2 && row != buf
    modifies row
    ensures row[..] == Row(buf[..], n1, n2, i)
  {
    hide Grid, Place, Column;
    var j := 0;
    while j < n2
      invariant 0 <= j <= n2 && forall l :: 0 <= l < j ==> row[l] == Row(buf[..], n1, n2, i)[l]
    {
      PlaceOfColumn(buf[..], n1, n2, j, i);
      row[j] := buf[Place(n2, i, j)];
      j := j + 1;
    }
  }

  /** Row i of t is row up to column j, everything else is as in s. */
  ghost predicate RowStored(s: seq<int>, t: seq<int>, n1: nat, n2: nat, i: nat, row: seq<int>, j: nat)
    requires Grid(s, n1, n2) && Grid(t, n1, n2) && i < n1 && |row| == n2
  {
    forall r, l :: 0 <= r < n1 && 0 <= l < n2 ==> RowStoredAt(s, t, n1, n2, i, row, j, r, l)
  }

  ghost predicate RowStoredAt(s: seq<int>, t: seq<int>, n1: nat, n2: nat, i: nat, row: seq<int>, j: nat, r: nat, l: nat)
    requires Grid(s, n1, n2) && Grid(t, n1, n2) && i < n1 && |row| == n2 && r < n1 && l < n2
  {
    Column(t, n1, n2, l)[r] == if r == i && l < j then row[l] else Column(s, n1, n2, l)[r]
  }

  method StoreRow(buf: array<Limb>, n1: nat, n2: nat, i: nat, row: array<Limb>)
    requires Grid(buf[..], n1, n2) && i < n1 && row.Length == n2 && row != buf
    modifies buf
    ensures Grid(buf[..], n1, n2) && RowStored(old(buf[..]), buf[..], n1, n2, i, row[..], n2)
  {
    hide Place, Column, RowStored;
    ghost var s := buf[..];
    var j := 0;
    RowStoredNone(s, n1, n2, i, row[..]);
    while j < n2
      invariant 0 <= j <= n2 && |buf[..]| == |s| && RowStored(s, buf[..], n1, n2, i, row[..], j)
    {
      PlaceOfColumn(buf[..], n1, n2, j, i);
      ghost var t := buf[..];
      buf[Place(n2, i, j)] := row[j];
      RowStoredOne(s, t, buf[..], n1, n2, i, row[..], j);
      j := j + 1;
    }
  }

  lemma {:induction false} RowStoredNone(s: seq<int>, n1: nat, n2: nat, i: nat, row: seq<int>)
    requires Grid(s, n1, n2) && i < n1 && |row| == n2
    ensures RowStored(s, s, n1, n2, i, row, 0)
  {
    hide Column;
  }

  lemma {:induction false} RowStoredOne(s: seq<int>, t: seq<int>, u: seq<int>, n1: nat, n2: nat, i: nat, row: seq<int>, j: nat)
    requires Grid(s, n1, n2) && Grid(t, n1, n2) && i < n1 && |row| == n2 && j < n2 && RowStored(s, t, n1, n2, i, row, j)
    requires Place(n2, i, j) < |t| && u == t[Place(n2, i, j) := row[j]]
    ensures Grid(u, n1, n2) && RowStored(s, u, n1, n2, i, row, j + 1)
  {
    hide Place, Column, Grid;
    assert Grid(u, n1, n2) by { GridLength(s, t, u, n1, n2); }
    var next := j + 1;
    forall r, l | 0 <= r < n1 && 0 <= l < n2 ensures RowStoredAt(s, u, n1, n2, i, row, next, r, l) {
      assert RowStoredAt(s, t, n1, n2, i, row, j, r, l);
      PlaceOfColumn(t, n1, n2, l, r);
      PlaceOfColumn(u, n1, n2, l, r);
      if Place(n2, r, l) == Place(n2, i, j) { PlacesApart(n2, r, l, i, j); }
    }
  }

  lemma {:induction false} SmallRow(s: seq<Limb>, n1: nat, n2: nat, i: nat, row: seq<Limb>, m: int)
    requires Grid(s, n1, n2) && i < n1 && Small(s, m) && row == Row(s, n1, n2, i)
    ensures Small(row, m)
  {
    hide Grid, Place, Column;
    forall j | 0 <= j < |row| ensures row[j] < 2 * m {
      PlaceOfColumn(s, n1, n2, j, i);
    }
  }

  lemma {:induction false} SmallRowStored(s: seq<Limb>, t: seq<Limb>, n1: nat, n2: nat, i: nat, row: seq<Limb>, m: int)
    requires Grid(s, n1, n2) && Grid(t, n1, n2) && i < n1 && |row| == n2 && Small(s, m) && Small(row, m)
    requires RowStored(s, t, n1, n2, i, row, n2)
    ensures Small(t, m)
  {
    hide Column, Place;
    forall p | 0 <= p < |t| ensures t[p] < 2 * m {
      var r, l := p / n2, p % n2;
      PlaceAt(n1, n2, p);
      PlaceOfColumn(t, n1, n2, l, r);
      PlaceOfColumn(s, n1, n2, l, r);
      assert RowStoredAt(s, t, n1, n2, i, row, n2, r, l);
    }
  }

  // ---------- the rows of the product ----------

  /** After the first pass row i is that of the split. */
  lemma {:induction false} RowFromColumns(a: seq<int>, s: seq<int>, n1: nat, n2: nat, v: int, w: int, i: nat, m: int)
    requires m > 0 && Grid(a, n1, n2) && Grid(s, n1, n2) && i < n1 && ColumnsDone(a, s, n1, n2, v, w, false, m)
    ensures Same(Row(s, n1, n2, i), RowOf(a, n1, n2, v, w, i), m)
  {
    hide Eq, Column, RowOf, Dft, Pw, Grid;
    var row, goal := Row(s, n1, n2, i), RowOf(a, n1, n2, v, w, i);
    forall j | 0 <= j < n2 ensures Eq(row[j], goal[j], m) {
      assert ColumnDone(a, s, n1, n2, v, w, false, j, m);
      RowAt(a, n1, n2, v, w, i, j);
    }
  }

  /** Rows of u before i hold the rows of the product, scaled by g. */
  ghost predicate RowsDone(u: seq<int>, c: seq<int>, n1: nat, n2: nat, v: int, w: int, g: int, i: nat, m: int)
    requires m > 0 && Grid(u, n1, n2) && Grid(c, n1, n2) && i <= n1
  {
    forall r, l :: 0 <= r < i && 0 <= l < n2 ==> CellOf(u, c, n1, n2, v, w, g, r, l, m)
  }

  /** Rows from i on are as in s. */
  ghost predicate RowsLeft(s: seq<int>, u: seq<int>, n1: nat, n2: nat, i: nat)
    requires Grid(s, n1, n2) && Grid(u, n1, n2)
  {
    forall r, l :: i <= r < n1 && 0 <= l < n2 ==> SameCell(s, u, n1, n2, r, l)
  }

  ghost predicate SameCell(s: seq<int>, u: seq<int>, n1: nat, n2: nat, r: nat, l: nat)
    requires Grid(s, n1, n2) && Grid(u, n1, n2) && r < n1 && l < n2
  {
    Column(u, n1, n2, l)[r] == Column(s, n1, n2, l)[r]
  }

  lemma {:induction false} RowLeft(s: seq<int>, u: seq<int>, n1: nat, n2: nat, i: nat)
    requires Grid(s, n1, n2) && Grid(u, n1, n2) && i < n1 && RowsLeft(s, u, n1, n2, i)
    ensures Row(u, n1, n2, i) == Row(s, n1, n2, i)
  {
    hide Column, Grid;
    var x, y := Row(u, n1, n2, i), Row(s, n1, n2, i);
    forall l | 0 <= l < n2 ensures x[l] == y[l] {
      assert SameCell(s, u, n1, n2, i, l);
    }
  }

  lemma {:induction false} RowsStep(s: seq<int>, t: seq<int>, u: seq<int>, c: seq<int>, n1: nat, n2: nat, v: int, w: int, g: int, i: nat,
                                    row: seq<int>, m: int)
    requires m > 0 && Grid(s, n1, n2) && Grid(t, n1, n2) && Grid(u, n1, n2) && Grid(c, n1, n2) && i < n1 && |row| == n2
    requires RowsDone(t, c, n1, n2, v, w, g, i, m) && RowsLeft(s, t, n1, n2, i) && RowStored(t, u, n1, n2, i, row, n2)
    requires forall l :: 0 <= l < n2 ==> Eq(row[l], g * RowOf(c, n1, n2, v, w, i)[l], m)
    ensures RowsDone(u, c, n1, n2, v, w, g, i + 1, m) && RowsLeft(s, u, n1, n2, i + 1)
  {
    hide Column, Grid, Eq, RowOf;
    forall r, l | 0 <= r < i + 1 && 0 <= l < n2 ensures CellOf(u, c, n1, n2, v, w, g, r, l, m) {
      assert RowStoredAt(t, u, n1, n2, i, row, n2, r, l);
      if r < i { assert CellOf(t, c, n1, n2, v, w, g, r, l, m); }
    }
    forall r, l | i + 1 <= r < n1 && 0 <= l < n2 ensures SameCell(s, u, n1, n2, r, l) {
      assert RowStoredAt(t, u, n1, n2, i, row, n2, r, l);
      assert SameCell(s, t, n1, n2, r, l);
    }
  }

  /** The recursive call on two rows leaves the row of the product. */
  lemma {:induction false} RowConvolved(a: seq<Limb>, b: seq<Limb>, s: seq<Limb>, t: seq<Limb>, row: seq<Limb>, n1: nat, k2: nat, w: int, i: nat,
                                        kTot: nat, k1: nat, fwd: Roots, back: Roots, norm: Limb, m: Limb)
    requires m > 0 && k1 >= 1 && k2 >= 1 && n1 == Two(k1) && k1 + k2 <= kTot && Eq(norm * Two(kTot), 1, m)
    requires RootsOk(fwd, k1 + k2, m) && RootsOk(back, k1 + k2, m) && Inverse(fwd.pow, back.pow, k1 + k2, m)
    requires Grid(a, n1, Two(k2)) && Grid(b, n1, Two(k2)) && b != [] && |s| == |t| == |row| == Two(k2)
    requires Same(s, RowOf(a, n1, Two(k2), fwd.pow[k1], fwd.pow[k1 + k2], i), m)
    requires Same(t, RowOf(b, n1, Two(k2), fwd.pow[k1], fwd.pow[k1 + k2], i), m)
    requires ConvolvedTo(row, s, t, norm, k2, m)
    ensures Grid(Cyclic(a, b), n1, Two(k2))
    ensures forall l :: 0 <= l < Two(k2) ==>
              Eq(row[l], norm * Two(k2) * RowOf(Cyclic(a, b), n1, Two(k2), fwd.pow[k1], fwd.pow[k1 + k2], i)[l], m)
  {
    hide Eq, RowOf, Same, Cyclic, Convolved, RootsOk, Two, Grid, Inverse, Chain;
    var c, cs := Cyclic(a, b), Cyclic(s, t);
    Divisor(norm, kTot, k2, m);
    LevelOk(fwd, back, k1 + k2, k2, m);
    LevelOk(fwd, back, k1 + k2, k1, m);
    ChainOf(fwd, k1 + k2, m);
    ChainOf(fwd, k1, m);
    var n2, v, w := Two(k2), fwd.pow[k1], fwd.pow[k1 + k2];
    ChainOf(fwd, k2, m);
    ChainOf(back, k2, m);
    ChainSteps(fwd.pow, k1 + k2, k2, m);
    RootTurn(fwd.pow, k1, m);
    RowProduct(a, b, n1, k2, v, w, i, s, t, fwd.pow, back.pow, norm * Two(kTot - k2), m);
    var r := RowOf(c, n1, n2, v, w, i);
    forall l | 0 <= l < n2 ensures Eq(row[l], norm * n2 * r[l], m) {
      assert ConvolvedAt(row, s, t, norm, k2, m, l);
      CyclicAt(s, t, l);
      SameAt(cs, r, l, m);
      ScaleEq(row[l], norm, n2, cs[l], r[l], m);
    }
  }

  lemma {:induction false} ChainOf(roots: Roots, k: nat, m: Limb)
    requires m > 0 && RootsOk(roots, k, m)
    ensures k < |roots.pow| && Chain(roots.pow, k, m)
  {
  }

  lemma {:induction false} SameAt(s: seq<int>, t: seq<int>, l: nat, m: int)
    requires m > 0 && Same(s, t, m) && l < |s|
    ensures |t| == |s| && Eq(s[l], t[l], m)
  {
    hide Eq;
  }

  lemma {:induction false} ScaleEq(x: int, norm: int, n: int, y: int, z: int, m: int)
    requires m > 0 && Eq(x, norm * (n * y), m) && Eq(y, z, m)
    ensures Eq(x, norm * n * z, m)
  {
    hide Eq;
    MulAssoc(norm, n, y);
    EqSelf(norm * n, m);
    EqMul(norm * n, norm * n, y, z, m);
    EqTrans(x, norm * (n * y), norm * n * z, m);
  }

  /** The length of a row can be divided by. */
  lemma {:induction false} Divisor(norm: int, kTot: nat, k2: nat, m: int)
    requires m > 0 && k2 <= kTot && Eq(norm * Two(kTot), 1, m)
    ensures Eq(norm * Two(kTot - k2) * Two(k2), 1, m)
  {
    hide Eq;
    TwoAdd(kTot - k2, k2);
    MulAssoc(norm, Two(kTot - k2), Two(k2));
  }

  // ---------- the convolution ----------

  /** After the last pass every coefficient stands in its place. */
  lemma {:induction false} LastPass(a: seq<Limb>, b: seq<Limb>, u: seq<Limb>, t: seq<Limb>, k1: nat, k2: nat, fwd: Roots, back: Roots,
                                    norm: int, m: Limb, p: nat)
    requires m > 0 && k1 >= 1 && k2 >= 1 && b != []
    requires RootsOk(fwd, k1 + k2, m) && RootsOk(back, k1 + k2, m) && Inverse(fwd.pow, back.pow, k1 + k2, m)
    requires var n1, n2 := Two(k1), Two(k2);
             && Grid(a, n1, n2) && Grid(b, n1, n2) && Grid(u, n1, n2) && Grid(t, n1, n2) && Grid(Cyclic(a, b), n1, n2) && p < |t|
             && RowsDone(u, Cyclic(a, b), n1, n2, fwd.pow[k1], fwd.pow[k1 + k2], norm * n2, n1, m)
             && ColumnsDone(u, t, n1, n2, back.pow[k1], back.pow[k1 + k2], true, m)
    ensures ConvolvedAt(t, a, b, norm, k1 + k2, m, p)
  {
    hide Eq, RowOf, Same, Cyclic, Convolved, RootsOk, Two, Column, Dft, Pw, Transform, Twist, CellOf, ColumnDone, Place, Grid;
    var n1, n2, c := Two(k1), Two(k2), Cyclic(a, b);
    var r, j := p / n2, p % n2;
    GridPlace(t, n1, n2, p);
    LevelOk(fwd, back, k1 + k2, k1, m);
    ChainOf(fwd, k1, m);
    ChainOf(back, k1, m);
    assert Reciprocal(fwd.pow, back.pow, k1 + k2, m);
    ColumnBack(u, c, k1, n2, fwd.pow[k1 + k2], back.pow[k1 + k2], norm * n2, j, r, fwd.pow, back.pow, m);
    assert ColumnDone(u, t, n1, n2, back.pow[k1], back.pow[k1 + k2], true, j, m);
    DoneAt(u, t, n1, n2, back.pow[k1], back.pow[k1 + k2], j, r, m);
    PlaceOfColumn(t, n1, n2, j, r);
    PlaceOfColumn(c, n1, n2, j, r);
    CyclicPlace(a, b, p);
    var e := Dft(Twist(Column(u, n1, n2, j), Pw(back.pow[k1 + k2], j)), back.pow[k1], r);
    EqTrans(t[p], e, norm * n2 * (n1 * c[p]), m);
    WholeLength(norm, k1, k2, c[p]);
  }

  lemma {:induction false} GridPlace(t: seq<int>, n1: nat, n2: nat, p: nat)
    requires Grid(t, n1, n2) && p < |t| && n2 >= 1
    ensures 0 <= p / n2 < n1 && 0 <= p % n2 < n2 && Place(n2, p / n2, p % n2) == p
  {
    PlaceAt(n1, n2, p);
  }

  lemma {:induction false} DoneAt(u: seq<int>, t: seq<int>, n1: nat, n2: nat, v: int, w: int, j: nat, r: nat, m: int)
    requires m > 0 && Grid(u, n1, n2) && Grid(t, n1, n2) && j < n2 && r < n1 && ColumnDone(u, t, n1, n2, v, w, true, j, m)
    ensures Eq(Column(t, n1, n2, j)[r], Dft(Twist(Column(u, n1, n2, j), Pw(w, j)), v, r), m)
  {
    hide Eq, Dft, Column, Twist, Pw, Grid;
  }

  lemma {:induction false} CyclicPlace(a: seq<int>, b: seq<int>, p: nat)
    requires b != [] && p < |b|
    ensures p < |Cyclic(a, b)| && Cyclic(a, b)[p] == Convolved(a, b, p)
  {
    CyclicAt(a, b, p);
  }

  lemma {:induction false} WholeLength(norm: int, k1: nat, k2: nat, x: int)
    ensures norm * Two(k2) * (Two(k1) * x) == norm * (Two(k1 + k2) * x)
  {
    var n1, n2 := Two(k1), Two(k2);
    TwoAdd(k1, k2);
    Regrouped(norm, n1, n2, x);
  }

  lemma {:induction false} Regrouped(norm: int, n1: int, n2: int, x: int)
    ensures norm * n2 * (n1 * x) == norm * ((n1 * n2) * x)
  {
    MulAssoc(norm, n2, n1 * x);
    MulAssoc(n2, n1, x);
    assert n2 * n1 == n1 * n2;
  }

  /** ntt_conv: the first buffer becomes the cyclic convolution of both modulo m, times 2^k and the factor
      for the total length, which makes it the convolution itself where that is the length. */
  method NttConv(buf1: array<Limb>, buf2: array<Limb>, k: nat, kTot: nat, fwd: Roots, back: Roots, norm: Limb, normInv: Limb,
                 m: Limb, mInv: Limb)
    requires 1 <= k <= kTot && TablesOk(fwd, back, norm, normInv, m, mInv, kTot)
    requires buf1 != buf2 && buf1.Length == buf2.Length == Two(k) && Small(buf1[..], m) && Small(buf2[..], m)
    modifies buf1, buf2
    ensures Small(buf1[..], m)
    ensures ConvolvedTo(buf1[..], old(buf1[..]), old(buf2[..]), norm, k, m)
    ensures k == kTot ==> forall i :: 0 <= i < buf1.Length ==> Eq(buf1[i], Convolved(old(buf1[..]), old(buf2[..]), i), m)
    decreases k
  {
    hide Eq, InitMulModFast, InitMulModFast2, Small, Two, Convolved, Inverse, RootsOk, ConvolvedAt;
    ghost var a, b := buf1[..], buf2[..];
    if k <= NTT_TRIG_K_MAX {
      NttConvWhole(buf1, buf2, k, kTot, fwd, back, norm, normInv, m, mInv);
    } else {
      var k1 := if k / 2 < NTT_TRIG_K_MAX then k / 2 else NTT_TRIG_K_MAX;
      NttConvSplit(buf1, buf2, k1, k - k1, kTot, fwd, back, norm, normInv, m, mInv);
    }
    if k == kTot {
      forall i | 0 <= i < buf1.Length ensures Eq(buf1[i], Convolved(a, b, i), m) {
        assert ConvolvedAt(buf1[..], a, b, norm, k, m, i);
        FullLength(buf1[..], a, b, norm, k, m, i);
      }
    }
  }

  lemma {:induction false} FullLength(t: seq<Limb>, a: seq<Limb>, b: seq<Limb>, norm: int, k: nat, m: int, i: nat)
    requires m > 0 && b != [] && i < |t| && ConvolvedAt(t, a, b, norm, k, m, i) && Eq(norm * Two(k), 1, m)
    ensures Eq(t[i], Convolved(a, b, i), m)
  {
    hide Eq, Convolved;
    var x := Convolved(a, b, i);
    MulAssoc(norm, Two(k), x);
    EqSelf(x, m);
    EqMul(norm * Two(k), 1, x, x, m);
    EqTrans(t[i], norm * (Two(k) * x), x, m);
  }

  /** Columns, rows, columns. */
  method NttConvSplit(buf1: array<Limb>, buf2: array<Limb>, k1: nat, k2: nat, kTot: nat, fwd: Roots, back: Roots,
                      norm: Limb, normInv: Limb, m: Limb, mInv: Limb)
    requires 1 <= k1 <= NTT_TRIG_K_MAX && k2 >= 1 && k1 + k2 <= kTot && TablesOk(fwd, back, norm, normInv, m, mInv, kTot)
    requires buf1 != buf2 && buf1.Length == buf2.Length == Two(k1 + k2) && Small(buf1[..], m) && Small(buf2[..], m)
    modifies buf1, buf2
    ensures Small(buf1[..], m)
    ensures ConvolvedTo(buf1[..], old(buf1[..]), old(buf2[..]), norm, k1 + k2, m)
    decreases k1 + k2, 0
  {
    hide Eq, InitMulModFast, InitMulModFast2, Small, Two, Convolved, Inverse, RootsOk, ConvolvedAt, Grid, Cyclic, Column,
      ColumnsDone, RowsDone, RowsLeft;
    ghost var a, b := buf1[..], buf2[..];
    var n1, n2 := Two(k1), Two(k2);
    LevelOk(fwd, back, kTot, k1 + k2, m);
    GridOfLength(a, k1, k2);
    GridOfLength(b, k1, k2);
    NttFftPartial(buf1, k1, k2, false, fwd, m, mInv);
    NttFftPartial(buf2, k1, k2, false, fwd, m, mInv);
    RowConvolutions(buf1, buf2, k1, k2, kTot, fwd, back, norm, normInv, m, mInv, a, b);
    ghost var u := buf1[..];
    NttFftPartial(buf1, k1, k2, true, back, m, mInv);
    ghost var k := k1 + k2;
    forall p | 0 <= p < buf1.Length ensures ConvolvedAt(buf1[..], a, b, norm, k, m, p) {
      LastPass(a, b, u, buf1[..], k1, k2, fwd, back, norm, m, p);
    }
  }

  lemma {:induction false} GridOfLength(a: seq<int>, k1: nat, k2: nat)
    requires |a| == Two(k1 + k2)
    ensures Grid(a, Two(k1), Two(k2)) && a != []
  {
    TwoAdd(k1, k2);
  }

  /** The rows multiplied one by one. */
  method RowConvolutions(buf1: array<Limb>, buf2: array<Limb>, k1: nat, k2: nat, kTot: nat, fwd: Roots, back: Roots,
                         norm: Limb, normInv: Limb, m: Limb, mInv: Limb, ghost a: seq<Limb>, ghost b: seq<Limb>)
    requires k1 >= 1 && k2 >= 1 && k1 + k2 <= kTot && TablesOk(fwd, back, norm, normInv, m, mInv, kTot) && buf1 != buf2 && b != []
    requires RootsOk(fwd, k1 + k2, m) && RootsOk(back, k1 + k2, m) && Inverse(fwd.pow, back.pow, k1 + k2, m)
    requires Small(buf1[..], m) && Small(buf2[..], m) && Grid(a, Two(k1), Two(k2)) && Grid(b, Two(k1), Two(k2))
    requires Grid(buf1[..], Two(k1), Two(k2)) && Grid(buf2[..], Two(k1), Two(k2))
    requires ColumnsDone(a, buf1[..], Two(k1), Two(k2), fwd.pow[k1], fwd.pow[k1 + k2], false, m)
    requires ColumnsDone(b, buf2[..], Two(k1), Two(k2), fwd.pow[k1], fwd.pow[k1 + k2], false, m)
    modifies buf1
    ensures Small(buf1[..], m) && Grid(buf1[..], Two(k1), Two(k2)) && Grid(Cyclic(a, b), Two(k1), Two(k2))
    ensures RowsDone(buf1[..], Cyclic(a, b), Two(k1), Two(k2), fwd.pow[k1], fwd.pow[k1 + k2], norm * Two(k2), Two(k1), m)
    decreases k1 + k2, 0, 0
  {
    hide Eq, InitMulModFast, InitMulModFast2, Small, Two, Convolved, Inverse, RootsOk, ConvolvedAt, Grid, Cyclic, Column,
      ColumnsDone, RowsDone, RowsLeft, RowOf, Same, RowStored;
    ghost var s1, s2, c := buf1[..], buf2[..], Cyclic(a, b);
    var n1, n2 := Two(k1), Two(k2);
    ChainOf(fwd, k1 + k2, m);
    ghost var v, w, g := fwd.pow[k1], fwd.pow[k1 + k2], norm * n2;
    assert Grid(c, n1, n2) by { GridLength(a, b, c, n1, n2); }
    var row1, row2 := new Limb[n2], new Limb[n2];
    RowsStart(s1, c, n1, n2, v, w, g, m);
    var i := 0;
    while i < n1
      invariant 0 <= i <= n1 && |buf1[..]| == |s1| && Grid(buf1[..], n1, n2) && buf2[..] == s2 && Small(buf1[..], m)
      invariant RowsDone(buf1[..], c, n1, n2, v, w, g, i, m) && RowsLeft(s1, buf1[..], n1, n2, i)
    {
      ghost var t := buf1[..];
      LoadRow(buf1, n1, n2, i, row1);
      LoadRow(buf2, n1, n2, i, row2);
      ghost var x, y := row1[..], row2[..];
      SmallRow(t, n1, n2, i, x, m);
      SmallRow(s2, n1, n2, i, y, m);
      RowLeft(s1, t, n1, n2, i);
      RowFromColumns(a, s1, n1, n2, v, w, i, m);
      RowFromColumns(b, s2, n1, n2, v, w, i, m);
      NttConv(row1, row2, k2, kTot, fwd, back, norm, normInv, m, mInv);
      RowConvolved(a, b, x, y, row1[..], n1, k2, w, i, kTot, k1, fwd, back, norm, m);
      StoreRow(buf1, n1, n2, i, row1);
      SmallRowStored(t, buf1[..], n1, n2, i, row1[..], m);
      RowsStep(s1, t, buf1[..], c, n1, n2, v, w, g, i, row1[..], m);
      i := i + 1;
    }
  }

  lemma {:induction false} RowsStart(s: seq<int>, c: seq<int>, n1: nat, n2: nat, v: int, w: int, g: int, m: int)
    requires m > 0 && Grid(s, n1, n2) && Grid(c, n1, n2)
    ensures RowsDone(s, c, n1, n2, v, w, g, 0, m) && RowsLeft(s, s, n1, n2, 0)
  {
    hide Column, CellOf;
  }
}
