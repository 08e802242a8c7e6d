/** Sets of code points as sorted lists of interval ends: cr_op, cr_compress, cr_union1, cr_invert. */
module CharRanges {

  const UINT32_MAX: int := 0xffff_ffff

  /** How many points are at most c; c is in the set when it is odd. */
  function Count(p: seq<int>, c: int): (n: nat) {
    if p == [] then 0 else (if p[0] <= c then 1 else 0) + Count(p[1..], c)
  }

  predicate Member(p: seq<int>, c: int) {
    Count(p, c) % 2 == 1
  }

  predicate Sorted(p: seq<int>) {
    forall i, j :: 0 <= i < j < |p| ==> p[i] <= p[j]
  }

  /** The canonical form: no empty interval, and none that touch. */
  predicate Canonical(p: seq<int>) {
    |p| % 2 == 0 && forall i, j :: 0 <= i < j < |p| ==> p[i] < p[j]
  }

  lemma {:induction false} CountConcat(p: seq<int>, q: seq<int>, c: int)
    ensures Count(p + q, c) == Count(p, c) + Count(q, c)
    decreases |p|
  {
    if p == [] {
      assert p + q == q;
    } else {
      assert (p + q)[1..] == p[1..] + q;
      CountConcat(p[1..], q, c);
    }
  }

  lemma {:induction false} CountSnoc(p: seq<int>, i: nat, c: int)
    requires i < |p|
    ensures Count(p[..i + 1], c) == Count(p[..i], c) + if p[i] <= c then 1 else 0
  {
    assert p[..i + 1] == p[..i] + [p[i]];
    CountConcat(p[..i], [p[i]], c);
    assert Count([p[i]][1..], c) == 0;
  }

  lemma {:induction false} CountAll(p: seq<int>, c: int)
    requires forall i :: 0 <= i < |p| ==> p[i] <= c
    ensures Count(p, c) == |p|
    decreases |p|
  {
    if p != [] { CountAll(p[1..], c); }
  }

  lemma {:induction false} CountNone(p: seq<int>, c: int)
    requires forall i :: 0 <= i < |p| ==> p[i] > c
    ensures Count(p, c) == 0
    decreases |p|
  {
    if p != [] { CountNone(p[1..], c); }
  }

  lemma {:induction false} MemberPair(x: int, y: int, c: int)
    requires x <= y
    ensures Member([x, y], c) <==> x <= c < y
  {
    CountPair(x, y, c);
  }

  lemma {:induction false} CountPair(x: int, y: int, c: int)
    ensures Count([x, y], c) == (if x <= c then 1 else 0) + (if y <= c then 1 else 0)
  {
    assert [x, y][1..] == [y] && [y][1..] == [];
    assert Count([y], c) == (if y <= c then 1 else 0) + Count([], c);
  }

  /** c lies in interval i. */
  predicate Within(p: seq<int>, i: int, c: int) {
    0 <= i < |p| / 2 && p[2 * i] <= c < p[2 * i + 1]
  }

  /** Counting is lying in one of the intervals. */
  lemma {:induction false} MemberInterval(p: seq<int>, c: int)
    requires Sorted(p) && |p| % 2 == 0
    ensures Member(p, c) <==> exists i :: Within(p, i, c)
    decreases |p|
  {
    hide Count, Within;
    if p == [] {
      NothingWithin(p, c);
      assert Count(p, c) == 0 by { CountNone(p, c); }
    } else {
      var q := p[2..];
      assert p == [p[0], p[1]] + q;
      CountConcat([p[0], p[1]], q, c);
      CountPair(p[0], p[1], c);
      if c < p[1] {
        CountNone(q, c);
        BelowSecond(p, c);
      } else {
        MemberInterval(q, c);
        IntervalTail(p, q, c);
      }
    }
  }

  lemma {:induction false} NothingWithin(p: seq<int>, c: int)
    requires p == []
    ensures !exists i :: Within(p, i, c)
  {
  }

  lemma {:induction false} BelowSecond(p: seq<int>, c: int)
    requires Sorted(p) && |p| >= 2 && |p| % 2 == 0 && c < p[1]
    ensures p[0] <= c <==> exists i :: Within(p, i, c)
  {
    if p[0] <= c { assert Within(p, 0, c); }
    if exists i :: Within(p, i, c) {
      var i :| Within(p, i, c);
      if i > 0 { assert p[1] <= p[2 * i]; }
    }
  }

  lemma {:induction false} IntervalTail(p: seq<int>, q: seq<int>, c: int)
    requires |p| >= 2 && |p| % 2 == 0 && q == p[2..] && c >= p[1]
    ensures (exists i :: Within(p, i, c)) <==> exists i :: Within(q, i, c)
  {
    if exists i :: Within(p, i, c) {
      var i :| Within(p, i, c);
      assert Within(q, i - 1, c);
    }
    if exists i :: Within(q, i, c) {
      var i :| Within(q, i, c);
      assert Within(p, i + 1, c);
    }
  }

  /** Two strictly increasing lists with the same members are the same list. */
  lemma {:induction false} CanonicalUnique(p: seq<int>, q: seq<int>)
    requires forall i, j :: 0 <= i < j < |p| ==> p[i] < p[j]
    requires forall i, j :: 0 <= i < j < |q| ==> q[i] < q[j]
    requires forall c :: Member(p, c) == Member(q, c)
    ensures p == q
    decreases |p| + |q|
  {
    if p != [] || q != [] {
      var c := if q == [] || (p != [] && p[0] <= q[0]) then p[0] else q[0];
      FirstOnly(p, c);
      FirstOnly(q, c);
      assert Member(p, c) == Member(q, c);
      forall d ensures Member(p[1..], d) == Member(q[1..], d) {
        assert Member(p, d) == Member(q, d);
      }
      CanonicalUnique(p[1..], q[1..]);
      assert p == [p[0]] + p[1..] && q == [q[0]] + q[1..];
    }
  }

  lemma {:induction false} FirstOnly(p: seq<int>, c: int)
    requires forall i, j :: 0 <= i < j < |p| ==> p[i] < p[j]
    requires p != [] ==> c <= p[0]
    ensures Member(p, c) <==> p != [] && c == p[0]
  {
    if p != [] {
      CountNone(p[1..], c);
    }
  }

  // ---------- the operations ----------

  // ---------- the list of a set ----------

  /** The points below hi, from c on, where membership changes; hi itself closes the last interval. */
  ghost function Edges(f: int -> bool, c: int, hi: int, inside: bool): (p: seq<int>)
    decreases hi - c
  {
    if c >= hi then (if inside then [hi] else [])
    else if f(c) != inside then [c] + Edges(f, c + 1, hi, f(c))
    else Edges(f, c + 1, hi, inside)
  }

  lemma {:induction false} EdgesList(f: int -> bool, c: int, hi: int, inside: bool)
    requires c <= hi
    ensures var p := Edges(f, c, hi, inside);
            && (forall x <- p :: c <= x <= hi) && (forall i, j :: 0 <= i < j < |p| ==> p[i] < p[j])
            && |p| % 2 == if inside then 1 else 0
    decreases hi - c
  {
    if c < hi {
      var rest := Edges(f, c + 1, hi, f(c));
      EdgesList(f, c + 1, hi, f(c));
      if f(c) != inside {
        var p := [c] + rest;
        assert forall i :: 0 < i < |p| ==> p[i] == rest[i - 1] && p[i] in rest;
      }
    }
  }

  lemma {:induction false} EdgesMember(f: int -> bool, c: int, hi: int, inside: bool, d: int)
    requires c <= hi
    ensures Member(Edges(f, c, hi, inside), d) <==> d >= c && (d < hi && f(d)) != inside
    decreases hi - c
  {
    hide Count;
    if c >= hi {
      CountEmpty(d);
      CountFirst(hi, [], d);
    } else {
      EdgesMember(f, c + 1, hi, f(c), d);
      if f(c) != inside { CountFirst(c, Edges(f, c + 1, hi, f(c)), d); }
    }
  }

  lemma {:induction false} CountEmpty(c: int)
    ensures Count([], c) == 0
  {
  }

  lemma {:induction false} CountFirst(x: int, p: seq<int>, c: int)
    ensures Count([x] + p, c) == (if x <= c then 1 else 0) + Count(p, c) && Count([x], c) == if x <= c then 1 else 0
  {
    assert ([x] + p)[1..] == p && [x][1..] == [];
  }

  /** The canonical list of a set of code points below infinity. */
  ghost function ListOf(f: int -> bool): (p: seq<int>)
    ensures Canonical(p) && forall x <- p :: 0 <= x <= UINT32_MAX
  {
    EdgesList(f, 0, UINT32_MAX, false);
    Edges(f, 0, UINT32_MAX, false)
  }

  /** It is the only one. */
  lemma {:induction false} ListOfIs(f: int -> bool, p: seq<int>)
    requires Canonical(p) && forall c :: Member(p, c) == (0 <= c < UINT32_MAX && f(c))
    ensures p == ListOf(f)
  {
    hide Count, Edges, Member;
    EdgesList(f, 0, UINT32_MAX, false);
    forall c ensures Member(p, c) == Member(ListOf(f), c) {
      EdgesMember(f, 0, UINT32_MAX, false, c);
    }
    CanonicalUnique(p, ListOf(f));
  }

  datatype Op = UNION | INTER | XOR

  predicate Combine(a: bool, b: bool, op: Op) {
    match op
    case UNION => a || b
    case INTER => a && b
    case XOR => a != b
  }

  /** Each operation by the others: intersections as De Morgan has them, exclusive or as union without intersection. */
  lemma {:induction false} OperationsMean(a: bool, b: bool)
    ensures Combine(a, b, INTER) == !Combine(!a, !b, UNION)
    ensures Combine(a, b, XOR) == (Combine(a, b, UNION) && !Combine(a, b, INTER))
    ensures Combine(a, a, UNION) == a && Combine(a, !a, UNION) && Combine(a, a, XOR) == false
  {
  }

  class CharRange {
    var points: seq<int>

    constructor ()
      ensures points == []
    {
      points := [];
    }

    /** cr_add_point */
    method AddPoint(v: int)
      modifies this
      ensures points == old(points) + [v]
    {
      points := points + [v];
    }

    /** The end of the last interval that touches the one at i, or one that touches it, and so on. */
    method LastTouching(i: nat) returns (j: nat)
      requires i + 1 < |points| && |points| % 2 == 0 && i % 2 == 0
      ensures i <= j && j + 1 < |points| && j % 2 == 0 && Chain(points, i, j)
      ensures j + 2 < |points| ==> points[j + 1] != points[j + 2]
    {
      j := i;
      while j + 3 < |points| && points[j + 1] == points[j + 2]
        invariant i <= j && j + 1 < |points| && j % 2 == 0 && Chain(points, i, j)
        decreases |points| - j
      {
        j := j + 2;
      }
    }

    /** cr_compress: merges intervals that touch and drops empty ones, in place. */
    method Compress()
      requires Sorted(points) && |points| % 2 == 0
      modifies this
      ensures Canonical(points) && SameSet(points, old(points))
      ensures forall x <- points :: x in old(points)
    {
      hide Count, Canonical, SameSet, Chain, Sorted, Compressed, Touching;
      ghost var s := points;
      var len := |points|;
      var i, k := 0, 0;
      NothingYet(s);
      while i + 1 < len
        invariant 0 <= k <= i <= len && i % 2 == 0 && k % 2 == 0 && |points| == len
        invariant points[i..] == s[i..] && Compressed(points[..k], s, i)
        decreases len - i
      {
        assert points[i] == points[i..][0] == s[i] && points[i + 1] == points[i..][1] == s[i + 1];
        ghost var before := points[..k];
        if points[i] == points[i + 1] {
          SkipEmpty(before, s, i);
          i := i + 2;
        } else {
          var j := LastTouching(i);
          ChainTail(points, s, i, j);
          Merge(before, s, i, j);
          ghost var whole := points;
          points := points[k := points[i]];
          points := points[k + 1 := points[j + 1]];
          Stored(whole, s, points, i, j, k);
          k := k + 2;
          i := j + 2;
        }
      }
      points := points[..k];
      Finished(points, s, i);
    }

    /** cr_op: merges the points of both lists and keeps those where the combined status changes. */
    method CrOp(a: seq<int>, b: seq<int>, op: Op)
      requires points == [] && Sorted(a) && Sorted(b) && |a| % 2 == 0 && |b| % 2 == 0
      modifies this
      ensures Canonical(points) && forall c :: Member(points, c) == Combine(Member(a, c), Member(b, c), op)
      ensures forall x <- points :: x in a || x in b
    {
      hide Count, Sorted, Combine, SameSet, Canonical;
      var aIdx, bIdx := 0, 0;
      MergeStart(a, b, op);
      while aIdx < |a| || bIdx < |b|
        invariant aIdx <= |a| && bIdx <= |b| && Merged(points, a, b, aIdx, bIdx, op)
        decreases |a| + |b| - aIdx - bIdx
      {
        var v;
        ghost var a0, b0 := aIdx, bIdx;
        if bIdx >= |b| || (aIdx < |a| && a[aIdx] < b[bIdx]) {
          v := a[aIdx];
          aIdx := aIdx + 1;
        } else if aIdx < |a| && a[aIdx] == b[bIdx] {
          v := a[aIdx];
          aIdx := aIdx + 1;
          bIdx := bIdx + 1;
        } else {
          v := b[bIdx];
          bIdx := bIdx + 1;
        }
        var isIn := Combine(aIdx % 2 == 1, bIdx % 2 == 1, op);
        MergeStep(points, a, b, a0, b0, aIdx, bIdx, v, op);
        if isIn != (|points| % 2 == 1) {
          AddPoint(v);
        }
      }
      ghost var merged := points;
      MergeDone(points, a, b, op);
      Compress();
      SameCombined(points, merged, a, b, op);
    }

    /** cr_union1 */
    method Union1(b: seq<int>)
      requires Sorted(points) && |points| % 2 == 0 && Sorted(b) && |b| % 2 == 0
      modifies this
      ensures Canonical(points) && forall c :: Member(points, c) == (Member(old(points), c) || Member(b, c))
    {
      var a := points;
      points := [];
      CrOp(a, b, UNION);
    }

    /** cr_union_interval */
    method UnionInterval(c1: int, c2: int)
      requires Sorted(points) && |points| % 2 == 0 && c1 <= c2
      modifies this
      ensures Canonical(points) && forall c :: Member(points, c) == (Member(old(points), c) || c1 <= c <= c2)
    {
      hide Count, Member;
      ghost var s := points;
      Union1([c1, c2 + 1]);
      forall c ensures Member(points, c) == (Member(s, c) || c1 <= c <= c2) {
        MemberPair(c1, c2 + 1, c);
      }
    }

    /** cr_invert: the complement below 2^32 - 1, which stands for infinity. */
    method Invert()
      requires Sorted(points) && |points| % 2 == 0 && forall x <- points :: 0 <= x <= UINT32_MAX
      modifies this
      ensures Canonical(points) && forall x <- points :: 0 <= x <= UINT32_MAX
      ensures forall c :: Member(points, c) == (0 <= c < UINT32_MAX && !Member(old(points), c))
    {
      hide Count, Canonical, SameSet;
      ghost var s := points;
      points := [0] + points + [UINT32_MAX];
      ghost var wide := points;
      Widened(s, wide);
      Compress();
      forall c ensures Member(points, c) == (0 <= c < UINT32_MAX && !Member(s, c)) {
        SetAt(points, wide, c);
        WidenedAt(s, c);
      }
    }

    /** Inverting twice gives back a canonical list. */
    method InvertTwice()
      requires Canonical(points) && forall x <- points :: 0 <= x <= UINT32_MAX
      modifies this
      ensures points == old(points)
    {
      hide Count;
      ghost var s := points;
      Invert();
      ghost var t := points;
      Invert();
      forall c ensures Member(points, c) == Member(s, c) {
        OutsideRange(s, c);
      }
      CanonicalUnique(points, s);
    }
  }

  /** From i to j each interval touches the next. */
  predicate Chain(p: seq<int>, i: nat, j: nat) {
    j + 1 < |p| && (j - i) % 2 == 0 && forall t :: i <= t < j && (t - i) % 2 == 0 ==> Touching(p, t)
  }

  predicate Touching(p: seq<int>, t: nat) {
    t + 2 < |p| && p[t + 1] == p[t + 2]
  }

  ghost predicate SameSet(p: seq<int>, q: seq<int>) {
    forall c :: Member(p, c) == Member(q, c)
  }

  /** q is the canonical form of the first i points of s, and ends before the rest begins. */
  ghost predicate Compressed(q: seq<int>, s: seq<int>, i: nat)
    requires i <= |s|
  {
    && Canonical(q) && SameSet(q, s[..i]) && (forall x <- q :: x in s)
    && (q != [] && i < |s| ==> q[|q| - 1] < s[i])
  }

  lemma {:induction false} Finished(q: seq<int>, s: seq<int>, i: nat)
    requires i <= |s| && Compressed(q, s, i) && |s| % 2 == 0 && i % 2 == 0 && i + 1 >= |s|
    ensures Canonical(q) && SameSet(q, s) && forall x <- q :: x in s
  {
    assert s[..i] == s;
  }

  lemma {:induction false} NothingYet(s: seq<int>)
    ensures Compressed([], s, 0)
  {
    assert s[..0] == [];
  }

  lemma {:induction false} AddPair(q: seq<int>, s: seq<int>, x: int, y: int, m: seq<int>)
    requires SameSet(q, s) && SameSet([x, y], m)
    ensures SameSet(q + [x, y], s + m)
  {
    forall c ensures Member(q + [x, y], c) == Member(s + m, c) {
      CountConcat(q, [x, y], c);
      CountConcat(s, m, c);
      assert Member(q, c) == Member(s, c) && Member([x, y], c) == Member(m, c);
    }
  }

  lemma {:induction false} SkipEmpty(q: seq<int>, s: seq<int>, i: nat)
    requires i + 2 <= |s| && s[i] == s[i + 1] && Sorted(s) && Compressed(q, s, i)
    ensures Compressed(q, s, i + 2)
  {
    assert s[..i + 2] == s[..i] + [s[i], s[i + 1]];
    forall c ensures Member(q, c) == Member(s[..i + 2], c) {
      CountConcat(s[..i], [s[i], s[i + 1]], c);
      CountPair(s[i], s[i + 1], c);
      assert Member(q, c) == Member(s[..i], c);
    }
  }

  /** A chain of touching intervals is one interval. */
  lemma {:induction false} ChainSet(s: seq<int>, i: nat, j: nat)
    requires i <= j && Chain(s, i, j)
    ensures SameSet([s[i], s[j + 1]], s[i..j + 2])
    decreases j
  {
    if i == j {
      assert s[i..j + 2] == [s[i], s[j + 1]];
    } else {
      assert Touching(s, j - 2);
      ChainSet(s, i, j - 2);
      ChainOneMore([s[i], s[j - 1]], s[i..j], s[i], s[j], s[j + 1]);
      assert s[i..j + 2] == s[i..j] + [s[j], s[j + 1]];
    }
  }

  lemma {:induction false} ChainOneMore(pair: seq<int>, m: seq<int>, x: int, y: int, z: int)
    requires pair == [x, y] && SameSet(pair, m)
    ensures SameSet([x, z], m + [y, z])
  {
    var longer, all := [x, z], m + [y, z];
    forall c ensures Member(longer, c) == Member(all, c) {
      CountConcat(m, [y, z], c);
      CountPair(y, z, c);
      CountPair(x, y, c);
      CountPair(x, z, c);
      assert Member(pair, c) == Member(m, c);
    }
  }

  lemma {:induction false} ChainTail(p: seq<int>, s: seq<int>, i: nat, j: nat)
    requires |p| == |s| && i <= j && j + 1 < |p| && p[i..] == s[i..] && Chain(p, i, j)
    requires j + 2 < |p| ==> p[j + 1] != p[j + 2]
    ensures Chain(s, i, j) && (j + 2 < |s| ==> s[j + 1] != s[j + 2])
  {
    assert forall t :: i <= t < |p| ==> p[t] == p[i..][t - i] && s[t] == s[i..][t - i];
    forall t | i <= t < j && (t - i) % 2 == 0 ensures Touching(s, t) {
      assert Touching(p, t);
    }
  }

  lemma {:induction false} Merge(q: seq<int>, s: seq<int>, i: nat, j: nat)
    requires i + 1 < |s| && i <= j && s[i] != s[i + 1] && Sorted(s) && Chain(s, i, j) && Compressed(q, s, i)
    requires j + 2 < |s| ==> s[j + 1] != s[j + 2]
    ensures j + 2 <= |s| && Compressed(q + [s[i], s[j + 1]], s, j + 2)
  {
    hide Count;
    ChainSet(s, i, j);
    assert s[..j + 2] == s[..i] + s[i..j + 2];
    AddPair(q, s[..i], s[i], s[j + 1], s[i..j + 2]);
  }

  /** Two points stored at k, which is not beyond what has been read. */
  lemma {:induction false} Stored(p: seq<int>, s: seq<int>, q: seq<int>, i: nat, j: nat, k: nat)
    requires k <= i <= j && j + 2 <= |p| == |s| && p[i..] == s[i..]
    requires q == p[k := p[i]][k + 1 := p[k := p[i]][j + 1]]
    ensures |q| == |p| && q[j + 2..] == s[j + 2..] && q[..k + 2] == p[..k] + [s[i], s[j + 1]]
  {
    assert p[i] == p[i..][0] && p[j + 1] == p[i..][j + 1 - i];
    assert s[i] == s[i..][0] && s[j + 1] == s[i..][j + 1 - i];
    assert q[j + 2..] == p[i..][j + 2 - i..] && s[j + 2..] == s[i..][j + 2 - i..];
  }

  lemma {:induction false} SetAt(p: seq<int>, q: seq<int>, c: int)
    requires SameSet(p, q)
    ensures Member(p, c) == Member(q, c)
  {
  }

  /** All points taken so far, in the combined list; nothing taken is beyond what is left. */
  ghost predicate Merged(p: seq<int>, a: seq<int>, b: seq<int>, i: nat, j: nat, op: Op)
    requires i <= |a| && j <= |b|
  {
    && Sorted(p) && (|p| % 2 == 1) == Combine(i % 2 == 1, j % 2 == 1, op)
    && (forall x <- p :: x in a || x in b)
    && (forall c :: Member(p, c) == Combine(Member(a[..i], c), Member(b[..j], c), op))
    && Before(a[..i], a[i..]) && Before(a[..i], b[j..]) && Before(b[..j], a[i..]) && Before(b[..j], b[j..])
    && Before(p, a[i..]) && Before(p, b[j..])
  }

  ghost predicate Before(p: seq<int>, q: seq<int>) {
    forall i, j :: 0 <= i < |p| && 0 <= j < |q| ==> p[i] <= q[j]
  }

  lemma {:induction false} MergeStart(a: seq<int>, b: seq<int>, op: Op)
    ensures Merged([], a, b, 0, 0, op)
  {
    assert a[..0] == [] && b[..0] == [];
    forall c ensures Member([], c) == Combine(Member(a[..0], c), Member(b[..0], c), op) {
      assert Count([], c) == 0;
    }
  }

  /** One more point, from one list or from both. */
  lemma {:induction false} MergeStep(p: seq<int>, a: seq<int>, b: seq<int>, i: nat, j: nat, i': nat, j': nat, v: int, op: Op)
    requires i <= i' <= i + 1 && j <= j' <= j + 1 && i' + j' > i + j && i' <= |a| && j' <= |b|
    requires Sorted(a) && Sorted(b) && Merged(p, a, b, i, j, op)
    requires (i' > i ==> v == a[i]) && (j' > j ==> v == b[j])
    requires (i < |a| ==> v <= a[i]) && (j < |b| ==> v <= b[j])
    requires i' == i && i < |a| ==> v < a[i]
    requires j' == j && j < |b| ==> v < b[j]
    ensures var isIn := Combine(i' % 2 == 1, j' % 2 == 1, op);
            Merged(if isIn != (|p| % 2 == 1) then p + [v] else p, a, b, i', j', op)
  {
    hide Combine, Count;
    var isIn := Combine(i' % 2 == 1, j' % 2 == 1, op);
    var p' := if isIn != (|p| % 2 == 1) then p + [v] else p;
    NewBounds(p, a, b, i, j, i', j', v);
    forall c ensures Member(p', c) == Combine(Member(a[..i'], c), Member(b[..j'], c), op) {
      MergeAt(p, p', a, b, i, j, i', j', v, op, c);
    }
  }

  /** v is at least all taken points and at most all points left. */
  lemma {:induction false} NewBounds(p: seq<int>, a: seq<int>, b: seq<int>, i: nat, j: nat, i': nat, j': nat, v: int)
    requires i <= i' <= i + 1 && j <= j' <= j + 1 && i' + j' > i + j && i' <= |a| && j' <= |b|
    requires Sorted(a) && Sorted(b) && Sorted(p)
    requires Before(a[..i], a[i..]) && Before(a[..i], b[j..]) && Before(b[..j], a[i..]) && Before(b[..j], b[j..])
    requires Before(p, a[i..]) && Before(p, b[j..])
    requires (i' > i ==> v == a[i]) && (j' > j ==> v == b[j])
    requires (i < |a| ==> v <= a[i]) && (j < |b| ==> v <= b[j])
    ensures forall k :: 0 <= k < i' ==> a[k] <= v
    ensures forall k :: 0 <= k < j' ==> b[k] <= v
    ensures forall k :: 0 <= k < |p| ==> p[k] <= v
    ensures forall k :: i' <= k < |a| ==> v <= a[k]
    ensures forall k :: j' <= k < |b| ==> v <= b[k]
    ensures Sorted(p + [v])
    ensures Before(a[..i'], a[i'..]) && Before(a[..i'], b[j'..]) && Before(b[..j'], a[i'..]) && Before(b[..j'], b[j'..])
    ensures Before(p + [v], a[i'..]) && Before(p + [v], b[j'..]) && Before(p, a[i'..]) && Before(p, b[j'..])
  {
    if i' > i { assert a[i..][0] == v; } else { assert b[j..][0] == v; }
    forall k | 0 <= k < i' ensures a[k] <= v {
      if k < i { assert a[..i][k] == a[k]; }
    }
    forall k | 0 <= k < j' ensures b[k] <= v {
      if k < j { assert b[..j][k] == b[k]; }
    }
  }

  /** Below the new point nothing changes; from it on, the whole lists taken so far decide. */
  lemma {:induction false} MergeAt(p: seq<int>, p': seq<int>, a: seq<int>, b: seq<int>, i: nat, j: nat, i': nat, j': nat, v: int,
                                   op: Op, c: int)
    requires i <= i' <= i + 1 && j <= j' <= j + 1 && i' <= |a| && j' <= |b|
    requires Member(p, c) == Combine(Member(a[..i], c), Member(b[..j], c), op)
    requires p' == if Combine(i' % 2 == 1, j' % 2 == 1, op) != (|p| % 2 == 1) then p + [v] else p
    requires (forall k :: 0 <= k < i' ==> a[k] <= v) && (forall k :: 0 <= k < j' ==> b[k] <= v)
    requires (forall k :: 0 <= k < |p| ==> p[k] <= v) && (i' > i ==> v == a[i]) && (j' > j ==> v == b[j])
    ensures Member(p', c) == Combine(Member(a[..i'], c), Member(b[..j'], c), op)
  {
    hide Combine, Count;
    if c < v {
      if i' > i { CountSnoc(a, i, c); }
      if j' > j { CountSnoc(b, j, c); }
      CountConcat(p, [v], c);
      CountNone([v], c);
    } else {
      CountAll(a[..i'], c);
      CountAll(b[..j'], c);
      CountAll(p', c);
    }
  }

  lemma {:induction false} MergeDone(p: seq<int>, a: seq<int>, b: seq<int>, op: Op)
    requires Merged(p, a, b, |a|, |b|, op) && |a| % 2 == 0 && |b| % 2 == 0
    ensures Sorted(p) && |p| % 2 == 0 && (forall x <- p :: x in a || x in b)
    ensures forall c :: Member(p, c) == Combine(Member(a, c), Member(b, c), op)
  {
    hide Count;
    assert a[..|a|] == a && b[..|b|] == b;
  }

  lemma {:induction false} SameCombined(p: seq<int>, m: seq<int>, a: seq<int>, b: seq<int>, op: Op)
    requires SameSet(p, m) && forall c :: Member(m, c) == Combine(Member(a, c), Member(b, c), op)
    ensures forall c :: Member(p, c) == Combine(Member(a, c), Member(b, c), op)
  {
    hide Count, Combine;
    forall c ensures Member(p, c) == Combine(Member(a, c), Member(b, c), op) {
      assert Member(p, c) == Member(m, c);
    }
  }

  lemma {:induction false} Widened(s: seq<int>, wide: seq<int>)
    requires Sorted(s) && |s| % 2 == 0 && (forall x <- s :: 0 <= x <= UINT32_MAX) && wide == [0] + s + [UINT32_MAX]
    ensures Sorted(wide) && |wide| % 2 == 0 && forall x <- wide :: 0 <= x <= UINT32_MAX
  {
    assert forall i :: 0 <= i < |s| ==> s[i] in s;
  }

  lemma {:induction false} WidenedAt(s: seq<int>, c: int)
    requires Sorted(s) && |s| % 2 == 0 && forall x <- s :: 0 <= x <= UINT32_MAX
    ensures Member([0] + s + [UINT32_MAX], c) == (0 <= c < UINT32_MAX && !Member(s, c))
  {
    CountConcat([0] + s, [UINT32_MAX], c);
    CountConcat([0], s, c);
    assert [0][1..] == [] && [UINT32_MAX][1..] == [];
    OutsideRange(s, c);
  }

  /** Nothing outside the range of the points is in the set. */
  lemma {:induction false} OutsideRange(s: seq<int>, c: int)
    requires |s| % 2 == 0 && forall x <- s :: 0 <= x <= UINT32_MAX
    ensures (c < 0 ==> Count(s, c) == 0) && (c >= UINT32_MAX ==> Count(s, c) == |s|)
    ensures c < 0 || c >= UINT32_MAX ==> !Member(s, c)
  {
    hide Count;
    assert forall i :: 0 <= i < |s| ==> s[i] in s;
    if c < 0 { CountNone(s, c); }
    if c >= UINT32_MAX { CountAll(s, c); }
  }
}
