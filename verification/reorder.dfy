/** The canonical ordering of combining characters, and sort_cc, which brings a buffer into it in place. */
module Reorder {

  /** No combining character stands behind one of a higher class. */
  predicate Ordered(cc: int -> nat, s: seq<int>) {
    forall i :: 0 < i < |s| ==> InPlace(cc, s[i - 1], s[i])
  }

  predicate InPlace(cc: int -> nat, x: int, y: int) {
    cc(x) <= cc(y) || cc(y) == 0
  }

  /** The starters of s and its characters of class v, in order. */
  function Kept(cc: int -> nat, s: seq<int>, v: nat): seq<int> {
    if s == [] then []
    else (if cc(s[0]) == 0 || cc(s[0]) == v then [s[0]] else []) + Kept(cc, s[1..], v)
  }

  /**
   * Canonical equivalence of decomposed text: one is the other with characters of
   * different classes exchanged, but never across a starter.
   */
  ghost predicate Equivalent(cc: int -> nat, s: seq<int>, t: seq<int>) {
    forall v: nat :: Kept(cc, s, v) == Kept(cc, t, v)
  }

  /** s, which is in order, with x added at the end and moved back over higher classes. */
  function Insert(cc: int -> nat, s: seq<int>, x: int): (r: seq<int>)
    ensures |r| == |s| + 1
    decreases |s|
  {
    if s == [] || InPlace(cc, s[|s| - 1], x) then s + [x]
    else Insert(cc, s[..|s| - 1], x) + [s[|s| - 1]]
  }

  /** s in canonical order. */
  function Reordered(cc: int -> nat, s: seq<int>): (r: seq<int>)
    ensures |r| == |s|
    decreases |s|
  {
    if s == [] then [] else Insert(cc, Reordered(cc, s[..|s| - 1]), s[|s| - 1])
  }

  lemma {:induction false} KeptConcat(cc: int -> nat, s: seq<int>, t: seq<int>, v: nat)
    ensures Kept(cc, s + t, v) == Kept(cc, s, v) + Kept(cc, t, v)
    decreases |s|
  {
    if s == [] {
      assert s + t == t;
    } else {
      assert (s + t)[1..] == s[1..] + t;
      KeptConcat(cc, s[1..], t, v);
      var x := if cc(s[0]) == 0 || cc(s[0]) == v then [s[0]] else [];
      assert x + (Kept(cc, s[1..], v) + Kept(cc, t, v)) == x + Kept(cc, s[1..], v) + Kept(cc, t, v);
    }
  }

  lemma {:induction false} KeptOne(cc: int -> nat, x: int, v: nat)
    ensures Kept(cc, [x], v) == if cc(x) == 0 || cc(x) == v then [x] else []
  {
    assert [x][1..] == [];
  }

  /** Two neighbours of different classes, neither a starter, can be exchanged. */
  lemma {:induction false} KeptSwap(cc: int -> nat, x: int, y: int, v: nat)
    requires cc(x) > 0 && cc(y) > 0 && cc(x) != cc(y)
    ensures Kept(cc, [x] + [y], v) == Kept(cc, [y] + [x], v)
  {
    KeptConcat(cc, [x], [y], v);
    KeptConcat(cc, [y], [x], v);
    KeptOne(cc, x, v);
    KeptOne(cc, y, v);
  }

  lemma {:induction false} KeptInsert(cc: int -> nat, s: seq<int>, x: int, v: nat)
    ensures Kept(cc, Insert(cc, s, x), v) == Kept(cc, s + [x], v)
    decreases |s|
  {
    hide Kept;
    if s != [] && !InPlace(cc, s[|s| - 1], x) {
      var init, y := s[..|s| - 1], s[|s| - 1];
      KeptInsert(cc, init, x, v);
      KeptConcat(cc, Insert(cc, init, x), [y], v);
      KeptConcat(cc, init, [x], v);
      KeptConcat(cc, init, [x] + [y], v);
      KeptConcat(cc, init, [y] + [x], v);
      KeptConcat(cc, [x], [y], v);
      KeptSwap(cc, x, y, v);
      assert s + [x] == init + ([y] + [x]);
    }
  }

  /** Stability: reordering keeps all starters, and within a run those of one class, in their order. */
  lemma {:induction false} ReorderedEquivalent(cc: int -> nat, s: seq<int>)
    ensures Equivalent(cc, Reordered(cc, s), s)
    decreases |s|
  {
    hide Kept;
    if s != [] {
      var init, x := s[..|s| - 1], s[|s| - 1];
      ReorderedEquivalent(cc, init);
      assert s == init + [x];
      forall v: nat ensures Kept(cc, Reordered(cc, s), v) == Kept(cc, s, v) {
        KeptInsert(cc, Reordered(cc, init), x, v);
        KeptConcat(cc, Reordered(cc, init), [x], v);
        KeptConcat(cc, init, [x], v);
        assert Kept(cc, Reordered(cc, init), v) == Kept(cc, init, v);
      }
    }
  }

  lemma {:induction false} InsertOrdered(cc: int -> nat, s: seq<int>, x: int)
    requires Ordered(cc, s)
    ensures Ordered(cc, Insert(cc, s, x))
    ensures s != [] && !InPlace(cc, s[|s| - 1], x) ==> Insert(cc, s, x)[|s|] == s[|s| - 1]
    ensures s == [] || InPlace(cc, s[|s| - 1], x) ==> Insert(cc, s, x)[|s|] == x
    decreases |s|
  {
    if s != [] && !InPlace(cc, s[|s| - 1], x) {
      var init := s[..|s| - 1];
      InsertOrdered(cc, init, x);
    }
  }

  /** No reorderable pair is left. */
  lemma {:induction false} ReorderedOrdered(cc: int -> nat, s: seq<int>)
    ensures Ordered(cc, Reordered(cc, s))
    decreases |s|
  {
    if s != [] {
      ReorderedOrdered(cc, s[..|s| - 1]);
      InsertOrdered(cc, Reordered(cc, s[..|s| - 1]), s[|s| - 1]);
    }
  }

  /** Where the first of class v is, when it comes before any starter. */
  lemma {:induction false} FirstKept(cc: int -> nat, s: seq<int>, v: nat) returns (k: nat)
    requires Kept(cc, s, v) != []
    ensures k < |s| && s[k] == Kept(cc, s, v)[0]
    ensures forall j :: 0 <= j < k ==> cc(s[j]) != 0 && cc(s[j]) != v
    decreases |s|
  {
    if cc(s[0]) == 0 || cc(s[0]) == v {
      k := 0;
    } else {
      var j := FirstKept(cc, s[1..], v);
      k := j + 1;
    }
  }

  /** In order, a character before any starter has at least the class of the first one. */
  lemma {:induction false} Climbing(cc: int -> nat, s: seq<int>, k: nat)
    requires Ordered(cc, s) && k < |s| && forall j :: 0 <= j <= k ==> cc(s[j]) != 0
    ensures cc(s[0]) <= cc(s[k])
    decreases k
  {
    if k > 0 {
      Climbing(cc, s, k - 1);
      assert InPlace(cc, s[k - 1], s[k]);
    }
  }

  lemma {:induction false} KeptFirst(cc: int -> nat, s: seq<int>, v: nat)
    requires s != [] && (cc(s[0]) == 0 || cc(s[0]) == v)
    ensures Kept(cc, s, v) != [] && Kept(cc, s, v)[0] == s[0]
  {
  }

  lemma {:induction false} NoneKept(cc: int -> nat, t: seq<int>)
    requires forall v: nat :: Kept(cc, t, v) == []
    ensures t == []
  {
    assert t != [] ==> Kept(cc, t, cc(t[0])) != [];
  }

  /** Equivalent texts in order start alike. */
  lemma {:induction false} SameFirst(cc: int -> nat, s: seq<int>, t: seq<int>)
    requires Ordered(cc, t) && Equivalent(cc, s, t) && s != []
    requires t != [] && cc(s[0]) <= cc(t[0])
    ensures s[0] == t[0]
  {
    var a, v := s[0], cc(s[0]);
    assert Kept(cc, s, v) == Kept(cc, t, v);
    KeptFirst(cc, s, v);
    if v == 0 { KeptFirst(cc, s, cc(t[0])); }
    KeptFirst(cc, t, cc(t[0]));
    assert Kept(cc, s, cc(t[0])) == Kept(cc, t, cc(t[0]));
    var k := FirstKept(cc, t, v);
    if k > 0 && v != 0 {
      Climbing(cc, t, k);
    }
  }

  /** The canonical order is unique. */
  lemma {:induction false} OrderedUnique(cc: int -> nat, s: seq<int>, t: seq<int>)
    requires Ordered(cc, s) && Ordered(cc, t) && Equivalent(cc, s, t)
    ensures s == t
    decreases |s|
  {
    if s == [] {
      NoneKept(cc, t);
      assert forall v: nat :: Kept(cc, s, v) == [];
    } else {
      assert Kept(cc, s, cc(s[0])) == Kept(cc, t, cc(s[0]));
      assert t != [];
      if cc(s[0]) <= cc(t[0]) { SameFirst(cc, s, t); } else { SameFirst(cc, t, s); }
      forall v: nat ensures Kept(cc, s[1..], v) == Kept(cc, t[1..], v) {
        assert Kept(cc, s, v) == Kept(cc, t, v);
        var x := if cc(s[0]) == 0 || cc(s[0]) == v then [s[0]] else [];
        assert Kept(cc, s, v)[|x|..] == Kept(cc, s[1..], v);
        assert Kept(cc, t, v)[|x|..] == Kept(cc, t[1..], v);
      }
      OrderedUnique(cc, s[1..], t[1..]);
    }
  }

  /** Two texts are equivalent exactly when they have the same canonical order. */
  lemma {:induction false} ReorderedDecides(cc: int -> nat, s: seq<int>, t: seq<int>)
    ensures Equivalent(cc, s, t) <==> Reordered(cc, s) == Reordered(cc, t)
  {
    hide Kept, Reordered, Ordered;
    ReorderedEquivalent(cc, s);
    ReorderedEquivalent(cc, t);
    if Equivalent(cc, s, t) {
      ReorderedOrdered(cc, s);
      ReorderedOrdered(cc, t);
      forall v: nat ensures Kept(cc, Reordered(cc, s), v) == Kept(cc, Reordered(cc, t), v) {
        assert Kept(cc, s, v) == Kept(cc, t, v);
      }
      OrderedUnique(cc, Reordered(cc, s), Reordered(cc, t));
    }
    if Reordered(cc, s) == Reordered(cc, t) {
      forall v: nat ensures Kept(cc, s, v) == Kept(cc, t, v) {
        assert Kept(cc, Reordered(cc, s), v) == Kept(cc, s, v);
      }
    }
  }

  /** Text in order is left alone, so reordering twice is reordering once. */
  lemma {:induction false} ReorderedIdempotent(cc: int -> nat, s: seq<int>)
    ensures Ordered(cc, s) ==> Reordered(cc, s) == s
    ensures Reordered(cc, Reordered(cc, s)) == Reordered(cc, s)
  {
    hide Kept, Reordered, Ordered;
    ReorderedEquivalent(cc, s);
    ReorderedOrdered(cc, s);
    if Ordered(cc, s) { OrderedUnique(cc, Reordered(cc, s), s); }
    var r := Reordered(cc, s);
    ReorderedEquivalent(cc, r);
    ReorderedOrdered(cc, r);
    OrderedUnique(cc, Reordered(cc, r), r);
  }

  /** Starters do not move, and nothing moves to where one was. */
  lemma {:induction false} InsertKeepsStarters(cc: int -> nat, s: seq<int>, x: int, i: nat)
    requires i <= |s|
    ensures var t := s + [x];
            cc(t[i]) == 0 || cc(Insert(cc, s, x)[i]) == 0 ==> Insert(cc, s, x)[i] == t[i]
    decreases |s|
  {
    if s != [] && !InPlace(cc, s[|s| - 1], x) && i < |s| {
      InsertKeepsStarters(cc, s[..|s| - 1], x, i);
    }
  }

  lemma {:induction false} StartersFixed(cc: int -> nat, s: seq<int>, i: nat)
    requires i < |s|
    ensures cc(s[i]) == 0 || cc(Reordered(cc, s)[i]) == 0 ==> Reordered(cc, s)[i] == s[i]
    decreases |s|
  {
    var init := s[..|s| - 1];
    InsertKeepsStarters(cc, Reordered(cc, init), s[|s| - 1], i);
    if i < |init| { StartersFixed(cc, init, i); }
  }

  lemma {:induction false} InsertPermutes(cc: int -> nat, s: seq<int>, x: int)
    ensures multiset(Insert(cc, s, x)) == multiset(s) + multiset{x}
    decreases |s|
  {
    if s != [] && !InPlace(cc, s[|s| - 1], x) {
      InsertPermutes(cc, s[..|s| - 1], x);
      assert s == s[..|s| - 1] + [s[|s| - 1]];
    }
  }

  lemma {:induction false} ReorderedPermutes(cc: int -> nat, s: seq<int>)
    ensures multiset(Reordered(cc, s)) == multiset(s)
    decreases |s|
  {
    if s != [] {
      ReorderedPermutes(cc, s[..|s| - 1]);
      InsertPermutes(cc, Reordered(cc, s[..|s| - 1]), s[|s| - 1]);
      assert s == s[..|s| - 1] + [s[|s| - 1]];
    }
  }

  /** Where x comes to stand. */
  lemma {:induction false} InsertAt(cc: int -> nat, s: seq<int>, x: int, gap: nat)
    requires gap <= |s| && forall i :: gap <= i < |s| ==> !InPlace(cc, s[i], x)
    requires gap > 0 ==> InPlace(cc, s[gap - 1], x)
    ensures Insert(cc, s, x) == s[..gap] + [x] + s[gap..]
    decreases |s|
  {
    if gap < |s| {
      var init, y := s[..|s| - 1], s[|s| - 1];
      assert !InPlace(cc, y, x);
      InsertAt(cc, init, x, gap);
      assert s[gap..] == init[gap..] + [y] && s[..gap] == init[..gap];
      assert init[..gap] + [x] + init[gap..] + [y] == init[..gap] + [x] + (init[gap..] + [y]);
    } else {
      assert s[..gap] + [x] + s[gap..] == s + [x];
    }
  }

  /** The first j characters are in order; the rest are as they were. */
  ghost predicate Sorting(cc: int -> nat, now: seq<int>, before: seq<int>, j: nat) {
    |now| == |before| && j <= |now| && now[..j] == Reordered(cc, before[..j]) && now[j..] == before[j..]
  }

  lemma {:induction false} SortingStep(cc: int -> nat, now: seq<int>, before: seq<int>, j: nat, later: seq<int>)
    requires Sorting(cc, now, before, j) && j < |now| == |later|
    requires later[..j + 1] == Insert(cc, now[..j], now[j]) && later[j + 1..] == now[j + 1..]
    ensures Sorting(cc, later, before, j + 1)
  {
    assert before[..j + 1][..j] == before[..j];
    assert now[j] == now[j..][0] == before[j..][0] == before[j];
    assert now[j + 1..] == now[j..][1..] && before[j + 1..] == before[j..][1..];
  }

  /** A starter stays where it is. */
  lemma {:induction false} SortingStarter(cc: int -> nat, now: seq<int>, before: seq<int>, j: nat)
    requires Sorting(cc, now, before, j) && j < |now| && (cc(now[j]) == 0 || j == 0 || cc(now[j - 1]) == 0)
    ensures Sorting(cc, now, before, j + 1)
  {
    hide Reordered;
    assert now[..j + 1] == now[..j] + [now[j]];
    SortingStep(cc, now, before, j, now);
  }

  /** The inner loops of sort_cc: moves the character at j back over those of a higher class. */
  method MoveBack(cc: int -> nat, buf: array<int>, start: nat, j: nat)
    requires start <= j < buf.Length && cc(buf[j]) != 0
    requires start > 0 ==> cc(buf[start - 1]) == 0
    modifies buf
    ensures buf[..j + 1] == Insert(cc, old(buf[..j]), old(buf[j])) && buf[j + 1..] == old(buf[j + 1..])
    ensures buf[..start] == old(buf[..start])
  {
    hide Insert, Shifted;
    ghost var s, t := buf[..j], buf[..];
    var ch1 := buf[j];
    var k := ShiftHigher(cc, buf, start, j);
    buf[k + 1] := ch1;
    Placed(t, buf[..], s, j, k + 1, ch1);
    InsertAt(cc, s, ch1, k + 1);
    assert buf[..start] == s[..k + 1][..start];
  }

  /** What lies at k and above has moved up by one place, below j. */
  ghost predicate Shifted(t: seq<int>, u: seq<int>, k: int, j: int) {
    && 0 <= k <= j < |t| == |u| && u[..k] == t[..k] && u[j + 1..] == t[j + 1..]
    && forall i :: k < i <= j ==> u[i] == t[i - 1]
  }

  /** The characters that go behind buf[j] move up by one place. */
  method ShiftHigher(cc: int -> nat, buf: array<int>, start: nat, j: nat) returns (k: int)
    requires start <= j < buf.Length && cc(buf[j]) != 0
    requires start > 0 ==> cc(buf[start - 1]) == 0
    modifies buf
    ensures start - 1 <= k < j && Shifted(old(buf[..]), buf[..], k + 1, j)
    ensures forall i :: k < i < j ==> !InPlace(cc, old(buf[i]), old(buf[j]))
    ensures k >= 0 ==> InPlace(cc, old(buf[k]), old(buf[j]))
  {
    ghost var t := buf[..];
    var ch1 := buf[j];
    k := j - 1;
    while k >= start
      invariant start - 1 <= k < j
      invariant buf[..k + 1] == t[..k + 1] && buf[j + 1..] == t[j + 1..]
      invariant forall i :: k + 1 < i <= j ==> buf[i] == t[i - 1]
      invariant forall i :: k < i < j ==> !InPlace(cc, t[i], ch1)
    {
      assert buf[k] == buf[..k + 1][k] == t[k];
      if cc(buf[k]) <= cc(ch1) {
        break;
      }
      buf[k + 1] := buf[k];
      k := k - 1;
    }
  }

  lemma {:induction false} Placed(t: seq<int>, u: seq<int>, s: seq<int>, j: nat, p: nat, ch1: int)
    requires p <= j < |t| == |u| && s == t[..j] && u[p] == ch1
    requires exists v :: Shifted(t, v, p, j) && u == v[p := ch1]
    ensures u[..j + 1] == s[..p] + [ch1] + s[p..] && u[j + 1..] == t[j + 1..] && u[..p] == t[..p]
  {
    var v :| Shifted(t, v, p, j) && u == v[p := ch1];
    assert u[..p] == v[..p] == t[..p] == s[..p];
    assert u[j + 1..] == v[j + 1..];
  }

  /** sort_cc: sorts each run of combining characters by class, in place. */
  method SortCc(cc: int -> nat, buf: array<int>)
    modifies buf
    ensures buf[..] == Reordered(cc, old(buf[..]))
  {
    hide Reordered, Sorting, Insert;
    var len := buf.Length;
    var i := 0;
    ghost var before := buf[..];
    assert Sorting(cc, before, before, 0) by { SortingNone(cc, before); }
    while i < len
      invariant 0 <= i <= len + 1
      invariant i <= len ==> Sorting(cc, buf[..], before, i) && (i > 0 ==> cc(buf[i - 1]) == 0)
      invariant i > len ==> Sorting(cc, buf[..], before, len)
    {
      if cc(buf[i]) != 0 {
        var start := i;
        var j := i + 1;
        SortingStarter(cc, buf[..], before, i);
        while j < len
          invariant i < j <= len && Sorting(cc, buf[..], before, j)
          invariant start > 0 ==> cc(buf[start - 1]) == 0
        {
          if cc(buf[j]) == 0 {
            break;
          }
          ghost var now := buf[..];
          MoveBack(cc, buf, start, j);
          assert start > 0 ==> buf[start - 1] == buf[..start][start - 1];
          SortingStep(cc, now, before, j, buf[..]);
          j := j + 1;
        }
        if j < len { SortingStarter(cc, buf[..], before, j); }
        i := j;
      } else {
        SortingStarter(cc, buf[..], before, i);
      }
      i := i + 1;
    }
    SortingAll(cc, buf[..], before);
  }

  lemma {:induction false} SortingNone(cc: int -> nat, before: seq<int>)
    ensures Sorting(cc, before, before, 0)
  {
  }

  lemma {:induction false} SortingAll(cc: int -> nat, now: seq<int>, before: seq<int>)
    requires Sorting(cc, now, before, |now|)
    ensures now == Reordered(cc, before)
  {
    assert now[..|now|] == now && before[..|before|] == before;
  }
}
