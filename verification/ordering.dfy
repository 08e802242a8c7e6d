/** Comparison functions, permutations of a stretch of a sequence, and what sorting means. */
module Ordering {

  /** A comparison function of a total preorder: negative, zero or positive. */
  ghost predicate Preorder<T(!new)>(cmp: (T, T) -> int) {
    && (forall x, y :: cmp(x, y) < 0 <==> cmp(y, x) > 0)
    && (forall x, y, z :: cmp(x, y) <= 0 && cmp(y, z) <= 0 ==> cmp(x, z) <= 0)
  }

  lemma {:induction false} Flip<T(!new)>(cmp: (T, T) -> int, x: T, y: T)
    requires Preorder(cmp)
    ensures cmp(x, y) < 0 <==> cmp(y, x) > 0
    ensures cmp(x, y) > 0 <==> cmp(y, x) < 0
    ensures cmp(x, x) == 0
  {
    assert cmp(x, x) < 0 <==> cmp(x, x) > 0;
    assert cmp(y, x) < 0 <==> cmp(x, y) > 0;
  }

  lemma {:induction false} Chain<T(!new)>(cmp: (T, T) -> int, x: T, y: T, z: T)
    requires Preorder(cmp) && cmp(x, y) <= 0 && cmp(y, z) <= 0
    ensures cmp(x, z) <= 0
  {
  }

  ghost predicate Sorted<T(!new)>(cmp: (T, T) -> int, s: seq<T>) {
    forall i, j :: 0 <= i < j < |s| ==> cmp(s[i], s[j]) <= 0
  }

  // ---------- permutations ----------

  function Swapped<T>(s: seq<T>, x: int, y: int): (r: seq<T>)
    requires 0 <= x < |s| && 0 <= y < |s|
    ensures |r| == |s|
  {
    s[x := s[y]][y := s[x]]
  }

  /** t is s with the elements between lo and hi permuted. */
  ghost predicate Permuted<T(!new)>(s: seq<T>, t: seq<T>, lo: int, hi: int) {
    && 0 <= lo <= hi <= |s| == |t|
    && s[..lo] == t[..lo] && s[hi..] == t[hi..]
    && multiset(s[lo..hi]) == multiset(t[lo..hi])
  }

  lemma {:induction false} PermutedTrans<T(!new)>(s: seq<T>, t: seq<T>, u: seq<T>, lo: int, hi: int)
    requires Permuted(s, t, lo, hi) && Permuted(t, u, lo, hi)
    ensures Permuted(s, u, lo, hi)
  {
  }

  lemma {:induction false} PermutedSelf<T(!new)>(s: seq<T>, lo: int, hi: int)
    requires 0 <= lo <= hi <= |s|
    ensures Permuted(s, s, lo, hi)
  {
  }

  lemma {:induction false} PermutedRest<T(!new)>(s: seq<T>, t: seq<T>, lo: int, mid: int, hi: int)
    requires Permuted(s, t, lo, mid) && mid <= hi <= |s|
    ensures s[mid..hi] == t[mid..hi]
  {
    assert s[mid..hi] == s[mid..][..hi - mid] && t[mid..hi] == t[mid..][..hi - mid];
  }

  /** A permutation of part of a stretch is one of the stretch. */
  lemma {:induction false} PermutedWiden<T(!new)>(s: seq<T>, t: seq<T>, lo: int, hi: int, lo': int, hi': int)
    requires Permuted(s, t, lo, hi) && 0 <= lo' <= lo && hi <= hi' <= |s|
    ensures Permuted(s, t, lo', hi')
  {
    assert s[..lo'] == s[..lo][..lo'] && t[..lo'] == t[..lo][..lo'];
    assert s[hi'..] == s[hi..][hi' - hi..] && t[hi'..] == t[hi..][hi' - hi..];
    assert s[lo'..lo] == s[..lo][lo'..] && t[lo'..lo] == t[..lo][lo'..];
    PermutedRest(s, t, lo, hi, hi');
    assert s[lo'..hi'] == s[lo'..lo] + s[lo..hi] + s[hi..hi'];
    assert t[lo'..hi'] == t[lo'..lo] + t[lo..hi] + t[hi..hi'];
  }

  /** Outside the stretch nothing moves; inside, every element was there before. */
  lemma {:induction false} PermutedAt<T(!new)>(s: seq<T>, t: seq<T>, lo: int, hi: int, i: int) returns (k: int)
    requires Permuted(s, t, lo, hi) && 0 <= i < |t|
    ensures 0 <= k < |s| && t[i] == s[k]
    ensures if lo <= i < hi then lo <= k < hi else k == i
  {
    if i < lo {
      assert t[i] == t[..lo][i];
      k := i;
    } else if i >= hi {
      assert t[i] == t[hi..][i - hi];
      k := i;
    } else {
      assert t[lo..hi][i - lo] in multiset(t[lo..hi]);
      assert t[i] in s[lo..hi];
      var m :| 0 <= m < hi - lo && s[lo..hi][m] == t[i];
      k := lo + m;
    }
  }

  lemma {:induction false} PermutedWhole<T(!new)>(s: seq<T>, t: seq<T>, lo: int, hi: int)
    requires Permuted(s, t, lo, hi)
    ensures multiset(s) == multiset(t)
  {
    assert s == s[..lo] + s[lo..hi] + s[hi..];
    assert t == t[..lo] + t[lo..hi] + t[hi..];
  }

  // ---------- stretches of an array, counted from their start ----------

  lemma {:induction false} SwapInside<T(!new)>(s: seq<T>, lo: int, hi: int, x: int, y: int)
    requires 0 <= lo <= x < hi <= |s| && lo <= y < hi
    ensures Swapped(s, x, y)[lo..hi] == Swapped(s[lo..hi], x - lo, y - lo)
    ensures Permuted(s, Swapped(s, x, y), lo, hi)
  {
    assert Swapped(s, x, y)[lo..hi] == Swapped(s[lo..hi], x - lo, y - lo);
  }

  method Swap<T(!new)>(a: array<T>, ghost lo: int, ghost hi: int, x: int, y: int)
    requires 0 <= lo <= x < hi <= a.Length && lo <= y < hi
    modifies a
    ensures a[..] == Swapped(old(a[..]), x, y)
    ensures a[lo..hi] == Swapped(old(a[lo..hi]), x - lo, y - lo)
    ensures Permuted(old(a[..]), a[..], lo, hi)
  {
    hide Permuted, Swapped;
    SwapCells(a, x, y);
    SwapInside(old(a[..]), lo, hi, x, y);
  }

  method SwapCells<T(!new)>(a: array<T>, x: int, y: int)
    requires 0 <= x < a.Length && 0 <= y < a.Length
    modifies a
    ensures a[..] == Swapped(old(a[..]), x, y)
  {
    a[x], a[y] := a[y], a[x];
  }
}
