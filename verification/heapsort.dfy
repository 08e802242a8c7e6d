/** heapsortx: the fallback of the quicksort, on a stretch of an array. */
module HeapSort {
  import opened Ordering

  /** In s[..n] the element at p is at least those at the children of q. */
  ghost predicate Over<T(!new)>(cmp: (T, T) -> int, s: seq<T>, n: int, p: int, q: int)
    requires 0 <= p < |s| && 0 <= q && n <= |s|
  {
    (2 * q + 1 < n ==> cmp(s[p], s[2 * q + 1]) >= 0) && (2 * q + 2 < n ==> cmp(s[p], s[2 * q + 2]) >= 0)
  }

  /** From index i on, every element but the one at r is at least its children. */
  ghost predicate HeapBut<T(!new)>(cmp: (T, T) -> int, s: seq<T>, i: int, n: int, r: int)
    requires 0 <= i && n <= |s|
  {
    forall p :: i <= p < n && p != r ==> Over(cmp, s, n, p, p)
  }

  /** The element above r is also at least the children of r. */
  ghost predicate Bridged<T(!new)>(cmp: (T, T) -> int, s: seq<T>, i: int, n: int, r: int)
    requires 0 <= i <= r < n <= |s|
  {
    r > 0 && i <= (r - 1) / 2 ==> Over(cmp, s, n, (r - 1) / 2, r)
  }

  lemma {:induction false} SiftStep<T(!new)>(cmp: (T, T) -> int, s: seq<T>, i: int, n: int, r: int, c: int)
    requires Preorder(cmp) && 0 <= i <= r < n <= |s| && (c == 2 * r + 1 || c == 2 * r + 2) && c < n
    requires Over(cmp, s[r := s[c]], n, r, r) && cmp(s[r], s[c]) <= 0
    requires HeapBut(cmp, s, i, n, r) && Bridged(cmp, s, i, n, r)
    ensures HeapBut(cmp, Swapped(s, r, c), i, n, c) && Bridged(cmp, Swapped(s, r, c), i, n, c)
  {
    hide Preorder, Over, Swapped;
    var t := Swapped(s, r, c);
    forall p | i <= p < n && p != c ensures Over(cmp, t, n, p, p) {
      SwappedOver(cmp, s, i, n, r, c, p);
    }
    SwappedBridge(cmp, s, i, n, r, c);
  }

  lemma {:induction false} SwappedOver<T(!new)>(cmp: (T, T) -> int, s: seq<T>, i: int, n: int, r: int, c: int, p: int)
    requires Preorder(cmp) && 0 <= i <= r < n <= |s| && (c == 2 * r + 1 || c == 2 * r + 2) && c < n
    requires Over(cmp, s[r := s[c]], n, r, r) && cmp(s[r], s[c]) <= 0 && Bridged(cmp, s, i, n, r)
    requires i <= p < n && p != c && (p != r ==> Over(cmp, s, n, p, p))
    ensures Over(cmp, Swapped(s, r, c), n, p, p)
  {
    hide Preorder;
    Flip(cmp, s[r], s[c]);
    if r == 2 * p + 1 || r == 2 * p + 2 { assert (r - 1) / 2 == p; }
  }

  lemma {:induction false} SwappedBridge<T(!new)>(cmp: (T, T) -> int, s: seq<T>, i: int, n: int, r: int, c: int)
    requires 0 <= i <= r < n <= |s| && (c == 2 * r + 1 || c == 2 * r + 2) && c < n
    requires Over(cmp, s, n, c, c)
    ensures Bridged(cmp, Swapped(s, r, c), i, n, c)
  {
    assert (c - 1) / 2 == r;
  }

  lemma {:induction false} SiftDone<T(!new)>(cmp: (T, T) -> int, s: seq<T>, i: int, n: int, r: int)
    requires 0 <= i <= r < n <= |s| && HeapBut(cmp, s, i, n, r) && Over(cmp, s, n, r, r)
    ensures HeapBut(cmp, s, i, n, -1)
  {
    hide Over;
  }

  /** The root of a heap is its largest element. */
  lemma {:induction false} RootLargest<T(!new)>(cmp: (T, T) -> int, s: seq<T>, n: int, k: int)
    requires Preorder(cmp) && 0 <= k < n <= |s| && HeapBut(cmp, s, 0, n, -1)
    ensures cmp(s[0], s[k]) >= 0
    decreases k
  {
    hide Preorder;
    if k == 0 {
      Flip(cmp, s[0], s[0]);
    } else {
      var p := (k - 1) / 2;
      assert Over(cmp, s, n, p, p);
      assert k == 2 * p + 1 || k == 2 * p + 2;
      RootLargest(cmp, s, n, p);
      Flip(cmp, s[0], s[p]);
      Flip(cmp, s[p], s[k]);
      Flip(cmp, s[0], s[k]);
      Chain(cmp, s[k], s[p], s[0]);
    }
  }

  /** The code's choice between two children finds the larger one. */
  lemma {:induction false} ChildChosen<T(!new)>(cmp: (T, T) -> int, s: seq<T>, n: int, r: int, c: int)
    requires Preorder(cmp) && 0 <= r && 2 * r + 1 < n <= |s| && c < n
    requires c == if 2 * r + 1 < n - 1 && cmp(s[2 * r + 1], s[2 * r + 2]) <= 0 then 2 * r + 2 else 2 * r + 1
    ensures Over(cmp, s[r := s[c]], n, r, r)
    ensures cmp(s[r], s[c]) > 0 ==> Over(cmp, s, n, r, r)
  {
    hide Preorder;
    Flip(cmp, s[c], s[c]);
    if 2 * r + 2 < n {
      var d := if c == 2 * r + 1 then 2 * r + 2 else 2 * r + 1;
      Flip(cmp, s[c], s[d]);
      if cmp(s[r], s[c]) > 0 {
        Flip(cmp, s[r], s[c]);
        Flip(cmp, s[r], s[d]);
        Chain(cmp, s[d], s[c], s[r]);
      }
    }
  }

  lemma {:induction false} NoChildren<T(!new)>(cmp: (T, T) -> int, s: seq<T>, n: int, r: int)
    requires 0 <= r < n <= |s| && 2 * r + 1 >= n
    ensures Over(cmp, s, n, r, r)
  {
  }

  /** One turn of the loop below, on the heap of the first n elements of the stretch from lo to hi. */
  method SiftOnce<T(!new)>(a: array<T>, lo: int, ghost hi: int, ghost i: int, r: int, n: int, cmp: (T, T) -> int)
    returns (sunk: bool, c: int)
    requires Preorder(cmp) && 0 <= lo <= hi <= a.Length && 0 <= i <= r < n <= hi - lo && 2 * r + 1 < n
    requires HeapBut(cmp, a[lo..hi], i, n, r) && Bridged(cmp, a[lo..hi], i, n, r)
    modifies a
    ensures Permuted(old(a[..]), a[..], lo, lo + n) && r < c < n
    ensures sunk ==> HeapBut(cmp, a[lo..hi], i, n, -1)
    ensures !sunk ==> HeapBut(cmp, a[lo..hi], i, n, c) && Bridged(cmp, a[lo..hi], i, n, c)
  {
    hide HeapBut, Bridged, Permuted, Preorder, Swapped, Over;
    ghost var s, before := a[lo..hi], a[..];
    c := 2 * r + 1;
    if c < n - 1 && cmp(a[lo + c], a[lo + c + 1]) <= 0 {
      c := c + 1;
    }
    assert s[r] == a[lo + r] && s[c] == a[lo + c];
    ChildChosen(cmp, s, n, r, c);
    sunk := cmp(a[lo + r], a[lo + c]) > 0;
    if sunk {
      SiftDone(cmp, s, i, n, r);
      PermutedSelf(before, lo, lo + n);
    } else {
      SiftStep(cmp, s, i, n, r, c);
      SwapBelow(a, lo, hi, n, r, c);
    }
  }

  /** A swap among the first n elements of a stretch, seen from the whole stretch. */
  method SwapBelow<T(!new)>(a: array<T>, lo: int, ghost hi: int, ghost n: int, x: int, y: int)
    requires 0 <= lo && 0 <= x < n && 0 <= y < n && lo + n <= hi <= a.Length
    modifies a
    ensures a[lo..hi] == Swapped(old(a[lo..hi]), x, y) && Permuted(old(a[..]), a[..], lo, lo + n)
  {
    hide *;
    SwapCells(a, lo + x, lo + y);
    SliceSwapped(old(a[..]), a[..], lo, hi, n, x, y);
  }

  lemma {:induction false} SliceSwapped<T(!new)>(s: seq<T>, t: seq<T>, lo: int, hi: int, n: int, x: int, y: int)
    requires 0 <= lo && 0 <= x < n && 0 <= y < n && lo + n <= hi <= |s|
    requires t == Swapped(s, lo + x, lo + y)
    ensures t[lo..hi] == Swapped(s[lo..hi], x, y) && Permuted(s, t, lo, lo + n)
  {
    hide *;
    SwapInside(s, lo, hi, lo + x, lo + y);
    SwapInside(s, lo, lo + n, lo + x, lo + y);
  }

  /** Sinks the element at r0. */
  method SiftDown<T(!new)>(a: array<T>, lo: int, ghost hi: int, ghost i: int, r0: int, n: int, cmp: (T, T) -> int)
    requires Preorder(cmp) && 0 <= lo <= hi <= a.Length && 0 <= i <= r0 < n <= hi - lo
    requires HeapBut(cmp, a[lo..hi], i, n, r0) && Bridged(cmp, a[lo..hi], i, n, r0)
    modifies a
    ensures HeapBut(cmp, a[lo..hi], i, n, -1) && Permuted(old(a[..]), a[..], lo, lo + n)
  {
    hide HeapBut, Bridged, Permuted, Preorder, Over;
    var r := r0;
    PermutedSelf(a[..], lo, lo + n);
    while 2 * r + 1 < n
      invariant i <= r < n && HeapBut(cmp, a[lo..hi], i, n, r) && Bridged(cmp, a[lo..hi], i, n, r)
      invariant Permuted(old(a[..]), a[..], lo, lo + n)
      decreases n - r
    {
      ghost var before := a[..];
      var sunk, c := SiftOnce(a, lo, hi, i, r, n, cmp);
      PermutedTrans(old(a[..]), before, a[..], lo, lo + n);
      if sunk { return; }
      r := c;
    }
    NoChildren(cmp, a[lo..hi], n, r);
    SiftDone(cmp, a[lo..hi], i, n, r);
  }

  // ---------- sorting ----------

  /** Every element before i is at most every one from i on, and the latter are in order. */
  ghost predicate Topped<T(!new)>(cmp: (T, T) -> int, s: seq<T>, i: int)
    requires 0 <= i <= |s|
  {
    forall x, y :: 0 <= x < y < |s| && i <= y ==> cmp(s[x], s[y]) <= 0
  }

  /** Moving the root of the heap to its end. */
  lemma {:induction false} TopGrows<T(!new)>(cmp: (T, T) -> int, s: seq<T>, i: int)
    requires Preorder(cmp) && 0 < i < |s| && Topped(cmp, s, i + 1) && HeapBut(cmp, s, 0, i + 1, -1)
    ensures Topped(cmp, Swapped(s, 0, i), i)
    ensures HeapBut(cmp, Swapped(s, 0, i), 0, i, 0) && Bridged(cmp, Swapped(s, 0, i), 0, i, 0)
  {
    hide Preorder;
    var t := Swapped(s, 0, i);
    forall x, y | 0 <= x < y < |s| && i <= y ensures cmp(t[x], t[y]) <= 0 {
      if y == i {
        RootLargest(cmp, s, i + 1, if x == 0 then i else x);
        Flip(cmp, s[0], t[x]);
      }
    }
    forall p | 0 <= p < i && p != 0 ensures Over(cmp, t, i, p, p) {
      assert Over(cmp, s, i + 1, p, p);
    }
  }

  /** Permuting what is before the top keeps it on top. */
  lemma {:induction false} ToppedPermuted<T(!new)>(cmp: (T, T) -> int, a: seq<T>, b: seq<T>, lo: int, hi: int, i: int)
    requires Permuted(a, b, lo, lo + i) && 0 <= i <= hi - lo && hi <= |a| && Topped(cmp, a[lo..hi], i)
    ensures Topped(cmp, b[lo..hi], i)
  {
    hide Permuted;
    PermutedSize(a, b, lo, lo + i);
    var t := b[lo..hi];
    forall x, y | 0 <= x < y < |t| && i <= y ensures cmp(t[x], t[y]) <= 0 {
      ToppedPair(cmp, a, b, lo, hi, i, x, y);
    }
  }

  lemma {:induction false} PermutedSize<T(!new)>(a: seq<T>, b: seq<T>, lo: int, hi: int)
    requires Permuted(a, b, lo, hi)
    ensures |a| == |b| && 0 <= lo
  {
  }

  lemma {:induction false} ToppedPair<T(!new)>(cmp: (T, T) -> int, a: seq<T>, b: seq<T>, lo: int, hi: int, i: int, x: int, y: int)
    requires Permuted(a, b, lo, lo + i) && 0 <= i <= hi - lo && hi <= |a| == |b| && Topped(cmp, a[lo..hi], i)
    requires 0 <= lo && 0 <= x < y < hi - lo && i <= y
    ensures cmp(b[lo..hi][x], b[lo..hi][y]) <= 0
  {
    hide Permuted;
    var x' := PermutedAt(a, b, lo, lo + i, lo + x);
    var y' := PermutedAt(a, b, lo, lo + i, lo + y);
    assert cmp(a[lo..hi][x' - lo], a[lo..hi][y' - lo]) <= 0;
  }

  method HeapSortX<T(!new)>(a: array<T>, lo: int, nmemb: int, cmp: (T, T) -> int)
    requires Preorder(cmp) && 0 <= lo && 0 <= nmemb && lo + nmemb <= a.Length
    modifies a
    ensures Sorted(cmp, a[lo..lo + nmemb]) && Permuted(old(a[..]), a[..], lo, lo + nmemb)
  {
    hide HeapBut, Bridged, Permuted, Preorder, Over;
    var hi := lo + nmemb;
    PermutedSelf(a[..], lo, hi);
    if nmemb > 1 {
      BuildHeap(a, lo, nmemb, cmp);
      var i := nmemb - 1;
      while i > 0
        invariant 0 <= i < nmemb && HeapBut(cmp, a[lo..hi], 0, i + 1, -1) && Topped(cmp, a[lo..hi], i + 1)
        invariant Permuted(old(a[..]), a[..], lo, hi)
        decreases i
      {
        ghost var before := a[..];
        PopRoot(a, lo, nmemb, i, cmp);
        PermutedTrans(old(a[..]), before, a[..], lo, hi);
        i := i - 1;
      }
    }
  }

  method BuildHeap<T(!new)>(a: array<T>, lo: int, nmemb: int, cmp: (T, T) -> int)
    requires Preorder(cmp) && 0 <= lo && 1 < nmemb && lo + nmemb <= a.Length
    modifies a
    ensures HeapBut(cmp, a[lo..lo + nmemb], 0, nmemb, -1) && Permuted(old(a[..]), a[..], lo, lo + nmemb)
  {
    hide HeapBut, Bridged, Permuted, Preorder, Over;
    var hi, i := lo + nmemb, nmemb / 2;
    PermutedSelf(a[..], lo, hi);
    LeavesAreHeaps(cmp, a[lo..hi], nmemb);
    while i > 0
      invariant 0 <= i <= nmemb / 2 && HeapBut(cmp, a[lo..hi], i, nmemb, -1)
      invariant Permuted(old(a[..]), a[..], lo, hi)
      decreases i
    {
      i := i - 1;
      ghost var before := a[..];
      HeapDown(cmp, a[lo..hi], i, nmemb);
      SiftDown(a, lo, hi, i, i, nmemb, cmp);
      PermutedTrans(old(a[..]), before, a[..], lo, hi);
    }
  }

  lemma {:induction false} LeavesAreHeaps<T(!new)>(cmp: (T, T) -> int, s: seq<T>, n: int)
    requires 0 <= n == |s|
    ensures HeapBut(cmp, s, n / 2, n, -1)
  {
  }

  lemma {:induction false} HeapDown<T(!new)>(cmp: (T, T) -> int, s: seq<T>, i: int, n: int)
    requires 0 <= i < n <= |s| && HeapBut(cmp, s, i + 1, n, -1)
    ensures HeapBut(cmp, s, i, n, i) && Bridged(cmp, s, i, n, i)
  {
    hide Over;
  }

  /** The largest element goes behind the heap, which shrinks. */
  method PopRoot<T(!new)>(a: array<T>, lo: int, nmemb: int, i: int, cmp: (T, T) -> int)
    requires Preorder(cmp) && 0 <= lo && 0 < i < nmemb && lo + nmemb <= a.Length
    requires HeapBut(cmp, a[lo..lo + nmemb], 0, i + 1, -1) && Topped(cmp, a[lo..lo + nmemb], i + 1)
    modifies a
    ensures HeapBut(cmp, a[lo..lo + nmemb], 0, i, -1) && Topped(cmp, a[lo..lo + nmemb], i)
    ensures Permuted(old(a[..]), a[..], lo, lo + nmemb)
  {
    hide HeapBut, Bridged, Permuted, Preorder, Over, Topped, Swapped;
    var hi := lo + nmemb;
    ghost var s := a[lo..hi];
    TopGrows(cmp, s, i);
    Swap(a, lo, hi, lo, lo + i);
    ghost var mid := a[..];
    assert mid[lo..hi] == a[lo..hi];
    SiftDown(a, lo, hi, 0, 0, i, cmp);
    ToppedPermuted(cmp, mid, a[..], lo, hi, i);
    assert a[..][lo..hi] == a[lo..hi];
    PermutedWiden(mid, a[..], lo, lo + i, lo, hi);
    PermutedTrans(old(a[..]), mid, a[..], lo, hi);
  }
}
