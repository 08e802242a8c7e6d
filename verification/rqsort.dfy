/** rqsort: three-way quicksort with an explicit stack of 50 entries, insertion sort for short
    stretches and heapsort for deep ones. */
module RQSort {
  import opened Ordering
  import opened HeapSort

  // ---------- pivot ----------

  /** med3: one of the three positions, holding a median of the three elements. */
  method Med3<T(!new)>(a: array<T>, x: int, y: int, z: int, cmp: (T, T) -> int) returns (m: int)
    requires Preorder(cmp) && 0 <= x < a.Length && 0 <= y < a.Length && 0 <= z < a.Length
    ensures m == x || m == y || m == z
    ensures var lower := (if cmp(a[x], a[m]) <= 0 then 1 else 0) + (if cmp(a[y], a[m]) <= 0 then 1 else 0)
                         + (if cmp(a[z], a[m]) <= 0 then 1 else 0);
            var upper := (if cmp(a[x], a[m]) >= 0 then 1 else 0) + (if cmp(a[y], a[m]) >= 0 then 1 else 0)
                         + (if cmp(a[z], a[m]) >= 0 then 1 else 0);
            lower >= 2 && upper >= 2
  {
    hide Preorder;
    Flip(cmp, a[x], a[y]);
    Flip(cmp, a[y], a[z]);
    Flip(cmp, a[x], a[z]);
    Flip(cmp, a[x], a[x]);
    Flip(cmp, a[y], a[y]);
    Flip(cmp, a[z], a[z]);
    if cmp(a[x], a[y]) < 0 {
      m := if cmp(a[y], a[z]) < 0 then y else if cmp(a[x], a[z]) < 0 then z else x;
    } else {
      m := if cmp(a[y], a[z]) > 0 then y else if cmp(a[x], a[z]) < 0 then x else z;
    }
  }

  // ---------- insertion sort ----------

  /** s[..n + 1] is in order but for the element at p, which is at most those after it. */
  ghost predicate Sinking<T(!new)>(cmp: (T, T) -> int, s: seq<T>, n: int, p: int)
    requires 0 <= p <= n < |s|
  {
    && (forall x, y :: 0 <= x < y <= n && x != p && y != p ==> cmp(s[x], s[y]) <= 0)
    && (forall y :: p < y <= n ==> cmp(s[p], s[y]) <= 0)
  }

  lemma {:induction false} SinkStep<T(!new)>(cmp: (T, T) -> int, s: seq<T>, n: int, p: int)
    requires Preorder(cmp) && 0 < p <= n < |s| && Sinking(cmp, s, n, p) && cmp(s[p - 1], s[p]) > 0
    ensures Sinking(cmp, Swapped(s, p, p - 1), n, p - 1)
  {
    hide Preorder;
    Flip(cmp, s[p - 1], s[p]);
  }

  lemma {:induction false} SinkDone<T(!new)>(cmp: (T, T) -> int, s: seq<T>, n: int, p: int)
    requires Preorder(cmp) && 0 <= p <= n < |s| && Sinking(cmp, s, n, p)
    requires p > 0 ==> cmp(s[p - 1], s[p]) <= 0
    ensures Sorted(cmp, s[..n + 1])
  {
    hide Preorder;
    forall x, y | 0 <= x < y <= n ensures cmp(s[x], s[y]) <= 0 {
      if y == p && x < p - 1 { Chain(cmp, s[x], s[p - 1], s[p]); }
    }
  }

  /** Sinks the element at n into the ordered stretch before it. */
  method Insert<T(!new)>(a: array<T>, ptr: int, ghost hi: int, n: int, cmp: (T, T) -> int)
    requires Preorder(cmp) && 0 <= ptr <= hi <= a.Length && 0 < n < hi - ptr && Sorted(cmp, a[ptr..hi][..n])
    modifies a
    ensures Sorted(cmp, a[ptr..hi][..n + 1]) && Permuted(old(a[..]), a[..], ptr, hi)
  {
    hide Preorder, Permuted, Sinking;
    var pj := ptr + n;
    PermutedSelf(a[..], ptr, hi);
    SinkStart(cmp, a[ptr..hi], n);
    while pj > ptr && cmp(a[pj - 1], a[pj]) > 0
      invariant ptr <= pj <= ptr + n && Sinking(cmp, a[ptr..hi], n, pj - ptr)
      invariant Permuted(old(a[..]), a[..], ptr, hi)
      decreases pj
    {
      ghost var before := a[..];
      SinkOnce(a, ptr, hi, n, pj, cmp);
      PermutedTrans(old(a[..]), before, a[..], ptr, hi);
      pj := pj - 1;
    }
    SinkDone(cmp, a[ptr..hi], n, pj - ptr);
  }

  method SinkOnce<T(!new)>(a: array<T>, ptr: int, ghost hi: int, ghost n: int, pj: int, cmp: (T, T) -> int)
    requires Preorder(cmp) && 0 <= ptr < pj <= ptr + n < hi <= a.Length
    requires cmp(a[pj - 1], a[pj]) > 0 && Sinking(cmp, a[ptr..hi], n, pj - ptr)
    modifies a
    ensures Sinking(cmp, a[ptr..hi], n, pj - 1 - ptr) && Permuted(old(a[..]), a[..], ptr, hi)
  {
    hide Preorder, Permuted, Swapped, Sinking;
    SinkStep(cmp, a[ptr..hi], n, pj - ptr);
    Swap(a, ptr, hi, pj, pj - 1);
  }

  lemma {:induction false} SinkStart<T(!new)>(cmp: (T, T) -> int, s: seq<T>, n: int)
    requires 0 < n < |s| && Sorted(cmp, s[..n])
    ensures Sinking(cmp, s, n, n)
  {
    forall x, y | 0 <= x < y < n ensures cmp(s[x], s[y]) <= 0 {
      assert cmp(s[..n][x], s[..n][y]) <= 0;
    }
  }

  method InsertionSort<T(!new)>(a: array<T>, ptr: int, nmemb: int, cmp: (T, T) -> int)
    requires Preorder(cmp) && 0 <= ptr && 0 <= nmemb && ptr + nmemb <= a.Length
    modifies a
    ensures Sorted(cmp, a[ptr..ptr + nmemb]) && Permuted(old(a[..]), a[..], ptr, ptr + nmemb)
  {
    hide Preorder, Permuted, Sorted;
    var top := ptr + nmemb;
    var pi := ptr + 1;
    PermutedSelf(a[..], ptr, top);
    SortedShort(cmp, if nmemb > 0 then a[ptr..top][..1] else a[ptr..top]);
    while pi < top
      invariant ptr < pi && (pi <= top || nmemb == 0)
      invariant nmemb > 0 ==> Sorted(cmp, a[ptr..top][..pi - ptr])
      invariant Permuted(old(a[..]), a[..], ptr, top)
      decreases top - pi
    {
      ghost var before := a[..];
      Insert(a, ptr, top, pi - ptr, cmp);
      PermutedTrans(old(a[..]), before, a[..], ptr, top);
      pi := pi + 1;
    }
    assert nmemb > 0 ==> a[ptr..top][..nmemb] == a[ptr..top];
  }

  // ---------- partition ----------

  /** [p,lt) and [gt,top) equal the pivot v, [lt,i) is smaller and [j,gt) greater. */
  ghost predicate Zones<T(!new)>(cmp: (T, T) -> int, s: seq<T>, v: T, p: int, lt: int, i: int, j: int, gt: int, top: int) {
    && 0 <= p < lt <= i && j <= gt <= top <= |s| && i <= gt && 0 <= j
    && (forall k :: p <= k < lt ==> cmp(v, s[k]) == 0)
    && (forall k :: lt <= k < i ==> cmp(v, s[k]) > 0)
    && (forall k :: j <= k < gt ==> cmp(v, s[k]) < 0)
    && (forall k :: gt <= k < top ==> cmp(v, s[k]) == 0)
  }

  /** The scan from the left: smaller elements stay, equal ones go to the front. */
  method ScanLeft<T(!new)>(a: array<T>, p: int, lt0: int, i0: int, j: int, ghost gt: int, top: int, cmp: (T, T) -> int)
    returns (lt: int, i: int)
    requires 0 <= p < top <= a.Length && Zones(cmp, a[..], a[p], p, lt0, i0, j, gt, top) && i0 <= j
    modifies a
    ensures a[p] == old(a[p]) && Zones(cmp, a[..], a[p], p, lt, i, j, gt, top)
    ensures i0 <= i <= j && (i < j ==> cmp(a[p], a[i]) < 0) && Permuted(old(a[..]), a[..], p, top)
  {
    hide Permuted;
    lt, i := lt0, i0;
    PermutedSelf(a[..], p, top);
    while i < j && cmp(a[p], a[i]) >= 0
      invariant i0 <= i <= j && a[p] == old(a[p]) && Zones(cmp, a[..], a[p], p, lt, i, j, gt, top)
      invariant Permuted(old(a[..]), a[..], p, top)
      decreases j - i
    {
      if cmp(a[p], a[i]) == 0 {
        ghost var before := a[..];
        EqualToFront(cmp, before, a[p], p, lt, i, j, gt, top);
        Swap(a, p, top, lt, i);
        PermutedTrans(old(a[..]), before, a[..], p, top);
        lt := lt + 1;
      }
      i := i + 1;
    }
  }

  lemma {:induction false} EqualToFront<T(!new)>(cmp: (T, T) -> int, s: seq<T>, v: T, p: int, lt: int, i: int, j: int, gt: int, top: int)
    requires Zones(cmp, s, v, p, lt, i, j, gt, top) && i < j && cmp(v, s[i]) == 0
    ensures Zones(cmp, Swapped(s, lt, i), v, p, lt + 1, i + 1, j, gt, top)
  {
  }

  /** The scan from the right, which looks at the element before j first. */
  method ScanRight<T(!new)>(a: array<T>, p: int, ghost lt: int, i: int, j0: int, gt0: int, top: int, cmp: (T, T) -> int)
    returns (j: int, gt: int)
    requires 0 <= p < top <= a.Length && Zones(cmp, a[..], a[p], p, lt, i, j0, gt0, top) && i <= j0
    modifies a
    ensures a[p] == old(a[p]) && Zones(cmp, a[..], a[p], p, lt, i, j + 1, gt, top)
    ensures i - 1 <= j < j0 && (i < j ==> cmp(a[p], a[j]) > 0) && Permuted(old(a[..]), a[..], p, top)
    ensures i < top ==> a[i] == old(a[i])
  {
    hide Permuted, Zones, Swapped;
    j, gt := j0 - 1, gt0;
    ZoneBounds(cmp, a[..], a[p], p, lt, i, j0, gt0, top);
    PermutedSelf(a[..], p, top);
    while i < j && cmp(a[p], a[j]) <= 0
      invariant i - 1 <= j < j0 && a[p] == old(a[p]) && Zones(cmp, a[..], a[p], p, lt, i, j + 1, gt, top)
      invariant i < top ==> a[i] == old(a[i])
      invariant Permuted(old(a[..]), a[..], p, top)
      decreases j
    {
      if cmp(a[p], a[j]) == 0 {
        ghost var before := a[..];
        EqualToBack(cmp, before, a[p], p, lt, i, j, gt, top);
        gt := gt - 1;
        Swap(a, p, top, gt, j);
        PermutedTrans(old(a[..]), before, a[..], p, top);
        assert a[..][p] == before[p] && a[..][i] == before[i];
      } else {
        GreaterStays(cmp, a[..], a[p], p, lt, i, j, gt, top);
      }
      j := j - 1;
    }
  }

  lemma {:induction false} EqualToBack<T(!new)>(cmp: (T, T) -> int, s: seq<T>, v: T, p: int, lt: int, i: int, j: int, gt: int, top: int)
    requires Zones(cmp, s, v, p, lt, i, j + 1, gt, top) && i < j && cmp(v, s[j]) == 0
    ensures 0 <= p < lt <= i < j < gt <= top <= |s|
    ensures Zones(cmp, Swapped(s, gt - 1, j), v, p, lt, i, j, gt - 1, top)
    ensures Swapped(s, gt - 1, j)[p] == s[p] && Swapped(s, gt - 1, j)[i] == s[i]
  {
  }

  lemma {:induction false} ZoneBounds<T(!new)>(cmp: (T, T) -> int, s: seq<T>, v: T, p: int, lt: int, i: int, j: int, gt: int, top: int)
    requires Zones(cmp, s, v, p, lt, i, j, gt, top)
    ensures 0 <= p < lt <= i && j <= gt <= top <= |s| && i <= gt && 0 <= j
  {
  }

  lemma {:induction false} GreaterStays<T(!new)>(cmp: (T, T) -> int, s: seq<T>, v: T, p: int, lt: int, i: int, j: int, gt: int, top: int)
    requires Zones(cmp, s, v, p, lt, i, j + 1, gt, top) && i < j && cmp(v, s[j]) < 0
    ensures Zones(cmp, s, v, p, lt, i, j, gt, top)
  {
  }

  lemma {:induction false} Exchange<T(!new)>(cmp: (T, T) -> int, s: seq<T>, v: T, p: int, lt: int, i: int, j: int, gt: int, top: int)
    requires Zones(cmp, s, v, p, lt, i, j + 1, gt, top) && i < j && cmp(v, s[i]) < 0 && cmp(v, s[j]) > 0
    ensures Zones(cmp, Swapped(s, i, j), v, p, lt, i + 1, j, gt, top)
  {
  }

  lemma {:induction false} Meet<T(!new)>(cmp: (T, T) -> int, s: seq<T>, v: T, p: int, lt: int, i: int, j: int, gt: int, top: int)
    requires Zones(cmp, s, v, p, lt, i, j, gt, top) && (j == i || (j == i + 1 && cmp(v, s[i]) < 0))
    ensures Zones(cmp, s, v, p, lt, i, i, gt, top)
  {
  }

  /** The two scans in turn, until they meet at i. */
  method Scan<T(!new)>(a: array<T>, p: int, top: int, cmp: (T, T) -> int) returns (lt: int, i: int, gt: int)
    requires Preorder(cmp) && 0 <= p < top <= a.Length
    modifies a
    ensures a[p] == old(a[p]) && Zones(cmp, a[..], a[p], p, lt, i, i, gt, top) && Permuted(old(a[..]), a[..], p, top)
  {
    hide Permuted, Preorder;
    Flip(cmp, a[p], a[p]);
    lt, i, gt := p + 1, p + 1, top;
    var j := top;
    PermutedSelf(a[..], p, top);
    while true
      invariant i <= j && a[p] == old(a[p]) && Zones(cmp, a[..], a[p], p, lt, i, j, gt, top)
      invariant Permuted(old(a[..]), a[..], p, top)
      decreases j
    {
      ghost var s0 := a[..];
      lt, i := ScanLeft(a, p, lt, i, j, gt, top, cmp);
      ghost var s1, i1, j1 := a[..], i, j;
      PermutedTrans(old(a[..]), s0, s1, p, top);
      j, gt := ScanRight(a, p, lt, i, j, gt, top, cmp);
      PermutedTrans(old(a[..]), s1, a[..], p, top);
      if i >= j {
        Meet(cmp, a[..], a[p], p, lt, i, j + 1, gt, top);
        return;
      }
      ghost var s2 := a[..];
      Exchange(cmp, s2, a[p], p, lt, i, j, gt, top);
      Swap(a, p, top, i, j);
      PermutedTrans(old(a[..]), s2, a[..], p, top);
      i := i + 1;
    }
  }

  // ---------- moving the equal elements to the middle ----------

  function BlockSwapped<T>(s: seq<T>, x: int, y: int, k: int): (r: seq<T>)
    requires 0 <= k && 0 <= x && x + k <= y && y + k <= |s|
    ensures |r| == |s|
  {
    seq(|s|, t requires 0 <= t < |s| =>
      if x <= t < x + k then s[t - x + y] else if y <= t < y + k then s[t - y + x] else s[t])
  }

  method SwapBlock<T(!new)>(a: array<T>, ghost lo: int, ghost hi: int, x: int, y: int, k: int)
    requires 0 <= k && 0 <= lo <= x && x + k <= y && y + k <= hi <= a.Length
    modifies a
    ensures a[..] == BlockSwapped(old(a[..]), x, y, k) && Permuted(old(a[..]), a[..], lo, hi)
  {
    hide Permuted, Swapped, BlockSwapped;
    var n := 0;
    PermutedSelf(a[..], lo, hi);
    BlockNone(a[..], x, y);
    while n < k
      invariant 0 <= n <= k && a[..] == BlockSwapped(old(a[..]), x, y, n) && Permuted(old(a[..]), a[..], lo, hi)
    {
      ghost var before := a[..];
      Swap(a, lo, hi, x + n, y + n);
      PermutedTrans(old(a[..]), before, a[..], lo, hi);
      BlockGrows(old(a[..]), x, y, n, k);
      n := n + 1;
    }
  }

  lemma {:induction false} BlockNone<T>(s: seq<T>, x: int, y: int)
    requires 0 <= x <= y <= |s|
    ensures BlockSwapped(s, x, y, 0) == s
  {
  }

  lemma {:induction false} BlockGrows<T>(s: seq<T>, x: int, y: int, n: int, k: int)
    requires 0 <= n < k && 0 <= x && x + k <= y && y + k <= |s|
    ensures Swapped(BlockSwapped(s, x, y, n), x + n, y + n) == BlockSwapped(s, x, y, n + 1)
  {
  }

  /** Smaller, then equal, then greater than the pivot. */
  ghost predicate Parts<T(!new)>(cmp: (T, T) -> int, s: seq<T>, v: T, p: int, lt: int, gt: int, top: int) {
    && 0 <= p <= lt <= gt <= top <= |s|
    && (forall k :: p <= k < lt ==> cmp(v, s[k]) > 0)
    && (forall k :: lt <= k < gt ==> cmp(v, s[k]) == 0)
    && (forall k :: gt <= k < top ==> cmp(v, s[k]) < 0)
  }

  function Min(x: int, y: int): int {
    if x > y then y else x
  }

  /** Two adjacent blocks change places when the shorter is swapped with the far end of the longer. */
  lemma {:induction false} LeftBlocks<T(!new)>(cmp: (T, T) -> int, s: seq<T>, v: T, p: int, lt: int, i: int, gt: int, top: int)
    requires Zones(cmp, s, v, p, lt, i, i, gt, top)
    ensures var span := Min(lt - p, i - lt);
            var t := BlockSwapped(s, p, i - span, span);
            && (forall k :: p <= k < p + (i - lt) ==> cmp(v, t[k]) > 0)
            && (forall k :: p + (i - lt) <= k < i ==> cmp(v, t[k]) == 0)
            && (forall k :: i <= k < |s| ==> t[k] == s[k])
  {
  }

  lemma {:induction false} RightBlocks<T(!new)>(cmp: (T, T) -> int, s: seq<T>, v: T, i: int, gt: int, top: int)
    requires 0 <= i <= gt <= top <= |s|
    requires (forall k :: i <= k < gt ==> cmp(v, s[k]) < 0) && (forall k :: gt <= k < top ==> cmp(v, s[k]) == 0)
    ensures var span := Min(top - gt, gt - i);
            var t := BlockSwapped(s, i, top - span, span);
            && (forall k :: i <= k < top - (gt - i) ==> cmp(v, t[k]) == 0)
            && (forall k :: top - (gt - i) <= k < top ==> cmp(v, t[k]) < 0)
            && (forall k :: 0 <= k < i ==> t[k] == s[k])
  {
  }

  /** Brings the equal elements from both ends to the middle. */
  method Gather<T(!new)>(a: array<T>, ptr: int, plt: int, pi: int, pgt: int, top: int, ghost v: T, ghost cmp: (T, T) -> int)
    requires top <= a.Length && Zones(cmp, a[..], v, ptr, plt, pi, pi, pgt, top)
    modifies a
    ensures Parts(cmp, a[..], v, ptr, ptr + (pi - plt), top - (pgt - pi), top) && Permuted(old(a[..]), a[..], ptr, top)
  {
    hide Permuted, BlockSwapped;
    ghost var s1 := a[..];
    var span := Min(plt - ptr, pi - plt);
    LeftBlocks(cmp, s1, v, ptr, plt, pi, pgt, top);
    SwapBlock(a, ptr, top, ptr, pi - span, span);
    ghost var s2 := a[..];
    var span2 := Min(top - pgt, pgt - pi);
    RightBlocks(cmp, s2, v, pi, pgt, top);
    SwapBlock(a, ptr, top, pi, top - span2, span2);
    PermutedTrans(s1, s2, a[..], ptr, top);
  }

  /** One partition around a median of three; the bounds of the middle part. */
  method Partition<T(!new)>(a: array<T>, ptr: int, nmemb: int, cmp: (T, T) -> int) returns (lt: int, gt: int, ghost v: T)
    requires Preorder(cmp) && 0 <= ptr && 6 < nmemb && ptr + nmemb <= a.Length
    modifies a
    ensures Parts(cmp, a[..], v, ptr, ptr + lt, ptr + gt, ptr + nmemb) && lt < gt
    ensures Permuted(old(a[..]), a[..], ptr, ptr + nmemb)
  {
    hide Permuted, Preorder, Swapped, Parts;
    var top, m4 := ptr + nmemb, nmemb / 4;
    var m := Med3(a, ptr + m4, ptr + 2 * m4, ptr + 3 * m4, cmp);
    Swap(a, ptr, top, ptr, m);
    ghost var s0 := a[..];
    v := a[ptr];
    var plt, pi, pgt := Scan(a, ptr, top, cmp);
    ghost var s1 := a[..];
    PermutedTrans(old(a[..]), s0, s1, ptr, top);
    assert plt > ptr by { hide Preorder; }
    Gather(a, ptr, plt, pi, pgt, top, v, cmp);
    PermutedTrans(old(a[..]), s1, a[..], ptr, top);
    lt, gt := pi - plt, nmemb - (pgt - pi);
  }

  // ---------- the stack of stretches still to be sorted ----------

  datatype Frame = Frame(base: int, count: int, depth: int)

  predicate Inside(f: Frame, i: int) {
    f.base <= i < f.base + f.count
  }

  /** No pending stretch holds both i and j. */
  ghost predicate Apart(fs: seq<Frame>, i: int, j: int) {
    forall f <- fs :: !(Inside(f, i) && Inside(f, j))
  }

  /** In order, but for pairs inside one pending stretch. */
  ghost predicate Ordered<T(!new)>(cmp: (T, T) -> int, s: seq<T>, fs: seq<Frame>) {
    forall i, j :: 0 <= i < j < |s| && Apart(fs, i, j) ==> cmp(s[i], s[j]) <= 0
  }

  ghost predicate Bounded(fs: seq<Frame>, n: int) {
    forall f <- fs :: 0 <= f.base && 0 <= f.count && f.base + f.count <= n
  }

  /** At most one pending stretch holds i. */
  ghost predicate Disjoint(fs: seq<Frame>) {
    forall k, m, i :: 0 <= k < m < |fs| ==> !(Inside(fs[k], i) && Inside(fs[m], i))
  }

  lemma {:induction false} NotInBoth(rest: seq<Frame>, f: Frame, k: int, i: int)
    requires Disjoint(rest + [f]) && 0 <= k < |rest| && Inside(f, i)
    ensures !Inside(rest[k], i)
  {
    hide Inside;
    assert (rest + [f])[k] == rest[k] && (rest + [f])[|rest|] == f;
  }

  /** Where two elements were before a permutation inside the last stretch. */
  lemma {:induction false} ApartBefore(rest: seq<Frame>, f: Frame, i: int, j: int, i': int, j': int)
    requires Disjoint(rest + [f]) && Apart(rest + [f], i, j) && i < j
    requires if Inside(f, i) then Inside(f, i') else i' == i
    requires if Inside(f, j) then Inside(f, j') else j' == j
    ensures i' < j' && Apart(rest + [f], i', j')
  {
    hide Disjoint;
    var fs := rest + [f];
    assert f in fs;
    forall g <- fs ensures !(Inside(g, i') && Inside(g, j')) {
      var k :| 0 <= k < |fs| && fs[k] == g;
      if k < |rest| {
        if Inside(f, i) { NotInBoth(rest, f, k, i'); }
        if Inside(f, j) { NotInBoth(rest, f, k, j'); }
      }
    }
  }

  /** Permuting inside the last stretch. */
  lemma {:induction false} OrderedPermuted<T(!new)>(cmp: (T, T) -> int, s: seq<T>, t: seq<T>, rest: seq<Frame>, f: Frame)
    requires Disjoint(rest + [f]) && Ordered(cmp, s, rest + [f])
    requires Permuted(s, t, f.base, f.base + f.count)
    ensures Ordered(cmp, t, rest + [f])
  {
    hide Disjoint, Apart;
    forall i, j | 0 <= i < j < |t| && Apart(rest + [f], i, j) ensures cmp(t[i], t[j]) <= 0 {
      var i' := PermutedAt(s, t, f.base, f.base + f.count, i);
      var j' := PermutedAt(s, t, f.base, f.base + f.count, j);
      ApartBefore(rest, f, i, j, i', j');
    }
  }

  /** Replacing the last stretch by the two outer parts of its partition. */
  lemma {:induction false} OrderedSplit<T(!new)>(cmp: (T, T) -> int, s: seq<T>, v: T, rest: seq<Frame>, f: Frame, g: Frame, h: Frame,
                              lt: int, gt: int)
    requires Preorder(cmp) && Ordered(cmp, s, rest + [f])
    requires Parts(cmp, s, v, f.base, lt, gt, f.base + f.count)
    requires (g.base == f.base && g.count == lt - f.base && h.base == gt && h.count == f.base + f.count - gt)
          || (h.base == f.base && h.count == lt - f.base && g.base == gt && g.count == f.base + f.count - gt)
    ensures Ordered(cmp, s, rest + [g] + [h])
  {
    hide Preorder;
    forall i, j | 0 <= i < j < |s| && Apart(rest + [g] + [h], i, j) ensures cmp(s[i], s[j]) <= 0 {
      assert g in rest + [g] + [h] && h in rest + [g] + [h];
      if Inside(f, i) && Inside(f, j) {
        Flip(cmp, v, s[i]);
        Flip(cmp, v, s[j]);
        Chain(cmp, s[i], v, s[j]);
      } else {
        ApartJoined(rest, f, g, h, i, j);
      }
    }
  }

  lemma {:induction false} ApartJoined(rest: seq<Frame>, f: Frame, g: Frame, h: Frame, i: int, j: int)
    requires Apart(rest + [g] + [h], i, j) && !(Inside(f, i) && Inside(f, j))
    ensures Apart(rest + [f], i, j)
  {
    forall e <- rest + [f] ensures !(Inside(e, i) && Inside(e, j)) {
      if e in rest { assert e in rest + [g] + [h]; }
    }
  }

  /** Dropping the last stretch once it is sorted. */
  lemma {:induction false} OrderedDone<T(!new)>(cmp: (T, T) -> int, s: seq<T>, rest: seq<Frame>, f: Frame)
    requires 0 <= f.base && 0 <= f.count && f.base + f.count <= |s|
    requires Ordered(cmp, s, rest + [f]) && Sorted(cmp, s[f.base..f.base + f.count])
    ensures Ordered(cmp, s, rest)
  {
    forall i, j | 0 <= i < j < |s| && Apart(rest, i, j) ensures cmp(s[i], s[j]) <= 0 {
      if Inside(f, i) && Inside(f, j) {
        SortedWithin(cmp, s, f, i, j);
      } else {
      }
    }
  }

  lemma {:induction false} SortedWithin<T(!new)>(cmp: (T, T) -> int, s: seq<T>, f: Frame, i: int, j: int)
    requires 0 <= f.base && 0 <= f.count && f.base + f.count <= |s| && Sorted(cmp, s[f.base..f.base + f.count])
    requires Inside(f, i) && Inside(f, j) && i < j
    ensures cmp(s[i], s[j]) <= 0
  {
    var t := s[f.base..f.base + f.count];
    assert t[i - f.base] == s[i] && t[j - f.base] == s[j];
    assert cmp(t[i - f.base], t[j - f.base]) <= 0;
  }

  lemma {:induction false} OrderedAll<T(!new)>(cmp: (T, T) -> int, s: seq<T>)
    ensures Ordered(cmp, s, [Frame(0, |s|, 0)])
    ensures Ordered(cmp, s, []) ==> Sorted(cmp, s)
  {
    assert Frame(0, |s|, 0) in [Frame(0, |s|, 0)];
    if Ordered(cmp, s, []) {
      forall i, j | 0 <= i < j < |s| ensures cmp(s[i], s[j]) <= 0 {
        assert Apart([], i, j);
      }
    }
  }

  /** Parts of a stretch are as disjoint from the others as the stretch was, and from each other. */
  lemma {:induction false} DisjointSplit(rest: seq<Frame>, f: Frame, g: Frame, h: Frame)
    requires Disjoint(rest + [f])
    requires forall i :: Inside(g, i) || Inside(h, i) ==> Inside(f, i)
    requires forall i :: !(Inside(g, i) && Inside(h, i))
    ensures Disjoint(rest + [g] + [h])
  {
    var fs, gs := rest + [f], rest + [g] + [h];
    forall k, m, i | 0 <= k < m < |gs| ensures !(Inside(gs[k], i) && Inside(gs[m], i)) {
      if k < |rest| {
        assert gs[k] == fs[k];
        if m < |rest| { assert gs[m] == fs[m]; } else { assert fs[|rest|] == f; }
      }
    }
  }

  /** Depths along the stack increase strictly and stay within d. */
  ghost predicate Depths(fs: seq<Frame>, d: int) {
    && (forall k :: 0 <= k < |fs| ==> k < fs[k].depth <= d)
    && (forall k, m :: 0 <= k < m < |fs| ==> fs[k].depth < fs[m].depth)
  }

  function Weight(fs: seq<Frame>): int {
    if fs == [] then 0 else Weight(fs[..|fs| - 1]) + 2 * fs[|fs| - 1].count + 1
  }

  lemma {:induction false} WeightPositive(fs: seq<Frame>, n: int)
    requires Bounded(fs, n)
    ensures Weight(fs) >= 0
    decreases |fs|
  {
    if fs != [] {
      assert fs[|fs| - 1] in fs;
      WeightPositive(fs[..|fs| - 1], n);
    }
  }

  lemma {:induction false} WeightPush(rest: seq<Frame>, f: Frame)
    ensures Weight(rest + [f]) == Weight(rest) + 2 * f.count + 1
  {
    assert (rest + [f])[..|rest|] == rest;
  }

  /** The pending stretches cover everything that may be out of order. */
  ghost predicate Pending<T(!new)>(cmp: (T, T) -> int, s: seq<T>, fs: seq<Frame>) {
    Bounded(fs, |s|) && Disjoint(fs) && Ordered(cmp, s, fs)
  }

  /** One partition step on sequences: from the pending [f] to its two outer parts. */
  lemma {:induction false} PendingSplit<T(!new)>(cmp: (T, T) -> int, s: seq<T>, t: seq<T>, v: T, rest: seq<Frame>, f: Frame,
                              g: Frame, h: Frame, lt: int, gt: int)
    requires Preorder(cmp) && Pending(cmp, s, rest + [f]) && Permuted(s, t, f.base, f.base + f.count)
    requires Parts(cmp, t, v, f.base, lt, gt, f.base + f.count) && lt < gt
    requires (g.base == f.base && g.count == lt - f.base && h.base == gt && h.count == f.base + f.count - gt)
          || (h.base == f.base && h.count == lt - f.base && g.base == gt && g.count == f.base + f.count - gt)
    ensures Pending(cmp, t, rest + [g] + [h])
  {
    hide Preorder, Disjoint, Ordered, Permuted;
    assert f in rest + [f] && |t| == |s| by { PermutedLength(s, t, f.base, f.base + f.count); }
    OrderedPermuted(cmp, s, t, rest, f);
    OrderedSplit(cmp, t, v, rest, f, g, h, lt, gt);
    DisjointSplit(rest, f, g, h);
    forall e <- rest + [g] + [h] ensures 0 <= e.base && 0 <= e.count && e.base + e.count <= |t| {
      if e in rest { assert e in rest + [f]; }
    }
  }

  lemma {:induction false} PermutedLength<T(!new)>(s: seq<T>, t: seq<T>, lo: int, hi: int)
    requires Permuted(s, t, lo, hi)
    ensures |s| == |t|
  {
  }

  /** The last stretch, sorted, is no longer pending. */
  lemma {:induction false} PendingDone<T(!new)>(cmp: (T, T) -> int, s: seq<T>, t: seq<T>, rest: seq<Frame>, f: Frame)
    requires Pending(cmp, s, rest + [f]) && Permuted(s, t, f.base, f.base + f.count)
    requires f.base + f.count <= |t| && 0 <= f.base && 0 <= f.count && Sorted(cmp, t[f.base..f.base + f.count])
    ensures Pending(cmp, t, rest)
  {
    hide Ordered, Permuted, Inside;
    PermutedLength(s, t, f.base, f.base + f.count);
    OrderedPermuted(cmp, s, t, rest, f);
    OrderedDone(cmp, t, rest, f);
    forall e <- rest ensures e in rest + [f] {
    }
    forall k, m, i | 0 <= k < m < |rest| ensures !(Inside(rest[k], i) && Inside(rest[m], i)) {
      assert (rest + [f])[k] == rest[k] && (rest + [f])[m] == rest[m];
    }
  }

  /** An empty stretch can always be added. */
  lemma {:induction false} PendingEmpty<T(!new)>(cmp: (T, T) -> int, s: seq<T>, rest: seq<Frame>, f: Frame)
    requires Pending(cmp, s, rest) && f.count == 0 && 0 <= f.base <= |s|
    ensures Pending(cmp, s, rest + [f])
  {
    var fs := rest + [f];
    forall i, j | 0 <= i < j < |s| && Apart(fs, i, j) ensures cmp(s[i], s[j]) <= 0 {
      forall e <- rest ensures !(Inside(e, i) && Inside(e, j)) {
        assert e in fs;
      }
      assert Apart(rest, i, j);
    }
    forall k, m, i | 0 <= k < m < |fs| ensures !(Inside(fs[k], i) && Inside(fs[m], i)) {
      if m < |rest| { assert fs[k] == rest[k] && fs[m] == rest[m]; }
    }
  }

  const STACK_ENTRIES := 50

  /** Strictly increasing depths leave room on the stack. */
  lemma {:induction false} DepthsShort(fs: seq<Frame>, d: int)
    requires Depths(fs, d) && 0 <= d
    ensures |fs| <= d
  {
    if fs != [] { assert |fs| - 1 < fs[|fs| - 1].depth; }
  }

  lemma {:induction false} DepthsPush(fs: seq<Frame>, f: Frame, d: int)
    requires Depths(fs, d - 1) && f.depth == d && 0 < d
    ensures Depths(fs + [f], d)
  {
    DepthsShort(fs, d - 1);
  }

  lemma {:induction false} DepthsPop(fs: seq<Frame>, d: int)
    requires fs != [] && Depths(fs, d)
    ensures Depths(fs[..|fs| - 1], fs[|fs| - 1].depth - 1) && 0 < fs[|fs| - 1].depth <= d
  {
  }

  /** One turn of the inner loop: partitions the current stretch, stacks the larger part, and goes
      on with the smaller one. */
  method NarrowOnce<T(!new)>(a: array<T>, stack: array<Frame>, sp: int, ptr0: int, nmemb0: int, depth: int, cmp: (T, T) -> int)
    returns (ptr: int, nmemb: int)
    requires Preorder(cmp) && stack.Length == STACK_ENTRIES && (a as object) != (stack as object)
    requires 0 <= sp <= STACK_ENTRIES && nmemb0 > 6 && 0 < depth <= 50 && Depths(stack[..sp], depth - 1)
    requires Pending(cmp, a[..], stack[..sp] + [Frame(ptr0, nmemb0, 0)])
    modifies a, stack
    ensures sp < STACK_ENTRIES && Depths(stack[..sp + 1], depth) && stack[..sp] == old(stack[..sp])
    ensures Pending(cmp, a[..], stack[..sp + 1] + [Frame(ptr, nmemb, 0)])
    ensures 0 <= nmemb && 0 <= stack[sp].count && nmemb + stack[sp].count < nmemb0
    ensures Permuted(old(a[..]), a[..], ptr0, ptr0 + nmemb0)
  {
    hide Preorder, Pending, Permuted, Parts, Depths;
    ghost var rest, f, before := stack[..sp], Frame(ptr0, nmemb0, 0), a[..];
    DepthsShort(rest, depth - 1);
    PendingBounds(cmp, before, rest, f);
    var lt, gt;
    ghost var v;
    lt, gt, v := Partition(a, ptr0, nmemb0, cmp);
    PartsBounds(cmp, a[..], v, ptr0, ptr0 + lt, ptr0 + gt, ptr0 + nmemb0);
    if lt > nmemb0 - gt {
      stack[sp] := Frame(ptr0, lt, depth);
      ptr, nmemb := ptr0 + gt, nmemb0 - gt;
    } else {
      stack[sp] := Frame(ptr0 + gt, nmemb0 - gt, depth);
      ptr, nmemb := ptr0, lt;
    }
    assert stack[..sp + 1] == rest + [stack[sp]];
    DepthsPush(rest, stack[sp], depth);
    PendingSplit(cmp, before, a[..], v, rest, f, stack[sp], Frame(ptr, nmemb, 0), ptr0 + lt, ptr0 + gt);
  }

  lemma {:induction false} PendingBounds<T(!new)>(cmp: (T, T) -> int, s: seq<T>, rest: seq<Frame>, f: Frame)
    requires Pending(cmp, s, rest + [f])
    ensures 0 <= f.base && 0 <= f.count && f.base + f.count <= |s|
    ensures Bounded(rest, |s|)
  {
    hide Disjoint, Ordered;
    assert f in rest + [f];
    forall e <- rest ensures e in rest + [f] {
    }
  }

  lemma {:induction false} PartsBounds<T(!new)>(cmp: (T, T) -> int, s: seq<T>, v: T, p: int, lt: int, gt: int, top: int)
    requires Parts(cmp, s, v, p, lt, gt, top)
    ensures 0 <= p <= lt <= gt <= top <= |s|
  {
  }

  /** The inner loop: partitions until the current stretch is short, or is sorted by the fallback. */
  method Narrow<T(!new)>(a: array<T>, stack: array<Frame>, sp0: int, ptr0: int, nmemb0: int, depth0: int, cmp: (T, T) -> int)
    returns (sp: int, ptr: int, nmemb: int)
    requires Preorder(cmp) && stack.Length == STACK_ENTRIES && (a as object) != (stack as object)
    requires 0 <= sp0 <= STACK_ENTRIES && 0 <= depth0 <= 50 && Depths(stack[..sp0], depth0)
    requires Pending(cmp, a[..], stack[..sp0] + [Frame(ptr0, nmemb0, 0)])
    modifies a, stack
    ensures 0 <= sp <= STACK_ENTRIES && Depths(stack[..sp], 50)
    ensures Pending(cmp, a[..], stack[..sp] + [Frame(ptr, nmemb, 0)])
    ensures Weight(stack[..sp]) + 2 * nmemb <= Weight(old(stack[..sp0])) + 2 * nmemb0
    ensures Permuted(old(a[..]), a[..], 0, a.Length)
  {
    hide Preorder, Pending, Permuted, Depths, Weight, Bounded;
    sp, ptr, nmemb := sp0, ptr0, nmemb0;
    var depth := depth0;
    PermutedSelf(a[..], 0, a.Length);
    DepthsUpTo50(stack[..sp], depth);
    while nmemb > 6
      invariant 0 <= sp <= STACK_ENTRIES && 0 <= depth <= 50 && Depths(stack[..sp], depth)
      invariant Pending(cmp, a[..], stack[..sp] + [Frame(ptr, nmemb, 0)])
      invariant Weight(stack[..sp]) + 2 * nmemb <= Weight(old(stack[..sp0])) + 2 * nmemb0
      invariant Permuted(old(a[..]), a[..], 0, a.Length)
      invariant Depths(stack[..sp], 50)
      decreases nmemb
    {
      ghost var before, rest := a[..], stack[..sp];
      PendingBounds(cmp, before, rest, Frame(ptr, nmemb, 0));
      ghost var end := ptr + nmemb;
      depth := depth + 1;
      if depth > 50 {
        HeapSortX(a, ptr, nmemb, cmp);
        PendingDone(cmp, before, a[..], rest, Frame(ptr, nmemb, 0));
        PendingEmpty(cmp, a[..], rest, Frame(ptr, 0, 0));
        Step(old(a[..]), before, a[..], ptr, end);
        nmemb := 0;
        return;
      }
      ghost var ptr1 := ptr;
      ptr, nmemb := NarrowOnce(a, stack, sp, ptr, nmemb, depth, cmp);
      assert stack[..sp + 1] == rest + [stack[sp]];
      WeightPush(rest, stack[sp]);
      Step(old(a[..]), before, a[..], ptr1, end);
      sp := sp + 1;
      DepthsUpTo50(stack[..sp], depth);
    }
  }

  lemma {:induction false} DepthsUpTo50(fs: seq<Frame>, d: int)
    requires Depths(fs, d) && d <= 50
    ensures Depths(fs, 50)
  {
  }

  lemma {:induction false} Step<T(!new)>(s: seq<T>, t: seq<T>, u: seq<T>, lo: int, hi: int)
    requires Permuted(s, t, 0, |s|) && Permuted(t, u, lo, hi)
    ensures Permuted(s, u, 0, |s|)
  {
    PermutedWiden(t, u, lo, hi, 0, |t|);
    PermutedTrans(s, t, u, 0, |s|);
  }

  /** For any total preorder the array ends up sorted and a permutation of what it was; the stack
      never needs more than its 50 entries. */
  method RqSort<T(!new)>(a: array<T>, cmp: (T, T) -> int)
    requires Preorder(cmp)
    modifies a
    ensures Sorted(cmp, a[..]) && multiset(a[..]) == multiset(old(a[..]))
  {
    hide Preorder, Pending, Permuted, Depths, Weight, Sorted, Bounded;
    var n := a.Length;
    if n < 2 {
      assert Sorted(cmp, a[..]) by { SortedShort(cmp, a[..]); }
      return;
    }
    var stack := new Frame[STACK_ENTRIES](_ => Frame(0, 0, 0));
    stack[0] := Frame(0, n, 0);
    var sp := 1;
    assert stack[..sp] == [Frame(0, n, 0)];
    PendingStart(cmp, a[..]);
    PermutedSelf(a[..], 0, n);
    while sp > 0
      invariant 0 <= sp <= STACK_ENTRIES && Pending(cmp, a[..], stack[..sp]) && Permuted(old(a[..]), a[..], 0, n)
      invariant Depths(stack[..sp], 50) || (sp == 1 && stack[0].depth == 0)
      decreases Weight(stack[..sp])
    {
      ghost var before := a[..];
      sp := SortFrame(a, stack, sp, cmp);
      Step(old(a[..]), before, a[..], 0, n);
    }
    Finished(cmp, old(a[..]), a[..]);
  }

  /** The frame on top: partitioned until it is short, then sorted by insertion. */
  method SortFrame<T(!new)>(a: array<T>, stack: array<Frame>, sp0: int, cmp: (T, T) -> int) returns (sp: int)
    requires Preorder(cmp) && stack.Length == STACK_ENTRIES && (a as object) != (stack as object)
    requires 0 < sp0 <= STACK_ENTRIES && Pending(cmp, a[..], stack[..sp0])
    requires Depths(stack[..sp0], 50) || (sp0 == 1 && stack[0].depth == 0)
    modifies a, stack
    ensures 0 <= sp <= STACK_ENTRIES && Pending(cmp, a[..], stack[..sp]) && Depths(stack[..sp], 50)
    ensures Permuted(old(a[..]), a[..], 0, a.Length) && 0 <= Weight(stack[..sp]) < Weight(old(stack[..sp0]))
  {
    hide Preorder, Pending, Permuted, Depths, Weight, Sorted, Bounded;
    sp := sp0 - 1;
    var frame := stack[sp];
    ghost var rest := stack[..sp];
    assert stack[..sp0] == rest + [frame];
    Popped(cmp, a[..], rest, frame);
    var ptr, nmemb;
    sp, ptr, nmemb := Narrow(a, stack, sp, frame.base, frame.count, frame.depth, cmp);
    ghost var s1, f := a[..], Frame(ptr, nmemb, 0);
    PendingBounds(cmp, s1, stack[..sp], f);
    InsertionSort(a, ptr, nmemb, cmp);
    assert a[..][ptr..ptr + nmemb] == a[ptr..ptr + nmemb];
    PendingDone(cmp, s1, a[..], stack[..sp], f);
    Step(old(a[..]), s1, a[..], ptr, ptr + nmemb);
    WeightPositive(stack[..sp], a.Length);
  }

  lemma {:induction false} SortedShort<T(!new)>(cmp: (T, T) -> int, s: seq<T>)
    requires |s| < 2
    ensures Sorted(cmp, s)
  {
  }

  lemma {:induction false} PendingStart<T(!new)>(cmp: (T, T) -> int, s: seq<T>)
    ensures Pending(cmp, s, [Frame(0, |s|, 0)])
  {
    OrderedAll(cmp, s);
  }

  /** What is known when a frame has been taken off the stack. */
  lemma {:induction false} Popped<T(!new)>(cmp: (T, T) -> int, s: seq<T>, rest: seq<Frame>, f: Frame)
    requires Pending(cmp, s, rest + [f])
    requires Depths(rest + [f], 50) || (rest == [] && f.depth == 0)
    ensures 0 <= f.depth <= 50 && Depths(rest, f.depth)
    ensures Weight(rest + [f]) == Weight(rest) + 2 * f.count + 1
    ensures Pending(cmp, s, rest + [Frame(f.base, f.count, 0)])
  {
    hide Ordered, Disjoint;
    WeightPush(rest, f);
    assert (rest + [f])[..|rest|] == rest;
    if Depths(rest + [f], 50) { DepthsPop(rest + [f], 50); }
    Redepth(cmp, s, rest, f, Frame(f.base, f.count, 0));
  }

  lemma {:induction false} Redepth<T(!new)>(cmp: (T, T) -> int, s: seq<T>, rest: seq<Frame>, f: Frame, g: Frame)
    requires Pending(cmp, s, rest + [f]) && f.base == g.base && f.count == g.count
    ensures Pending(cmp, s, rest + [g])
  {
    var fs, gs := rest + [f], rest + [g];
    assert f in fs;
    forall e <- gs ensures 0 <= e.base && 0 <= e.count && e.base + e.count <= |s| {
      if e in rest { assert e in fs; }
    }
    forall i, j | 0 <= i < j < |s| && Apart(gs, i, j) ensures cmp(s[i], s[j]) <= 0 {
      assert g in gs;
      forall e <- fs ensures !(Inside(e, i) && Inside(e, j)) {
        if e in rest { assert e in gs; }
      }
      assert Apart(fs, i, j);
    }
    forall k, m, i | 0 <= k < m < |gs| ensures !(Inside(gs[k], i) && Inside(gs[m], i)) {
      assert fs[k] == gs[k];
      assert !(Inside(fs[k], i) && Inside(fs[m], i));
    }
  }

  lemma {:induction false} Finished<T(!new)>(cmp: (T, T) -> int, s: seq<T>, t: seq<T>)
    requires Pending(cmp, t, []) && Permuted(s, t, 0, |s|)
    ensures Sorted(cmp, t) && multiset(t) == multiset(s)
  {
    hide Ordered;
    OrderedAll(cmp, t);
    PermutedWhole(s, t, 0, |s|);
  }
}
