/** Decomposition of code points, with the arithmetic of Hangul syllables written out. */
module Decompose {

  /**
   * What the tables say: combining classes, one step of decomposition (canonical or
   * compatibility, empty when there is none), and the composite of a pair, or 0.
   */
  datatype Ucd = Ucd(cc: int -> nat, decomp: (int, bool) -> seq<int>, pair: (int, int) -> int, rank: int -> nat)

  predicate JamoL(c: int) { 0x1100 <= c < 0x1100 + 19 }

  predicate JamoV(c: int) { 0x1161 <= c < 0x1161 + 21 }

  /** The trailing consonants and the code point below them, which is not one. */
  predicate JamoT(c: int) { 0x11a7 <= c < 0x11a7 + 28 }

  predicate Jamo(c: int) { JamoL(c) || JamoV(c) || JamoT(c) }

  predicate Syllable(c: int) { 0xac00 <= c < 0xd7a4 }

  /** A syllable without a trailing consonant. */
  predicate SyllableLV(c: int) { Syllable(c) && (c - 0xac00) % 28 == 0 }

  /** Decomposition ends; a canonical one serves for compatibility too; jamo have none. */
  ghost predicate Grounded(u: Ucd) {
    && (forall c, k, j :: 0 <= j < |u.decomp(c, k)| ==> u.rank(u.decomp(c, k)[j]) < u.rank(c))
    && (forall c :: u.decomp(c, false) != [] ==> u.decomp(c, true) == u.decomp(c, false))
    && (forall c, k :: Jamo(c) ==> u.decomp(c, k) == [])
  }

  /** One more than the highest rank in s. */
  function MaxRank(u: Ucd, s: seq<int>): nat {
    if s == [] then 0
    else if u.rank(s[0]) + 1 > MaxRank(u, s[1..]) then u.rank(s[0]) + 1
    else MaxRank(u, s[1..])
  }

  lemma {:induction false} MaxRankBelow(u: Ucd, s: seq<int>, bound: nat)
    requires forall j :: 0 <= j < |s| ==> u.rank(s[j]) < bound
    ensures MaxRank(u, s) <= bound
    decreases |s|
  {
    if s != [] { MaxRankBelow(u, s[1..], bound); }
  }

  lemma {:induction false} RankInside(u: Ucd, s: seq<int>, j: nat)
    requires j < |s|
    ensures u.rank(s[j]) < MaxRank(u, s)
    decreases |s|
  {
    if j > 0 { RankInside(u, s[1..], j - 1); }
  }

  lemma {:induction false} StepDown(u: Ucd, c: int, k: bool)
    requires Grounded(u)
    ensures MaxRank(u, u.decomp(c, k)) <= u.rank(c)
  {
    MaxRankBelow(u, u.decomp(c, k), u.rank(c));
  }

  /** The jamo of a syllable. */
  function HangulJamo(c: int): seq<int>
    requires Syllable(c)
  {
    var i := c - 0xac00;
    [0x1100 + i / 588, 0x1161 + i % 588 / 28] + if i % 28 == 0 then [] else [0x11a7 + i % 28]
  }

  /** The syllables are all combinations of a leading consonant, a vowel and perhaps a trailing consonant, in
      dictionary order. */
  lemma {:induction false} HangulOrder(c: int, d: int)
    requires Syllable(c) && Syllable(d) && c < d
    ensures var s, t := HangulJamo(c), HangulJamo(d);
            && JamoL(s[0]) && JamoV(s[1]) && (|s| == 2 || (|s| == 3 && JamoT(s[2]) && s[2] != 0x11a7))
            && (s[0] < t[0] || (s[0] == t[0] && (s[1] < t[1] || (s[1] == t[1] && |t| == 3 && (|s| == 2 || s[2] < t[2])))))
  {
    var i, j := c - 0xac00, d - 0xac00;
    assert i / 588 < j / 588 || (i / 588 == j / 588 && i % 588 < j % 588);
    assert i % 588 / 28 < j % 588 / 28 || i % 588 / 28 == j % 588 / 28 || i / 588 < j / 588;
    SplitTwice(i);
    SplitTwice(j);
  }

  lemma {:induction false} SplitTwice(i: int)
    ensures i % 588 % 28 == i % 28 && i % 588 == 28 * (i % 588 / 28) + i % 28
  {
    var q, m := i / 588, i % 588;
    assert i == 28 * (21 * q + m / 28) + m % 28;
    SameRest(i, 21 * q + m / 28, m % 28);
  }

  lemma {:induction false} SameRest(i: int, q: int, r: int)
    requires i == 28 * q + r && 0 <= r < 28
    ensures i % 28 == r
  {
  }

  /** The full decomposition of a code point. */
  ghost function Full(u: Ucd, c: int, k: bool): seq<int>
    requires Grounded(u)
    decreases u.rank(c)
  {
    if Syllable(c) then HangulJamo(c)
    else if u.decomp(c, k) == [] then [c]
    else StepDown(u, c, k); FullAll(u, u.decomp(c, k), k)
  }

  ghost function FullAll(u: Ucd, s: seq<int>, k: bool): seq<int>
    requires Grounded(u)
    decreases MaxRank(u, s), |s|
  {
    if s == [] then [] else Full(u, s[0], k) + FullAll(u, s[1..], k)
  }

  lemma {:induction false} FullConcat(u: Ucd, s: seq<int>, t: seq<int>, k: bool)
    requires Grounded(u)
    ensures FullAll(u, s + t, k) == FullAll(u, s, k) + FullAll(u, t, k)
    decreases |s|
  {
    if s == [] {
      assert s + t == t;
    } else {
      assert (s + t)[1..] == s[1..] + t;
      FullConcat(u, s[1..], t, k);
    }
  }

  lemma {:induction false} FullOne(u: Ucd, c: int, k: bool)
    requires Grounded(u)
    ensures FullAll(u, [c], k) == Full(u, c, k)
  {
    assert [c][1..] == [];
  }

  /** Nothing in s can be decomposed any further. */
  ghost predicate Decomposed(u: Ucd, s: seq<int>) {
    forall i :: 0 <= i < |s| ==> Atomic(u, s[i])
  }

  predicate Atomic(u: Ucd, c: int) {
    !Syllable(c) && u.decomp(c, false) == []
  }

  lemma {:induction false} FullAtomic(u: Ucd, s: seq<int>)
    requires Grounded(u) && Decomposed(u, s)
    ensures FullAll(u, s, false) == s
    decreases |s|
  {
    if s != [] {
      assert Atomic(u, s[0]);
      FullAtomic(u, s[1..]);
      assert s == [s[0]] + s[1..];
    }
  }

  lemma {:induction false} FullDecomposed(u: Ucd, c: int, k: bool)
    requires Grounded(u)
    ensures Decomposed(u, Full(u, c, k))
    decreases u.rank(c)
  {
    hide MaxRank;
    if Syllable(c) {
    } else if u.decomp(c, k) == [] {
      assert Atomic(u, c);
    } else {
      StepDown(u, c, k);
      FullAllDecomposed(u, u.decomp(c, k), k);
    }
  }

  /** Full decomposition leaves nothing to decompose, so doing it again changes nothing. */
  lemma {:induction false} FullAllDecomposed(u: Ucd, s: seq<int>, k: bool)
    requires Grounded(u)
    ensures Decomposed(u, FullAll(u, s, k))
    decreases MaxRank(u, s), |s|
  {
    if s != [] {
      FullDecomposed(u, s[0], k);
      FullAllDecomposed(u, s[1..], k);
    }
  }

  /** Compatibility makes no difference to the characters of s. */
  ghost predicate Settled(u: Ucd, s: seq<int>)
    requires Grounded(u)
  {
    forall i :: 0 <= i < |s| ==> Full(u, s[i], true) == Full(u, s[i], false)
  }

  lemma {:induction false} SettledSame(u: Ucd, s: seq<int>)
    requires Grounded(u) && Settled(u, s)
    ensures FullAll(u, s, true) == FullAll(u, s, false)
    decreases |s|
  {
    hide Full, Grounded;
    if s != [] {
      assert Settled(u, s[1..]);
      SettledSame(u, s[1..]);
    }
  }

  lemma {:induction false} FullSettled(u: Ucd, c: int)
    requires Grounded(u)
    ensures Settled(u, Full(u, c, true))
    decreases u.rank(c)
  {
    hide MaxRank;
    if !Syllable(c) && u.decomp(c, true) != [] {
      StepDown(u, c, true);
      FullAllSettled(u, u.decomp(c, true));
    }
  }

  /** What compatibility leaves has no decomposition of either kind. */
  lemma {:induction false} FullAllSettled(u: Ucd, s: seq<int>)
    requires Grounded(u)
    ensures Settled(u, FullAll(u, s, true))
    decreases MaxRank(u, s), |s|
  {
    if s != [] {
      FullSettled(u, s[0]);
      FullAllSettled(u, s[1..]);
    }
  }

  class DynBuf {
    var buf: seq<int>

    constructor ()
      ensures buf == []
    {
      buf := [];
    }

    /** dbuf_put_u32 */
    method PutU32(v: int)
      modifies this
      ensures buf == old(buf) + [v]
    {
      buf := buf + [v];
    }

    /** The arithmetic for a Hangul syllable. */
    method PutSyllable(c: int)
      requires Syllable(c)
      modifies this
      ensures buf == old(buf) + HangulJamo(c)
    {
      var h := c - 0xac00;
      PutU32(0x1100 + h / 588);
      PutU32(0x1161 + h % 588 / 28);
      var v := h % 28;
      if v != 0 {
        PutU32(0x11a7 + v);
      }
    }

    /** to_nfd_rec: appends the full decomposition of src. */
    method ToNfdRec(u: Ucd, src: seq<int>, isCompat: bool)
      requires Grounded(u)
      modifies this
      ensures buf == old(buf) + FullAll(u, src, isCompat)
      decreases MaxRank(u, src)
    {
      hide FullAll, MaxRank, Grounded, HangulJamo;
      var i := 0;
      assert FullAll(u, src[..0], isCompat) == [] by { NothingToDo(u, src, isCompat); }
      while i < |src|
        invariant 0 <= i <= |src| && buf == old(buf) + FullAll(u, src[..i], isCompat)
      {
        var c := src[i];
        ghost var before := buf;
        if 0xac00 <= c < 0xd7a4 {
          PutSyllable(c);
        } else {
          var res := u.decomp(c, isCompat);
          if |res| != 0 {
            StepDown(u, c, isCompat);
            RankInside(u, src, i);
            ToNfdRec(u, res, isCompat);
          } else {
            PutU32(c);
          }
        }
        assert buf == before + Full(u, c, isCompat);
        OneMore(u, src, i, isCompat);
        i := i + 1;
      }
      assert src[..|src|] == src;
    }
  }

  lemma {:induction false} NothingToDo(u: Ucd, src: seq<int>, k: bool)
    requires Grounded(u)
    ensures FullAll(u, src[..0], k) == []
  {
  }

  lemma {:induction false} OneMore(u: Ucd, src: seq<int>, i: nat, k: bool)
    requires Grounded(u) && i < |src|
    ensures FullAll(u, src[..i + 1], k) == FullAll(u, src[..i], k) + Full(u, src[i], k)
  {
    assert src[..i + 1] == src[..i] + [src[i]];
    FullConcat(u, src[..i], [src[i]], k);
    FullOne(u, src[i], k);
  }
}
