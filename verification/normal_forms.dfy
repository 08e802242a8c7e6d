/** What the four forms do, said without the functions that compute them: decomposition applies every mapping of the
    tables until none is left, and composition leaves nothing that could be composed. */
module NormalForms {
  import opened Decompose
  import opened Reorder
  import opened Compose
  import opened Normalize

  // ---------- decomposition ----------

  /** No mapping of the given kind applies. */
  predicate Bare(u: Ucd, c: int, k: bool) {
    !Syllable(c) && u.decomp(c, k) == []
  }

  lemma {:induction false} FullBare(u: Ucd, c: int, k: bool)
    requires Grounded(u)
    ensures forall x <- Full(u, c, k) :: Bare(u, x, k)
    decreases u.rank(c)
  {
    hide MaxRank;
    if !Syllable(c) && u.decomp(c, k) != [] {
      StepDown(u, c, k);
      FullAllBare(u, u.decomp(c, k), k);
    }
  }

  lemma {:induction false} FullAllBare(u: Ucd, s: seq<int>, k: bool)
    requires Grounded(u)
    ensures forall x <- FullAll(u, s, k) :: Bare(u, x, k)
    decreases MaxRank(u, s), |s|
  {
    if s != [] {
      FullBare(u, s[0], k);
      FullAllBare(u, s[1..], k);
    }
  }

  /** In NFD text no canonical mapping applies, in NFKD text none of either kind. */
  lemma {:induction false} NothingMapped(u: Ucd, s: seq<int>, k: bool)
    requires Grounded(u)
    ensures forall x <- Nfd(u, s, k) :: Bare(u, x, k) && Bare(u, x, false)
  {
    hide FullAll, Reordered, Grounded;
    var f := FullAll(u, s, k);
    FullAllBare(u, s, k);
    ReorderedPermutes(u.cc, f);
    forall x | x in Nfd(u, s, k) ensures Bare(u, x, k) && Bare(u, x, false) {
      assert x in multiset(Reordered(u.cc, f));
      assert x in multiset(f);
      MappedTwice(u, x);
    }
  }

  lemma {:induction false} MappedTwice(u: Ucd, x: int)
    requires Grounded(u)
    ensures Bare(u, x, true) ==> Bare(u, x, false)
  {
  }

  /** What a character is mapped to by one step. */
  function Mapping(u: Ucd, c: int, k: bool): seq<int> {
    if Syllable(c) then HangulJamo(c) else if u.decomp(c, k) == [] then [c] else u.decomp(c, k)
  }

  lemma {:induction false} MappingFull(u: Ucd, c: int, k: bool)
    requires Grounded(u)
    ensures FullAll(u, Mapping(u, c, k), k) == Full(u, c, k)
  {
    if Syllable(c) {
      JamoBare(u, c, k);
      AllBare(u, HangulJamo(c), k);
    } else {
      FullOne(u, c, k);
    }
  }

  lemma {:induction false} JamoBare(u: Ucd, c: int, k: bool)
    requires Grounded(u) && Syllable(c)
    ensures forall x <- HangulJamo(c) :: Bare(u, x, k)
  {
    forall x | x in HangulJamo(c) ensures Jamo(x) {}
  }

  lemma {:induction false} AllBare(u: Ucd, s: seq<int>, k: bool)
    requires Grounded(u) && forall x <- s :: Bare(u, x, k)
    ensures FullAll(u, s, k) == s
    decreases |s|
  {
    if s != [] {
      assert Bare(u, s[0], k);
      AllBare(u, s[1..], k);
      assert s == [s[0]] + s[1..];
    }
  }

  /** Applying one mapping anywhere in a text changes no form of it: a canonical one for NFD and NFC, one of either kind
      for NFKD and NFKC. */
  lemma {:induction false} MappingKept(u: Ucd, a: seq<int>, c: int, b: seq<int>, k: bool)
    requires Grounded(u)
    ensures Nfd(u, a + Mapping(u, c, k) + b, k) == Nfd(u, a + [c] + b, k)
    ensures Nfc(u, a + Mapping(u, c, k) + b, k) == Nfc(u, a + [c] + b, k)
  {
    hide FullAll, Full, Reordered, Composed, Mapping, Grounded;
    FullConcat(u, a + Mapping(u, c, k), b, k);
    FullConcat(u, a, Mapping(u, c, k), k);
    FullConcat(u, a + [c], b, k);
    FullConcat(u, a, [c], k);
    FullOne(u, c, k);
    MappingFull(u, c, k);
  }

  /** Text in order to which no mapping applies is its own decomposition. */
  lemma {:induction false} NothingToMap(u: Ucd, s: seq<int>, k: bool)
    requires Grounded(u) && Ordered(u.cc, s) && forall x <- s :: Bare(u, x, k)
    ensures Nfd(u, s, k) == s
  {
    AllBare(u, s, k);
    ReorderedIdempotent(u.cc, s);
  }

  // ---------- composition ----------

  /** Nothing blocks the character at j from the starter at i, and the two have a composite (definitions D115 and
      D117 of the Unicode Standard). */
  predicate Open(u: Ucd, s: seq<int>, i: int, j: int) {
    && 0 <= i < j < |s| && u.cc(s[i]) == 0 && ComposePair(u, s[i], s[j]) != 0
    && forall k :: i < k < j ==> 0 < u.cc(s[k]) < u.cc(s[j])
  }

  ghost predicate Complete(u: Ucd, s: seq<int>) {
    forall i, j :: !Open(u, s, i, j)
  }

  /** What the tables say of a pair: its second half cannot be decomposed, and the decomposition of its composite is
      in order. */
  ghost predicate PairOrderly(u: Ucd, a: int, b: int)
    requires Grounded(u)
  {
    var p := u.pair(a, b);
    u.cc(a) == 0 && p != 0 ==> u.decomp(b, false) == [] && Ordered(u.cc, Full(u, p, false))
  }

  ghost predicate Orderly(u: Ucd)
    requires Grounded(u)
  {
    forall a, b :: PairOrderly(u, a, b)
  }

  /** The second half of a pair is no composite. */
  lemma {:induction false} NotTwice(u: Ucd, a: int, b: int, x: int)
    requires Sound(u) && Orderly(u) && u.cc(a) == 0 && u.cc(x) == 0 && ComposePair(u, a, b) != 0
    ensures ComposePair(u, x, ComposePair(u, a, b)) == 0
  {
    hide Full, FullAll, Ordered;
    var p := ComposePair(u, a, b);
    assert PairSound(u, a, b) && PairSound(u, x, p) && PairOrderly(u, x, p);
  }

  /** A composite takes in no mark that stood before the one it was made with. */
  lemma {:induction false} NoMarkLeft(u: Ucd, a: int, c: int, b: int)
    requires Sound(u) && Orderly(u) && u.cc(a) == 0 && ComposePair(u, a, c) != 0
    requires Atomic(u, c) && Atomic(u, b) && 0 < u.cc(b) < u.cc(c)
    ensures ComposePair(u, ComposePair(u, a, c), b) == 0
  {
    hide Full, FullAll, Ordered;
    var p := ComposePair(u, a, c);
    var q := ComposePair(u, p, b);
    assert HangulStarter(u, b) && HangulStarter(u, c) && PairSound(u, a, c) && PairSound(u, p, b) && PairOrderly(u, p, b);
    if q != 0 {
      FullPair(u, p, a, c);
      FullPair(u, q, p, b);
      OutOfOrder(u.cc, Full(u, a, false), c, b);
    }
  }

  lemma {:induction false} OutOfOrder(cc: int -> nat, s: seq<int>, c: int, b: int)
    requires 0 < cc(b) < cc(c)
    ensures !Ordered(cc, s + [c] + [b])
  {
    var t := s + [c] + [b];
    assert t[|s|] == c && t[|s| + 1] == b;
    assert !InPlace(cc, t[|s|], t[|s| + 1]);
  }

  /** Taking one more character in leaves nothing to compose. */
  lemma {:induction false} AbsorbComplete(u: Ucd, out: seq<int>, c: int)
    requires Sound(u) && Orderly(u) && Partial(u, out) && Atomic(u, c) && Complete(u, out)
    ensures Complete(u, Absorb(u, out, c))
  {
    hide Sound, Orderly, ComposePair, LastStarter, Blocked, Atomic, Grounded;
    var l, now := LastStarter(u, out), Absorb(u, out, c);
    LastStarterIs(u, out);
    forall i, j ensures !Open(u, now, i, j) {
      if Open(u, now, i, j) {
        if Merges(u, out, c) {
          MergedOpen(u, out, c, l, i, j);
        } else {
          AppendedOpen(u, out, c, l, i, j);
        }
      }
    }
  }

  lemma {:induction false} AppendedOpen(u: Ucd, out: seq<int>, c: int, l: int, i: int, j: int)
    requires Complete(u, out) && !Merges(u, out, c) && l == LastStarter(u, out)
    requires forall k :: l < k < |out| ==> u.cc(out[k]) != 0
    ensures !Open(u, out + [c], i, j)
  {
    hide ComposePair, LastStarter;
    var now := out + [c];
    if Open(u, now, i, j) {
      assert forall k :: 0 <= k < |out| ==> now[k] == out[k];
      assert now[|out|] == c;
      if j < |out| {
        Unchanged(u, now, out, i, j);
      } else {
        LastStarterIs(u, out);
      }
    }
  }

  lemma {:induction false} Unchanged(u: Ucd, s: seq<int>, t: seq<int>, i: int, j: int)
    requires Open(u, s, i, j) && j < |t| && forall k :: i <= k <= j ==> s[k] == t[k]
    ensures Open(u, t, i, j)
  {
    hide ComposePair;
    assert s[i] == t[i] && s[j] == t[j];
    forall k | i < k < j ensures 0 < u.cc(t[k]) < u.cc(t[j]) { assert s[k] == t[k]; }
  }

  lemma {:induction false} MergedOpen(u: Ucd, out: seq<int>, c: int, l: int, i: int, j: int)
    requires Sound(u) && Orderly(u) && Partial(u, out) && Atomic(u, c) && Complete(u, out) && Merges(u, out, c) && l == LastStarter(u, out)
    requires u.cc(out[l]) == 0 && forall k :: l < k < |out| ==> u.cc(out[k]) != 0
    ensures !Open(u, Absorb(u, out, c), i, j)
  {
    hide ComposePair, LastStarter, Sound, Orderly, Atomic, Grounded;
    var p := ComposePair(u, out[l], c);
    var now := out[l := p];
    CompositeStarter(u, out[l], c);
    if Open(u, now, i, j) {
      if i == l {
        assert now[j] == out[j];
        assert u.cc(out[j]) < u.cc(c) && Atomic(u, out[j]);
        NoMarkLeft(u, out[l], c, out[j]);
      } else if j == l {
        NotTwice(u, out[l], c, out[i]);
      } else {
        Unchanged(u, now, out, i, j);
      }
    }
  }

  lemma {:induction false} ComposedComplete(u: Ucd, out: seq<int>, rest: seq<int>)
    requires Sound(u) && Orderly(u) && Partial(u, out) && Decomposed(u, rest) && Complete(u, out)
    ensures Complete(u, Composed(u, out, rest))
    decreases |rest|
  {
    hide Sound, Orderly, Partial, Complete, Absorb, Decomposed, Grounded;
    if rest != [] {
      DecomposedTail(u, rest);
      AbsorbComplete(u, out, rest[0]);
      AbsorbFull(u, out, rest[0]);
      ComposedComplete(u, Absorb(u, out, rest[0]), rest[1..]);
    }
  }

  /** Nothing is left to compose in NFC and NFKC text. */
  lemma {:induction false} NothingLeft(u: Ucd, s: seq<int>, k: bool)
    requires Sound(u) && Orderly(u)
    ensures forall i, j :: !Open(u, Nfc(u, s, k), i, j)
  {
    hide Sound, Orderly, Open, Composed, Partial, Decomposed, Ordered, FullAll, Reordered, Grounded;
    assert Grounded(u) by { SoundGrounded(u); }
    NfdDecomposed(u, s, k);
    NothingPartial(u);
    assert Complete(u, []) by { NothingOpen(u); }
    ComposedComplete(u, [], Nfd(u, s, k));
  }

  /** The hypotheses can be met. */
  lemma {:induction false} SampleOrderly()
    ensures Sound(SAMPLE) && Orderly(SAMPLE)
  {
    SampleSound();
    hide SampleRank, Sound, Latin1Sound;
    assert Grounded(SAMPLE) by { SoundGrounded(SAMPLE); }
    FullPair(SAMPLE, 0xc0, 0x41, 0x300);
    assert Full(SAMPLE, 0x41, false) == [0x41];
    forall a, b ensures PairOrderly(SAMPLE, a, b) {
      hide Full, FullAll;
    }
  }

  lemma {:induction false} NothingOpen(u: Ucd)
    ensures Complete(u, [])
  {
  }
}
