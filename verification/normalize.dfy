/** unicode_normalize as a whole: what the four forms mean, and where U+11A7 breaks composition. */
module Normalize {

  import opened Decompose
  import opened Reorder
  import opened Compose

  /** The canonical or compatibility decomposition of a text, in canonical order. */
  ghost function Nfd(u: Ucd, s: seq<int>, k: bool): seq<int>
    requires Grounded(u)
  {
    Reordered(u.cc, FullAll(u, s, k))
  }

  ghost function Nfc(u: Ucd, s: seq<int>, k: bool): seq<int>
    requires Grounded(u)
  {
    Composed(u, [], Nfd(u, s, k))
  }

  /** compose_pair takes U+11A7, which is no trailing consonant, into the syllable before it. */
  predicate DropsNow(u: Ucd, out: seq<int>, c: int) {
    var l := LastStarter(u, out);
    c == 0x11a7 && l >= 0 && !Blocked(u, out, l, c) && SyllableLV(out[l])
  }

  /** Somewhere in the run of the composition loop U+11A7 is lost. */
  predicate Drops(u: Ucd, out: seq<int>, rest: seq<int>)
    decreases |rest|
  {
    rest != [] && (DropsNow(u, out, rest[0]) || Drops(u, Absorb(u, out, rest[0]), rest[1..]))
  }

  /** Only starters of the text composed so far can be decomposed. */
  predicate Partial(u: Ucd, out: seq<int>) {
    forall i :: 0 <= i < |out| ==> u.cc(out[i]) == 0 || Atomic(u, out[i])
  }

  /** The composite of a pair decomposes into what the pair decomposes into. */
  lemma {:induction false} CompositeFull(u: Ucd, a: int, b: int)
    requires Sound(u) && u.cc(a) == 0 && ComposePair(u, a, b) != 0 && Atomic(u, b)
    ensures var p := ComposePair(u, a, b);
            Full(u, p, false) == if SyllableLV(a) && b == 0x11a7 then Full(u, a, false) else Full(u, a, false) + [b]
  {
    var p := ComposePair(u, a, b);
    assert PairSound(u, a, b);
    if JamoL(a) && JamoV(b) {
      assert HangulJamo(p) == [a, b];
      assert Full(u, a, false) == [a];
    } else if SyllableLV(a) && JamoT(b) {
      if b != 0x11a7 { LVT(a, b); }
    } else {
      FullPair(u, p, a, b);
    }
  }

  lemma {:induction false} LVT(a: int, b: int)
    requires SyllableLV(a) && JamoT(b) && b != 0x11a7
    ensures Syllable(a + b - 0x11a7) && HangulJamo(a + b - 0x11a7) == HangulJamo(a) + [b]
  {
    var q := (a - 0xac00) / 28;
    var t := b - 0x11a7;
    assert a - 0xac00 == 28 * q && q < 399;
    Jamo28(q, t);
    Jamo28(q, 0);
  }

  lemma {:induction false} Jamo28(q: nat, t: nat)
    requires t < 28
    ensures (28 * q + t) / 588 == q / 21 && (28 * q + t) % 588 / 28 == q % 21 && (28 * q + t) % 28 == t
  {
    var l, v := q / 21, q % 21;
    assert 28 * q + t == 588 * l + (28 * v + t);
  }

  lemma {:induction false} FullPair(u: Ucd, p: int, a: int, b: int)
    requires Grounded(u) && !Syllable(p) && u.decomp(p, false) == [a, b] && Atomic(u, b)
    ensures Full(u, p, false) == Full(u, a, false) + [b]
  {
    FullConcat(u, [a], [b], false);
    FullOne(u, a, false);
    FullOne(u, b, false);
    assert [a, b] == [a] + [b];
  }

  /** A character can be moved to before others of lower classes, if there is no starter among them. */
  lemma {:induction false} KeptMove(cc: int -> nat, c: int, s: seq<int>, v: nat)
    requires forall k :: 0 <= k < |s| ==> 0 < cc(s[k]) < cc(c)
    ensures Kept(cc, [c] + s, v) == Kept(cc, s + [c], v)
  {
    KeptConcat(cc, [c], s, v);
    KeptConcat(cc, s, [c], v);
    KeptOne(cc, c, v);
    if v == cc(c) { KeptNone(cc, s, v); }
  }

  lemma {:induction false} KeptNone(cc: int -> nat, s: seq<int>, v: nat)
    requires forall k :: 0 <= k < |s| ==> cc(s[k]) != 0 && cc(s[k]) != v
    ensures Kept(cc, s, v) == []
    decreases |s|
  {
    if s != [] { KeptNone(cc, s[1..], v); }
  }

  /** The decomposition of text with one place singled out. */
  lemma {:induction false} FullAround(u: Ucd, a: seq<int>, x: int, b: seq<int>)
    requires Grounded(u)
    ensures FullAll(u, a + [x] + b, false) == FullAll(u, a, false) + Full(u, x, false) + FullAll(u, b, false)
  {
    FullConcat(u, a + [x], b, false);
    FullConcat(u, a, [x], false);
    FullOne(u, x, false);
  }

  /** What becomes of the decomposition when one more character is taken in. */
  lemma {:induction false} AbsorbFull(u: Ucd, out: seq<int>, c: int)
    requires Sound(u) && Partial(u, out) && Atomic(u, c)
    ensures Partial(u, Absorb(u, out, c))
    ensures !DropsNow(u, out, c) ==> Equivalent(u.cc, FullAll(u, Absorb(u, out, c), false), FullAll(u, out, false) + [c])
    ensures DropsNow(u, out, c) ==> FullAll(u, Absorb(u, out, c), false) == FullAll(u, out, false)
  {
    hide FullAll, Full, Equivalent, Grounded, Blocked, LastStarter, Atomic, ComposePair;
    if Merges(u, out, c) {
      var l := LastStarter(u, out);
      LastStarterIs(u, out);
      var a, b, p := out[..l], out[l + 1..], ComposePair(u, out[l], c);
      CompositeStarter(u, out[l], c);
      CompositeFull(u, out[l], c);
      FullAround(u, a, out[l], b);
      FullAround(u, a, p, b);
      assert out == a + [out[l]] + b && out[l := p] == a + [p] + b;
      FullTail(u, out, l, b);
      if !DropsNow(u, out, c) {
        BlockedMeans(u, out, l, c, b);
        var fa, fl := FullAll(u, a, false), Full(u, out[l], false);
        MergeEquivalent(u, fa + fl, c, b);
        assert fa + (fl + [c]) + b == fa + fl + [c] + b;
      }
    } else {
      NeverDrops(u, out, c);
      FullConcat(u, out, [c], false);
      FullOne(u, c, false);
      assert Full(u, c, false) == [c] by { FullOfAtomic(u, c); }
      SelfEquivalent(u.cc, FullAll(u, out, false) + [c]);
    }
  }

  lemma {:induction false} FullOfAtomic(u: Ucd, c: int)
    requires Grounded(u) && Atomic(u, c)
    ensures Full(u, c, false) == [c]
  {
  }

  lemma {:induction false} NeverDrops(u: Ucd, out: seq<int>, c: int)
    requires !Merges(u, out, c)
    ensures !DropsNow(u, out, c)
  {
  }

  lemma {:induction false} BlockedMeans(u: Ucd, out: seq<int>, l: int, c: int, b: seq<int>)
    requires 0 <= l < |out| && !Blocked(u, out, l, c) && b == out[l + 1..]
    ensures forall k :: 0 <= k < |b| ==> u.cc(b[k]) < u.cc(c)
  {
    assert forall k :: 0 <= k < |b| ==> b[k] == out[l + 1 + k];
  }

  lemma {:induction false} FullTail(u: Ucd, out: seq<int>, l: int, b: seq<int>)
    requires Grounded(u) && Partial(u, out) && 0 <= l < |out| && b == out[l + 1..]
    requires forall k :: l < k < |out| ==> u.cc(out[k]) != 0
    ensures FullAll(u, b, false) == b && forall k :: 0 <= k < |b| ==> u.cc(b[k]) > 0
  {
    assert forall k :: 0 <= k < |b| ==> b[k] == out[l + 1 + k];
    FullAtomic(u, b);
  }

  lemma {:induction false} MergeEquivalent(u: Ucd, front: seq<int>, c: int, b: seq<int>)
    requires forall k :: 0 <= k < |b| ==> 0 < u.cc(b[k]) < u.cc(c)
    ensures Equivalent(u.cc, front + [c] + b, front + b + [c])
  {
    hide Kept;
    forall v: nat ensures Kept(u.cc, front + [c] + b, v) == Kept(u.cc, front + b + [c], v) {
      assert front + [c] + b == front + ([c] + b) && front + b + [c] == front + (b + [c]);
      KeptConcat(u.cc, front, [c] + b, v);
      KeptConcat(u.cc, front, b + [c], v);
      KeptMove(u.cc, c, b, v);
    }
  }

  lemma {:induction false} DecomposedTail(u: Ucd, s: seq<int>)
    requires s != [] && Decomposed(u, s)
    ensures Atomic(u, s[0]) && Decomposed(u, s[1..])
  {
  }

  /** Without a lost U+11A7 composing keeps the canonical decomposition, up to order. */
  lemma {:induction false} ComposedEquivalent(u: Ucd, out: seq<int>, rest: seq<int>)
    requires Sound(u) && Partial(u, out) && Decomposed(u, rest) && !Drops(u, out, rest)
    ensures Equivalent(u.cc, FullAll(u, Composed(u, out, rest), false), FullAll(u, out, false) + rest)
    decreases |rest|
  {
    hide FullAll, Grounded, Absorb, Partial, Decomposed, Equivalent, DropsNow;
    var f := FullAll(u, out, false);
    if rest == [] {
      assert f + [] == f;
      SelfEquivalent(u.cc, f);
    } else {
      var c, tail := rest[0], rest[1..];
      DecomposedTail(u, rest);
      AbsorbFull(u, out, c);
      var out' := Absorb(u, out, c);
      ComposedEquivalent(u, out', tail);
      Extend(u.cc, FullAll(u, out', false), f + [c], tail);
      assert f + [c] + tail == f + rest;
      Chained(u.cc, FullAll(u, Composed(u, out', tail), false), FullAll(u, out', false) + tail, f + rest);
    }
  }

  lemma {:induction false} SelfEquivalent(cc: int -> nat, s: seq<int>)
    ensures Equivalent(cc, s, s)
  {
  }

  lemma {:induction false} Chained(cc: int -> nat, s: seq<int>, t: seq<int>, w: seq<int>)
    requires Equivalent(cc, s, t) && Equivalent(cc, t, w)
    ensures Equivalent(cc, s, w)
  {
    hide Kept;
    forall v: nat ensures Kept(cc, s, v) == Kept(cc, w, v) {
      assert Kept(cc, s, v) == Kept(cc, t, v);
    }
  }

  lemma {:induction false} Extend(cc: int -> nat, s: seq<int>, t: seq<int>, more: seq<int>)
    requires Equivalent(cc, s, t)
    ensures Equivalent(cc, s + more, t + more)
  {
    hide Kept;
    forall v: nat ensures Kept(cc, s + more, v) == Kept(cc, t + more, v) {
      KeptConcat(cc, s, more, v);
      KeptConcat(cc, t, more, v);
      assert Kept(cc, s, v) == Kept(cc, t, v);
    }
  }

  lemma {:induction false} EquivalentLength(cc: int -> nat, s: seq<int>, t: seq<int>)
    requires Equivalent(cc, s, t)
    ensures |s| == |t|
  {
    ReorderedDecides(cc, s, t);
  }

  /** Every U+11A7 lost makes the decomposition shorter. */
  lemma {:induction false} ComposedLength(u: Ucd, out: seq<int>, rest: seq<int>)
    requires Sound(u) && Partial(u, out) && Decomposed(u, rest)
    ensures var n, m := |FullAll(u, Composed(u, out, rest), false)|, |FullAll(u, out, false)| + |rest|;
            n <= m && (Drops(u, out, rest) ==> n < m)
    decreases |rest|
  {
    hide FullAll, Grounded, Absorb, Partial, Decomposed, Equivalent, DropsNow;
    if rest != [] {
      var c, tail := rest[0], rest[1..];
      DecomposedTail(u, rest);
      AbsorbFull(u, out, c);
      var out' := Absorb(u, out, c);
      ComposedLength(u, out', tail);
      if !DropsNow(u, out, c) {
        EquivalentLength(u.cc, FullAll(u, out', false), FullAll(u, out, false) + [c]);
      }
    }
  }

  lemma {:induction false} NfdDecomposed(u: Ucd, s: seq<int>, k: bool)
    requires Grounded(u)
    ensures Decomposed(u, Nfd(u, s, k)) && Ordered(u.cc, Nfd(u, s, k))
  {
    hide FullAll, Reordered, Atomic, Ordered;
    var f := FullAll(u, s, k);
    FullAllDecomposed(u, s, k);
    ReorderedPermutes(u.cc, f);
    ReorderedOrdered(u.cc, f);
    var r := Reordered(u.cc, f);
    forall i | 0 <= i < |r| ensures Atomic(u, r[i]) {
      assert r[i] in multiset(r);
      assert r[i] in multiset(f);
    }
  }

  lemma {:induction false} NfdSettled(u: Ucd, s: seq<int>)
    requires Grounded(u)
    ensures Settled(u, Nfd(u, s, true))
  {
    hide FullAll, Full, Reordered, Grounded;
    var f := FullAll(u, s, true);
    FullAllSettled(u, s);
    ReorderedPermutes(u.cc, f);
    var r := Reordered(u.cc, f);
    forall i | 0 <= i < |r| ensures Full(u, r[i], true) == Full(u, r[i], false) {
      assert r[i] in multiset(r);
      assert r[i] in multiset(f);
    }
  }

  /** The decomposed text is in order and does not change when it is decomposed again, in its own way or canonically. */
  lemma {:induction false} NfdIdempotent(u: Ucd, s: seq<int>, k: bool)
    requires Grounded(u)
    ensures Nfd(u, Nfd(u, s, k), false) == Nfd(u, s, k)
    ensures Nfd(u, Nfd(u, s, k), k) == Nfd(u, s, k)
  {
    hide FullAll, Reordered, Ordered, Grounded, Settled;
    NfdDecomposed(u, s, k);
    FullAtomic(u, Nfd(u, s, k));
    ReorderedIdempotent(u.cc, Nfd(u, s, k));
    if k {
      NfdSettled(u, s);
      SettledSame(u, Nfd(u, s, k));
    }
  }

  /** A composite is made of settled characters, so it is settled itself. */
  lemma {:induction false} PairSettled(u: Ucd, a: int, b: int)
    requires Sound(u) && u.cc(a) == 0 && ComposePair(u, a, b) != 0 && Settled(u, [a]) && Settled(u, [b])
    ensures Settled(u, [ComposePair(u, a, b)])
  {
    hide FullAll;
    var p := ComposePair(u, a, b);
    assert PairSound(u, a, b);
    assert Full(u, [a][0], true) == Full(u, [a][0], false) && Full(u, [b][0], true) == Full(u, [b][0], false);
    if !Syllable(p) {
      assert u.decomp(p, true) == u.decomp(p, false) == [a, b];
      assert Settled(u, [a, b]);
      SettledSame(u, [a, b]);
    }
  }

  lemma {:induction false} AbsorbSettled(u: Ucd, out: seq<int>, c: int)
    requires Sound(u) && Settled(u, out) && Settled(u, [c])
    ensures Settled(u, Absorb(u, out, c))
  {
    hide Full, Grounded, Blocked, LastStarter, ComposePair, PairSound, HangulStarter;
    assert Full(u, [c][0], true) == Full(u, [c][0], false);
    if Merges(u, out, c) {
      var l := LastStarter(u, out);
      LastStarterIs(u, out);
      var p := ComposePair(u, out[l], c);
      assert Settled(u, [out[l]]);
      PairSettled(u, out[l], c);
      assert Full(u, [p][0], true) == Full(u, [p][0], false);
    }
  }

  lemma {:induction false} ComposedSettled(u: Ucd, out: seq<int>, rest: seq<int>)
    requires Sound(u) && Settled(u, out) && Settled(u, rest)
    ensures Settled(u, Composed(u, out, rest))
    decreases |rest|
  {
    hide Full, Sound, Absorb;
    assert Grounded(u) by { SoundGrounded(u); }
    if rest != [] {
      assert Settled(u, [rest[0]]) && Settled(u, rest[1..]);
      AbsorbSettled(u, out, rest[0]);
      ComposedSettled(u, Absorb(u, out, rest[0]), rest[1..]);
    }
  }

  /** Composed text has one decomposition: composing NFKD text brings back nothing that compatibility takes apart. */
  lemma {:induction false} NfcSettled(u: Ucd, s: seq<int>)
    requires Sound(u)
    ensures Nfd(u, Nfc(u, s, true), true) == Nfd(u, Nfc(u, s, true), false)
  {
    hide Sound, Grounded, Composed, Settled, FullAll, Reordered;
    assert Grounded(u) by { SoundGrounded(u); }
    NfdSettled(u, s);
    assert Settled(u, []) by { NothingSettled(u); }
    ComposedSettled(u, [], Nfd(u, s, true));
    SettledSame(u, Nfc(u, s, true));
  }

  lemma {:induction false} NothingSettled(u: Ucd)
    requires Grounded(u)
    ensures Settled(u, [])
  {
  }

  /**
   * Composing a text keeps its canonical (or compatibility) decomposition exactly when the loop
   * loses no U+11A7.
   */
  lemma {:induction false} NfcKeepsMeaning(u: Ucd, s: seq<int>, k: bool)
    requires Sound(u)
    ensures Nfd(u, Nfc(u, s, k), false) == Nfd(u, s, k) <==> !Drops(u, [], Nfd(u, s, k))
  {
    hide Sound, FullAll, Reordered, Composed, Drops, Kept, Ordered, Grounded, Decomposed;
    assert Grounded(u) by { SoundGrounded(u); }
    var d := Nfd(u, s, k);
    var f := FullAll(u, Composed(u, [], d), false);
    NfdDecomposed(u, s, k);
    assert FullAll(u, [], false) == [] by { NothingFull(u); }
    assert [] + d == d;
    if Drops(u, [], d) {
      ComposedLength(u, [], d);
      assert |Reordered(u.cc, f)| == |f|;
    } else {
      ComposedEquivalent(u, [], d);
      ReorderedDecides(u.cc, f, d);
      ReorderedIdempotent(u.cc, d);
    }
  }

  lemma {:induction false} SoundGrounded(u: Ucd)
    requires Sound(u)
    ensures Grounded(u)
  {
  }

  lemma {:induction false} NothingFull(u: Ucd)
    requires Grounded(u)
    ensures FullAll(u, [], false) == []
  {
  }

  /** A leading consonant, a vowel and U+11A7 in a row, from position i. */
  predicate LostAt(s: seq<int>, i: int) {
    0 <= i && i + 2 < |s| && JamoL(s[i]) && JamoV(s[i + 1]) && s[i + 2] == 0x11a7
  }

  /** How a text ends, as far as Hangul is concerned: with nothing special, with a consonant, with a syllable LV. */
  datatype Tail = Plain | SawL | SawLV

  function TailOf(s: seq<int>): Tail {
    if s == [] then Plain
    else if JamoL(s[|s| - 1]) then SawL
    else if SyllableLV(s[|s| - 1]) then SawLV
    else Plain
  }

  function NextTail(t: Tail, c: int): Tail {
    if JamoL(c) then SawL else if t == SawL && JamoV(c) then SawLV else Plain
  }

  predicate Finds(t: Tail, s: seq<int>)
    decreases |s|
  {
    s != [] && ((t == SawLV && s[0] == 0x11a7) || Finds(NextTail(t, s[0]), s[1..]))
  }

  /** The last starter, when the text ends with a consonant or a syllable. */
  lemma {:induction false} TailStarter(u: Ucd, out: seq<int>)
    requires Sound(u) && TailOf(out) != Plain
    ensures LastStarter(u, out) == |out| - 1
  {
    assert HangulStarter(u, out[|out| - 1]);
  }

  lemma {:induction false} DropsAtTail(u: Ucd, out: seq<int>, c: int)
    requires Sound(u)
    ensures DropsNow(u, out, c) <==> TailOf(out) == SawLV && c == 0x11a7
  {
    hide Grounded;
    var l := LastStarter(u, out);
    LastStarterIs(u, out);
    if TailOf(out) == SawLV { TailStarter(u, out); }
    if DropsNow(u, out, c) {
      assert HangulStarter(u, c);
    }
  }

  /** Taking in a character that is fully decomposed moves the tail on. */
  lemma {:induction false} TailMoves(u: Ucd, out: seq<int>, c: int)
    requires Sound(u) && Atomic(u, c) && !DropsNow(u, out, c)
    ensures TailOf(Absorb(u, out, c)) == NextTail(TailOf(out), c)
  {
    hide Grounded, LastStarter, Blocked;
    var l := LastStarter(u, out);
    LastStarterIs(u, out);
    DropsAtTail(u, out, c);
    if Merges(u, out, c) {
      MergedTail(u, out, c, l);
    } else if TailOf(out) == SawL && JamoV(c) {
      TailStarter(u, out);
      NothingBehind(u, out, c);
    }
  }

  lemma {:induction false} NothingBehind(u: Ucd, out: seq<int>, c: int)
    requires out != []
    ensures !Blocked(u, out, |out| - 1, c)
  {
  }

  lemma {:induction false} MergedTail(u: Ucd, out: seq<int>, c: int, l: int)
    requires Sound(u) && Atomic(u, c) && Merges(u, out, c) && l == LastStarter(u, out)
    requires !(TailOf(out) == SawLV && c == 0x11a7)
    requires u.cc(out[l]) == 0 && forall k :: l < k < |out| ==> u.cc(out[k]) != 0
    ensures TailOf(out[l := ComposePair(u, out[l], c)]) == NextTail(TailOf(out), c)
  {
    hide Grounded, LastStarter;
    var p := ComposePair(u, out[l], c);
    assert HangulStarter(u, c) && PairSound(u, out[l], c);
    if l < |out| - 1 {
      assert u.cc(out[|out| - 1]) < u.cc(c);
      assert HangulStarter(u, out[|out| - 1]);
    } else {
      PairTail(u, out[l], c);
    }
  }

  lemma {:induction false} PairTail(u: Ucd, a: int, c: int)
    requires Sound(u) && u.cc(a) == 0 && Atomic(u, c) && ComposePair(u, a, c) != 0 && !(SyllableLV(a) && c == 0x11a7)
    ensures TailOf([ComposePair(u, a, c)]) == NextTail(TailOf([a]), c)
  {
    var p := ComposePair(u, a, c);
    assert PairSound(u, a, c);
    if JamoL(a) && JamoV(c) {
      assert p - 0xac00 == 28 * ((a - 0x1100) * 21 + (c - 0x1161));
      assert SyllableLV(p);
    } else if SyllableLV(a) && JamoT(c) {
      assert !SyllableLV(p);
    } else {
      assert !JamoL(p) by { assert Grounded(u); }
    }
  }

  /** The composition loop loses U+11A7 exactly where the scan finds it. */
  lemma {:induction false} DropsFound(u: Ucd, out: seq<int>, rest: seq<int>)
    requires Sound(u) && Decomposed(u, rest)
    ensures Drops(u, out, rest) <==> Finds(TailOf(out), rest)
    decreases |rest|
  {
    hide Sound, Absorb, Decomposed, DropsNow;
    if rest != [] {
      DecomposedTail(u, rest);
      DropsAtTail(u, out, rest[0]);
      if !DropsNow(u, out, rest[0]) {
        TailMoves(u, out, rest[0]);
        DropsFound(u, Absorb(u, out, rest[0]), rest[1..]);
      }
    }
  }

  /** What the scan finds: U+11A7 behind a consonant and a vowel, some of which may have been read. */
  lemma {:induction false} FindsMeans(t: Tail, s: seq<int>)
    ensures Finds(t, s) <==>
      || (t == SawLV && |s| > 0 && s[0] == 0x11a7)
      || (t == SawL && |s| > 1 && JamoV(s[0]) && s[1] == 0x11a7)
      || exists i :: LostAt(s, i)
    decreases |s|
  {
    if s != [] {
      FindsMeans(NextTail(t, s[0]), s[1..]);
      LostTail(s);
    }
  }

  lemma {:induction false} LostTail(s: seq<int>)
    requires s != []
    ensures (exists i :: LostAt(s, i)) <==> LostAt(s, 0) || exists i :: LostAt(s[1..], i)
  {
    if exists i :: LostAt(s, i) {
      var i :| LostAt(s, i);
      if i > 0 { assert LostAt(s[1..], i - 1); }
    }
    if exists i :: LostAt(s[1..], i) {
      var i :| LostAt(s[1..], i);
      assert LostAt(s, i + 1);
    }
  }

  /** Composition keeps the meaning exactly when no U+11A7 follows a consonant and a vowel in the decomposed text. */
  lemma {:induction false} NfcKeepsMeaningIff(u: Ucd, s: seq<int>, k: bool)
    requires Sound(u)
    ensures Nfd(u, Nfc(u, s, k), false) == Nfd(u, s, k) <==> !exists i :: LostAt(Nfd(u, s, k), i)
  {
    hide Sound, Grounded, Finds, Drops, LostAt, Nfd, Nfc;
    assert Grounded(u) by { SoundGrounded(u); }
    NfcKeepsMeaning(u, s, k);
    NfdDecomposed(u, s, k);
    DropsFound(u, [], Nfd(u, s, k));
    FindsMeans(Plain, Nfd(u, s, k));
  }

  /** s without every U+11A7 that follows a consonant and a vowel. */
  function Strip(t: Tail, s: seq<int>): seq<int>
    decreases |s|
  {
    if s == [] then []
    else if t == SawLV && s[0] == 0x11a7 then Strip(t, s[1..])
    else [s[0]] + Strip(NextTail(t, s[0]), s[1..])
  }

  lemma {:induction false} StripFinds(t: Tail, s: seq<int>)
    ensures !Finds(t, Strip(t, s))
    ensures Strip(t, s) == s <==> !Finds(t, s)
    ensures |Strip(t, s)| <= |s|
    decreases |s|
  {
    if s != [] {
      if t == SawLV && s[0] == 0x11a7 {
        StripFinds(t, s[1..]);
      } else {
        var next := NextTail(t, s[0]);
        StripFinds(next, s[1..]);
        assert Strip(t, s)[1..] == Strip(next, s[1..]);
      }
    }
  }

  lemma {:induction false} StripDecomposed(u: Ucd, t: Tail, s: seq<int>)
    requires Decomposed(u, s)
    ensures Decomposed(u, Strip(t, s))
    decreases |s|
  {
    if s != [] {
      StripDecomposed(u, if t == SawLV && s[0] == 0x11a7 then t else NextTail(t, s[0]), s[1..]);
    }
  }

  /** What is stripped follows a starter, so the rest stays in order. */
  lemma {:induction false} StripOrdered(u: Ucd, t: Tail, x: int, s: seq<int>)
    requires Sound(u) && Ordered(u.cc, [x] + s) && (t == SawLV ==> u.cc(x) == 0)
    ensures Ordered(u.cc, [x] + Strip(t, s))
    decreases |s|
  {
    hide Grounded;
    if s != [] {
      var tail := s[1..];
      assert [x] + s == [x, s[0]] + tail;
      if t == SawLV && s[0] == 0x11a7 {
        assert Ordered(u.cc, [x] + tail) by { WithoutSecond(u.cc, x, s[0], tail); }
        StripOrdered(u, t, x, tail);
      } else {
        var next := NextTail(t, s[0]);
        assert Ordered(u.cc, [s[0]] + tail) by { WithoutFirst(u.cc, x, s); }
        assert HangulStarter(u, s[0]);
        StripOrdered(u, next, s[0], tail);
        WithFirst(u.cc, x, s[0], Strip(next, tail), s);
      }
    }
  }

  lemma {:induction false} WithoutFirst(cc: int -> nat, x: int, s: seq<int>)
    requires s != [] && Ordered(cc, [x] + s)
    ensures Ordered(cc, [s[0]] + s[1..])
  {
    assert [s[0]] + s[1..] == s;
    forall i | 0 < i < |s| ensures InPlace(cc, s[i - 1], s[i]) {
      assert InPlace(cc, ([x] + s)[i], ([x] + s)[i + 1]);
    }
  }

  /** Behind a starter anything is in place. */
  lemma {:induction false} WithoutSecond(cc: int -> nat, x: int, y: int, s: seq<int>)
    requires cc(x) == 0 && Ordered(cc, [x, y] + s)
    ensures Ordered(cc, [x] + s)
  {
    forall i | 0 < i <= |s| ensures InPlace(cc, ([x] + s)[i - 1], ([x] + s)[i]) {
      if i > 1 { assert InPlace(cc, ([x, y] + s)[i], ([x, y] + s)[i + 1]); }
    }
  }

  lemma {:induction false} WithFirst(cc: int -> nat, x: int, y: int, r: seq<int>, s: seq<int>)
    requires s != [] && s[0] == y && Ordered(cc, [x] + s) && Ordered(cc, [y] + r)
    ensures Ordered(cc, [x] + ([y] + r))
  {
    forall i | 0 < i < |r| + 2 ensures InPlace(cc, ([x] + ([y] + r))[i - 1], ([x] + ([y] + r))[i]) {
      if i == 1 { assert InPlace(cc, ([x] + s)[0], ([x] + s)[1]); } else { assert InPlace(cc, ([y] + r)[i - 2], ([y] + r)[i - 1]); }
    }
  }

  lemma {:induction false} StripAllOrdered(u: Ucd, s: seq<int>)
    requires Sound(u) && Ordered(u.cc, s)
    ensures Ordered(u.cc, Strip(Plain, s))
  {
    hide Sound;
    if s != [] {
      var tail := s[1..];
      assert s == [s[0]] + tail;
      assert NextTail(Plain, s[0]) != SawLV;
      StripOrdered(u, NextTail(Plain, s[0]), s[0], tail);
    }
  }

  /** Losing U+11A7 leaves the text composed so far as it is. */
  lemma {:induction false} DropKeeps(u: Ucd, out: seq<int>, c: int)
    requires DropsNow(u, out, c)
    ensures Absorb(u, out, c) == out
  {
    var l := LastStarter(u, out);
    assert ComposePair(u, out[l], c) == out[l];
    assert out[l := out[l]] == out;
  }

  /** Composing ignores what would be stripped. */
  lemma {:induction false} ComposedStrip(u: Ucd, out: seq<int>, rest: seq<int>)
    requires Sound(u) && Decomposed(u, rest)
    ensures Composed(u, out, rest) == Composed(u, out, Strip(TailOf(out), rest))
    decreases |rest|
  {
    hide Sound, Absorb, Decomposed, DropsNow;
    if rest != [] {
      var c, tail := rest[0], rest[1..];
      assert rest == [c] + tail;
      DecomposedTail(u, rest);
      DropsAtTail(u, out, c);
      if DropsNow(u, out, c) {
        DropKeeps(u, out, c);
        ComposedStrip(u, out, tail);
      } else {
        TailMoves(u, out, c);
        ComposedStrip(u, Absorb(u, out, c), tail);
        ComposeStep(u, out, c, Strip(TailOf(Absorb(u, out, c)), tail));
      }
    }
  }

  /** Decomposing a composed text gives the decomposition back, without the U+11A7 that were lost. */
  lemma {:induction false} NfcStrips(u: Ucd, s: seq<int>, k: bool)
    requires Sound(u)
    ensures Nfd(u, Nfc(u, s, k), false) == Strip(Plain, Nfd(u, s, k))
    ensures Nfd(u, Nfc(u, s, k), k) == Strip(Plain, Nfd(u, s, k))
    ensures Nfc(u, s, k) == Composed(u, [], Strip(Plain, Nfd(u, s, k)))
  {
    hide Sound, FullAll, Reordered, Composed, Drops, Kept, Ordered, Grounded, Decomposed, Strip, Nfd, Finds;
    assert Grounded(u) by { SoundGrounded(u); }
    var d := Nfd(u, s, k);
    var r := Strip(Plain, d);
    NfdDecomposed(u, s, k);
    ComposedStrip(u, [], d);
    StripDecomposed(u, Plain, d);
    StripFinds(Plain, d);
    DropsFound(u, [], r);
    ComposedEquivalent(u, [], r);
    assert FullAll(u, [], false) + r == r by { NothingFull(u); }
    StripAllOrdered(u, d);
    NfdOf(u, Composed(u, [], r), r);
    if k { NfcSettled(u, s); }
  }

  lemma {:induction false} NfdOf(u: Ucd, s: seq<int>, d: seq<int>)
    requires Grounded(u) && Equivalent(u.cc, FullAll(u, s, false), d) && Ordered(u.cc, d)
    ensures Nfd(u, s, false) == d
  {
    hide Grounded, Equivalent, Ordered, Reordered, FullAll;
    ReorderedDecides(u.cc, FullAll(u, s, false), d);
    ReorderedIdempotent(u.cc, d);
  }

  /** Normalizing what has been normalized changes nothing, by the same form or by NFC. */
  lemma {:induction false} NfcIdempotent(u: Ucd, s: seq<int>, k: bool)
    requires Sound(u)
    ensures Nfc(u, Nfc(u, s, k), false) == Nfc(u, s, k)
    ensures Nfc(u, Nfc(u, s, k), k) == Nfc(u, s, k)
  {
    hide Sound, Nfd, Composed, Strip;
    NfcStrips(u, s, k);
  }

  /** Two texts have the same composed form exactly when they differ, up to equivalence, only in lost U+11A7. */
  lemma {:induction false} NfcDecides(u: Ucd, s: seq<int>, t: seq<int>)
    requires Sound(u)
    ensures Nfc(u, s, false) == Nfc(u, t, false)
      <==> Strip(Plain, Nfd(u, s, false)) == Strip(Plain, Nfd(u, t, false))
  {
    hide Sound, Nfd, Composed, Strip, Nfc;
    NfcStrips(u, s, false);
    NfcStrips(u, t, false);
  }

  /** Where no U+11A7 can be lost, that is canonical equivalence. */
  lemma {:induction false} NfcDecidesEquivalence(u: Ucd, s: seq<int>, t: seq<int>)
    requires Sound(u)
    requires !(exists i :: LostAt(Nfd(u, s, false), i)) && !(exists i :: LostAt(Nfd(u, t, false), i))
    ensures Nfc(u, s, false) == Nfc(u, t, false) <==> Equivalent(u.cc, FullAll(u, s, false), FullAll(u, t, false))
  {
    hide Sound, Composed, Strip, Nfc, Finds, LostAt, Equivalent, Reordered, FullAll, Grounded;
    assert Grounded(u) by { SoundGrounded(u); }
    NfcDecides(u, s, t);
    FindsMeans(Plain, Nfd(u, s, false));
    FindsMeans(Plain, Nfd(u, t, false));
    StripFinds(Plain, Nfd(u, s, false));
    StripFinds(Plain, Nfd(u, t, false));
    ReorderedDecides(u.cc, FullAll(u, s, false), FullAll(u, t, false));
  }

  /** The input that shows it: three code points are composed to one syllable, which decomposes to two. */
  lemma {:induction false} LostExample(u: Ucd)
    requires Sound(u)
    ensures var s := [0x1100, 0x1161, 0x11a7];
            && Nfd(u, s, false) == s && Nfc(u, s, false) == [0xac00]
            && Nfd(u, Nfc(u, s, false), false) == [0x1100, 0x1161]
  {
    var s := [0x1100, 0x1161, 0x11a7];
    JamoDecomposed(u, s, false);
    OrderedJamo(u, s);
    LostComposed(u);
    FullOne(u, 0xac00, false);
    OrderedJamo(u, [0x1100, 0x1161]);
    assert HangulJamo(0xac00) == [0x1100, 0x1161];
  }

  lemma {:induction false} OrderedJamo(u: Ucd, s: seq<int>)
    requires Sound(u) && forall i :: 0 <= i < |s| ==> Jamo(s[i])
    ensures Reordered(u.cc, s) == s
  {
    forall i | 0 < i < |s| ensures InPlace(u.cc, s[i - 1], s[i]) {
      assert HangulStarter(u, s[i]);
    }
    ReorderedIdempotent(u.cc, s);
  }

  lemma {:induction false} LostComposed(u: Ucd)
    requires Sound(u)
    ensures Composed(u, [], [0x1100, 0x1161, 0x11a7]) == [0xac00]
  {
    hide Grounded;
    var s := [0x1100, 0x1161, 0x11a7];
    assert HangulStarter(u, 0x1100) && HangulStarter(u, 0xac00);
    assert s[1..] == [0x1161, 0x11a7] && [0x1161, 0x11a7][1..] == [0x11a7] && [0x11a7][1..] == [];
    assert Absorb(u, [], 0x1100) == [0x1100];
    assert Absorb(u, [0x1100], 0x1161) == [0xac00];
    assert Absorb(u, [0xac00], 0x11a7) == [0xac00];
    ComposeStep(u, [], 0x1100, [0x1161, 0x11a7]);
    ComposeStep(u, [0x1100], 0x1161, [0x11a7]);
    ComposeStep(u, [0xac00], 0x11a7, []);
    assert s == [0x1100] + [0x1161, 0x11a7];
    assert [0x1161, 0x11a7] == [0x1161] + [0x11a7] && [0x11a7] == [0x11a7] + [];
  }

  // ---------- composites come back ----------

  lemma {:induction false} ComposedConcat(u: Ucd, out: seq<int>, s: seq<int>, t: seq<int>)
    ensures Composed(u, out, s + t) == Composed(u, Composed(u, out, s), t)
    decreases |s|
  {
    hide Absorb;
    if s == [] {
      assert s + t == t;
    } else {
      assert (s + t)[1..] == s[1..] + t;
      ComposedConcat(u, Absorb(u, out, s[0]), s[1..], t);
    }
  }

  /** Two starters that do not compose stay apart. */
  lemma {:induction false} AppendStarter(u: Ucd, out: seq<int>, c: int)
    requires out != [] ==> u.cc(out[|out| - 1]) == 0 && ComposePair(u, out[|out| - 1], c) == 0
    ensures Absorb(u, out, c) == out + [c]
  {
    hide ComposePair;
    if out != [] { LastStarterMeans(u, out, |out| - 1); }
  }

  /** A pair that composes does so behind any text. */
  lemma {:induction false} MergeLast(u: Ucd, out: seq<int>, a: int, c: int)
    requires u.cc(a) == 0 && ComposePair(u, a, c) != 0
    ensures Absorb(u, out + [a], c) == out + [ComposePair(u, a, c)]
  {
    hide ComposePair;
    var s := out + [a];
    LastStarterMeans(u, s, |out|);
    NothingBehind(u, s, c);
    assert s[|out| := ComposePair(u, a, c)] == out + [ComposePair(u, a, c)];
  }

  /** No leading consonant is taken into what is before it. */
  lemma {:induction false} LeadStays(u: Ucd, a: int, c: int)
    requires Sound(u) && u.cc(a) == 0 && JamoL(c)
    ensures ComposePair(u, a, c) == 0
  {
    hide Grounded;
    assert PairSound(u, a, c);
  }

  /** The jamo of a syllable are composed to the syllable, whatever is before. */
  lemma {:induction false} JamoCompose(u: Ucd, out: seq<int>, c: int)
    requires Sound(u) && Syllable(c) && (out != [] ==> u.cc(out[|out| - 1]) == 0)
    ensures Composed(u, out, HangulJamo(c)) == out + [c]
  {
    hide Grounded, Absorb, ComposePair, Composed;
    var i := c - 0xac00;
    var l, v, t := 0x1100 + i / 588, 0x1161 + i % 588 / 28, 0x11a7 + i % 28;
    var lv := c - i % 28;
    assert HangulStarter(u, l) && HangulStarter(u, lv);
    if out != [] { LeadStays(u, out[|out| - 1], l); }
    AppendStarter(u, out, l);
    HangulPairs(u, c);
    MergeLast(u, out, l, v);
    ComposeStep(u, out, l, HangulJamo(c)[1..]);
    assert HangulJamo(c) == [l] + HangulJamo(c)[1..];
    ComposeStep(u, out + [l], v, HangulJamo(c)[2..]);
    assert HangulJamo(c)[1..] == [v] + HangulJamo(c)[2..];
    if i % 28 == 0 {
      ComposeEnd(u, out + [c]);
      assert HangulJamo(c)[2..] == [];
    } else {
      MergeLast(u, out, lv, t);
      ComposeStep(u, out + [lv], t, []);
      ComposeEnd(u, out + [c]);
      assert HangulJamo(c)[2..] == [t] + [];
    }
  }

  /** compose_pair undoes the arithmetic of the decomposition. */
  lemma {:induction false} HangulPairs(u: Ucd, c: int)
    requires Syllable(c)
    ensures var j, lv := HangulJamo(c), c - (c - 0xac00) % 28;
            && |j| == (if c == lv then 2 else 3) && SyllableLV(lv) && JamoL(j[0])
            && ComposePair(u, j[0], j[1]) == lv && (|j| == 3 ==> ComposePair(u, lv, j[2]) == c)
  {
    var q, t := (c - 0xac00) / 28, (c - 0xac00) % 28;
    Jamo28(q, t);
    Jamo28(q, 0);
  }

  ghost predicate Syllables(s: seq<int>) {
    forall i :: 0 <= i < |s| ==> Syllable(s[i])
  }

  lemma {:induction false} SyllablesCompose(u: Ucd, out: seq<int>, s: seq<int>, k: bool)
    requires Sound(u) && Syllables(s) && (out != [] ==> u.cc(out[|out| - 1]) == 0)
    ensures Composed(u, out, FullAll(u, s, k)) == out + s
    decreases |s|
  {
    hide Composed, Grounded;
    if s == [] {
      ComposeEnd(u, out);
      assert out + s == out;
    } else {
      assert Syllables(s[1..]);
      assert HangulStarter(u, s[0]);
      JamoCompose(u, out, s[0]);
      ComposedConcat(u, out, HangulJamo(s[0]), FullAll(u, s[1..], k));
      SyllablesCompose(u, out + [s[0]], s[1..], k);
      assert out + [s[0]] + s[1..] == out + s;
    }
  }

  lemma {:induction false} SyllablesJamo(u: Ucd, s: seq<int>, k: bool)
    requires Sound(u) && Syllables(s)
    ensures forall i :: 0 <= i < |FullAll(u, s, k)| ==> Jamo(FullAll(u, s, k)[i])
    decreases |s|
  {
    hide Grounded;
    if s != [] {
      assert Syllables(s[1..]);
      SyllablesJamo(u, s[1..], k);
      assert forall i :: 0 <= i < |HangulJamo(s[0])| ==> Jamo(HangulJamo(s[0])[i]);
    }
  }

  /** Text of Hangul syllables is its own composed form, and what composing its jamo gives. */
  lemma {:induction false} SyllablesKept(u: Ucd, s: seq<int>, k: bool)
    requires Sound(u) && Syllables(s)
    ensures Nfc(u, s, k) == s && Nfc(u, FullAll(u, s, k), k) == s
  {
    hide FullAll, Reordered, Composed, Grounded, Ordered, Nfc, Nfd;
    var d := FullAll(u, s, k);
    SyllablesJamo(u, s, k);
    OrderedJamo(u, d);
    SyllablesCompose(u, [], s, k);
    assert [] + s == s;
    assert Nfd(u, s, k) == d && Nfc(u, s, k) == s by { NfcOfOrdered(u, s, k); }
    JamoDecomposed(u, d, k);
    assert Nfc(u, d, k) == s by { NfcOfOrdered(u, d, k); }
  }

  lemma {:induction false} NfcOfOrdered(u: Ucd, s: seq<int>, k: bool)
    requires Grounded(u)
    ensures Reordered(u.cc, FullAll(u, s, k)) == FullAll(u, s, k) ==>
              Nfd(u, s, k) == FullAll(u, s, k) && Nfc(u, s, k) == Composed(u, [], FullAll(u, s, k))
  {
    hide Grounded;
  }

  lemma {:induction false} JamoDecomposed(u: Ucd, s: seq<int>, k: bool)
    requires Grounded(u) && forall i :: 0 <= i < |s| ==> Jamo(s[i])
    ensures FullAll(u, s, k) == s
    decreases |s|
  {
    if s != [] {
      JamoDecomposed(u, s[1..], k);
      assert u.decomp(s[0], k) == [];
      assert s == [s[0]] + s[1..];
    }
  }

  /** The tables decompose c into a pair that they compose to c, whose first part they give back in the same way. */
  ghost predicate TakesBack(u: Ucd, c: int)
    requires Grounded(u)
    decreases u.rank(c)
  {
    && u.cc(c) == 0 && !Syllable(c)
    && (u.decomp(c, false) != [] ==>
          && c != 0 && |u.decomp(c, false)| == 2
          && u.pair(u.decomp(c, false)[0], u.decomp(c, false)[1]) == c && Atomic(u, u.decomp(c, false)[1])
          && u.rank(u.decomp(c, false)[0]) < u.rank(c) && TakesBack(u, u.decomp(c, false)[0]))
  }

  lemma {:induction false} ChainComposes(u: Ucd, c: int)
    requires Sound(u) && TakesBack(u, c)
    ensures Composed(u, [], Full(u, c, false)) == [c]
    decreases u.rank(c)
  {
    hide Composed, FullAll;
    var d := u.decomp(c, false);
    if d == [] {
      assert Full(u, c, false) == [c] + [];
      ComposeStep(u, [], c, []);
      AbsorbFirst(u, c);
      ComposeEnd(u, [c]);
    } else {
      var a, b := d[0], d[1];
      assert PairSound(u, a, b);
      ChainComposes(u, a);
      FullPair(u, c, a, b);
      ComposedConcat(u, [], Full(u, a, false), [b]);
      PairOfTable(u, a, b);
      MergeLast(u, [], a, b);
      assert [] + [a] == [a] && [] + [c] == [c] && [b] == [b] + [];
      ComposeStep(u, [a], b, []);
      ComposeEnd(u, [c]);
    }
  }

  lemma {:induction false} PairOfTable(u: Ucd, a: int, b: int)
    requires Sound(u) && u.cc(a) == 0 && u.pair(a, b) != 0
    ensures ComposePair(u, a, b) == u.pair(a, b)
  {
    hide Grounded;
    assert PairSound(u, a, b);
  }

  lemma {:induction false} ComposedLonger(u: Ucd, out: seq<int>, rest: seq<int>)
    ensures |Composed(u, out, rest)| >= |out|
    decreases |rest|
  {
    hide ComposePair, Blocked, LastStarter;
    if rest != [] { ComposedLonger(u, Absorb(u, out, rest[0]), rest[1..]); }
  }

  /** Where a single character is left, nothing was put out of its order. */
  lemma {:induction false} SingleLeft(u: Ucd, x: int, rest: seq<int>)
    requires Sound(u) && Decomposed(u, rest) && !Drops(u, [x], rest) && |Composed(u, [x], rest)| == 1
    ensures FullAll(u, Composed(u, [x], rest), false) == Full(u, x, false) + rest
    decreases |rest|
  {
    hide FullAll, Full, Grounded, Atomic, ComposePair, Decomposed, PairSound, HangulStarter, Blocked;
    if rest == [] {
      FullOne(u, x, false);
      assert Full(u, x, false) + rest == Full(u, x, false);
    } else {
      var c, tail := rest[0], rest[1..];
      DecomposedTail(u, rest);
      if Merges(u, [x], c) {
        var p := ComposePair(u, x, c);
        LastStarterIs(u, [x]);
        CompositeFull(u, x, c);
        DropsHere(u, x, c);
        SingleLeft(u, p, tail);
        assert Full(u, x, false) + [c] + tail == Full(u, x, false) + rest;
      } else {
        ComposedLonger(u, [x] + [c], tail);
      }
    }
  }

  lemma {:induction false} DropsHere(u: Ucd, x: int, c: int)
    requires Merges(u, [x], c)
    ensures LastStarter(u, [x]) == 0 && Absorb(u, [x], c) == [ComposePair(u, x, c)]
    ensures DropsNow(u, [x], c) <==> SyllableLV(x) && c == 0x11a7
  {
    hide ComposePair;
    assert [x][0 := ComposePair(u, x, c)] == [ComposePair(u, x, c)];
  }

  /**
   * A character that the tables give back step by step is its own composed form, exactly when the
   * order in which they take it apart is the canonical one.
   */
  lemma {:induction false} PrecomposedKept(u: Ucd, c: int)
    requires Sound(u) && TakesBack(u, c)
    ensures Nfc(u, [c], false) == [c] <==> Ordered(u.cc, Full(u, c, false))
    ensures Ordered(u.cc, Full(u, c, false)) ==> Nfc(u, Full(u, c, false), false) == [c]
  {
    hide FullAll, Full, Reordered, Composed, Sound, Grounded, Ordered, TakesBack, Drops, Decomposed, Nfc, Nfd;
    assert Grounded(u) by { SoundGrounded(u); }
    var f := Full(u, c, false);
    FullOne(u, c, false);
    FullDecomposed(u, c, false);
    ChainComposes(u, c);
    NfcOfOrdered(u, [c], false);
    FullAtomic(u, f);
    NfcOfOrdered(u, f, false);
    if Ordered(u.cc, f) { ReorderedIdempotent(u.cc, f); }
    if Nfc(u, [c], false) == [c] { OrderFollows(u, c); }
  }

  lemma {:induction false} OrderFollows(u: Ucd, c: int)
    requires Sound(u) && Nfc(u, [c], false) == [c]
    ensures Ordered(u.cc, Full(u, c, false))
  {
    hide FullAll, Full, Reordered, Composed, Sound, Ordered, Decomposed, Drops, Partial, Grounded;
    assert Grounded(u) by { SoundGrounded(u); }
    var d := Nfd(u, [c], false);
    NfdDecomposed(u, [c], false);
    FullOne(u, c, false);
    ReorderedPermutes(u.cc, FullAll(u, [c], false));
    assert Partial(u, []) by { NothingPartial(u); }
    assert FullAll(u, [], false) == [] by { NothingFull(u); }
    ComposedLength(u, [], d);
    assert !Drops(u, [], d);
    FirstStep(u, d);
    SingleLeft(u, d[0], d[1..]);
    assert Full(u, d[0], false) == [d[0]] by { DecomposedTail(u, d); FullOfAtomic(u, d[0]); }
    assert [d[0]] + d[1..] == d;
  }

  lemma {:induction false} NothingPartial(u: Ucd)
    ensures Partial(u, [])
  {
  }

  lemma {:induction false} FirstStep(u: Ucd, d: seq<int>)
    requires |Composed(u, [], d)| == 1 && !Drops(u, [], d) && Decomposed(u, d)
    ensures d != [] && Composed(u, [], d) == Composed(u, [d[0]], d[1..]) && !Drops(u, [d[0]], d[1..]) && Decomposed(u, d[1..])
  {
    hide Absorb, DropsNow, Atomic;
    if d != [] { AbsorbFirst(u, d[0]); }
  }

  /** What the tables say about the first 256 code points: they compose back, and never stand second in a pair. */
  predicate Latin1Char(u: Ucd, c: int) {
    var d := u.decomp(c, false);
    && u.cc(c) == 0
    && (d == [] || (|d| == 2 && c != 0 && 0 <= d[0] < 0x100 && Atomic(u, d[0]) && Atomic(u, d[1]) && u.cc(d[1]) != 0 && u.pair(d[0], d[1]) == c))
  }

  predicate NotSecond(u: Ucd, a: int, c: int) {
    u.pair(a, c) == 0
  }

  ghost predicate Latin1Sound(u: Ucd) {
    && (forall c :: 0 <= c < 0x100 ==> Latin1Char(u, c))
    && (forall a, c :: 0 <= c < 0x100 ==> NotSecond(u, a, c))
  }

  predicate Latin1(s: seq<int>) {
    forall i :: 0 <= i < |s| ==> 0 <= s[i] < 0x100
  }

  lemma {:induction false} Latin1Full(u: Ucd, c: int)
    requires Sound(u) && Latin1Sound(u) && 0 <= c < 0x100
    ensures u.decomp(c, false) == [] ==> Full(u, c, false) == [c]
    ensures u.decomp(c, false) != [] ==> Full(u, c, false) == u.decomp(c, false)
  {
    hide FullAll;
    assert Latin1Char(u, c);
    var d := u.decomp(c, false);
    if d != [] {
      assert d == [d[0]] + [d[1]];
      FullConcat(u, [d[0]], [d[1]], false);
      FullOne(u, d[0], false);
      FullOne(u, d[1], false);
    }
  }

  lemma {:induction false} Latin1Absorb(u: Ucd, out: seq<int>, c: int)
    requires Sound(u) && Latin1Sound(u) && Latin1(out) && 0 <= c < 0x100
    ensures Absorb(u, out, c) == out + [c]
  {
    hide Grounded;
    if out != [] {
      var l := |out| - 1;
      assert Latin1Char(u, out[l]) && NotSecond(u, out[l], c);
      LastStarterMeans(u, out, l);
    }
  }

  /** The mark is taken back into the letter it came from. */
  lemma {:induction false} Latin1Mark(u: Ucd, out: seq<int>, c: int)
    requires Sound(u) && Latin1Sound(u) && Latin1(out) && 0 <= c < 0x100 && u.decomp(c, false) != []
    ensures var d := u.decomp(c, false);
            |d| == 2 && Absorb(u, out + [d[0]], d[1]) == out + [c]
  {
    hide Grounded;
    assert Latin1Char(u, c);
    var d := u.decomp(c, false);
    assert Latin1Char(u, d[0]);
    var longer := out + [d[0]];
    LastStarterMeans(u, longer, |out|);
    NothingBehind(u, longer, d[1]);
    assert HangulStarter(u, d[1]);
    assert longer[|out| := c] == out + [c];
  }

  /** From any point on, a Latin-1 text composes back to itself. */
  lemma {:induction false} Latin1Composed(u: Ucd, out: seq<int>, rest: seq<int>)
    requires Sound(u) && Latin1Sound(u) && Latin1(out) && Latin1(rest)
    ensures Composed(u, out, FullAll(u, rest, false)) == out + rest
    decreases |rest|
  {
    hide Absorb, Full, Latin1Sound, Grounded;
    if rest == [] {
      assert out + rest == out;
    } else {
      var c, tail := rest[0], FullAll(u, rest[1..], false);
      var d := u.decomp(c, false);
      Latin1Full(u, c);
      Latin1Composed(u, out + [c], rest[1..]);
      assert out + [c] + rest[1..] == out + rest;
      if d == [] {
        Latin1Absorb(u, out, c);
        ComposeStep(u, out, c, tail);
      } else {
        Latin1Mark(u, out, c);
        assert 0 <= d[0] < 0x100 by { LetterSmall(u, c); }
        Latin1Absorb(u, out, d[0]);
        ComposeStep(u, out, d[0], [d[1]] + tail);
        ComposeStep(u, out + [d[0]], d[1], tail);
        assert d + tail == [d[0]] + ([d[1]] + tail);
      }
    }
  }

  lemma {:induction false} LetterSmall(u: Ucd, c: int)
    requires Latin1Sound(u) && 0 <= c < 0x100 && u.decomp(c, false) != []
    ensures 0 <= u.decomp(c, false)[0] < 0x100
  {
    assert Latin1Char(u, c);
  }

  /** No two marks in a row, so the decomposition is in order as it is. */
  lemma {:induction false} Latin1Ordered(u: Ucd, s: seq<int>)
    requires Sound(u) && Latin1Sound(u) && Latin1(s)
    ensures Ordered(u.cc, FullAll(u, s, false))
    ensures s != [] ==> FullAll(u, s, false) != [] && u.cc(FullAll(u, s, false)[0]) == 0
    decreases |s|
  {
    hide Full, Grounded, Latin1Sound;
    if s != [] {
      var c, tail := s[0], FullAll(u, s[1..], false);
      Latin1Ordered(u, s[1..]);
      Latin1Full(u, c);
      LettersFirst(u, c);
      JoinOrdered(u, Full(u, c, false), tail);
    }
  }

  lemma {:induction false} LettersFirst(u: Ucd, c: int)
    requires Latin1Sound(u) && 0 <= c < 0x100
    ensures var d := if u.decomp(c, false) == [] then [c] else u.decomp(c, false);
            1 <= |d| <= 2 && u.cc(d[0]) == 0
  {
    assert Latin1Char(u, c);
    if u.decomp(c, false) != [] { assert Latin1Char(u, u.decomp(c, false)[0]); }
  }

  lemma {:induction false} JoinOrdered(u: Ucd, d: seq<int>, tail: seq<int>)
    requires 1 <= |d| <= 2 && u.cc(d[0]) == 0 && Ordered(u.cc, tail) && (tail != [] ==> u.cc(tail[0]) == 0)
    ensures Ordered(u.cc, d + tail)
  {
    forall i | 0 < i < |d + tail| ensures InPlace(u.cc, (d + tail)[i - 1], (d + tail)[i]) {
      if i > |d| { assert InPlace(u.cc, tail[i - |d| - 1], tail[i - |d|]); }
    }
  }

  /** Returning Latin-1 text at once gives what decomposing and composing would give. */
  lemma {:induction false} Latin1Shortcut(u: Ucd, s: seq<int>)
    requires Sound(u) && Latin1Sound(u) && Latin1(s)
    ensures Nfc(u, s, false) == s
  {
    hide Composed, FullAll, Reordered, Ordered, Latin1Sound, Grounded;
    Latin1Ordered(u, s);
    ReorderedIdempotent(u.cc, FullAll(u, s, false));
    Latin1Composed(u, [], s);
    assert [] + s == s;
  }

  datatype Form = NFC | NFD | NFKC | NFKD

  /** unicode_normalize */
  method UnicodeNormalize(u: Ucd, src: seq<int>, nType: Form) returns (dst: seq<int>)
    requires Sound(u) && Latin1Sound(u) && forall i :: 0 <= i < |src| ==> 0 <= src[i]
    ensures dst == match nType
      case NFC => Nfc(u, src, false)
      case NFD => Nfd(u, src, false)
      case NFKC => Nfc(u, src, true)
      case NFKD => Nfd(u, src, true)
  {
    hide Composed, FullAll, Reordered, Ordered, Latin1Sound, Sound, Grounded;
    assert Grounded(u) by { SoundGrounded(u); }
    var isCompat := nType == NFKC || nType == NFKD;
    if nType == NFC {
      var i := 0;
      while i < |src| && src[i] < 0x100
        invariant 0 <= i <= |src| && Latin1(src[..i])
      {
        i := i + 1;
      }
      if i == |src| {
        assert src[..i] == src;
        Latin1Shortcut(u, src);
        return src;
      }
    }
    var dbuf := new DynBuf();
    dbuf.ToNfdRec(u, src, isCompat);
    assert [] + FullAll(u, src, isCompat) == FullAll(u, src, isCompat);
    var buf := new int[|dbuf.buf|](i requires 0 <= i < |dbuf.buf| reads dbuf => dbuf.buf[i]);
    assert buf[..] == dbuf.buf;
    SortCc(u.cc, buf);
    assert buf[..] == Nfd(u, src, isCompat);
    if buf.Length <= 1 || nType == NFD || nType == NFKD {
      ShortComposed(u, buf[..]);
      return buf[..];
    }
    assert Ordered(u.cc, buf[..]) by { ReorderedOrdered(u.cc, FullAll(u, src, isCompat)); }
    var outLen := ComposeLoop(u, buf);
    return buf[..outLen];
  }

  lemma {:induction false} ShortComposed(u: Ucd, s: seq<int>)
    ensures |s| <= 1 ==> Composed(u, [], s) == s
  {
    if |s| == 1 {
      assert s[1..] == [] && [] + [s[0]] == s;
    }
  }

  /** U+00C0 and U+0344 with their marks, as the shipped tables have them. */
  function SampleDecomp(c: int, k: bool): seq<int> {
    if c == 0xc0 then [0x41, 0x300] else if c == 0x344 then [0x308, 0x301] else []
  }

  function SamplePair(a: int, b: int): int {
    if a == 0x41 && b == 0x300 then 0xc0 else if a == 0x308 && b == 0x301 then 0x344 else 0
  }

  function SampleClass(c: int): nat {
    if c in {0x300, 0x301, 0x308, 0x344} then 230 else 0
  }

  function SampleRank(c: int): nat {
    if c == 0xc0 || c == 0x344 then 1 else 0
  }

  const SAMPLE := Ucd(SampleClass, SampleDecomp, SamplePair, SampleRank)

  /** The hypotheses can be met, also by tables that hold a pair of two combining characters. */
  lemma {:induction false} SampleSound()
    ensures Sound(SAMPLE) && Latin1Sound(SAMPLE)
    ensures SAMPLE.pair(0x308, 0x301) == 0x344 && SAMPLE.cc(0x344) == 230 && SAMPLE.pair(0x41, 0x300) == 0xc0
  {
    hide SampleClass, SampleDecomp, SamplePair, SampleRank, PairSound, HangulStarter, Latin1Char, NotSecond, Grounded;
    SampleValues();
    assert Grounded(SAMPLE) by { SampleGrounded(); }
    forall a, b ensures PairSound(SAMPLE, a, b) { SamplePairs(a, b); }
    forall c ensures HangulStarter(SAMPLE, c) { SampleStarter(c); }
    forall c ensures SAMPLE.cc(c) <= 255 { SampleStarter(c); }
    forall c | 0 <= c < 0x100 ensures Latin1Char(SAMPLE, c) { SampleLatin1(c, 0); }
    forall a, c | 0 <= c < 0x100 ensures NotSecond(SAMPLE, a, c) { SampleLatin1(c, a); }
  }

  lemma {:induction false} SampleValues()
    ensures SAMPLE.pair(0x308, 0x301) == 0x344 && SAMPLE.cc(0x344) == 230 && SAMPLE.pair(0x41, 0x300) == 0xc0
  {
  }

  lemma {:induction false} SampleGrounded()
    ensures Grounded(SAMPLE)
  {
    hide SampleClass, SamplePair;
  }

  lemma {:induction false} SamplePairs(a: int, b: int)
    ensures PairSound(SAMPLE, a, b)
  {
    hide SampleRank;
  }

  lemma {:induction false} SampleStarter(c: int)
    ensures HangulStarter(SAMPLE, c) && SAMPLE.cc(c) <= 255
  {
    hide SampleDecomp, SamplePair, SampleRank;
  }

  lemma {:induction false} SampleLatin1(c: int, a: int)
    requires 0 <= c < 0x100
    ensures Latin1Char(SAMPLE, c) && NotSecond(SAMPLE, a, c)
  {
  }
}
