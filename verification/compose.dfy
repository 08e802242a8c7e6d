/** Composition: the in-place loop of unicode_normalize, and when it keeps canonical equivalence. */
module Compose {

  import opened Decompose
  import opened Reorder

  /** compose_pair: 0 when there is no composite. */
  function ComposePair(u: Ucd, c0: int, c1: int): int {
    if JamoL(c0) && JamoV(c1) then 0xac00 + (c0 - 0x1100) * 588 + (c1 - 0x1161) * 28
    else if SyllableLV(c0) && JamoT(c1) then c0 + c1 - 0x11a7
    else u.pair(c0, c1)
  }

  /**
   * A composite of the table that begins with a starter is a starter, decomposes into its pair, and
   * has no part in Hangul. (The table also holds four pairs of two combining characters, such as
   * U+0308 U+0301, which the loop never looks up.)
   */
  predicate PairSound(u: Ucd, a: int, b: int) {
    var p := u.pair(a, b);
    u.cc(a) == 0 && p != 0 ==>
      && u.cc(p) == 0 && u.decomp(p, false) == [a, b] && !Syllable(p)
      && !JamoL(a) && !Syllable(a) && !Jamo(b) && !Syllable(b)
  }

  predicate HangulStarter(u: Ucd, c: int) {
    Jamo(c) || Syllable(c) ==> u.cc(c) == 0
  }

  ghost predicate Sound(u: Ucd) {
    && Grounded(u)
    && (forall a, b :: PairSound(u, a, b))
    && (forall c :: HangulStarter(u, c))
    && (forall c :: u.cc(c) <= 255)
  }

  /** The position of the last starter, or -1. */
  function LastStarter(u: Ucd, s: seq<int>): (l: int)
    ensures -1 <= l < |s|
    decreases |s|
  {
    if s == [] || u.cc(s[|s| - 1]) == 0 then |s| - 1 else LastStarter(u, s[..|s| - 1])
  }

  /** Something behind position l has at least the class of c. */
  predicate Blocked(u: Ucd, s: seq<int>, l: int, c: int)
    requires -1 <= l
  {
    exists k :: l < k < |s| && u.cc(s[k]) >= u.cc(c)
  }

  predicate Merges(u: Ucd, out: seq<int>, c: int) {
    var l := LastStarter(u, out);
    l >= 0 && !Blocked(u, out, l, c) && ComposePair(u, out[l], c) != 0
  }

  /** The canonical composition algorithm, for one more character. */
  function Absorb(u: Ucd, out: seq<int>, c: int): seq<int> {
    var l := LastStarter(u, out);
    if Merges(u, out, c) then out[l := ComposePair(u, out[l], c)] else out + [c]
  }

  function Composed(u: Ucd, out: seq<int>, rest: seq<int>): seq<int>
    decreases |rest|
  {
    if rest == [] then out else Composed(u, Absorb(u, out, rest[0]), rest[1..])
  }

  lemma {:induction false} LastStarterMeans(u: Ucd, s: seq<int>, l: int)
    requires -1 <= l < |s| && (l >= 0 ==> u.cc(s[l]) == 0)
    requires forall k :: l < k < |s| ==> u.cc(s[k]) != 0
    ensures LastStarter(u, s) == l
    decreases |s|
  {
    if s != [] && u.cc(s[|s| - 1]) != 0 { LastStarterMeans(u, s[..|s| - 1], l); }
  }

  lemma {:induction false} LastStarterIs(u: Ucd, s: seq<int>)
    ensures var l := LastStarter(u, s);
            (l >= 0 ==> u.cc(s[l]) == 0) && forall k :: l < k < |s| ==> u.cc(s[k]) != 0
    decreases |s|
  {
    if s != [] && u.cc(s[|s| - 1]) != 0 {
      LastStarterIs(u, s[..|s| - 1]);
    }
  }

  /** In ordered text the classes between the last starter and position k do not exceed that at k. */
  lemma {:induction false} TailClimbs(u: Ucd, s: seq<int>, l: int, j: int, k: int)
    requires Ordered(u.cc, s) && -1 <= l < j <= k < |s| && forall i :: l < i < |s| ==> u.cc(s[i]) != 0
    ensures u.cc(s[j]) <= u.cc(s[k])
    decreases k
  {
    if j < k {
      TailClimbs(u, s, l, j, k - 1);
      assert InPlace(u.cc, s[k - 1], s[k]);
    }
  }

  /** Only the character just before c can block it. */
  lemma {:induction false} BlockedByLast(u: Ucd, s: seq<int>, l: int, c: int)
    requires Ordered(u.cc, s) && -1 <= l < |s| && forall i :: l < i < |s| ==> u.cc(s[i]) != 0
    ensures Blocked(u, s, l, c) <==> l < |s| - 1 && u.cc(s[|s| - 1]) >= u.cc(c)
  {
    if Blocked(u, s, l, c) {
      var k :| l < k < |s| && u.cc(s[k]) >= u.cc(c);
      TailClimbs(u, s, l, k, |s| - 1);
    }
  }

  /** The inner search of unicode_normalize: the starter to compose with, or -1 when there is none or it is blocked. */
  method FindStarter(u: Ucd, buf: array<int>, outLen: nat, c: int) returns (starterPos: int)
    requires 1 <= outLen <= buf.Length && Sound(u) && Ordered(u.cc, buf[..outLen])
    ensures -1 <= starterPos < outLen
    ensures var l := LastStarter(u, buf[..outLen]);
            starterPos == if l >= 0 && !Blocked(u, buf[..outLen], l, c) then l else -1
  {
    hide LastStarter, Blocked, Sound, Ordered;
    ghost var out := buf[..outLen];
    ghost var l := LastStarter(u, out);
    LastStarterIs(u, out);
    BlockedByLast(u, out, l, c);
    assert u.cc(c) <= 255 by { CcBound(u, c); }
    var lastCc := u.cc(c);
    starterPos := outLen - 1;
    while starterPos >= 0
      invariant l <= starterPos < outLen && -1 <= starterPos
      invariant lastCc == if starterPos == outLen - 1 then u.cc(c) else 256
      invariant starterPos < outLen - 1 ==> l < |out| - 1 && u.cc(out[|out| - 1]) < u.cc(c)
    {
      CcBound(u, buf[starterPos]);
      assert buf[starterPos] == out[starterPos];
      var cc := u.cc(buf[starterPos]);
      if cc == 0 {
        break;
      }
      if cc >= lastCc {
        return -1;
      }
      lastCc := 256;
      starterPos := starterPos - 1;
    }
  }

  lemma {:induction false} CcBound(u: Ucd, c: int)
    requires Sound(u)
    ensures u.cc(c) <= 255
  {
  }

  /** Taking one character in leaves the rest in order. */
  lemma {:induction false} AbsorbOrdered(u: Ucd, out: seq<int>, c: int, rest: seq<int>)
    requires Sound(u) && Ordered(u.cc, out + ([c] + rest))
    ensures Ordered(u.cc, Absorb(u, out, c) + rest)
  {
    hide LastStarter, Blocked, Sound, ComposePair;
    var all := out + ([c] + rest);
    if Merges(u, out, c) {
      var l := LastStarter(u, out);
      LastStarterIs(u, out);
      var p := ComposePair(u, out[l], c);
      CompositeStarter(u, out[l], c);
      var now := out[l := p] + rest;
      forall i | 0 < i < |now| ensures InPlace(u.cc, now[i - 1], now[i]) {
        JoinInPlace(u, out, c, rest, l, p, i);
      }
    } else {
      assert out + [c] + rest == all;
    }
  }

  lemma {:induction false} CompositeStarter(u: Ucd, a: int, b: int)
    requires Sound(u) && u.cc(a) == 0 && ComposePair(u, a, b) != 0
    ensures u.cc(ComposePair(u, a, b)) == 0
  {
    var p := ComposePair(u, a, b);
    assert HangulStarter(u, p) && PairSound(u, a, b);
    assert JamoL(a) && JamoV(b) ==> Syllable(p);
  }

  lemma {:induction false} JoinInPlace(u: Ucd, out: seq<int>, c: int, rest: seq<int>, l: int, p: int, i: nat)
    requires Ordered(u.cc, out + ([c] + rest)) && 0 <= l < |out| && u.cc(p) == 0 && u.cc(out[l]) == 0
    requires l == LastStarter(u, out) && !Blocked(u, out, l, c)
    requires 0 < i < |out| + |rest|
    ensures var now := out[l := p] + rest; InPlace(u.cc, now[i - 1], now[i])
  {
    hide LastStarter;
    var all, now := out + ([c] + rest), out[l := p] + rest;
    if i < |out| {
      assert InPlace(u.cc, all[i - 1], all[i]);
    } else if i == |out| {
      assert InPlace(u.cc, all[i], all[i + 1]);
      if l < |out| - 1 { assert u.cc(out[|out| - 1]) < u.cc(c); }
      assert all[i] == c && all[i + 1] == rest[0];
    } else {
      assert InPlace(u.cc, all[i], all[i + 1]);
    }
  }

  /** The composition loop of unicode_normalize, in place; the result is buf[..outLen]. */
  method ComposeLoop(u: Ucd, buf: array<int>) returns (outLen: nat)
    requires buf.Length >= 1 && Sound(u) && Ordered(u.cc, buf[..])
    modifies buf
    ensures outLen <= buf.Length && buf[..outLen] == Composed(u, [], old(buf[..]))
    ensures Ordered(u.cc, buf[..outLen])
  {
    hide Composed, Absorb, LastStarter, Blocked, Sound, Ordered, ComposePair;
    ghost var s := buf[..];
    var i := 1;
    outLen := 1;
    ComposeStart(u, s);
    assert buf[..1] == [s[0]];
    while i < buf.Length
      invariant 1 <= outLen <= i <= buf.Length && buf[i..] == s[i..]
      invariant Composed(u, buf[..outLen], s[i..]) == Composed(u, [], s)
      invariant Ordered(u.cc, buf[..outLen] + s[i..])
    {
      ghost var out, rest := buf[..outLen], s[i + 1..];
      assert buf[i] == buf[i..][0] == s[i..][0] == s[i];
      assert s[i..] == [s[i]] + rest && buf[i + 1..] == buf[i..][1..] == rest;
      ComposeStep(u, out, s[i], rest);
      AbsorbOrdered(u, out, s[i], rest);
      assert Ordered(u.cc, out) by { OrderedPrefix(u.cc, out, s[i..]); }
      var starterPos := FindStarter(u, buf, outLen, buf[i]);
      AbsorbIs(u, out, s[i], starterPos);
      var p := 0;
      if starterPos >= 0 {
        p := ComposePair(u, buf[starterPos], buf[i]);
      }
      if p != 0 {
        buf[starterPos] := p;
        i := i + 1;
        assert buf[..outLen] == out[starterPos := p];
      } else {
        buf[outLen] := buf[i];
        outLen := outLen + 1;
        i := i + 1;
        assert buf[..outLen] == out + [s[i - 1]];
      }
      assert buf[i..] == rest;
    }
    assert s[i..] == [];
    assert buf[..outLen] + [] == buf[..outLen];
    ComposeEnd(u, buf[..outLen]);
  }

  lemma {:induction false} ComposeStart(u: Ucd, s: seq<int>)
    requires s != []
    ensures Composed(u, [], s) == Composed(u, [s[0]], s[1..]) && [s[0]] + s[1..] == s
  {
    hide Absorb;
    assert s == [s[0]] + s[1..];
    AbsorbFirst(u, s[0]);
  }

  lemma {:induction false} AbsorbFirst(u: Ucd, c: int)
    ensures Absorb(u, [], c) == [c]
  {
    hide Blocked, ComposePair;
    assert LastStarter(u, []) == -1;
    assert [] + [c] == [c];
  }

  lemma {:induction false} ComposeStep(u: Ucd, out: seq<int>, c: int, rest: seq<int>)
    ensures Composed(u, out, [c] + rest) == Composed(u, Absorb(u, out, c), rest)
  {
    assert ([c] + rest)[1..] == rest;
  }

  lemma {:induction false} ComposeEnd(u: Ucd, out: seq<int>)
    ensures Composed(u, out, []) == out
  {
  }

  lemma {:induction false} OrderedPrefix(cc: int -> nat, s: seq<int>, t: seq<int>)
    requires Ordered(cc, s + t)
    ensures Ordered(cc, s)
  {
    forall i | 0 < i < |s| ensures InPlace(cc, s[i - 1], s[i]) {
      assert InPlace(cc, (s + t)[i - 1], (s + t)[i]);
    }
  }

  lemma {:induction false} AbsorbIs(u: Ucd, out: seq<int>, c: int, starterPos: int)
    requires var l := LastStarter(u, out);
             starterPos == if l >= 0 && !Blocked(u, out, l, c) then l else -1
    ensures Absorb(u, out, c) ==
      if 0 <= starterPos < |out| && ComposePair(u, out[starterPos], c) != 0
      then out[starterPos := ComposePair(u, out[starterPos], c)] else out + [c]
  {
  }
}
