/** What a written pattern means is what the pattern meant: the tree that is read back has the same ways of matching,
    in the same order. */
module RegexSame {
  import opened RegexBytes
  import opened RegexSyntax
  import opened RegexMatch
  import opened RegexRoundTrip
  import opened RegexGrammar
  import opened RegexScan
  import opened RegexClass
  import opened RegexProgram
  import opened RegexMeaning
  import CharRanges

  /** Two patterns with the same ways of matching everywhere in the subject. */
  ghost predicate Same(a: Node, b: Node, s: Subject) {
    forall p: Pt | p.pos <= |s.text| :: Ends(a, s, p) == Ends(b, s, p)
  }

  // ---------- patterns with the same parts ----------

  lemma {:induction false} EachSame(k: Kont, k': Kont, s: Subject, ps: seq<Pt>, low: nat, low': nat, n: nat)
    requires forall e <- ps :: low <= e.pos <= |s.text| && low' <= e.pos && |e.caps| == n
    requires forall e: Pt | low <= e.pos <= |s.text| :: RegexMatch.After(k, s, e) == RegexMatch.After(k', s, e)
    ensures Each(k, s, ps, low, n) == Each(k', s, ps, low', n)
    decreases |ps|
  {
    hide RegexMatch.After;
    if ps != [] { EachSame(k, k', s, ps[1..], low, low', n); }
  }

  lemma {:induction false} EachJoin(k: Kont, s: Subject, ps: seq<Pt>, qs: seq<Pt>, low: nat, n: nat)
    requires forall e <- ps + qs :: low <= e.pos <= |s.text| && |e.caps| == n
    ensures forall e <- ps :: e in ps + qs
    ensures forall e <- qs :: e in ps + qs
    ensures Each(k, s, ps + qs, low, n) == Each(k, s, ps, low, n) + Each(k, s, qs, low, n)
    decreases |ps|
  {
    hide RegexMatch.After;
    if ps == [] {
      assert ps + qs == qs;
    } else {
      assert (ps + qs)[1..] == ps[1..] + qs;
      EachJoin(k, s, ps[1..], qs, low, n);
    }
  }

  lemma {:induction false} CatSame(a: Node, b: Node, a': Node, b': Node, s: Subject)
    requires Same(a, a', s) && Same(b, b', s)
    ensures Same(Cat(a, b), Cat(a', b'), s)
  {
    forall p: Pt | p.pos <= |s.text| ensures Ends(Cat(a, b), s, p) == Ends(Cat(a', b'), s, p) {
      CatEnds(a, b, s, p);
      CatEnds(a', b', s, p);
      assert forall e: Pt | e.pos <= |s.text| :: RegexMatch.After(KNode(b), s, e) == RegexMatch.After(KNode(b'), s, e);
      hide Each, RegexMatch.After, Ends;
      EachSame(KNode(b), KNode(b'), s, Ends(a, s, p), p.pos, p.pos, |p.caps|);
    }
  }

  lemma {:induction false} CatEnds(a: Node, b: Node, s: Subject, p: Pt)
    requires p.pos <= |s.text|
    ensures Ends(Cat(a, b), s, p) == Each(KNode(b), s, Ends(a, s, p), p.pos, |p.caps|)
  {
    hide Each;
  }

  lemma {:induction false} AltSame(a: Node, b: Node, a': Node, b': Node, s: Subject)
    requires Same(a, a', s) && Same(b, b', s)
    ensures Same(Alt(a, b), Alt(a', b'), s)
  {
    forall p: Pt | p.pos <= |s.text| ensures Ends(Alt(a, b), s, p) == Ends(Alt(a', b'), s, p) {
      AltEnds(a, b, s, p);
      AltEnds(a', b', s, p);
      hide Ends;
    }
  }

  lemma {:induction false} AltEnds(a: Node, b: Node, s: Subject, p: Pt)
    requires p.pos <= |s.text|
    ensures Ends(Alt(a, b), s, p) == Ends(a, s, p) + Ends(b, s, p)
  {
  }

  lemma {:induction false} PowerSame(a: Node, b: Node, k: nat, s: Subject, p: Pt)
    requires Same(a, b, s) && p.pos <= |s.text|
    ensures Power(a, k, s, p) == Power(b, k, s, p)
    decreases k
  {
    hide Ends;
    if k > 0 {
      forall e: Pt | p.pos <= e.pos <= |s.text| ensures Power(a, k - 1, s, e) == Power(b, k - 1, s, e) { PowerSame(a, b, k - 1, s, e); }
      EachSame(KPower(a, k - 1), KPower(b, k - 1), s, Ends(a, s, p), p.pos, p.pos, |p.caps|);
    }
  }

  lemma {:induction false} UpToSame(a: Node, b: Node, k: nat, greedy: bool, s: Subject, p: Pt)
    requires Same(a, b, s) && p.pos <= |s.text|
    ensures UpTo(a, k, greedy, s, p) == UpTo(b, k, greedy, s, p)
    decreases k
  {
    hide Ends;
    if k > 0 {
      forall e: Pt | p.pos <= e.pos <= |s.text| ensures UpTo(a, k - 1, greedy, s, e) == UpTo(b, k - 1, greedy, s, e) {
        UpToSame(a, b, k - 1, greedy, s, e);
      }
      EachSame(KUpTo(a, k - 1, greedy), KUpTo(b, k - 1, greedy), s, Ends(a, s, p), p.pos, p.pos, |p.caps|);
    }
  }

  lemma {:induction false} StarSame(a: Node, b: Node, greedy: bool, s: Subject, p: Pt)
    requires Same(a, b, s) && p.pos <= |s.text|
    ensures Star(a, greedy, s, p) == Star(b, greedy, s, p)
    decreases |s.text| - p.pos
  {
    hide Ends;
    var k, k' := KStar(a, greedy, p.pos), KStar(b, greedy, p.pos);
    forall e: Pt | p.pos <= e.pos <= |s.text| ensures RegexMatch.After(k, s, e) == RegexMatch.After(k', s, e) {
      if p.pos < e.pos { StarSame(a, b, greedy, s, e); }
    }
    EachSame(k, k', s, Ends(a, s, p), p.pos, p.pos, |p.caps|);
  }

  lemma {:induction false} QuantEnds(n: Node, s: Subject, p: Pt)
    requires n.Quant? && p.pos <= |s.text|
    ensures var p' := if n.min == 0 then p.(caps := ResetCaps(p.caps, n.lo, n.hi)) else p;
            Ends(n, s, p) == Each(KTail(n.atom, n.max == INT32_MAX, Bound(n.max, n.min), n.greedy), s,
                                  Power(n.atom, n.min, s, p'), p.pos, |p.caps|)
  {
    hide Each, Power, ResetCaps, Bound;
  }

  lemma {:induction false} QuantAt(a: Node, b: Node, min: nat, max: nat, greedy: bool, lo: nat, hi: nat, s: Subject, p: Pt)
    requires Same(a, b, s) && p.pos <= |s.text|
    ensures Ends(Quant(a, min, max, greedy, lo, hi), s, p) == Ends(Quant(b, min, max, greedy, lo, hi), s, p)
  {
    hide Same, Ends, Each, Power, UpTo, Star, ResetCaps, Bound;
    var bound := Bound(max, min);
    var k, k' := KTail(a, max == INT32_MAX, bound, greedy), KTail(b, max == INT32_MAX, bound, greedy);
    forall e: Pt | e.pos <= |s.text| ensures RegexMatch.After(k, s, e) == RegexMatch.After(k', s, e) {
      StarSame(a, b, greedy, s, e);
      UpToSame(a, b, bound, greedy, s, e);
    }
    hide RegexMatch.After;
    var p' := if min == 0 then p.(caps := ResetCaps(p.caps, lo, hi)) else p;
    PowerSame(a, b, min, s, p');
    EachSame(k, k', s, Power(a, min, s, p'), p.pos, p.pos, |p.caps|);
    QuantEnds(Quant(a, min, max, greedy, lo, hi), s, p);
    QuantEnds(Quant(b, min, max, greedy, lo, hi), s, p);
  }

  lemma {:induction false} QuantSame(a: Node, b: Node, min: nat, max: nat, greedy: bool, lo: nat, hi: nat, s: Subject)
    requires Same(a, b, s)
    ensures Same(Quant(a, min, max, greedy, lo, hi), Quant(b, min, max, greedy, lo, hi), s)
  {
    hide Ends;
    forall p: Pt | p.pos <= |s.text|
      ensures Ends(Quant(a, min, max, greedy, lo, hi), s, p) == Ends(Quant(b, min, max, greedy, lo, hi), s, p)
    {
      QuantAt(a, b, min, max, greedy, lo, hi, s, p);
    }
  }

  lemma {:induction false} CaptureEnds(i: nat, a: Node, s: Subject, p: Pt)
    requires p.pos <= |s.text|
    ensures var p' := p.(caps := SetCap(p.caps, 2 * i, p.pos));
            Ends(Capture(i, a), s, p) == Each(KSave(a, 2 * i + 1), s, Ends(a, s, p'), p.pos, |p.caps|)
  {
    hide SetCap, Each, RegexMatch.After;
  }

  lemma {:induction false} CaptureSame(i: nat, a: Node, b: Node, s: Subject)
    requires Same(a, b, s)
    ensures Same(Capture(i, a), Capture(i, b), s)
  {
    hide SetCap;
    var k, k' := KSave(a, 2 * i + 1), KSave(b, 2 * i + 1);
    forall p: Pt | p.pos <= |s.text| ensures Ends(Capture(i, a), s, p) == Ends(Capture(i, b), s, p) {
      var p' := p.(caps := SetCap(p.caps, 2 * i, p.pos));
      CaptureEnds(i, a, s, p);
      CaptureEnds(i, b, s, p);
      EachSame(k, k', s, Ends(a, s, p'), p.pos, p.pos, |p.caps|);
    }
  }

  lemma {:induction false} LookSame(a: Node, b: Node, neg: bool, s: Subject)
    requires Same(a, b, s)
    ensures Same(Look(a, neg), Look(b, neg), s)
  {
    forall p: Pt | p.pos <= |s.text| ensures Ends(Look(a, neg), s, p) == Ends(Look(b, neg), s, p) {
      LookEnds(a, neg, s, p);
      LookEnds(b, neg, s, p);
      hide Ends;
    }
  }

  lemma {:induction false} LookEnds(a: Node, neg: bool, s: Subject, p: Pt)
    requires p.pos <= |s.text|
    ensures var inner := Ends(a, s, p);
            Ends(Look(a, neg), s, p) == if neg == (inner != []) then [] else if neg then [p] else [p.(caps := inner[0].caps)]
  {
  }

  // ---------- sequences ----------

  lemma {:induction false} EmptyFirst(n: Node, s: Subject)
    ensures Same(Cat(Empty, n), n, s)
  {
    forall p: Pt | p.pos <= |s.text| ensures Ends(Cat(Empty, n), s, p) == Ends(n, s, p) {
      EachOne(KNode(n), s, p, p.pos, |p.caps|);
    }
  }

  lemma {:induction false} EachOfEmpty(s: Subject, ps: seq<Pt>, low: nat, n: nat)
    requires forall e <- ps :: low <= e.pos <= |s.text| && |e.caps| == n
    ensures Each(KNode(Empty), s, ps, low, n) == ps
    decreases |ps|
  {
    if ps != [] {
      EachOfEmpty(s, ps[1..], low, n);
      assert RegexMatch.After(KNode(Empty), s, ps[0]) == [ps[0]];
    }
  }

  lemma {:induction false} EmptyLast(n: Node, s: Subject)
    ensures Same(n, Cat(n, Empty), s)
  {
    forall p: Pt | p.pos <= |s.text| ensures Ends(Cat(n, Empty), s, p) == Ends(n, s, p) {
      EachOfEmpty(s, Ends(n, s, p), p.pos, |p.caps|);
    }
  }

  lemma {:induction false} EachOfCat(a: Node, b: Node, s: Subject, ps: seq<Pt>, low: nat, n: nat)
    requires forall e <- ps :: low <= e.pos <= |s.text| && |e.caps| == n
    ensures Each(KNode(Cat(a, b)), s, ps, low, n) == Each(KNode(b), s, Each(KNode(a), s, ps, low, n), low, n)
    decreases |ps|
  {
    if ps != [] {
      var e, rest := ps[0], ps[1..];
      var here, later := Ends(a, s, e), Each(KNode(a), s, rest, low, n);
      EachOfCat(a, b, s, rest, low, n);
      assert RegexMatch.After(KNode(Cat(a, b)), s, e) == Each(KNode(b), s, here, e.pos, n);
      EachSame(KNode(b), KNode(b), s, here, low, e.pos, n);
      assert Each(KNode(a), s, ps, low, n) == here + later;
      EachJoin(KNode(b), s, here, later, low, n);
    }
  }

  lemma {:induction false} CatShifts(a: Node, b: Node, c: Node, s: Subject)
    ensures Same(Cat(Cat(a, b), c), Cat(a, Cat(b, c)), s)
  {
    forall p: Pt | p.pos <= |s.text| ensures Ends(Cat(Cat(a, b), c), s, p) == Ends(Cat(a, Cat(b, c)), s, p) {
      EachOfCat(b, c, s, Ends(a, s, p), p.pos, |p.caps|);
    }
  }

  lemma {:induction false} SameSame(a: Node, b: Node, c: Node, s: Subject)
    requires Same(a, b, s) && Same(b, c, s)
    ensures Same(a, c, s)
  {
    hide Ends;
  }

  lemma {:induction false} SameAsSelf(a: Node, s: Subject)
    ensures Same(a, a, s)
  {
  }

  // ---------- the tree that is read ----------

  /** The dot, and the class that stands for it in the other mode, pass the same characters. */
  lemma {:induction false} LeafSame(t: Test, dotall: bool, s: Subject)
    ensures Same(Leaf(LeafTest(t, dotall)), Leaf(t), s)
  {
    hide CharRanges.Member;
    forall p: Pt | p.pos <= |s.text| ensures Ends(Leaf(LeafTest(t, dotall)), s, p) == Ends(Leaf(t), s, p) {
      if p.pos < |s.text| { PointsMean(s.text[p.pos]); }
    }
  }

  lemma {:induction false} PointsMean(c: CharUnit)
    ensures CharRanges.Member(LINE_POINTS, c) <==> !IsLineTerminator(c)
    ensures CharRanges.Member(ALL_POINTS, c)
  {
    hide CharRanges.Member, CharRanges.Count;
    TableMember(LINE_POINTS, c);
    TableMember(ALL_POINTS, c);
    assert CharRanges.Within(ALL_POINTS, 0, c);
    if 0 <= c < 10 { assert CharRanges.Within(LINE_POINTS, 0, c); }
    if 11 <= c < 13 { assert CharRanges.Within(LINE_POINTS, 1, c); }
    if 14 <= c < 0x2028 { assert CharRanges.Within(LINE_POINTS, 2, c); }
    if 0x202a <= c { assert CharRanges.Within(LINE_POINTS, 3, c); }
  }

  lemma {:induction false} ChoiceSame(n: Node, dotall: bool, s: Subject)
    ensures Same(AsChoice(n, dotall), n, s)
    decreases n, 2 * Order(n, 0) + 1
  {
    hide Same;
    ChoiceOf(n, dotall);
    if n.Alt? {
      ChoiceSame(n.left, dotall, s);
      AfterSame(Empty, n.right, dotall, s);
      EmptyFirst(n.right, s);
      SameSame(RegexRoundTrip.After(Empty, n.right, dotall), Cat(Empty, n.right), n.right, s);
      AltSame(AsChoice(n.left, dotall), RegexRoundTrip.After(Empty, n.right, dotall), n.left, n.right, s);
    } else {
      AfterSame(Empty, n, dotall, s);
      EmptyFirst(n, s);
      SameSame(RegexRoundTrip.After(Empty, n, dotall), Cat(Empty, n), n, s);
    }
  }

  lemma {:induction false} AfterSame(front: Node, n: Node, dotall: bool, s: Subject)
    ensures Same(RegexRoundTrip.After(front, n, dotall), Cat(front, n), s)
    decreases n, 2 * Order(n, 1) + 1
  {
    hide Same;
    AfterIs(front, n, dotall);
    SameAsSelf(front, s);
    if n.Empty? {
      EmptyLast(front, s);
    } else if n.Cat? {
      var before := RegexRoundTrip.After(front, n.first, dotall);
      AfterSame(front, n.first, dotall, s);
      TermSame(n.second, dotall, s);
      CatSame(before, AsTerm(n.second, dotall), Cat(front, n.first), n.second, s);
      CatShifts(front, n.first, n.second, s);
      SameSame(Cat(before, AsTerm(n.second, dotall)), Cat(Cat(front, n.first), n.second), Cat(front, n), s);
    } else {
      TermSame(n, dotall, s);
      CatSame(front, AsTerm(n, dotall), front, n, s);
    }
  }

  lemma {:induction false} TermSame(n: Node, dotall: bool, s: Subject)
    ensures Same(AsTerm(n, dotall), n, s)
    decreases n, 2 * Order(n, 2) + 1
  {
    hide Same;
    TermIs(n, dotall);
    match n
    case Quant(a, min, max, greedy, lo, hi) =>
      AtomSame(a, dotall, s);
      QuantSame(AsAtom(a, dotall), a, min, max, greedy, lo, hi, s);
    case Leaf(t) => LeafSame(t, dotall, s);
    case _ => AtomSame(n, dotall, s);
  }

  lemma {:induction false} AtomSame(n: Node, dotall: bool, s: Subject)
    ensures Same(AsAtom(n, dotall), n, s)
    decreases n, 2 * Order(n, 3) + 1
  {
    hide Same;
    AtomIs(n, dotall);
    match n
    case Leaf(t) => if Consumes(t) { LeafSame(t, dotall, s); } else { ChoiceSame(n, dotall, s); }
    case Capture(i, a) => ChoiceSame(a, dotall, s); CaptureSame(i, AsChoice(a, dotall), a, s);
    case Look(a, neg) => ChoiceSame(a, dotall, s); LookSame(AsChoice(a, dotall), a, neg, s);
    case _ => ChoiceSame(n, dotall, s);
  }

  // ---------- round trip ----------

  /** Reading the text of a pattern gives back a tree with the same ways of matching. */
  lemma {:induction false} RoundTrip(n: Node, dotall: bool, s: Subject)
    requires Readable(n, 1)
    ensures Writes(n)
    ensures var r := ReadDisjunction(Text(n, 0, dotall), dotall, 0, 1);
            r.Tree? && r.pos == |Text(n, 0, dotall)| && r.captures == 1 + Groups(n) && Same(r.n, n, s)
  {
    hide Readable, Writes, Text, ReadDisjunction, Same, Groups;
    TextReads(n, dotall);
    ChoiceSame(n, dotall, s);
  }

  /** The leftmost, first-choice match depends on the ways of matching alone. */
  lemma {:induction false} FirstSame(a: Node, b: Node, s: Subject, sticky: bool, pos: nat, caps: seq<int>)
    requires Same(a, b, s) && pos <= |s.text|
    ensures FirstMatch(a, s, sticky, pos, caps) == FirstMatch(b, s, sticky, pos, caps)
    decreases |s.text| - pos
  {
    hide Ends;
    CaptureSame(0, a, b, s);
    if !sticky && pos < |s.text| { FirstSame(a, b, s, sticky, pos + 1, caps); }
  }

  /** Searching with the text of a pattern is searching with the pattern: the text is read to its end, and the match
      found is that of the pattern. */
  lemma {:induction false} TextMatches(n: Node, dotall: bool, s: Subject, sticky: bool, pos: nat)
    requires Readable(n, 1) && pos <= |s.text|
    ensures Writes(n)
    ensures var t := Text(n, 0, dotall);
            var r := ReadDisjunction(t, dotall, 0, 1);
            && r.Tree? && At(t, r.pos) == '\0' && r.captures == 1 + Groups(n)
            && FirstMatch(r.n, s, sticky, pos, Unset(2 * r.captures)) == FirstMatch(n, s, sticky, pos, Unset(2 * (1 + Groups(n))))
  {
    hide Readable, Writes, Text, ReadDisjunction, Same, Groups, FirstMatch;
    RoundTrip(n, dotall, s);
    var r := ReadDisjunction(Text(n, 0, dotall), dotall, 0, 1);
    FirstSame(r.n, n, s, sticky, pos, Unset(2 * r.captures));
  }
}
