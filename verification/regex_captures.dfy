/** What a match reports: group 0 is the leftmost place where the pattern matches, and every other group is unset or a
    stretch of the subject. */
module RegexCaptures {
  import opened RegexBytes
  import opened RegexSyntax
  import opened RegexMatch
  import opened RegexGrammar
  import opened RegexRoundTrip
  import opened RegexProgram
  import opened RegexReadable

  /** Group g is unset, or a stretch of a subject of n characters. */
  predicate Held(caps: seq<int>, g: nat, n: nat) {
    2 * g + 1 < |caps| ==> (caps[2 * g] == caps[2 * g + 1] == -1) || 0 <= caps[2 * g] <= caps[2 * g + 1] <= n
  }

  /** From p to e no group outside lo up to hi changes, and those inside are held when they were. */
  ghost predicate Moves(p: Pt, e: Pt, lo: nat, hi: nat, n: nat) {
    && |e.caps| == |p.caps| && p.pos <= e.pos <= n
    && (forall i :: 0 <= i < |p.caps| && (i < 2 * lo || i >= 2 * hi) ==> e.caps[i] == p.caps[i])
    && (forall g: nat :: lo <= g < hi && Held(p.caps, g, n) ==> Held(e.caps, g, n))
  }

  ghost predicate AllMove(p: Pt, es: seq<Pt>, lo: nat, hi: nat, n: nat) {
    forall e <- es :: Moves(p, e, lo, hi, n)
  }

  lemma {:induction false} Stays(p: Pt, lo: nat, hi: nat, n: nat)
    requires p.pos <= n
    ensures AllMove(p, [p], lo, hi, n)
  {
  }

  lemma {:induction false} Widen(p: Pt, es: seq<Pt>, lo: nat, hi: nat, lo': nat, hi': nat, n: nat)
    requires AllMove(p, es, lo, hi, n) && lo' <= lo && hi <= hi'
    ensures AllMove(p, es, lo', hi', n)
  {
    hide Held;
    forall e | e in es ensures Moves(p, e, lo', hi', n) {
      forall g: nat | lo' <= g < hi' && Held(p.caps, g, n) ensures Held(e.caps, g, n) {
        if !(lo <= g < hi) { SameHeld(p.caps, e.caps, g, n); }
      }
    }
  }

  lemma {:induction false} SameHeld(c: seq<int>, d: seq<int>, g: nat, n: nat)
    requires |c| == |d| && (2 * g + 1 < |c| ==> c[2 * g] == d[2 * g] && c[2 * g + 1] == d[2 * g + 1]) && Held(c, g, n)
    ensures Held(d, g, n)
  {
  }

  lemma {:induction false} Further(p: Pt, e: Pt, es: seq<Pt>, lo: nat, hi: nat, n: nat)
    requires Moves(p, e, lo, hi, n) && AllMove(e, es, lo, hi, n)
    ensures AllMove(p, es, lo, hi, n)
  {
    hide Held;
  }

  lemma {:induction false} EachMove(k: Kont, s: Subject, p: Pt, ps: seq<Pt>, low: nat, c: nat, lo: nat, hi: nat)
    requires forall e <- ps :: low <= e.pos <= |s.text| && |e.caps| == c
    requires forall e <- ps :: AllMove(p, RegexMatch.After(k, s, e), lo, hi, |s.text|)
    ensures AllMove(p, Each(k, s, ps, low, c), lo, hi, |s.text|)
    decreases |ps|
  {
    hide Moves, RegexMatch.After;
    if ps != [] {
      assert ps[0] in ps;
      EachMove(k, s, p, ps[1..], low, c, lo, hi);
    }
  }

  lemma {:induction false} EndsMove(n: Node, s: Subject, p: Pt, k: nat)
    requires p.pos <= |s.text| && Numbered(n, k)
    ensures AllMove(p, Ends(n, s, p), k, k + Groups(n), |s.text|)
    decreases n, 1
  {
    hide Moves, Power, UpTo, Star, Each;
    var m, hi := |s.text|, k + Groups(n);
    hide AllMove;
    match n
    case Empty => Stays(p, k, hi, m);
    case Leaf(t) => LeafMove(t, s, p, k);
    case Cat(_, _) => CatMove(n, s, p, k);
    case Alt(a, b) =>
      EndsMove(a, s, p, k);
      EndsMove(b, s, p, k + Groups(a));
      Widen(p, Ends(a, s, p), k, k + Groups(a), k, hi, m);
      Widen(p, Ends(b, s, p), k + Groups(a), hi, k, hi, m);
      Either(p, Ends(a, s, p), Ends(b, s, p), k, hi, m);
    case Quant(_, _, _, _, _, _) => QuantMove(n, s, p, k);
    case Capture(_, a) => CaptureMove(n, s, p, k);
    case Look(a, neg) =>
      EndsMove(a, s, p, k);
      LookMove(n, s, p, k);
  }

  lemma {:induction false} Either(p: Pt, es: seq<Pt>, fs: seq<Pt>, lo: nat, hi: nat, n: nat)
    requires AllMove(p, es, lo, hi, n) && AllMove(p, fs, lo, hi, n)
    ensures AllMove(p, es + fs, lo, hi, n)
  {
    hide Moves;
  }

  lemma {:induction false} CatMove(n: Node, s: Subject, p: Pt, k: nat)
    requires n.Cat? && p.pos <= |s.text| && Numbered(n, k)
    ensures AllMove(p, Ends(n, s, p), k, k + Groups(n), |s.text|)
    decreases n, 0
  {
    hide Moves, Each;
    var a, b, m, hi := n.first, n.second, |s.text|, k + Groups(n);
    EndsMove(a, s, p, k);
    Widen(p, Ends(a, s, p), k, k + Groups(a), k, hi, m);
    forall e | e in Ends(a, s, p) ensures AllMove(p, RegexMatch.After(KNode(b), s, e), k, hi, m) {
      EndsMove(b, s, e, k + Groups(a));
      Widen(e, Ends(b, s, e), k + Groups(a), hi, k, hi, m);
      Further(p, e, Ends(b, s, e), k, hi, m);
    }
    EachMove(KNode(b), s, p, Ends(a, s, p), p.pos, |p.caps|, k, hi);
  }

  lemma {:induction false} LeafMove(t: Test, s: Subject, p: Pt, k: nat)
    requires p.pos <= |s.text|
    ensures AllMove(p, Ends(Leaf(t), s, p), k, k, |s.text|)
  {
    hide Advance;
  }

  lemma {:induction false} LookMove(n: Node, s: Subject, p: Pt, k: nat)
    requires n.Look? && p.pos <= |s.text| && AllMove(p, Ends(n.body, s, p), k, k + Groups(n), |s.text|)
    ensures AllMove(p, Ends(n, s, p), k, k + Groups(n), |s.text|)
  {
    var inner := Ends(n.body, s, p);
    if inner != [] { assert inner[0] in inner; }
  }

  lemma {:induction false} CaptureMove(n: Node, s: Subject, p: Pt, k: nat)
    requires n.Capture? && n.index == k && p.pos <= |s.text| && Numbered(n, k)
    ensures AllMove(p, Ends(n, s, p), k, k + Groups(n), |s.text|)
    decreases n, 0
  {
    hide Ends, Each, Moves;
    var a, m, hi := n.body, |s.text|, k + Groups(n);
    var p' := p.(caps := SetCap(p.caps, 2 * k, p.pos));
    var kont := KSave(a, 2 * k + 1);
    EndsMove(a, s, p', k + 1);
    forall e | e in Ends(a, s, p') ensures AllMove(p, RegexMatch.After(kont, s, e), k, hi, m) {
      CaptureEnd(p, p', e, k, hi, m);
    }
    EachMove(kont, s, p, Ends(a, s, p'), p.pos, |p.caps|, k, hi);
    CaptureIs(n, s, p);
  }

  lemma {:induction false} CaptureIs(n: Node, s: Subject, p: Pt)
    requires n.Capture? && p.pos <= |s.text|
    ensures var p' := p.(caps := SetCap(p.caps, 2 * n.index, p.pos));
            Ends(n, s, p) == Each(KSave(n.body, 2 * n.index + 1), s, Ends(n.body, s, p'), p.pos, |p.caps|)
  {
    hide Each, SetCap;
  }

  /** The end of a group is stored behind its start. */
  lemma {:induction false} CaptureEnd(p: Pt, p': Pt, e: Pt, k: nat, hi: nat, m: nat)
    requires k < hi && p' == p.(caps := SetCap(p.caps, 2 * k, p.pos)) && Moves(p', e, k + 1, hi, m)
    ensures Moves(p, e.(caps := SetCap(e.caps, 2 * k + 1, e.pos)), k, hi, m)
  {
    hide Held;
    var x := e.(caps := SetCap(e.caps, 2 * k + 1, e.pos));
    forall g: nat | k <= g < hi && Held(p.caps, g, m) ensures Held(x.caps, g, m) {
      if g == k {
        assert Held(x.caps, g, m) by { GroupHeld(p, e, x, k, m); }
      } else {
        SameHeld(p.caps, p'.caps, g, m);
        SameHeld(e.caps, x.caps, g, m);
      }
    }
  }

  lemma {:induction false} GroupHeld(p: Pt, e: Pt, x: Pt, k: nat, m: nat)
    requires |e.caps| == |p.caps| && p.pos <= e.pos <= m && x == e.(caps := SetCap(e.caps, 2 * k + 1, e.pos))
    requires 2 * k < |e.caps| ==> e.caps[2 * k] == p.pos
    ensures Held(x.caps, k, m)
  {
  }

  lemma {:induction false} QuantMove(n: Node, s: Subject, p: Pt, k: nat)
    requires n.Quant? && p.pos <= |s.text| && Numbered(n, k)
    ensures AllMove(p, Ends(n, s, p), k, k + Groups(n), |s.text|)
    decreases n, 0
  {
    hide Moves, Power, UpTo, Star, Each, ResetCaps;
    var a, m, hi := n.atom, |s.text|, k + Groups(n);
    var p' := if n.min == 0 then p.(caps := ResetCaps(p.caps, k, hi)) else p;
    var kont := KTail(a, n.max == INT32_MAX, Bound(n.max, n.min), n.greedy);
    assert Moves(p, p', k, hi, m) by { ResetMove(p, k, hi, m); Stays(p, k, hi, m); assert p in [p]; }
    PowerMove(a, n.min, s, p', k);
    forall e | e in Power(a, n.min, s, p') ensures AllMove(p, RegexMatch.After(kont, s, e), k, hi, m) {
      if n.max == INT32_MAX { StarMove(a, n.greedy, s, e, k); } else { UpToMove(a, Bound(n.max, n.min), n.greedy, s, e, k); }
      Further(p', e, RegexMatch.After(kont, s, e), k, hi, m);
      Further(p, p', RegexMatch.After(kont, s, e), k, hi, m);
    }
    EachMove(kont, s, p, Power(a, n.min, s, p'), p.pos, |p.caps|, k, hi);
  }

  lemma {:induction false} ResetMove(p: Pt, lo: nat, hi: nat, n: nat)
    requires p.pos <= n
    ensures Moves(p, p.(caps := ResetCaps(p.caps, lo, hi)), lo, hi, n)
  {
  }

  lemma {:induction false} PowerMove(a: Node, j: nat, s: Subject, p: Pt, k: nat)
    requires p.pos <= |s.text| && Numbered(a, k)
    ensures AllMove(p, Power(a, j, s, p), k, k + Groups(a), |s.text|)
    decreases a, j + 1
  {
    hide Moves, Ends, Each;
    var m, hi := |s.text|, k + Groups(a);
    if j == 0 {
      Stays(p, k, hi, m);
    } else {
      var kont := KPower(a, j - 1);
      EndsMove(a, s, p, k);
      forall e | e in Ends(a, s, p) ensures AllMove(p, RegexMatch.After(kont, s, e), k, hi, m) {
        PowerMove(a, j - 1, s, e, k);
        Further(p, e, Power(a, j - 1, s, e), k, hi, m);
      }
      EachMove(kont, s, p, Ends(a, s, p), p.pos, |p.caps|, k, hi);
    }
  }

  lemma {:induction false} UpToMove(a: Node, j: nat, greedy: bool, s: Subject, p: Pt, k: nat)
    requires p.pos <= |s.text| && Numbered(a, k)
    ensures AllMove(p, UpTo(a, j, greedy, s, p), k, k + Groups(a), |s.text|)
    decreases a, j + 1
  {
    hide Moves, Ends, Each;
    var m, hi := |s.text|, k + Groups(a);
    Stays(p, k, hi, m);
    if j > 0 {
      var kont := KUpTo(a, j - 1, greedy);
      EndsMove(a, s, p, k);
      forall e | e in Ends(a, s, p) ensures AllMove(p, RegexMatch.After(kont, s, e), k, hi, m) {
        UpToMove(a, j - 1, greedy, s, e, k);
        Further(p, e, UpTo(a, j - 1, greedy, s, e), k, hi, m);
      }
      EachMove(kont, s, p, Ends(a, s, p), p.pos, |p.caps|, k, hi);
    }
  }

  lemma {:induction false} StarMove(a: Node, greedy: bool, s: Subject, p: Pt, k: nat)
    requires p.pos <= |s.text| && Numbered(a, k)
    ensures AllMove(p, Star(a, greedy, s, p), k, k + Groups(a), |s.text|)
    decreases a, |s.text| - p.pos + 2
  {
    hide Moves, Ends, Each;
    var m, hi := |s.text|, k + Groups(a);
    var kont := KStar(a, greedy, p.pos);
    Stays(p, k, hi, m);
    EndsMove(a, s, p, k);
    forall e | e in Ends(a, s, p) ensures AllMove(p, RegexMatch.After(kont, s, e), k, hi, m) {
      if p.pos < e.pos {
        StarMove(a, greedy, s, e, k);
        Further(p, e, Star(a, greedy, s, e), k, hi, m);
      } else {
        assert AllMove(p, [e], k, hi, m);
      }
    }
    EachMove(kont, s, p, Ends(a, s, p), p.pos, |p.caps|, k, hi);
  }

  // ---------- the match ----------

  /** One attempt: group 0 is set around the first way of matching. */
  lemma {:induction false} MatchHere(n: Node, s: Subject, pos: nat, caps: seq<int>)
    requires pos <= |s.text| && Numbered(n, 1) && |caps| >= 2 && forall g: nat :: Held(caps, g, |s.text|)
    ensures var here, ways := MatchesAt(n, s, pos, caps), Ends(n, s, Pt(pos, caps[0 := pos]));
            && |here| == |ways|
            && (here != [] ==> here[0].pos == ways[0].pos && Reports(here[0], pos, |s.text|))
  {
    hide Ends, Held, Each;
    var p := Pt(pos, caps[0 := pos]);
    var ways := Ends(n, s, p);
    CaptureIs(Capture(0, n), s, Pt(pos, caps));
    assert SetCap(caps, 0, pos) == p.caps;
    SaveEach(n, s, ways, pos, |caps|);
    if ways != [] {
      EndsMove(n, s, p, 1);
      var e := ways[0];
      assert e in ways;
      forall g: nat | g >= 1 ensures Held(e.caps, g, |s.text|) {
        assert Held(caps, g, |s.text|);
        SameHeld(caps, p.caps, g, |s.text|);
        if g > Groups(n) { SameHeld(p.caps, e.caps, g, |s.text|); }
      }
      StoredEnd(e, pos, |s.text|);
    }
  }

  /** Group 0 is from start to the end of the match, and all groups are held. */
  ghost predicate Reports(e: Pt, start: nat, n: nat) {
    && |e.caps| >= 2 && e.caps[0] == start <= e.pos == e.caps[1]
    && forall g: nat :: Held(e.caps, g, n)
  }

  lemma {:induction false} StoredEnd(e: Pt, start: nat, n: nat)
    requires |e.caps| >= 2 && e.caps[0] == start <= e.pos <= n && forall g: nat | g >= 1 :: Held(e.caps, g, n)
    ensures Reports(e.(caps := SetCap(e.caps, 1, e.pos)), start, n)
  {
    var x := e.(caps := SetCap(e.caps, 1, e.pos));
    forall g: nat ensures Held(x.caps, g, n) {
      if g >= 1 { assert Held(e.caps, g, n); }
    }
  }

  lemma {:induction false} SaveEach(a: Node, s: Subject, ps: seq<Pt>, low: nat, c: nat)
    requires forall e <- ps :: low <= e.pos <= |s.text| && |e.caps| == c
    ensures var r := Each(KSave(a, 1), s, ps, low, c);
            |r| == |ps| && (ps != [] ==> r[0] == ps[0].(caps := SetCap(ps[0].caps, 1, ps[0].pos)))
    decreases |ps|
  {
    if ps != [] { SaveEach(a, s, ps[1..], low, c); }
  }

  /** The ways of matching from position q on, with the start of the match stored. */
  function WaysAt(n: Node, s: Subject, q: nat, caps: seq<int>): seq<Pt>
    requires q <= |s.text| && |caps| >= 1
  {
    Ends(n, s, Pt(q, caps[0 := q]))
  }

  /** e is the first way of matching at start, and at no position before, from pos on, there is one. */
  ghost predicate Leftmost(n: Node, s: Subject, pos: nat, caps: seq<int>, start: nat, e: Pt)
    requires |caps| >= 1
  {
    && pos <= start <= |s.text| && Reports(e, start, |s.text|)
    && WaysAt(n, s, start, caps) != [] && e.pos == WaysAt(n, s, start, caps)[0].pos
    && forall q: nat :: pos <= q < start ==> WaysAt(n, s, q, caps) == []
  }

  /** What is to be found from pos on: the leftmost match, which with the sticky flag is at pos, or none. */
  ghost predicate Best(n: Node, s: Subject, sticky: bool, pos: nat, caps: seq<int>, m: Option<Pt>)
    requires |caps| >= 1 && pos <= |s.text|
  {
    match m
    case None => forall q: nat :: pos <= q <= (if sticky then pos else |s.text|) ==> WaysAt(n, s, q, caps) == []
    case Some(e) => exists start: nat :: (sticky ==> start == pos) && Leftmost(n, s, pos, caps, start, e)
  }

  lemma {:induction false} Earlier(n: Node, s: Subject, pos: nat, caps: seq<int>, m: Option<Pt>)
    requires |caps| >= 1 && pos < |s.text| && Best(n, s, false, pos + 1, caps, m) && WaysAt(n, s, pos, caps) == []
    ensures Best(n, s, false, pos, caps, m)
  {
    hide Reports, WaysAt;
    if m.Some? {
      var start: nat :| Leftmost(n, s, pos + 1, caps, start, m.value);
      assert Leftmost(n, s, pos, caps, start, m.value);
    }
  }

  /** The match found starts at the first position where the pattern matches, or, with the sticky flag, at the
      position given; without one the pattern matches nowhere. */
  lemma {:induction false} FirstMatchMeans(n: Node, s: Subject, sticky: bool, pos: nat, caps: seq<int>)
    requires pos <= |s.text| && Numbered(n, 1) && |caps| >= 2 && forall g: nat :: Held(caps, g, |s.text|)
    ensures Best(n, s, sticky, pos, caps, FirstMatch(n, s, sticky, pos, caps))
    decreases |s.text| - pos
  {
    hide Ends, Reports, Held, MatchesAt, Numbered, WaysAt, Best;
    AtPlace(n, s, sticky, pos, caps);
    if MatchesAt(n, s, pos, caps) == [] && !sticky && pos < |s.text| {
      FirstMatchMeans(n, s, sticky, pos + 1, caps);
      Earlier(n, s, pos, caps, FirstMatch(n, s, sticky, pos + 1, caps));
    }
  }

  lemma {:induction false} AtPlace(n: Node, s: Subject, sticky: bool, pos: nat, caps: seq<int>)
    requires pos <= |s.text| && Numbered(n, 1) && |caps| >= 2 && forall g: nat :: Held(caps, g, |s.text|)
    ensures var here := MatchesAt(n, s, pos, caps);
            && (here == [] <==> WaysAt(n, s, pos, caps) == [])
            && (here != [] ==> Best(n, s, sticky, pos, caps, Some(here[0])))
            && (here == [] && (sticky || pos == |s.text|) ==> Best(n, s, sticky, pos, caps, None))
  {
    hide Ends, Reports, Held, MatchesAt, Numbered;
    MatchHere(n, s, pos, caps);
    var here := MatchesAt(n, s, pos, caps);
    assert WaysAt(n, s, pos, caps) == Ends(n, s, Pt(pos, caps[0 := pos]));
    hide WaysAt;
    if here != [] { assert Leftmost(n, s, pos, caps, pos, here[0]); }
  }

  /** So it is for every pattern the reader accepts. */
  lemma {:induction false} SearchMeans(t: string, dotall: bool, s: Subject, sticky: bool, pos: nat)
    requires pos <= |s.text| && ReadDisjunction(t, dotall, 0, 1).Tree?
    ensures var r := ReadDisjunction(t, dotall, 0, 1);
            var caps := Unset(2 * r.captures);
            r.captures >= 1 && Best(r.n, s, sticky, pos, caps, FirstMatch(r.n, s, sticky, pos, caps))
  {
    hide ReadDisjunction, FirstMatch, Numbered, Writes, Groups, Best;
    DisjunctionReads(t, dotall, 0, 1);
    var r := ReadDisjunction(t, dotall, 0, 1);
    FirstMatchMeans(r.n, s, sticky, pos, Unset(2 * r.captures));
  }
}
