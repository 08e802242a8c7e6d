/** Whole programs: the unanchored prefix, capture 0 around the pattern, and the final match. */
module RegexProgram {
  import opened RegexBytes
  import opened RegexSyntax
  import opened RegexMatch
  import opened RegexMachine
  import opened RegexYields
  import opened RegexScan
  import opened RegexCorrect
  import opened RegexFate
  import opened RegexForever

  /** Without the sticky flag a lazy loop over any character precedes the pattern. */
  function Whole0(n: Node, sticky: bool): Node {
    if sticky then Capture(0, n) else Cat(Quant(Leaf(Any), 0, INT32_MAX, false, 0, 0), Capture(0, n))
  }

  function ProgramCode(n: Node, sticky: bool): seq<Byte> {
    SearchCode(sticky) + [OP_SAVE_START, 0] + Code(n) + [OP_SAVE_END, 0] + [OP_MATCH]
  }

  /** The lazy loop over any character. */
  function SearchCode(sticky: bool): seq<Byte> {
    if sticky then [] else Jump(OP_SPLIT_GOTO_FIRST, 1 + 5) + [OP_ANY] + Jump(OP_GOTO, -(5 + 1 + 5))
  }

  function Unset(n: nat): (caps: seq<int>)
    ensures |caps| == n
  {
    seq(n, _ => -1)
  }

  /** All ways of matching at exactly one position, recorded in capture 0. */
  function MatchesAt(n: Node, s: Subject, pos: nat, caps: seq<int>): seq<Pt>
    requires pos <= |s.text|
  {
    Ends(Capture(0, n), s, Pt(pos, caps))
  }

  /** Leftmost match, first choice: what the program should compute. */
  function FirstMatch(n: Node, s: Subject, sticky: bool, pos: nat, caps: seq<int>): (r: Option<Pt>)
    requires pos <= |s.text|
    ensures r.Some? ==> pos <= r.value.pos <= |s.text|
    decreases |s.text| - pos
  {
    var here := MatchesAt(n, s, pos, caps);
    if here != [] then assert here[0] in here; Some(here[0])
    else if sticky || pos == |s.text| then None
    else FirstMatch(n, s, sticky, pos + 1, caps)
  }

  lemma {:induction false} PrefixCode()
    ensures Code(Quant(Leaf(Any), 0, INT32_MAX, false, 0, 0)) == SearchCode(false) && SearchCode(true) == []
  {
  }

  lemma {:induction false} ProgramShape(n: Node, sticky: bool)
    ensures ProgramCode(n, sticky) == Code(Whole0(n, sticky)) + [OP_MATCH]
  {
    PrefixCode();
    hide Jump, QuantCode, SearchCode;
    var body := Code(Capture(0, n));
    assert body == [OP_SAVE_START, 0] + Code(n) + [OP_SAVE_END, 0];
    if !sticky {
      var prefix := Code(Quant(Leaf(Any), 0, INT32_MAX, false, 0, 0));
      assert Code(Whole0(n, sticky)) == prefix + body;
      assert ProgramCode(n, sticky) == prefix + body + [OP_MATCH];
    }
  }

  // ---------- the unanchored search tries every position in turn ----------

  /** The lazy prefix offers the start, then each later position. */
  lemma {:induction false} PrefixStar(s: Subject, pt: Pt)
    requires pt.pos <= |s.text|
    ensures var later := pt.(pos := pt.pos + 1);
            Star(Leaf(Any), false, s, pt)
            == if pt.pos < |s.text| then [pt] + Star(Leaf(Any), false, s, later) else [pt]
  {
    var k := KStar(Leaf(Any), false, pt.pos);
    if pt.pos < |s.text| {
      EachOne(k, s, pt.(pos := pt.pos + 1), pt.pos, |pt.caps|);
    } else {
      EachOne(k, s, pt, pt.pos, |pt.caps|);
    }
  }

  lemma {:induction false} PrefixEnds(s: Subject, pt: Pt)
    requires pt.pos <= |s.text|
    ensures Ends(Quant(Leaf(Any), 0, INT32_MAX, false, 0, 0), s, pt) == Star(Leaf(Any), false, s, pt)
  {
    hide Star;
    ResetNothing(pt.caps, 0);
    EachOne(KTail(Leaf(Any), true, 0, false), s, pt, pt.pos, |pt.caps|);
  }

  lemma {:induction false} SearchFirst(n: Node, s: Subject, pt: Pt, low: nat)
    requires low <= pt.pos <= |s.text|
    ensures var ways := Each(KNode(Capture(0, n)), s, Star(Leaf(Any), false, s, pt), low, |pt.caps|);
            FirstMatch(n, s, false, pt.pos, pt.caps) == if ways == [] then None else Some(ways[0])
    decreases |s.text| - pt.pos
  {
    hide Ends, Star;
    var k := KNode(Capture(0, n));
    var later := pt.(pos := pt.pos + 1);
    PrefixStar(s, pt);
    if pt.pos < |s.text| {
      SearchFirst(n, s, later, low);
      assert ([pt] + Star(Leaf(Any), false, s, later))[1..] == Star(Leaf(Any), false, s, later);
    } else {
      EachOne(k, s, pt, low, |pt.caps|);
    }
  }

  /** The first of the whole program's ways is the leftmost match. */
  lemma {:induction false} WholeFirst(n: Node, s: Subject, sticky: bool, pt: Pt)
    requires pt.pos <= |s.text|
    ensures var ways := Ends(Whole0(n, sticky), s, pt);
            FirstMatch(n, s, sticky, pt.pos, pt.caps) == if ways == [] then None else Some(ways[0])
  {
    if !sticky {
      PrefixEnds(s, pt);
      SearchFirst(n, s, pt, pt.pos);
    }
  }

  // ---------- correctness of compiled programs ----------

  lemma {:induction false} WholeFits(n: Node, captures: nat, sticky: bool)
    requires WellFormed(n, captures) && captures >= 1
    ensures WellFormed(Whole0(n, sticky), captures) && Tame(Whole0(n, sticky)) == Tame(n)
  {
  }

  /** The search keeps the machine busy for ever. The captures play no part in that. */
  predicate RunsForever(n: Node, s: Subject, sticky: bool, start: nat) {
    FateOf(Whole0(n, sticky), s, Pt(start, []), Stop()).Forever?
  }

  /** The fate of the whole program is the leftmost match, or to run for ever. */
  lemma {:induction false} WholeFate(n: Node, s: Subject, sticky: bool, pt: Pt)
    requires pt.pos <= |s.text|
    ensures FateOf(Whole0(n, sticky), s, pt, Stop())
         == if RunsForever(n, s, sticky, pt.pos) then Forever
            else match FirstMatch(n, s, sticky, pt.pos, pt.caps) case None => Fails case Some(e) => Found(e)
  {
    hide FateOf, Ends, Whole0, Tame, FirstMatch;
    var whole := Whole0(n, sticky);
    StopUniform();
    FateUniform(whole, s, pt, Pt(pt.pos, []), Stop());
    FateRefers(whole, s);
    RefersAt(whole, s, Tame(whole), pt, Stop());
    WholeFirst(n, s, sticky, pt);
  }

  /** For every pattern and subject: the machine on the compiled program stops with the leftmost
      match, first choice, or with no match when there is none, or it runs for ever, exactly as the
      pattern's fate says. */
  lemma {:induction false} ProgramCorrect(n: Node, captures: nat, sticky: bool, s: Subject, start: nat)
    requires WellFormed(n, captures) && 1 <= captures <= 255 && start <= |s.text|
    requires |ProgramCode(n, sticky)| <= INT32_MAX
    ensures var p := Program(ProgramCode(n, sticky), s);
            var caps := Unset(2 * captures);
            var o := Running(State(0, Pt(start, caps), [], []));
            if RunsForever(n, s, sticky, start) then forall steps: nat :: Run(p, o, steps).Running?
            else Reaches(p, o, Done(FirstMatch(n, s, sticky, start, caps)))
  {
    hide Behaves, Reaches, Run, Step, Code, Whole0, FirstMatch, WellFormed, ProgramCode, RunsForever, FateOf, Faithful, Meets;
    var p, caps, whole := Program(ProgramCode(n, sticky), s), Unset(2 * captures), Whole0(n, sticky);
    var pt, f := Pt(start, caps), FateOf(whole, s, Pt(start, caps), Stop());
    var o := Running(State(0, pt, [], []));
    WholeFate(n, s, sticky, pt);
    forall steps: nat ensures Behaves(p, o, f, [], steps) {
      WholeBehaves(n, captures, sticky, s, pt, steps);
    }
    Outcomes(p, o, f);
  }

  lemma {:induction false} WholeBehaves(n: Node, captures: nat, sticky: bool, s: Subject, pt: Pt, steps: nat)
    requires WellFormed(n, captures) && 1 <= captures <= 255 && pt.pos <= |s.text| && |pt.caps| == 2 * captures
    requires |ProgramCode(n, sticky)| <= INT32_MAX
    ensures var p := Program(ProgramCode(n, sticky), s);
            Behaves(p, Running(State(0, pt, [], [])), FateOf(Whole0(n, sticky), s, pt, Stop()), [], steps)
  {
    hide Behaves, Code, Whole0, WellFormed, ProgramCode, FateOf, Faithful, Meets, Goes;
    var p, whole := Program(ProgramCode(n, sticky), s), Whole0(n, sticky);
    ProgramShape(n, sticky);
    WholeFits(n, captures, sticky);
    assert Here(p.bc, 0, Code(whole) + [OP_MATCH]);
    HereSplit(p.bc, 0, Code(whole), [OP_MATCH]);
    NodeFaithful(p, whole, captures, 2 * captures);
    FaithfulAt(p, whole, 2 * captures, 0);
    StopUniform();
    StopGoes(p, |Code(whole)|, [], pt.pos + Ahead(whole), 2 * captures, [], steps);
    MeetsAt(p, 0, |Code(whole)|, whole, 2 * captures, pt, [], [], Stop(), steps);
  }

  lemma {:induction false} Outcomes(p: Program, o: Outcome, f: Fate)
    requires forall steps: nat :: Behaves(p, o, f, [], steps)
    ensures match f
            case Found(pt) => Reaches(p, o, Done(Some(pt)))
            case Fails => Reaches(p, o, Done(None))
            case Forever => forall steps: nat :: Run(p, o, steps).Running?
  {
    hide Reaches, Run;
    assert Behaves(p, o, f, [], 0);
    if f.Forever? {
      forall steps: nat ensures Run(p, o, steps).Running? {
        assert Behaves(p, o, f, [], steps + 1);
      }
    }
  }

  /** The machine stops exactly when the fate is not to run for ever. */
  lemma {:induction false} StopsUnlessForever(n: Node, captures: nat, sticky: bool, s: Subject, start: nat)
    requires WellFormed(n, captures) && 1 <= captures <= 255 && start <= |s.text|
    requires |ProgramCode(n, sticky)| <= INT32_MAX
    ensures var p, o := Program(ProgramCode(n, sticky), s), Running(State(0, Pt(start, Unset(2 * captures)), [], []));
            (exists r :: Reaches(p, o, Done(r))) <==> !RunsForever(n, s, sticky, start)
  {
    hide ProgramCode, WellFormed, RunsForever, FirstMatch, Run;
    ProgramCorrect(n, captures, sticky, s, start);
  }

  /** Patterns without an unbounded lazy loop over an atom that may be empty always stop. */
  lemma {:induction false} TameStops(n: Node, s: Subject, sticky: bool, start: nat)
    requires Tame(n) && start <= |s.text|
    ensures !RunsForever(n, s, sticky, start)
  {
    hide FateOf, Ends;
    var whole := Whole0(n, sticky);
    FateRefers(whole, s);
    RefersAt(whole, s, true, Pt(start, []), Stop());
    FirstFound(Ends(whole, s, Pt(start, [])));
  }

  lemma {:induction false} FirstFound(ends: seq<Pt>)
    ensures !FirstOf(ends, Stop()).Forever?
    decreases |ends|
  {
    if ends != [] { FirstFound(ends[1..]); }
  }

  /** The machine is deterministic: no other result can be reached. */
  lemma {:induction false} OneResult(p: Program, o: Outcome, r: Option<Pt>, r': Option<Pt>)
    requires Reaches(p, o, Done(r)) && Reaches(p, o, Done(r'))
    ensures r == r'
  {
    var m: nat :| Run(p, o, m) == Done(r);
    var n: nat :| Run(p, o, n) == Done(r');
    RunAdd(p, o, m, n);
    RunAdd(p, o, n, m);
  }

  /** The optimized quantifier and the generic code of the same quantifier over a straight-line atom
      agree, way by way: both yield the reference's list. */
  lemma {:induction false} SimpleRefinesLoop(p: Program, p': Program, at: int, at': int, a: Node, min: nat, max: nat, lo: nat, hi: nat,
                          captures: nat, caps: nat, pt: Pt, stack: seq<int>, saved: seq<Entry>)
    requires var n := Quant(a, min, max, true, lo, hi); WellFormed(n, captures) && Tame(n) && max > 0
    requires SimpleCount(Code(a)) >= 1 && captures <= 255 && 2 * captures <= caps
    requires p.s == p'.s && |p.bc| <= INT32_MAX && |p'.bc| <= INT32_MAX
    requires Here(p.bc, at, SimpleCode(Code(a), min, max, SimpleCount(Code(a))))
    requires Here(p'.bc, at', LoopCode(Code(a), min, max, true, lo, hi))
    requires pt.pos <= |p.s.text| && |pt.caps| == caps
    ensures var ways := Ends(Quant(a, min, max, true, lo, hi), p.s, pt);
            && Yields(p, Running(State(at, pt, stack, saved)), at + |Code(a)| + 18, stack, ways, saved)
            && Yields(p', Running(State(at', pt, stack, saved)), at' + |LoopCode(Code(a), min, max, true, lo, hi)|, stack, ways, saved)
  {
    hide Yields, Ends, SimpleCount, SimpleCode, LoopCode, Correct, Here, Code;
    SimpleForm(a, min, max, lo, hi);
    SimpleQuantYields(p, at, a, min, max, lo, hi, captures, pt, stack, saved);
    NodeCorrect(p', a, captures, caps);
    LoopYields(p', at', a, min, max, true, lo, hi, caps, captures, pt, stack, saved);
  }
}
