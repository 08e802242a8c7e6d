/** The loops that need no end: for `a*?b` where b cannot match, on which subjects the program runs for
    ever, for every atom a; and a pattern's text for which it does. */
module RegexLazy {
  import opened RegexBytes
  import opened RegexSyntax
  import opened RegexMatch
  import opened RegexMachine
  import opened RegexYields
  import opened RegexScan
  import opened RegexFate
  import opened RegexProgram
  import opened RegexGrammar
  import opened RegexClass
  import opened RegexStack
  import opened RegexCompiler
  import opened RegexLreCompile

  /** After some iterations of a, the next one can end where it began. */
  ghost predicate Stalls(a: Node, s: Subject, pt: Pt)
    requires pt.pos <= |s.text|
    decreases |s.text| - pt.pos
  {
    exists e <- Ends(a, s, pt) :: e.pos == pt.pos || Stalls(a, s, e)
  }

  /** Nothing follows from anywhere. */
  ghost predicate Barred(k: Sequel, s: Subject) {
    forall e: Pt :: e.pos <= |s.text| ==> k(e).Fails?
  }

  /** A lazy loop that is never left either comes to the end of its ways or stalls. */
  lemma {:induction false} StarStalls(a: Node, s: Subject, pt: Pt, k: Sequel)
    requires pt.pos <= |s.text| && Refers(a, s, true) && Barred(k, s)
    ensures StarFate(a, false, s, pt, k) == if Stalls(a, s, pt) then Forever else Fails
    decreases |s.text| - pt.pos
  {
    hide FateOf, Ends, FirstOf, Refers, AfterStar;
    var rest, ends := AfterStar(a, false, pt.pos, s, k), Ends(a, s, pt);
    StarIs(a, false, s, pt, k);
    RefersAt(a, s, true, pt, rest);
    forall e <- ends ensures rest(e) == if e.pos == pt.pos || Stalls(a, s, e) then Forever else Fails {
      AfterIs(a, pt.pos, s, k, e);
      if pt.pos < e.pos { StarStalls(a, s, e, k); }
    }
    FirstForever(ends, rest);
    assert Stalls(a, s, pt) <==> exists e <- ends :: rest(e).Forever?;
  }

  lemma {:induction false} AfterIs(a: Node, from: nat, s: Subject, k: Sequel, e: Pt)
    requires from <= e.pos <= |s.text|
    ensures AfterStar(a, false, from, s, k)(e) == if from < e.pos then StarFate(a, false, s, e, k) else Forever
  {
    hide StarFate;
  }

  lemma {:induction false} FirstForever(ends: seq<Pt>, k: Sequel)
    requires forall e <- ends :: !k(e).Found?
    ensures FirstOf(ends, k) == if exists e <- ends :: k(e).Forever? then Forever else Fails
    decreases |ends|
  {
    if ends != [] {
      assert ends[0] in ends;
      FirstForever(ends[1..], k);
      assert forall e <- ends :: e == ends[0] || e in ends[1..];
    }
  }

  /** `a*?b` as the reader builds it. */
  function LazyThen(a: Node, b: Node, lo: nat, hi: nat): Node {
    Cat(Cat(Empty, Quant(a, 0, INT32_MAX, false, lo, hi)), b)
  }

  ghost predicate NeverMatches(b: Node, s: Subject) {
    forall pt: Pt :: pt.pos <= |s.text| ==> Ends(b, s, pt) == []
  }

  lemma {:induction false} LazyFate(a: Node, b: Node, lo: nat, hi: nat, s: Subject, pt: Pt, k: Sequel)
    requires pt.pos <= |s.text| && pt.caps == [] && Tame(a) && Tame(b) && NeverMatches(b, s)
    ensures FateOf(Capture(0, LazyThen(a, b, lo, hi)), s, pt, k) == if Stalls(a, s, pt) then Forever else Fails
  {
    hide StarFate, Stalls, Tame, Refers, Ends;
    var rest := Then(b, s, Saving(1, k));
    FateRefers(a, s);
    FateRefers(b, s);
    forall e: Pt | e.pos <= |s.text| ensures rest(e).Fails? {
      RefersAt(b, s, true, e, Saving(1, k));
      assert Ends(b, s, e) == [];
    }
    StarStalls(a, s, pt, rest);
    LazyUnfolds(a, b, lo, hi, s, pt, k);
  }

  lemma {:induction false} LazyUnfolds(a: Node, b: Node, lo: nat, hi: nat, s: Subject, pt: Pt, k: Sequel)
    requires pt.caps == []
    ensures FateOf(Capture(0, LazyThen(a, b, lo, hi)), s, pt, k) == StarFate(a, false, s, pt, Then(b, s, Saving(1, k)))
  {
    hide StarFate, Then;
    var loop, inner := Quant(a, 0, INT32_MAX, false, lo, hi), Saving(1, k);
    assert pt.(caps := SetCap(pt.caps, 0, pt.pos)) == pt && ResetCaps(pt.caps, lo, hi) == [];
    assert FateOf(Capture(0, LazyThen(a, b, lo, hi)), s, pt, k) == FateOf(LazyThen(a, b, lo, hi), s, pt, inner);
    var rest := Then(b, s, inner);
    assert FateOf(LazyThen(a, b, lo, hi), s, pt, inner) == FateOf(Cat(Empty, loop), s, pt, rest);
    assert FateOf(Cat(Empty, loop), s, pt, rest) == Then(loop, s, rest)(pt);
    ThenIs(loop, s, rest, pt);
    OptionalFate(a, lo, hi, s, pt, rest);
  }

  lemma {:induction false} ThenIs(b: Node, s: Subject, k: Sequel, e: Pt)
    ensures Then(b, s, k)(e) == FateOf(b, s, e, k)
  {
    hide FateOf;
  }

  lemma {:induction false} OptionalFate(a: Node, lo: nat, hi: nat, s: Subject, pt: Pt, k: Sequel)
    requires pt.caps == []
    ensures FateOf(Quant(a, 0, INT32_MAX, false, lo, hi), s, pt, k) == StarFate(a, false, s, pt, k)
  {
    hide StarFate;
    assert pt.(caps := ResetCaps(pt.caps, lo, hi)) == pt;
    assert PowerFate(a, 0, s, pt, Optional(a, true, 0, false, s, k)) == StarFate(a, false, s, pt, k);
  }

  // ---------- the search over all starts ----------

  lemma {:induction false} AnyFate(s: Subject, pt: Pt, k: Sequel)
    requires pt.pos <= |s.text|
    ensures var later := pt.(pos := pt.pos + 1);
            StarFate(Leaf(Any), false, s, pt, k)
            == Else(k(pt), if pt.pos < |s.text| then StarFate(Leaf(Any), false, s, later, k) else Fails)
  {
    hide StarFate;
    StarIs(Leaf(Any), false, s, pt, k);
    var rest := AfterStar(Leaf(Any), false, pt.pos, s, k);
    if pt.pos < |s.text| { AnyAfter(pt.pos, s, k, pt.(pos := pt.pos + 1)); }
  }

  lemma {:induction false} AnyAfter(from: nat, s: Subject, k: Sequel, e: Pt)
    requires from < e.pos <= |s.text|
    ensures AfterStar(Leaf(Any), false, from, s, k)(e) == StarFate(Leaf(Any), false, s, e, k)
  {
    AfterIs(Leaf(Any), from, s, k, e);
  }

  /** Some start from here on at which the loop stalls. */
  ghost predicate StallsLater(a: Node, s: Subject, start: nat) {
    exists q: nat :: start <= q <= |s.text| && Stalls(a, s, Pt(q, []))
  }

  lemma {:induction false} StallsNext(a: Node, s: Subject, start: nat)
    requires start <= |s.text|
    ensures StallsLater(a, s, start) <==> Stalls(a, s, Pt(start, [])) || (start < |s.text| && StallsLater(a, s, start + 1))
  {
    hide Stalls;
    if StallsLater(a, s, start) {
      var q: nat :| start <= q <= |s.text| && Stalls(a, s, Pt(q, []));
      assert q == start || start + 1 <= q;
    }
  }

  lemma {:induction false} SearchStalls(a: Node, b: Node, lo: nat, hi: nat, s: Subject, start: nat)
    requires start <= |s.text| && Tame(a) && Tame(b) && NeverMatches(b, s)
    ensures StarFate(Leaf(Any), false, s, Pt(start, []), Then(Capture(0, LazyThen(a, b, lo, hi)), s, Stop()))
         == if StallsLater(a, s, start) then Forever else Fails
    decreases |s.text| - start
  {
    hide StarFate, FateOf, Then, Stalls, StallsLater, Tame, NeverMatches;
    var n, pt := Capture(0, LazyThen(a, b, lo, hi)), Pt(start, []);
    AnyFate(s, pt, Then(n, s, Stop()));
    ThenIs(n, s, Stop(), pt);
    LazyFate(a, b, lo, hi, s, pt, Stop());
    StallsNext(a, s, start);
    if start < |s.text| {
      SearchStalls(a, b, lo, hi, s, start + 1);
      assert pt.(pos := pt.pos + 1) == Pt(start + 1, []);
    }
  }

  /** Before something that matches nowhere, a lazy unbounded loop keeps the machine busy for ever
      exactly when from some start, after some iterations, its atom can match nothing once more. */
  lemma {:induction false} LazyRunsForever(a: Node, b: Node, lo: nat, hi: nat, s: Subject, sticky: bool, start: nat)
    requires start <= |s.text| && Tame(a) && Tame(b) && NeverMatches(b, s)
    ensures RunsForever(LazyThen(a, b, lo, hi), s, sticky, start)
       <==> if sticky then Stalls(a, s, Pt(start, [])) else StallsLater(a, s, start)
  {
    hide StarFate, FateOf, Then, Stalls, StallsLater, Tame, NeverMatches;
    var n, pt := LazyThen(a, b, lo, hi), Pt(start, []);
    if sticky {
      LazyFate(a, b, lo, hi, s, pt, Stop());
    } else {
      var rest := Then(Capture(0, n), s, Stop());
      CatFate(Quant(Leaf(Any), 0, INT32_MAX, false, 0, 0), Capture(0, n), s, pt, Stop());
      OptionalFate(Leaf(Any), 0, 0, s, pt, rest);
      SearchStalls(a, b, lo, hi, s, start);
    }
  }

  lemma {:induction false} CatFate(a: Node, b: Node, s: Subject, pt: Pt, k: Sequel)
    ensures FateOf(Cat(a, b), s, pt, k) == FateOf(a, s, pt, Then(b, s, k))
  {
    hide Then;
  }

  // ---------- before a character ----------

  lemma {:induction false} CharNever(c: nat, s: Subject)
    requires forall x <- s.text :: x != c
    ensures NeverMatches(Leaf(Char(c)), s)
  {
    forall pt: Pt | pt.pos <= |s.text| ensures Ends(Leaf(Char(c)), s, pt) == [] {
      if pt.pos < |s.text| { assert s.text[pt.pos] in s.text; }
    }
  }

  lemma {:induction false} StallsAtOnce(a: Node, s: Subject)
    requires s.text == []
    ensures Stalls(a, s, Pt(0, [])) <==> Ends(a, s, Pt(0, [])) != []
    ensures StallsLater(a, s, 0) <==> Ends(a, s, Pt(0, [])) != []
  {
    hide Ends;
    var ends := Ends(a, s, Pt(0, []));
    if ends != [] { assert ends[0] in ends; }
    StallsNext(a, s, 0);
  }

  /** On the empty subject the program of `a*?c`, c a character, runs for ever exactly when a has some
      way of matching there. */
  lemma {:induction false} LazyNeverStops(a: Node, c: nat, lo: nat, hi: nat, captures: nat, sticky: bool, multiLine: bool)
    requires Tame(a) && WellFormed(LazyThen(a, Leaf(Char(c)), lo, hi), captures) && 1 <= captures <= 255
    requires |ProgramCode(LazyThen(a, Leaf(Char(c)), lo, hi), sticky)| <= INT32_MAX
    ensures var s := Subject([], multiLine);
            var p := Program(ProgramCode(LazyThen(a, Leaf(Char(c)), lo, hi), sticky), s);
            var o := Running(State(0, Pt(0, Unset(2 * captures)), [], []));
            (forall steps: nat :: Run(p, o, steps).Running?) <==> Ends(a, s, Pt(0, [])) != []
  {
    hide ProgramCode, Ends, RunsForever, FirstMatch, Stalls, StallsLater, Run, LazyThen, NeverMatches, WellFormed;
    var s, n := Subject([], multiLine), LazyThen(a, Leaf(Char(c)), lo, hi);
    CharNever(c, s);
    LazyRunsForever(a, Leaf(Char(c)), lo, hi, s, sticky, 0);
    StallsAtOnce(a, s);
    assert RunsForever(n, s, sticky, 0) <==> Ends(a, s, Pt(0, [])) != [];
    ProgramCorrect(n, captures, sticky, s, 0);
    if !RunsForever(n, s, sticky, 0) {
      var p, caps := Program(ProgramCode(n, sticky), s), Unset(2 * captures);
      EndsRun(p, Running(State(0, Pt(0, caps), [], [])), FirstMatch(n, s, sticky, 0, caps));
    }
  }

  lemma {:induction false} EndsRun(p: Program, o: Outcome, r: Option<Pt>)
    requires Reaches(p, o, Done(r))
    ensures exists steps: nat :: !Run(p, o, steps).Running?
  {
    hide Run;
    var n: nat :| Run(p, o, n) == Done(r);
  }

  // ---------- a pattern's text ----------

  /** A group that is empty, any number of times but as few as possible, and a character. */
  const LAZY_TEXT := "(?:)*?b"

  /** The empty group, up to its closing parenthesis. */
  lemma {:induction false} GroupReads(dotall: bool)
    ensures ReadAtom(LAZY_TEXT, dotall, 0, 1) == Piece(Empty, 4, 1, true)
  {
    var t := LAZY_TEXT;
    assert t[0] == '(' && At(t, 1) == '?' && At(t, 2) == ':' && t[3] == ')' && At(t, 3) == ')';
    assert ReadTerms(t, dotall, Empty, 3, 1) == Tree(Empty, 3, 1);
    assert ReadDisjunction(t, dotall, 3, 1) == Tree(Empty, 3, 1);
    assert Enclosed(t, dotall, 3, 1) == Tree(Empty, 4, 1);
  }

  lemma {:induction false} LoopReads(dotall: bool)
    ensures ReadTerm(LAZY_TEXT, dotall, 0, 1) == Tree(Quant(Empty, 0, INT32_MAX, false, 1, 1), 6, 1)
  {
    hide ReadAtom;
    var t := LAZY_TEXT;
    GroupReads(dotall);
    assert At(t, 4) == '*' && At(t, 5) == '?';
    assert ReadSuffix(t, 4) == Suffix(0, INT32_MAX, 5);
  }

  lemma {:induction false} CharReads(dotall: bool)
    ensures ReadTerm(LAZY_TEXT, dotall, 6, 1) == Tree(Leaf(Char(98)), 7, 1)
  {
    hide ReadGroup, ReadEscape;
    var t := LAZY_TEXT;
    assert t[6] == 'b' && At(t, 7) == '\0';
    assert ReadAtom(t, dotall, 6, 1) == Piece(Leaf(Char(98)), 7, 1, true);
    assert ReadSuffix(t, 7) == NoSuffix;
  }

  lemma {:induction false} LazyReads(dotall: bool)
    ensures ReadDisjunction(LAZY_TEXT, dotall, 0, 1) == Tree(LazyThen(Empty, Leaf(Char(98)), 1, 1), 7, 1)
  {
    hide ReadTerm;
    var t, loop, leaf := LAZY_TEXT, Quant(Empty, 0, INT32_MAX, false, 1, 1), Leaf(Char(98));
    LoopReads(dotall);
    CharReads(dotall);
    assert t[0] == '(' && t[6] == 'b' && At(t, 7) == '\0';
    assert ReadTerms(t, dotall, Cat(Cat(Empty, loop), leaf), 7, 1) == Tree(Cat(Cat(Empty, loop), leaf), 7, 1);
    assert ReadTerms(t, dotall, Cat(Empty, loop), 6, 1) == Tree(Cat(Cat(Empty, loop), leaf), 7, 1);
  }

  // ---------- its program ----------

  lemma {:induction false} PeakShort(c: seq<Byte>)
    ensures Peak(c) <= |c|
    decreases |c|
  {
    if c != [] { PeakShort(Rest(c)); }
  }

  lemma {:induction false} LazyCode(sticky: bool)
    ensures |ProgramCode(LazyThen(Empty, Leaf(Char(98)), 1, 1), sticky)| <= 40
  {
    hide U32, SimpleCount, CheckAdvance;
    var loop := Quant(Empty, 0, INT32_MAX, false, 1, 1);
    assert Code(loop) == StarCode([], false, false);
    assert Code(Cat(Empty, loop)) == [] + Code(loop);
  }

  /** The pattern compiles, and on the empty subject its program never stops. */
  lemma {:induction false} LazyTextNeverStops(flags: Byte, st: Status, bc: seq<Byte>, steps: nat)
    requires Compiled(LAZY_TEXT, flags, st, bc) && !IgnoreCase(flags) && !Utf16(flags)
    ensures st.Success? && |bc| >= RE_HEADER_LEN
    ensures var p := Program(bc[RE_HEADER_LEN..], Subject([], MultiLine(flags)));
            Run(p, Running(State(0, Pt(0, Unset(2)), [], [])), steps).Running?
  {
    hide ReadDisjunction, ProgramCode, Run, Ends, Peak, U32, LazyThen, WellFormed;
    var n, s := LazyThen(Empty, Leaf(Char(98)), 1, 1), Subject([], MultiLine(flags));
    LazyReads(DotAll(flags));
    LazyCode(Sticky(flags));
    var code := ProgramCode(n, Sticky(flags));
    PeakShort(code);
    assert st.Success? && bc == Image(flags, 1, Peak(code), code);
    assert bc[RE_HEADER_LEN..] == code;
    assert Ends(Empty, s, Pt(0, [])) == [Pt(0, [])] by { EmptyEnds(s, Pt(0, [])); }
    LazyNeverStops(Empty, 98, 1, 1, 1, Sticky(flags), MultiLine(flags));
  }
}
