/** The machine on compiled code meets the fate of the pattern: it accepts, fails, or runs for ever. */
module RegexForever {
  import opened RegexBytes
  import opened RegexSyntax
  import opened RegexMatch
  import opened RegexMachine
  import opened RegexYields
  import opened RegexScan
  import opened RegexCorrect
  import opened RegexFate

  /** Running before each of the next `steps` steps. */
  ghost predicate Lasts(p: Program, o: Outcome, steps: nat) {
    forall m: nat :: m < steps ==> Run(p, o, m).Running?
  }

  lemma {:induction false} LastsFewer(p: Program, o: Outcome, m: nat, n: nat)
    requires Lasts(p, o, n) && m <= n
    ensures Lasts(p, o, m)
  {
    hide Run;
  }

  lemma {:induction false} LastsFrom(p: Program, o: Outcome, o': Outcome, steps: nat)
    requires Reaches(p, o, o') && Lasts(p, o', steps)
    ensures Lasts(p, o, steps)
  {
    hide Step, Run;
    var j: nat :| Run(p, o, j) == o';
    forall m: nat | m < steps ensures Run(p, o, m).Running? {
      if m >= j {
        RunAdd(p, o, j, m - j);
      } else {
        RunAdd(p, o, m, j - m);
        RunAdd(p, o', 0, 0);
        RunsNow(p, o', steps);
        if !Run(p, o, m).Running? { DoneStays(p, Run(p, o, m), j - m); }
      }
    }
  }

  lemma {:induction false} RunsNow(p: Program, o: Outcome, steps: nat)
    requires Lasts(p, o, steps) && steps > 0
    ensures o.Running?
  {
    assert Run(p, o, 0) == o;
  }

  lemma {:induction false} LastsStep(p: Program, st: State, steps: nat)
    requires Lasts(p, Step(p, st), steps)
    ensures Lasts(p, Running(st), steps + 1)
  {
    hide Step;
    forall m: nat | m < steps + 1 ensures Run(p, Running(st), m).Running? {
      if m > 0 { assert Run(p, Running(st), m) == Run(p, Step(p, st), m - 1); }
    }
  }

  /** From o the machine does what f says, as far as `steps` steps can tell, and otherwise leaves the
      saved states below as they were. */
  ghost predicate Behaves(p: Program, o: Outcome, f: Fate, saved: seq<Entry>, steps: nat) {
    match f
    case Found(pt) => Reaches(p, o, Succeed(p.bc, saved, pt))
    case Fails => Reaches(p, o, Fail(p.bc, saved))
    case Forever => Lasts(p, o, steps)
  }

  lemma {:induction false} BehavesFrom(p: Program, o: Outcome, o': Outcome, f: Fate, saved: seq<Entry>, steps: nat)
    requires Reaches(p, o, o') && Behaves(p, o', f, saved, steps)
    ensures Behaves(p, o, f, saved, steps)
  {
    hide Reaches, Lasts, Succeed, Fail;
    match f
    case Found(pt) => ReachesTrans(p, o, o', Succeed(p.bc, saved, pt));
    case Fails => ReachesTrans(p, o, o', Fail(p.bc, saved));
    case Forever => LastsFrom(p, o, o', steps);
  }

  /** One instruction first; it counts as a step. */
  lemma {:induction false} BehavesStep(p: Program, st: State, f: Fate, saved: seq<Entry>, steps: nat)
    requires Behaves(p, Step(p, st), f, saved, if steps == 0 then 0 else steps - 1)
    ensures Behaves(p, Running(st), f, saved, steps)
  {
    hide Reaches, Lasts, Succeed, Fail, Step;
    var i := if steps == 0 then 0 else steps - 1;
    ReachesStep(p, st);
    if f.Forever? {
      LastsStep(p, st, i);
      LastsFewer(p, Running(st), steps, i + 1);
    } else {
      BehavesFrom(p, Running(st), Step(p, st), f, saved, i);
    }
  }

  lemma {:induction false} BehavesFewer(p: Program, o: Outcome, f: Fate, saved: seq<Entry>, m: nat, n: nat)
    requires Behaves(p, o, f, saved, n) && (m <= n || !f.Forever?)
    ensures Behaves(p, o, f, saved, m)
  {
    hide Reaches, Lasts, Succeed, Fail;
    if f.Forever? { LastsFewer(p, o, m, n); }
  }

  /** The instruction takes its step, and the count of the rest may stay. */
  lemma {:induction false} BehavesAfter(p: Program, st: State, f: Fate, saved: seq<Entry>, steps: nat)
    requires Behaves(p, Step(p, st), f, saved, steps)
    ensures Behaves(p, Running(st), f, saved, steps)
  {
    hide Behaves, Step;
    ReachesStep(p, st);
    BehavesFrom(p, Running(st), Step(p, st), f, saved, steps);
  }

  /** A first choice above `mid`, and a second one found by failing out of `mid`. */
  lemma {:induction false} ElseBehaves(p: Program, o: Outcome, f: Fate, mid: seq<Entry>, g: Fate, saved: seq<Entry>, steps: nat)
    requires Behaves(p, o, f, mid, steps) && Extends(mid, saved)
    requires f.Fails? ==> Behaves(p, Fail(p.bc, mid), g, saved, steps)
    ensures Behaves(p, o, Else(f, g), saved, steps)
  {
    hide Reaches, Lasts, Succeed, Fail, Extends;
    match f
    case Found(pt) => SucceedIgnoresChoices(p.bc, mid, saved, pt);
    case Fails => BehavesFrom(p, o, Fail(p.bc, mid), g, saved, steps);
    case Forever =>
  }

  /** From q on the machine does what k says. */
  ghost predicate Goes(p: Program, q: int, stack: seq<int>, k: Sequel, low: nat, caps: nat, saved: seq<Entry>, steps: nat) {
    forall e: Pt, saved' :: low <= e.pos <= |p.s.text| && |e.caps| == caps && Extends(saved', saved) ==>
      Behaves(p, Running(State(q, e, stack, saved')), k(e), saved', steps)
  }

  lemma {:induction false} GoesAt(p: Program, q: int, stack: seq<int>, k: Sequel, low: nat, caps: nat, saved: seq<Entry>, steps: nat,
                                  e: Pt, saved': seq<Entry>)
    requires Goes(p, q, stack, k, low, caps, saved, steps)
    requires low <= e.pos <= |p.s.text| && |e.caps| == caps && Extends(saved', saved)
    ensures Behaves(p, Running(State(q, e, stack, saved')), k(e), saved', steps)
  {
    hide Behaves, Extends;
  }

  lemma {:induction false} GoesFewer(p: Program, q: int, stack: seq<int>, k: Sequel, low: nat, low': nat, caps: nat, saved: seq<Entry>,
                                     saved': seq<Entry>, steps: nat, steps': nat)
    requires Goes(p, q, stack, k, low, caps, saved, steps) && low <= low' && Extends(saved', saved) && steps' <= steps
    ensures Goes(p, q, stack, k, low', caps, saved', steps')
  {
    hide Behaves, Extends;
    forall e: Pt, s' | low' <= e.pos <= |p.s.text| && |e.caps| == caps && Extends(s', saved')
      ensures Behaves(p, Running(State(q, e, stack, s')), k(e), s', steps')
    {
      ExtendsTrans(s', saved', saved);
      GoesAt(p, q, stack, k, low, caps, saved, steps, e, s');
      BehavesFewer(p, Running(State(q, e, stack, s')), k(e), s', steps', steps);
    }
  }

  function Ahead(n: Node): nat {
    if MustAdvance(n) then 1 else 0
  }

  /** From `at`, with the rest k following at `end`, the machine meets the fate of n. */
  ghost predicate Meets(p: Program, at: int, end: int, n: Node, caps: nat) {
    forall pt: Pt, stack, saved, k: Sequel, steps: nat ::
      pt.pos <= |p.s.text| && |pt.caps| == caps && Uniform(k)
      && Goes(p, end, stack, k, pt.pos + Ahead(n), caps, saved, steps) ==>
        Behaves(p, Running(State(at, pt, stack, saved)), FateOf(n, p.s, pt, k), saved, steps)
  }

  lemma {:induction false} MeetsAt(p: Program, at: int, end: int, n: Node, caps: nat, pt: Pt, stack: seq<int>, saved: seq<Entry>,
                                   k: Sequel, steps: nat)
    requires Meets(p, at, end, n, caps) && pt.pos <= |p.s.text| && |pt.caps| == caps && Uniform(k)
    requires Goes(p, end, stack, k, pt.pos + Ahead(n), caps, saved, steps)
    ensures Behaves(p, Running(State(at, pt, stack, saved)), FateOf(n, p.s, pt, k), saved, steps)
  {
    hide Behaves, Goes, Uniform, FateOf, Ahead;
  }

  /** Wherever the code of n stands, the machine meets the fate of n. */
  ghost predicate Faithful(p: Program, n: Node, caps: nat) {
    forall at :: Here(p.bc, at, Code(n)) ==> Meets(p, at, at + |Code(n)|, n, caps)
  }

  lemma {:induction false} FaithfulAt(p: Program, n: Node, caps: nat, at: int)
    requires Faithful(p, n, caps) && Here(p.bc, at, Code(n))
    ensures Meets(p, at, at + |Code(n)|, n, caps)
  {
    hide Meets, Here, Code;
  }

  // ---------- straight pieces ----------

  /** A piece that yields its ends one by one. */
  lemma {:induction false} YieldsBehaves(p: Program, o: Outcome, q: int, stack: seq<int>, ends: seq<Pt>, k: Sequel, low: nat, caps: nat,
                                         saved: seq<Entry>, steps: nat)
    requires Yields(p, o, q, stack, ends, saved) && Goes(p, q, stack, k, low, caps, saved, steps)
    requires forall e <- ends :: low <= e.pos <= |p.s.text| && |e.caps| == caps
    ensures Behaves(p, o, FirstOf(ends, k), saved, steps)
    decreases |ends|
  {
    hide Yields, Goes, Extends, Reaches, Lasts, Fail, Succeed;
    if ends == [] {
      YieldsEmpty(p, o, q, stack, saved);
    } else {
      var saved' := YieldsFirst(p, o, q, stack, ends, saved);
      var at := Running(State(q, ends[0], stack, saved'));
      assert ends[0] in ends;
      GoesAt(p, q, stack, k, low, caps, saved, steps, ends[0], saved');
      BehavesFrom(p, o, at, k(ends[0]), saved', steps);
      YieldsBehaves(p, Fail(p.bc, saved'), q, stack, ends[1..], k, low, caps, saved, steps);
      ElseBehaves(p, o, k(ends[0]), saved', FirstOf(ends[1..], k), saved, steps);
    }
  }

  lemma {:induction false} LeafMeets(p: Program, at: int, t: Test, caps: nat, pt: Pt, stack: seq<int>, saved: seq<Entry>, k: Sequel, steps: nat)
    requires Here(p.bc, at, TestCode(t)) && (t.Char? ==> t.c < 0x1_0000_0000) && pt.pos <= |p.s.text| && |pt.caps| == caps
    requires Goes(p, at + |TestCode(t)|, stack, k, pt.pos + Ahead(Leaf(t)), caps, saved, steps)
    ensures Behaves(p, Running(State(at, pt, stack, saved)), FateOf(Leaf(t), p.s, pt, k), saved, steps)
  {
    hide Yields, Goes, TestCode, FateOf, Behaves, FirstOf;
    LeafYields(p, at, t, pt, stack, saved);
    YieldsBehaves(p, Running(State(at, pt, stack, saved)), at + |TestCode(t)|, stack, Ends(Leaf(t), p.s, pt), k,
                  pt.pos + Ahead(Leaf(t)), caps, saved, steps);
    FateRefers(Leaf(t), p.s);
    RefersAt(Leaf(t), p.s, true, pt, k);
  }

  lemma {:induction false} CatMeets(p: Program, at: int, a: Node, b: Node, caps: nat, pt: Pt, stack: seq<int>, saved: seq<Entry>,
                                    k: Sequel, steps: nat)
    requires Here(p.bc, at, Code(a) + Code(b)) && Faithful(p, a, caps) && Faithful(p, b, caps)
    requires pt.pos <= |p.s.text| && |pt.caps| == caps && Uniform(k)
    requires Goes(p, at + |Code(a)| + |Code(b)|, stack, k, pt.pos + Ahead(Cat(a, b)), caps, saved, steps)
    ensures Behaves(p, Running(State(at, pt, stack, saved)), FateOf(Cat(a, b), p.s, pt, k), saved, steps)
  {
    hide Here, Code, Faithful, Meets, Behaves, Extends, Uniform;
    var mid, end := at + |Code(a)|, at + |Code(a)| + |Code(b)|;
    HereSplit(p.bc, at, Code(a), Code(b));
    FaithfulAt(p, a, caps, at);
    FaithfulAt(p, b, caps, mid);
    ThenUniform(b, p.s, k);
    ThenGoes(p, mid, end, b, caps, stack, saved, k, pt.pos + Ahead(a), pt.pos + Ahead(Cat(a, b)), steps);
    hide Goes;
    MeetsAt(p, at, mid, a, caps, pt, stack, saved, Then(b, p.s, k), steps);
  }

  lemma {:induction false} ThenGoes(p: Program, mid: int, end: int, b: Node, caps: nat, stack: seq<int>, saved: seq<Entry>, k: Sequel,
                                    low: nat, low': nat, steps: nat)
    requires Meets(p, mid, end, b, caps) && Uniform(k) && Goes(p, end, stack, k, low', caps, saved, steps) && low' <= low + Ahead(b)
    ensures Goes(p, mid, stack, Then(b, p.s, k), low, caps, saved, steps)
  {
    hide Meets, Behaves, Extends, Uniform, FateOf, Ahead;
    forall e: Pt, saved' | low <= e.pos <= |p.s.text| && |e.caps| == caps && Extends(saved', saved)
      ensures Behaves(p, Running(State(mid, e, stack, saved')), Then(b, p.s, k)(e), saved', steps)
    {
      GoesFewer(p, end, stack, k, low', e.pos + Ahead(b), caps, saved, saved', steps, steps);
      MeetsAt(p, mid, end, b, caps, e, stack, saved', k, steps);
    }
  }

  lemma {:induction false} AltMeets(p: Program, at: int, a: Node, b: Node, caps: nat, pt: Pt, stack: seq<int>, saved: seq<Entry>,
                                    k: Sequel, steps: nat)
    requires Here(p.bc, at, Jump(OP_SPLIT_NEXT_FIRST, |Code(a)| + 5) + Code(a) + Jump(OP_GOTO, |Code(b)|) + Code(b))
    requires Faithful(p, a, caps) && Faithful(p, b, caps) && |p.bc| <= INT32_MAX
    requires pt.pos <= |p.s.text| && |pt.caps| == caps && Uniform(k)
    requires Goes(p, at + 10 + |Code(a)| + |Code(b)|, stack, k, pt.pos + Ahead(Alt(a, b)), caps, saved, steps)
    ensures Behaves(p, Running(State(at, pt, stack, saved)), FateOf(Alt(a, b), p.s, pt, k), saved, steps)
  {
    hide Faithful, Here, Meets, Step, Fail, Extends, Jump, Code, Behaves, Goes, Uniform;
    var la, lb := |Code(a)|, |Code(b)|;
    AltPieces(p.bc, at, Code(a), Code(b));
    FaithfulAt(p, a, caps, at + 5);
    FaithfulAt(p, b, caps, at + 10 + la);
    var st := State(at, pt, stack, saved);
    var c, end := Choice(at + 10 + la, pt, stack), at + 10 + la + lb;
    var low := pt.pos + Ahead(Alt(a, b));
    StepSplit(p, st, true, la + 5);
    ExtendsBy(saved, c);
    ExtendsSelf(saved);
    GoesFewer(p, end, stack, k, low, pt.pos + Ahead(a), caps, saved, saved + [c], steps, steps);
    GotoGoes(p, at + 5 + la, lb, stack, k, pt.pos + Ahead(a), caps, saved + [c], steps);
    MeetsAt(p, at + 5, at + 5 + la, a, caps, pt, stack, saved + [c], k, steps);
    GoesFewer(p, end, stack, k, low, pt.pos + Ahead(b), caps, saved, saved, steps, steps);
    MeetsAt(p, at + 10 + la, end, b, caps, pt, stack, saved, k, steps);
    FailChoice(p.bc, saved, at + 10 + la, pt, stack);
    ElseBehaves(p, Step(p, st), FateOf(a, p.s, pt, k), saved + [c], FateOf(b, p.s, pt, k), saved, steps);
    BehavesAfter(p, st, FateOf(Alt(a, b), p.s, pt, k), saved, steps);
  }

  lemma {:induction false} ExtendsSelf(saved: seq<Entry>)
    ensures Extends(saved, saved)
  {
  }

  lemma {:induction false} GotoGoes(p: Program, at: int, n: nat, stack: seq<int>, k: Sequel, low: nat, caps: nat, saved: seq<Entry>, steps: nat)
    requires Here(p.bc, at, Jump(OP_GOTO, n)) && n <= INT32_MAX && Goes(p, at + 5 + n, stack, k, low, caps, saved, steps)
    ensures Goes(p, at, stack, k, low, caps, saved, steps)
  {
    hide Here, Step, Extends, Jump, Behaves;
    var end := at + 5 + n;
    forall e: Pt, saved' | low <= e.pos <= |p.s.text| && |e.caps| == caps && Extends(saved', saved)
      ensures Behaves(p, Running(State(at, e, stack, saved')), k(e), saved', steps)
    {
      GoesAt(p, end, stack, k, low, caps, saved, steps, e, saved');
      StepGoto(p, State(at, e, stack, saved'), n);
      BehavesAfter(p, State(at, e, stack, saved'), k(e), saved', steps);
    }
  }

  lemma {:induction false} CaptureFate(i: nat, a: Node, s: Subject, pt: Pt, k: Sequel)
    ensures FateOf(Capture(i, a), s, pt, k) == FateOf(a, s, pt.(caps := SetCap(pt.caps, 2 * i, pt.pos)), Saving(2 * i + 1, k))
  {
    hide SetCap, Saving;
  }

  lemma {:induction false} CaptureMeets(p: Program, at: int, i: nat, a: Node, caps: nat, pt: Pt, stack: seq<int>, saved: seq<Entry>,
                                        k: Sequel, steps: nat)
    requires Here(p.bc, at, [OP_SAVE_START, i % 256] + Code(a) + [OP_SAVE_END, i % 256])
    requires Faithful(p, a, caps) && i < 255 && 2 * i + 1 < caps && pt.pos <= |p.s.text| && |pt.caps| == caps && Uniform(k)
    requires Goes(p, at + 4 + |Code(a)|, stack, k, pt.pos + Ahead(a), caps, saved, steps)
    ensures Behaves(p, Running(State(at, pt, stack, saved)), FateOf(Capture(i, a), p.s, pt, k), saved, steps)
  {
    hide Faithful, Here, Meets, Step, Code, Behaves, Goes, Uniform, FateOf, SetCap;
    var open, close := [OP_SAVE_START, i % 256], [OP_SAVE_END, i % 256];
    var mid := at + 2 + |Code(a)|;
    HereSplit(p.bc, at, open + Code(a), close);
    HereSplit(p.bc, at, open, Code(a));
    var st := State(at, pt, stack, saved);
    var pt' := pt.(caps := SetCap(pt.caps, 2 * i, pt.pos));
    StepSave(p, st, false, i);
    FaithfulAt(p, a, caps, at + 2);
    SavingUniform(2 * i + 1, k);
    SavingGoes(p, mid, i, stack, k, pt.pos + Ahead(a), caps, saved, steps);
    MeetsAt(p, at + 2, mid, a, caps, pt', stack, saved, Saving(2 * i + 1, k), steps);
    CaptureFate(i, a, p.s, pt, k);
    BehavesAfter(p, st, FateOf(Capture(i, a), p.s, pt, k), saved, steps);
  }

  lemma {:induction false} SavingGoes(p: Program, mid: int, i: nat, stack: seq<int>, k: Sequel, low: nat, caps: nat, saved: seq<Entry>, steps: nat)
    requires Here(p.bc, mid, [OP_SAVE_END, i % 256]) && i < 255 && 2 * i + 1 < caps
    requires Goes(p, mid + 2, stack, k, low, caps, saved, steps)
    ensures Goes(p, mid, stack, Saving(2 * i + 1, k), low, caps, saved, steps)
  {
    hide Here, Step, Extends, Behaves, SetCap;
    forall e: Pt, saved' | low <= e.pos <= |p.s.text| && |e.caps| == caps && Extends(saved', saved)
      ensures Behaves(p, Running(State(mid, e, stack, saved')), Saving(2 * i + 1, k)(e), saved', steps)
    {
      var e' := e.(caps := SetCap(e.caps, 2 * i + 1, e.pos));
      GoesAt(p, mid + 2, stack, k, low, caps, saved, steps, e', saved');
      StepSave(p, State(mid, e, stack, saved'), true, i);
      BehavesAfter(p, State(mid, e, stack, saved'), k(e'), saved', steps);
    }
  }

  /** The match opcode at the end of an assertion. */
  lemma {:induction false} StopGoes(p: Program, at: int, stack: seq<int>, low: nat, caps: nat, saved: seq<Entry>, steps: nat)
    requires Here(p.bc, at, [OP_MATCH])
    ensures Goes(p, at, stack, Stop(), low, caps, saved, steps)
  {
    hide Here, Step, Extends, Reaches;
    forall e: Pt, saved' | low <= e.pos <= |p.s.text| && |e.caps| == caps && Extends(saved', saved)
      ensures Behaves(p, Running(State(at, e, stack, saved')), Stop()(e), saved', steps)
    {
      StepMatch(p, State(at, e, stack, saved'));
      ReachesStep(p, State(at, e, stack, saved'));
    }
  }

  lemma {:induction false} LookMeets(p: Program, at: int, a: Node, neg: bool, caps: nat, pt: Pt, stack: seq<int>, saved: seq<Entry>,
                                     k: Sequel, steps: nat)
    requires Here(p.bc, at, Code(Look(a, neg))) && Faithful(p, a, caps) && |p.bc| <= INT32_MAX
    requires pt.pos <= |p.s.text| && |pt.caps| == caps
    requires Goes(p, at + 6 + |Code(a)|, stack, k, pt.pos, caps, saved, steps)
    ensures Behaves(p, Running(State(at, pt, stack, saved)), FateOf(Look(a, neg), p.s, pt, k), saved, steps)
  {
    hide Faithful, Meets, Step, Here, Jump, Behaves, Goes, Fail, Succeed, LookFate;
    var len, end := |Code(a)|, at + 6 + |Code(a)|;
    LookPieces(p.bc, at, Code(a), if neg then OP_NEGATIVE_LOOKAHEAD else OP_LOOKAHEAD);
    hide Code;
    var st := State(at, pt, stack, saved);
    var inner := saved + [Assertion(neg, end, pt, stack)];
    StepAssertion(p, st, neg, len + 1);
    FaithfulAt(p, a, caps, at + 5);
    StopUniform();
    StopGoes(p, at + 5 + len, stack, pt.pos + Ahead(a), caps, inner, steps);
    MeetsAt(p, at + 5, at + 5 + len, a, caps, pt, stack, inner, Stop(), steps);
    var f := FateOf(a, p.s, pt, Stop());
    FoundCaps(a, p.s, pt);
    LookAfter(p, Step(p, st), f, neg, end, pt, caps, stack, saved, k, steps);
    BehavesAfter(p, st, LookFate(f, neg, pt, k), saved, steps);
  }

  /** What an assertion finds has as many captures. */
  lemma {:induction false} FoundCaps(a: Node, s: Subject, pt: Pt)
    requires pt.pos <= |s.text|
    ensures FateOf(a, s, pt, Stop()).Found? ==> |FateOf(a, s, pt, Stop()).pt.caps| == |pt.caps|
  {
    hide FateOf, Tame;
    FateRefers(a, s);
    RefersAt(a, s, Tame(a), pt, Stop());
    var ends := Ends(a, s, pt);
    if ends != [] { assert ends[0] in ends; }
  }

  /** Leaving an assertion. */
  lemma {:induction false} LookAfter(p: Program, o: Outcome, f: Fate, neg: bool, end: int, pt: Pt, caps: nat, stack: seq<int>,
                                     saved: seq<Entry>, k: Sequel, steps: nat)
    requires pt.pos <= |p.s.text| && |pt.caps| == caps && (f.Found? ==> |f.pt.caps| == caps)
    requires Behaves(p, o, f, saved + [Assertion(neg, end, pt, stack)], steps)
    requires Goes(p, end, stack, k, pt.pos, caps, saved, steps)
    ensures Behaves(p, o, LookFate(f, neg, pt, k), saved, steps)
  {
    hide Goes, Fail, Succeed, Reaches, Extends;
    var inner := saved + [Assertion(neg, end, pt, stack)];
    AssertionTop(p.bc, saved, neg, end, pt, stack, if f.Found? then f.pt else pt);
    ExtendsSelf(saved);
    match f
    case Forever =>
    case Fails =>
      if neg {
        GoesAt(p, end, stack, k, pt.pos, caps, saved, steps, pt, saved);
        BehavesFrom(p, o, Fail(p.bc, inner), k(pt), saved, steps);
      }
    case Found(e) =>
      if !neg {
        var q := pt.(caps := e.caps);
        GoesAt(p, end, stack, k, pt.pos, caps, saved, steps, q, saved);
        BehavesFrom(p, o, Succeed(p.bc, inner, e), k(q), saved, steps);
      }
  }

  // ---------- unbounded loops ----------

  /** From b, one iteration of the atom up to e. */
  ghost predicate Iteration(p: Program, b: int, e: int, a: Node, check: bool, caps: nat) {
    forall pt: Pt, stack, saved, k: Sequel, steps: nat ::
      pt.pos <= |p.s.text| && |pt.caps| == caps && Uniform(k)
      && Goes(p, e, Inner(check, stack, pt.pos), k, pt.pos + Ahead(a), caps, saved, steps) ==>
        Behaves(p, Running(State(b, pt, stack, saved)), FateOf(a, p.s, pt, k), saved, steps)
  }

  lemma {:induction false} IterationAt(p: Program, b: int, e: int, a: Node, check: bool, caps: nat, pt: Pt, stack: seq<int>,
                                       saved: seq<Entry>, k: Sequel, steps: nat)
    requires Iteration(p, b, e, a, check, caps) && pt.pos <= |p.s.text| && |pt.caps| == caps && Uniform(k)
    requires Goes(p, e, Inner(check, stack, pt.pos), k, pt.pos + Ahead(a), caps, saved, steps)
    ensures Behaves(p, Running(State(b, pt, stack, saved)), FateOf(a, p.s, pt, k), saved, steps)
  {
    hide Behaves, Goes, Uniform, FateOf, Ahead, Inner;
  }

  /** An emitted loop: a greedy one tests for progress unless its atom must advance, a lazy one never
      tests. */
  ghost predicate Looping(p: Program, h: int, b: int, e: int, x: int, a: Node, greedy: bool, check: bool, caps: nat) {
    && Head(p, h, b, x, greedy) && Iteration(p, b, e, a, check, caps) && Back(p, e, h, x, check)
    && (if greedy then check || MustAdvance(a) else !check)
  }

  lemma {:induction false} StarMeets(p: Program, h: int, b: int, e: int, x: int, a: Node, greedy: bool, check: bool, caps: nat,
                                     pt: Pt, stack: seq<int>, saved: seq<Entry>, k: Sequel, steps: nat)
    requires Looping(p, h, b, e, x, a, greedy, check, caps) && pt.pos <= |p.s.text| && |pt.caps| == caps && Uniform(k)
    requires Goes(p, x, stack, k, pt.pos, caps, saved, steps)
    ensures Behaves(p, Running(State(h, pt, stack, saved)), StarFate(a, greedy, p.s, pt, k), saved, steps)
    decreases Left(p.s, pt.pos), steps, 3
  {
    hide Step, Fail, Behaves, Head, Back, Iteration, Goes, Extends, Uniform, StarFate, FateOf, AfterStar;
    var st := State(h, pt, stack, saved);
    var more := FateOf(a, p.s, pt, AfterStar(a, greedy, pt.pos, p.s, k));
    var i := if steps == 0 then 0 else steps - 1;
    var c := Choice(if greedy then x else b, pt, stack);
    var mid := saved + [c];
    StarIs(a, greedy, p.s, pt, k);
    HeadAt(p, h, b, x, greedy, pt, stack, saved);
    ExtendsSelf(saved);
    ExtendsSelf(mid);
    ExtendsBy(saved, c);
    FailChoice(p.bc, saved, c.pc, pt, stack);
    if greedy {
      GoesFewer(p, x, stack, k, pt.pos, pt.pos, caps, saved, mid, steps, i);
      GoesFewer(p, x, stack, k, pt.pos, pt.pos, caps, saved, saved, steps, i);
      GoesAt(p, x, stack, k, pt.pos, caps, saved, i, pt, saved);
      IterationMeets(p, h, b, e, x, a, greedy, check, caps, pt, stack, mid, k, i);
      ElseBehaves(p, Step(p, st), more, mid, k(pt), saved, i);
    } else {
      GoesFewer(p, x, stack, k, pt.pos, pt.pos, caps, saved, mid, steps, i);
      GoesAt(p, x, stack, k, pt.pos, caps, mid, i, pt, mid);
      var j := if more.Forever? && k(pt).Fails? then i else 0;
      GoesFewer(p, x, stack, k, pt.pos, pt.pos, caps, saved, saved, steps, j);
      IterationMeets(p, h, b, e, x, a, greedy, check, caps, pt, stack, saved, k, j);
      if k(pt).Fails? { BehavesFewer(p, Fail(p.bc, mid), more, saved, i, j); }
      ElseBehaves(p, Step(p, st), k(pt), mid, more, saved, i);
    }
    BehavesStep(p, st, StarFate(a, greedy, p.s, pt, k), saved, steps);
  }

  /** One iteration followed by the rest of the loop. */
  lemma {:induction false} IterationMeets(p: Program, h: int, b: int, e: int, x: int, a: Node, greedy: bool, check: bool, caps: nat,
                                          pt: Pt, stack: seq<int>, mid: seq<Entry>, k: Sequel, i: nat)
    requires Looping(p, h, b, e, x, a, greedy, check, caps) && pt.pos <= |p.s.text| && |pt.caps| == caps && Uniform(k)
    requires Goes(p, x, stack, k, pt.pos, caps, mid, i)
    requires !greedy && i > 0 ==> StarFate(a, greedy, p.s, pt, k).Forever?
    ensures Behaves(p, Running(State(b, pt, stack, mid)), FateOf(a, p.s, pt, AfterStar(a, greedy, pt.pos, p.s, k)), mid, i)
    decreases Left(p.s, pt.pos), if i == 0 then 0 else i + 1, 2
  {
    hide Behaves, Head, Back, Iteration, Extends, Uniform, StarFate, FateOf, AfterStar, Inner;
    var rest, inner := AfterStar(a, greedy, pt.pos, p.s, k), Inner(check, stack, pt.pos);
    forall end: Pt, saved' | pt.pos + Ahead(a) <= end.pos <= |p.s.text| && |end.caps| == caps && Extends(saved', mid)
      ensures Behaves(p, Running(State(e, end, inner, saved')), rest(end), saved', i)
    {
      AgainMeets(p, h, b, e, x, a, greedy, check, caps, pt, stack, mid, k, i, end, saved');
    }
    AfterStarUniform(a, greedy, pt.pos, p.s, k);
    IterationAt(p, b, e, a, check, caps, pt, stack, mid, rest, i);
  }

  /** At the end of an iteration: around again, out, or without progress. */
  lemma {:induction false} AgainMeets(p: Program, h: int, b: int, e: int, x: int, a: Node, greedy: bool, check: bool, caps: nat,
                                      pt: Pt, stack: seq<int>, mid: seq<Entry>, k: Sequel, i: nat, end: Pt, saved': seq<Entry>)
    requires Looping(p, h, b, e, x, a, greedy, check, caps) && pt.pos <= |p.s.text| && |pt.caps| == caps && Uniform(k)
    requires Goes(p, x, stack, k, pt.pos, caps, mid, i)
    requires !greedy && i > 0 ==> StarFate(a, greedy, p.s, pt, k).Forever?
    requires pt.pos + Ahead(a) <= end.pos <= |p.s.text| && |end.caps| == caps && Extends(saved', mid)
    ensures Behaves(p, Running(State(e, end, Inner(check, stack, pt.pos), saved')),
                    AfterStar(a, greedy, pt.pos, p.s, k)(end), saved', i)
    decreases Left(p.s, pt.pos), i, if i == 0 then 1 else 4
  {
    hide Behaves, Head, Back, Iteration, Extends, Uniform, StarFate, Inner, Goes, Reaches;
    var o := Running(State(e, end, Inner(check, stack, pt.pos), saved'));
    BackAt(p, e, h, x, check, end, pt.pos, stack, saved');
    var head := Running(State(h, end, stack, saved'));
    if pt.pos < end.pos {
      GoesFewer(p, x, stack, k, pt.pos, end.pos, caps, mid, saved', i, i);
      StarMeets(p, h, b, e, x, a, greedy, check, caps, end, stack, saved', k, i);
      BehavesFrom(p, o, head, StarFate(a, greedy, p.s, end, k), saved', i);
    } else if greedy {
      GoesAt(p, x, stack, k, pt.pos, caps, mid, i, end, saved');
      BehavesFrom(p, o, Running(State(x, end, stack, saved')), k(end), saved', i);
    } else if i == 0 {
      LastsNone(p, o, saved');
    } else {
      StarUniform(a, greedy, p.s, pt, end, k);
      GoesFewer(p, x, stack, k, pt.pos, end.pos, caps, mid, saved', i, i);
      StarMeets(p, h, b, e, x, a, greedy, check, caps, end, stack, saved', k, i);
      BehavesFrom(p, o, head, Forever, saved', i);
    }
  }

  lemma {:induction false} LastsNone(p: Program, o: Outcome, saved: seq<Entry>)
    ensures Behaves(p, o, Forever, saved, 0)
  {
  }

  /** The body of a loop that pushes its position first when it tests for progress. */
  lemma {:induction false} IterationHere(p: Program, b: int, len: int, a: Node, check: bool, caps: nat)
    requires check ==> Here(p.bc, b, [OP_PUSH_CHAR_POS])
    requires var g := if check then 1 else 0; Meets(p, b + g, b + g + len, a, caps)
    ensures var g := if check then 1 else 0; Iteration(p, b, b + g + len, a, check, caps)
  {
    hide Behaves, Goes, Uniform, FateOf, Ahead, Meets, Here, Step;
    var g := if check then 1 else 0;
    var e := b + g + len;
    forall pt: Pt, stack: seq<int>, saved: seq<Entry>, k: Sequel, steps: nat
      | pt.pos <= |p.s.text| && |pt.caps| == caps && Uniform(k)
        && Goes(p, e, Inner(check, stack, pt.pos), k, pt.pos + Ahead(a), caps, saved, steps)
      ensures Behaves(p, Running(State(b, pt, stack, saved)), FateOf(a, p.s, pt, k), saved, steps)
    {
      MeetsAt(p, b + g, e, a, caps, pt, Inner(check, stack, pt.pos), saved, k, steps);
      if check {
        StepPushPos(p, State(b, pt, stack, saved));
        BehavesAfter(p, State(b, pt, stack, saved), FateOf(a, p.s, pt, k), saved, steps);
      }
    }
  }

  lemma {:induction false} CheckedWhenGreedy(a: Node, greedy: bool)
    ensures var check := greedy && !CheckAdvance(Code(a)); if greedy then check || MustAdvance(a) else !check
  {
    CodeScan(a);
  }

  lemma {:induction false} StarTailMeets(p: Program, at: int, a: Node, greedy: bool, caps: nat, e: Pt, stack: seq<int>, saved: seq<Entry>,
                                         k: Sequel, steps: nat)
    requires var c := StarCode(Code(a), greedy, greedy && !CheckAdvance(Code(a)));
             Here(p.bc, at, c) && Goes(p, at + |c|, stack, k, e.pos, caps, saved, steps)
    requires Faithful(p, a, caps) && |p.bc| <= INT32_MAX && e.pos <= |p.s.text| && |e.caps| == caps && Uniform(k)
    ensures Behaves(p, Running(State(at, e, stack, saved)), StarFate(a, greedy, p.s, e, k), saved, steps)
  {
    hide Faithful, CheckAdvance, Head, Back, Iteration, Meets, Here, Jump, Code, Behaves, Goes, Uniform, StarFate;
    var check := greedy && !CheckAdvance(Code(a));
    var g, len := if check then 1 else 0, |Code(a)|;
    StarPieces(p.bc, at, Code(a), greedy, check);
    FaithfulAt(p, a, caps, at + 5 + g);
    CheckedWhenGreedy(a, greedy);
    IterationHere(p, at + 5, len, a, check, caps);
    StarRim(p, at, len, greedy, check);
    StarMeets(p, at, at + 5, at + 5 + g + len, at + 10 + g + len, a, greedy, check, caps, e, stack, saved, k, steps);
  }

  // ---------- counted loops ----------

  /** At the drop instruction after a counted loop. */
  lemma {:induction false} DropBehaves(p: Program, d: int, pt: Pt, stack: seq<int>, count: int, saved: seq<Entry>, f: Fate, steps: nat)
    requires Here(p.bc, d, [OP_DROP]) && pt.pos <= |p.s.text| && Behaves(p, Running(State(d + 1, pt, stack, saved)), f, saved, steps)
    ensures Behaves(p, Running(State(d, pt, stack + [count], saved)), f, saved, steps)
  {
    hide Behaves, Step;
    var st := State(d, pt, stack + [count], saved);
    StepDrop(p, st, stack, count);
    BehavesAfter(p, st, f, saved, steps);
  }

  /** Exactly j iterations. */
  lemma {:induction false} RepeatMeets(p: Program, b: int, e: int, a: Node, caps: nat, back: int, j: nat,
                                       pt: Pt, stack: seq<int>, saved: seq<Entry>, k: Sequel, steps: nat)
    requires Meets(p, b, e, a, caps) && Counting(p, b, e, back) && j >= 1 && pt.pos <= |p.s.text| && |pt.caps| == caps && Uniform(k)
    requires Goes(p, e + 6, stack, k, pt.pos + Ahead(a), caps, saved, steps)
    ensures Behaves(p, Running(State(b, pt, stack + [j], saved)), PowerFate(a, j, p.s, pt, k), saved, steps)
    decreases j
  {
    hide Behaves, Meets, Counting, Extends, Uniform, FateOf, Here, Step;
    var rest := AfterPower(a, j - 1, p.s, k);
    forall end: Pt, saved' | pt.pos + Ahead(a) <= end.pos <= |p.s.text| && |end.caps| == caps && Extends(saved', saved)
      ensures Behaves(p, Running(State(e, end, stack + [j], saved')), rest(end), saved', steps)
    {
      var st := State(e, end, stack + [j], saved');
      assert Here(p.bc, e, Jump(OP_LOOP, back)) && InRange(back) && b == e + 5 + back && Here(p.bc, e + 5, [OP_DROP]) by {
        CountingParts(p, b, e, back);
      }
      StepLoop(p, st, stack, j, back);
      if j > 1 {
        GoesFewer(p, e + 6, stack, k, pt.pos + Ahead(a), end.pos + Ahead(a), caps, saved, saved', steps, steps);
        RepeatMeets(p, b, e, a, caps, back, j - 1, end, stack, saved', k, steps);
      } else {
        GoesAt(p, e + 6, stack, k, pt.pos + Ahead(a), caps, saved, steps, end, saved');
        DropBehaves(p, e + 5, end, stack, 0, saved', k(end), steps);
      }
      assert rest(end) == PowerFate(a, j - 1, p.s, end, k);
      BehavesAfter(p, st, rest(end), saved', steps);
    }
    AfterPowerUniform(a, j - 1, p.s, k);
    MeetsAt(p, b, e, a, caps, pt, stack + [j], saved, rest, steps);
  }

  lemma {:induction false} CountingParts(p: Program, h: int, e: int, back: int)
    requires Counting(p, h, e, back)
    ensures Here(p.bc, e, Jump(OP_LOOP, back)) && InRange(back) && h == e + 5 + back && Here(p.bc, e + 5, [OP_DROP])
  {
  }

  /** At most j iterations; h chooses between the body and the drop instruction. */
  lemma {:induction false} UpToMeets(p: Program, h: int, e: int, a: Node, greedy: bool, caps: nat, back: int, j: nat,
                                     pt: Pt, stack: seq<int>, saved: seq<Entry>, k: Sequel, steps: nat)
    requires Meets(p, h + 5, e, a, caps) && Counting(p, h, e, back) && Head(p, h, h + 5, e + 5, greedy)
    requires j >= 1 && pt.pos <= |p.s.text| && |pt.caps| == caps && Uniform(k)
    requires Goes(p, e + 6, stack, k, pt.pos, caps, saved, steps)
    ensures Behaves(p, Running(State(h, pt, stack + [j], saved)), UpToFate(a, j, greedy, p.s, pt, k), saved, steps)
    decreases j, 1
  {
    hide Behaves, Meets, Counting, Extends, Uniform, FateOf, Here, Step, Goes, Head, Fail, AfterUpTo;
    var st := State(h, pt, stack + [j], saved);
    var more := FateOf(a, p.s, pt, AfterUpTo(a, j - 1, greedy, p.s, k));
    var c := Choice(if greedy then e + 5 else h + 5, pt, stack + [j]);
    var mid := saved + [c];
    CountingParts(p, h, e, back);
    HeadAt(p, h, h + 5, e + 5, greedy, pt, stack + [j], saved);
    ExtendsSelf(saved);
    ExtendsSelf(mid);
    ExtendsBy(saved, c);
    FailChoice(p.bc, saved, c.pc, pt, stack + [j]);
    var out := if greedy then saved else mid;
    GoesFewer(p, e + 6, stack, k, pt.pos, pt.pos, caps, saved, mid, steps, steps);
    GoesAt(p, e + 6, stack, k, pt.pos, caps, out, steps, pt, out);
    DropBehaves(p, e + 5, pt, stack, j, out, k(pt), steps);
    UpToIteration(p, h, e, a, greedy, caps, back, j, pt, stack, if greedy then mid else saved, k, steps);
    if greedy {
      ElseBehaves(p, Step(p, st), more, mid, k(pt), saved, steps);
    } else {
      ElseBehaves(p, Step(p, st), k(pt), mid, more, saved, steps);
    }
    BehavesAfter(p, st, UpToFate(a, j, greedy, p.s, pt, k), saved, steps);
  }

  lemma {:induction false} UpToIteration(p: Program, h: int, e: int, a: Node, greedy: bool, caps: nat, back: int, j: nat,
                                         pt: Pt, stack: seq<int>, mid: seq<Entry>, k: Sequel, steps: nat)
    requires Meets(p, h + 5, e, a, caps) && Counting(p, h, e, back) && Head(p, h, h + 5, e + 5, greedy)
    requires j >= 1 && pt.pos <= |p.s.text| && |pt.caps| == caps && Uniform(k)
    requires Goes(p, e + 6, stack, k, pt.pos, caps, mid, steps)
    ensures Behaves(p, Running(State(h + 5, pt, stack + [j], mid)), FateOf(a, p.s, pt, AfterUpTo(a, j - 1, greedy, p.s, k)), mid, steps)
    decreases j, 0
  {
    hide Behaves, Meets, Counting, Extends, Uniform, FateOf, Here, Step, Head;
    var rest := AfterUpTo(a, j - 1, greedy, p.s, k);
    forall end: Pt, saved' | pt.pos + Ahead(a) <= end.pos <= |p.s.text| && |end.caps| == caps && Extends(saved', mid)
      ensures Behaves(p, Running(State(e, end, stack + [j], saved')), rest(end), saved', steps)
    {
      var st := State(e, end, stack + [j], saved');
      CountingParts(p, h, e, back);
      StepLoop(p, st, stack, j, back);
      if j > 1 {
        GoesFewer(p, e + 6, stack, k, pt.pos, end.pos, caps, mid, saved', steps, steps);
        UpToMeets(p, h, e, a, greedy, caps, back, j - 1, end, stack, saved', k, steps);
      } else {
        GoesAt(p, e + 6, stack, k, pt.pos, caps, mid, steps, end, saved');
        DropBehaves(p, e + 5, end, stack, 0, saved', k(end), steps);
      }
      assert rest(end) == UpToFate(a, j - 1, greedy, p.s, end, k);
      BehavesAfter(p, st, rest(end), saved', steps);
    }
    AfterUpToUniform(a, j - 1, greedy, p.s, k);
    MeetsAt(p, h + 5, e, a, caps, pt, stack + [j], mid, rest, steps);
  }

  lemma {:induction false} UpToTailMeets(p: Program, at: int, a: Node, greedy: bool, n: nat, caps: nat, e: Pt, stack: seq<int>,
                                         saved: seq<Entry>, k: Sequel, steps: nat)
    requires Here(p.bc, at, UpToCode(Code(a), greedy, n)) && Faithful(p, a, caps) && |p.bc| <= INT32_MAX && Uniform(k)
    requires 1 <= n <= INT32_MAX && e.pos <= |p.s.text| && |e.caps| == caps
    requires Goes(p, at + |UpToCode(Code(a), greedy, n)|, stack, k, e.pos, caps, saved, steps)
    ensures Behaves(p, Running(State(at, e, stack, saved)), UpToFate(a, n, greedy, p.s, e, k), saved, steps)
  {
    hide Faithful, UpToFate, Meets, Here, Code, Step, Jump, Head, Behaves, Goes, Uniform;
    var len := |Code(a)|;
    UpToPieces(p.bc, at, Code(a), greedy, n);
    FaithfulAt(p, a, caps, at + 10);
    SplitHead(p, at + 5, greedy, len + 5);
    StepPush(p, State(at, e, stack, saved), n);
    UpToMeets(p, at + 5, at + 10 + len, a, greedy, caps, -(len + 10), n, e, stack, saved, k, steps);
    BehavesAfter(p, State(at, e, stack, saved), UpToFate(a, n, greedy, p.s, e, k), saved, steps);
  }

  /** A single optional atom has no counter. */
  lemma {:induction false} OptionTailMeets(p: Program, at: int, a: Node, greedy: bool, caps: nat, e: Pt, stack: seq<int>,
                                           saved: seq<Entry>, k: Sequel, steps: nat)
    requires Here(p.bc, at, Jump(Split(greedy), |Code(a)|) + Code(a)) && Faithful(p, a, caps) && |p.bc| <= INT32_MAX && Uniform(k)
    requires e.pos <= |p.s.text| && |e.caps| == caps && Goes(p, at + 5 + |Code(a)|, stack, k, e.pos, caps, saved, steps)
    ensures Behaves(p, Running(State(at, e, stack, saved)), UpToFate(a, 1, greedy, p.s, e, k), saved, steps)
  {
    hide Faithful, Meets, Code, Step, Jump, Head, Behaves, Goes, Uniform, Extends, Fail, FateOf, AfterUpTo;
    var b, x, len := at + 5, at + 5 + |Code(a)|, |Code(a)|;
    HereSplit(p.bc, at, Jump(Split(greedy), len), Code(a));
    FaithfulAt(p, a, caps, b);
    SplitHead(p, at, greedy, len);
    var st := State(at, e, stack, saved);
    HeadAt(p, at, b, x, greedy, e, stack, saved);
    var c := Choice(if greedy then x else b, e, stack);
    var mid := saved + [c];
    ExtendsSelf(saved);
    ExtendsSelf(mid);
    ExtendsBy(saved, c);
    FailChoice(p.bc, saved, c.pc, e, stack);
    var rest := AfterUpTo(a, 0, greedy, p.s, k);
    var inside, out := if greedy then mid else saved, if greedy then saved else mid;
    GoesFewer(p, x, stack, k, e.pos, e.pos, caps, saved, mid, steps, steps);
    GoesAt(p, x, stack, k, e.pos, caps, out, steps, e, out);
    GoesFewer(p, x, stack, k, e.pos, e.pos + Ahead(a), caps, inside, inside, steps, steps);
    LastIteration(p, x, stack, a, greedy, k, e.pos + Ahead(a), caps, inside, steps);
    AfterUpToUniform(a, 0, greedy, p.s, k);
    MeetsAt(p, b, x, a, caps, e, stack, inside, rest, steps);
    if greedy {
      ElseBehaves(p, Step(p, st), FateOf(a, p.s, e, rest), mid, k(e), saved, steps);
    } else {
      ElseBehaves(p, Step(p, st), k(e), mid, FateOf(a, p.s, e, rest), saved, steps);
    }
    BehavesAfter(p, st, UpToFate(a, 1, greedy, p.s, e, k), saved, steps);
  }

  /** No further iteration is allowed. */
  lemma {:induction false} LastIteration(p: Program, x: int, stack: seq<int>, a: Node, greedy: bool, k: Sequel, low: nat, caps: nat,
                                         saved: seq<Entry>, steps: nat)
    requires Goes(p, x, stack, k, low, caps, saved, steps)
    ensures Goes(p, x, stack, AfterUpTo(a, 0, greedy, p.s, k), low, caps, saved, steps)
  {
    hide Behaves, Extends, FateOf;
    forall e: Pt, saved' | low <= e.pos <= |p.s.text| && |e.caps| == caps && Extends(saved', saved)
      ensures Behaves(p, Running(State(x, e, stack, saved')), AfterUpTo(a, 0, greedy, p.s, k)(e), saved', steps)
    {
      GoesAt(p, x, stack, k, low, caps, saved, steps, e, saved');
    }
  }

  // ---------- quantifiers ----------

  lemma {:induction false} TailMeets(p: Program, at: int, a: Node, min: nat, max: nat, greedy: bool, caps: nat, e: Pt, stack: seq<int>,
                                     saved: seq<Entry>, k: Sequel, steps: nat)
    requires var c := TailCode(Code(a), min, max, greedy, greedy && !CheckAdvance(Code(a)));
             Here(p.bc, at, c) && Goes(p, at + |c|, stack, k, e.pos, caps, saved, steps)
    requires Faithful(p, a, caps) && |p.bc| <= INT32_MAX && max <= INT32_MAX && e.pos <= |p.s.text| && |e.caps| == caps && Uniform(k)
    ensures Behaves(p, Running(State(at, e, stack, saved)),
                    Optional(a, max == INT32_MAX, Bound(max, min), greedy, p.s, k)(e), saved, steps)
  {
    hide Faithful, Here, Code, CheckAdvance, StarCode, UpToCode, Jump, Behaves, Goes, Uniform, StarFate;
    if max == INT32_MAX {
      StarTailMeets(p, at, a, greedy, caps, e, stack, saved, k, steps);
    } else if max <= min {
      ExtendsSelf(saved);
      GoesAt(p, at, stack, k, e.pos, caps, saved, steps, e, saved);
    } else if min == 0 && max == 1 {
      OptionTailMeets(p, at, a, greedy, caps, e, stack, saved, k, steps);
    } else {
      UpToTailMeets(p, at, a, greedy, max - min, caps, e, stack, saved, k, steps);
    }
  }

  lemma {:induction false} MinMeets(p: Program, at: int, a: Node, min: nat, caps: nat, pt: Pt, stack: seq<int>, saved: seq<Entry>,
                                    k: Sequel, steps: nat)
    requires Here(p.bc, at, MinCode(Code(a), min)) && Faithful(p, a, caps) && |p.bc| <= INT32_MAX && Uniform(k)
    requires 1 <= min <= INT32_MAX && pt.pos <= |p.s.text| && |pt.caps| == caps
    requires Goes(p, at + |MinCode(Code(a), min)|, stack, k, pt.pos + Ahead(a), caps, saved, steps)
    ensures Behaves(p, Running(State(at, pt, stack, saved)), PowerFate(a, min, p.s, pt, k), saved, steps)
  {
    hide Faithful, Meets, Here, Code, Step, Jump, Behaves, Goes, Uniform, Ahead, FateOf, AfterPower;
    var len := |Code(a)|;
    if min == 1 {
      FaithfulAt(p, a, caps, at);
      LastMandatory(p, at + len, stack, a, k, pt.pos + Ahead(a), caps, saved, steps);
      AfterPowerUniform(a, 0, p.s, k);
      MeetsAt(p, at, at + len, a, caps, pt, stack, saved, AfterPower(a, 0, p.s, k), steps);
    } else {
      RepeatPieces(p.bc, at, Code(a), min);
      FaithfulAt(p, a, caps, at + 5);
      StepPush(p, State(at, pt, stack, saved), min);
      RepeatMeets(p, at + 5, at + 5 + len, a, caps, -(len + 5), min, pt, stack, saved, k, steps);
      BehavesAfter(p, State(at, pt, stack, saved), PowerFate(a, min, p.s, pt, k), saved, steps);
    }
  }

  /** No further iteration is needed. */
  lemma {:induction false} LastMandatory(p: Program, x: int, stack: seq<int>, a: Node, k: Sequel, low: nat, caps: nat, saved: seq<Entry>,
                                         steps: nat)
    requires Goes(p, x, stack, k, low, caps, saved, steps)
    ensures Goes(p, x, stack, AfterPower(a, 0, p.s, k), low, caps, saved, steps)
  {
    hide Behaves, Extends, FateOf;
    forall e: Pt, saved' | low <= e.pos <= |p.s.text| && |e.caps| == caps && Extends(saved', saved)
      ensures Behaves(p, Running(State(x, e, stack, saved')), AfterPower(a, 0, p.s, k)(e), saved', steps)
    {
      GoesAt(p, x, stack, k, low, caps, saved, steps, e, saved');
    }
  }

  /** The optional iterations, from every end of the mandatory ones. */
  lemma {:induction false} TailGoes(p: Program, mid: int, a: Node, min: nat, max: nat, greedy: bool, caps: nat, stack: seq<int>,
                                    saved: seq<Entry>, k: Sequel, low: nat, steps: nat)
    requires var c := TailCode(Code(a), min, max, greedy, greedy && !CheckAdvance(Code(a)));
             Here(p.bc, mid, c) && Goes(p, mid + |c|, stack, k, low, caps, saved, steps)
    requires Faithful(p, a, caps) && |p.bc| <= INT32_MAX && max <= INT32_MAX && Uniform(k)
    ensures Goes(p, mid, stack, Optional(a, max == INT32_MAX, Bound(max, min), greedy, p.s, k), low, caps, saved, steps)
  {
    hide Faithful, Here, Code, CheckAdvance, TailCode, Behaves, Uniform, Optional, Extends;
    var c := TailCode(Code(a), min, max, greedy, greedy && !CheckAdvance(Code(a)));
    var rest := Optional(a, max == INT32_MAX, Bound(max, min), greedy, p.s, k);
    forall e: Pt, saved' | low <= e.pos <= |p.s.text| && |e.caps| == caps && Extends(saved', saved)
      ensures Behaves(p, Running(State(mid, e, stack, saved')), rest(e), saved', steps)
    {
      GoesFewer(p, mid + |c|, stack, k, low, e.pos, caps, saved, saved', steps, steps);
      TailMeets(p, mid, a, min, max, greedy, caps, e, stack, saved', k, steps);
    }
  }

  /** A quantifier without the optimized instruction and with a mandatory part. */
  lemma {:induction false} MandatoryMeets(p: Program, at: int, a: Node, min: nat, max: nat, greedy: bool, caps: nat, pt: Pt,
                                          stack: seq<int>, saved: seq<Entry>, k: Sequel, steps: nat)
    requires var c := TailCode(Code(a), min, max, greedy, greedy && !CheckAdvance(Code(a)));
             Here(p.bc, at, MinCode(Code(a), min) + c)
             && Goes(p, at + |MinCode(Code(a), min) + c|, stack, k, pt.pos + Ahead(a), caps, saved, steps)
    requires Faithful(p, a, caps) && |p.bc| <= INT32_MAX && max <= INT32_MAX && Uniform(k)
    requires 1 <= min <= INT32_MAX && pt.pos <= |p.s.text| && |pt.caps| == caps
    ensures Behaves(p, Running(State(at, pt, stack, saved)),
                    PowerFate(a, min, p.s, pt, Optional(a, max == INT32_MAX, Bound(max, min), greedy, p.s, k)), saved, steps)
  {
    hide Faithful, Here, Code, TailCode, MinCode, CheckAdvance, Behaves, Goes, Uniform, Optional, PowerFate, Ahead;
    var c := TailCode(Code(a), min, max, greedy, greedy && !CheckAdvance(Code(a)));
    HereSplit(p.bc, at, MinCode(Code(a), min), c);
    TailGoes(p, at + |MinCode(Code(a), min)|, a, min, max, greedy, caps, stack, saved, k, pt.pos + Ahead(a), steps);
    OptionalUniform(a, max == INT32_MAX, Bound(max, min), greedy, p.s, k);
    MinMeets(p, at, a, min, caps, pt, stack, saved, Optional(a, max == INT32_MAX, Bound(max, min), greedy, p.s, k), steps);
  }

  /** `+` where the loop needs no test for progress: the atom, then a split back to it. */
  lemma {:induction false} PlusMeets(p: Program, at: int, a: Node, greedy: bool, caps: nat, pt: Pt, stack: seq<int>, saved: seq<Entry>,
                                     k: Sequel, steps: nat)
    requires Here(p.bc, at, Code(a) + Jump(Split(!greedy), -(|Code(a)| + 5))) && Faithful(p, a, caps) && |p.bc| <= INT32_MAX
    requires (greedy ==> MustAdvance(a)) && pt.pos <= |p.s.text| && |pt.caps| == caps && Uniform(k)
    requires Goes(p, at + |Code(a)| + 5, stack, k, pt.pos + Ahead(a), caps, saved, steps)
    ensures Behaves(p, Running(State(at, pt, stack, saved)), PowerFate(a, 1, p.s, pt, Optional(a, true, 0, greedy, p.s, k)), saved, steps)
  {
    hide Faithful, Here, Code, Jump, Behaves, Uniform, Optional, Ahead, FateOf, AfterPower, Meets, Looping, Extends;
    var mid, end, low := at + |Code(a)|, at + |Code(a)| + 5, pt.pos + Ahead(a);
    var rest := Optional(a, true, 0, greedy, p.s, k);
    assert at >= 0 by { HereAt(p.bc, at, Code(a) + Jump(Split(!greedy), -(|Code(a)| + 5))); }
    HereSplit(p.bc, at, Code(a), Jump(Split(!greedy), -(|Code(a)| + 5)));
    FaithfulAt(p, a, caps, at);
    PlusLooping(p, at, a, greedy, caps);
    forall e: Pt, saved' | low <= e.pos <= |p.s.text| && |e.caps| == caps && Extends(saved', saved)
      ensures Behaves(p, Running(State(mid, e, stack, saved')), rest(e), saved', steps)
    {
      GoesFewer(p, end, stack, k, low, e.pos, caps, saved, saved', steps, steps);
      StarMeets(p, mid, at, mid, end, a, greedy, false, caps, e, stack, saved', k, steps);
      UnboundedIs(a, greedy, p.s, k, e);
    }
    LastMandatory(p, mid, stack, a, rest, low, caps, saved, steps);
    OptionalUniform(a, true, 0, greedy, p.s, k);
    AfterPowerUniform(a, 0, p.s, rest);
    MeetsAt(p, at, mid, a, caps, pt, stack, saved, AfterPower(a, 0, p.s, rest), steps);
    PowerIs(a, 1, p.s, pt, rest);
  }

  lemma {:induction false} UnboundedIs(a: Node, greedy: bool, s: Subject, k: Sequel, e: Pt)
    ensures Optional(a, true, 0, greedy, s, k)(e) == StarFate(a, greedy, s, e, k)
  {
    hide StarFate;
  }

  lemma {:induction false} PowerIs(a: Node, j: nat, s: Subject, pt: Pt, k: Sequel)
    requires j > 0
    ensures PowerFate(a, j, s, pt, k) == FateOf(a, s, pt, AfterPower(a, j - 1, s, k))
  {
    hide FateOf, AfterPower;
  }

  lemma {:induction false} PlusLooping(p: Program, at: int, a: Node, greedy: bool, caps: nat)
    requires Here(p.bc, at + |Code(a)|, Jump(Split(!greedy), -(|Code(a)| + 5))) && |p.bc| <= INT32_MAX && at >= 0
    requires Meets(p, at, at + |Code(a)|, a, caps) && (greedy ==> MustAdvance(a))
    ensures var e := at + |Code(a)|; Looping(p, e, at, e, e + 5, a, greedy, false, caps)
  {
    hide Here, Code, Jump, Meets, Head, Back, Iteration;
    PlusRim(p, at, |Code(a)|, greedy);
    IterationHere(p, at, |Code(a)|, a, false, caps);
  }

  /** A quantifier with no mandatory iteration, after the captures inside it are unset. */
  lemma {:induction false} OptionalMeets(p: Program, at: int, a: Node, max: nat, greedy: bool, lo: nat, hi: nat, caps: nat, pt: Pt,
                                         stack: seq<int>, saved: seq<Entry>, k: Sequel, steps: nat)
    requires var c := TailCode(Code(a), 0, max, greedy, greedy && !CheckAdvance(Code(a)));
             Here(p.bc, at, Reset(0, lo, hi) + c) && Goes(p, at + |Reset(0, lo, hi) + c|, stack, k, pt.pos, caps, saved, steps)
    requires Faithful(p, a, caps) && |p.bc| <= INT32_MAX && max <= INT32_MAX && Uniform(k)
    requires pt.pos <= |p.s.text| && |pt.caps| == caps && lo <= hi <= 255 && 2 * hi <= caps
    ensures Behaves(p, Running(State(at, pt, stack, saved)), FateOf(Quant(a, 0, max, greedy, lo, hi), p.s, pt, k), saved, steps)
  {
    hide Faithful, Here, Code, TailCode, CheckAdvance, Step, Behaves, Goes, Uniform, Optional;
    var c := TailCode(Code(a), 0, max, greedy, greedy && !CheckAdvance(Code(a)));
    var pt' := pt.(caps := ResetCaps(pt.caps, lo, hi));
    var f := FateOf(Quant(a, 0, max, greedy, lo, hi), p.s, pt, k);
    assert f == Optional(a, max == INT32_MAX, Bound(max, 0), greedy, p.s, k)(pt') by { OptionalIs(a, max, greedy, lo, hi, p.s, pt, k); }
    HereSplit(p.bc, at, Reset(0, lo, hi), c);
    TailMeets(p, at + |Reset(0, lo, hi)|, a, 0, max, greedy, caps, pt', stack, saved, k, steps);
    if lo != hi {
      var st := State(at, pt, stack, saved);
      StepReset(p, st, lo, hi);
      BehavesAfter(p, st, f, saved, steps);
    } else {
      ResetNothing(pt.caps, lo);
    }
  }

  lemma {:induction false} OptionalIs(a: Node, max: nat, greedy: bool, lo: nat, hi: nat, s: Subject, pt: Pt, k: Sequel)
    ensures FateOf(Quant(a, 0, max, greedy, lo, hi), s, pt, k)
         == Optional(a, max == INT32_MAX, Bound(max, 0), greedy, s, k)(pt.(caps := ResetCaps(pt.caps, lo, hi)))
  {
    hide Optional, ResetCaps;
  }

  lemma {:induction false} SimpleMeets(p: Program, at: int, a: Node, min: nat, max: nat, lo: nat, hi: nat, captures: nat, caps: nat, pt: Pt,
                                       stack: seq<int>, saved: seq<Entry>, k: Sequel, steps: nat)
    requires var n := Quant(a, min, max, true, lo, hi);
             && Here(p.bc, at, Code(n)) && WellFormed(n, captures)
             && Goes(p, at + |Code(n)|, stack, k, pt.pos + Ahead(n), caps, saved, steps)
    requires max > 0 && SimpleCount(Code(a)) > 0 && |p.bc| <= INT32_MAX && pt.pos <= |p.s.text| && |pt.caps| == caps
    ensures Behaves(p, Running(State(at, pt, stack, saved)), FateOf(Quant(a, min, max, true, lo, hi), p.s, pt, k), saved, steps)
  {
    hide Yields, Here, Code, SimpleCount, Goes, FateOf, Behaves, FirstOf, Ends, WellFormed;
    var n := Quant(a, min, max, true, lo, hi);
    SimpleQuantYields(p, at, a, min, max, lo, hi, captures, pt, stack, saved);
    assert forall e <- Ends(n, p.s, pt) :: pt.pos + Ahead(n) <= e.pos <= |p.s.text| && |e.caps| == caps by {
      EndsAhead(n, p.s, pt);
    }
    YieldsBehaves(p, Running(State(at, pt, stack, saved)), at + |Code(n)|, stack, Ends(n, p.s, pt), k, pt.pos + Ahead(n), caps, saved, steps);
    SimpleRefers(a, p.s);
    SimpleQuant(a, min, max, true, lo, hi, p.s);
    RefersAt(n, p.s, true, pt, k);
  }

  lemma {:induction false} EndsAhead(n: Node, s: Subject, pt: Pt)
    requires pt.pos <= |s.text|
    ensures forall e <- Ends(n, s, pt) :: pt.pos + Ahead(n) <= e.pos
  {
    hide MustAdvance, Ends;
    if MustAdvance(n) { AdvancesSound(n, s, pt); }
  }

  lemma {:induction false} QuantMeets(p: Program, at: int, a: Node, min: nat, max: nat, greedy: bool, lo: nat, hi: nat, caps: nat,
                                      captures: nat, pt: Pt, stack: seq<int>, saved: seq<Entry>, k: Sequel, steps: nat)
    requires var n := Quant(a, min, max, greedy, lo, hi);
             && Here(p.bc, at, Code(n)) && WellFormed(n, captures)
             && Goes(p, at + |Code(n)|, stack, k, pt.pos + Ahead(n), caps, saved, steps)
    requires Faithful(p, a, caps) && |p.bc| <= INT32_MAX && captures <= 255 && 2 * captures <= caps && Uniform(k)
    requires pt.pos <= |p.s.text| && |pt.caps| == caps
    ensures Behaves(p, Running(State(at, pt, stack, saved)), FateOf(Quant(a, min, max, greedy, lo, hi), p.s, pt, k), saved, steps)
  {
    hide Faithful, Here, TailCode, QuantCode, LoopCode, PlusForm, SimpleCount, Goes, Behaves, Uniform, PowerFate, Optional, FateOf,
      Jump, Reset, MinCode;
    if greedy && max > 0 && SimpleCount(Code(a)) > 0 {
      SimpleMeets(p, at, a, min, max, lo, hi, captures, caps, pt, stack, saved, k, steps);
    } else {
      LoopForms(Code(a), min, max, greedy, lo, hi);
      LoopHere(p, at, a, min, max, greedy, lo, hi);
      QuantAhead(a, min, max, greedy, lo, hi, p.s, pt, k);
      hide Code, CheckAdvance, Ahead;
      if min == 0 {
        OptionalMeets(p, at, a, max, greedy, lo, hi, caps, pt, stack, saved, k, steps);
      } else if PlusForm(Code(a), min, max, greedy) {
        PlusAdvances(a, min, max, greedy);
        PlusMeets(p, at, a, greedy, caps, pt, stack, saved, k, steps);
      } else {
        MandatoryMeets(p, at, a, min, max, greedy, caps, pt, stack, saved, k, steps);
      }
    }
  }

  lemma {:induction false} LoopHere(p: Program, at: int, a: Node, min: nat, max: nat, greedy: bool, lo: nat, hi: nat)
    requires !(greedy && max > 0 && SimpleCount(Code(a)) > 0)
    ensures Code(Quant(a, min, max, greedy, lo, hi)) == LoopCode(Code(a), min, max, greedy, lo, hi)
  {
    hide LoopCode, SimpleCode, SimpleCount;
  }

  lemma {:induction false} QuantAhead(a: Node, min: nat, max: nat, greedy: bool, lo: nat, hi: nat, s: Subject, pt: Pt, k: Sequel)
    ensures var n := Quant(a, min, max, greedy, lo, hi);
            && Ahead(n) == (if min == 0 then 0 else Ahead(a))
            && (min > 0 ==> FateOf(n, s, pt, k) == PowerFate(a, min, s, pt, Optional(a, max == INT32_MAX, Bound(max, min), greedy, s, k)))
  {
    hide PowerFate, Optional;
  }

  // ---------- every pattern ----------

  lemma {:induction false} NodeMeets(p: Program, at: int, n: Node, captures: nat, caps: nat, pt: Pt, stack: seq<int>,
                                     saved: seq<Entry>, k: Sequel, steps: nat)
    requires WellFormed(n, captures) && captures <= 255 && 2 * captures <= caps && |p.bc| <= INT32_MAX && Uniform(k)
    requires Here(p.bc, at, Code(n)) && pt.pos <= |p.s.text| && |pt.caps| == caps
    requires Goes(p, at + |Code(n)|, stack, k, pt.pos + Ahead(n), caps, saved, steps)
    ensures Behaves(p, Running(State(at, pt, stack, saved)), FateOf(n, p.s, pt, k), saved, steps)
    decreases n, 0
  {
    hide Behaves, Faithful, Here, QuantCode, TestCode, Goes, Uniform, FateOf, Jump;
    match n
    case Empty =>
      EmptyMeets(p, at, caps, pt, stack, saved, k, steps);
    case Leaf(t) => LeafMeets(p, at, t, caps, pt, stack, saved, k, steps);
    case Cat(a, b) =>
      NodeFaithful(p, a, captures, caps);
      NodeFaithful(p, b, captures, caps);
      CatMeets(p, at, a, b, caps, pt, stack, saved, k, steps);
    case Alt(a, b) =>
      NodeFaithful(p, a, captures, caps);
      NodeFaithful(p, b, captures, caps);
      AltMeets(p, at, a, b, caps, pt, stack, saved, k, steps);
    case Quant(a, min, max, greedy, lo, hi) =>
      NodeFaithful(p, a, captures, caps);
      QuantMeets(p, at, a, min, max, greedy, lo, hi, caps, captures, pt, stack, saved, k, steps);
    case Capture(i, a) =>
      NodeFaithful(p, a, captures, caps);
      CaptureMeets(p, at, i, a, caps, pt, stack, saved, k, steps);
    case Look(a, neg) =>
      NodeFaithful(p, a, captures, caps);
      LookMeets(p, at, a, neg, caps, pt, stack, saved, k, steps);
  }

  lemma {:induction false} EmptyMeets(p: Program, at: int, caps: nat, pt: Pt, stack: seq<int>, saved: seq<Entry>, k: Sequel, steps: nat)
    requires pt.pos <= |p.s.text| && |pt.caps| == caps && Goes(p, at, stack, k, pt.pos, caps, saved, steps)
    ensures Behaves(p, Running(State(at, pt, stack, saved)), FateOf(Empty, p.s, pt, k), saved, steps)
  {
    hide Behaves, Goes;
    ExtendsSelf(saved);
    GoesAt(p, at, stack, k, pt.pos, caps, saved, steps, pt, saved);
  }

  /** Wherever its code stands, and whatever follows, the machine meets the fate of a pattern: every
      pattern, also those that can keep it busy for ever. */
  lemma {:induction false} NodeFaithful(p: Program, n: Node, captures: nat, caps: nat)
    requires WellFormed(n, captures) && captures <= 255 && 2 * captures <= caps && |p.bc| <= INT32_MAX
    ensures Faithful(p, n, caps)
    decreases n, 1
  {
    hide Behaves, Here, Code, WellFormed, FateOf, Goes, Uniform, Ahead;
    forall at | Here(p.bc, at, Code(n)) ensures Meets(p, at, at + |Code(n)|, n, caps) {
      var end := at + |Code(n)|;
      forall pt: Pt, stack: seq<int>, saved: seq<Entry>, k: Sequel, steps: nat
        | pt.pos <= |p.s.text| && |pt.caps| == caps && Uniform(k)
          && Goes(p, end, stack, k, pt.pos + Ahead(n), caps, saved, steps)
        ensures Behaves(p, Running(State(at, pt, stack, saved)), FateOf(n, p.s, pt, k), saved, steps)
      {
        NodeMeets(p, at, n, captures, caps, pt, stack, saved, k, steps);
      }
    }
  }
}
