/** The emitted bytecode makes the machine visit exactly the reference matcher's ways, in order. */
module RegexCorrect {
  import opened RegexBytes
  import opened RegexSyntax
  import opened RegexMatch
  import opened RegexMachine
  import opened RegexYields
  import opened RegexScan
  import opened RegexSimple

  /** From `at`, with any captures, operand stack and saved states, the machine yields the ways of
      matching n at `end`. */
  ghost predicate Implements(p: Program, at: int, end: int, n: Node, caps: nat) {
    forall pt: Pt, stack, saved ::
      pt.pos <= |p.s.text| && |pt.caps| == caps ==>
        Yields(p, Running(State(at, pt, stack, saved)), end, stack, Ends(n, p.s, pt), saved)
  }

  lemma {:induction false} ImplementsAt(p: Program, at: int, end: int, n: Node, caps: nat, pt: Pt, stack: seq<int>, saved: seq<Entry>)
    requires Implements(p, at, end, n, caps) && pt.pos <= |p.s.text| && |pt.caps| == caps
    ensures Yields(p, Running(State(at, pt, stack, saved)), end, stack, Ends(n, p.s, pt), saved)
  {
    hide Yields, Ends;
  }

  // ---------- single instructions ----------

  predicate InRange(n: int) {
    -INT32_MAX - 1 <= n <= INT32_MAX
  }

  lemma {:induction false} StepJump(p: Program, st: State, op: Byte, n: int)
    requires Here(p.bc, st.pc, Jump(op, n)) && InRange(n) && OpSize(op) == 5 && op != OP_CHAR32 && st.pt.pos <= |p.s.text|
    ensures 0 <= st.pc && st.pc + 5 <= |p.bc| && p.bc[st.pc] == op
    ensures GetI32(p.bc, st.pc + 1) == n && (n >= 0 ==> GetU32(p.bc, st.pc + 1) == n)
    ensures Step(p, st) == StepControl(p, st)
  {
    hide StepControl, GetI32, GetU32;
    Op32At(p.bc, st.pc, op, n);
  }

  lemma {:induction false} StepSplit(p: Program, st: State, greedy: bool, n: int)
    requires Here(p.bc, st.pc, Jump(Split(greedy), n)) && InRange(n) && st.pt.pos <= |p.s.text|
    ensures greedy ==> Step(p, st) == Running(State(st.pc + 5, st.pt, st.stack,
                                                    st.saved + [Choice(st.pc + 5 + n, st.pt, st.stack)]))
    ensures !greedy ==> Step(p, st) == Running(State(st.pc + 5 + n, st.pt, st.stack,
                                                     st.saved + [Choice(st.pc + 5, st.pt, st.stack)]))
  {
    StepJump(p, st, Split(greedy), n);
    hide GetI32, GetU32, Step;
  }

  lemma {:induction false} StepGoto(p: Program, st: State, n: int)
    requires Here(p.bc, st.pc, Jump(OP_GOTO, n)) && InRange(n) && st.pt.pos <= |p.s.text|
    ensures Step(p, st) == Running(st.(pc := st.pc + 5 + n))
  {
    StepJump(p, st, OP_GOTO, n);
    hide GetI32, GetU32, Step;
  }

  lemma {:induction false} StepPush(p: Program, st: State, n: int)
    requires Here(p.bc, st.pc, Jump(OP_PUSH_I32, n)) && 0 <= n <= INT32_MAX && st.pt.pos <= |p.s.text|
    ensures Step(p, st) == Running(st.(pc := st.pc + 5, stack := st.stack + [n]))
  {
    StepJump(p, st, OP_PUSH_I32, n);
    hide GetI32, GetU32, Step;
  }

  lemma {:induction false} StepLoop(p: Program, st: State, stack: seq<int>, count: int, n: int)
    requires Here(p.bc, st.pc, Jump(OP_LOOP, n)) && InRange(n) && st.pt.pos <= |p.s.text|
    requires st.stack == stack + [count]
    ensures Step(p, st) == Running(st.(pc := if count != 1 then st.pc + 5 + n else st.pc + 5, stack := stack + [count - 1]))
  {
    StepJump(p, st, OP_LOOP, n);
    hide GetI32, GetU32, Step;
    assert (stack + [count])[|stack| := count - 1] == stack + [count - 1];
  }

  lemma {:induction false} StepBne(p: Program, st: State, stack: seq<int>, pos: int, n: int)
    requires Here(p.bc, st.pc, Jump(OP_BNE_CHAR_POS, n)) && InRange(n) && st.pt.pos <= |p.s.text|
    requires st.stack == stack + [pos]
    ensures Step(p, st) == Running(st.(pc := if pos != st.pt.pos then st.pc + 5 + n else st.pc + 5, stack := stack))
  {
    StepJump(p, st, OP_BNE_CHAR_POS, n);
    hide GetI32, GetU32, Step;
    assert (stack + [pos])[..|stack|] == stack;
  }

  lemma {:induction false} StepAssertion(p: Program, st: State, neg: bool, n: int)
    requires Here(p.bc, st.pc, Jump(if neg then OP_NEGATIVE_LOOKAHEAD else OP_LOOKAHEAD, n)) && InRange(n)
    requires st.pt.pos <= |p.s.text|
    ensures Step(p, st) == Running(State(st.pc + 5, st.pt, st.stack,
                                         st.saved + [Assertion(neg, st.pc + 5 + n, st.pt, st.stack)]))
  {
    StepJump(p, st, if neg then OP_NEGATIVE_LOOKAHEAD else OP_LOOKAHEAD, n);
    hide GetI32, GetU32, Step;
  }

  lemma {:induction false} StepDrop(p: Program, st: State, stack: seq<int>, x: int)
    requires Here(p.bc, st.pc, [OP_DROP]) && st.stack == stack + [x] && st.pt.pos <= |p.s.text|
    ensures Step(p, st) == Running(st.(pc := st.pc + 1, stack := stack))
  {
    OpAt(p.bc, st.pc, OP_DROP);
    assert (stack + [x])[..|stack|] == stack;
  }

  lemma {:induction false} StepPushPos(p: Program, st: State)
    requires Here(p.bc, st.pc, [OP_PUSH_CHAR_POS]) && st.pt.pos <= |p.s.text|
    ensures Step(p, st) == Running(st.(pc := st.pc + 1, stack := st.stack + [st.pt.pos]))
  {
    OpAt(p.bc, st.pc, OP_PUSH_CHAR_POS);
  }

  lemma {:induction false} StepSave(p: Program, st: State, end: bool, k: nat)
    requires Here(p.bc, st.pc, [if end then OP_SAVE_END else OP_SAVE_START, k % 256]) && st.pt.pos <= |p.s.text|
    requires k < 255 && 2 * k + 1 < |st.pt.caps|
    ensures Step(p, st)
         == Running(st.(pc := st.pc + 2,
                        pt := st.pt.(caps := SetCap(st.pt.caps, 2 * k + (if end then 1 else 0), st.pt.pos))))
  {
    var f: seq<Byte> := [if end then OP_SAVE_END else OP_SAVE_START, k % 256];
    ByteAt(p.bc, st.pc, f, 0);
    ByteAt(p.bc, st.pc, f, 1);
  }

  lemma {:induction false} StepReset(p: Program, st: State, lo: nat, hi: nat)
    requires Here(p.bc, st.pc, [OP_SAVE_RESET, lo % 256, (hi - 1) % 256]) && st.pt.pos <= |p.s.text|
    requires lo < hi <= 255 && 2 * hi <= |st.pt.caps|
    ensures Step(p, st) == Running(st.(pc := st.pc + 3, pt := st.pt.(caps := ResetCaps(st.pt.caps, lo, hi))))
  {
    var f: seq<Byte> := [OP_SAVE_RESET, lo % 256, (hi - 1) % 256];
    ByteAt(p.bc, st.pc, f, 0);
    ByteAt(p.bc, st.pc, f, 1);
    ByteAt(p.bc, st.pc, f, 2);
  }

  lemma {:induction false} StepMatch(p: Program, st: State)
    requires Here(p.bc, st.pc, [OP_MATCH]) && st.pt.pos <= |p.s.text|
    ensures Step(p, st) == Succeed(p.bc, st.saved, st.pt)
  {
    OpAt(p.bc, st.pc, OP_MATCH);
  }

  lemma {:induction false} FailChoice(bc: seq<Byte>, saved: seq<Entry>, pc: int, pt: Pt, stack: seq<int>)
    ensures Fail(bc, saved + [Choice(pc, pt, stack)]) == Running(State(pc, pt, stack, saved))
  {
    assert (saved + [Choice(pc, pt, stack)])[..|saved|] == saved;
  }

  // ---------- unbounded loops ----------

  /** The operand stack inside an iteration. */
  function Inner(check: bool, stack: seq<int>, pos: int): seq<int> {
    if check then stack + [pos] else stack
  }

  /** At h the machine chooses between the body at b and the exit at x, body first when greedy. */
  ghost predicate Head(p: Program, h: int, b: int, x: int, greedy: bool) {
    forall pt: Pt, stack, saved :: pt.pos <= |p.s.text| ==> HeadStep(p, h, b, x, greedy, pt, stack, saved)
  }

  ghost predicate HeadStep(p: Program, h: int, b: int, x: int, greedy: bool, pt: Pt, stack: seq<int>, saved: seq<Entry>) {
    Step(p, State(h, pt, stack, saved))
    == if greedy then Running(State(b, pt, stack, saved + [Choice(x, pt, stack)]))
       else Running(State(x, pt, stack, saved + [Choice(b, pt, stack)]))
  }

  /** From b, one iteration of the atom up to e. */
  ghost predicate Body(p: Program, b: int, e: int, a: Node, check: bool, caps: nat) {
    forall pt: Pt, stack, saved :: pt.pos <= |p.s.text| && |pt.caps| == caps ==>
      Yields(p, Running(State(b, pt, stack, saved)), e, Inner(check, stack, pt.pos), Ends(a, p.s, pt), saved)
  }

  lemma {:induction false} BodyAt(p: Program, b: int, e: int, a: Node, check: bool, caps: nat, pt: Pt, stack: seq<int>, saved: seq<Entry>)
    requires Body(p, b, e, a, check, caps) && pt.pos <= |p.s.text| && |pt.caps| == caps
    ensures Yields(p, Running(State(b, pt, stack, saved)), e, Inner(check, stack, pt.pos), Ends(a, p.s, pt), saved)
  {
    hide Yields, Ends, Inner;
  }

  /** From e back to h, or out to x after an iteration that consumed nothing. */
  ghost predicate Back(p: Program, e: int, h: int, x: int, check: bool) {
    forall pt: Pt, pos, stack, saved :: pt.pos <= |p.s.text| ==> BackStep(p, e, h, x, check, pt, pos, stack, saved)
  }

  ghost predicate BackStep(p: Program, e: int, h: int, x: int, check: bool, pt: Pt, pos: int, stack: seq<int>,
                           saved: seq<Entry>) {
    Reaches(p, Running(State(e, pt, Inner(check, stack, pos), saved)),
            Running(State(if check && pt.pos == pos then x else h, pt, stack, saved)))
  }

  /** An emitted loop that leaves after an iteration without progress, or never has one. */
  ghost predicate Loop(p: Program, h: int, b: int, e: int, x: int, a: Node, greedy: bool, check: bool, caps: nat) {
    && Head(p, h, b, x, greedy) && Body(p, b, e, a, check, caps) && Back(p, e, h, x, check)
    && (check || MustAdvance(a))
  }

  lemma {:induction false} StarYields(p: Program, h: int, b: int, e: int, x: int, a: Node, greedy: bool, check: bool,
                                      caps: nat, pt: Pt, stack: seq<int>, saved: seq<Entry>)
    requires Loop(p, h, b, e, x, a, greedy, check, caps) && pt.pos <= |p.s.text| && |pt.caps| == caps
    ensures Yields(p, Running(State(h, pt, stack, saved)), x, stack, Star(a, greedy, p.s, pt), saved)
    decreases Left(p.s, pt.pos), 2
  {
    hide Yields, Step, Fail, Reaches, Each, Ends, Head, Body, Back, Extends;
    var st := State(h, pt, stack, saved);
    var ends := Ends(a, p.s, pt);
    var more := Each(KStar(a, greedy, pt.pos), p.s, ends, pt.pos, caps);
    HeadAt(p, h, b, x, greedy, pt, stack, saved);
    if greedy {
      var mid := saved + [Choice(x, pt, stack)];
      IterationYields(p, h, b, e, x, a, greedy, check, caps, pt, stack, mid);
      ExtendsBy(saved, Choice(x, pt, stack));
      FailChoice(p.bc, saved, x, pt, stack);
      YieldsHere(p, x, pt, stack, saved);
      Append(p, Step(p, st), x, stack, more, mid, [pt], saved);
    } else {
      var mid := saved + [Choice(b, pt, stack)];
      IterationYields(p, h, b, e, x, a, greedy, check, caps, pt, stack, saved);
      ExtendsBy(saved, Choice(b, pt, stack));
      FailChoice(p.bc, saved, b, pt, stack);
      YieldsHere(p, x, pt, stack, mid);
      Append(p, Step(p, st), x, stack, [pt], mid, more, saved);
    }
    YieldsStep(p, st, x, stack, Star(a, greedy, p.s, pt), saved);
  }

  lemma {:induction false} HeadAt(p: Program, h: int, b: int, x: int, greedy: bool, pt: Pt, stack: seq<int>, saved: seq<Entry>)
    requires Head(p, h, b, x, greedy) && pt.pos <= |p.s.text|
    ensures Step(p, State(h, pt, stack, saved))
         == if greedy then Running(State(b, pt, stack, saved + [Choice(x, pt, stack)]))
            else Running(State(x, pt, stack, saved + [Choice(b, pt, stack)]))
  {
    hide Step;
    assert HeadStep(p, h, b, x, greedy, pt, stack, saved);
  }

  /** One iteration followed by the rest of the loop. */
  lemma {:induction false} IterationYields(p: Program, h: int, b: int, e: int, x: int, a: Node, greedy: bool, check: bool,
                                           caps: nat, pt: Pt, stack: seq<int>, mid: seq<Entry>)
    requires Loop(p, h, b, e, x, a, greedy, check, caps) && pt.pos <= |p.s.text| && |pt.caps| == caps
    ensures Yields(p, Running(State(b, pt, stack, mid)), x, stack,
                   Each(KStar(a, greedy, pt.pos), p.s, Ends(a, p.s, pt), pt.pos, caps), mid)
    decreases Left(p.s, pt.pos), 1
  {
    hide Yields, Step, Fail, Reaches, Each, Ends, Head, Body, Back, Extends, Continues;
    var ends := Ends(a, p.s, pt);
    BodyAt(p, b, e, a, check, caps, pt, stack, mid);
    forall end <- ends
      ensures Continues(p, e, Inner(check, stack, pt.pos), KStar(a, greedy, pt.pos), end, x, stack, mid)
    {
      IterationContinues(p, h, b, e, x, a, greedy, check, caps, pt, stack, mid, end);
    }
    BindAll(p, Running(State(b, pt, stack, mid)), e, Inner(check, stack, pt.pos), ends, KStar(a, greedy, pt.pos), x, stack,
            pt.pos, caps, mid);
  }

  lemma {:induction false} IterationContinues(p: Program, h: int, b: int, e: int, x: int, a: Node, greedy: bool, check: bool,
                                              caps: nat, pt: Pt, stack: seq<int>, mid: seq<Entry>, end: Pt)
    requires Loop(p, h, b, e, x, a, greedy, check, caps) && pt.pos <= |p.s.text| && |pt.caps| == caps
    requires end in Ends(a, p.s, pt)
    ensures Continues(p, e, Inner(check, stack, pt.pos), KStar(a, greedy, pt.pos), end, x, stack, mid)
    decreases Left(p.s, pt.pos), 0
  {
    hide Yields, Step, Fail, Reaches, Each, Ends, Head, Body, Back, Star, Inner;
    var k := KStar(a, greedy, pt.pos);
    forall saved' | Extends(saved', mid)
      ensures Yields(p, Running(State(e, end, Inner(check, stack, pt.pos), saved')), x, stack, After(k, p.s, end), saved')
    {
      BackAt(p, e, h, x, check, end, pt.pos, stack, saved');
      if pt.pos < end.pos {
        StarYields(p, h, b, e, x, a, greedy, check, caps, end, stack, saved');
        YieldsFrom(p, Running(State(e, end, Inner(check, stack, pt.pos), saved')), Running(State(h, end, stack, saved')),
                   x, stack, Star(a, greedy, p.s, end), saved');
      } else {
        if !check { AdvancesSound(a, p.s, pt); }
        YieldsHere(p, x, end, stack, saved');
        YieldsFrom(p, Running(State(e, end, Inner(check, stack, pt.pos), saved')), Running(State(x, end, stack, saved')),
                   x, stack, [end], saved');
      }
    }
  }

  lemma {:induction false} BackAt(p: Program, e: int, h: int, x: int, check: bool, pt: Pt, pos: int, stack: seq<int>, saved: seq<Entry>)
    requires Back(p, e, h, x, check) && pt.pos <= |p.s.text|
    ensures Reaches(p, Running(State(e, pt, Inner(check, stack, pos), saved)),
                    Running(State(if check && pt.pos == pos then x else h, pt, stack, saved)))
  {
    hide Reaches, Inner;
    assert BackStep(p, e, h, x, check, pt, pos, stack, saved);
  }

  lemma {:induction false} StarPieces(bc: seq<Byte>, at: int, a: seq<Byte>, greedy: bool, check: bool)
    requires Here(bc, at, StarCode(a, greedy, check))
    ensures var g := if check then 1 else 0;
            && Here(bc, at, Jump(Split(greedy), |a| + 5 + g))
            && (check ==> Here(bc, at + 5, [OP_PUSH_CHAR_POS]))
            && Here(bc, at + 5 + g, a)
            && Here(bc, at + 5 + g + |a|, Jump(if check then OP_BNE_CHAR_POS else OP_GOTO, -(|a| + 10 + g)))
  {
    hide Here, Jump;
    if check {
      var back := Jump(OP_BNE_CHAR_POS, -(|a| + 11));
      HereSplit(bc, at, Jump(Split(greedy), |a| + 6) + [OP_PUSH_CHAR_POS] + a, back);
      HereSplit(bc, at, Jump(Split(greedy), |a| + 6) + [OP_PUSH_CHAR_POS], a);
      HereSplit(bc, at, Jump(Split(greedy), |a| + 6), [OP_PUSH_CHAR_POS]);
    } else {
      var back := Jump(OP_GOTO, -(|a| + 10));
      HereSplit(bc, at, Jump(Split(greedy), |a| + 5) + a, back);
      HereSplit(bc, at, Jump(Split(greedy), |a| + 5), a);
    }
  }

  /** The choice at the head of the emitted `*` loop, and the way back to it. */
  lemma {:induction false} StarRim(p: Program, at: int, len: nat, greedy: bool, check: bool)
    requires var g := if check then 1 else 0;
             && Here(p.bc, at, Jump(Split(greedy), len + 5 + g))
             && Here(p.bc, at + 5 + g + len, Jump(if check then OP_BNE_CHAR_POS else OP_GOTO, -(len + 10 + g)))
    requires |p.bc| <= INT32_MAX
    ensures var g := if check then 1 else 0;
            Head(p, at, at + 5, at + 10 + g + len, greedy) && Back(p, at + 5 + g + len, at, at + 10 + g + len, check)
  {
    hide Step, Reaches, Run, Jump, Head;
    var g := if check then 1 else 0;
    var e, x := at + 5 + g + len, at + 10 + g + len;
    SplitHead(p, at, greedy, len + 5 + g);
    forall pt: Pt, pos: int, stack: seq<int>, saved: seq<Entry> | pt.pos <= |p.s.text|
      ensures BackStep(p, e, at, x, check, pt, pos, stack, saved)
    {
      var st := State(e, pt, Inner(check, stack, pos), saved);
      if check { StepBne(p, st, stack, pos, -(len + 10 + g)); } else { StepGoto(p, st, -(len + 10 + g)); }
      ReachesStep(p, st);
    }
  }

  /** The emitted `*` loop. */
  lemma {:induction false} StarLoop(p: Program, at: int, len: nat, a: Node, greedy: bool, check: bool, caps: nat)
    requires var g := if check then 1 else 0;
             && Here(p.bc, at, Jump(Split(greedy), len + 5 + g))
             && (check ==> Here(p.bc, at + 5, [OP_PUSH_CHAR_POS]))
             && Implements(p, at + 5 + g, at + 5 + g + len, a, caps)
             && Here(p.bc, at + 5 + g + len, Jump(if check then OP_BNE_CHAR_POS else OP_GOTO, -(len + 10 + g)))
    requires |p.bc| <= INT32_MAX && (check || MustAdvance(a))
    ensures var g := if check then 1 else 0;
            Loop(p, at, at + 5, at + 5 + g + len, at + 10 + g + len, a, greedy, check, caps)
  {
    hide Yields, Step, Reaches, Ends, Implements, Run, Head, Back, Jump;
    var g := if check then 1 else 0;
    var b, e := at + 5, at + 5 + g + len;
    StarRim(p, at, len, greedy, check);
    forall pt: Pt, stack: seq<int>, saved: seq<Entry> | pt.pos <= |p.s.text| && |pt.caps| == caps
      ensures Yields(p, Running(State(b, pt, stack, saved)), e, Inner(check, stack, pt.pos), Ends(a, p.s, pt), saved)
    {
      ImplementsAt(p, at + 5 + g, e, a, caps, pt, Inner(check, stack, pt.pos), saved);
      if check {
        StepPushPos(p, State(at + 5, pt, stack, saved));
        YieldsStep(p, State(at + 5, pt, stack, saved), e, stack + [pt.pos], Ends(a, p.s, pt), saved);
      }
    }
  }

  /** The split back to the atom at the end of the emitted `+` loop. */
  lemma {:induction false} PlusRim(p: Program, at: int, len: nat, greedy: bool)
    requires Here(p.bc, at + len, Jump(Split(!greedy), -(len + 5)))
    requires |p.bc| <= INT32_MAX && at >= 0
    ensures Head(p, at + len, at, at + len + 5, greedy) && Back(p, at + len, at + len, at + len + 5, false)
  {
    hide Step, Reaches, Run, Jump;
    var e, x := at + len, at + len + 5;
    forall pt: Pt, stack, saved | pt.pos <= |p.s.text| ensures HeadStep(p, e, at, x, greedy, pt, stack, saved) {
      StepSplit(p, State(e, pt, stack, saved), !greedy, -(len + 5));
    }
    forall pt: Pt, pos: int, stack: seq<int>, saved: seq<Entry> | pt.pos <= |p.s.text|
      ensures BackStep(p, e, e, x, false, pt, pos, stack, saved)
    {
      ReachesSelf(p, Running(State(e, pt, stack, saved)));
    }
  }

  /** The emitted `+` loop: the atom, then a split back to it. */
  lemma {:induction false} PlusLoop(p: Program, at: int, len: nat, a: Node, greedy: bool, caps: nat)
    requires Implements(p, at, at + len, a, caps)
    requires Here(p.bc, at + len, Jump(Split(!greedy), -(len + 5)))
    requires |p.bc| <= INT32_MAX && at >= 0 && MustAdvance(a)
    ensures Loop(p, at + len, at, at + len, at + len + 5, a, greedy, false, caps)
  {
    hide Yields, Ends, Implements, Head, Back, Jump;
    var e := at + len;
    PlusRim(p, at, len, greedy);
    forall pt: Pt, stack: seq<int>, saved: seq<Entry> | pt.pos <= |p.s.text| && |pt.caps| == caps
      ensures Yields(p, Running(State(at, pt, stack, saved)), e, Inner(false, stack, pt.pos), Ends(a, p.s, pt), saved)
    {
      ImplementsAt(p, at, e, a, caps, pt, stack, saved);
    }
  }

  // ---------- counted loops ----------

  /** The atom from b to e; at e the counter drops and the machine loops to h or falls out. */
  ghost predicate Counted(p: Program, h: int, b: int, e: int, a: Node, caps: nat, back: int) {
    Implements(p, b, e, a, caps) && Counting(p, h, e, back)
  }

  ghost predicate Counting(p: Program, h: int, e: int, back: int) {
    && Here(p.bc, e, Jump(OP_LOOP, back)) && InRange(back) && h == e + 5 + back
    && Here(p.bc, e + 5, [OP_DROP])
  }

  /** At the drop instruction after a counted loop. */
  lemma {:induction false} DropYields(p: Program, d: int, pt: Pt, stack: seq<int>, count: int, saved: seq<Entry>)
    requires Here(p.bc, d, [OP_DROP]) && pt.pos <= |p.s.text|
    ensures Yields(p, Running(State(d, pt, stack + [count], saved)), d + 1, stack, [pt], saved)
  {
    hide Yields, Step;
    var st := State(d, pt, stack + [count], saved);
    StepDrop(p, st, stack, count);
    YieldsHere(p, d + 1, pt, stack, saved);
    YieldsStep(p, st, d + 1, stack, [pt], saved);
  }

  /** Exactly k iterations. */
  lemma {:induction false} RepeatYields(p: Program, b: int, e: int, a: Node, caps: nat, back: int, k: nat,
                                        pt: Pt, stack: seq<int>, saved: seq<Entry>)
    requires Counted(p, b, b, e, a, caps, back) && k >= 1 && pt.pos <= |p.s.text| && |pt.caps| == caps
    ensures Yields(p, Running(State(b, pt, stack + [k], saved)), e + 6, stack, Power(a, k, p.s, pt), saved)
    decreases k, 1
  {
    hide Yields, Step, Fail, Each, Ends, Implements, Continues, Here;
    var ends := Ends(a, p.s, pt);
    ImplementsAt(p, b, e, a, caps, pt, stack + [k], saved);
    forall end <- ends ensures Continues(p, e, stack + [k], KPower(a, k - 1), end, e + 6, stack, saved) {
      RepeatContinues(p, b, e, a, caps, back, k, stack, saved, end);
    }
    BindAll(p, Running(State(b, pt, stack + [k], saved)), e, stack + [k], ends, KPower(a, k - 1), e + 6, stack,
            pt.pos, caps, saved);
  }

  lemma {:induction false} RepeatContinues(p: Program, b: int, e: int, a: Node, caps: nat, back: int, k: nat,
                                           stack: seq<int>, mid: seq<Entry>, end: Pt)
    requires Counted(p, b, b, e, a, caps, back) && k >= 1 && end.pos <= |p.s.text| && |end.caps| == caps
    ensures Continues(p, e, stack + [k], KPower(a, k - 1), end, e + 6, stack, mid)
    decreases k, 0
  {
    hide Yields, Step, Fail, Each, Ends, Implements, Here, Extends;
    forall saved' | Extends(saved', mid)
      ensures Yields(p, Running(State(e, end, stack + [k], saved')), e + 6, stack, After(KPower(a, k - 1), p.s, end), saved')
    {
      var st := State(e, end, stack + [k], saved');
      StepLoop(p, st, stack, k, back);
      if k > 1 { RepeatYields(p, b, e, a, caps, back, k - 1, end, stack, saved'); }
      else { DropYields(p, e + 5, end, stack, 0, saved'); }
      YieldsStep(p, st, e + 6, stack, Power(a, k - 1, p.s, end), saved');
    }
  }

  /** At most k iterations; h chooses between the body and the drop instruction. */
  lemma {:induction false} UpToYields(p: Program, h: int, e: int, a: Node, greedy: bool, caps: nat, back: int, k: nat,
                                      pt: Pt, stack: seq<int>, saved: seq<Entry>)
    requires Counted(p, h, h + 5, e, a, caps, back) && Head(p, h, h + 5, e + 5, greedy)
    requires k >= 1 && pt.pos <= |p.s.text| && |pt.caps| == caps
    ensures Yields(p, Running(State(h, pt, stack + [k], saved)), e + 6, stack, UpTo(a, k, greedy, p.s, pt), saved)
    decreases k, 2
  {
    hide Yields, Step, Fail, Each, Ends, Implements, Here, Head, Extends;
    var st := State(h, pt, stack + [k], saved);
    var more := Each(KUpTo(a, k - 1, greedy), p.s, Ends(a, p.s, pt), pt.pos, caps);
    HeadAt(p, h, h + 5, e + 5, greedy, pt, stack + [k], saved);
    if greedy {
      var mid := saved + [Choice(e + 5, pt, stack + [k])];
      OptionalIteration(p, h, e, a, greedy, caps, back, k, pt, stack, mid);
      ExtendsBy(saved, Choice(e + 5, pt, stack + [k]));
      FailChoice(p.bc, saved, e + 5, pt, stack + [k]);
      DropYields(p, e + 5, pt, stack, k, saved);
      Append(p, Step(p, st), e + 6, stack, more, mid, [pt], saved);
    } else {
      var mid := saved + [Choice(h + 5, pt, stack + [k])];
      OptionalIteration(p, h, e, a, greedy, caps, back, k, pt, stack, saved);
      ExtendsBy(saved, Choice(h + 5, pt, stack + [k]));
      FailChoice(p.bc, saved, h + 5, pt, stack + [k]);
      DropYields(p, e + 5, pt, stack, k, mid);
      Append(p, Step(p, st), e + 6, stack, [pt], mid, more, saved);
    }
    YieldsStep(p, st, e + 6, stack, UpTo(a, k, greedy, p.s, pt), saved);
  }

  lemma {:induction false} OptionalIteration(p: Program, h: int, e: int, a: Node, greedy: bool, caps: nat, back: int, k: nat,
                                             pt: Pt, stack: seq<int>, mid: seq<Entry>)
    requires Counted(p, h, h + 5, e, a, caps, back) && Head(p, h, h + 5, e + 5, greedy)
    requires k >= 1 && pt.pos <= |p.s.text| && |pt.caps| == caps
    ensures Yields(p, Running(State(h + 5, pt, stack + [k], mid)), e + 6, stack,
                   Each(KUpTo(a, k - 1, greedy), p.s, Ends(a, p.s, pt), pt.pos, caps), mid)
    decreases k, 1
  {
    hide Yields, Step, Fail, Each, Ends, Implements, Here, Head, Continues;
    var ends := Ends(a, p.s, pt);
    ImplementsAt(p, h + 5, e, a, caps, pt, stack + [k], mid);
    forall end <- ends ensures Continues(p, e, stack + [k], KUpTo(a, k - 1, greedy), end, e + 6, stack, mid) {
      OptionalContinues(p, h, e, a, greedy, caps, back, k, stack, mid, end);
    }
    BindAll(p, Running(State(h + 5, pt, stack + [k], mid)), e, stack + [k], ends, KUpTo(a, k - 1, greedy), e + 6, stack,
            pt.pos, caps, mid);
  }

  lemma {:induction false} OptionalContinues(p: Program, h: int, e: int, a: Node, greedy: bool, caps: nat, back: int, k: nat,
                                             stack: seq<int>, mid: seq<Entry>, end: Pt)
    requires Counted(p, h, h + 5, e, a, caps, back) && Head(p, h, h + 5, e + 5, greedy)
    requires k >= 1 && end.pos <= |p.s.text| && |end.caps| == caps
    ensures Continues(p, e, stack + [k], KUpTo(a, k - 1, greedy), end, e + 6, stack, mid)
    decreases k, 0
  {
    hide Yields, Step, Fail, Each, Ends, Implements, Here, Head, Extends;
    forall saved' | Extends(saved', mid)
      ensures Yields(p, Running(State(e, end, stack + [k], saved')), e + 6, stack,
                     After(KUpTo(a, k - 1, greedy), p.s, end), saved')
    {
      var st := State(e, end, stack + [k], saved');
      StepLoop(p, st, stack, k, back);
      if k > 1 { UpToYields(p, h, e, a, greedy, caps, back, k - 1, end, stack, saved'); }
      else { DropYields(p, e + 5, end, stack, 0, saved'); }
      YieldsStep(p, st, e + 6, stack, UpTo(a, k - 1, greedy, p.s, end), saved');
    }
  }

  // ---------- quantifiers ----------

  /** Wherever the code of n stands, it implements n. */
  ghost predicate Correct(p: Program, n: Node, caps: nat) {
    forall at :: Here(p.bc, at, Code(n)) ==> Implements(p, at, at + |Code(n)|, n, caps)
  }

  lemma {:induction false} CorrectAt(p: Program, n: Node, caps: nat, at: int)
    requires Correct(p, n, caps) && Here(p.bc, at, Code(n))
    ensures Implements(p, at, at + |Code(n)|, n, caps)
  {
    hide Implements, Here, Code;
  }

  lemma {:induction false} CheckedOrAdvancing(a: Node, greedy: bool)
    requires !greedy ==> MustAdvance(a)
    ensures (greedy && !CheckAdvance(Code(a))) || MustAdvance(a)
  {
    CodeScan(a);
  }

  lemma {:induction false} StarTail(p: Program, at: int, a: Node, greedy: bool, caps: nat, e: Pt, stack: seq<int>, saved: seq<Entry>)
    requires var c := StarCode(Code(a), greedy, greedy && !CheckAdvance(Code(a))); Here(p.bc, at, c)
    requires Correct(p, a, caps) && |p.bc| <= INT32_MAX && (!greedy ==> MustAdvance(a))
    requires e.pos <= |p.s.text| && |e.caps| == caps
    ensures var c := StarCode(Code(a), greedy, greedy && !CheckAdvance(Code(a)));
            Yields(p, Running(State(at, e, stack, saved)), at + |c|, stack, Star(a, greedy, p.s, e), saved)
  {
    hide Yields, Correct, CheckAdvance, Star, Loop, Implements, Here, Jump, Code;
    var check := greedy && !CheckAdvance(Code(a));
    var g := if check then 1 else 0;
    StarPieces(p.bc, at, Code(a), greedy, check);
    CorrectAt(p, a, caps, at + 5 + g);
    CheckedOrAdvancing(a, greedy);
    StarLoop(p, at, |Code(a)|, a, greedy, check, caps);
    StarYields(p, at, at + 5, at + 5 + g + |Code(a)|, at + 10 + g + |Code(a)|, a, greedy, check, caps, e, stack, saved);
  }

  lemma {:induction false} UpToPieces(bc: seq<Byte>, at: int, a: seq<Byte>, greedy: bool, n: nat)
    requires Here(bc, at, UpToCode(a, greedy, n))
    ensures Here(bc, at, Jump(OP_PUSH_I32, n)) && Here(bc, at + 5, Jump(Split(greedy), |a| + 5)) && Here(bc, at + 10, a)
    ensures Here(bc, at + 10 + |a|, Jump(OP_LOOP, -(|a| + 10))) && Here(bc, at + 15 + |a|, [OP_DROP])
    ensures at >= 0 && |a| + 16 <= |bc|
  {
    hide Jump;
    var f1, f2 := Jump(OP_PUSH_I32, n), Jump(Split(greedy), |a| + 5);
    HereSplit(bc, at, f1 + f2 + a + Jump(OP_LOOP, -(|a| + 10)), [OP_DROP]);
    HereSplit(bc, at, f1 + f2 + a, Jump(OP_LOOP, -(|a| + 10)));
    HereSplit(bc, at, f1 + f2, a);
    HereSplit(bc, at, f1, f2);
  }

  lemma {:induction false} SplitHead(p: Program, h: int, greedy: bool, n: int)
    requires Here(p.bc, h, Jump(Split(greedy), n)) && InRange(n)
    ensures Head(p, h, h + 5, h + 5 + n, greedy)
  {
    hide Step, Jump;
    var b, x := h + 5, h + 5 + n;
    forall pt: Pt, stack, saved | pt.pos <= |p.s.text| ensures HeadStep(p, h, b, x, greedy, pt, stack, saved) {
      StepSplit(p, State(h, pt, stack, saved), greedy, n);
    }
  }

  lemma {:induction false} UpToTail(p: Program, at: int, a: Node, greedy: bool, n: nat, caps: nat, e: Pt, stack: seq<int>, saved: seq<Entry>)
    requires Here(p.bc, at, UpToCode(Code(a), greedy, n)) && Correct(p, a, caps) && |p.bc| <= INT32_MAX
    requires 1 <= n <= INT32_MAX && e.pos <= |p.s.text| && |e.caps| == caps
    ensures Yields(p, Running(State(at, e, stack, saved)), at + |UpToCode(Code(a), greedy, n)|, stack,
                   UpTo(a, n, greedy, p.s, e), saved)
  {
    hide Yields, Correct, UpTo, Implements, Here, Code, Step, Jump, Head;
    var len := |Code(a)|;
    UpToPieces(p.bc, at, Code(a), greedy, n);
    CorrectAt(p, a, caps, at + 10);
    var h := at + 5;
    SplitHead(p, h, greedy, len + 5);
    StepPush(p, State(at, e, stack, saved), n);
    UpToYields(p, h, at + 10 + len, a, greedy, caps, -(len + 10), n, e, stack, saved);
    YieldsStep(p, State(at, e, stack, saved), at + 16 + len, stack, UpTo(a, n, greedy, p.s, e), saved);
  }

  lemma {:induction false} EachZero(a: Node, greedy: bool, s: Subject, ps: seq<Pt>, low: nat, n: nat)
    requires forall e <- ps :: low <= e.pos <= |s.text| && |e.caps| == n
    ensures Each(KUpTo(a, 0, greedy), s, ps, low, n) == ps
    decreases |ps|
  {
    if ps != [] {
      EachZero(a, greedy, s, ps[1..], low, n);
      UpToNone(a, greedy, s, ps[0]);
      assert After(KUpTo(a, 0, greedy), s, ps[0]) == [ps[0]];
      assert ps == [ps[0]] + ps[1..];
    }
  }

  /** A single optional atom has no counter. */
  lemma {:induction false} OptionTail(p: Program, at: int, a: Node, greedy: bool, caps: nat, e: Pt, stack: seq<int>, saved: seq<Entry>)
    requires Here(p.bc, at, Jump(Split(greedy), |Code(a)|) + Code(a)) && Correct(p, a, caps) && |p.bc| <= INT32_MAX
    requires e.pos <= |p.s.text| && |e.caps| == caps
    ensures Yields(p, Running(State(at, e, stack, saved)), at + 5 + |Code(a)|, stack, UpTo(a, 1, greedy, p.s, e), saved)
  {
    hide Yields, Correct, Implements, Code, Step, Fail, Ends, Extends, Jump;
    var x, ends := at + 5 + |Code(a)|, Ends(a, p.s, e);
    assert |Code(a)| <= |p.bc|;
    HereSplit(p.bc, at, Jump(Split(greedy), |Code(a)|), Code(a));
    CorrectAt(p, a, caps, at + 5);
    EachZero(a, greedy, p.s, ends, e.pos, |e.caps|);
    var st := State(at, e, stack, saved);
    StepSplit(p, st, greedy, |Code(a)|);
    if greedy {
      var c := Choice(x, e, stack);
      ImplementsAt(p, at + 5, x, a, caps, e, stack, saved + [c]);
      ExtendsBy(saved, c);
      FailChoice(p.bc, saved, x, e, stack);
      YieldsHere(p, x, e, stack, saved);
      Append(p, Step(p, st), x, stack, ends, saved + [c], [e], saved);
    } else {
      var c := Choice(at + 5, e, stack);
      YieldsHere(p, x, e, stack, saved + [c]);
      ExtendsBy(saved, c);
      FailChoice(p.bc, saved, at + 5, e, stack);
      ImplementsAt(p, at + 5, x, a, caps, e, stack, saved);
      Append(p, Step(p, st), x, stack, [e], saved + [c], ends, saved);
    }
    YieldsStep(p, st, x, stack, UpTo(a, 1, greedy, p.s, e), saved);
  }

  lemma {:induction false} TailYields(p: Program, at: int, a: Node, min: nat, max: nat, greedy: bool, caps: nat, e: Pt, stack: seq<int>,
                   saved: seq<Entry>)
    requires Here(p.bc, at, TailCode(Code(a), min, max, greedy, greedy && !CheckAdvance(Code(a))))
    requires Correct(p, a, caps) && |p.bc| <= INT32_MAX && max <= INT32_MAX && (max == INT32_MAX && !greedy ==> MustAdvance(a))
    requires e.pos <= |p.s.text| && |e.caps| == caps
    ensures Yields(p, Running(State(at, e, stack, saved)),
                   at + |TailCode(Code(a), min, max, greedy, greedy && !CheckAdvance(Code(a)))|, stack,
                   After(KTail(a, max == INT32_MAX, Bound(max, min), greedy), p.s, e), saved)
  {
    hide Yields, Correct, Star, UpTo, Here, Code, CheckAdvance, StarCode, UpToCode, Jump;
    if max == INT32_MAX { StarTail(p, at, a, greedy, caps, e, stack, saved); }
    else if max <= min {
      YieldsHere(p, at, e, stack, saved);
      UpToNone(a, greedy, p.s, e);
    }
    else if min == 0 && max == 1 { OptionTail(p, at, a, greedy, caps, e, stack, saved); }
    else { UpToTail(p, at, a, greedy, max - min, caps, e, stack, saved); }
  }

  lemma {:induction false} UpToNone(a: Node, greedy: bool, s: Subject, e: Pt)
    requires e.pos <= |s.text|
    ensures UpTo(a, 0, greedy, s, e) == [e]
  {
  }

  // ---------- the mandatory part and the whole quantifier ----------

  lemma {:induction false} RepeatPieces(bc: seq<Byte>, at: int, a: seq<Byte>, n: nat)
    requires Here(bc, at, RepeatCode(a, n))
    ensures Here(bc, at, Jump(OP_PUSH_I32, n)) && Here(bc, at + 5, a)
    ensures Here(bc, at + 5 + |a|, Jump(OP_LOOP, -(|a| + 5))) && Here(bc, at + 10 + |a|, [OP_DROP])
    ensures at >= 0 && |a| + 11 <= |bc|
  {
    hide Jump;
    var f := Jump(OP_PUSH_I32, n);
    HereSplit(bc, at, f + a + Jump(OP_LOOP, -(|a| + 5)), [OP_DROP]);
    HereSplit(bc, at, f + a, Jump(OP_LOOP, -(|a| + 5)));
    HereSplit(bc, at, f, a);
  }

  lemma {:induction false} EachNone(a: Node, s: Subject, ps: seq<Pt>, low: nat, n: nat)
    requires forall e <- ps :: low <= e.pos <= |s.text| && |e.caps| == n
    ensures Each(KPower(a, 0), s, ps, low, n) == ps
    decreases |ps|
  {
    if ps != [] {
      EachNone(a, s, ps[1..], low, n);
      assert After(KPower(a, 0), s, ps[0]) == [ps[0]];
      assert ps == [ps[0]] + ps[1..];
    }
  }

  lemma {:induction false} MinYields(p: Program, at: int, a: Node, min: nat, caps: nat, pt: Pt, stack: seq<int>, saved: seq<Entry>)
    requires Here(p.bc, at, MinCode(Code(a), min)) && Correct(p, a, caps) && |p.bc| <= INT32_MAX
    requires 1 <= min <= INT32_MAX && pt.pos <= |p.s.text| && |pt.caps| == caps
    ensures Yields(p, Running(State(at, pt, stack, saved)), at + |MinCode(Code(a), min)|, stack, Power(a, min, p.s, pt), saved)
  {
    hide Yields, Correct, Implements, Here, Code, Step, Ends, Power, Jump;
    if min == 1 {
      CorrectAt(p, a, caps, at);
      ImplementsAt(p, at, at + |Code(a)|, a, caps, pt, stack, saved);
      PowerOne(a, p.s, pt);
    } else {
      var len := |Code(a)|;
      RepeatPieces(p.bc, at, Code(a), min);
      CorrectAt(p, a, caps, at + 5);
      StepPush(p, State(at, pt, stack, saved), min);
      RepeatYields(p, at + 5, at + 5 + len, a, caps, -(len + 5), min, pt, stack, saved);
      YieldsStep(p, State(at, pt, stack, saved), at + 11 + len, stack, Power(a, min, p.s, pt), saved);
    }
  }

  lemma {:induction false} PowerOne(a: Node, s: Subject, pt: Pt)
    requires pt.pos <= |s.text|
    ensures Power(a, 1, s, pt) == Ends(a, s, pt)
  {
    hide Ends;
    EachNone(a, s, Ends(a, s, pt), pt.pos, |pt.caps|);
  }

  /** A piece yielding the mandatory iterations, followed by a piece that continues each. */
  lemma {:induction false} Both(p: Program, o: Outcome, mid: int, end: int, a: Node, min: nat, k: Kont, caps: nat, pt: Pt, stack: seq<int>,
             saved: seq<Entry>)
    requires pt.pos <= |p.s.text| && |pt.caps| == caps
    requires Yields(p, o, mid, stack, Power(a, min, p.s, pt), saved)
    requires forall e: Pt, saved' :: e.pos <= |p.s.text| && |e.caps| == caps ==>
               Yields(p, Running(State(mid, e, stack, saved')), end, stack, After(k, p.s, e), saved')
    ensures Yields(p, o, end, stack, Each(k, p.s, Power(a, min, p.s, pt), pt.pos, caps), saved)
  {
    hide Yields, Power, Each, After, Extends;
    BindAll(p, o, mid, stack, Power(a, min, p.s, pt), k, end, stack, pt.pos, caps, saved);
  }

  /** A quantifier without the optimized instruction and with a mandatory part. */
  lemma {:induction false} MandatoryYields(p: Program, at: int, a: Node, min: nat, max: nat, greedy: bool, caps: nat, pt: Pt, stack: seq<int>,
                        saved: seq<Entry>)
    requires var c := TailCode(Code(a), min, max, greedy, greedy && !CheckAdvance(Code(a)));
             Here(p.bc, at, MinCode(Code(a), min) + c)
    requires Correct(p, a, caps) && |p.bc| <= INT32_MAX && max <= INT32_MAX && (max == INT32_MAX && !greedy ==> MustAdvance(a))
    requires 1 <= min <= INT32_MAX && pt.pos <= |p.s.text| && |pt.caps| == caps
    ensures var c := TailCode(Code(a), min, max, greedy, greedy && !CheckAdvance(Code(a)));
            Yields(p, Running(State(at, pt, stack, saved)), at + |MinCode(Code(a), min) + c|, stack,
                   Each(KTail(a, max == INT32_MAX, Bound(max, min), greedy), p.s, Power(a, min, p.s, pt), pt.pos, caps), saved)
  {
    hide Yields, Correct, Here, Code, Power, After, Each, TailCode, MinCode, CheckAdvance;
    var c := TailCode(Code(a), min, max, greedy, greedy && !CheckAdvance(Code(a)));
    var k := KTail(a, max == INT32_MAX, Bound(max, min), greedy);
    var mid, end := at + |MinCode(Code(a), min)|, at + |MinCode(Code(a), min)| + |c|;
    HereSplit(p.bc, at, MinCode(Code(a), min), c);
    MinYields(p, at, a, min, caps, pt, stack, saved);
    forall e: Pt, saved' | e.pos <= |p.s.text| && |e.caps| == caps
      ensures Yields(p, Running(State(mid, e, stack, saved')), end, stack, After(k, p.s, e), saved')
    {
      TailYields(p, mid, a, min, max, greedy, caps, e, stack, saved');
    }
    Both(p, Running(State(at, pt, stack, saved)), mid, end, a, min, k, caps, pt, stack, saved);
  }

  /** `+` over an advancing atom: the atom, then a loop back over it. */
  lemma {:induction false} PlusYields(p: Program, at: int, a: Node, greedy: bool, caps: nat, pt: Pt, stack: seq<int>, saved: seq<Entry>)
    requires Here(p.bc, at, Code(a) + Jump(Split(!greedy), -(|Code(a)| + 5))) && Correct(p, a, caps) && |p.bc| <= INT32_MAX
    requires MustAdvance(a) && pt.pos <= |p.s.text| && |pt.caps| == caps
    ensures Yields(p, Running(State(at, pt, stack, saved)), at + |Code(a)| + 5, stack,
                   Each(KTail(a, true, Bound(INT32_MAX, 1), greedy), p.s, Power(a, 1, p.s, pt), pt.pos, caps), saved)
  {
    hide Yields, Correct, Here, Code, Power, Each, Jump, Loop, Implements, Ends, Star;
    var k, mid, end := KTail(a, true, Bound(INT32_MAX, 1), greedy), at + |Code(a)|, at + |Code(a)| + 5;
    assert at >= 0 by { HereAt(p.bc, at, Code(a) + Jump(Split(!greedy), -(|Code(a)| + 5))); }
    HereSplit(p.bc, at, Code(a), Jump(Split(!greedy), -(|Code(a)| + 5)));
    CorrectAt(p, a, caps, at);
    ImplementsAt(p, at, mid, a, caps, pt, stack, saved);
    PowerOne(a, p.s, pt);
    PlusLoop(p, at, |Code(a)|, a, greedy, caps);
    forall e: Pt, saved' | e.pos <= |p.s.text| && |e.caps| == caps
      ensures Yields(p, Running(State(mid, e, stack, saved')), end, stack, After(k, p.s, e), saved')
    {
      StarYields(p, mid, at, mid, end, a, greedy, false, caps, e, stack, saved');
    }
    Both(p, Running(State(at, pt, stack, saved)), mid, end, a, 1, k, caps, pt, stack, saved);
  }

  lemma {:induction false} HereAt(bc: seq<Byte>, at: int, f: seq<Byte>)
    requires Here(bc, at, f)
    ensures at >= 0 && at + |f| <= |bc|
  {
  }

  /** A quantifier with no mandatory iteration, after the captures inside it are unset. */
  lemma {:induction false} OptionalYields(p: Program, at: int, a: Node, max: nat, greedy: bool, lo: nat, hi: nat, caps: nat, pt: Pt,
                       stack: seq<int>, saved: seq<Entry>)
    requires var c := TailCode(Code(a), 0, max, greedy, greedy && !CheckAdvance(Code(a)));
             Here(p.bc, at, Reset(0, lo, hi) + c)
    requires Correct(p, a, caps) && |p.bc| <= INT32_MAX && max <= INT32_MAX && (max == INT32_MAX && !greedy ==> MustAdvance(a))
    requires pt.pos <= |p.s.text| && |pt.caps| == caps && lo <= hi <= 255 && 2 * hi <= caps
    ensures var c := TailCode(Code(a), 0, max, greedy, greedy && !CheckAdvance(Code(a)));
            Yields(p, Running(State(at, pt, stack, saved)), at + |Reset(0, lo, hi) + c|, stack,
                   Ends(Quant(a, 0, max, greedy, lo, hi), p.s, pt), saved)
  {
    hide Yields, Correct, Here, Code, TailCode, CheckAdvance, Step, Star, UpTo;
    var c := TailCode(Code(a), 0, max, greedy, greedy && !CheckAdvance(Code(a)));
    var pt' := pt.(caps := ResetCaps(pt.caps, lo, hi));
    HereSplit(p.bc, at, Reset(0, lo, hi), c);
    TailYields(p, at + |Reset(0, lo, hi)|, a, 0, max, greedy, caps, pt', stack, saved);
    OptionalEnds(a, max, greedy, lo, hi, p.s, pt, pt');
    if lo != hi {
      var st := State(at, pt, stack, saved);
      StepReset(p, st, lo, hi);
      YieldsStep(p, st, at + 3 + |c|, stack, Ends(Quant(a, 0, max, greedy, lo, hi), p.s, pt), saved);
    } else {
      ResetNothing(pt.caps, lo);
    }
  }

  lemma {:induction false} OptionalEnds(a: Node, max: nat, greedy: bool, lo: nat, hi: nat, s: Subject, pt: Pt, pt': Pt)
    requires pt.pos <= |s.text| && pt' == pt.(caps := ResetCaps(pt.caps, lo, hi))
    ensures Ends(Quant(a, 0, max, greedy, lo, hi), s, pt) == After(KTail(a, max == INT32_MAX, Bound(max, 0), greedy), s, pt')
  {
    EachOne(KTail(a, max == INT32_MAX, Bound(max, 0), greedy), s, pt', pt.pos, |pt.caps|);
  }

  lemma {:induction false} QuantYields(p: Program, at: int, a: Node, min: nat, max: nat, greedy: bool, lo: nat, hi: nat, caps: nat,
                    captures: nat, pt: Pt, stack: seq<int>, saved: seq<Entry>)
    requires var n := Quant(a, min, max, greedy, lo, hi);
             Here(p.bc, at, Code(n)) && WellFormed(n, captures) && Tame(n)
    requires Correct(p, a, caps) && |p.bc| <= INT32_MAX && captures <= 255 && 2 * captures <= caps
    requires pt.pos <= |p.s.text| && |pt.caps| == caps
    ensures var n := Quant(a, min, max, greedy, lo, hi);
            Yields(p, Running(State(at, pt, stack, saved)), at + |Code(n)|, stack, Ends(n, p.s, pt), saved)
  {
    hide Yields, Correct, Here, LoopCode, SimpleCode, SimpleCount, Ends;
    if greedy && max > 0 && SimpleCount(Code(a)) > 0 {
      SimpleQuantYields(p, at, a, min, max, lo, hi, captures, pt, stack, saved);
    } else {
      LoopYields(p, at, a, min, max, greedy, lo, hi, caps, captures, pt, stack, saved);
    }
  }

  /** The generic code of a quantifier. */
  lemma {:induction false} LoopYields(p: Program, at: int, a: Node, min: nat, max: nat, greedy: bool, lo: nat, hi: nat, caps: nat,
                    captures: nat, pt: Pt, stack: seq<int>, saved: seq<Entry>)
    requires var n := Quant(a, min, max, greedy, lo, hi);
             Here(p.bc, at, LoopCode(Code(a), min, max, greedy, lo, hi)) && WellFormed(n, captures) && Tame(n)
    requires Correct(p, a, caps) && |p.bc| <= INT32_MAX && captures <= 255 && 2 * captures <= caps
    requires pt.pos <= |p.s.text| && |pt.caps| == caps
    ensures Yields(p, Running(State(at, pt, stack, saved)), at + |LoopCode(Code(a), min, max, greedy, lo, hi)|, stack,
                   Ends(Quant(a, min, max, greedy, lo, hi), p.s, pt), saved)
  {
    hide Yields, Correct, Here, TailCode, LoopCode, PlusForm, Power, Each, Jump, Reset, MinCode, Code, CheckAdvance;
    LoopForms(Code(a), min, max, greedy, lo, hi);
    if min == 0 {
      OptionalYields(p, at, a, max, greedy, lo, hi, caps, pt, stack, saved);
    } else if PlusForm(Code(a), min, max, greedy) {
      PlusAdvances(a, min, max, greedy);
      PlusYields(p, at, a, greedy, caps, pt, stack, saved);
    } else {
      MandatoryYields(p, at, a, min, max, greedy, caps, pt, stack, saved);
    }
  }

  lemma {:induction false} PlusAdvances(a: Node, min: nat, max: nat, greedy: bool)
    requires PlusForm(Code(a), min, max, greedy)
    ensures min == 1 && max == INT32_MAX && (greedy ==> MustAdvance(a))
  {
    CodeScan(a);
  }

  /** The optimized instruction. */
  lemma {:induction false} SimpleQuantYields(p: Program, at: int, a: Node, min: nat, max: nat, lo: nat, hi: nat, captures: nat, pt: Pt,
                          stack: seq<int>, saved: seq<Entry>)
    requires var n := Quant(a, min, max, true, lo, hi); Here(p.bc, at, Code(n)) && WellFormed(n, captures)
    requires max > 0 && SimpleCount(Code(a)) > 0 && |p.bc| <= INT32_MAX && pt.pos <= |p.s.text|
    ensures var n := Quant(a, min, max, true, lo, hi);
            Yields(p, Running(State(at, pt, stack, saved)), at + |Code(n)|, stack, Ends(n, p.s, pt), saved)
  {
    hide Yields, Here, SimpleCode, SimpleCount, Ends, Ways, Code;
    assert WellFormed(a, captures) && hi - lo == Groups(a);
    assert Code(Quant(a, min, max, true, lo, hi)) == SimpleCode(Code(a), min, max, SimpleCount(Code(a))) by {
      SimpleForm(a, min, max, lo, hi);
    }
    SimpleYields(p, at, a, min, max, captures, pt, stack, saved);
    NoGroups(p, a, captures);
    SimpleEnds(a, min, max, lo, p.s, pt);
  }

  lemma {:induction false} SimpleForm(a: Node, min: nat, max: nat, lo: nat, hi: nat)
    requires max > 0 && SimpleCount(Code(a)) > 0
    ensures Code(Quant(a, min, max, true, lo, hi)) == SimpleCode(Code(a), min, max, SimpleCount(Code(a)))
  {
    hide SimpleCode, SimpleCount, TailCode;
  }

  lemma {:induction false} SimpleEnds(a: Node, min: nat, max: nat, lo: nat, s: Subject, pt: Pt)
    requires pt.pos <= |s.text|
    ensures Ends(Quant(a, min, max, true, lo, lo), s, pt) == Ways(a, min, max, 0, s, pt)
  {
    hide Power, Each, ResetCaps;
    if min == 0 { ResetNothing(pt.caps, lo); }
  }

  /** Straight-line code opens no captures. */
  lemma {:induction false} NoGroups(p: Program, a: Node, captures: nat)
    requires WellFormed(a, captures) && SimpleCount(Code(a)) > 0
    ensures Groups(a) == 0
  {
    hide SimpleCount, Straight;
    assert Here(Code(a), 0, Code(a));
    SimpleRun(Program(Code(a), p.s), a, 0, Pt(0, []), captures);
  }

  // ---------- the remaining constructs ----------

  lemma {:induction false} CatYields(p: Program, at: int, a: Node, b: Node, caps: nat, pt: Pt, stack: seq<int>, saved: seq<Entry>)
    requires Here(p.bc, at, Code(a) + Code(b)) && Correct(p, a, caps) && Correct(p, b, caps)
    requires pt.pos <= |p.s.text| && |pt.caps| == caps
    ensures Yields(p, Running(State(at, pt, stack, saved)), at + |Code(a)| + |Code(b)|, stack, Ends(Cat(a, b), p.s, pt), saved)
  {
    hide Yields, Correct, Here, Code, Implements, Each, Extends;
    var mid, end, ends := at + |Code(a)|, at + |Code(a)| + |Code(b)|, Ends(a, p.s, pt);
    HereSplit(p.bc, at, Code(a), Code(b));
    CorrectAt(p, a, caps, at);
    CorrectAt(p, b, caps, mid);
    ImplementsAt(p, at, mid, a, caps, pt, stack, saved);
    forall e <- ends ensures Continues(p, mid, stack, KNode(b), e, end, stack, saved) {
      forall saved' | Extends(saved', saved)
        ensures Yields(p, Running(State(mid, e, stack, saved')), end, stack, After(KNode(b), p.s, e), saved')
      {
        ImplementsAt(p, mid, end, b, caps, e, stack, saved');
      }
    }
    BindAll(p, Running(State(at, pt, stack, saved)), mid, stack, ends, KNode(b), end, stack, pt.pos, caps, saved);
  }

  lemma {:induction false} AltPieces(bc: seq<Byte>, at: int, a: seq<Byte>, b: seq<Byte>)
    requires Here(bc, at, Jump(OP_SPLIT_NEXT_FIRST, |a| + 5) + a + Jump(OP_GOTO, |b|) + b)
    ensures Here(bc, at, Jump(OP_SPLIT_NEXT_FIRST, |a| + 5)) && Here(bc, at + 5, a)
    ensures Here(bc, at + 5 + |a|, Jump(OP_GOTO, |b|)) && Here(bc, at + 10 + |a|, b)
    ensures |a| + 10 + |b| <= |bc|
  {
    hide Jump;
    var f := Jump(OP_SPLIT_NEXT_FIRST, |a| + 5);
    HereSplit(bc, at, f + a + Jump(OP_GOTO, |b|), b);
    HereSplit(bc, at, f + a, Jump(OP_GOTO, |b|));
    HereSplit(bc, at, f, a);
  }

  /** After the left alternative comes a jump over the right one. */
  lemma {:induction false} JumpOver(p: Program, o: Outcome, at: int, n: nat, stack: seq<int>, ends: seq<Pt>, saved: seq<Entry>)
    requires Yields(p, o, at, stack, ends, saved) && Here(p.bc, at, Jump(OP_GOTO, n)) && n <= INT32_MAX
    requires forall e <- ends :: e.pos <= |p.s.text|
    ensures Yields(p, o, at + 5 + n, stack, ends, saved)
    decreases |ends|
  {
    hide Step, Fail, Reaches, Here, Extends;
    if ends != [] {
      var saved' := YieldsFirst(p, o, at, stack, ends, saved);
      var st := State(at, ends[0], stack, saved');
      StepGoto(p, st, n);
      ReachesStep(p, st);
      ReachesTrans(p, o, Running(st), Running(State(at + 5 + n, ends[0], stack, saved')));
      JumpOver(p, Fail(p.bc, saved'), at, n, stack, ends[1..], saved);
    }
  }

  lemma {:induction false} AltEnds(a: Node, b: Node, s: Subject, pt: Pt)
    requires pt.pos <= |s.text|
    ensures Ends(Alt(a, b), s, pt) == Ends(a, s, pt) + Ends(b, s, pt)
  {
  }

  lemma {:induction false} AltYields(p: Program, at: int, a: Node, b: Node, caps: nat, pt: Pt, stack: seq<int>, saved: seq<Entry>)
    requires Here(p.bc, at, Jump(OP_SPLIT_NEXT_FIRST, |Code(a)| + 5) + Code(a) + Jump(OP_GOTO, |Code(b)|) + Code(b))
    requires Correct(p, a, caps) && Correct(p, b, caps) && |p.bc| <= INT32_MAX
    requires pt.pos <= |p.s.text| && |pt.caps| == caps
    ensures Yields(p, Running(State(at, pt, stack, saved)), at + 10 + |Code(a)| + |Code(b)|, stack, Ends(Alt(a, b), p.s, pt), saved)
  {
    hide Yields, Correct, Here, Implements, Step, Fail, Extends, Jump, Code, Ends;
    var la, lb := |Code(a)|, |Code(b)|;
    AltPieces(p.bc, at, Code(a), Code(b));
    CorrectAt(p, a, caps, at + 5);
    CorrectAt(p, b, caps, at + 10 + la);
    var st := State(at, pt, stack, saved);
    var c, end := Choice(at + 10 + la, pt, stack), at + 10 + la + lb;
    StepSplit(p, st, true, la + 5);
    ImplementsAt(p, at + 5, at + 5 + la, a, caps, pt, stack, saved + [c]);
    JumpOver(p, Step(p, st), at + 5 + la, lb, stack, Ends(a, p.s, pt), saved + [c]);
    ExtendsBy(saved, c);
    FailChoice(p.bc, saved, at + 10 + la, pt, stack);
    ImplementsAt(p, at + 10 + la, end, b, caps, pt, stack, saved);
    Append(p, Step(p, st), end, stack, Ends(a, p.s, pt), saved + [c], Ends(b, p.s, pt), saved);
    AltEnds(a, b, p.s, pt);
    YieldsStep(p, st, end, stack, Ends(Alt(a, b), p.s, pt), saved);
  }

  /** The closing save instruction after the body of a group. */
  lemma {:induction false} SaveContinues(p: Program, mid: int, k: nat, a: Node, e: Pt, stack: seq<int>, saved: seq<Entry>)
    requires Here(p.bc, mid, [OP_SAVE_END, k % 256]) && k < 255 && 2 * k + 1 < |e.caps| && e.pos <= |p.s.text|
    ensures Continues(p, mid, stack, KSave(a, 2 * k + 1), e, mid + 2, stack, saved)
  {
    hide Yields, Here, Step, Extends;
    var kont := KSave(a, 2 * k + 1);
    forall saved' | Extends(saved', saved)
      ensures Yields(p, Running(State(mid, e, stack, saved')), mid + 2, stack, After(kont, p.s, e), saved')
    {
      var st := State(mid, e, stack, saved');
      StepSave(p, st, true, k);
      YieldsHere(p, mid + 2, e.(caps := SetCap(e.caps, 2 * k + 1, e.pos)), stack, saved');
      YieldsStep(p, st, mid + 2, stack, After(kont, p.s, e), saved');
    }
  }

  lemma {:induction false} CaptureEnds(k: nat, a: Node, s: Subject, pt: Pt)
    requires pt.pos <= |s.text|
    ensures Ends(Capture(k, a), s, pt)
         == Each(KSave(a, 2 * k + 1), s, Ends(a, s, pt.(caps := SetCap(pt.caps, 2 * k, pt.pos))), pt.pos, |pt.caps|)
  {
    hide Each, SetCap;
  }

  lemma {:induction false} CaptureYields(p: Program, at: int, k: nat, a: Node, caps: nat, pt: Pt, stack: seq<int>, saved: seq<Entry>)
    requires Here(p.bc, at, [OP_SAVE_START, k % 256] + Code(a) + [OP_SAVE_END, k % 256])
    requires Correct(p, a, caps) && k < 255 && 2 * k + 1 < caps && pt.pos <= |p.s.text| && |pt.caps| == caps
    ensures Yields(p, Running(State(at, pt, stack, saved)), at + 4 + |Code(a)|, stack, Ends(Capture(k, a), p.s, pt), saved)
  {
    hide Yields, Correct, Here, Implements, Step, Each, Extends, Continues, Code, Ends, SetCap;
    var open, close := [OP_SAVE_START, k % 256], [OP_SAVE_END, k % 256];
    var mid, end := at + 2 + |Code(a)|, at + 4 + |Code(a)|;
    HereSplit(p.bc, at, open + Code(a), close);
    HereSplit(p.bc, at, open, Code(a));
    var st := State(at, pt, stack, saved);
    var pt' := pt.(caps := SetCap(pt.caps, 2 * k, pt.pos));
    var ends := Ends(a, p.s, pt');
    StepSave(p, st, false, k);
    CorrectAt(p, a, caps, at + 2);
    ImplementsAt(p, at + 2, mid, a, caps, pt', stack, saved);
    forall e <- ends ensures Continues(p, mid, stack, KSave(a, 2 * k + 1), e, end, stack, saved) {
      SaveContinues(p, mid, k, a, e, stack, saved);
    }
    BindAll(p, Step(p, st), mid, stack, ends, KSave(a, 2 * k + 1), end, stack, pt.pos, caps, saved);
    CaptureEnds(k, a, p.s, pt);
    YieldsStep(p, st, end, stack, Ends(Capture(k, a), p.s, pt), saved);
  }

  lemma {:induction false} AssertionTop(bc: seq<Byte>, saved: seq<Entry>, neg: bool, pc: int, pt: Pt, stack: seq<int>, end: Pt)
    ensures var s := saved + [Assertion(neg, pc, pt, stack)];
            && Fail(bc, s) == (if neg then Running(State(pc, pt, stack, saved)) else Fail(bc, saved))
            && Succeed(bc, s, end)
               == (if neg then Fail(bc, saved) else Running(State(pc, pt.(caps := end.caps), stack, saved)))
  {
    assert (saved + [Assertion(neg, pc, pt, stack)])[..|saved|] == saved;
  }

  lemma {:induction false} LookPieces(bc: seq<Byte>, at: int, a: seq<Byte>, op: Byte)
    requires Here(bc, at, Jump(op, |a| + 1) + a + [OP_MATCH])
    ensures Here(bc, at, Jump(op, |a| + 1)) && Here(bc, at + 5, a) && Here(bc, at + 5 + |a|, [OP_MATCH])
    ensures |a| + 6 <= |bc|
  {
    hide Jump;
    HereSplit(bc, at, Jump(op, |a| + 1) + a, [OP_MATCH]);
    HereSplit(bc, at, Jump(op, |a| + 1), a);
  }

  /** The body of an assertion ends in a match opcode, which discards its open choices. */
  lemma {:induction false} LookYields(p: Program, at: int, a: Node, neg: bool, caps: nat, pt: Pt, stack: seq<int>, saved: seq<Entry>)
    requires Here(p.bc, at, Code(Look(a, neg))) && Correct(p, a, caps) && |p.bc| <= INT32_MAX
    requires pt.pos <= |p.s.text| && |pt.caps| == caps
    ensures Yields(p, Running(State(at, pt, stack, saved)), at + 6 + |Code(a)|, stack, Ends(Look(a, neg), p.s, pt), saved)
  {
    hide Yields, Correct, Implements, Step, Fail, Succeed, Extends, Here, Jump, Reaches;
    var len, end, ends := |Code(a)|, at + 6 + |Code(a)|, Ends(a, p.s, pt);
    LookPieces(p.bc, at, Code(a), if neg then OP_NEGATIVE_LOOKAHEAD else OP_LOOKAHEAD);
    hide Code;
    var st := State(at, pt, stack, saved);
    var inner := saved + [Assertion(neg, end, pt, stack)];
    StepAssertion(p, st, neg, len + 1);
    CorrectAt(p, a, caps, at + 5);
    ImplementsAt(p, at + 5, at + 5 + len, a, caps, pt, stack, inner);
    AssertionTop(p.bc, saved, neg, end, pt, stack, pt);
    if ends == [] {
      YieldsEmpty(p, Step(p, st), at + 5 + len, stack, inner);
      AfterAssertion(p, Step(p, st), Fail(p.bc, inner), end, pt, stack, saved, neg);
    } else {
      var saved' := YieldsFirst(p, Step(p, st), at + 5 + len, stack, ends, inner);
      var st' := State(at + 5 + len, ends[0], stack, saved');
      assert ends[0] in ends;
      StepMatch(p, st');
      SucceedIgnoresChoices(p.bc, saved', inner, ends[0]);
      AssertionTop(p.bc, saved, neg, end, pt, stack, ends[0]);
      ReachesStep(p, st');
      ReachesTrans(p, Step(p, st), Running(st'), Succeed(p.bc, inner, ends[0]));
      AfterAssertion(p, Step(p, st), Succeed(p.bc, inner, ends[0]), end, pt.(caps := ends[0].caps), stack, saved, !neg);
    }
    YieldsStep(p, st, end, stack, Ends(Look(a, neg), p.s, pt), saved);
  }

  lemma {:induction false} AfterAssertion(p: Program, o: Outcome, o': Outcome, end: int, pt: Pt, stack: seq<int>, saved: seq<Entry>, holds: bool)
    requires Reaches(p, o, o')
    requires o' == if holds then Running(State(end, pt, stack, saved)) else Fail(p.bc, saved)
    ensures Yields(p, o, end, stack, if holds then [pt] else [], saved)
  {
    hide Reaches, Fail, Yields;
    if holds { YieldsHere(p, end, pt, stack, saved); } else { YieldsNone(p, end, stack, saved); }
    YieldsFrom(p, o, o', end, stack, if holds then [pt] else [], saved);
  }

  lemma {:induction false} LeafYields(p: Program, at: int, t: Test, pt: Pt, stack: seq<int>, saved: seq<Entry>)
    requires Here(p.bc, at, TestCode(t)) && (t.Char? ==> t.c < 0x1_0000_0000) && pt.pos <= |p.s.text|
    ensures Yields(p, Running(State(at, pt, stack, saved)), at + |TestCode(t)|, stack, Ends(Leaf(t), p.s, pt), saved)
  {
    hide Yields, Fail, Advance, DecodeTest, TestCode, Here, StepControl;
    var st := State(at, pt, stack, saved);
    DecodeAt(p.bc, at, t);
    match Advance(t, p.s, pt.pos)
    case None =>
      YieldsNone(p, at + |TestCode(t)|, stack, saved);
      YieldsStep(p, st, at + |TestCode(t)|, stack, [], saved);
    case Some(q) =>
      YieldsHere(p, at + |TestCode(t)|, pt.(pos := q), stack, saved);
      YieldsStep(p, st, at + |TestCode(t)|, stack, [pt.(pos := q)], saved);
  }

  // ---------- compiler correctness ----------

  lemma {:induction false} NodeYields(p: Program, at: int, n: Node, captures: nat, caps: nat, pt: Pt, stack: seq<int>,
                                      saved: seq<Entry>)
    requires WellFormed(n, captures) && Tame(n) && captures <= 255 && 2 * captures <= caps && |p.bc| <= INT32_MAX
    requires Here(p.bc, at, Code(n)) && pt.pos <= |p.s.text| && |pt.caps| == caps
    ensures Yields(p, Running(State(at, pt, stack, saved)), at + |Code(n)|, stack, Ends(n, p.s, pt), saved)
    decreases n, 0
  {
    hide Yields, Correct, Here, QuantCode, TestCode, Ends, Jump;
    match n
    case Empty =>
      EmptyEnds(p.s, pt);
      YieldsHere(p, at, pt, stack, saved);
    case Leaf(t) => LeafYields(p, at, t, pt, stack, saved);
    case Cat(a, b) =>
      NodeCorrect(p, a, captures, caps);
      NodeCorrect(p, b, captures, caps);
      CatYields(p, at, a, b, caps, pt, stack, saved);
    case Alt(a, b) =>
      NodeCorrect(p, a, captures, caps);
      NodeCorrect(p, b, captures, caps);
      AltYields(p, at, a, b, caps, pt, stack, saved);
    case Quant(a, min, max, greedy, lo, hi) =>
      NodeCorrect(p, a, captures, caps);
      QuantYields(p, at, a, min, max, greedy, lo, hi, caps, captures, pt, stack, saved);
    case Capture(k, a) =>
      NodeCorrect(p, a, captures, caps);
      CaptureYields(p, at, k, a, caps, pt, stack, saved);
    case Look(a, neg) =>
      NodeCorrect(p, a, captures, caps);
      LookYields(p, at, a, neg, caps, pt, stack, saved);
  }

  /** Wherever its code stands, a pattern's code yields exactly the reference's ways, in order. */
  lemma {:induction false} NodeCorrect(p: Program, n: Node, captures: nat, caps: nat)
    requires WellFormed(n, captures) && Tame(n) && captures <= 255 && 2 * captures <= caps && |p.bc| <= INT32_MAX
    ensures Correct(p, n, caps)
    decreases n, 1
  {
    hide Yields, Ends, Here, Code, WellFormed, Tame;
    forall at | Here(p.bc, at, Code(n)) ensures Implements(p, at, at + |Code(n)|, n, caps) {
      var end := at + |Code(n)|;
      forall pt: Pt, stack, saved | pt.pos <= |p.s.text| && |pt.caps| == caps
        ensures Yields(p, Running(State(at, pt, stack, saved)), end, stack, Ends(n, p.s, pt), saved)
      {
        NodeYields(p, at, n, captures, caps, pt, stack, saved);
      }
    }
  }
}
