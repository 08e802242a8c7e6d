/** The matcher as the original runs it: a loop that updates the program counter, the captures, the
    operand stack and the stack of saved states in place. */
module RegexExec {
  import opened RegexBytes
  import opened RegexSyntax
  import opened RegexMatch
  import opened RegexMachine
  import opened RegexYields
  import opened RegexStack
  import opened RegexProgram
  import opened RegexGrammar
  import opened RegexClass
  import opened RegexCompiler
  import opened RegexLreCompile
  import CharClass
  import CharRanges

  /** Where an instruction leads: to the next one, or to the no_match or match label. */
  datatype Next = Go | NoMatch | Match

  class REExecContext {
    const bc: seq<Byte>
    const s: Subject
    const capture: array<int>
    const stack: array<int>
    var stackLen: nat
    var stateStack: seq<Entry>
    var pc: int
    var cptr: nat

    /** The state of the abstract machine. */
    ghost function View(): State
      requires stackLen <= stack.Length
      reads this, capture, stack
    {
      State(pc, Pt(cptr, capture[..]), stack[..stackLen], stateStack)
    }

    ghost function Prog(): Program {
      Program(bc, s)
    }

    /** A saved state has room for its captures and operands. */
    ghost predicate Kept(e: Entry) {
      |e.pt.caps| == capture.Length && |e.stack| <= stack.Length && e.pt.pos <= |s.text|
    }

    ghost predicate Valid()
      reads this
    {
      capture != stack && capture.Length % 2 == 0 && stackLen <= stack.Length && cptr <= |s.text| && forall e <- stateStack :: Kept(e)
    }

    /** The stack array is as large as the static analysis asks for, and the state one it describes. */
    ghost predicate Sized()
      requires stackLen <= stack.Length
      reads this, capture, stack
    {
      Closed(bc) && Peak(bc) <= stack.Length && StateFits(bc, View())
    }

    constructor (bc: seq<Byte>, s: Subject, captureCount: nat, stackSizeMax: nat, cindex: nat)
      requires cindex <= |s.text|
      ensures this.bc == bc && this.s == s && fresh(capture) && fresh(stack) && Valid()
      ensures stack.Length == stackSizeMax && View() == State(0, Pt(cindex, Unset(2 * captureCount)), [], [])
    {
      this.bc, this.s := bc, s;
      var caps := new int[2 * captureCount](_ => -1);
      capture := caps;
      stack := new int[stackSizeMax];
      stackLen, stateStack, pc, cptr := 0, [], 0, cindex;
      new;
      assert capture[..] == Unset(2 * captureCount);
    }

    // ---------- saved states ----------

    /** push_state for a split. */
    method PushChoice(pc1: int)
      requires Valid()
      modifies `stateStack
      ensures Valid() && stateStack == old(stateStack) + [Choice(pc1, View().pt, View().stack)]
    {
      stateStack := stateStack + [Choice(pc1, Pt(cptr, capture[..]), stack[..stackLen])];
    }

    method PushAssertion(pc1: int, neg: bool)
      requires Valid()
      modifies `stateStack
      ensures Valid() && stateStack == old(stateStack) + [Assertion(neg, pc1, View().pt, View().stack)]
    {
      stateStack := stateStack + [Assertion(neg, pc1, Pt(cptr, capture[..]), stack[..stackLen])];
    }

    /** Copies the saved captures back. */
    method RestoreCaptures(e: Entry)
      requires Valid() && Kept(e)
      modifies capture
      ensures capture[..] == e.pt.caps && stack[..stackLen] == old(stack[..stackLen])
    {
      forall i | 0 <= i < capture.Length {
        capture[i] := e.pt.caps[i];
      }
    }

    /** pop_state1: the operand stack, the position and the program counter. */
    method RestoreRest(e: Entry)
      requires Valid() && Kept(e)
      modifies `stackLen, `pc, `cptr, stack
      ensures Valid() && stack[..stackLen] == e.stack && pc == e.pc && cptr == e.pt.pos
      ensures capture[..] == old(capture[..])
    {
      pc, cptr, stackLen := e.pc, e.pt.pos, |e.stack|;
      forall i | 0 <= i < stackLen {
        stack[i] := e.stack[i];
      }
    }

    /** A saved greedy quantifier gives back one iteration and stays saved while more are left. */
    method StepBack(e: Entry)
      requires Valid() && stateStack != [] && e == stateStack[|stateStack| - 1] && e.Greedy?
      requires Fail(bc, stateStack).Running?
      modifies this, capture, stack
      ensures Valid() && Running(View()) == Fail(bc, old(stateStack))
    {
      hide GetU32, GetI32;
      ghost var saved := stateStack;
      var rest := stateStack[..|stateStack| - 1];
      assert Kept(e);
      RestoreCaptures(e);
      RestoreRest(e);
      cptr := cptr - GetU32(bc, pc + 12);
      var count := e.count - 1;
      stateStack := if count == 0 then rest else rest + [Greedy(pc, e.pt.(pos := cptr), e.stack, count)];
      pc := pc + 16 + GetI32(bc, pc);
      assert View() == Fail(bc, saved).st;
    }

    /** The unwinding loop shared by the match and no_match labels. */
    method Unwind(matched: bool) returns (finished: bool, ret: bool)
      requires Valid()
      requires (if matched then Succeed(bc, stateStack, View().pt) else Fail(bc, stateStack)) != Broken
      modifies this, capture, stack
      ensures var o := old(if matched then Succeed(bc, stateStack, View().pt) else Fail(bc, stateStack));
              && Valid()
              && (finished ==> o == Done(if ret then Some(View().pt) else None))
              && (!finished ==> o == Running(View()))
    {
      hide GetU32, GetI32;
      ghost var o := if matched then Succeed(bc, stateStack, View().pt) else Fail(bc, stateStack);
      ret := matched;
      while stateStack != []
        invariant Valid() && pc == old(pc) && cptr == old(cptr) && capture[..] == old(capture[..])
        invariant o == if ret then Succeed(bc, stateStack, View().pt) else Fail(bc, stateStack)
        decreases |stateStack|
      {
        var e := stateStack[|stateStack| - 1];
        assert Kept(e);
        if e.Choice? {
          if !ret {
            stateStack := stateStack[..|stateStack| - 1];
            RestoreCaptures(e);
            RestoreRest(e);
            return false, ret;
          }
        } else if e.Greedy? {
          if !ret {
            StepBack(e);
            return false, ret;
          }
        } else {
          ret := (!e.neg && ret) || (e.neg && !ret);
          if ret {
            stateStack := stateStack[..|stateStack| - 1];
            // a positive assertion keeps the captures made inside it
            if e.neg { RestoreCaptures(e); }
            RestoreRest(e);
            return false, ret;
          }
        }
        stateStack := stateStack[..|stateStack| - 1];
      }
      finished := true;
    }

    // ---------- instructions ----------

    method IsAtBoundary(p: nat) returns (b: bool)
      requires p <= |s.text|
      ensures b == AtBoundary(s, p)
    {
      var v1 := if p == 0 then false else IsWordChar(s.text[p - 1]);
      var v2 := if p >= |s.text| then false else IsWordChar(s.text[p]);
      return v1 != v2;
    }

    lemma {:induction false} PlainSize(pc1: nat)
      requires pc1 < |bc|
      ensures bc[pc1] != OP_RANGE && bc[pc1] != OP_RANGE32 ==> SizeAt(bc, pc1) == OpSize(bc[pc1])
    {
    }

    /** A class at pc1: the next character is looked up among its intervals. */
    method ExecRange(pc1: nat, p: nat) returns (ok: bool, pc2: nat, p2: nat)
      requires pc1 < |bc| && p <= |s.text| && (bc[pc1] == OP_RANGE || bc[pc1] == OP_RANGE32) && DecodeTest(bc, pc1).Some?
      ensures var (t, n) := DecodeTest(bc, pc1).value;
              match Advance(t, s, p) case None => !ok case Some(q) => ok && pc2 == pc1 + n && p2 == q
    {
      hide GetU16, CharClass.DecodeRange, CharRanges.Member, CharClass.Points, CharClass.NeedsWide, CharClass.IntervalAt;
      CharClass.DecodedAt(bc, pc1);
      ghost var points := CharClass.DecodeRange(bc, pc1);
      var wide, n := bc[pc1] == OP_RANGE32, GetU16(bc, pc1 + 1);
      pc2, p2 := pc1 + 3, p;
      if p2 >= |s.text| { return false, pc2, p2; }
      var c := s.text[p2];
      p2 := p2 + 1;
      ok := CharClass.MatchRange(bc, pc1, c, wide, points);
      pc2 := pc2 + n * (if wide then 8 else 4);
    }

    /** A test instruction at pc1: whether it passes, and where to go on. */
    method ExecTest(pc1: nat, p: nat) returns (ok: bool, pc2: nat, p2: nat)
      requires pc1 < |bc| && p <= |s.text| && DecodeTest(bc, pc1).Some?
      ensures var (t, n) := DecodeTest(bc, pc1).value;
              match Advance(t, s, p) case None => !ok case Some(q) => ok && pc2 == pc1 + n && p2 == q
    {
      hide GetU16, GetU32, CharClass.DecodeRange, CharRanges.Member, SizeAt;
      var opcode, end := bc[pc1], |s.text|;
      pc2, p2 := pc1 + 1, p;
      PlainSize(pc1);
      if opcode == OP_RANGE || opcode == OP_RANGE32 {
        ok, pc2, p2 := ExecRange(pc1, p);
      } else if opcode == OP_CHAR || opcode == OP_CHAR32 {
        var val;
        if opcode == OP_CHAR32 {
          val := GetU32(bc, pc2);
          pc2 := pc2 + 4;
        } else {
          val := GetU16(bc, pc2);
          pc2 := pc2 + 2;
        }
        if p2 >= end { return false, pc2, p2; }
        var c := s.text[p2];
        p2 := p2 + 1;
        ok := val == c;
      } else if opcode == OP_DOT || opcode == OP_ANY {
        if p2 == end { return false, pc2, p2; }
        var c := s.text[p2];
        p2 := p2 + 1;
        ok := opcode == OP_ANY || !IsLineTerminator(c);
      } else if opcode == OP_LINE_START {
        ok := p2 == 0 || (s.multiLine && IsLineTerminator(s.text[p2 - 1]));
      } else if opcode == OP_LINE_END {
        ok := p2 == end || (s.multiLine && IsLineTerminator(s.text[p2]));
      } else {
        var b := IsAtBoundary(p2);
        ok := b == (opcode == OP_WORD_BOUNDARY);
      }
    }

    /** The no_recurse run of an atom of tests. */
    method ExecAtom(pc1: nat, p: nat) returns (matched: bool, p2: nat)
      requires p <= |s.text| && !RunAtom(Prog(), pc1, p).Stuck?
      ensures RunAtom(Prog(), pc1, p) == if matched then Matched(p2) else AtomRun.NoMatch
    {
      hide DecodeTest, Advance;
      var i: nat;
      i, p2 := pc1, p;
      while bc[i] != OP_MATCH
        invariant 0 <= i < |bc| && p2 <= |s.text|
        invariant RunAtom(Prog(), pc1, p) == RunAtom(Prog(), i, p2) && !RunAtom(Prog(), i, p2).Stuck?
        decreases |bc| - i
      {
        assert DecodeTest(bc, i).Some? by { AtomDecodes(i, p2); }
        var ok;
        ok, i, p2 := ExecTest(i, p2);
        if !ok { return false, p2; }
      }
      NotATest(i);
      return true, p2;
    }

    lemma {:induction false} AtomDecodes(i: nat, p: nat)
      requires i < |bc| && p <= |s.text| && bc[i] != OP_MATCH && !RunAtom(Prog(), i, p).Stuck?
      ensures DecodeTest(bc, i).Some?
    {
    }

    lemma {:induction false} NotATest(i: nat)
      requires i < |bc| && bc[i] == OP_MATCH
      ensures DecodeTest(bc, i) == None
    {
    }

    /** simple_greedy_quant: as many iterations of the atom as there are, up to the maximum. */
    method ExecGreedy() returns (next: Next)
      requires Valid() && 0 <= pc && pc + 17 <= |bc| && SimpleGreedy(Prog(), View()) != Broken
      modifies `pc, `cptr, `stateStack
      ensures Valid() && (next.Go? || next.NoMatch?)
      ensures next.Go? ==> Running(View()) == SimpleGreedy(Prog(), old(View()))
      ensures next.NoMatch? ==> SimpleGreedy(Prog(), old(View())) == Fail(bc, stateStack) && stateStack == old(stateStack)
    {
      hide GetU32, GetI32, RunAtom, Fail;
      ghost var start := cptr;
      var args := pc + 1;
      var nextPos, quantMin, quantMax := GetI32(bc, args), GetU32(bc, args + 4), GetU32(bc, args + 8);
      var pc1 := args + 16;
      ghost var r := GreedyRun(Prog(), pc1, cptr, 0, quantMax);
      var q: nat, more := 0, true;
      while more
        invariant Valid() && pc == old(pc) && stateStack == old(stateStack) && start <= cptr && r.Some?
        invariant r == if more then GreedyRun(Prog(), pc1, cptr, q, quantMax) else Some((q, cptr))
        decreases more, |s.text| - cptr
      {
        var matched, p := ExecAtom(pc1, cptr);
        if !matched {
          more := false;
        } else {
          cptr := p;
          q := q + 1;
          if q >= quantMax && quantMax != INT32_MAX { more := false; }
        }
      }
      pc := pc1 + nextPos;
      if q < quantMin { return Next.NoMatch; }
      if q > quantMin {
        stateStack := stateStack + [Greedy(args, Pt(cptr, capture[..]), stack[..stackLen], q - quantMin)];
      }
      return Go;
    }

    /** An instruction that is not a test runs from here without undefined behaviour. */
    ghost predicate Ready()
      reads this, capture, stack
    {
      Valid() && 0 <= pc < |bc| && pc + SizeAt(bc, pc) <= |bc| && StepControl(Prog(), View()) != Broken
    }

    /** The static analysis leaves room for every push. */
    lemma {:induction false} PushRoom()
      requires Valid() && Sized() && 0 <= pc < |bc| && pc + SizeAt(bc, pc) <= |bc| && Delta(bc[pc]) == 1
      ensures stackLen < stack.Length
    {
      hide Depth, Boundary, Peak, SizeAt, Delta, Closed, SavedFit;
      Arrivals(bc, pc, stack[..stackLen]);
      DepthRange(bc, pc + SizeAt(bc, pc));
    }

    method ExecSplit()
      requires Ready()
      requires bc[pc] == OP_SPLIT_NEXT_FIRST || bc[pc] == OP_SPLIT_GOTO_FIRST || bc[pc] == OP_LOOKAHEAD
            || bc[pc] == OP_NEGATIVE_LOOKAHEAD
      modifies `pc, `stateStack
      ensures Valid() && Running(View()) == StepControl(Prog(), old(View()))
    {
      hide GetI32, GetU32;
      var opcode, val := bc[pc], GetI32(bc, pc + 1);
      pc := pc + 5;
      if opcode == OP_SPLIT_NEXT_FIRST {
        PushChoice(pc + val);
      } else if opcode == OP_SPLIT_GOTO_FIRST {
        var pc1 := pc;
        pc := pc + val;
        PushChoice(pc1);
      } else {
        PushAssertion(pc + val, opcode == OP_NEGATIVE_LOOKAHEAD);
      }
    }

    method ExecSave()
      requires Ready() && (bc[pc] == OP_SAVE_START || bc[pc] == OP_SAVE_END || bc[pc] == OP_SAVE_RESET)
      modifies `pc, capture
      ensures Valid() && Running(View()) == StepControl(Prog(), old(View()))
    {
      ghost var st := View();
      var opcode := bc[pc];
      var val := bc[pc + 1] as int;
      if opcode == OP_SAVE_RESET {
        var val2 := bc[pc + 2] as int;
        ResetCaptures(val, val2 + 1);
        pc := pc + 3;
      } else {
        capture[2 * val + (if opcode == OP_SAVE_END then 1 else 0)] := cptr;
        pc := pc + 2;
      }
      assert View() == StepControl(Prog(), st).st;
    }

    /** Unsets the captures lo, .., hi - 1. */
    method ResetCaptures(lo: nat, hi: nat)
      requires Valid() && 2 * (hi - 1) < capture.Length
      modifies capture
      ensures capture[..] == ResetCaps(old(capture[..]), lo, hi) && stack[..stackLen] == old(stack[..stackLen])
    {
      var val := lo;
      while val < hi
        invariant lo <= val && (val <= hi || val == lo)
        invariant forall i :: 0 <= i < capture.Length ==>
                    capture[i] == if 2 * lo <= i < 2 * val then -1 else old(capture[i])
        invariant stack[..stackLen] == old(stack[..stackLen])
      {
        capture[2 * val] := -1;
        capture[2 * val + 1] := -1;
        val := val + 1;
      }
    }

    method ExecStack()
      requires Ready() && Sized()
      requires bc[pc] == OP_PUSH_I32 || bc[pc] == OP_PUSH_CHAR_POS || bc[pc] == OP_DROP
      modifies `pc, `stackLen, stack
      ensures Valid() && Running(View()) == StepControl(Prog(), old(View()))
    {
      hide GetI32, GetU32, Closed, Peak, StateFits;
      ghost var st := View();
      var opcode := bc[pc];
      if opcode == OP_DROP {
        pc := pc + 1;
        stackLen := stackLen - 1;
      } else {
        PushRoom();
        stack[stackLen] := if opcode == OP_PUSH_I32 then GetU32(bc, pc + 1) else cptr;
        stackLen := stackLen + 1;
        pc := pc + (if opcode == OP_PUSH_I32 then 5 else 1);
      }
      assert View().stack == StepControl(Prog(), st).st.stack;
    }

    /** Counted loops and the test for progress. */
    method ExecLoop()
      requires Ready() && (bc[pc] == OP_LOOP || bc[pc] == OP_BNE_CHAR_POS)
      modifies `pc, `stackLen, stack
      ensures Valid() && Running(View()) == StepControl(Prog(), old(View()))
    {
      hide GetI32, GetU32;
      ghost var st := View();
      var opcode, val := bc[pc], GetI32(bc, pc + 1);
      pc := pc + 5;
      if opcode == OP_LOOP {
        stack[stackLen - 1] := stack[stackLen - 1] - 1;
        if stack[stackLen - 1] != 0 { pc := pc + val; }
      } else {
        stackLen := stackLen - 1;
        if stack[stackLen] != cptr { pc := pc + val; }
      }
      assert View().stack == StepControl(Prog(), st).st.stack;
    }

    /** One turn of the interpreter loop. */
    method Execute() returns (next: Next)
      requires Valid() && Sized() && Step(Prog(), View()) != Broken
      modifies this, capture, stack
      ensures Valid() && (next.Go? ==> Running(View()) == Step(Prog(), old(View())))
      ensures next.NoMatch? ==> Step(Prog(), old(View())) == Fail(bc, stateStack)
      ensures next.Match? ==> Step(Prog(), old(View())) == Succeed(bc, stateStack, View().pt)
    {
      hide GetI32, GetU32, GetU16, Fail, Succeed, Sized, SimpleGreedy, DecodeTest, Advance;
      var opcode := bc[pc];
      if IsCharOp(opcode) || IsAnchorOp(opcode) {
        TestDecodes(pc);
        var ok, pc2, p2 := ExecTest(pc, cptr);
        if !ok { return Next.NoMatch; }
        pc, cptr := pc2, p2;
        return Go;
      }
      NotDecoded(pc);
      next := Go;
      if opcode == OP_MATCH {
        next := Match;
      } else if opcode == OP_GOTO {
        pc := pc + 5 + GetI32(bc, pc + 1);
      } else if opcode == OP_SAVE_START || opcode == OP_SAVE_END || opcode == OP_SAVE_RESET {
        ExecSave();
      } else if opcode == OP_PUSH_I32 || opcode == OP_PUSH_CHAR_POS || opcode == OP_DROP {
        ExecStack();
      } else if opcode == OP_LOOP || opcode == OP_BNE_CHAR_POS {
        ExecLoop();
      } else if opcode == OP_SIMPLE_GREEDY_QUANT {
        next := ExecGreedy();
      } else {
        ExecSplit();
      }
    }

    lemma {:induction false} TestDecodes(i: nat)
      requires stackLen <= stack.Length && i < |bc| && i == pc
      requires (IsCharOp(bc[i]) || IsAnchorOp(bc[i])) && Step(Prog(), View()) != Broken
      ensures DecodeTest(bc, i).Some?
    {
      hide GetU16, GetU32;
    }

    lemma {:induction false} NotDecoded(i: nat)
      requires i < |bc| && !IsCharOp(bc[i]) && !IsAnchorOp(bc[i])
      ensures DecodeTest(bc, i) == None
    {
      hide GetU16, GetU32;
    }

    /** lre_exec_backtrack: when the abstract machine stops with r from here, so does the loop. */
    method LreExecBacktrack(ghost r: Option<Pt>) returns (ret: bool)
      requires Valid() && Sized() && Reaches(Prog(), Running(View()), Done(r))
      modifies this, capture, stack
      ensures Valid() && r == if ret then Some(View().pt) else None
    {
      hide Step, Run, Fail, Succeed, StateFits, Closed, Peak;
      ghost var steps: nat :| Run(Prog(), Running(View()), steps) == Done(r);
      while true
        invariant Valid() && Sized() && Run(Prog(), Running(View()), steps) == Done(r)
        decreases steps
      {
        ghost var st := View();
        RunOnce(Prog(), st, steps, r);
        StepFits(Prog(), st);
        var next := Execute();
        if next.Go? {
          steps := steps - 1;
        } else {
          NextOutcome(Prog(), Step(Prog(), st), steps - 1, r);
          var finished;
          finished, ret := Unwind(next.Match?);
          if finished {
            DoneStays(Prog(), Step(Prog(), st), steps - 1);
            return;
          }
          steps := steps - 1;
        }
      }
    }
  }

  lemma {:induction false} RunOnce(p: Program, st: State, steps: nat, r: Option<Pt>)
    requires Run(p, Running(st), steps) == Done(r)
    ensures steps > 0 && Run(p, Step(p, st), steps - 1) == Done(r) && Step(p, st) != Broken
  {
    hide Step;
    if steps > 0 { NextOutcome(p, Step(p, st), steps - 1, r); }
  }

  lemma {:induction false} NextOutcome(p: Program, o: Outcome, steps: nat, r: Option<Pt>)
    requires Run(p, o, steps) == Done(r)
    ensures o != Broken
  {
    hide Step;
  }

  // ---------- whole programs ----------

  /** What lre_compile guarantees of an image and lre_exec relies on. */
  ghost predicate ImageOf(image: seq<Byte>, flags: Byte, n: Node, captures: nat) {
    var code := ProgramCode(n, Sticky(flags));
    && WellFormed(n, captures) && 1 <= captures <= 255 && |code| <= INT32_MAX && Peak(code) <= STACK_SIZE_MAX
    && image == Image(flags, captures, Peak(code), code)
  }

  /** lre_exec: for every compiled pattern, every subject and every start from which the run ends,
      the leftmost match, first choice, or none. */
  method LreExec(image: seq<Byte>, text: seq<CharUnit>, cindex: nat, ghost flags: Byte, ghost n: Node, ghost captures: nat)
    returns (ret: bool, capture: array<int>)
    requires ImageOf(image, flags, n, captures) && cindex <= |text|
    requires !RunsForever(n, Subject(text, MultiLine(flags)), Sticky(flags), cindex)
    ensures fresh(capture)
    ensures match FirstMatch(n, Subject(text, MultiLine(flags)), Sticky(flags), cindex, Unset(2 * captures))
            case None => !ret
            case Some(pt) => ret && capture[..] == pt.caps
  {
    hide ProgramCode, WellFormed, Peak, Reaches, FirstMatch, StateFits, Neutral, U32, RunsForever, Run;
    ghost var code := ProgramCode(n, Sticky(flags));
    var bc := image[RE_HEADER_LEN..];
    assert bc == code && image[0] == flags && image[1] == captures && image[2] == Peak(code);
    var s := Subject(text, MultiLine(image[0]));
    var ctx := new REExecContext(bc, s, image[1], image[2], cindex);
    ProgramCorrect(n, captures, Sticky(flags), s, cindex);
    ProgramStack(n, captures, Sticky(flags));
    StartFits(code, ctx.View());
    NeutralParts(code);
    ret := ctx.LreExecBacktrack(FirstMatch(n, s, Sticky(flags), cindex, Unset(2 * captures)));
    capture := ctx.capture;
  }

  lemma {:induction false} StartFits(c: seq<Byte>, st: State)
    requires st.pc == 0 && st.stack == [] && st.saved == []
    ensures StateFits(c, st)
  {
    DepthStart(c, 0);
  }

  lemma {:induction false} CompiledImage(buf: string, flags: Byte, bc: seq<Byte>)
    requires Compiled(buf, flags, Success, bc)
    ensures var r := ReadDisjunction(buf, DotAll(flags), 0, 1); r.Tree? && ImageOf(bc, flags, r.n, r.captures)
  {
    hide ReadDisjunction, ProgramCode, Peak, Image;
  }

  /** Compiling a pattern and running it on a text. */
  method Search(pattern: string, flags: Byte, text: seq<CharUnit>, cindex: nat)
    returns (st: Status, ret: bool, capture: array<int>)
    requires cindex <= |text|
    requires var r := ReadDisjunction(pattern, DotAll(flags), 0, 1);
             r.Tree? ==> !RunsForever(r.n, Subject(text, MultiLine(flags)), Sticky(flags), cindex)
    ensures st.Success? ==>
              var r := ReadDisjunction(pattern, DotAll(flags), 0, 1);
              && r.Tree? && At(pattern, r.pos) == '\0'
              && var m := FirstMatch(r.n, Subject(text, MultiLine(flags)), Sticky(flags), cindex, Unset(2 * r.captures));
                 ret == m.Some? && (ret ==> capture[..] == m.value.caps)
  {
    hide ReadDisjunction, ProgramCode, FirstMatch, Peak, ImageOf, RunsForever;
    var bc;
    st, bc := LreCompile(pattern, flags);
    ret := false;
    if !st.Success? {
      capture := new int[0];
      return;
    }
    CompiledImage(pattern, flags, bc);
    ghost var r := ReadDisjunction(pattern, DotAll(flags), 0, 1);
    ret, capture := LreExec(bc, text, cindex, flags, r.n, r.captures);
  }
}
