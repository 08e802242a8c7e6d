/** The backtracking machine over compiled bytes, one instruction at a time. */
module RegexMachine {
  import opened RegexBytes
  import opened RegexSyntax
  import opened RegexMatch
  import CharClass

  /** A saved state (push_state): the captures and the operand stack travel with it. */
  datatype Entry =
    | Choice(pc: int, pt: Pt, stack: seq<int>)
    | Assertion(neg: bool, pc: int, pt: Pt, stack: seq<int>)
    | Greedy(pc: int, pt: Pt, stack: seq<int>, count: nat)

  datatype State = State(pc: int, pt: Pt, stack: seq<int>, saved: seq<Entry>)

  /** Broken stands for what the original leaves undefined or aborts on. */
  datatype Outcome = Running(st: State) | Done(result: Option<Pt>) | Broken

  datatype Program = Program(bc: seq<Byte>, s: Subject)

  /** A test instruction and its size. */
  function DecodeTest(bc: seq<Byte>, pc: int): (r: Option<(Test, nat)>)
    requires 0 <= pc < |bc|
  {
    var op := bc[pc];
    if pc + SizeAt(bc, pc) > |bc| then None
    else if op == OP_CHAR then Some((Char(GetU16(bc, pc + 1)), 3))
    else if op == OP_CHAR32 then Some((Char(GetU32(bc, pc + 1)), 5))
    else if op == OP_RANGE || op == OP_RANGE32 then
      var points := CharClass.DecodeRange(bc, pc);
      if points == [] then None else Some((Class(points), SizeAt(bc, pc)))
    else if op == OP_DOT then Some((Dot, 1))
    else if op == OP_ANY then Some((Any, 1))
    else if op == OP_LINE_START then Some((LineStart, 1))
    else if op == OP_LINE_END then Some((LineEnd, 1))
    else if op == OP_WORD_BOUNDARY then Some((WordBoundary, 1))
    else if op == OP_NOT_WORD_BOUNDARY then Some((NotWordBoundary, 1))
    else None
  }

  // ---------- backtracking ----------

  /** The no_match label: unwind the saved states with a negative result. */
  function Fail(bc: seq<Byte>, saved: seq<Entry>): (o: Outcome)
    decreases |saved|
  {
    if saved == [] then Done(None)
    else
      var top, rest := saved[|saved| - 1], saved[..|saved| - 1];
      match top
      case Choice(pc, pt, stack) => Running(State(pc, pt, stack, rest))
      case Greedy(pc, pt, stack, count) =>
        if pc < 0 || pc + 16 > |bc| || count == 0 || pt.pos < GetU32(bc, pc + 12) then Broken
        else
          var pt' := pt.(pos := pt.pos - GetU32(bc, pc + 12));
          var rest' := if count == 1 then rest else rest + [Greedy(pc, pt', stack, count - 1)];
          Running(State(pc + 16 + GetI32(bc, pc), pt', stack, rest'))
      case Assertion(neg, pc, pt, stack) =>
        if neg then Running(State(pc, pt, stack, rest)) else Fail(bc, rest)
  }

  /** The match opcode: unwind to the innermost assertion, or accept. */
  function Succeed(bc: seq<Byte>, saved: seq<Entry>, pt: Pt): (o: Outcome)
    decreases |saved|
  {
    if saved == [] then Done(Some(pt))
    else
      var top, rest := saved[|saved| - 1], saved[..|saved| - 1];
      match top
      case Choice(_, _, _) => Succeed(bc, rest, pt)
      case Greedy(_, _, _, _) => Succeed(bc, rest, pt)
      case Assertion(neg, pc, pt0, stack) =>
        if neg then Fail(bc, rest) else Running(State(pc, pt0.(caps := pt.caps), stack, rest))
  }

  // ---------- the optimized quantifier ----------

  datatype AtomRun = Matched(pos: nat) | NoMatch | Stuck

  /** The no_recurse run of straight-line code up to its match opcode. */
  function RunAtom(p: Program, pc: int, pos: nat): (r: AtomRun)
    requires pos <= |p.s.text|
    ensures r.Matched? ==> pos <= r.pos <= |p.s.text|
    decreases |p.bc| - pc
  {
    if !(0 <= pc < |p.bc|) then Stuck
    else
      match DecodeTest(p.bc, pc)
      case Some((t, n)) =>
        (match Advance(t, p.s, pos) case None => NoMatch case Some(q) => if n == 0 then Stuck else RunAtom(p, pc + n, q))
      case None => if p.bc[pc] == OP_MATCH then Matched(pos) else Stuck
  }

  /** Iterates the atom; the count and the position reached, or None when the atom is not
      straight-line or consumes nothing (the original would not return). */
  function GreedyRun(p: Program, pc: int, pos: nat, q: nat, max: nat): (r: Option<(nat, nat)>)
    requires pos <= |p.s.text|
    ensures r.Some? ==> pos <= r.value.1 <= |p.s.text|
    decreases |p.s.text| - pos
  {
    match RunAtom(p, pc, pos)
    case Stuck => None
    case NoMatch => Some((q, pos))
    case Matched(pos') =>
      if pos' == pos then None
      else if q + 1 >= max && max != INT32_MAX then Some((q + 1, pos'))
      else GreedyRun(p, pc, pos', q + 1, max)
  }

  function SimpleGreedy(p: Program, st: State): (o: Outcome)
    requires 0 <= st.pc && st.pc + 17 <= |p.bc| && st.pt.pos <= |p.s.text|
  {
    var args := st.pc + 1;
    var min, max := GetU32(p.bc, args + 4), GetU32(p.bc, args + 8);
    match GreedyRun(p, args + 16, st.pt.pos, 0, max)
    case None => Broken
    case Some((q, pos)) =>
      if q < min then Fail(p.bc, st.saved)
      else
        var pt := st.pt.(pos := pos);
        var saved := if q > min then st.saved + [Greedy(args, pt, st.stack, q - min)] else st.saved;
        Running(State(args + 16 + GetI32(p.bc, args), pt, st.stack, saved))
  }

  // ---------- one step ----------

  function Step(p: Program, st: State): (o: Outcome)
  {
    if !(0 <= st.pc < |p.bc|) || st.pt.pos > |p.s.text| then Broken
    else
      match DecodeTest(p.bc, st.pc)
      case Some((t, n)) =>
        (match Advance(t, p.s, st.pt.pos)
         case None => Fail(p.bc, st.saved)
         case Some(q) => Running(st.(pc := st.pc + n, pt := st.pt.(pos := q))))
      case None => if st.pc + SizeAt(p.bc, st.pc) > |p.bc| then Broken else StepControl(p, st)
  }

  function StepControl(p: Program, st: State): (o: Outcome)
    requires 0 <= st.pc < |p.bc| && st.pc + SizeAt(p.bc, st.pc) <= |p.bc| && st.pt.pos <= |p.s.text|
  {
    var op, pc, n := p.bc[st.pc], st.pc, |st.stack|;
    if op == OP_MATCH then Succeed(p.bc, st.saved, st.pt)
    else if op == OP_GOTO then Running(st.(pc := pc + 5 + GetI32(p.bc, pc + 1)))
    else if op == OP_SPLIT_NEXT_FIRST then
      Running(st.(pc := pc + 5, saved := st.saved + [Choice(pc + 5 + GetI32(p.bc, pc + 1), st.pt, st.stack)]))
    else if op == OP_SPLIT_GOTO_FIRST then
      Running(st.(pc := pc + 5 + GetI32(p.bc, pc + 1), saved := st.saved + [Choice(pc + 5, st.pt, st.stack)]))
    else if op == OP_LOOKAHEAD || op == OP_NEGATIVE_LOOKAHEAD then
      var entry := Assertion(op == OP_NEGATIVE_LOOKAHEAD, pc + 5 + GetI32(p.bc, pc + 1), st.pt, st.stack);
      Running(st.(pc := pc + 5, saved := st.saved + [entry]))
    else if op == OP_SAVE_START || op == OP_SAVE_END then
      var slot: nat := 2 * (p.bc[pc + 1] as int) + (if op == OP_SAVE_END then 1 else 0);
      if slot >= |st.pt.caps| then Broken
      else Running(st.(pc := pc + 2, pt := st.pt.(caps := SetCap(st.pt.caps, slot, st.pt.pos))))
    else if op == OP_SAVE_RESET then
      if 2 * (p.bc[pc + 2] as int) >= |st.pt.caps| then Broken
      else Running(st.(pc := pc + 3, pt := st.pt.(caps := ResetCaps(st.pt.caps, p.bc[pc + 1], p.bc[pc + 2] as int + 1))))
    else if op == OP_PUSH_I32 then Running(st.(pc := pc + 5, stack := st.stack + [GetU32(p.bc, pc + 1)]))
    else if op == OP_PUSH_CHAR_POS then Running(st.(pc := pc + 1, stack := st.stack + [st.pt.pos]))
    else if op == OP_DROP then
      if n == 0 then Broken else Running(st.(pc := pc + 1, stack := st.stack[..n - 1]))
    else if op == OP_LOOP then
      if n == 0 then Broken
      else
        var count := st.stack[n - 1] - 1;
        Running(st.(pc := if count != 0 then pc + 5 + GetI32(p.bc, pc + 1) else pc + 5, stack := st.stack[n - 1 := count]))
    else if op == OP_BNE_CHAR_POS then
      if n == 0 then Broken
      else
        Running(st.(pc := if st.stack[n - 1] != st.pt.pos then pc + 5 + GetI32(p.bc, pc + 1) else pc + 5,
                    stack := st.stack[..n - 1]))
    else if op == OP_SIMPLE_GREEDY_QUANT then SimpleGreedy(p, st)
    else Broken
  }

  function Run(p: Program, o: Outcome, steps: nat): (o': Outcome)
    decreases steps
  {
    if steps == 0 || !o.Running? then o else Run(p, Step(p, o.st), steps - 1)
  }
}
