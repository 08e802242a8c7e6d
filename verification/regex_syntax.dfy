/** Patterns, and the bytecode each one stands for. */
module RegexSyntax {
  import opened RegexBytes
  import CharClass

  /** What a single test instruction checks at one position. */
  datatype Test = Char(c: nat) | Class(points: CharClass.ClassPoints) | Dot | Any | LineStart | LineEnd | WordBoundary | NotWordBoundary

  /** max = INT32_MAX means no upper bound; lo..hi are the captures opened inside the atom. */
  datatype Node =
    | Empty
    | Leaf(t: Test)
    | Cat(first: Node, second: Node)
    | Alt(left: Node, right: Node)
    | Quant(atom: Node, min: nat, max: nat, greedy: bool, lo: nat, hi: nat)
    | Capture(index: nat, body: Node)
    | Look(body: Node, neg: bool)

  function TestCode(t: Test): (s: seq<Byte>)
    ensures |s| >= 1
  {
    match t
    case Char(c) => if c <= 0xffff then [OP_CHAR] + U16(c) else [OP_CHAR32] + U32(c)
    case Class(points) => CharClass.RangeCode(points)
    case Dot => [OP_DOT]
    case Any => [OP_ANY]
    case LineStart => [OP_LINE_START]
    case LineEnd => [OP_LINE_END]
    case WordBoundary => [OP_WORD_BOUNDARY]
    case NotWordBoundary => [OP_NOT_WORD_BOUNDARY]
  }

  predicate IsCharOp(op: Byte) {
    op == OP_CHAR || op == OP_CHAR32 || op == OP_DOT || op == OP_ANY || op == OP_RANGE || op == OP_RANGE32
  }

  predicate IsAnchorOp(op: Byte) {
    op == OP_LINE_START || op == OP_LINE_END || op == OP_WORD_BOUNDARY || op == OP_NOT_WORD_BOUNDARY
  }

  // ---------- the two linear scans over emitted code ----------

  datatype Effect = Nothing | Advances | Unknown

  /** Instructions that re_check_advance passes over. */
  predicate IsNeutralOp(op: Byte) {
    IsAnchorOp(op) || op == OP_PUSH_I32 || op == OP_PUSH_CHAR_POS || op == OP_DROP
    || op == OP_SAVE_START || op == OP_SAVE_END || op == OP_SAVE_RESET
  }

  /** The first instruction of the code that is not neutral decides. */
  function FirstEffect(bc: seq<Byte>): (r: Effect)
    decreases |bc|
  {
    if bc == [] then Nothing
    else if IsCharOp(bc[0]) then Advances
    else if !IsNeutralOp(bc[0]) then Unknown
    else if SizeAt(bc, 0) > |bc| then Nothing
    else FirstEffect(bc[SizeAt(bc, 0)..])
  }

  /** re_check_advance, for code without back references. */
  predicate CheckAdvance(bc: seq<Byte>) {
    FirstEffect(bc).Advances?
  }

  /** re_is_simple_quantifier: the number of characters of straight-line code, or -1. */
  function SimpleCount(bc: seq<Byte>): (n: int)
    ensures n >= -1
    decreases |bc|
  {
    if bc == [] then 0
    else if SizeAt(bc, 0) > |bc| then -1
    else
      var rest := SimpleCount(bc[SizeAt(bc, 0)..]);
      if rest < 0 then -1
      else if IsCharOp(bc[0]) then rest + 1
      else if IsAnchorOp(bc[0]) then rest
      else -1
  }

  // ---------- code of a pattern ----------

  /** A jump of n bytes counted from the end of the instruction. */
  function Jump(op: Byte, n: int): (s: seq<Byte>)
    ensures |s| == 5
  {
    [op] + U32(n)
  }

  function Split(greedy: bool): Byte {
    if greedy then OP_SPLIT_NEXT_FIRST else OP_SPLIT_GOTO_FIRST
  }

  function Reset(min: nat, lo: nat, hi: nat): (s: seq<Byte>) {
    if min == 0 && lo != hi then [OP_SAVE_RESET, lo % 256, (hi - 1) % 256] else []
  }

  /** The atom any number of times; `check` guards against iterations that consume nothing. */
  function StarCode(a: seq<Byte>, greedy: bool, check: bool): (s: seq<Byte>) {
    if check then
      Jump(Split(greedy), |a| + 6) + [OP_PUSH_CHAR_POS] + a + Jump(OP_BNE_CHAR_POS, -(|a| + 11))
    else
      Jump(Split(greedy), |a| + 5) + a + Jump(OP_GOTO, -(|a| + 10))
  }

  /** The atom exactly n times. */
  function RepeatCode(a: seq<Byte>, n: nat): (s: seq<Byte>) {
    Jump(OP_PUSH_I32, n) + a + Jump(OP_LOOP, -(|a| + 5)) + [OP_DROP]
  }

  /** The atom up to n times. */
  function UpToCode(a: seq<Byte>, greedy: bool, n: nat): (s: seq<Byte>) {
    Jump(OP_PUSH_I32, n) + Jump(Split(greedy), |a| + 5) + a + Jump(OP_LOOP, -(|a| + 10)) + [OP_DROP]
  }

  function SimpleCode(a: seq<Byte>, min: nat, max: nat, count: nat): (s: seq<Byte>)
    ensures |s| == |a| + 18
  {
    [OP_SIMPLE_GREEDY_QUANT] + U32(|a| + 1) + U32(min) + U32(max) + U32(count) + a + [OP_MATCH]
  }

  /** The optional iterations after the mandatory ones. */
  function TailCode(a: seq<Byte>, min: nat, max: nat, greedy: bool, check: bool): (s: seq<Byte>) {
    if max == INT32_MAX then StarCode(a, greedy, check)
    else if max <= min then []
    else if min == 0 && max == 1 then Jump(Split(greedy), |a|) + a
    else UpToCode(a, greedy, max - min)
  }

  function QuantCode(a: seq<Byte>, min: nat, max: nat, greedy: bool, lo: nat, hi: nat): (s: seq<Byte>) {
    if greedy && max > 0 && SimpleCount(a) > 0 then SimpleCode(a, min, max, SimpleCount(a))
    else LoopCode(a, min, max, greedy, lo, hi)
  }

  /** A quantifier without the optimized instruction. */
  function LoopCode(a: seq<Byte>, min: nat, max: nat, greedy: bool, lo: nat, hi: nat): (s: seq<Byte>) {
    if PlusForm(a, min, max, greedy) then a + Jump(Split(!greedy), -(|a| + 5))
    else
      (if min == 0 then Reset(min, lo, hi) else MinCode(a, min))
      + TailCode(a, min, max, greedy, greedy && !CheckAdvance(a))
  }

  /** A loop back over the one mandatory iteration. */
  predicate PlusForm(a: seq<Byte>, min: nat, max: nat, greedy: bool) {
    min == 1 && max == INT32_MAX && !(greedy && !CheckAdvance(a))
  }

  /** Code for exactly min >= 1 iterations. */
  function MinCode(a: seq<Byte>, min: nat): (s: seq<Byte>) {
    if min == 1 then a else RepeatCode(a, min)
  }

  lemma {:induction false} LoopForms(a: seq<Byte>, min: nat, max: nat, greedy: bool, lo: nat, hi: nat)
    ensures var code, tail := LoopCode(a, min, max, greedy, lo, hi), TailCode(a, min, max, greedy, greedy && !CheckAdvance(a));
            && (min == 0 ==> code == Reset(0, lo, hi) + tail)
            && (PlusForm(a, min, max, greedy) ==> code == a + Jump(Split(!greedy), -(|a| + 5)))
            && (min >= 1 && !PlusForm(a, min, max, greedy) ==> code == MinCode(a, min) + tail)
  {
    hide TailCode, CheckAdvance, Jump, RepeatCode, Reset;
  }

  function Code(n: Node): (s: seq<Byte>) {
    match n
    case Empty => []
    case Leaf(t) => TestCode(t)
    case Cat(a, b) => Code(a) + Code(b)
    case Alt(a, b) => Jump(OP_SPLIT_NEXT_FIRST, |Code(a)| + 5) + Code(a) + Jump(OP_GOTO, |Code(b)|) + Code(b)
    case Quant(a, min, max, greedy, lo, hi) => QuantCode(Code(a), min, max, greedy, lo, hi)
    case Capture(k, a) => [OP_SAVE_START, k % 256] + Code(a) + [OP_SAVE_END, k % 256]
    case Look(a, neg) =>
      Jump(if neg then OP_NEGATIVE_LOOKAHEAD else OP_LOOKAHEAD, |Code(a)| + 1) + Code(a) + [OP_MATCH]
  }

  /** What the parser guarantees of the patterns it builds: operand ranges and capture numbers. */
  predicate WellFormed(n: Node, captures: nat) {
    match n
    case Empty => true
    case Leaf(t) => t.Char? ==> t.c < 0x1_0000_0000
    case Cat(a, b) => WellFormed(a, captures) && WellFormed(b, captures)
    case Alt(a, b) => WellFormed(a, captures) && WellFormed(b, captures)
    case Quant(a, min, max, greedy, lo, hi) =>
      WellFormed(a, captures) && min <= max <= INT32_MAX && lo <= hi <= captures && hi - lo == Groups(a)
    case Capture(k, a) => k < captures && WellFormed(a, captures)
    case Look(a, neg) => WellFormed(a, captures)
  }

  /** Number of capture groups in a pattern. */
  function Groups(n: Node): nat {
    match n
    case Empty => 0
    case Leaf(_) => 0
    case Cat(a, b) => Groups(a) + Groups(b)
    case Alt(a, b) => Groups(a) + Groups(b)
    case Quant(a, _, _, _, _, _) => Groups(a)
    case Capture(_, a) => Groups(a) + 1
    case Look(a, _) => Groups(a)
  }

  /** Tests of the next character. */
  predicate Consumes(t: Test) {
    t.Char? || t.Class? || t.Dot? || t.Any?
  }

  /** Patterns whose every match consumes a character. */
  predicate MustAdvance(n: Node) {
    match n
    case Empty => false
    case Leaf(t) => Consumes(t)
    case Cat(a, b) => MustAdvance(a) || MustAdvance(b)
    case Alt(a, b) => MustAdvance(a) && MustAdvance(b)
    case Quant(a, min, _, _, _, _) => min >= 1 && MustAdvance(a)
    case Capture(_, a) => MustAdvance(a)
    case Look(_, _) => false
  }

  /** No unbounded lazy loop over an atom that may consume nothing: the emitted loop has no check
      against it and would not end. */
  predicate Tame(n: Node) {
    match n
    case Empty => true
    case Leaf(_) => true
    case Cat(a, b) => Tame(a) && Tame(b)
    case Alt(a, b) => Tame(a) && Tame(b)
    case Quant(a, _, max, greedy, _, _) => Tame(a) && (max == INT32_MAX && !greedy ==> MustAdvance(a))
    case Capture(_, a) => Tame(a)
    case Look(a, _) => Tame(a)
  }
}
