/** lre_compile: the header, the search prefix, the parser's code, and the static checks. */
module RegexLreCompile {
  import opened RegexBytes
  import opened RegexSyntax
  import opened RegexGrammar
  import opened RegexClass
  import opened RegexStack
  import opened RegexProgram
  import opened RegexCompiler

  const RE_HEADER_LEN := 7

  // The flags given to the compiler and kept in the first byte.

  predicate IgnoreCase(flags: nat) { flags / 2 % 2 == 1 }

  predicate MultiLine(flags: nat) { flags / 4 % 2 == 1 }

  predicate DotAll(flags: nat) { flags / 8 % 2 == 1 }

  predicate Utf16(flags: nat) { flags / 16 % 2 == 1 }

  predicate Sticky(flags: nat) { flags / 32 % 2 == 1 }

  /** The flags are the bits 1, 2, 3, 4 and 5 of their byte, below the bit that asks for all matches. */
  lemma {:induction false} FlagBits(all: bool, ignoreCase: bool, multiLine: bool, dotAll: bool, utf16: bool, sticky: bool)
    ensures var flags := (if all then 0x01 else 0) + (if ignoreCase then 0x02 else 0) + (if multiLine then 0x04 else 0)
                       + (if dotAll then 0x08 else 0) + (if utf16 then 0x10 else 0) + (if sticky then 0x20 else 0);
            && IgnoreCase(flags) == ignoreCase && MultiLine(flags) == multiLine && DotAll(flags) == dotAll
            && Utf16(flags) == utf16 && Sticky(flags) == sticky
  {
    var f4 := FlagBit(utf16) + 2 * FlagBit(sticky);
    var f3 := FlagBit(dotAll) + 2 * f4;
    var f2 := FlagBit(multiLine) + 2 * f3;
    var f1 := FlagBit(ignoreCase) + 2 * f2;
    var flags := FlagBit(all) + 2 * f1;
    assert flags / 2 == f1 && flags / 4 == f2 && flags / 8 == f3 && flags / 16 == f4 && flags / 32 == FlagBit(sticky);
  }

  function FlagBit(b: bool): nat {
    if b then 1 else 0
  }

  /** A compiled pattern: flags, number of captures, stack size, code length, code. */
  function Image(flags: Byte, captures: nat, stackSize: nat, code: seq<Byte>): (r: seq<Byte>)
    ensures |r| == RE_HEADER_LEN + |code|
  {
    [flags, captures % 256, stackSize % 256] + U32(|code|) + code
  }

  /** What compiling a pattern produces. */
  ghost predicate Compiled(buf: string, flags: Byte, st: Status, bc: seq<Byte>) {
    if IgnoreCase(flags) || Utf16(flags) then st.Unsupported?
    else
      match ReadDisjunction(buf, DotAll(flags), 0, 1)
      case Rejected => st.SyntaxError?
      case Outside => st.Unsupported?
      case Tree(n, pos, captures) =>
        var code := ProgramCode(n, Sticky(flags));
        if At(buf, pos) != '\0' then st.SyntaxError?
        else if |code| > INT32_MAX then st.Unsupported?
        else if Peak(code) > STACK_SIZE_MAX then st.SyntaxError?
        else st.Success? && bc == Image(flags, captures, Peak(code), code)
  }

  /** The search prefix and the pattern, recorded as capture 0. */
  method EmitProgram(s: REParseState, sticky: bool) returns (st: Status)
    requires s.bufPtr == 0 && s.byteCode == [] && s.captureCount == 1
    modifies s
    ensures var r := ReadDisjunction(s.buf, s.dotall, 0, 1);
            match r
            case Tree(n, pos, captures) =>
              st.Success? && s.bufPtr == pos && s.captureCount == captures && s.byteCode == ProgramCode(n, sticky)
            case Rejected => st.SyntaxError?
            case Outside => st.Unsupported?
  {
    hide ReadDisjunction, Code, U32, Jump;
    EmitSearch(s, sticky);
    s.EmitOpU8(OP_SAVE_START, 0);
    st := s.ParseDisjunction();
    if !st.Success? { return; }
    s.EmitOpU8(OP_SAVE_END, 0);
    s.EmitOp(OP_MATCH);
  }

  method EmitSearch(s: REParseState, sticky: bool)
    requires s.byteCode == []
    modifies s`byteCode
    ensures s.byteCode == SearchCode(sticky)
  {
    hide Jump;
    if !sticky {
      var operand := s.EmitOpU32(OP_SPLIT_GOTO_FIRST, 1 + 5);
      s.EmitOp(OP_ANY);
      operand := s.EmitOpU32(OP_GOTO, -(5 + 1 + 5));
    }
  }

  method LreCompile(buf: string, flags: Byte) returns (st: Status, bc: seq<Byte>)
    ensures Compiled(buf, flags, st, bc)
  {
    hide ReadDisjunction, ProgramCode, Peak, Neutral, Image, IgnoreCase, Utf16, DotAll, Sticky;
    bc := [];
    if IgnoreCase(flags) || Utf16(flags) { return Unsupported, []; }
    var s := new REParseState(buf, DotAll(flags));
    ghost var r := ReadDisjunction(buf, DotAll(flags), 0, 1);
    st := EmitProgram(s, Sticky(flags));
    if !st.Success? { return; }
    if s.Cur(s.bufPtr) != '\0' { return SyntaxError, []; }
    if |s.byteCode| > INT32_MAX { return Unsupported, []; }
    ProgramStack(r.n, s.captureCount, Sticky(flags));
    var stackSize := ComputeStackSize(s.byteCode);
    if stackSize < 0 { return SyntaxError, []; }
    bc := Image(flags, s.captureCount, stackSize, s.byteCode);
  }
}
