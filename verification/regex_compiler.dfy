/** The compiler as the original runs it: one pass over the text that emits bytes, inserts
    instructions before code already emitted, patches offsets and copies atoms. */
module RegexCompiler {
  import opened RegexBytes
  import opened RegexSyntax
  import opened RegexGrammar
  import opened RegexScan
  import opened RegexClass
  import CharClass

  datatype Status = Success | SyntaxError | Unsupported

  /** re_is_simple_quantifier as a scan. */
  method IsSimpleQuantifier(bc: seq<Byte>) returns (count: int)
    requires Whole(bc)
    ensures count == SimpleCount(bc)
  {
    hide SimpleCount, Whole;
    count := 0;
    var pos := 0;
    assert bc[0..] == bc;
    while pos < |bc|
      invariant 0 <= pos <= |bc| && count >= 0 && Whole(bc[pos..])
      invariant SimpleCount(bc) == if SimpleCount(bc[pos..]) < 0 then -1 else count + SimpleCount(bc[pos..])
      decreases |bc| - pos
    {
      var op := bc[pos];
      var len := SizeAt(bc, pos);
      ScanOne(bc[pos..]);
      assert bc[pos..][0] == op && bc[pos..][len..] == bc[pos + len..];
      if IsCharOp(op) { count := count + 1; }
      else if !IsAnchorOp(op) { return -1; }
      pos := pos + len;
    }
    ScanNone();
    assert bc[pos..] == [];
  }

  /** The scans, one instruction at a time. */
  lemma {:induction false} ScanOne(c: seq<Byte>)
    requires Whole(c) && c != []
    ensures SizeAt(c, 0) <= |c| && Whole(c[SizeAt(c, 0)..])
    ensures var rest := SimpleCount(c[SizeAt(c, 0)..]);
            SimpleCount(c) == if rest < 0 then -1 else if IsCharOp(c[0]) then rest + 1 else if IsAnchorOp(c[0]) then rest else -1
    ensures FirstEffect(c) == if IsCharOp(c[0]) then Advances
                              else if IsNeutralOp(c[0]) then FirstEffect(c[SizeAt(c, 0)..]) else Unknown
  {
    hide IsCharOp, IsAnchorOp, IsNeutralOp, SizeAt;
  }

  lemma {:induction false} ScanNone()
    ensures Whole([]) && SimpleCount([]) == 0 && FirstEffect([]).Nothing?
  {
  }

  /** re_check_advance, which keeps scanning after its answer is known. */
  method CheckAdvanceScan(bc: seq<Byte>) returns (advances: bool)
    requires Whole(bc)
    ensures advances == CheckAdvance(bc)
  {
    hide FirstEffect, Whole;
    var ret: int := -2;
    var pos := 0;
    assert bc[0..] == bc;
    while pos < |bc|
      invariant 0 <= pos <= |bc| && -2 <= ret <= 1 && ret != -1 && Whole(bc[pos..])
      invariant FirstEffect(bc) == if ret == 1 then Advances else if ret == 0 then Unknown else FirstEffect(bc[pos..])
      decreases |bc| - pos
    {
      var op := bc[pos];
      var len := SizeAt(bc, pos);
      ScanOne(bc[pos..]);
      assert bc[pos..][0] == op && bc[pos..][len..] == bc[pos + len..];
      if IsCharOp(op) {
        if ret == -2 { ret := 1; }
      } else if !IsNeutralOp(op) {
        if ret == -2 { ret := 0; }
      }
      pos := pos + len;
    }
    ScanNone();
    assert bc[pos..] == [];
    return ret == 1;
  }

  /** Code unfolded once. */
  lemma {:induction false} CodeUnfolds(n: Node)
    ensures match n
            case Empty => Code(n) == []
            case Cat(a, b) => Code(n) == Code(a) + Code(b)
            case Alt(a, b) => Code(n) == Jump(OP_SPLIT_NEXT_FIRST, |Code(a)| + 5) + Code(a) + Jump(OP_GOTO, |Code(b)|) + Code(b)
            case Capture(k, a) => Code(n) == [OP_SAVE_START, k % 256] + Code(a) + [OP_SAVE_END, k % 256]
            case Look(a, neg) =>
              Code(n) == Jump(if neg then OP_NEGATIVE_LOOKAHEAD else OP_LOOKAHEAD, |Code(a)| + 1) + Code(a) + [OP_MATCH]
            case _ => true
  {
  }

  /** Bytes between an insertion and the writes that fill it. */
  function Gap(n: nat): (s: seq<Byte>)
    ensures |s| == n
  {
    seq(n, _ => 0)
  }

  lemma {:induction false} NoGap(before: seq<Byte>, after: seq<Byte>)
    ensures before + Gap(0) + after == before + after
  {
  }

  lemma {:induction false} SimpleForm(a: seq<Byte>, min: nat, max: nat, lo: nat, hi: nat)
    requires max > 0 && SimpleCount(a) > 0
    ensures QuantCode(a, min, max, true, lo, hi) == SimpleCode(a, min, max, SimpleCount(a))
  {
    hide SimpleCode, SimpleCount, LoopCode;
  }

  lemma {:induction false} NotSimple(a: seq<Byte>, min: nat, max: nat, greedy: bool, lo: nat, hi: nat)
    ensures !(greedy && max > 0 && SimpleCount(a) > 0) ==>
              QuantCode(a, min, max, greedy, lo, hi) == LoopCode(a, min, max, greedy, lo, hi)
  {
    hide SimpleCode, SimpleCount, LoopCode;
  }

  lemma {:induction false} PlusFormIs(a: seq<Byte>, min: nat, max: nat, greedy: bool)
    ensures PlusForm(a, min, max, greedy) <==> min == 1 && max == INT32_MAX && !(greedy && !CheckAdvance(a))
  {
    hide CheckAdvance;
  }

  lemma {:induction false} MinForms(a: seq<Byte>, min: nat)
    ensures min == 1 ==> MinCode(a, min) == a
    ensures min != 1 ==> MinCode(a, min) == RepeatCode(a, min)
  {
    hide RepeatCode;
  }

  class REParseState {
    const buf: string
    const dotall: bool
    var bufPtr: nat
    var byteCode: seq<Byte>
    var captureCount: nat

    constructor (text: string, dotall: bool)
      ensures buf == text && this.dotall == dotall && bufPtr == 0 && byteCode == [] && captureCount == 1
    {
      buf := text;
      this.dotall := dotall;
      bufPtr, byteCode, captureCount := 0, [], 1;
    }

    // ---------- emission ----------

    method EmitOp(op: Byte)
      modifies `byteCode
      ensures byteCode == old(byteCode) + [op]
    {
      byteCode := byteCode + [op];
    }

    method EmitOpU8(op: Byte, v: nat)
      modifies `byteCode
      ensures byteCode == old(byteCode) + [op, v % 256]
    {
      byteCode := byteCode + [op, v % 256];
    }

    /** Returns the offset of the operand, for patching. */
    method EmitOpU32(op: Byte, v: int) returns (pos: nat)
      modifies `byteCode
      ensures byteCode == old(byteCode) + Jump(op, v) && pos == |old(byteCode)| + 1
    {
      pos := |byteCode| + 1;
      byteCode := byteCode + Jump(op, v);
    }

    /** A jump to an absolute position. */
    method EmitGoto(op: Byte, target: int)
      modifies `byteCode
      ensures byteCode == old(byteCode) + Jump(op, target - |old(byteCode)| - 5)
    {
      var pos := |byteCode| + 1;
      byteCode := byteCode + Jump(op, target - (pos + 4));
    }

    /** dbuf_insert: opens a gap; the caller fills all of it. */
    method Insert(pos: nat, len: nat)
      requires pos <= |byteCode|
      modifies `byteCode
      ensures byteCode == old(byteCode)[..pos] + Gap(len) + old(byteCode)[pos..]
    {
      byteCode := byteCode[..pos] + Gap(len) + byteCode[pos..];
    }

    /** Writes a byte at the start of a gap of n bytes between `before` and `after`. */
    method PutByte(pos: nat, b: Byte, ghost before: seq<Byte>, ghost n: nat, ghost after: seq<Byte>)
      requires byteCode == before + Gap(n) + after && n >= 1 && pos == |before|
      modifies `byteCode
      ensures byteCode == (before + [b]) + Gap(n - 1) + after
    {
      byteCode := byteCode[..pos] + [b] + byteCode[pos + 1..];
    }

    method PutU32(pos: nat, v: int, ghost before: seq<Byte>, ghost n: nat, ghost after: seq<Byte>)
      requires byteCode == before + Gap(n) + after && n >= 4 && pos == |before|
      modifies `byteCode
      ensures byteCode == (before + U32(v)) + Gap(n - 4) + after
    {
      byteCode := byteCode[..pos] + U32(v) + byteCode[pos + 4..];
    }

    /** Writes a whole jump at the start of a gap. */
    method PutJump(pos: nat, op: Byte, v: int, ghost before: seq<Byte>, ghost n: nat, ghost after: seq<Byte>)
      requires byteCode == before + Gap(n) + after && n >= 5 && pos == |before|
      modifies `byteCode
      ensures byteCode == (before + Jump(op, v)) + Gap(n - 5) + after
    {
      PutByte(pos, op, before, n, after);
      PutU32(pos + 1, v, before + [op], n - 1, after);
      assert before + [op] + U32(v) == before + Jump(op, v);
    }

    /** dbuf_put_self: appends a copy of a stretch of the code. */
    method PutSelf(start: nat, len: nat)
      requires start + len <= |byteCode|
      modifies `byteCode
      ensures byteCode == old(byteCode) + old(byteCode)[start..start + len]
    {
      byteCode := byteCode + byteCode[start..start + len];
    }

    /** Inserts a jump before the code from `start` on. */
    method InsertJump(start: nat, op: Byte, v: int)
      requires start <= |byteCode|
      modifies `byteCode
      ensures byteCode == old(byteCode)[..start] + Jump(op, v) + old(byteCode)[start..]
    {
      ghost var before, after := byteCode[..start], byteCode[start..];
      Insert(start, 5);
      PutJump(start, op, v, before, 5, after);
      NoGap(before + Jump(op, v), after);
    }

    // ---------- quantifiers ----------

    /** The straight-line atom from `start` on becomes the body of one optimized instruction. */
    method EmitSimple(start: nat, min: nat, max: nat, count: nat)
      requires start <= |byteCode|
      modifies `byteCode
      ensures byteCode == old(byteCode)[..start] + SimpleCode(old(byteCode)[start..], min, max, count)
    {
      hide U32, SimpleCode, Gap;
      ghost var pre, a := byteCode[..start], byteCode[start..];
      EmitOp(OP_MATCH);
      ghost var after := a + [OP_MATCH];
      assert byteCode[..start] == pre && byteCode[start..] == after;
      Insert(start, 17);
      var len := |byteCode| - start - 17;
      ghost var f1 := pre + [OP_SIMPLE_GREEDY_QUANT];
      ghost var f2 := f1 + U32(len);
      ghost var f3 := f2 + U32(min);
      ghost var f4 := f3 + U32(max);
      PutByte(start, OP_SIMPLE_GREEDY_QUANT, pre, 17, after);
      PutU32(start + 1, len, f1, 16, after);
      PutU32(start + 5, min, f2, 12, after);
      PutU32(start + 9, max, f3, 8, after);
      PutU32(start + 13, count, f4, 4, after);
      NoGap(f4 + U32(count), after);
      SimpleAssembled(pre, a, min, max, count);
    }

    lemma {:induction false} SimpleAssembled(pre: seq<Byte>, a: seq<Byte>, min: nat, max: nat, count: nat)
      ensures pre + [OP_SIMPLE_GREEDY_QUANT] + U32(|a| + 1) + U32(min) + U32(max) + U32(count) + (a + [OP_MATCH])
           == pre + SimpleCode(a, min, max, count)
    {
      hide U32;
    }

    /** `*`: a split (and a position) before the atom, a jump back after it. */
    method EmitStar(start: nat, greedy: bool, check: bool)
      requires start <= |byteCode|
      modifies `byteCode
      ensures byteCode == old(byteCode)[..start] + StarCode(old(byteCode)[start..], greedy, check)
    {
      hide U32, Jump;
      ghost var pre, a := byteCode[..start], byteCode[start..];
      var len := |byteCode| - start;
      if check {
        Insert(start, 6);
        PutJump(start, Split(greedy), len + 6, pre, 6, a);
        PutByte(start + 5, OP_PUSH_CHAR_POS, pre + Jump(Split(greedy), len + 6), 1, a);
        NoGap(pre + Jump(Split(greedy), len + 6) + [OP_PUSH_CHAR_POS], a);
        EmitGoto(OP_BNE_CHAR_POS, start);
      } else {
        InsertJump(start, Split(greedy), len + 5);
        EmitGoto(OP_GOTO, start);
      }
      assert byteCode == pre + StarCode(a, greedy, check);
    }

    method EmitUpTo(start: nat, greedy: bool, n: nat)
      requires start <= |byteCode|
      modifies `byteCode
      ensures byteCode == old(byteCode)[..start] + UpToCode(old(byteCode)[start..], greedy, n)
    {
      hide U32, Jump;
      ghost var pre, a := byteCode[..start], byteCode[start..];
      var len := |byteCode| - start;
      Insert(start, 10);
      PutJump(start, OP_PUSH_I32, n, pre, 10, a);
      PutJump(start + 5, Split(greedy), len + 5, pre + Jump(OP_PUSH_I32, n), 5, a);
      NoGap(pre + Jump(OP_PUSH_I32, n) + Jump(Split(greedy), len + 5), a);
      EmitGoto(OP_LOOP, start + 5);
      EmitOp(OP_DROP);
      assert byteCode == pre + UpToCode(a, greedy, n);
    }

    /** The captures inside an optional atom are unset first. */
    method EmitReset(start: nat, lo: nat) returns (start': nat)
      requires start <= |byteCode| && lo <= captureCount
      modifies `byteCode
      ensures byteCode == old(byteCode)[..start] + Reset(0, lo, captureCount) + old(byteCode)[start..]
      ensures start' == start + |Reset(0, lo, captureCount)|
    {
      ghost var pre, a := byteCode[..start], byteCode[start..];
      start' := start;
      if lo != captureCount {
        Insert(start', 3);
        PutByte(start', OP_SAVE_RESET, pre, 3, a);
        PutByte(start' + 1, lo % 256, pre + [OP_SAVE_RESET], 2, a);
        PutByte(start' + 2, (captureCount - 1) % 256, pre + [OP_SAVE_RESET] + [lo % 256], 1, a);
        start' := start' + 3;
      }
      assert byteCode == pre + Reset(0, lo, captureCount) + a;
    }

    /** No mandatory iteration. */
    method EmitOptional(start0: nat, lo: nat, max: nat, greedy: bool, check: bool)
      requires start0 <= |byteCode| && lo <= captureCount
      modifies `byteCode
      ensures byteCode == old(byteCode)[..start0]
                        + (Reset(0, lo, captureCount) + TailCode(old(byteCode)[start0..], 0, max, greedy, check))
    {
      hide U32, Jump, Reset, StarCode, UpToCode;
      ghost var pre, a := byteCode[..start0], byteCode[start0..];
      ghost var reset := Reset(0, lo, captureCount);
      var start := EmitReset(start0, lo);
      assert byteCode[..start] == pre + reset && byteCode[start..] == a;
      if max == 0 {
        byteCode := byteCode[..start];
      } else if max == 1 {
        InsertJump(start, Split(greedy), |byteCode| - start);
      } else if max == INT32_MAX {
        EmitStar(start, greedy, check);
      } else {
        EmitUpTo(start, greedy, max);
      }
      assert byteCode == pre + reset + TailCode(a, 0, max, greedy, check);
    }

    /** Exactly min iterations, min >= 2; returns where the atom has moved to. */
    method EmitRepeat(start: nat, min: nat) returns (start': nat)
      requires start <= |byteCode|
      modifies `byteCode
      ensures byteCode == old(byteCode)[..start] + RepeatCode(old(byteCode)[start..], min)
      ensures start' + (|old(byteCode)| - start) <= |byteCode|
      ensures byteCode[start'..start' + (|old(byteCode)| - start)] == old(byteCode)[start..]
    {
      ghost var pre, a := byteCode[..start], byteCode[start..];
      InsertJump(start, OP_PUSH_I32, min);
      start' := start + 5;
      EmitGoto(OP_LOOP, start');
      EmitOp(OP_DROP);
      assert byteCode == pre + Jump(OP_PUSH_I32, min) + a + Jump(OP_LOOP, -(|a| + 5)) + [OP_DROP];
      assert byteCode == pre + RepeatCode(a, min);
    }

    /** The optional iterations after mandatory ones, over a copy of the atom. */
    method EmitTail(start: nat, len: nat, min: nat, max: nat, greedy: bool, check: bool)
      requires start + len <= |byteCode| && min >= 1 && min <= max
      modifies `byteCode
      ensures byteCode == old(byteCode) + TailCode(old(byteCode)[start..start + len], min, max, greedy, check)
    {
      hide U32, Jump, StarCode, UpToCode;
      if max == INT32_MAX {
        CopyStar(start, len, greedy, check);
      } else if max > min {
        CopyUpTo(start, len, greedy, max - min);
      }
    }

    method CopyStar(start: nat, len: nat, greedy: bool, check: bool)
      requires start + len <= |byteCode|
      modifies `byteCode
      ensures byteCode == old(byteCode) + StarCode(old(byteCode)[start..start + len], greedy, check)
    {
      hide U32, Jump;
      ghost var before, a := byteCode, byteCode[start..start + len];
      var pos := |byteCode|;
      var dummy := EmitOpU32(Split(greedy), len + 5 + (if check then 1 else 0));
      if check { EmitOp(OP_PUSH_CHAR_POS); }
      assert byteCode[start..start + len] == a;
      PutSelf(start, len);
      if check { EmitGoto(OP_BNE_CHAR_POS, pos); } else { EmitGoto(OP_GOTO, pos); }
      assert byteCode == before + StarCode(a, greedy, check);
    }

    method CopyUpTo(start: nat, len: nat, greedy: bool, n: nat)
      requires start + len <= |byteCode|
      modifies `byteCode
      ensures byteCode == old(byteCode) + UpToCode(old(byteCode)[start..start + len], greedy, n)
    {
      hide U32, Jump;
      ghost var before, a := byteCode, byteCode[start..start + len];
      var dummy := EmitOpU32(OP_PUSH_I32, n);
      var pos := |byteCode|;
      dummy := EmitOpU32(Split(greedy), len + 5);
      assert byteCode[start..start + len] == a;
      PutSelf(start, len);
      EmitGoto(OP_LOOP, pos);
      EmitOp(OP_DROP);
      assert byteCode == before + UpToCode(a, greedy, n);
    }

    /** The quantifier section of re_parse_term, on the atom emitted from `start` on. */
    method EmitQuantifier(start0: nat, lo: nat, min: nat, max: nat, greedy: bool)
      requires start0 <= |byteCode| && lo <= captureCount && min <= max <= INT32_MAX && Whole(byteCode[start0..])
      modifies `byteCode
      ensures byteCode == old(byteCode)[..start0] + QuantCode(old(byteCode)[start0..], min, max, greedy, lo, captureCount)
    {
      hide Whole, SimpleCount, SimpleCode, TailCode, U32, Jump, Reset, CheckAdvance, QuantCode, LoopCode, MinCode, PlusForm;
      ghost var pre, a := byteCode[..start0], byteCode[start0..];
      var start := start0;
      if greedy && max > 0 {
        var count := IsSimpleQuantifier(byteCode[start..]);
        if count > 0 {
          EmitSimple(start, min, max, count);
          assert QuantCode(a, min, max, greedy, lo, captureCount) == SimpleCode(a, min, max, count) by { SimpleForm(a, min, max, lo, captureCount); }
          return;
        }
      }
      LoopForms(a, min, max, greedy, lo, captureCount);
      NotSimple(a, min, max, greedy, lo, captureCount);
      var check := false;
      if greedy {
        var advances := CheckAdvanceScan(byteCode[start..]);
        check := !advances;
      }
      var len := |byteCode| - start;
      if min == 0 {
        EmitOptional(start, lo, max, greedy, check);
      } else if min == 1 && max == INT32_MAX && !check {
        EmitGoto(Split(!greedy), start);
        assert byteCode == pre + (a + Jump(Split(!greedy), -(|a| + 5)));
        PlusFormIs(a, min, max, greedy);
      } else {
        if min != 1 {
          start := EmitRepeat(start, min);
        }
        ghost var first := MinCode(a, min);
        MinForms(a, min);
        PlusFormIs(a, min, max, greedy);
        assert byteCode == pre + first && byteCode[start..start + len] == a;
        EmitTail(start, len, min, max, greedy, check);
        assert byteCode == pre + (first + TailCode(a, min, max, greedy, check));
      }
    }

    // ---------- parsing ----------

    function Cur(p: nat): char {
      At(buf, p)
    }

    method ParseDigits(p0: nat) returns (v: nat, p: nat)
      requires p0 <= |buf|
      ensures (v, p) == Digits(buf, p0, 0)
    {
      v, p := 0, p0;
      while p < |buf| && IsDigit(buf[p])
        invariant p0 <= p <= |buf| && v <= INT32_MAX
        invariant Digits(buf, p0, 0) == Digits(buf, p, v)
      {
        v := v * 10 + (buf[p] as int - '0' as int);
        if v >= INT32_MAX { v := INT32_MAX; }
        p := p + 1;
      }
    }

    /** The repetition count after an atom. */
    method ParseSuffix(p0: nat) returns (r: Suffix)
      requires p0 <= |buf|
      ensures r == ReadSuffix(buf, p0)
    {
      hide Digits;
      var c := Cur(p0);
      if c == '*' { return Suffix(0, INT32_MAX, p0 + 1); }
      if c == '+' { return Suffix(1, INT32_MAX, p0 + 1); }
      if c == '?' { return Suffix(0, 1, p0 + 1); }
      if c != '{' || !IsDigit(Cur(p0 + 1)) { return NoSuffix; }
      var min, p := ParseDigits(p0 + 1);
      var max := min;
      if Cur(p) == ',' {
        p := p + 1;
        if IsDigit(Cur(p)) {
          max, p := ParseDigits(p);
          if max < min { return BadSuffix; }
        } else {
          max := INT32_MAX;
        }
      }
      if Cur(p) != '}' { return NoSuffix; }
      return Suffix(min, max, p + 1);
    }

    method CountLooksValid(p0: nat) returns (b: bool)
      requires p0 < |buf|
      ensures b == LooksLikeCount(buf, p0)
    {
      hide Digits;
      if !IsDigit(Cur(p0 + 1)) { return false; }
      var v, p := ParseDigits(p0 + 1);
      if Cur(p) == ',' {
        p := p + 1;
        if IsDigit(Cur(p)) { v, p := ParseDigits(p); }
      }
      return Cur(p) == '}';
    }

    /** The state after a step, against what the reader says of the text. */
    ghost predicate Follows(r: Parsed, st: Status, before: seq<Byte>)
      reads this
    {
      match r
      case Tree(n, pos, k) => st.Success? && byteCode == before + Code(n) && bufPtr == pos && captureCount == k
      case Rejected => st.SyntaxError?
      case Outside => st.Unsupported?
    }

    ghost predicate FollowsAtom(r: Atom, st: Status, quantifiable: bool, before: seq<Byte>)
      reads this
    {
      match r
      case Piece(n, pos, k, q) =>
        st.Success? && quantifiable == q && byteCode == before + Code(n) && bufPtr == pos && captureCount == k
      case NoPiece(outside) => if outside then st.Unsupported? else st.SyntaxError?
    }

    method EmitTest(t: Test)
      modifies `byteCode
      ensures byteCode == old(byteCode) + TestCode(t)
    {
      byteCode := byteCode + TestCode(t);
    }

    /** The code of an interval list. */
    method EmitPoints(points: seq<int>, p: nat) returns (st: Status)
      requires CharClass.Points(points)
      modifies `byteCode, `bufPtr
      ensures FollowsAtom(Listed(points, p, captureCount), st, true, old(byteCode))
    {
      hide CharClass.Points, CharClass.RangeCode, U32;
      bufPtr := p;
      var ok;
      ok, byteCode := CharClass.EmitRange(byteCode, points);
      st := if ok then Success else SyntaxError;
      NoCharacter();
    }

    lemma {:induction false} NoCharacter()
      ensures TestCode(Char(0xffff_ffff)) == [OP_CHAR32] + U32(-1)
    {
    }

    method ParseClass(p: nat) returns (st: Status, quantifiable: bool)
      requires p < |buf| && buf[p] == '['
      modifies this
      ensures FollowsAtom(ReadList(buf, p, old(captureCount)), st, quantifiable, old(byteCode))
    {
      hide ReadClass, ClassList, CharClass.Points;
      quantifiable := true;
      var ok, points, q := ParseCharClass(buf, p);
      if !ok { return SyntaxError, true; }
      ghost var r := ReadClass(buf, p);
      ListPoints(r.items, r.invert);
      st := EmitPoints(points, q);
    }

    /** A character, or an escape for several. */
    method ParsePlain(p: nat) returns (st: Status, quantifiable: bool)
      requires p < |buf|
      modifies this
      ensures FollowsAtom(ReadPlain(buf, p, old(captureCount)), st, quantifiable, old(byteCode))
    {
      hide ReadClassAtom, ClassList, CharClass.Points;
      quantifiable := true;
      var a := GetClassAtom(buf, p, false);
      if a.BadAtom? { return SyntaxError, true; }
      if a.One? {
        bufPtr := a.pos;
        EmitTest(Char(a.c));
        return Success, true;
      }
      var cr := InitCharRange(a.k);
      KindList(a.k, cr.points);
      ListPoints([Kind(a.k)], false);
      st := EmitPoints(cr.points, a.pos);
    }

    /** Legacy octal, behind a zero. */
    method ParseZero(p: nat) returns (v: nat, q: nat)
      requires p <= |buf|
      ensures (v, q) == ZeroEscape(buf, p)
    {
      q, v := p, 0;
      if IsOctal(Cur(q)) {
        v := Cur(q) as int - '0' as int;
        q := q + 1;
        if IsOctal(Cur(q)) {
          v := v * 8 + (Cur(q) as int - '0' as int);
          q := q + 1;
        }
      }
    }

    method ParseEscape(p: nat) returns (st: Status, quantifiable: bool)
      requires p < |buf|
      modifies this
      ensures FollowsAtom(ReadEscape(buf, p, old(captureCount)), st, quantifiable, old(byteCode))
    {
      hide ReadPlain, ZeroEscape;
      quantifiable := false;
      var c := Cur(p + 1);
      if c == 'b' || c == 'B' {
        bufPtr := p + 2;
        EmitTest(if c == 'b' then WordBoundary else NotWordBoundary);
        return Success, false;
      }
      if IsUncoveredEscape(c) { return Unsupported, false; }
      if c == '0' {
        var v;
        v, bufPtr := ParseZero(p + 2);
        EmitTest(Char(v));
        return Success, true;
      }
      st, quantifiable := ParsePlain(p);
    }

    /** The inside of a group and its closing parenthesis. */
    method ParseEnclosed(p: nat) returns (st: Status)
      requires p <= |buf|
      modifies this
      ensures Follows(Enclosed(buf, dotall, p, old(captureCount)), st, old(byteCode))
      decreases |buf| - p, 6
    {
      hide ReadDisjunction, Code;
      bufPtr := p;
      st := ParseDisjunction();
      if st.Success? {
        if Cur(bufPtr) != ')' { return SyntaxError; }
        bufPtr := bufPtr + 1;
      }
    }

    method ParseCapture(p: nat) returns (st: Status, quantifiable: bool)
      requires p < |buf| && Cur(p + 1) != '?'
      modifies this
      ensures FollowsAtom(ReadGroup(buf, dotall, p, old(captureCount)), st, quantifiable, old(byteCode))
      decreases |buf| - p, 0
    {
      hide ReadDisjunction, Enclosed, Code;
      ghost var before, r := byteCode, Enclosed(buf, dotall, p + 1, captureCount + 1);
      quantifiable := true;
      if captureCount >= CAPTURE_COUNT_MAX { return SyntaxError, true; }
      var index := captureCount;
      captureCount := captureCount + 1;
      EmitOpU8(OP_SAVE_START, index);
      ghost var open := byteCode;
      st := ParseEnclosed(p + 1);
      if st.Success? {
        assert byteCode == open + Code(r.n);
        EmitOpU8(OP_SAVE_END, index);
        CodeUnfolds(Capture(index, r.n));
        assert byteCode == before + Code(Capture(index, r.n));
      }
    }

    method ParseLookahead(p: nat, neg: bool) returns (st: Status)
      requires p + 3 <= |buf|
      modifies this
      ensures match Enclosed(buf, dotall, p + 3, old(captureCount))
              case Tree(n, pos, k) =>
                st.Success? && byteCode == old(byteCode) + Code(Look(n, neg)) && bufPtr == pos && captureCount == k
              case Rejected => st.SyntaxError?
              case Outside => st.Unsupported?
      decreases |buf| - p, 0
    {
      hide ReadDisjunction, Enclosed, Code, U32;
      ghost var before, r := byteCode, Enclosed(buf, dotall, p + 3, captureCount);
      var op := if neg then OP_NEGATIVE_LOOKAHEAD else OP_LOOKAHEAD;
      var pos := EmitOpU32(op, 0);
      ghost var open := byteCode;
      st := ParseEnclosed(p + 3);
      if st.Success? {
        ghost var body := Code(r.n);
        assert byteCode == open + body;
        EmitOp(OP_MATCH);
        // jump over the match once the body has succeeded
        ghost var tail := body + [OP_MATCH];
        assert byteCode == before + Jump(op, 0) + tail;
        ZeroOperand(before, op, tail, byteCode);
        PutU32(pos, |byteCode| - (pos + 4), before + [op], 4, tail);
        NoGap(before + [op] + U32(|body| + 1), tail);
        LookAssembled(before, op, body);
        CodeUnfolds(Look(r.n, neg));
      }
    }

    lemma {:induction false} LookAssembled(before: seq<Byte>, op: Byte, body: seq<Byte>)
      ensures before + [op] + U32(|body| + 1) + (body + [OP_MATCH]) == before + (Jump(op, |body| + 1) + body + [OP_MATCH])
    {
      hide U32;
    }

    lemma {:induction false} ZeroOperand(before: seq<Byte>, op: Byte, rest: seq<Byte>, all: seq<Byte>)
      requires all == before + Jump(op, 0) + rest
      ensures all == (before + [op]) + Gap(4) + rest
    {
      assert U32(0) == Gap(4);
    }

    method ParseGroup(p: nat) returns (st: Status, quantifiable: bool)
      requires p < |buf|
      modifies this
      ensures FollowsAtom(ReadGroup(buf, dotall, p, old(captureCount)), st, quantifiable, old(byteCode))
      decreases |buf| - p, 1
    {
      hide ReadDisjunction, Enclosed, Code;
      quantifiable := true;
      if Cur(p + 1) == '?' {
        var c := Cur(p + 2);
        if c == ':' {
          st := ParseEnclosed(p + 3);
        } else if c == '=' || c == '!' {
          st := ParseLookahead(p, c == '!');
        } else if c == '<' {
          st := Unsupported;
        } else {
          st := SyntaxError;
        }
      } else {
        st, quantifiable := ParseCapture(p);
      }
    }

    method ParseAtom(p: nat) returns (st: Status, quantifiable: bool)
      requires p < |buf|
      modifies this
      ensures FollowsAtom(ReadAtom(buf, dotall, p, old(captureCount)), st, quantifiable, old(byteCode))
      decreases |buf| - p, 2
    {
      hide ReadGroup, ReadEscape, LooksLikeCount, ReadPlain, ReadList;
      var c := buf[p];
      quantifiable := false;
      if c == '^' || c == '$' || c == '.' {
        bufPtr := p + 1;
        EmitTest(if c == '^' then LineStart else if c == '$' then LineEnd else if dotall then Any else Dot);
        return Success, c == '.';
      }
      if c == '*' || c == '+' || c == '?' { return SyntaxError, false; }
      if c == '{' {
        var count := CountLooksValid(p);
        if count { return SyntaxError, false; }
      }
      if c == '(' {
        st, quantifiable := ParseGroup(p);
      } else if c == '\\' {
        st, quantifiable := ParseEscape(p);
      } else if c == '[' {
        st, quantifiable := ParseClass(p);
      } else {
        st, quantifiable := ParsePlain(p);
      }
    }

    /** re_parse_term: an atom and its quantifier. */
    method ParseTerm() returns (st: Status)
      requires bufPtr < |buf|
      modifies this
      ensures Follows(ReadTerm(buf, dotall, old(bufPtr), old(captureCount)), st, old(byteCode))
      decreases |buf| - bufPtr, 3
    {
      hide ReadAtom, ReadSuffix, QuantCode;
      ghost var r := ReadAtom(buf, dotall, bufPtr, captureCount);
      var start, lo := |byteCode|, captureCount;
      var quantifiable;
      st, quantifiable := ParseAtom(bufPtr);
      if !st.Success? || !quantifiable { return; }
      assert byteCode[..start] == old(byteCode) && byteCode[start..] == Code(r.n);
      var suffix := ParseSuffix(bufPtr);
      match suffix
      case NoSuffix =>
      case BadSuffix => return SyntaxError;
      case Suffix(min, max, q) =>
        var greedy := Cur(q) != '?';
        bufPtr := if greedy then q else q + 1;
        CodeScan(r.n);
        EmitQuantifier(start, lo, min, max, greedy);
    }

    method ParseAlternative() returns (st: Status)
      requires bufPtr <= |buf|
      modifies this
      ensures Follows(ReadTerms(buf, dotall, Empty, old(bufPtr), old(captureCount)), st, old(byteCode))
      decreases |buf| - bufPtr, 4
    {
      hide ReadTerm, Code;
      assert Code(Empty) == [] by { CodeUnfolds(Empty); }
      ghost var n, r, before := Empty, ReadTerms(buf, dotall, Empty, bufPtr, captureCount), byteCode;
      while bufPtr < |buf| && buf[bufPtr] != '|' && buf[bufPtr] != ')'
        invariant old(bufPtr) <= bufPtr <= |buf| && WellFormed(n, captureCount)
        invariant byteCode == before + Code(n)
        invariant r == ReadTerms(buf, dotall, n, bufPtr, captureCount)
        decreases |buf| - bufPtr
      {
        ghost var term, here := ReadTerm(buf, dotall, bufPtr, captureCount), byteCode;
        ghost var k := captureCount;
        st := ParseTerm();
        if !st.Success? { return; }
        WellFormedMore(n, k, captureCount);
        CodeUnfolds(Cat(n, term.n));
        assert byteCode == before + (Code(n) + Code(term.n));
        n := Cat(n, term.n);
      }
      st := Success;
    }

    /** re_parse_disjunction: every `|` puts a split in front of all alternatives so far. */
    method ParseDisjunction() returns (st: Status)
      requires bufPtr <= |buf|
      modifies this
      ensures Follows(ReadDisjunction(buf, dotall, old(bufPtr), old(captureCount)), st, old(byteCode))
      decreases |buf| - bufPtr, 5
    {
      hide ReadTerms, Code;
      ghost var before, r := byteCode, ReadDisjunction(buf, dotall, bufPtr, captureCount);
      ghost var first := ReadTerms(buf, dotall, Empty, bufPtr, captureCount);
      var start := |byteCode|;
      st := ParseAlternative();
      if !st.Success? { return; }
      ghost var n := first.n;
      while Cur(bufPtr) == '|'
        invariant old(bufPtr) <= bufPtr <= |buf| && WellFormed(n, captureCount)
        invariant byteCode == before + Code(n) && st.Success?
        invariant r == ReadChoices(buf, dotall, n, bufPtr, captureCount)
        decreases |buf| - bufPtr
      {
        ghost var next := ReadTerms(buf, dotall, Empty, bufPtr + 1, captureCount);
        ghost var k := captureCount;
        bufPtr := bufPtr + 1;
        st := ParseChoice(start, before, n);
        if !st.Success? { return; }
        WellFormedMore(n, k, captureCount);
        n := Alt(n, next.n);
      }
    }

    /** One more alternative: split before, jump after, the new code, and the patched jump. */
    method ParseChoice(start: nat, ghost before: seq<Byte>, ghost n: Node) returns (st: Status)
      requires bufPtr <= |buf| && byteCode == before + Code(n) && start == |before|
      modifies this
      ensures match ReadTerms(buf, dotall, Empty, old(bufPtr), old(captureCount))
              case Tree(m, pos, k) =>
                st.Success? && byteCode == before + Code(Alt(n, m)) && bufPtr == pos && captureCount == k
              case Rejected => st.SyntaxError?
              case Outside => st.Unsupported?
      decreases |buf| - bufPtr, 5
    {
      hide ReadTerms, U32, Code;
      ghost var a, r := Code(n), ReadTerms(buf, dotall, Empty, bufPtr, captureCount);
      assert byteCode[..start] == before && byteCode[start..] == a;
      var len := |byteCode| - start;
      InsertJump(start, OP_SPLIT_NEXT_FIRST, len + 5);
      ghost var front := before + Jump(OP_SPLIT_NEXT_FIRST, len + 5) + a;
      var pos := EmitOpU32(OP_GOTO, 0);
      ghost var open := byteCode;
      st := ParseAlternative();
      if st.Success? {
        ghost var b := Code(r.n);
        assert byteCode == front + Jump(OP_GOTO, 0) + b;
        ZeroOperand(front, OP_GOTO, b, byteCode);
        len := |byteCode| - (pos + 4);
        PutU32(pos, len, front + [OP_GOTO], 4, b);
        NoGap(front + [OP_GOTO] + U32(len), b);
        AltAssembled(before, a, b);
        CodeUnfolds(Alt(n, r.n));
      }
    }

    lemma {:induction false} AltAssembled(before: seq<Byte>, a: seq<Byte>, b: seq<Byte>)
      ensures (before + Jump(OP_SPLIT_NEXT_FIRST, |a| + 5) + a) + [OP_GOTO] + U32(|b|) + b
           == before + (Jump(OP_SPLIT_NEXT_FIRST, |a| + 5) + a + Jump(OP_GOTO, |b|) + b)
    {
      hide U32;
    }
  }
}
