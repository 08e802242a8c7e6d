/** The bytes of compiled regular expressions: opcodes, little-endian operands, fragments. */
module RegexBytes {
  type Byte = x: int | 0 <= x < 256

  const OP_CHAR: Byte := 1
  const OP_CHAR32: Byte := 2
  const OP_DOT: Byte := 3
  const OP_ANY: Byte := 4
  const OP_LINE_START: Byte := 5
  const OP_LINE_END: Byte := 6
  const OP_GOTO: Byte := 7
  const OP_SPLIT_GOTO_FIRST: Byte := 8
  const OP_SPLIT_NEXT_FIRST: Byte := 9
  const OP_MATCH: Byte := 10
  const OP_SAVE_START: Byte := 11
  const OP_SAVE_END: Byte := 12
  const OP_SAVE_RESET: Byte := 13
  const OP_LOOP: Byte := 14
  const OP_PUSH_I32: Byte := 15
  const OP_DROP: Byte := 16
  const OP_WORD_BOUNDARY: Byte := 17
  const OP_NOT_WORD_BOUNDARY: Byte := 18
  const OP_RANGE: Byte := 21
  const OP_RANGE32: Byte := 22
  const OP_LOOKAHEAD: Byte := 23
  const OP_NEGATIVE_LOOKAHEAD: Byte := 24
  const OP_PUSH_CHAR_POS: Byte := 25
  const OP_BNE_CHAR_POS: Byte := 26
  const OP_SIMPLE_GREEDY_QUANT: Byte := 28

  const INT32_MAX: int := 0x7fff_ffff

  /** Size of an instruction with its operands (opcodes that are never emitted count as one); without its
      intervals in the case of a class. */
  function OpSize(op: Byte): (n: nat)
    ensures 1 <= n <= 17
  {
    if op == OP_CHAR || op == OP_SAVE_RESET || op == OP_RANGE || op == OP_RANGE32 then 3
    else if op == OP_SAVE_START || op == OP_SAVE_END then 2
    else if op == OP_SIMPLE_GREEDY_QUANT then 17
    else if op == OP_CHAR32 || op == OP_GOTO || op == OP_SPLIT_GOTO_FIRST || op == OP_SPLIT_NEXT_FIRST || op == OP_LOOP
         || op == OP_PUSH_I32 || op == OP_LOOKAHEAD || op == OP_NEGATIVE_LOOKAHEAD || op == OP_BNE_CHAR_POS then 5
    else 1
  }

  function U16(v: int): (s: seq<Byte>)
    ensures |s| == 2
  {
    [v % 256, v / 256 % 256]
  }

  /** Two's complement when v is negative. */
  function U32(v: int): (s: seq<Byte>)
    ensures |s| == 4
  {
    [v % 256, v / 256 % 256, v / 0x1_0000 % 256, v / 0x100_0000 % 256]
  }

  function GetU16(bc: seq<Byte>, p: nat): (v: nat)
    requires p + 2 <= |bc|
  {
    bc[p] as int + 256 * (bc[p + 1] as int)
  }

  function GetU32(bc: seq<Byte>, p: nat): (v: nat)
    requires p + 4 <= |bc|
  {
    bc[p] as int + 256 * (bc[p + 1] as int) + 0x1_0000 * (bc[p + 2] as int) + 0x100_0000 * (bc[p + 3] as int)
  }

  /** The operand cast to a signed int. */
  function GetI32(bc: seq<Byte>, p: nat): (v: int)
    requires p + 4 <= |bc|
  {
    var v := GetU32(bc, p);
    if v > INT32_MAX then v - 0x1_0000_0000 else v
  }

  /** Bytes of an interval in a class. */
  function IntervalSize(op: Byte): nat {
    if op == OP_RANGE then 4 else if op == OP_RANGE32 then 8 else 0
  }

  /** Size of the instruction at p. */
  function SizeAt(bc: seq<Byte>, p: nat): (n: nat)
    requires p < |bc|
    ensures n >= 1
  {
    var op := bc[p];
    if (op == OP_RANGE || op == OP_RANGE32) && p + 3 <= |bc| then 3 + GetU16(bc, p + 1) * IntervalSize(op) else OpSize(op)
  }

  /** An instruction has its size wherever it stands, when it is complete. */
  lemma {:induction false} SizeInside(pre: seq<Byte>, a: seq<Byte>, post: seq<Byte>, p: nat)
    requires p < |a| && p + SizeAt(a, p) <= |a|
    ensures SizeAt(pre + (a + post), |pre| + p) == SizeAt(a, p)
    ensures SizeAt(a + post, p) == SizeAt(a, p)
  {
    var c := pre + (a + post);
    forall i | p <= i < |a| ensures c[|pre| + i] == a[i] && (a + post)[i] == a[i] {
    }
  }

  lemma {:induction false} SizeDrop(c: seq<Byte>, k: nat, p: nat)
    requires k <= p < |c|
    ensures SizeAt(c[k..], p - k) == SizeAt(c, p)
  {
  }

  /** The fragment f stands at position p of bc. */
  ghost predicate Here(bc: seq<Byte>, p: int, f: seq<Byte>) {
    0 <= p && p + |f| <= |bc| && bc[p..p + |f|] == f
  }

  lemma {:induction false} HereSplit(bc: seq<Byte>, p: int, f: seq<Byte>, g: seq<Byte>)
    requires Here(bc, p, f + g)
    ensures Here(bc, p, f) && Here(bc, p + |f|, g)
  {
    assert (f + g)[..|f|] == f && (f + g)[|f|..] == g;
    assert bc[p..p + |f + g|][..|f|] == bc[p..p + |f|];
    assert bc[p..p + |f + g|][|f|..] == bc[p + |f|..p + |f| + |g|];
  }

  lemma {:induction false} GetPut32(bc: seq<Byte>, p: int, v: int)
    requires Here(bc, p, U32(v))
    ensures 0 <= v < 0x1_0000_0000 ==> GetU32(bc, p) == v
    ensures -INT32_MAX - 1 <= v <= INT32_MAX ==> GetI32(bc, p) == v
  {
    hide U32, Here;
    U32At(bc, p, v);
    Digits256(v);
    WordSign(v);
  }

  /** The bytes as they stand. */
  lemma {:induction false} U32At(bc: seq<Byte>, p: int, v: int)
    requires Here(bc, p, U32(v))
    ensures 0 <= p && p + 4 <= |bc| && bc[p] == v % 256 && bc[p + 1] == v / 256 % 256
    ensures bc[p + 2] == v / 0x1_0000 % 256 && bc[p + 3] == v / 0x100_0000 % 256
  {
    var f := U32(v);
    hide U32, Here;
    HereLong(bc, p, f);
    ByteAt(bc, p, f, 0);
    ByteAt(bc, p, f, 1);
    ByteAt(bc, p, f, 2);
    ByteAt(bc, p, f, 3);
    U32Bytes(v);
  }

  lemma {:induction false} HereLong(bc: seq<Byte>, p: int, f: seq<Byte>)
    requires Here(bc, p, f)
    ensures 0 <= p && p + |f| <= |bc|
  {
  }

  lemma {:induction false} U32Bytes(v: int)
    ensures U32(v)[0] == v % 256 && U32(v)[1] == v / 256 % 256
    ensures U32(v)[2] == v / 0x1_0000 % 256 && U32(v)[3] == v / 0x100_0000 % 256
  {
  }

  lemma {:induction false} WordSign(v: int)
    ensures 0 <= v < 0x1_0000_0000 ==> v % 0x1_0000_0000 == v
    ensures -INT32_MAX - 1 <= v < 0 ==> v % 0x1_0000_0000 == v + 0x1_0000_0000
  {
  }

  lemma {:induction false} ByteAt(bc: seq<Byte>, p: int, f: seq<Byte>, k: nat)
    requires Here(bc, p, f) && k < |f|
    ensures bc[p + k] == f[k]
  {
    assert bc[p + k] == bc[p..p + |f|][k];
  }

  /** The four bytes of v add up to v modulo 2^32. */
  lemma {:induction false} Digits256(v: int)
    ensures v % 256 + 256 * (v / 256 % 256) + 0x1_0000 * (v / 0x1_0000 % 256) + 0x100_0000 * (v / 0x100_0000 % 256)
         == v % 0x1_0000_0000
  {
    Digits64k(v);
    Digits64k(v / 0x1_0000);
    ByteAbove64k(v);
    Words(v);
  }

  lemma {:induction false} ByteAbove64k(v: int)
    ensures v / 0x1_0000 / 256 == v / 0x100_0000
  {
  }

  lemma {:induction false} Words(v: int)
    ensures v % 0x1_0000_0000 == v % 0x1_0000 + 0x1_0000 * (v / 0x1_0000 % 0x1_0000)
  {
  }

  lemma {:induction false} Digits64k(v: int)
    ensures v % 256 + 256 * (v / 256 % 256) == v % 0x1_0000
  {
  }

  lemma {:induction false} GetPut16(bc: seq<Byte>, p: int, v: int)
    requires Here(bc, p, U16(v)) && 0 <= v < 0x1_0000
    ensures GetU16(bc, p) == v
  {
    assert bc[p] == bc[p..p + 2][0] && bc[p + 1] == bc[p..p + 2][1];
  }

  /** An opcode with a 32-bit operand, decoded. */
  lemma {:induction false} Op32At(bc: seq<Byte>, p: int, op: Byte, v: int)
    requires Here(bc, p, [op] + U32(v)) && -INT32_MAX - 1 <= v <= INT32_MAX
    ensures 0 <= p && p + 5 <= |bc| && bc[p] == op
    ensures GetI32(bc, p + 1) == v && (v >= 0 ==> GetU32(bc, p + 1) == v)
  {
    HereSplit(bc, p, [op], U32(v));
    GetPut32(bc, p + 1, v);
    OpAt(bc, p, op);
  }

  lemma {:induction false} OpAt(bc: seq<Byte>, p: int, op: Byte)
    requires Here(bc, p, [op])
    ensures 0 <= p < |bc| && bc[p] == op
  {
    assert bc[p] == bc[p..p + 1][0];
  }
}
