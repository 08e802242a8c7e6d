/** The static analysis of the operand stack: a linear scan of the emitted bytes, which passes
    jumps by, knows the stack depth of every reachable machine state. */
module RegexStack {
  import opened RegexBytes
  import opened RegexSyntax
  import opened RegexMatch
  import opened RegexMachine
  import opened RegexScan
  import opened RegexSimple
  import opened RegexCorrect
  import opened RegexProgram

  /** What an instruction that falls through does to the depth. */
  function Delta(op: Byte): int {
    if op == OP_PUSH_I32 || op == OP_PUSH_CHAR_POS then 1
    else if op == OP_DROP || op == OP_BNE_CHAR_POS then -1
    else 0
  }

  function Rest(c: seq<Byte>): (r: seq<Byte>)
    requires c != []
    ensures |r| < |c|
  {
    if SizeAt(c, 0) <= |c| then c[SizeAt(c, 0)..] else []
  }

  /** An instruction, or the end of the code, starts at pos. */
  predicate Boundary(c: seq<Byte>, pos: int)
    decreases |c|
  {
    pos == 0 || (c != [] && SizeAt(c, 0) <= |c| && SizeAt(c, 0) <= pos && Boundary(Rest(c), pos - SizeAt(c, 0)))
  }

  /** The depth at pos, passing linearly over everything before. */
  function Depth(c: seq<Byte>, pos: int): int
    decreases |c|
  {
    if pos <= 0 || c == [] then 0 else Delta(c[0]) + Depth(Rest(c), pos - SizeAt(c, 0))
  }

  /** The greatest depth of the linear pass. */
  function Peak(c: seq<Byte>): nat
    decreases |c|
  {
    if c == [] then 0 else if Delta(c[0]) + Peak(Rest(c)) > 0 then Delta(c[0]) + Peak(Rest(c)) else 0
  }

  /** The least depth of the linear pass. */
  function Floor(c: seq<Byte>): int
    decreases |c|
  {
    if c == [] then 0 else if Delta(c[0]) + Floor(Rest(c)) < 0 then Delta(c[0]) + Floor(Rest(c)) else 0
  }

  lemma {:induction false} DepthRange(c: seq<Byte>, pos: int)
    requires Boundary(c, pos)
    ensures Floor(c) <= Depth(c, pos) <= Peak(c) && 0 <= pos <= |c|
    decreases |c|
  {
    if pos != 0 { DepthRange(Rest(c), pos - SizeAt(c, 0)); }
  }

  // ---------- concatenation ----------

  /** One instruction of the scan. */
  lemma {:induction false} BoundaryUnfold(c: seq<Byte>, pos: int, rest: int)
    requires c != [] && SizeAt(c, 0) <= |c| && pos == SizeAt(c, 0) + rest && rest >= 0
    ensures Boundary(c, pos) <==> Boundary(Rest(c), rest)
  {
    hide Delta, SizeAt;
  }

  lemma {:induction false} BoundaryEdge(c: seq<Byte>, pos: int)
    ensures Boundary(c, 0)
    ensures c != [] && pos != 0 && pos < SizeAt(c, 0) ==> !Boundary(c, pos)
    ensures c == [] && pos != 0 ==> !Boundary(c, pos)
  {
    hide Delta, SizeAt;
  }

  lemma {:induction false} FirstOfConcat(x: seq<Byte>, y: seq<Byte>)
    requires Whole(x) && x != []
    ensures SizeAt(x, 0) <= |x| && Whole(Rest(x)) && (x + y)[0] == x[0] && SizeAt(x + y, 0) == SizeAt(x, 0)
    ensures Rest(x + y) == Rest(x) + y && |x| == SizeAt(x, 0) + |Rest(x)|
  {
    hide Delta, SizeAt;
    SizeInside([], x, y, 0);
  }

  lemma {:induction false} BoundaryConcat(x: seq<Byte>, y: seq<Byte>, k: nat)
    requires Whole(x) && k <= |x|
    ensures Boundary(x + y, k) <==> Boundary(x, k)
    decreases |x|
  {
    hide Delta, SizeAt, Boundary, Whole, Rest;
    BoundaryEdge(x, k);
    BoundaryEdge(x + y, k);
    if x != [] {
      FirstOfConcat(x, y);
      if SizeAt(x, 0) <= k {
        var rest := k - SizeAt(x, 0);
        BoundaryConcat(Rest(x), y, rest);
        BoundaryUnfold(x, k, rest);
        BoundaryUnfold(x + y, k, rest);
      }
    }
  }

  lemma {:induction false} BoundaryAfter(x: seq<Byte>, y: seq<Byte>, k: nat)
    requires Whole(x)
    ensures Boundary(x + y, |x| + k) <==> Boundary(y, k)
    ensures Boundary(x, |x|)
    decreases |x|
  {
    hide Delta, SizeAt, Boundary, Whole, Rest;
    if x == [] {
      BoundaryEdge(x, 0);
      assert x + y == y;
    } else {
      FirstOfConcat(x, y);
      BoundaryAfter(Rest(x), y, k);
      BoundaryUnfold(x, |x|, |Rest(x)|);
      BoundaryUnfold(x + y, |x| + k, |Rest(x)| + k);
    }
  }

  lemma {:induction false} DepthUnfold(c: seq<Byte>, pos: int, rest: int)
    requires c != [] && pos > 0 && pos == SizeAt(c, 0) + rest
    ensures Depth(c, pos) == Delta(c[0]) + Depth(Rest(c), rest)
  {
    hide Delta, SizeAt;
  }

  lemma {:induction false} DepthAfter(x: seq<Byte>, y: seq<Byte>, k: nat)
    requires Whole(x)
    ensures Depth(x + y, |x| + k) == Depth(x, |x|) + Depth(y, k)
    decreases |x|
  {
    hide Delta, SizeAt, Depth;
    if x == [] {
      assert x + y == y;
      DepthStart(x, 0);
    } else {
      FirstOfConcat(x, y);
      DepthAfter(Rest(x), y, k);
      DepthUnfold(x + y, |x| + k, |Rest(x)| + k);
      DepthUnfold(x, |x|, |Rest(x)|);
    }
  }

  lemma {:induction false} DepthBefore(x: seq<Byte>, y: seq<Byte>, k: int)
    requires Whole(x) && k <= |x|
    ensures Depth(x + y, k) == Depth(x, k)
    decreases |x|
  {
    hide Delta, SizeAt, Depth, Whole, Rest;
    if k <= 0 {
      DepthStart(x, k);
      DepthStart(x + y, k);
    } else {
      FirstOfConcat(x, y);
      DepthBefore(Rest(x), y, k - SizeAt(x, 0));
      DepthUnfold(x, k, k - SizeAt(x, 0));
      DepthUnfold(x + y, k, k - SizeAt(x, 0));
    }
  }

  lemma {:induction false} FloorConcat(x: seq<Byte>, y: seq<Byte>)
    requires Whole(x)
    ensures Floor(x + y) == if Depth(x, |x|) + Floor(y) < Floor(x) then Depth(x, |x|) + Floor(y) else Floor(x)
    decreases |x|
  {
    hide Delta, SizeAt;
    if x == [] {
      assert x + y == y;
    } else {
      FirstOfConcat(x, y);
      FloorConcat(Rest(x), y);
    }
  }

  lemma {:induction false} NextBoundary(c: seq<Byte>, pos: int)
    requires Boundary(c, pos) && 0 <= pos < |c| && pos + SizeAt(c, pos) <= |c|
    ensures Boundary(c, pos + SizeAt(c, pos))
    ensures Depth(c, pos + SizeAt(c, pos)) == Depth(c, pos) + Delta(c[pos])
    decreases |c|
  {
    hide Delta, SizeAt, Boundary, Depth;
    var op := SizeAt(c, 0);
    BoundaryEdge(c, pos);
    if pos == 0 {
      BoundaryEdge(Rest(c), 0);
      BoundaryUnfold(c, op, 0);
      DepthStart(c, 0);
      DepthStart(Rest(c), 0);
      DepthUnfold(c, op, 0);
    } else {
      var next := SizeAt(c, pos);
      InsideRest(c, pos);
      assert c[pos] == Rest(c)[pos - op];
      SizeDrop(c, op, pos);
      BoundaryUnfold(c, pos, pos - op);
      NextBoundary(Rest(c), pos - op);
      BoundaryUnfold(c, pos + next, pos + next - op);
      DepthUnfold(c, pos, pos - op);
      DepthUnfold(c, pos + next, pos + next - op);
    }
  }

  lemma {:induction false} InsideRest(c: seq<Byte>, pos: int)
    requires Boundary(c, pos) && 0 < pos < |c|
    ensures SizeAt(c, 0) <= |c| && SizeAt(c, 0) <= pos && |Rest(c)| == |c| - SizeAt(c, 0)
  {
    hide Delta, SizeAt;
  }

  // ---------- jumps ----------

  predicate IsJumpOp(op: Byte) {
    op == OP_GOTO || op == OP_SPLIT_GOTO_FIRST || op == OP_SPLIT_NEXT_FIRST || op == OP_LOOP
    || op == OP_LOOKAHEAD || op == OP_NEGATIVE_LOOKAHEAD || op == OP_BNE_CHAR_POS
  }

  /** Where the instruction at pos may jump to. */
  function Target(c: seq<Byte>, pos: int): int
    requires 0 <= pos < |c| && pos + SizeAt(c, pos) <= |c| && (IsJumpOp(c[pos]) || c[pos] == OP_SIMPLE_GREEDY_QUANT)
  {
    pos + SizeAt(c, pos) + GetI32(c, pos + 1)
  }

  /** A jump lands on an instruction of the depth it arrives with. */
  predicate JumpOk(c: seq<Byte>, pos: int) {
    0 <= pos < |c| && pos + SizeAt(c, pos) <= |c| &&
    (IsJumpOp(c[pos]) || c[pos] == OP_SIMPLE_GREEDY_QUANT ==>
       Boundary(c, Target(c, pos)) && Depth(c, Target(c, pos)) == Depth(c, pos) + Delta(c[pos]))
  }

  ghost predicate All(c: seq<Byte>, lo: int, hi: int) {
    forall pos :: lo <= pos < hi && Boundary(c, pos) ==> JumpOk(c, pos)
  }

  ghost predicate Closed(c: seq<Byte>) {
    Whole(c) && All(c, 0, |c|)
  }

  lemma {:induction false} Assoc(c: seq<Byte>, x: seq<Byte>, y: seq<Byte>, z: seq<Byte>)
    requires c == x + y + z
    ensures c == x + (y + z)
  {
  }

  /** A closed piece stays closed inside any code. */
  lemma {:induction false} AllEmbed(c: seq<Byte>, pre: seq<Byte>, a: seq<Byte>, post: seq<Byte>)
    requires c == pre + a + post && Whole(pre) && Closed(a)
    ensures All(c, |pre|, |pre| + |a|)
  {
    hide Boundary, Whole, JumpOk;
    Assoc(c, pre, a, post);
    forall pos | |pre| <= pos < |pre| + |a| && Boundary(c, pos) ensures JumpOk(c, pos) {
      JumpInsideAt(c, pre, a, post, pos, pos - |pre|);
    }
  }

  lemma {:induction false} JumpInsideAt(c: seq<Byte>, pre: seq<Byte>, a: seq<Byte>, post: seq<Byte>, pos: int, k: int)
    requires c == pre + (a + post) && Whole(pre) && Closed(a)
    requires pos == |pre| + k && 0 <= k < |a| && Boundary(c, pos)
    ensures JumpOk(c, pos)
  {
    hide *;
    JumpInside(c, pre, a, post, k);
  }

  lemma {:induction false} JumpInside(c: seq<Byte>, pre: seq<Byte>, a: seq<Byte>, post: seq<Byte>, k: int)
    requires c == pre + (a + post) && Whole(pre) && Closed(a)
    requires 0 <= k < |a| && Boundary(c, |pre| + k)
    ensures JumpOk(c, |pre| + k)
  {
    hide *;
    BoundaryInside(pre, a, post, k);
    JumpAt(a, k);
    JumpEmbed(c, pre, a, post, k);
  }

  lemma {:induction false} JumpAt(c: seq<Byte>, pos: int)
    requires Closed(c) && Boundary(c, pos) && 0 <= pos < |c|
    ensures JumpOk(c, pos)
  {
    hide Boundary, Whole, JumpOk;
  }

  lemma {:induction false} BoundaryInside(pre: seq<Byte>, a: seq<Byte>, post: seq<Byte>, k: int)
    requires Whole(pre) && Closed(a) && 0 <= k <= |a|
    ensures Whole(a) && (Boundary(pre + (a + post), |pre| + k) <==> Boundary(a, k))
  {
    hide Boundary, Whole;
    BoundaryAfter(pre, a + post, k);
    BoundaryConcat(a, post, k);
  }

  lemma {:induction false} JumpEmbed(c: seq<Byte>, pre: seq<Byte>, a: seq<Byte>, post: seq<Byte>, k: int)
    requires c == pre + (a + post) && Whole(pre) && Whole(a) && 0 <= k < |a| && JumpOk(a, k)
    ensures JumpOk(c, |pre| + k)
  {
    hide Boundary, Depth, Whole, SizeAt, Delta, GetI32, IsJumpOp, Target;
    assert c[|pre| + k] == a[k];
    SizeInside(pre, a, post, k);
    if IsJumpOp(a[k]) || a[k] == OP_SIMPLE_GREEDY_QUANT {
      TargetInside(c, pre, a, post, k);
      TargetRange(a, k);
      DepthInside(pre, a, post, k);
      DepthInside(pre, a, post, Target(a, k));
    }
  }

  lemma {:induction false} TargetInside(c: seq<Byte>, pre: seq<Byte>, a: seq<Byte>, post: seq<Byte>, k: int)
    requires c == pre + (a + post) && 0 <= k < |a| && k + SizeAt(a, k) <= |a|
    requires IsJumpOp(a[k]) || a[k] == OP_SIMPLE_GREEDY_QUANT
    ensures |pre| + k + SizeAt(c, |pre| + k) <= |c| && c[|pre| + k] == a[k]
    ensures Target(c, |pre| + k) == |pre| + Target(a, k)
  {
    assert c[|pre| + k] == a[k];
    OperandInside(c, pre, a, post, k);
    hide GetI32, GetU32;
  }

  lemma {:induction false} TargetRange(a: seq<Byte>, k: int)
    requires 0 <= k < |a| && k + SizeAt(a, k) <= |a| && (IsJumpOp(a[k]) || a[k] == OP_SIMPLE_GREEDY_QUANT)
    requires Boundary(a, Target(a, k))
    ensures 0 <= Target(a, k) <= |a|
  {
    hide Target, SizeAt, IsJumpOp;
    DepthRange(a, Target(a, k));
  }

  lemma {:induction false} DepthInside(pre: seq<Byte>, a: seq<Byte>, post: seq<Byte>, k: int)
    requires Whole(pre) && Whole(a) && 0 <= k <= |a|
    ensures Depth(pre + (a + post), |pre| + k) == Depth(pre, |pre|) + Depth(a, k)
    ensures Boundary(a, k) ==> Boundary(pre + (a + post), |pre| + k)
  {
    hide Depth, Boundary, Whole, SizeAt, Delta;
    DepthAfter(pre, a + post, k);
    DepthBefore(a, post, k);
    BoundaryAfter(pre, a + post, k);
    BoundaryConcat(a, post, k);
  }

  lemma {:induction false} OperandInside(c: seq<Byte>, pre: seq<Byte>, a: seq<Byte>, post: seq<Byte>, k: int)
    requires c == pre + (a + post) && 0 <= k && k + 5 <= |a|
    ensures GetI32(c, |pre| + k + 1) == GetI32(a, k + 1)
  {
    forall i | k <= i < k + 5 ensures c[|pre| + i] == a[i] {
    }
  }

  /** A single instruction of the code. */
  lemma {:induction false} AllOne(c: seq<Byte>, pre: seq<Byte>, i: seq<Byte>, post: seq<Byte>)
    requires c == pre + i + post && Whole(pre) && i != [] && |i| == SizeAt(i, 0)
    requires JumpOk(c, |pre|)
    ensures All(c, |pre|, |pre| + |i|)
  {
    hide Whole, JumpOk, Boundary;
    Assoc(c, pre, i, post);
    assert (i + post)[0] == i[0];
    forall pos | |pre| <= pos < |pre| + |i| && Boundary(c, pos) ensures JumpOk(c, pos) {
      NotInsideAt(pre, i + post, pos, pos - |pre|);
    }
  }

  lemma {:induction false} NotInsideAt(pre: seq<Byte>, c: seq<Byte>, pos: int, k: nat)
    requires Whole(pre) && c != [] && pos == |pre| + k && Boundary(pre + c, pos) && k < SizeAt(c, 0)
    ensures k == 0
  {
    hide *;
    BoundaryAfter(pre, c, k);
    NotInside(c, k);
  }

  lemma {:induction false} NotInside(c: seq<Byte>, pos: int)
    requires c != [] && Boundary(c, pos) && pos < SizeAt(c, 0)
    ensures pos == 0
  {
  }

  lemma {:induction false} AllJoin(c: seq<Byte>, lo: int, mid: int, hi: int)
    requires All(c, lo, mid) && All(c, mid, hi)
    ensures All(c, lo, hi)
  {
    hide Boundary, JumpOk;
  }

  /** Instructions that never jump need no check. */
  lemma {:induction false} NoJump(c: seq<Byte>, pre: seq<Byte>, i: seq<Byte>, post: seq<Byte>)
    requires c == pre + i + post && i != [] && |i| == SizeAt(i, 0)
    requires !IsJumpOp(i[0]) && i[0] != OP_SIMPLE_GREEDY_QUANT
    ensures JumpOk(c, |pre|)
  {
    assert c[|pre|] == i[0];
  }

  lemma {:induction false} JumpTo(c: seq<Byte>, pre: seq<Byte>, op: Byte, v: int, post: seq<Byte>)
    requires c == pre + Jump(op, v) + post && IsJumpOp(op) && InRange(v)
    requires Boundary(c, |pre| + 5 + v) && Depth(c, |pre| + 5 + v) == Depth(c, |pre|) + Delta(op)
    ensures JumpOk(c, |pre|)
  {
    hide Boundary, Depth, GetI32, GetU32;
    assert c[|pre|..|pre| + |Jump(op, v)|] == Jump(op, v);
    Op32At(c, |pre|, op, v);
  }

  // ---------- emitted code ----------

  /** A closed piece that leaves the depth as it found it and never goes below it. */
  ghost predicate Neutral(c: seq<Byte>) {
    Closed(c) && Depth(c, |c|) == 0 && Floor(c) == 0
  }

  lemma {:induction false} NeutralConcat(x: seq<Byte>, y: seq<Byte>)
    requires Neutral(x) && Neutral(y)
    ensures Neutral(x + y)
  {
    hide Depth, Floor, Whole, All, FirstEffect, SimpleCount;
    ScanConcat(x, y);
    DepthAfter(x, y, |y|);
    FloorConcat(x, y);
    NothingScan();
    assert x + y == [] + x + y && x + y == x + y + [];
    AllEmbed(x + y, [], x, y);
    AllEmbed(x + y, x, y, []);
    AllJoin(x + y, 0, |x|, |x + y|);
  }

  lemma {:induction false} DepthOne(i: seq<Byte>)
    requires i != [] && |i| == SizeAt(i, 0)
    ensures Whole(i) && Depth(i, |i|) == Delta(i[0]) && Floor(i) == if Delta(i[0]) < 0 then -1 else 0
  {
    assert Rest(i) == [];
    OneInstruction(i);
  }

  lemma {:induction false} NeutralNothing()
    ensures Neutral([])
  {
  }

  lemma {:induction false} NeutralOne(i: seq<Byte>)
    requires i != [] && |i| == SizeAt(i, 0) && !IsJumpOp(i[0]) && i[0] != OP_SIMPLE_GREEDY_QUANT && Delta(i[0]) == 0
    ensures Neutral(i)
  {
    hide Depth, Floor, Whole, Boundary;
    DepthOne(i);
    NothingScan();
    assert i == [] + i + [];
    NoJump(i, [], i, []);
    AllOne(i, [], i, []);
  }

  /** Depths and boundaries of a piece between a head and a tail. */
  lemma {:induction false} Framed(c: seq<Byte>, head: seq<Byte>, a: seq<Byte>, tail: seq<Byte>)
    requires c == head + a + tail && Whole(head) && Neutral(a) && Whole(tail)
    ensures Whole(c) && Boundary(c, 0) && Depth(c, 0) == 0 && Boundary(c, |c|)
    ensures Boundary(c, |head|) && Depth(c, |head|) == Depth(head, |head|)
    ensures Boundary(c, |head| + |a|) && Depth(c, |head| + |a|) == Depth(head, |head|)
    ensures Depth(c, |c|) == Depth(head, |head|) + Depth(tail, |tail|)
    ensures Floor(head) == 0 && Floor(tail) + Depth(head, |head|) >= 0 && Depth(head, |head|) >= 0 ==> Floor(c) == 0
    ensures All(c, |head|, |head| + |a|)
  {
    hide *;
    NeutralParts(a);
    AllEmbed(c, head, a, tail);
    Assoc(c, head, a, tail);
    FramedDepth(c, head, a, tail);
    FramedFloor(c, head, a, tail);
    DepthStart(c, 0);
    WholeEnd(c);
  }

  lemma {:induction false} NeutralParts(a: seq<Byte>)
    requires Neutral(a)
    ensures Closed(a) && Whole(a) && Boundary(a, |a|) && Depth(a, |a|) == 0 && Floor(a) == 0
  {
    hide Depth, Floor, Whole, Boundary, All;
    WholeEnd(a);
  }

  lemma {:induction false} FramedDepth(c: seq<Byte>, head: seq<Byte>, a: seq<Byte>, tail: seq<Byte>)
    requires c == head + (a + tail) && Whole(head) && Neutral(a) && Whole(tail)
    ensures Boundary(c, |head|) && Depth(c, |head|) == Depth(head, |head|)
    ensures Boundary(c, |head| + |a|) && Depth(c, |head| + |a|) == Depth(head, |head|)
  {
    hide *;
    NeutralParts(a);
    DepthInside(head, a, tail, 0);
    DepthInside(head, a, tail, |a|);
    DepthStart(a, 0);
  }

  lemma {:induction false} WholeEnd(c: seq<Byte>)
    requires Whole(c)
    ensures Boundary(c, |c|)
  {
    BoundaryAfter(c, [], 0);
  }

  lemma {:induction false} FramedFloor(c: seq<Byte>, head: seq<Byte>, a: seq<Byte>, tail: seq<Byte>)
    requires c == head + (a + tail) && Whole(head) && Neutral(a) && Whole(tail)
    ensures Whole(c) && Depth(c, |c|) == Depth(head, |head|) + Depth(tail, |tail|)
    ensures Floor(head) == 0 && Floor(tail) + Depth(head, |head|) >= 0 && Depth(head, |head|) >= 0 ==> Floor(c) == 0
  {
    hide Depth, Floor, Whole, Boundary, All;
    WholeConcat(a, tail);
    FloorConcat(a, tail);
    FloorBelow(tail);
    WholeConcat(head, a + tail);
    FloorConcat(head, a + tail);
  }

  lemma {:induction false} WholeConcat(x: seq<Byte>, y: seq<Byte>)
    requires Whole(x) && Whole(y)
    ensures Whole(x + y) && Depth(x + y, |x + y|) == Depth(x, |x|) + Depth(y, |y|)
  {
    hide Depth, Whole, FirstEffect, SimpleCount;
    ScanConcat(x, y);
    DepthAfter(x, y, |y|);
  }

  lemma {:induction false} DepthStart(c: seq<Byte>, k: int)
    requires k <= 0
    ensures Depth(c, k) == 0 && (k == 0 ==> Boundary(c, k))
  {
  }

  lemma {:induction false} FloorBelow(c: seq<Byte>)
    ensures Floor(c) <= 0
  {
  }

  lemma {:induction false} TwoInstructions(i: seq<Byte>, j: seq<Byte>)
    requires i != [] && |i| == SizeAt(i, 0) && j != [] && |j| == SizeAt(j, 0)
    ensures Whole(i + j) && Depth(i + j, |i + j|) == Delta(i[0]) + Delta(j[0])
    ensures Delta(i[0]) >= 0 && Delta(j[0]) >= 0 ==> Floor(i + j) == 0
    ensures Delta(i[0]) >= 0 && Delta(j[0]) == -1 ==> Floor(i + j) == if Delta(i[0]) == 0 then -1 else 0
  {
    hide Depth, Floor, Whole;
    DepthOne(i);
    DepthOne(j);
    ScanConcat(i, j);
    DepthAfter(i, j, |j|);
    FloorConcat(i, j);
  }

  /** Two instructions in a row. */
  lemma {:induction false} AllTwo(c: seq<Byte>, pre: seq<Byte>, i: seq<Byte>, j: seq<Byte>, post: seq<Byte>)
    requires c == pre + (i + j) + post && Whole(pre)
    requires i != [] && |i| == SizeAt(i, 0) && j != [] && |j| == SizeAt(j, 0)
    requires JumpOk(c, |pre|) && JumpOk(c, |pre| + |i|)
    ensures All(c, |pre|, |pre| + |i + j|)
  {
    hide Whole, JumpOk, Boundary, All, FirstEffect, SimpleCount, SizeAt;
    assert c == pre + i + (j + post) && c == (pre + i) + j + post;
    OneInstruction(i);
    ScanConcat(pre, i);
    AllOne(c, pre, i, j + post);
    AllOne(c, pre + i, j, post);
    AllJoin(c, |pre|, |pre| + |i|, |pre| + |i + j|);
  }

  /** A neutral piece in a frame whose own instructions are checked. */
  lemma {:induction false} NeutralFrame(c: seq<Byte>, head: seq<Byte>, a: seq<Byte>, tail: seq<Byte>)
    requires c == head + a + tail && Whole(head) && Neutral(a) && Whole(tail)
    requires Floor(head) == 0 && Floor(tail) + Depth(head, |head|) >= 0 && Depth(head, |head|) >= 0
    requires Depth(head, |head|) + Depth(tail, |tail|) == 0
    requires All(c, 0, |head|) && All(c, |head| + |a|, |c|)
    ensures Neutral(c)
  {
    hide Depth, Floor, Whole, Boundary, All;
    Framed(c, head, a, tail);
    AllJoin(c, 0, |head|, |head| + |a|);
    AllJoin(c, 0, |head| + |a|, |c|);
  }

  lemma {:induction false} FramePrefix(c: seq<Byte>, head: seq<Byte>, a: seq<Byte>, tail: seq<Byte>)
    requires c == head + a + tail && Whole(head) && Neutral(a)
    ensures Whole(head + a) && c == (head + a) + tail + [] && c == [] + head + (a + tail) && Whole([])
  {
    hide FirstEffect, SimpleCount, Neutral, Whole;
    NeutralParts(a);
    NothingScan();
    ScanConcat(head, a);
  }

  /** One instruction before and one after. */
  lemma {:induction false} NeutralBetween(c: seq<Byte>, i: seq<Byte>, a: seq<Byte>, j: seq<Byte>)
    requires c == i + a + j && Neutral(a)
    requires i != [] && |i| == SizeAt(i, 0) && j != [] && |j| == SizeAt(j, 0)
    requires JumpOk(c, 0) && JumpOk(c, |i| + |a|)
    requires Delta(i[0]) >= 0 && Delta(i[0]) + Delta(j[0]) == 0
    ensures Neutral(c)
  {
    hide Depth, Floor, Whole, Boundary, All, JumpOk, SizeAt, Neutral;
    DepthOne(i);
    DepthOne(j);
    FramePrefix(c, i, a, j);
    AllOne(c, [], i, a + j);
    AllOne(c, i + a, j, []);
    NeutralFrame(c, i, a, j);
  }

  lemma {:induction false} StarStack(a: seq<Byte>, greedy: bool)
    requires Neutral(a) && |StarCode(a, greedy, false)| <= INT32_MAX
    ensures Neutral(StarCode(a, greedy, false))
  {
    hide Depth, Floor, Whole, Boundary, All, JumpOk, U32, Neutral;
    var c := StarCode(a, greedy, false);
    var split, back := Jump(Split(greedy), |a| + 5), Jump(OP_GOTO, -(|a| + 10));
    DepthOne(split);
    DepthOne(back);
    Framed(c, split, a, back);
    FramePrefix(c, split, a, back);
    JumpTo(c, [], Split(greedy), |a| + 5, a + back);
    JumpTo(c, split + a, OP_GOTO, -(|a| + 10), []);
    NeutralBetween(c, split, a, back);
  }

  /** The checked loop: the position pushed before the atom is popped by the jump back. */
  lemma {:induction false} CheckedStarStack(a: seq<Byte>, greedy: bool)
    requires Neutral(a) && |StarCode(a, greedy, true)| <= INT32_MAX
    ensures Neutral(StarCode(a, greedy, true))
  {
    hide Depth, Floor, Whole, Boundary, All, JumpOk, U32, Neutral;
    var c := StarCode(a, greedy, true);
    var split, push, back := Jump(Split(greedy), |a| + 6), [OP_PUSH_CHAR_POS], Jump(OP_BNE_CHAR_POS, -(|a| + 11));
    var head := split + push;
    TwoInstructions(split, push);
    DepthOne(split);
    DepthOne(back);
    Framed(c, head, a, back);
    FramePrefix(c, head, a, back);
    assert c == [] + split + (push + a + back) && c == split + push + (a + back);
    JumpTo(c, [], Split(greedy), |a| + 6, push + a + back);
    NoJump(c, split, push, a + back);
    JumpTo(c, head + a, OP_BNE_CHAR_POS, -(|a| + 11), []);
    AllTwo(c, [], split, push, a + back);
    AllOne(c, head + a, back, []);
    NeutralFrame(c, head, a, back);
  }

  lemma {:induction false} RepeatStack(a: seq<Byte>, n: nat)
    requires Neutral(a) && |RepeatCode(a, n)| <= INT32_MAX
    ensures Neutral(RepeatCode(a, n))
  {
    hide Depth, Floor, Whole, Boundary, All, JumpOk, U32, Neutral;
    var c := RepeatCode(a, n);
    var push, back, drop := Jump(OP_PUSH_I32, n), Jump(OP_LOOP, -(|a| + 5)), [OP_DROP];
    var tail := back + drop;
    TwoInstructions(back, drop);
    DepthOne(push);
    DepthOne(back);
    assert c == push + a + tail;
    Framed(c, push, a, tail);
    FramePrefix(c, push, a, tail);
    assert c == (push + a) + back + drop && c == (push + a + back) + drop + [];
    NoJump(c, [], push, a + tail);
    JumpTo(c, push + a, OP_LOOP, -(|a| + 5), drop);
    NoJump(c, push + a + back, drop, []);
    AllOne(c, [], push, a + tail);
    AllTwo(c, push + a, back, drop, []);
    NeutralFrame(c, push, a, tail);
  }

  lemma {:induction false} UpToStack(a: seq<Byte>, greedy: bool, n: nat)
    requires Neutral(a) && |UpToCode(a, greedy, n)| <= INT32_MAX
    ensures Neutral(UpToCode(a, greedy, n))
  {
    hide Depth, Floor, Whole, Boundary, All, JumpOk, U32, Neutral;
    var c := UpToCode(a, greedy, n);
    var push, split := Jump(OP_PUSH_I32, n), Jump(Split(greedy), |a| + 5);
    var back, drop := Jump(OP_LOOP, -(|a| + 10)), [OP_DROP];
    var head, tail := push + split, back + drop;
    TwoInstructions(push, split);
    TwoInstructions(back, drop);
    assert c == head + a + tail;
    Framed(c, head, a, tail);
    UpToPlaces(c, push, split, a, back, drop);
    FramePrefix(c, head, a, tail);
    NoJump(c, [], push, split + a + tail);
    JumpTo(c, push, Split(greedy), |a| + 5, a + tail);
    JumpTo(c, head + a, OP_LOOP, -(|a| + 10), drop);
    NoJump(c, head + a + back, drop, []);
    AllTwo(c, [], push, split, a + tail);
    AllTwo(c, head + a, back, drop, []);
    NeutralFrame(c, head, a, tail);
  }

  /** The two places the counted loop jumps to. */
  lemma {:induction false} UpToPlaces(c: seq<Byte>, push: seq<Byte>, split: seq<Byte>, a: seq<Byte>, back: seq<Byte>,
                                      drop: seq<Byte>)
    requires c == push + split + a + (back + drop) && Neutral(a)
    requires |push| == 5 && push[0] == OP_PUSH_I32 && |split| == 5 && SizeAt(split, 0) == 5 && Delta(split[0]) == 0
    requires |back| == 5 && back[0] == OP_LOOP && drop == [OP_DROP]
    ensures c == [] + push + (split + a + (back + drop)) && c == push + split + (a + (back + drop))
    ensures c == (push + split + a) + back + drop && c == (push + split + a + back) + drop + []
    ensures Boundary(c, 5) && Depth(c, 5) == 1 && Boundary(c, |a| + 15) && Depth(c, |a| + 15) == 1
  {
    hide Depth, Floor, Whole, Boundary, All, JumpOk, Neutral;
    TwoInstructions(push, split);
    TwoInstructions(back, drop);
    Framed(c, push + split, a, back + drop);
    DepthStart(c, 0);
    assert c[0] == push[0] && c[|a| + 10] == back[0];
    NextBoundary(c, 0);
    NextBoundary(c, |a| + 10);
  }

  /** An optional piece: a split over it. */
  lemma {:induction false} OptionalStack(a: seq<Byte>, greedy: bool)
    requires Neutral(a) && |a| + 5 <= INT32_MAX
    ensures Neutral(Jump(Split(greedy), |a|) + a)
  {
    hide Depth, Floor, Whole, Boundary, All, JumpOk, U32, Neutral;
    var split := Jump(Split(greedy), |a|);
    var c := split + a;
    DepthOne(split);
    NothingScan();
    assert c == split + a + [] && c == [] + split + a;
    Framed(c, split, a, []);
    JumpTo(c, [], Split(greedy), |a|, a);
    AllOne(c, [], split, a);
    NoDepth();
    AllNone(c, |c|);
    NeutralFrame(c, split, a, []);
  }

  lemma {:induction false} AllNone(c: seq<Byte>, at: int)
    ensures All(c, at, at)
  {
  }

  lemma {:induction false} NoDepth()
    ensures Depth([], 0) == 0 && Floor([]) == 0 && Peak([]) == 0
  {
  }

  /** The mandatory-first loop: the atom and a split back to it. */
  lemma {:induction false} PlusStack(a: seq<Byte>, greedy: bool)
    requires Neutral(a) && |a| + 5 <= INT32_MAX
    ensures Neutral(a + Jump(Split(!greedy), -(|a| + 5)))
  {
    hide Depth, Floor, Whole, Boundary, All, JumpOk, U32, Neutral;
    var split := Jump(Split(!greedy), -(|a| + 5));
    var c := a + split;
    DepthOne(split);
    NothingScan();
    assert c == [] + a + split && c == a + split + [];
    Framed(c, [], a, split);
    JumpTo(c, a, Split(!greedy), -(|a| + 5), []);
    NeutralParts(a);
    AllOne(c, a, split, []);
    NoDepth();
    AllNone(c, 0);
    NeutralFrame(c, [], a, split);
  }

  lemma {:induction false} SimpleStack(a: seq<Byte>, min: nat, max: nat, count: nat)
    requires Neutral(a) && |SimpleCode(a, min, max, count)| <= INT32_MAX
    requires min <= INT32_MAX && max <= INT32_MAX && count <= INT32_MAX
    ensures Neutral(SimpleCode(a, min, max, count))
  {
    hide Depth, Floor, Whole, Boundary, All, U32, Neutral, JumpOk, GetI32, GetU32;
    var c := SimpleCode(a, min, max, count);
    var head := [OP_SIMPLE_GREEDY_QUANT] + U32(|a| + 1) + U32(min) + U32(max) + U32(count);
    DepthOne(head);
    DepthOne([OP_MATCH]);
    assert c == head + a + [OP_MATCH];
    Framed(c, head, a, [OP_MATCH]);
    assert c[0..0 + |c|] == c;
    SimplePieces(c, 0, a, min, max, count);
    SimpleJump(c, |a|);
    NoJump(c, head + a, [OP_MATCH], []);
    NeutralBetween(c, head, a, [OP_MATCH]);
  }

  lemma {:induction false} SimpleJump(c: seq<Byte>, n: nat)
    requires |c| == n + 18 && c[0] == OP_SIMPLE_GREEDY_QUANT && GetI32(c, 1) == n + 1
    requires Boundary(c, |c|) && Depth(c, |c|) == 0 && Depth(c, 0) == 0
    ensures JumpOk(c, 0)
  {
    hide Boundary, Depth, GetI32;
  }

  lemma {:induction false} TailStack(a: seq<Byte>, min: nat, max: nat, greedy: bool, check: bool)
    requires (max == 0 || Neutral(a)) && |TailCode(a, min, max, greedy, check)| <= INT32_MAX
    ensures Neutral(TailCode(a, min, max, greedy, check))
  {
    hide Neutral, StarCode, UpToCode, U32;
    if max == INT32_MAX {
      if check { CheckedStarStack(a, greedy); } else { StarStack(a, greedy); }
    } else if max <= min {
      NeutralNothing();
    } else if min == 0 && max == 1 {
      OptionalStack(a, greedy);
    } else {
      UpToStack(a, greedy, max - min);
    }
  }

  lemma {:induction false} QuantStack(a: seq<Byte>, min: nat, max: nat, greedy: bool, lo: nat, hi: nat)
    requires (max == 0 || Neutral(a)) && |QuantCode(a, min, max, greedy, lo, hi)| <= INT32_MAX
    requires min <= max <= INT32_MAX
    ensures Neutral(QuantCode(a, min, max, greedy, lo, hi))
  {
    hide Neutral, SimpleCode, RepeatCode, TailCode, U32, SimpleCount, CheckAdvance;
    if greedy && max > 0 && SimpleCount(a) > 0 {
      CountFits(a);
      SimpleStack(a, min, max, SimpleCount(a));
    } else {
      var check := greedy && !CheckAdvance(a);
      var tail := TailCode(a, min, max, greedy, check);
      if min == 0 {
        TailStack(a, min, max, greedy, check);
        if lo != hi { NeutralOne(Reset(min, lo, hi)); } else { NeutralNothing(); }
        NeutralConcat(Reset(min, lo, hi), tail);
      } else if min == 1 && max == INT32_MAX && !check {
        PlusStack(a, greedy);
      } else {
        TailStack(a, min, max, greedy, check);
        if min != 1 { RepeatStack(a, min); }
        NeutralConcat(if min == 1 then a else RepeatCode(a, min), tail);
      }
    }
  }

  lemma {:induction false} QuantLonger(a: seq<Byte>, min: nat, max: nat, greedy: bool, lo: nat, hi: nat)
    requires 0 < max && min <= max
    ensures |a| <= |QuantCode(a, min, max, greedy, lo, hi)|
  {
    hide U32, SimpleCount, CheckAdvance;
  }

  lemma {:induction false} AltStack(a: seq<Byte>, b: seq<Byte>)
    requires Neutral(a) && Neutral(b) && |a| + |b| + 10 <= INT32_MAX
    ensures Neutral(Jump(OP_SPLIT_NEXT_FIRST, |a| + 5) + a + Jump(OP_GOTO, |b|) + b)
  {
    hide Depth, Floor, Whole, Boundary, All, JumpOk, U32, Neutral;
    var split, goto := Jump(OP_SPLIT_NEXT_FIRST, |a| + 5), Jump(OP_GOTO, |b|);
    var c, head, tail := split + a + goto + b, split + a + goto, goto + b;
    NeutralParts(b);
    OneAfterNeutral(goto, b);
    DepthOne(split);
    DepthOne(goto);
    assert c == split + a + tail && c == head + b + [];
    Framed(c, split, a, tail);
    FramePrefix(c, split, a, tail);
    assert c == (split + a) + goto + b;
    HeadBefore(head, split, a, goto);
    NothingScan();
    Framed(c, head, b, []);
    JumpTo(c, [], OP_SPLIT_NEXT_FIRST, |a| + 5, a + tail);
    JumpTo(c, split + a, OP_GOTO, |b|, b);
    AllOne(c, [], split, a + tail);
    AllOne(c, split + a, goto, b);
    AllJoin(c, |split + a|, |head|, |c|);
    NeutralFrame(c, split, a, tail);
  }

  lemma {:induction false} OneAfterNeutral(i: seq<Byte>, b: seq<Byte>)
    requires Neutral(b) && i != [] && |i| == SizeAt(i, 0) && Delta(i[0]) == 0
    ensures Whole(i + b) && Depth(i + b, |i + b|) == 0 && Floor(i + b) == 0
  {
    hide Depth, Floor, Whole, Boundary, All, JumpOk, SizeAt, Delta;
    DepthOne(i);
    WholeConcat(i, b);
    FloorConcat(i, b);
  }

  lemma {:induction false} HeadBefore(head: seq<Byte>, i: seq<Byte>, a: seq<Byte>, j: seq<Byte>)
    requires head == i + a + j && Neutral(a) && i != [] && |i| == SizeAt(i, 0) && j != [] && |j| == SizeAt(j, 0)
    requires Delta(i[0]) == 0 && Delta(j[0]) == 0
    ensures Whole(head) && Depth(head, |head|) == 0 && Floor(head) == 0
  {
    hide Depth, Floor, Whole, Boundary, All, JumpOk, SizeAt, Delta, Neutral;
    DepthOne(i);
    DepthOne(j);
    Framed(head, i, a, j);
  }

  /** A bracket whose opening instruction jumps to the end, or not at all. */
  lemma {:induction false} LookStack(a: seq<Byte>, neg: bool)
    requires Neutral(a) && |a| + 6 <= INT32_MAX
    ensures Neutral(Jump(if neg then OP_NEGATIVE_LOOKAHEAD else OP_LOOKAHEAD, |a| + 1) + a + [OP_MATCH])
  {
    hide Depth, Floor, Whole, Boundary, All, JumpOk, U32, Neutral;
    var op := if neg then OP_NEGATIVE_LOOKAHEAD else OP_LOOKAHEAD;
    var open := Jump(op, |a| + 1);
    var c := open + a + [OP_MATCH];
    DepthOne(open);
    DepthOne([OP_MATCH]);
    Framed(c, open, a, [OP_MATCH]);
    FramePrefix(c, open, a, [OP_MATCH]);
    JumpTo(c, [], op, |a| + 1, a + [OP_MATCH]);
    NoJump(c, open + a, [OP_MATCH], []);
    NeutralBetween(c, open, a, [OP_MATCH]);
  }

  lemma {:induction false} CaptureStack(a: seq<Byte>, k: nat)
    requires Neutral(a)
    ensures Neutral([OP_SAVE_START, k % 256] + a + [OP_SAVE_END, k % 256])
  {
    hide Neutral, SizeAt, Delta;
    SaveSize(k);
    NeutralOne([OP_SAVE_START, k % 256]);
    NeutralOne([OP_SAVE_END, k % 256]);
    NeutralConcat([OP_SAVE_START, k % 256], a);
    NeutralConcat([OP_SAVE_START, k % 256] + a, [OP_SAVE_END, k % 256]);
  }

  lemma {:induction false} SaveSize(k: nat)
    ensures SizeAt([OP_SAVE_START, k % 256], 0) == 2 && SizeAt([OP_SAVE_END, k % 256], 0) == 2
    ensures Delta(OP_SAVE_START) == 0 && Delta(OP_SAVE_END) == 0
  {
  }

  lemma {:induction false} TestStack(t: Test)
    ensures Neutral(TestCode(t))
  {
    hide Neutral, U16, U32;
    if t.Class? { ClassWhole(t.points); }
    NeutralOne(TestCode(t));
  }

  /** Emitted code is closed, neutral, and never below the depth it started at. */
  lemma {:induction false} CodeStack(n: Node, captures: nat)
    requires WellFormed(n, captures) && |Code(n)| <= INT32_MAX
    ensures Neutral(Code(n))
  {
    hide Neutral, QuantCode, U32;
    match n
    case Empty => NeutralNothing();
    case Leaf(t) => TestStack(t);
    case Cat(a, b) =>
      CodeStack(a, captures);
      CodeStack(b, captures);
      NeutralConcat(Code(a), Code(b));
    case Alt(a, b) =>
      CodeStack(a, captures);
      CodeStack(b, captures);
      AltStack(Code(a), Code(b));
    case Quant(a, min, max, greedy, lo, hi) =>
      if max > 0 {
        QuantLonger(Code(a), min, max, greedy, lo, hi);
        CodeStack(a, captures);
      }
      QuantStack(Code(a), min, max, greedy, lo, hi);
    case Capture(k, a) =>
      CodeStack(a, captures);
      CaptureStack(Code(a), k);
    case Look(a, neg) =>
      CodeStack(a, captures);
      LookStack(Code(a), neg);
  }

  lemma {:induction false} ProgramStack(n: Node, captures: nat, sticky: bool)
    requires WellFormed(n, captures) && captures >= 1 && |ProgramCode(n, sticky)| <= INT32_MAX
    ensures Neutral(ProgramCode(n, sticky))
  {
    hide Neutral, Code, ProgramCode, Whole0, WellFormed, SizeAt, Delta;
    ProgramShape(n, sticky);
    WholeFormed(n, captures, sticky);
    CodeStack(Whole0(n, sticky), captures);
    MatchStack();
    NeutralConcat(Code(Whole0(n, sticky)), [OP_MATCH]);
  }

  lemma {:induction false} WholeFormed(n: Node, captures: nat, sticky: bool)
    requires WellFormed(n, captures) && captures >= 1
    ensures WellFormed(Whole0(n, sticky), captures)
  {
  }

  lemma {:induction false} MatchStack()
    ensures Neutral([OP_MATCH])
  {
    hide Neutral;
    NeutralOne([OP_MATCH]);
  }

  // ---------- every reachable state ----------

  ghost predicate Fits(c: seq<Byte>, pc: int, stack: seq<int>) {
    0 <= pc && Boundary(c, pc) && |stack| == Depth(c, pc)
  }

  /** A saved state resumes at its own depth. */
  ghost predicate EntryFits(c: seq<Byte>, e: Entry) {
    match e
    case Choice(pc, _, stack) => Fits(c, pc, stack)
    case Assertion(_, pc, _, stack) => Fits(c, pc, stack)
    case Greedy(pc, _, stack, _) => 0 <= pc && pc + 16 <= |c| && Fits(c, pc + 16 + GetI32(c, pc), stack)
  }

  ghost predicate SavedFit(c: seq<Byte>, saved: seq<Entry>) {
    forall e <- saved :: EntryFits(c, e)
  }

  ghost predicate StateFits(c: seq<Byte>, st: State) {
    Fits(c, st.pc, st.stack) && SavedFit(c, st.saved)
  }

  ghost predicate OutcomeFits(c: seq<Byte>, o: Outcome) {
    o.Running? ==> StateFits(c, o.st)
  }

  lemma {:induction false} FailFits(c: seq<Byte>, saved: seq<Entry>)
    requires SavedFit(c, saved)
    ensures OutcomeFits(c, Fail(c, saved))
    decreases |saved|
  {
    hide Fits, GetI32, GetU32;
    if saved != [] {
      var top, rest := saved[|saved| - 1], saved[..|saved| - 1];
      assert EntryFits(c, top);
      assert SavedFit(c, rest);
      if top.Greedy? && Fail(c, saved).Running? {
        var pt' := top.pt.(pos := top.pt.pos - GetU32(c, top.pc + 12));
        assert EntryFits(c, Greedy(top.pc, pt', top.stack, top.count - 1));
      }
      if top.Assertion? { FailFits(c, rest); }
    }
  }

  lemma {:induction false} SucceedFits(c: seq<Byte>, saved: seq<Entry>, pt: Pt)
    requires SavedFit(c, saved)
    ensures OutcomeFits(c, Succeed(c, saved, pt))
    decreases |saved|
  {
    hide Fits, Fail, GetI32;
    if saved != [] {
      var top, rest := saved[|saved| - 1], saved[..|saved| - 1];
      assert EntryFits(c, top);
      assert SavedFit(c, rest);
      if top.Assertion? { FailFits(c, rest); } else { SucceedFits(c, rest, pt); }
    }
  }

  /** Falling through, and jumping, from a state that fits. */
  lemma {:induction false} Arrivals(c: seq<Byte>, pc: int, stack: seq<int>)
    requires Closed(c) && Fits(c, pc, stack) && pc < |c| && pc + SizeAt(c, pc) <= |c|
    ensures Boundary(c, pc + SizeAt(c, pc)) && Depth(c, pc + SizeAt(c, pc)) == |stack| + Delta(c[pc])
    ensures IsJumpOp(c[pc]) || c[pc] == OP_SIMPLE_GREEDY_QUANT ==>
              0 <= Target(c, pc) && Boundary(c, Target(c, pc)) && Depth(c, Target(c, pc)) == |stack| + Delta(c[pc])
  {
    hide Boundary, Depth, SizeAt, Delta, Whole, Target, IsJumpOp;
    NextBoundary(c, pc);
    assert JumpOk(c, pc);
    if IsJumpOp(c[pc]) || c[pc] == OP_SIMPLE_GREEDY_QUANT { TargetRange(c, pc); }
  }

  lemma {:induction false} Pushed(c: seq<Byte>, saved: seq<Entry>, e: Entry)
    requires SavedFit(c, saved) && EntryFits(c, e)
    ensures SavedFit(c, saved + [e])
  {
    hide EntryFits;
  }

  /** One step keeps every depth, the current one and the saved ones, as the linear scan has it. */
  lemma {:induction false} StepFits(p: Program, st: State)
    requires Closed(p.bc) && StateFits(p.bc, st)
    ensures OutcomeFits(p.bc, Step(p, st))
  {
    hide Boundary, Depth, Whole, Advance, Fail, Succeed, StepControl, SizeAt, Closed, GetU16, GetU32;
    if 0 <= st.pc < |p.bc| && st.pt.pos <= |p.s.text| {
      FailFits(p.bc, st.saved);
      if st.pc + SizeAt(p.bc, st.pc) <= |p.bc| {
        Arrivals(p.bc, st.pc, st.stack);
        if DecodeTest(p.bc, st.pc).Some? {
          TestSize(p.bc, st.pc);
        } else {
          ControlFits(p, st);
        }
      }
    }
  }

  lemma {:induction false} TestSize(c: seq<Byte>, pc: int)
    requires 0 <= pc < |c| && DecodeTest(c, pc).Some?
    ensures DecodeTest(c, pc).value.1 == SizeAt(c, pc) && Delta(c[pc]) == 0
  {
    hide GetU16, GetU32;
  }

  lemma {:induction false} ControlFits(p: Program, st: State)
    requires Closed(p.bc) && StateFits(p.bc, st)
    requires 0 <= st.pc < |p.bc| && st.pc + SizeAt(p.bc, st.pc) <= |p.bc| && st.pt.pos <= |p.s.text|
    ensures OutcomeFits(p.bc, StepControl(p, st))
  {
    hide Boundary, Depth, Fail, Succeed, SimpleGreedy, Closed, GetU32, GetI32, EntryFits, SavedFit;
    var c, op := p.bc, p.bc[st.pc];
    Arrivals(c, st.pc, st.stack);
    if op == OP_MATCH {
      SucceedFits(c, st.saved, st.pt);
    } else if op == OP_SIMPLE_GREEDY_QUANT {
      SimpleFits(p, st);
    } else if op == OP_SPLIT_NEXT_FIRST || op == OP_SPLIT_GOTO_FIRST || op == OP_LOOKAHEAD || op == OP_NEGATIVE_LOOKAHEAD {
      SplitFits(p, st);
    }
  }

  lemma {:induction false} SplitFits(p: Program, st: State)
    requires Closed(p.bc) && StateFits(p.bc, st)
    requires 0 <= st.pc < |p.bc| && st.pc + SizeAt(p.bc, st.pc) <= |p.bc| && st.pt.pos <= |p.s.text|
    requires var op := p.bc[st.pc];
             op == OP_SPLIT_NEXT_FIRST || op == OP_SPLIT_GOTO_FIRST || op == OP_LOOKAHEAD || op == OP_NEGATIVE_LOOKAHEAD
    ensures OutcomeFits(p.bc, StepControl(p, st))
  {
    hide Boundary, Depth, Fail, Succeed, SimpleGreedy, Closed, GetU32, GetI32, SavedFit;
    var c, op := p.bc, p.bc[st.pc];
    Arrivals(c, st.pc, st.stack);
    var next, target := st.pc + 5, st.pc + 5 + GetI32(c, st.pc + 1);
    assert Fits(c, next, st.stack) && Fits(c, target, st.stack);
    Pushed(c, st.saved, Choice(next, st.pt, st.stack));
    Pushed(c, st.saved, Choice(target, st.pt, st.stack));
    Pushed(c, st.saved, Assertion(op == OP_NEGATIVE_LOOKAHEAD, target, st.pt, st.stack));
  }

  lemma {:induction false} SimpleFits(p: Program, st: State)
    requires Closed(p.bc) && StateFits(p.bc, st)
    requires 0 <= st.pc && st.pc + 17 <= |p.bc| && st.pt.pos <= |p.s.text| && p.bc[st.pc] == OP_SIMPLE_GREEDY_QUANT
    ensures OutcomeFits(p.bc, SimpleGreedy(p, st))
  {
    hide Boundary, Depth, Fail, GreedyRun, Closed, GetU32, GetI32, SavedFit;
    Arrivals(p.bc, st.pc, st.stack);
    FailFits(p.bc, st.saved);
    var max := GetU32(p.bc, st.pc + 9);
    var r := GreedyRun(p, st.pc + 17, st.pt.pos, 0, max);
    var min := GetU32(p.bc, st.pc + 5);
    if r.Some? && r.value.0 > min {
      Pushed(p.bc, st.saved, Greedy(st.pc + 1, st.pt.(pos := r.value.1), st.stack, r.value.0 - min));
    }
  }

  lemma {:induction false} RunFits(p: Program, o: Outcome, n: nat)
    requires Closed(p.bc) && OutcomeFits(p.bc, o)
    ensures OutcomeFits(p.bc, Run(p, o, n))
    decreases n
  {
    hide Step, Closed, StateFits;
    if n > 0 && o.Running? {
      StepFits(p, o.st);
      RunFits(p, Step(p, o.st), n - 1);
    }
  }

  /** In every state the machine reaches on a compiled program, and in every state it has saved,
      the operand stack has the depth the linear scan gives the instruction, so it never
      underflows and never outgrows the scan's maximum. */
  lemma {:induction false} StackSound(n: Node, captures: nat, sticky: bool, s: Subject, start: Pt, steps: nat)
    requires WellFormed(n, captures) && captures >= 1 && |ProgramCode(n, sticky)| <= INT32_MAX
    ensures var c := ProgramCode(n, sticky);
            var o := Run(Program(c, s), Running(State(0, start, [], [])), steps);
            o.Running? ==>
              && 0 <= Depth(c, o.st.pc) == |o.st.stack| <= Peak(c)
              && (forall e <- o.st.saved :: EntryFits(c, e) && |e.stack| <= Peak(c))
  {
    hide Depth, Boundary, Peak, Floor, Step, Run, ProgramCode, WellFormed, Closed, EntryFits;
    var c := ProgramCode(n, sticky);
    var o := Run(Program(c, s), Running(State(0, start, [], [])), steps);
    ProgramStack(n, captures, sticky);
    DepthStart(c, 0);
    assert SavedFit(c, []);
    RunFits(Program(c, s), Running(State(0, start, [], [])), steps);
    if o.Running? {
      DepthRange(c, o.st.pc);
      forall e <- o.st.saved ensures EntryFits(c, e) && |e.stack| <= Peak(c) { EntryBelow(c, e); }
    }
  }

  lemma {:induction false} EntryBelow(c: seq<Byte>, e: Entry)
    requires EntryFits(c, e)
    ensures |e.stack| <= Peak(c)
  {
    hide Depth, Boundary, Peak, Floor, GetI32;
    DepthRange(c, if e.Greedy? then e.pc + 16 + GetI32(c, e.pc) else e.pc);
  }

  const STACK_SIZE_MAX := 255

  /** compute_stack_size: the linear scan; -1 when the operand stack would be too deep. */
  method ComputeStackSize(bc: seq<Byte>) returns (r: int)
    requires Neutral(bc)
    ensures r == if Peak(bc) > STACK_SIZE_MAX then -1 else Peak(bc)
  {
    hide Boundary, Depth, Floor, All, Peak, Whole;
    var stackSize, stackSizeMax, pos := 0, 0, 0;
    DepthStart(bc, 0);
    assert bc[0..] == bc;
    while pos < |bc|
      invariant 0 <= pos <= |bc| && Whole(bc[pos..]) && Boundary(bc, pos) && Depth(bc, pos) == stackSize
      invariant Floor(bc) == 0 && 0 <= stackSize <= stackSizeMax <= STACK_SIZE_MAX
      invariant Peak(bc) == if stackSize + Peak(bc[pos..]) > stackSizeMax then stackSize + Peak(bc[pos..]) else stackSizeMax
      decreases |bc| - pos
    {
      var opcode := bc[pos];
      var len := SizeAt(bc, pos);
      ScanStep(bc, pos);
      if opcode == OP_PUSH_I32 || opcode == OP_PUSH_CHAR_POS {
        stackSize := stackSize + 1;
        if stackSize > stackSizeMax {
          if stackSize > STACK_SIZE_MAX { return -1; }
          stackSizeMax := stackSize;
        }
      } else if opcode == OP_DROP || opcode == OP_BNE_CHAR_POS {
        assert stackSize > 0;
        stackSize := stackSize - 1;
      }
      pos := pos + len;
    }
    NoDepth();
    assert bc[pos..] == [];
    return stackSizeMax;
  }

  lemma {:induction false} ScanStep(bc: seq<Byte>, pos: nat)
    requires pos < |bc| && Whole(bc[pos..]) && Boundary(bc, pos) && Floor(bc) == 0
    ensures var next := pos + SizeAt(bc, pos);
            && next <= |bc| && Whole(bc[next..]) && Boundary(bc, next)
            && Depth(bc, next) == Depth(bc, pos) + Delta(bc[pos]) && 0 <= Depth(bc, next)
            && Peak(bc[pos..])
               == if Delta(bc[pos]) + Peak(bc[next..]) > 0 then Delta(bc[pos]) + Peak(bc[next..]) else 0
  {
    hide Boundary, Depth, SizeAt, Delta;
    var next := pos + SizeAt(bc, pos);
    SizeDrop(bc, pos, pos);
    assert bc[pos..][0] == bc[pos] && Rest(bc[pos..]) == bc[next..];
    NextBoundary(bc, pos);
    DepthRange(bc, next);
  }
}
