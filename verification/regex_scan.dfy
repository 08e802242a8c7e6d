/** What the two linear scans over emitted code say about the pattern it came from. */
module RegexScan {
  import opened RegexBytes
  import opened RegexSyntax
  import opened RegexMatch
  import opened RegexMachine
  import CharClass
  import CharRanges

  /** A whole number of instructions. */
  ghost predicate Whole(c: seq<Byte>)
    decreases |c|
  {
    c == [] || (SizeAt(c, 0) <= |c| && Whole(c[SizeAt(c, 0)..]))
  }

  lemma {:induction false} ScanConcat(c: seq<Byte>, d: seq<Byte>)
    requires Whole(c)
    ensures FirstEffect(c + d) == if FirstEffect(c).Nothing? then FirstEffect(d) else FirstEffect(c)
    ensures SimpleCount(c + d) == if SimpleCount(c) < 0 || SimpleCount(d) < 0 then -1 else SimpleCount(c) + SimpleCount(d)
    ensures Whole(d) ==> Whole(c + d)
    decreases |c|
  {
    if c == [] {
      assert c + d == d;
    } else {
      var k := SizeAt(c, 0);
      SizeInside([], c, d, 0);
      assert (c + d)[k..] == c[k..] + d;
      ScanConcat(c[k..], d);
    }
  }

  lemma {:induction false} OneInstruction(c: seq<Byte>)
    requires c != [] && |c| == SizeAt(c, 0)
    ensures Whole(c)
    ensures FirstEffect(c) == if IsCharOp(c[0]) then Advances else if IsNeutralOp(c[0]) then Nothing else Unknown
    ensures SimpleCount(c) == if IsCharOp(c[0]) then 1 else if IsAnchorOp(c[0]) then 0 else -1
  {
    assert c[SizeAt(c, 0)..] == [];
  }

  /** An instruction in front of more code. */
  lemma {:induction false} Leading(i: seq<Byte>, c: seq<Byte>)
    requires i != [] && |i| == SizeAt(i, 0) && Whole(c)
    ensures Whole(i + c)
    ensures FirstEffect(i + c)
         == if IsCharOp(i[0]) then Advances else if IsNeutralOp(i[0]) then FirstEffect(c) else Unknown
    ensures SimpleCount(i + c)
         == if SimpleCount(c) < 0 || !(IsCharOp(i[0]) || IsAnchorOp(i[0])) then -1
            else SimpleCount(c) + (if IsCharOp(i[0]) then 1 else 0)
  {
    OneInstruction(i);
    ScanConcat(i, c);
  }

  lemma {:induction false} StarScan(a: seq<Byte>, greedy: bool, check: bool)
    requires Whole(a)
    ensures var c := StarCode(a, greedy, check); Whole(c) && FirstEffect(c).Unknown? && SimpleCount(c) == -1
  {
    hide Whole, FirstEffect, SimpleCount;
    if check { CheckedStarScan(a, greedy); } else { PlainStarScan(a, greedy); }
  }

  lemma {:induction false} CheckedStarScan(a: seq<Byte>, greedy: bool)
    requires Whole(a)
    ensures var c := StarCode(a, greedy, true); Whole(c) && FirstEffect(c).Unknown? && SimpleCount(c) == -1
  {
    hide Whole, FirstEffect, SimpleCount;
    var back, head := Jump(OP_BNE_CHAR_POS, -(|a| + 11)), Jump(Split(greedy), |a| + 6);
    OneInstruction(back);
    ScanConcat(a, back);
    Leading([OP_PUSH_CHAR_POS], a + back);
    Leading(head, [OP_PUSH_CHAR_POS] + (a + back));
    FourPieces(head, [OP_PUSH_CHAR_POS], a, back);
  }

  lemma {:induction false} PlainStarScan(a: seq<Byte>, greedy: bool)
    requires Whole(a)
    ensures var c := StarCode(a, greedy, false); Whole(c) && FirstEffect(c).Unknown? && SimpleCount(c) == -1
  {
    hide Whole, FirstEffect, SimpleCount;
    var back, head := Jump(OP_GOTO, -(|a| + 10)), Jump(Split(greedy), |a| + 5);
    OneInstruction(back);
    ScanConcat(a, back);
    Leading(head, a + back);
    assert head + a + back == head + (a + back);
  }

  lemma {:induction false} RepeatScan(a: seq<Byte>, n: nat)
    requires Whole(a)
    ensures var c := RepeatCode(a, n);
            Whole(c) && FirstEffect(c) == (if FirstEffect(a).Nothing? then Unknown else FirstEffect(a)) && SimpleCount(c) == -1
  {
    hide Whole, FirstEffect, SimpleCount;
    var back := Jump(OP_LOOP, -(|a| + 5));
    OneInstruction([OP_DROP]);
    Leading(back, [OP_DROP]);
    ScanConcat(a, back + [OP_DROP]);
    Leading(Jump(OP_PUSH_I32, n), a + (back + [OP_DROP]));
    FourPieces(Jump(OP_PUSH_I32, n), a, back, [OP_DROP]);
  }

  lemma {:induction false} UpToScan(a: seq<Byte>, greedy: bool, n: nat)
    requires Whole(a)
    ensures var c := UpToCode(a, greedy, n); Whole(c) && FirstEffect(c).Unknown? && SimpleCount(c) == -1
  {
    hide Whole, FirstEffect, SimpleCount;
    var push, split, back := Jump(OP_PUSH_I32, n), Jump(Split(greedy), |a| + 5), Jump(OP_LOOP, -(|a| + 10));
    OneInstruction([OP_DROP]);
    Leading(back, [OP_DROP]);
    ScanConcat(a, back + [OP_DROP]);
    Leading(split, a + (back + [OP_DROP]));
    Leading(push, split + (a + (back + [OP_DROP])));
    FivePieces(push, split, a, back, [OP_DROP]);
  }

  /** Concatenation from the right. */
  lemma {:induction false} FivePieces(u: seq<Byte>, v: seq<Byte>, w: seq<Byte>, x: seq<Byte>, y: seq<Byte>)
    ensures u + v + w + x + y == u + (v + (w + (x + y)))
  {
    FourPieces(u + v, w, x, y);
    FourPieces(u, v, w, x + y);
    assert (u + v) + (w + (x + y)) == u + (v + (w + (x + y)));
  }

  lemma {:induction false} FourPieces(u: seq<Byte>, v: seq<Byte>, w: seq<Byte>, x: seq<Byte>)
    ensures u + v + w + x == u + (v + (w + x))
  {
    assert u + v + (w + x) == u + (v + (w + x));
  }

  lemma {:induction false} TailScan(a: seq<Byte>, min: nat, max: nat, greedy: bool, check: bool)
    requires Whole(a)
    ensures var c := TailCode(a, min, max, greedy, check);
            Whole(c) && (if c == [] then FirstEffect(c).Nothing? && SimpleCount(c) == 0 && max <= min && max != INT32_MAX
                         else FirstEffect(c).Unknown? && SimpleCount(c) == -1)
  {
    hide Whole, FirstEffect, SimpleCount, StarCode, UpToCode, Jump;
    TailNotEmpty(a, min, max, greedy, check);
    if max == INT32_MAX { StarScan(a, greedy, check); }
    else if max <= min { NothingScan(); }
    else if min == 0 && max == 1 { OptionScan(a, greedy); }
    else { UpToScan(a, greedy, max - min); }
  }

  lemma {:induction false} TailNotEmpty(a: seq<Byte>, min: nat, max: nat, greedy: bool, check: bool)
    ensures TailCode(a, min, max, greedy, check) == [] <==> max <= min && max != INT32_MAX
  {
    hide Jump;
  }

  lemma {:induction false} OptionScan(a: seq<Byte>, greedy: bool)
    requires Whole(a)
    ensures var c := Jump(Split(greedy), |a|) + a; Whole(c) && FirstEffect(c).Unknown? && SimpleCount(c) == -1
  {
    hide Whole, FirstEffect, SimpleCount;
    Leading(Jump(Split(greedy), |a|), a);
  }

  lemma {:induction false} SimpleCodeScan(a: seq<Byte>, min: nat, max: nat, count: nat)
    requires Whole(a)
    ensures var c := SimpleCode(a, min, max, count); Whole(c) && FirstEffect(c).Unknown? && SimpleCount(c) == -1
  {
    hide Whole, FirstEffect, SimpleCount;
    var head := [OP_SIMPLE_GREEDY_QUANT] + U32(|a| + 1) + U32(min) + U32(max) + U32(count);
    OneInstruction([OP_MATCH]);
    ScanConcat(a, [OP_MATCH]);
    Leading(head, a + [OP_MATCH]);
    assert SimpleCode(a, min, max, count) == head + (a + [OP_MATCH]);
  }

  /** Scanning a quantified atom: it advances only if the atom does and is not optional, and it is
      straight-line only where nothing but one copy of the atom, or nothing at all, is left. */
  lemma {:induction false} QuantScan(a: seq<Byte>, min: nat, max: nat, greedy: bool, lo: nat, hi: nat)
    requires Whole(a)
    ensures var c := QuantCode(a, min, max, greedy, lo, hi);
            Whole(c) && (FirstEffect(c).Advances? ==> min >= 1 && FirstEffect(a).Advances?)
    ensures var c := QuantCode(a, min, max, greedy, lo, hi);
            SimpleCount(c) >= 0 ==>
              ((c == [] && min == 0 && lo == hi) || (c == a && min == 1)) && max <= min && max != INT32_MAX
  {
    hide Whole, FirstEffect, SimpleCount, SimpleCode, StarCode, UpToCode, RepeatCode;
    if greedy && max > 0 && SimpleCount(a) > 0 {
      SimpleCodeScan(a, min, max, SimpleCount(a));
    } else {
      var check := greedy && !CheckAdvance(a);
      var tail := TailCode(a, min, max, greedy, check);
      TailScan(a, min, max, greedy, check);
      if min == 0 {
        if lo != hi { Leading(Reset(min, lo, hi), tail); } else { assert Reset(min, lo, hi) + tail == tail; }
      } else if min == 1 && max == INT32_MAX && !check {
        var again := Jump(Split(!greedy), -(|a| + 5));
        OneInstruction(again);
        ScanConcat(a, again);
      } else {
        RepeatScan(a, min);
        ScanConcat(if min == 1 then a else RepeatCode(a, min), tail);
        assert tail == [] ==> a + tail == a;
      }
    }
  }

  lemma {:induction false} TestScan(t: Test)
    ensures var c := TestCode(t);
            Whole(c) && (FirstEffect(c).Advances? <==> Consumes(t)) && !FirstEffect(c).Unknown?
    ensures SimpleCount(TestCode(t)) == if Consumes(t) then 1 else 0
  {
    if t.Class? { ClassWhole(t.points); }
    OneInstruction(TestCode(t));
  }

  /** A class is one instruction. */
  lemma {:induction false} ClassWhole(points: CharClass.ClassPoints)
    ensures var c := CharClass.RangeCode(points);
            |c| == SizeAt(c, 0) && (c[0] == OP_RANGE || c[0] == OP_RANGE32)
  {
    var c := CharClass.RangeCode(points);
    assert Here(c, 0, c);
    CharClass.DecodeEmitted(c, 0, points);
  }

  lemma {:induction false} AltScan(a: seq<Byte>, b: seq<Byte>)
    requires Whole(a) && Whole(b)
    ensures var c := Jump(OP_SPLIT_NEXT_FIRST, |a| + 5) + a + Jump(OP_GOTO, |b|) + b;
            Whole(c) && FirstEffect(c).Unknown? && SimpleCount(c) == -1
  {
    hide Whole, FirstEffect, SimpleCount;
    var goto := Jump(OP_GOTO, |b|);
    Leading(goto, b);
    ScanConcat(a, goto + b);
    Leading(Jump(OP_SPLIT_NEXT_FIRST, |a| + 5), a + (goto + b));
    FourPieces(Jump(OP_SPLIT_NEXT_FIRST, |a| + 5), a, goto, b);
  }

  lemma {:induction false} BracketScan(open: seq<Byte>, a: seq<Byte>, close: seq<Byte>)
    requires open != [] && |open| == SizeAt(open, 0) && close != [] && |close| == SizeAt(close, 0) && Whole(a)
    requires !IsCharOp(open[0]) && !IsAnchorOp(open[0]) && !IsCharOp(close[0])
    ensures var c := open + a + close;
            Whole(c) && SimpleCount(c) == -1
            && (FirstEffect(c).Advances? ==> IsNeutralOp(open[0]) && FirstEffect(a).Advances?)
  {
    hide Whole, FirstEffect, SimpleCount;
    OneInstruction(close);
    ScanConcat(a, close);
    Leading(open, a + close);
    assert open + a + close == open + (a + close);
  }

  /** Emitted code is whole instructions, and re_check_advance never claims too much. */
  lemma {:induction false} CodeScan(n: Node)
    ensures Whole(Code(n))
    ensures FirstEffect(Code(n)).Advances? ==> MustAdvance(n)
  {
    hide Whole, FirstEffect, SimpleCount, TestCode, QuantCode, Jump, SizeAt, OpSize;
    match n
    case Empty => assert Whole([]) && FirstEffect([]).Nothing? by { NothingScan(); }
    case Leaf(t) => TestScan(t);
    case Cat(a, b) =>
      CodeScan(a);
      CodeScan(b);
      ScanConcat(Code(a), Code(b));
    case Alt(a, b) =>
      CodeScan(a);
      CodeScan(b);
      AltScan(Code(a), Code(b));
    case Quant(a, min, max, greedy, lo, hi) =>
      CodeScan(a);
      QuantScan(Code(a), min, max, greedy, lo, hi);
    case Capture(k, a) =>
      CodeScan(a);
      CaptureScan(k, Code(a));
    case Look(a, neg) =>
      CodeScan(a);
      LookScan(neg, Code(a));
  }

  lemma {:induction false} CaptureScan(k: nat, a: seq<Byte>)
    requires Whole(a)
    ensures var c := [OP_SAVE_START, k % 256] + a + [OP_SAVE_END, k % 256];
            Whole(c) && SimpleCount(c) == -1 && (FirstEffect(c).Advances? ==> FirstEffect(a).Advances?)
  {
    hide Whole, FirstEffect, SimpleCount;
    BracketScan([OP_SAVE_START, k % 256], a, [OP_SAVE_END, k % 256]);
  }

  lemma {:induction false} LookScan(neg: bool, a: seq<Byte>)
    requires Whole(a)
    ensures var c := Jump(if neg then OP_NEGATIVE_LOOKAHEAD else OP_LOOKAHEAD, |a| + 1) + a + [OP_MATCH];
            Whole(c) && SimpleCount(c) == -1 && !FirstEffect(c).Advances?
  {
    hide Whole, FirstEffect, SimpleCount;
    BracketScan(Jump(if neg then OP_NEGATIVE_LOOKAHEAD else OP_LOOKAHEAD, |a| + 1), a, [OP_MATCH]);
  }

  lemma {:induction false} NothingScan()
    ensures Whole([]) && FirstEffect([]).Nothing? && SimpleCount([]) == 0
  {
  }

  // ---------- advancing patterns ----------

  ghost predicate Beyond(ps: seq<Pt>, low: int) {
    forall e <- ps :: e.pos >= low
  }

  lemma {:induction false} EachBeyond(k: Kont, s: Subject, ps: seq<Pt>, low: nat, n: nat, bound: int)
    requires forall e <- ps :: low <= e.pos <= |s.text| && |e.caps| == n
    requires Beyond(ps, bound)
    ensures Beyond(Each(k, s, ps, low, n), bound)
    decreases |ps|
  {
    if ps != [] {
      assert ps[0] in ps;
      EachBeyond(k, s, ps[1..], low, n, bound);
    }
  }

  /** A second piece that always advances. */
  lemma {:induction false} EachAdvances(b: Node, s: Subject, ps: seq<Pt>, low: nat, n: nat)
    requires forall e <- ps :: low <= e.pos <= |s.text| && |e.caps| == n
    requires MustAdvance(b)
    ensures Beyond(Each(KNode(b), s, ps, low, n), low + 1)
    decreases b, 1, |ps|
  {
    if ps != [] {
      assert ps[0] in ps;
      AdvancesSound(b, s, ps[0]);
      EachAdvances(b, s, ps[1..], low, n);
    }
  }

  /** Every way of matching an advancing pattern ends further on. */
  lemma {:induction false} AdvancesSound(n: Node, s: Subject, p: Pt)
    requires p.pos <= |s.text| && MustAdvance(n)
    ensures Beyond(Ends(n, s, p), p.pos + 1)
    decreases n, 0, 0
  {
    match n
    case Leaf(t) =>
    case Cat(a, b) =>
      if MustAdvance(a) {
        AdvancesSound(a, s, p);
        EachBeyond(KNode(b), s, Ends(a, s, p), p.pos, |p.caps|, p.pos + 1);
      } else {
        EachAdvances(b, s, Ends(a, s, p), p.pos, |p.caps|);
      }
    case Alt(a, b) =>
      AdvancesSound(a, s, p);
      AdvancesSound(b, s, p);
    case Quant(a, min, max, greedy, lo, hi) =>
      AdvancesSound(a, s, p);
      EachBeyond(KPower(a, min - 1), s, Ends(a, s, p), p.pos, |p.caps|, p.pos + 1);
      EachBeyond(KTail(a, max == INT32_MAX, Bound(max, min), greedy), s, Power(a, min, s, p), p.pos, |p.caps|, p.pos + 1);
    case Capture(k, a) =>
      var p' := p.(caps := SetCap(p.caps, 2 * k, p.pos));
      AdvancesSound(a, s, p');
      EachBeyond(KSave(a, 2 * k + 1), s, Ends(a, s, p'), p.pos, |p.caps|, p.pos + 1);
  }

  // ---------- straight-line code ----------

  /** The result of running straight-line code from `at` to `end`. */
  ghost predicate Straight(p: Program, n: Node, at: int, end: int, pt: Pt, count: nat)
    requires pt.pos <= |p.s.text|
  {
    var ends := Ends(n, p.s, pt);
    (ends == [] && RunAtom(p, at, pt.pos).NoMatch?)
    || (pt.pos + count <= |p.s.text| && ends == [pt.(pos := pt.pos + count)]
        && RunAtom(p, at, pt.pos) == RunAtom(p, end, pt.pos + count))
  }

  lemma {:induction false} StraightTest(p: Program, t: Test, at: int, pt: Pt)
    requires pt.pos <= |p.s.text| && (t.Char? ==> t.c < 0x1_0000_0000) && Here(p.bc, at, TestCode(t))
    ensures Straight(p, Leaf(t), at, at + |TestCode(t)|, pt, if Consumes(t) then 1 else 0)
  {
    hide DecodeTest, Advance, TestCode, Consumes;
    DecodeAt(p.bc, at, t);
    AdvanceBy(t, p.s, pt.pos);
  }

  lemma {:induction false} AdvanceBy(t: Test, s: Subject, pos: nat)
    requires pos <= |s.text|
    ensures Advance(t, s, pos).Some? ==> Advance(t, s, pos).value == pos + (if Consumes(t) then 1 else 0)
  {
    hide CharRanges.Member;
  }

  lemma {:induction false} DecodeAt(bc: seq<Byte>, at: int, t: Test)
    requires (t.Char? ==> t.c < 0x1_0000_0000) && Here(bc, at, TestCode(t))
    ensures 0 <= at < |bc| && DecodeTest(bc, at) == Some((t, |TestCode(t)|))
  {
    ByteAt(bc, at, TestCode(t), 0);
    if t.Class? {
      CharClass.DecodeEmitted(bc, at, t.points);
    } else if t.Char? {
      if t.c <= 0xffff {
        HereSplit(bc, at, [OP_CHAR], U16(t.c));
        GetPut16(bc, at + 1, t.c);
      } else {
        HereSplit(bc, at, [OP_CHAR32], U32(t.c));
        GetPut32(bc, at + 1, t.c);
      }
    }
  }

  lemma {:induction false} ResetNothing(caps: seq<int>, lo: nat)
    ensures ResetCaps(caps, lo, lo) == caps
  {
  }

  /** Straight-line code matches in at most one way, at a fixed distance. */
  lemma {:induction false} SimpleRun(p: Program, n: Node, at: int, pt: Pt, captures: nat)
    requires WellFormed(n, captures) && SimpleCount(Code(n)) >= 0
    requires pt.pos <= |p.s.text| && Here(p.bc, at, Code(n))
    ensures Groups(n) == 0
    ensures Straight(p, n, at, at + |Code(n)|, pt, SimpleCount(Code(n)))
  {
    hide Whole, FirstEffect, SimpleCount, RunAtom, Straight, Ends, QuantCode, TestCode, Here, Jump;
    match n
    case Empty =>
      NothingScan();
      EmptyEnds(p.s, pt);
      StraightNothing(p, n, at, pt);
    case Leaf(t) =>
      TestScan(t);
      StraightTest(p, t, at, pt);
    case Cat(a, b) =>
      CodeScan(a);
      ScanConcat(Code(a), Code(b));
      HereSplit(p.bc, at, Code(a), Code(b));
      SimpleRun(p, a, at, pt, captures);
      var q := pt.pos + SimpleCount(Code(a));
      SimpleRun(p, b, at + |Code(a)|, pt.(pos := if q <= |p.s.text| then q else 0), captures);
      StraightCat(p, a, b, at, pt);
    case Alt(_, _) => NotStraight(n);
    case Quant(a, min, max, greedy, lo, hi) =>
      SimpleForms(a, min, max, greedy, lo, hi);
      if Code(n) == Code(a) && min == 1 {
        SimpleRun(p, a, at, pt, captures);
        StraightOnce(p, a, at, at + |Code(a)|, pt, SimpleCount(Code(a)), max, greedy, lo, hi);
      } else {
        ResetNothing(pt.caps, lo);
        NeverAtAll(a, p.s, pt, max, greedy, lo, hi);
        StraightNothing(p, n, at, pt);
      }
    case Capture(_, _) => NotStraight(n);
    case Look(_, _) => NotStraight(n);
  }

  /** A quantifier with straight-line code is one copy of its atom, or nothing. */
  lemma {:induction false} SimpleForms(a: Node, min: nat, max: nat, greedy: bool, lo: nat, hi: nat)
    requires SimpleCount(Code(Quant(a, min, max, greedy, lo, hi))) >= 0
    ensures var c := Code(Quant(a, min, max, greedy, lo, hi));
            && ((c == [] && min == 0 && lo == hi && SimpleCount(c) == 0) || (c == Code(a) && min == 1))
            && max <= min && max != INT32_MAX
  {
    hide SimpleCount, QuantCode, Whole, FirstEffect;
    CodeScan(a);
    QuantScan(Code(a), min, max, greedy, lo, hi);
    NothingScan();
  }

  lemma {:induction false} NotStraight(n: Node)
    requires n.Alt? || n.Capture? || n.Look?
    ensures SimpleCount(Code(n)) == -1
  {
    hide Whole, FirstEffect, SimpleCount, Jump, SizeAt, OpSize;
    match n
    case Alt(a, b) =>
      CodeScan(a);
      CodeScan(b);
      AltScan(Code(a), Code(b));
    case Capture(k, a) =>
      CodeScan(a);
      CaptureScan(k, Code(a));
    case Look(a, neg) =>
      CodeScan(a);
      LookScan(neg, Code(a));
  }

  lemma {:induction false} EmptyEnds(s: Subject, pt: Pt)
    requires pt.pos <= |s.text|
    ensures Ends(Empty, s, pt) == [pt]
  {
  }

  lemma {:induction false} StraightNothing(p: Program, n: Node, at: int, pt: Pt)
    requires pt.pos <= |p.s.text| && Ends(n, p.s, pt) == [pt]
    ensures Straight(p, n, at, at, pt, 0)
  {
    hide Ends;
    assert pt.(pos := pt.pos + 0) == pt;
  }

  lemma {:induction false} StraightOnce(p: Program, a: Node, at: int, end: int, pt: Pt, count: nat, max: nat, greedy: bool, lo: nat, hi: nat)
    requires pt.pos <= |p.s.text| && Straight(p, a, at, end, pt, count) && max <= 1 && max != INT32_MAX
    ensures Straight(p, Quant(a, 1, max, greedy, lo, hi), at, end, pt, count)
  {
    hide Ends, RunAtom;
    OnceOnly(a, p.s, pt, max, greedy, lo, hi);
  }

  lemma {:induction false} EachOne(k: Kont, s: Subject, e: Pt, low: nat, n: nat)
    requires low <= e.pos <= |s.text| && |e.caps| == n
    ensures Each(k, s, [e], low, n) == After(k, s, e)
    ensures Each(k, s, [], low, n) == []
  {
    assert [e][1..] == [];
    assert After(k, s, e) + [] == After(k, s, e);
  }

  lemma {:induction false} OnceOnly(a: Node, s: Subject, pt: Pt, max: nat, greedy: bool, lo: nat, hi: nat)
    requires pt.pos <= |s.text| && |Ends(a, s, pt)| <= 1 && max <= 1 && max != INT32_MAX
    ensures Ends(Quant(a, 1, max, greedy, lo, hi), s, pt) == Ends(a, s, pt)
  {
    var ends := Ends(a, s, pt);
    EachOne(KPower(a, 0), s, pt, pt.pos, |pt.caps|);
    EachOne(KTail(a, false, 0, greedy), s, pt, pt.pos, |pt.caps|);
    if ends != [] {
      var e := ends[0];
      assert ends == [e] && e in ends;
      EachOne(KPower(a, 0), s, e, pt.pos, |pt.caps|);
      EachOne(KTail(a, false, 0, greedy), s, e, pt.pos, |pt.caps|);
    }
  }

  lemma {:induction false} NeverAtAll(a: Node, s: Subject, pt: Pt, max: nat, greedy: bool, lo: nat, hi: nat)
    requires pt.pos <= |s.text| && max == 0 && ResetCaps(pt.caps, lo, hi) == pt.caps
    ensures Ends(Quant(a, 0, max, greedy, lo, hi), s, pt) == [pt]
  {
    EachOne(KTail(a, false, 0, greedy), s, pt, pt.pos, |pt.caps|);
  }

  lemma {:induction false} CatOne(a: Node, b: Node, s: Subject, pt: Pt)
    requires pt.pos <= |s.text| && |Ends(a, s, pt)| <= 1
    ensures Ends(Cat(a, b), s, pt) == if Ends(a, s, pt) == [] then [] else Ends(b, s, Ends(a, s, pt)[0])
  {
    var ends := Ends(a, s, pt);
    EachOne(KNode(b), s, pt, pt.pos, |pt.caps|);
    if ends != [] {
      assert ends == [ends[0]] && ends[0] in ends;
      EachOne(KNode(b), s, ends[0], pt.pos, |pt.caps|);
    }
  }

  lemma {:induction false} StraightCat(p: Program, a: Node, b: Node, at: int, pt: Pt)
    requires pt.pos <= |p.s.text| && SimpleCount(Code(a)) >= 0 && SimpleCount(Code(b)) >= 0
    requires Straight(p, a, at, at + |Code(a)|, pt, SimpleCount(Code(a)))
    requires var q := pt.pos + SimpleCount(Code(a));
             q <= |p.s.text| ==> Straight(p, b, at + |Code(a)|, at + |Code(a)| + |Code(b)|, pt.(pos := q), SimpleCount(Code(b)))
    ensures Straight(p, Cat(a, b), at, at + |Code(a)| + |Code(b)|, pt, SimpleCount(Code(a)) + SimpleCount(Code(b)))
  {
    hide SimpleCount, RunAtom, Ends, Code;
    CatOne(a, b, p.s, pt);
  }
}
