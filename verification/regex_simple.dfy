/** The one-instruction greedy quantifier over straight-line atoms: it counts iterations forwards
    and steps back by a fixed width, and so visits what the generic loop would. */
module RegexSimple {
  import opened RegexBytes
  import opened RegexSyntax
  import opened RegexMatch
  import opened RegexMachine
  import opened RegexYields
  import opened RegexScan

  function Shift(pt: Pt, n: nat): Pt {
    pt.(pos := pt.pos + n)
  }

  /** pt plus c widths, then one width less each time, down to pt itself. */
  function Down(pt: Pt, width: nat, c: nat): (r: seq<Pt>)
    decreases c
  {
    if c == 0 then [pt] else Down(Shift(pt, width), width, c - 1) + [pt]
  }

  lemma {:induction false} DownFromTop(pt: Pt, width: nat, c: nat)
    requires c >= 1
    ensures Down(pt, width, c) == [Shift(pt, c * width)] + Down(pt, width, c - 1)
    decreases c
  {
    if c == 1 {
      assert Down(Shift(pt, width), width, 0) == [Shift(pt, width)];
    } else {
      DownFromTop(Shift(pt, width), width, c - 1);
      assert Shift(Shift(pt, width), (c - 1) * width) == Shift(pt, c * width);
      assert [Shift(pt, c * width)] + Down(Shift(pt, width), width, c - 2) + [pt]
          == [Shift(pt, c * width)] + (Down(Shift(pt, width), width, c - 2) + [pt]);
    }
  }

  /** A straight-line atom of the given width, followed by a match instruction. */
  ghost predicate Atom(p: Program, pc: int, end: int, a: Node, width: nat, captures: nat) {
    && WellFormed(a, captures) && SimpleCount(Code(a)) == width && width >= 1
    && Here(p.bc, pc, Code(a)) && end == pc + |Code(a)| && Here(p.bc, end, [OP_MATCH])
  }

  /** One run of the atom agrees with the reference. */
  lemma {:induction false} AtomOnce(p: Program, pc: int, end: int, a: Node, width: nat, captures: nat, pt: Pt)
    requires Atom(p, pc, end, a, width, captures) && pt.pos <= |p.s.text|
    ensures (Ends(a, p.s, pt) == [] && RunAtom(p, pc, pt.pos).NoMatch?)
         || (pt.pos + width <= |p.s.text| && Ends(a, p.s, pt) == [Shift(pt, width)]
             && RunAtom(p, pc, pt.pos) == Matched(pt.pos + width))
  {
    hide Ends, SimpleCount, RunAtom, Here, Code, WellFormed;
    SimpleRun(p, a, pc, pt, captures);
    if pt.pos + width <= |p.s.text| { RunMatch(p, end, pt.pos + width); }
  }

  lemma {:induction false} RunMatch(p: Program, pc: int, pos: nat)
    requires Here(p.bc, pc, [OP_MATCH]) && pos <= |p.s.text|
    ensures RunAtom(p, pc, pos) == Matched(pos)
  {
    OpAt(p.bc, pc, OP_MATCH);
  }

  /** k mandatory iterations and then the optional ones, by the reference. */
  function Ways(a: Node, k: nat, max: nat, used: nat, s: Subject, pt: Pt): (r: seq<Pt>)
    requires pt.pos <= |s.text|
  {
    Each(KTail(a, max == INT32_MAX, Bound(max, used + k), true), s, Power(a, k, s, pt), pt.pos, |pt.caps|)
  }

  /** q - used iterations end at pos, and are taken back one at a time, down to k. */
  predicate CountedDown(a: Node, width: nat, k: nat, max: nat, used: nat, s: Subject, pt: Pt, q: nat, pos: nat)
    requires pt.pos <= |s.text|
  {
    && q >= used && pos == pt.pos + (q - used) * width
    && Ways(a, k, max, used, s, pt) == if q - used < k then [] else Down(Shift(pt, k * width), width, q - used - k)
  }

  /** No iteration. */
  lemma {:induction false} CountedNone(a: Node, width: nat, k: nat, max: nat, used: nat, s: Subject, pt: Pt)
    requires pt.pos <= |s.text| && Ways(a, k, max, used, s, pt) == if k > 0 then [] else [pt]
    ensures CountedDown(a, width, k, max, used, s, pt, used, pt.pos)
  {
    hide Ways;
    Widths(pt, width, 0, 0);
    Nothing(width);
    if k == 0 { assert Down(pt, width, 0) == [pt]; }
  }

  lemma {:induction false} Nothing(width: nat)
    ensures 0 * width == 0 && 1 * width == width
  {
  }

  /** The last iteration that the maximum allows. */
  lemma {:induction false} CountedLast(a: Node, width: nat, k: nat, max: nat, used: nat, s: Subject, pt: Pt)
    requires pt.pos <= |s.text| && k <= 1
    requires Ways(a, k, max, used, s, pt) == [Shift(pt, width)] + if k > 0 then [] else [pt]
    ensures CountedDown(a, width, k, max, used, s, pt, used + 1, pt.pos + width)
  {
    hide Ways;
    Widths(pt, width, 0, 0);
    Nothing(width);
    var e := Shift(pt, width);
    assert Down(e, width, 0) == [e];
    if k == 0 { assert Down(pt, width, 1) == [e] + [pt]; } else { assert [e] + [] == [e]; }
  }

  /** One more iteration in front of others. */
  lemma {:induction false} CountedMore(a: Node, width: nat, k: nat, max: nat, used: nat, s: Subject, pt: Pt, q: nat, pos: nat)
    requires pt.pos + width <= |s.text|
    requires var k', e := if k == 0 then 0 else k - 1, Shift(pt, width);
             && CountedDown(a, width, k', max, used + 1, s, e, q, pos)
             && Ways(a, k, max, used, s, pt) == Ways(a, k', max, used + 1, s, e) + if k > 0 then [] else [pt]
    ensures CountedDown(a, width, k, max, used, s, pt, q, pos)
  {
    hide Ways;
    var e := Shift(pt, width);
    Widths(pt, width, q - used, k);
    Widths(e, width, 0, 0);
    if k > 0 { assert Ways(a, k - 1, max, used + 1, s, e) + [] == Ways(a, k - 1, max, used + 1, s, e); }
  }

  /** The reference on a straight-line atom is the descending list the counter describes. */
  lemma {:induction false} WaysDown(p: Program, pc: int, end: int, a: Node, width: nat, captures: nat,
                                    k: nat, max: nat, used: nat, pt: Pt)
    requires Atom(p, pc, end, a, width, captures) && pt.pos <= |p.s.text|
    requires max == INT32_MAX || (used < max && used + k <= max)
    ensures var run := GreedyRun(p, pc, pt.pos, used, max);
            run.Some? && CountedDown(a, width, k, max, used, p.s, pt, run.value.0, run.value.1)
    decreases |p.s.text| - pt.pos
  {
    hide Atom, Ends, RunAtom, Ways, CountedDown, Shift;
    AtomOnce(p, pc, end, a, width, captures, pt);
    assert width >= 1 by { AtomWidth(p, pc, end, a, width, captures); }
    WaysStep(a, k, max, used, p.s, pt, width);
    if RunAtom(p, pc, pt.pos).Matched? {
      var e := Shift(pt, width);
      assert e.pos == pt.pos + width by { ShiftPos(pt, width); }
      if used + 1 >= max && max != INT32_MAX {
        CountedLast(a, width, k, max, used, p.s, pt);
      } else {
        WaysDown(p, pc, end, a, width, captures, if k == 0 then 0 else k - 1, max, used + 1, e);
        var (q, pos) := GreedyRun(p, pc, e.pos, used + 1, max).value;
        CountedMore(a, width, k, max, used, p.s, pt, q, pos);
      }
    } else {
      CountedNone(a, width, k, max, used, p.s, pt);
    }
  }

  lemma {:induction false} ShiftPos(pt: Pt, width: nat)
    ensures Shift(pt, width).pos == pt.pos + width
  {
  }

  lemma {:induction false} AtomHere(p: Program, pc: int, end: int, a: Node, width: nat, captures: nat)
    requires WellFormed(a, captures) && SimpleCount(Code(a)) == width && width >= 1
    requires Here(p.bc, pc, Code(a)) && end == pc + |Code(a)| && Here(p.bc, end, [OP_MATCH])
    ensures Atom(p, pc, end, a, width, captures)
  {
  }

  lemma {:induction false} AtomWidth(p: Program, pc: int, end: int, a: Node, width: nat, captures: nat)
    requires Atom(p, pc, end, a, width, captures)
    ensures width >= 1
  {
  }

  lemma {:induction false} Widths(pt: Pt, width: nat, c: int, k: nat)
    ensures width + (c - 1) * width == c * width
    ensures k >= 1 ==> Shift(Shift(pt, width), (k - 1) * width) == Shift(pt, k * width)
    ensures Shift(pt, 0 * width) == pt
  {
    assert (c - 1) * width == c * width - width;
    if k >= 1 { assert (k - 1) * width == k * width - width; }
  }

  /** One iteration of the reference. */
  lemma {:induction false} WaysStep(a: Node, k: nat, max: nat, used: nat, s: Subject, pt: Pt, width: nat)
    requires pt.pos <= |s.text| && (max == INT32_MAX || (used < max && used + k <= max)) && width >= 1
    requires Ends(a, s, pt) == [] || (pt.pos + width <= |s.text| && Ends(a, s, pt) == [Shift(pt, width)])
    ensures Ends(a, s, pt) == [] ==> Ways(a, k, max, used, s, pt) == if k > 0 then [] else [pt]
    ensures Ends(a, s, pt) != [] ==>
              Ways(a, k, max, used, s, pt)
              == (if used + 1 >= max && max != INT32_MAX then [Shift(pt, width)]
                  else Ways(a, if k == 0 then 0 else k - 1, max, used + 1, s, Shift(pt, width)))
                 + (if k > 0 then [] else [pt])
  {
    var e := Shift(pt, width);
    if k > 0 {
      if Ends(a, s, pt) == [] {
        EachOne(KPower(a, k - 1), s, pt, pt.pos, |pt.caps|);
        EachOne(KTail(a, max == INT32_MAX, Bound(max, used + k), true), s, pt, pt.pos, |pt.caps|);
      } else {
        MandatoryStep(a, k, max, used, s, pt, e);
      }
    } else {
      OptionalStep(a, max, used, s, pt, width);
    }
  }

  lemma {:induction false} EachLow(k: Kont, s: Subject, ps: seq<Pt>, low: nat, low': nat, n: nat)
    requires forall e <- ps :: low <= e.pos <= |s.text| && low' <= e.pos && |e.caps| == n
    ensures Each(k, s, ps, low, n) == Each(k, s, ps, low', n)
    decreases |ps|
  {
    if ps != [] {
      assert ps[0] in ps;
      EachLow(k, s, ps[1..], low, low', n);
    }
  }

  lemma {:induction false} MandatoryStep(a: Node, k: nat, max: nat, used: nat, s: Subject, pt: Pt, e: Pt)
    requires pt.pos <= e.pos <= |s.text| && |e.caps| == |pt.caps| && k > 0
    requires max == INT32_MAX || used + k <= max
    requires Ends(a, s, pt) == [e]
    ensures Ways(a, k, max, used, s, pt)
         == if used + 1 >= max && max != INT32_MAX then [e] else Ways(a, k - 1, max, used + 1, s, e)
  {
    EachOne(KPower(a, k - 1), s, e, pt.pos, |pt.caps|);
    var t := KTail(a, max == INT32_MAX, Bound(max, used + k), true);
    EachLow(t, s, Power(a, k - 1, s, e), pt.pos, e.pos, |pt.caps|);
    if used + 1 >= max && max != INT32_MAX {
      EachOne(t, s, e, pt.pos, |pt.caps|);
    }
  }

  lemma {:induction false} OptionalStep(a: Node, max: nat, used: nat, s: Subject, pt: Pt, width: nat)
    requires pt.pos <= |s.text| && (max == INT32_MAX || used < max) && width >= 1
    requires Ends(a, s, pt) == [] || (pt.pos + width <= |s.text| && Ends(a, s, pt) == [Shift(pt, width)])
    ensures Ends(a, s, pt) == [] ==> Ways(a, 0, max, used, s, pt) == [pt]
    ensures Ends(a, s, pt) != [] ==>
              Ways(a, 0, max, used, s, pt)
              == (if used + 1 >= max && max != INT32_MAX then [Shift(pt, width)]
                  else Ways(a, 0, max, used + 1, s, Shift(pt, width))) + [pt]
  {
    var n, e := |pt.caps|, Shift(pt, width);
    EachOne(KTail(a, max == INT32_MAX, Bound(max, used), true), s, pt, pt.pos, n);
    var k := if max == INT32_MAX then KStar(a, true, pt.pos) else KUpTo(a, Bound(max, used) - 1, true);
    EachOne(k, s, pt, pt.pos, n);
    if Ends(a, s, pt) == [] {
    } else {
      EachOne(k, s, e, pt.pos, n);
      EachOne(KTail(a, max == INT32_MAX, Bound(max, used + 1), true), s, e, e.pos, n);
    }
  }

  // ---------- stepping back ----------

  /** The saved state steps back one width at a time. */
  lemma {:induction false} BackYields(p: Program, args: int, end: int, width: nat, c: nat, base: Pt, stack: seq<int>,
                                      saved: seq<Entry>)
    requires 0 <= args && args + 16 <= |p.bc| && GetU32(p.bc, args + 12) == width && end == args + 16 + GetI32(p.bc, args)
    ensures (NatProduct(c, width);
             var top := Shift(base, c * width);
             Yields(p, Running(State(end, top, stack, if c > 0 then saved + [Greedy(args, top, stack, c)] else saved)),
                    end, stack, Down(base, width, c), saved))
    decreases c
  {
    hide Yields, Step, GetU32, GetI32;
    var top := Shift(base, c * width);
    if c == 0 {
      assert top == base;
      YieldsHere(p, end, base, stack, saved);
    } else {
      var mid := saved + [Greedy(args, top, stack, c)];
      var lower := Shift(base, (c - 1) * width);
      assert c * width == (c - 1) * width + width;
      assert mid[..|saved|] == saved;
      BackYields(p, args, end, width, c - 1, base, stack, saved);
      YieldsHere(p, end, top, stack, mid);
      ExtendsBy(saved, Greedy(args, top, stack, c));
      Append(p, Running(State(end, top, stack, mid)), end, stack, [top], mid, Down(base, width, c - 1), saved);
      DownFromTop(base, width, c);
    }
  }

  lemma {:induction false} NatProduct(c: nat, width: nat)
    ensures c * width >= 0
  {
  }

  lemma {:induction false} SimplePieces(bc: seq<Byte>, at: int, a: seq<Byte>, min: nat, max: nat, count: nat)
    requires Here(bc, at, SimpleCode(a, min, max, count)) && |bc| <= INT32_MAX
    requires min <= INT32_MAX && max <= INT32_MAX && count <= INT32_MAX
    ensures 0 <= at && at + 17 <= |bc| && bc[at] == OP_SIMPLE_GREEDY_QUANT
    ensures GetI32(bc, at + 1) == |a| + 1 && GetU32(bc, at + 5) == min && GetU32(bc, at + 9) == max
    ensures GetU32(bc, at + 13) == count
    ensures Here(bc, at + 17, a) && Here(bc, at + 17 + |a|, [OP_MATCH])
  {
    hide Here, U32, GetI32, GetU32;
    var f1 := [OP_SIMPLE_GREEDY_QUANT] + U32(|a| + 1);
    var f2 := f1 + U32(min);
    var f3 := f2 + U32(max);
    var f4 := f3 + U32(count);
    HereSplit(bc, at, f4 + a, [OP_MATCH]);
    HereSplit(bc, at, f4, a);
    HereSplit(bc, at, f3, U32(count));
    HereSplit(bc, at, f2, U32(max));
    HereSplit(bc, at, f1, U32(min));
    HereSplit(bc, at, [OP_SIMPLE_GREEDY_QUANT], U32(|a| + 1));
    OpAt(bc, at, OP_SIMPLE_GREEDY_QUANT);
    OpAt(bc, at + 17 + |a|, OP_MATCH);
    GetPut32(bc, at + 1, |a| + 1);
    GetPut32(bc, at + 5, min);
    GetPut32(bc, at + 9, max);
    GetPut32(bc, at + 13, count);
  }

  lemma {:induction false} CountFits(bc: seq<Byte>)
    ensures SimpleCount(bc) <= |bc|
    decreases |bc|
  {
    if bc != [] && SizeAt(bc, 0) <= |bc| { CountFits(bc[SizeAt(bc, 0)..]); }
  }

  /** The quantifier instruction, in terms of the number of iterations. */
  lemma {:induction false} StepSimple(p: Program, st: State, len: nat, min: nat, max: nat, q: nat, pos: nat)
    requires 0 <= st.pc && st.pc + 17 <= |p.bc| && p.bc[st.pc] == OP_SIMPLE_GREEDY_QUANT && st.pt.pos <= |p.s.text|
    requires GetI32(p.bc, st.pc + 1) == len && GetU32(p.bc, st.pc + 5) == min && GetU32(p.bc, st.pc + 9) == max
    requires GreedyRun(p, st.pc + 17, st.pt.pos, 0, max) == Some((q, pos))
    ensures var pt := st.pt.(pos := pos);
            Step(p, st)
            == if q < min then Fail(p.bc, st.saved)
               else Running(State(st.pc + 17 + len, pt, st.stack,
                                  if q > min then st.saved + [Greedy(st.pc + 1, pt, st.stack, q - min)] else st.saved))
  {
    hide GreedyRun, GetU32, GetI32, Fail;
  }

  /** The optimized quantifier yields the reference's ways of the quantified pattern. */
  lemma {:induction false} SimpleYields(p: Program, at: int, a: Node, min: nat, max: nat, captures: nat, pt: Pt, stack: seq<int>, saved: seq<Entry>)
    requires WellFormed(a, captures) && SimpleCount(Code(a)) >= 1 && 0 < max <= INT32_MAX && min <= max
    requires Here(p.bc, at, SimpleCode(Code(a), min, max, SimpleCount(Code(a)))) && |p.bc| <= INT32_MAX
    requires pt.pos <= |p.s.text|
    ensures Yields(p, Running(State(at, pt, stack, saved)), at + |Code(a)| + 18, stack, Ways(a, min, max, 0, p.s, pt), saved)
  {
    hide Yields, Here, SimpleCount, Ways, GreedyRun, GetU32, GetI32, Step, Fail, Code, WellFormed, Shift, Down, Atom, CountedDown;
    var width, pc := SimpleCount(Code(a)), at + 17;
    var end := pc + |Code(a)|;
    CountFits(Code(a));
    assert |Code(a)| <= |p.bc| by { HereLength(p.bc, at, Code(a), min, max, width); }
    SimplePieces(p.bc, at, Code(a), min, max, width);
    AtomHere(p, pc, end, a, width, captures);
    WaysDown(p, pc, end, a, width, captures, min, max, 0, pt);
    var (q, pos) := GreedyRun(p, pc, pt.pos, 0, max).value;
    CountedTop(a, width, min, max, p.s, pt, q, pos);
    var st := State(at, pt, stack, saved);
    StepSimple(p, st, |Code(a)| + 1, min, max, q, pos);
    if q < min {
      YieldsNone(p, end + 1, stack, saved);
    } else {
      var base := Shift(pt, min * width);
      BackYields(p, at + 1, end + 1, width, q - min, base, stack, saved);
    }
    YieldsStep(p, st, end + 1, stack, Ways(a, min, max, 0, p.s, pt), saved);
  }

  lemma {:induction false} CountedTop(a: Node, width: nat, min: nat, max: nat, s: Subject, pt: Pt, q: nat, pos: nat)
    requires pt.pos <= |s.text| && CountedDown(a, width, min, max, 0, s, pt, q, pos)
    ensures q < min ==> Ways(a, min, max, 0, s, pt) == []
    ensures q >= min ==>
      && Ways(a, min, max, 0, s, pt) == Down(Shift(pt, min * width), width, q - min)
      && Shift(Shift(pt, min * width), (q - min) * width) == pt.(pos := pos)
  {
    hide Ways, Down;
    if q >= min { TopPosition(pt, min, q, width); }
  }

  lemma {:induction false} TopPosition(pt: Pt, min: nat, q: nat, width: nat)
    requires min <= q
    ensures Shift(Shift(pt, min * width), (q - min) * width) == pt.(pos := pt.pos + q * width)
  {
    assert q * width == min * width + (q - min) * width;
  }

  lemma {:induction false} HereLength(bc: seq<Byte>, at: int, a: seq<Byte>, min: nat, max: nat, count: nat)
    requires Here(bc, at, SimpleCode(a, min, max, count))
    ensures |a| <= |bc|
  {
  }
}
