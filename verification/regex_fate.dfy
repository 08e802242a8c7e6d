/** Which runs end. An unbounded lazy loop is emitted without a test for progress, so a pattern can
    keep the machine busy for ever. The fate of a pattern says when, and is otherwise the first of the
    reference matcher's ways that what follows accepts. */
module RegexFate {
  import opened RegexBytes
  import opened RegexSyntax
  import opened RegexMatch
  import opened RegexMachine
  import opened RegexScan

  datatype Fate = Found(pt: Pt) | Fails | Forever

  /** What becomes of the rest of the pattern from a point on. */
  type Sequel = Pt -> Fate

  /** The second choice counts only when the first one fails. */
  function Else(f: Fate, g: Fate): Fate {
    if f.Fails? then g else f
  }

  /** Nothing is left to match. */
  function Stop(): Sequel {
    e => Found(e)
  }

  /** Matching n from pt, with the rest of the pattern tried at each end in turn. */
  function FateOf(n: Node, s: Subject, pt: Pt, k: Sequel): Fate
    decreases n, 0
  {
    match n
    case Empty => k(pt)
    case Leaf(t) =>
      if pt.pos > |s.text| then Fails
      else (match Advance(t, s, pt.pos) case None => Fails case Some(q) => k(pt.(pos := q)))
    case Cat(a, b) => FateOf(a, s, pt, Then(b, s, k))
    case Alt(a, b) => Else(FateOf(a, s, pt, k), FateOf(b, s, pt, k))
    case Quant(a, min, max, greedy, lo, hi) =>
      var pt' := if min == 0 then pt.(caps := ResetCaps(pt.caps, lo, hi)) else pt;
      PowerFate(a, min, s, pt', Optional(a, max == INT32_MAX, Bound(max, min), greedy, s, k))
    case Capture(i, a) => FateOf(a, s, pt.(caps := SetCap(pt.caps, 2 * i, pt.pos)), Saving(2 * i + 1, k))
    case Look(a, neg) => LookFate(FateOf(a, s, pt, Stop()), neg, pt, k)
  }

  function LookFate(inner: Fate, neg: bool, pt: Pt, k: Sequel): Fate {
    match inner
    case Forever => Forever
    case Fails => if neg then k(pt) else Fails
    case Found(e) => if neg then Fails else k(pt.(caps := e.caps))
  }

  function Then(b: Node, s: Subject, k: Sequel): Sequel
    decreases b, 1
  {
    e => FateOf(b, s, e, k)
  }

  function Saving(slot: nat, k: Sequel): Sequel {
    (e: Pt) => k(e.(caps := SetCap(e.caps, slot, e.pos)))
  }

  /** Exactly j iterations. */
  function PowerFate(a: Node, j: nat, s: Subject, pt: Pt, k: Sequel): Fate
    decreases a, 2 * j + 1
  {
    if j == 0 then k(pt) else FateOf(a, s, pt, AfterPower(a, j - 1, s, k))
  }

  function AfterPower(a: Node, j: nat, s: Subject, k: Sequel): Sequel
    decreases a, 2 * j + 2
  {
    e => PowerFate(a, j, s, e, k)
  }

  /** At most j iterations. */
  function UpToFate(a: Node, j: nat, greedy: bool, s: Subject, pt: Pt, k: Sequel): Fate
    decreases a, 2 * j + 1
  {
    if j == 0 then k(pt)
    else
      var more := FateOf(a, s, pt, AfterUpTo(a, j - 1, greedy, s, k));
      if greedy then Else(more, k(pt)) else Else(k(pt), more)
  }

  function AfterUpTo(a: Node, j: nat, greedy: bool, s: Subject, k: Sequel): Sequel
    decreases a, 2 * j + 2
  {
    e => UpToFate(a, j, greedy, s, e, k)
  }

  /** Any number of iterations. After one that ends where it began a greedy loop is left, and a lazy
      one, with what follows it known to fail here, is back where it was. */
  function StarFate(a: Node, greedy: bool, s: Subject, pt: Pt, k: Sequel): Fate
    decreases a, 2 * Left(s, pt.pos) + 1
  {
    var more := FateOf(a, s, pt, AfterStar(a, greedy, pt.pos, s, k));
    if greedy then Else(more, k(pt)) else Else(k(pt), more)
  }

  function AfterStar(a: Node, greedy: bool, from: nat, s: Subject, k: Sequel): Sequel
    decreases a, 2 * Left(s, from)
  {
    (e: Pt) => if from < e.pos <= |s.text| then StarFate(a, greedy, s, e, k) else if greedy then k(e) else Forever
  }

  /** The optional iterations of a quantifier. */
  function Optional(a: Node, unbounded: bool, bound: nat, greedy: bool, s: Subject, k: Sequel): Sequel
    decreases a, 4 + 2 * |s.text| + 2 * bound
  {
    e => if unbounded then StarFate(a, greedy, s, e, k) else UpToFate(a, bound, greedy, s, e, k)
  }

  // ---------- the captures do not decide ----------

  predicate Alike(f: Fate, g: Fate) {
    (f.Found? <==> g.Found?) && (f.Fails? <==> g.Fails?)
  }

  ghost predicate Uniform(k: Sequel) {
    forall e: Pt, e': Pt :: e.pos == e'.pos ==> Alike(k(e), k(e'))
  }

  lemma {:induction false} UniformAt(k: Sequel, e: Pt, e': Pt)
    requires Uniform(k) && e.pos == e'.pos
    ensures Alike(k(e), k(e'))
  {
  }

  /** Where the rest does not depend on captures, neither does a pattern in front of it. */
  lemma {:induction false} FateUniform(n: Node, s: Subject, pt: Pt, pt': Pt, k: Sequel)
    requires Uniform(k) && pt.pos == pt'.pos
    ensures Alike(FateOf(n, s, pt, k), FateOf(n, s, pt', k))
    decreases n, 0
  {
    hide Then, Saving, Optional, PowerFate, LookFate, SetCap, ResetCaps, Advance, Bound, Alike, Uniform;
    match n
    case Empty => UniformAt(k, pt, pt');
    case Leaf(t) => LeafUniform(t, s, pt, pt', k);
    case Cat(a, b) =>
      ThenUniform(b, s, k);
      FateUniform(a, s, pt, pt', Then(b, s, k));
    case Alt(a, b) =>
      FateUniform(a, s, pt, pt', k);
      FateUniform(b, s, pt, pt', k);
      ElseAlike(FateOf(a, s, pt, k), FateOf(b, s, pt, k), FateOf(a, s, pt', k), FateOf(b, s, pt', k));
    case Quant(a, min, max, greedy, lo, hi) =>
      var q := if min == 0 then pt.(caps := ResetCaps(pt.caps, lo, hi)) else pt;
      var q' := if min == 0 then pt'.(caps := ResetCaps(pt'.caps, lo, hi)) else pt';
      var rest := Optional(a, max == INT32_MAX, Bound(max, min), greedy, s, k);
      OptionalUniform(a, max == INT32_MAX, Bound(max, min), greedy, s, k);
      PowerUniform(a, min, s, q, q', rest);
    case Capture(i, a) =>
      SavingUniform(2 * i + 1, k);
      FateUniform(a, s, pt.(caps := SetCap(pt.caps, 2 * i, pt.pos)), pt'.(caps := SetCap(pt'.caps, 2 * i, pt'.pos)),
                  Saving(2 * i + 1, k));
    case Look(a, neg) =>
      StopUniform();
      FateUniform(a, s, pt, pt', Stop());
      LookAlike(FateOf(a, s, pt, Stop()), FateOf(a, s, pt', Stop()), neg, pt, pt', k);
  }

  lemma {:induction false} StopUniform()
    ensures Uniform(Stop())
  {
  }

  lemma {:induction false} LeafUniform(t: Test, s: Subject, pt: Pt, pt': Pt, k: Sequel)
    requires Uniform(k) && pt.pos == pt'.pos
    ensures Alike(FateOf(Leaf(t), s, pt, k), FateOf(Leaf(t), s, pt', k))
  {
    hide Advance;
  }

  lemma {:induction false} ElseAlike(f: Fate, g: Fate, f': Fate, g': Fate)
    requires Alike(f, f') && Alike(g, g')
    ensures Alike(Else(f, g), Else(f', g'))
  {
  }

  lemma {:induction false} LookAlike(inner: Fate, inner': Fate, neg: bool, pt: Pt, pt': Pt, k: Sequel)
    requires Uniform(k) && pt.pos == pt'.pos && Alike(inner, inner')
    ensures Alike(LookFate(inner, neg, pt, k), LookFate(inner', neg, pt', k))
  {
    var at := match inner case Found(e) => pt.(caps := e.caps) case _ => pt;
    var at' := match inner' case Found(e) => pt'.(caps := e.caps) case _ => pt';
    UniformAt(k, at, at');
  }

  lemma {:induction false} ThenUniform(b: Node, s: Subject, k: Sequel)
    requires Uniform(k)
    ensures Uniform(Then(b, s, k))
    decreases b, 1
  {
    hide FateOf;
    forall e: Pt, e': Pt | e.pos == e'.pos ensures Alike(Then(b, s, k)(e), Then(b, s, k)(e')) {
      FateUniform(b, s, e, e', k);
    }
  }

  lemma {:induction false} SavingUniform(slot: nat, k: Sequel)
    requires Uniform(k)
    ensures Uniform(Saving(slot, k))
  {
    forall e: Pt, e': Pt | e.pos == e'.pos ensures Alike(Saving(slot, k)(e), Saving(slot, k)(e')) {
      UniformAt(k, e.(caps := SetCap(e.caps, slot, e.pos)), e'.(caps := SetCap(e'.caps, slot, e'.pos)));
    }
  }

  lemma {:induction false} PowerUniform(a: Node, j: nat, s: Subject, pt: Pt, pt': Pt, k: Sequel)
    requires Uniform(k) && pt.pos == pt'.pos
    ensures Alike(PowerFate(a, j, s, pt, k), PowerFate(a, j, s, pt', k))
    decreases a, 2 * j + 1
  {
    hide FateOf, AfterPower;
    if j > 0 {
      AfterPowerUniform(a, j - 1, s, k);
      FateUniform(a, s, pt, pt', AfterPower(a, j - 1, s, k));
    }
  }

  lemma {:induction false} AfterPowerUniform(a: Node, j: nat, s: Subject, k: Sequel)
    requires Uniform(k)
    ensures Uniform(AfterPower(a, j, s, k))
    decreases a, 2 * j + 2
  {
    hide PowerFate;
    forall e: Pt, e': Pt | e.pos == e'.pos ensures Alike(AfterPower(a, j, s, k)(e), AfterPower(a, j, s, k)(e')) {
      PowerUniform(a, j, s, e, e', k);
    }
  }

  lemma {:induction false} UpToUniform(a: Node, j: nat, greedy: bool, s: Subject, pt: Pt, pt': Pt, k: Sequel)
    requires Uniform(k) && pt.pos == pt'.pos
    ensures Alike(UpToFate(a, j, greedy, s, pt, k), UpToFate(a, j, greedy, s, pt', k))
    decreases a, 2 * j + 1
  {
    hide FateOf, AfterUpTo;
    if j > 0 {
      AfterUpToUniform(a, j - 1, greedy, s, k);
      FateUniform(a, s, pt, pt', AfterUpTo(a, j - 1, greedy, s, k));
    }
  }

  lemma {:induction false} AfterUpToUniform(a: Node, j: nat, greedy: bool, s: Subject, k: Sequel)
    requires Uniform(k)
    ensures Uniform(AfterUpTo(a, j, greedy, s, k))
    decreases a, 2 * j + 2
  {
    hide UpToFate;
    forall e: Pt, e': Pt | e.pos == e'.pos
      ensures Alike(AfterUpTo(a, j, greedy, s, k)(e), AfterUpTo(a, j, greedy, s, k)(e'))
    {
      UpToUniform(a, j, greedy, s, e, e', k);
    }
  }

  lemma {:induction false} StarUniform(a: Node, greedy: bool, s: Subject, pt: Pt, pt': Pt, k: Sequel)
    requires Uniform(k) && pt.pos == pt'.pos
    ensures Alike(StarFate(a, greedy, s, pt, k), StarFate(a, greedy, s, pt', k))
    decreases a, 2 * Left(s, pt.pos) + 1
  {
    hide FateOf, AfterStar;
    AfterStarUniform(a, greedy, pt.pos, s, k);
    FateUniform(a, s, pt, pt', AfterStar(a, greedy, pt.pos, s, k));
  }

  lemma {:induction false} AfterStarUniform(a: Node, greedy: bool, from: nat, s: Subject, k: Sequel)
    requires Uniform(k)
    ensures Uniform(AfterStar(a, greedy, from, s, k))
    decreases a, 2 * Left(s, from)
  {
    hide StarFate;
    forall e: Pt, e': Pt | e.pos == e'.pos
      ensures Alike(AfterStar(a, greedy, from, s, k)(e), AfterStar(a, greedy, from, s, k)(e'))
    {
      if from < e.pos <= |s.text| { StarUniform(a, greedy, s, e, e', k); }
    }
  }

  lemma {:induction false} OptionalUniform(a: Node, unbounded: bool, bound: nat, greedy: bool, s: Subject, k: Sequel)
    requires Uniform(k)
    ensures Uniform(Optional(a, unbounded, bound, greedy, s, k))
    decreases a, 4 + 2 * |s.text| + 2 * bound
  {
    hide StarFate, UpToFate;
    var rest := Optional(a, unbounded, bound, greedy, s, k);
    forall e: Pt, e': Pt | e.pos == e'.pos ensures Alike(rest(e), rest(e')) {
      if unbounded { StarUniform(a, greedy, s, e, e', k); } else { UpToUniform(a, bound, greedy, s, e, e', k); }
    }
  }

  // ---------- the fate and the reference ----------

  /** The first of some ends that the rest accepts. */
  function FirstOf(ends: seq<Pt>, k: Sequel): Fate
    decreases |ends|
  {
    if ends == [] then Fails else Else(k(ends[0]), FirstOf(ends[1..], k))
  }

  lemma {:induction false} FirstConcat(ps: seq<Pt>, qs: seq<Pt>, k: Sequel)
    ensures FirstOf(ps + qs, k) == Else(FirstOf(ps, k), FirstOf(qs, k))
    decreases |ps|
  {
    if ps == [] {
      assert ps + qs == qs;
    } else {
      assert (ps + qs)[1..] == ps[1..] + qs;
      FirstConcat(ps[1..], qs, k);
    }
  }

  lemma {:induction false} FirstOne(e: Pt, k: Sequel)
    ensures FirstOf([e], k) == k(e)
  {
    assert [e][1..] == [];
  }

  /** f is what the reference says, or it runs for ever where that is allowed. */
  predicate Agrees(f: Fate, g: Fate, exact: bool) {
    f == g || (!exact && f.Forever?)
  }

  /** A pattern agrees with the reference, whatever follows it. */
  ghost predicate Refers(n: Node, s: Subject, exact: bool) {
    forall pt: Pt, k: Sequel :: pt.pos <= |s.text| ==> Agrees(FateOf(n, s, pt, k), FirstOf(Ends(n, s, pt), k), exact)
  }

  lemma {:induction false} RefersAt(n: Node, s: Subject, exact: bool, pt: Pt, k: Sequel)
    requires Refers(n, s, exact) && pt.pos <= |s.text|
    ensures Agrees(FateOf(n, s, pt, k), FirstOf(Ends(n, s, pt), k), exact)
  {
    hide FateOf, FirstOf, Ends, Agrees;
  }

  lemma {:induction false} ElseAgrees(f: Fate, g: Fate, f': Fate, g': Fate, exact: bool)
    requires Agrees(f, f', exact) && Agrees(g, g', exact)
    ensures Agrees(Else(f, g), Else(f', g'), exact)
  {
  }

  /** What follows each end agrees, so it agrees with all their continuations. */
  lemma {:induction false} EachAgrees(kont: Kont, s: Subject, ends: seq<Pt>, low: nat, n: nat, c: Sequel, k: Sequel, exact: bool)
    requires forall e <- ends :: low <= e.pos <= |s.text| && |e.caps| == n
    requires forall e <- ends :: Agrees(c(e), FirstOf(After(kont, s, e), k), exact)
    ensures Agrees(FirstOf(ends, c), FirstOf(Each(kont, s, ends, low, n), k), exact)
    decreases |ends|
  {
    hide After, Agrees;
    if ends != [] {
      assert ends[0] in ends;
      EachAgrees(kont, s, ends[1..], low, n, c, k, exact);
      var first, rest := After(kont, s, ends[0]), Each(kont, s, ends[1..], low, n);
      FirstConcat(first, rest, k);
      ElseAgrees(c(ends[0]), FirstOf(ends[1..], c), FirstOf(first, k), FirstOf(rest, k), exact);
    }
    NothingAgrees(exact);
  }

  lemma {:induction false} NothingAgrees(exact: bool)
    ensures Agrees(Fails, Fails, exact)
  {
  }

  /** A pattern and what follows each of its ends. */
  lemma {:induction false} BindAgrees(a: Node, kont: Kont, s: Subject, pt: Pt, c: Sequel, k: Sequel, exact: bool)
    requires Refers(a, s, exact) && pt.pos <= |s.text|
    requires forall e <- Ends(a, s, pt) :: Agrees(c(e), FirstOf(After(kont, s, e), k), exact)
    ensures Agrees(FateOf(a, s, pt, c), FirstOf(Each(kont, s, Ends(a, s, pt), pt.pos, |pt.caps|), k), exact)
  {
    hide FateOf, FirstOf, Ends, Each, After, Refers;
    RefersAt(a, s, exact, pt, c);
    EachAgrees(kont, s, Ends(a, s, pt), pt.pos, |pt.caps|, c, k, exact);
  }

  lemma {:induction false} PowerRefers(a: Node, j: nat, s: Subject, pt: Pt, k: Sequel, exact: bool)
    requires Refers(a, s, exact) && pt.pos <= |s.text|
    ensures Agrees(PowerFate(a, j, s, pt, k), FirstOf(Power(a, j, s, pt), k), exact)
    decreases j
  {
    hide FateOf, FirstOf, Ends, Each, Refers, Agrees;
    if j == 0 {
      FirstOne(pt, k);
      SelfAgrees(k(pt), exact);
    } else {
      forall e <- Ends(a, s, pt) ensures Agrees(AfterPower(a, j - 1, s, k)(e), FirstOf(After(KPower(a, j - 1), s, e), k), exact) {
        PowerRefers(a, j - 1, s, e, k, exact);
      }
      BindAgrees(a, KPower(a, j - 1), s, pt, AfterPower(a, j - 1, s, k), k, exact);
    }
  }

  lemma {:induction false} SelfAgrees(f: Fate, exact: bool)
    ensures Agrees(f, f, exact)
  {
  }

  /** The order of one more iteration and the end. */
  lemma {:induction false} ChoiceAgrees(more: Fate, ends: seq<Pt>, greedy: bool, pt: Pt, k: Sequel, exact: bool)
    requires Agrees(more, FirstOf(ends, k), exact)
    ensures Agrees(if greedy then Else(more, k(pt)) else Else(k(pt), more),
                   FirstOf(if greedy then ends + [pt] else [pt] + ends, k), exact)
  {
    hide FirstOf, Else, Agrees;
    FirstOne(pt, k);
    SelfAgrees(k(pt), exact);
    if greedy {
      FirstConcat(ends, [pt], k);
      ElseAgrees(more, k(pt), FirstOf(ends, k), k(pt), exact);
    } else {
      FirstConcat([pt], ends, k);
      ElseAgrees(k(pt), more, k(pt), FirstOf(ends, k), exact);
    }
  }

  lemma {:induction false} UpToRefers(a: Node, j: nat, greedy: bool, s: Subject, pt: Pt, k: Sequel, exact: bool)
    requires Refers(a, s, exact) && pt.pos <= |s.text|
    ensures Agrees(UpToFate(a, j, greedy, s, pt, k), FirstOf(UpTo(a, j, greedy, s, pt), k), exact)
    decreases j
  {
    hide FateOf, FirstOf, Ends, Each, Refers, Agrees;
    if j == 0 {
      FirstOne(pt, k);
      SelfAgrees(k(pt), exact);
    } else {
      var rest := AfterUpTo(a, j - 1, greedy, s, k);
      forall e <- Ends(a, s, pt) ensures Agrees(rest(e), FirstOf(After(KUpTo(a, j - 1, greedy), s, e), k), exact) {
        UpToRefers(a, j - 1, greedy, s, e, k, exact);
      }
      BindAgrees(a, KUpTo(a, j - 1, greedy), s, pt, rest, k, exact);
      ChoiceAgrees(FateOf(a, s, pt, rest), Each(KUpTo(a, j - 1, greedy), s, Ends(a, s, pt), pt.pos, |pt.caps|), greedy, pt, k, exact);
    }
  }

  lemma {:induction false} StarRefers(a: Node, greedy: bool, s: Subject, pt: Pt, k: Sequel, exact: bool)
    requires Refers(a, s, exact) && pt.pos <= |s.text| && (exact && !greedy ==> MustAdvance(a))
    ensures Agrees(StarFate(a, greedy, s, pt, k), FirstOf(Star(a, greedy, s, pt), k), exact)
    decreases Left(s, pt.pos)
  {
    hide FateOf, FirstOf, Ends, Each, Refers, Agrees, StarFate;
    var rest := AfterStar(a, greedy, pt.pos, s, k);
    forall e <- Ends(a, s, pt) ensures Agrees(rest(e), FirstOf(After(KStar(a, greedy, pt.pos), s, e), k), exact) {
      if pt.pos < e.pos {
        StarRefers(a, greedy, s, e, k, exact);
      } else {
        StuckAgrees(a, greedy, s, pt, e, k, exact);
      }
    }
    BindAgrees(a, KStar(a, greedy, pt.pos), s, pt, rest, k, exact);
    ChoiceAgrees(FateOf(a, s, pt, rest), Each(KStar(a, greedy, pt.pos), s, Ends(a, s, pt), pt.pos, |pt.caps|), greedy, pt, k, exact);
    StarIs(a, greedy, s, pt, k);
  }

  lemma {:induction false} StarIs(a: Node, greedy: bool, s: Subject, pt: Pt, k: Sequel)
    ensures var more := FateOf(a, s, pt, AfterStar(a, greedy, pt.pos, s, k));
            StarFate(a, greedy, s, pt, k) == if greedy then Else(more, k(pt)) else Else(k(pt), more)
  {
    hide FateOf;
  }

  /** An iteration without progress. */
  lemma {:induction false} StuckAgrees(a: Node, greedy: bool, s: Subject, pt: Pt, e: Pt, k: Sequel, exact: bool)
    requires pt.pos <= |s.text| && e in Ends(a, s, pt) && e.pos == pt.pos && (exact && !greedy ==> MustAdvance(a))
    ensures Agrees(AfterStar(a, greedy, pt.pos, s, k)(e), FirstOf(After(KStar(a, greedy, pt.pos), s, e), k), exact)
  {
    hide FateOf, FirstOf, Ends, Each;
    FirstOne(e, k);
    if exact && !greedy { AdvancesSound(a, s, pt); }
  }

  lemma {:induction false} OptionalRefers(a: Node, unbounded: bool, bound: nat, greedy: bool, s: Subject, e: Pt, k: Sequel, exact: bool)
    requires Refers(a, s, exact) && e.pos <= |s.text| && (exact && unbounded && !greedy ==> MustAdvance(a))
    ensures Agrees(Optional(a, unbounded, bound, greedy, s, k)(e), FirstOf(After(KTail(a, unbounded, bound, greedy), s, e), k), exact)
  {
    hide FateOf, FirstOf, Ends, Each, Refers, Agrees, StarFate, UpToFate, Star, UpTo;
    if unbounded { StarRefers(a, greedy, s, e, k, exact); } else { UpToRefers(a, bound, greedy, s, e, k, exact); }
  }

  lemma {:induction false} QuantRefers(a: Node, min: nat, max: nat, greedy: bool, lo: nat, hi: nat, s: Subject, pt: Pt, k: Sequel, exact: bool)
    requires Refers(a, s, exact) && pt.pos <= |s.text| && (exact && max == INT32_MAX && !greedy ==> MustAdvance(a))
    ensures var n := Quant(a, min, max, greedy, lo, hi); Agrees(FateOf(n, s, pt, k), FirstOf(Ends(n, s, pt), k), exact)
  {
    hide FirstOf, Each, Refers, Agrees, PowerFate, Optional, Power, After, ResetCaps;
    var pt' := if min == 0 then pt.(caps := ResetCaps(pt.caps, lo, hi)) else pt;
    var kont := KTail(a, max == INT32_MAX, Bound(max, min), greedy);
    var rest := Optional(a, max == INT32_MAX, Bound(max, min), greedy, s, k);
    PowerRefers(a, min, s, pt', rest, exact);
    forall e <- Power(a, min, s, pt') ensures Agrees(rest(e), FirstOf(After(kont, s, e), k), exact) {
      OptionalRefers(a, max == INT32_MAX, Bound(max, min), greedy, s, e, k, exact);
    }
    EachAgrees(kont, s, Power(a, min, s, pt'), pt.pos, |pt.caps|, rest, k, exact);
    AgreesTrans(PowerFate(a, min, s, pt', rest), FirstOf(Power(a, min, s, pt'), rest),
                FirstOf(Each(kont, s, Power(a, min, s, pt'), pt.pos, |pt.caps|), k), exact);
  }

  lemma {:induction false} AgreesTrans(f: Fate, g: Fate, h: Fate, exact: bool)
    requires Agrees(f, g, exact) && Agrees(g, h, exact)
    ensures Agrees(f, h, exact)
  {
  }

  lemma {:induction false} CatRefers(a: Node, b: Node, s: Subject, pt: Pt, k: Sequel, exact: bool)
    requires Refers(a, s, exact) && Refers(b, s, exact) && pt.pos <= |s.text|
    ensures Agrees(FateOf(Cat(a, b), s, pt, k), FirstOf(Ends(Cat(a, b), s, pt), k), exact)
  {
    hide FirstOf, Each, Refers, Agrees;
    forall e <- Ends(a, s, pt) ensures Agrees(Then(b, s, k)(e), FirstOf(After(KNode(b), s, e), k), exact) {
      RefersAt(b, s, exact, e, k);
    }
    BindAgrees(a, KNode(b), s, pt, Then(b, s, k), k, exact);
  }

  lemma {:induction false} CaptureRefers(i: nat, a: Node, s: Subject, pt: Pt, k: Sequel, exact: bool)
    requires Refers(a, s, exact) && pt.pos <= |s.text|
    ensures Agrees(FateOf(Capture(i, a), s, pt, k), FirstOf(Ends(Capture(i, a), s, pt), k), exact)
  {
    hide FirstOf, Each, Refers, Agrees, SetCap;
    var pt' := pt.(caps := SetCap(pt.caps, 2 * i, pt.pos));
    forall e <- Ends(a, s, pt')
      ensures Agrees(Saving(2 * i + 1, k)(e), FirstOf(After(KSave(a, 2 * i + 1), s, e), k), exact)
    {
      var e' := e.(caps := SetCap(e.caps, 2 * i + 1, e.pos));
      FirstOne(e', k);
      SelfAgrees(k(e'), exact);
    }
    BindAgrees(a, KSave(a, 2 * i + 1), s, pt', Saving(2 * i + 1, k), k, exact);
  }

  lemma {:induction false} LookRefers(a: Node, neg: bool, s: Subject, pt: Pt, k: Sequel, exact: bool)
    requires Refers(a, s, exact) && pt.pos <= |s.text|
    ensures Agrees(FateOf(Look(a, neg), s, pt, k), FirstOf(Ends(Look(a, neg), s, pt), k), exact)
  {
    hide Refers;
    RefersAt(a, s, exact, pt, Stop());
    var ends := Ends(a, s, pt);
    FirstOne(pt, k);
    if ends != [] { FirstOne(pt.(caps := ends[0].caps), k); }
  }

  /** The fate of a pattern is the first end the rest accepts, in the reference's order, or it is to
      run for ever; without unbounded lazy loops over atoms that may be empty it is never that. */
  lemma {:induction false} FateRefers(n: Node, s: Subject)
    ensures Refers(n, s, Tame(n))
    decreases n, 0
  {
    hide FateOf, FirstOf, Ends, Agrees, MustAdvance;
    var exact := Tame(n);
    forall pt: Pt, k: Sequel | pt.pos <= |s.text| ensures Agrees(FateOf(n, s, pt, k), FirstOf(Ends(n, s, pt), k), exact) {
      match n
      case Empty => EmptyRefers(s, pt, k, exact);
      case Leaf(t) => LeafRefers(t, s, pt, k, exact);
      case Cat(a, b) =>
        WeakRefers(a, s, exact);
        WeakRefers(b, s, exact);
        CatRefers(a, b, s, pt, k, exact);
      case Alt(a, b) =>
        WeakRefers(a, s, exact);
        WeakRefers(b, s, exact);
        AltRefers(a, b, s, pt, k, exact);
      case Quant(a, min, max, greedy, lo, hi) =>
        WeakRefers(a, s, exact);
        QuantRefers(a, min, max, greedy, lo, hi, s, pt, k, exact);
      case Capture(i, a) =>
        WeakRefers(a, s, exact);
        CaptureRefers(i, a, s, pt, k, exact);
      case Look(a, neg) =>
        WeakRefers(a, s, exact);
        LookRefers(a, neg, s, pt, k, exact);
    }
  }

  lemma {:induction false} WeakRefers(n: Node, s: Subject, exact: bool)
    requires exact ==> Tame(n)
    ensures Refers(n, s, exact)
    decreases n, 1
  {
    hide FateOf, FirstOf, Ends;
    FateRefers(n, s);
  }

  lemma {:induction false} EmptyRefers(s: Subject, pt: Pt, k: Sequel, exact: bool)
    requires pt.pos <= |s.text|
    ensures Agrees(FateOf(Empty, s, pt, k), FirstOf(Ends(Empty, s, pt), k), exact)
  {
    FirstOne(pt, k);
  }

  lemma {:induction false} LeafRefers(t: Test, s: Subject, pt: Pt, k: Sequel, exact: bool)
    requires pt.pos <= |s.text|
    ensures Agrees(FateOf(Leaf(t), s, pt, k), FirstOf(Ends(Leaf(t), s, pt), k), exact)
  {
    hide Advance;
    match Advance(t, s, pt.pos) case None => case Some(q) => FirstOne(pt.(pos := q), k);
  }

  lemma {:induction false} AltRefers(a: Node, b: Node, s: Subject, pt: Pt, k: Sequel, exact: bool)
    requires Refers(a, s, exact) && Refers(b, s, exact) && pt.pos <= |s.text|
    ensures Agrees(FateOf(Alt(a, b), s, pt, k), FirstOf(Ends(Alt(a, b), s, pt), k), exact)
  {
    hide FirstOf, Refers, Agrees;
    RefersAt(a, s, exact, pt, k);
    RefersAt(b, s, exact, pt, k);
    FirstConcat(Ends(a, s, pt), Ends(b, s, pt), k);
    ElseAgrees(FateOf(a, s, pt, k), FateOf(b, s, pt, k), FirstOf(Ends(a, s, pt), k), FirstOf(Ends(b, s, pt), k), exact);
  }

  /** Straight-line code always comes to an end. */
  lemma {:induction false} SimpleRefers(n: Node, s: Subject)
    requires SimpleCount(Code(n)) >= 0
    ensures Refers(n, s, true)
  {
    hide SimpleCount, Refers, QuantCode, MustAdvance;
    match n
    case Empty => FateRefers(n, s);
    case Leaf(t) => FateRefers(n, s);
    case Cat(a, b) =>
      CodeScan(a);
      ScanConcat(Code(a), Code(b));
      SimpleRefers(a, s);
      SimpleRefers(b, s);
      SimpleCat(a, b, s);
    case Alt(_, _) => NotStraight(n);
    case Quant(a, min, max, greedy, lo, hi) =>
      CodeScan(a);
      QuantScan(Code(a), min, max, greedy, lo, hi);
      if Code(n) == Code(a) && min == 1 {
        SimpleRefers(a, s);
        SimpleQuant(a, min, max, greedy, lo, hi, s);
      } else {
        SimpleNever(a, max, greedy, lo, hi, s);
      }
    case Capture(_, _) => NotStraight(n);
    case Look(_, _) => NotStraight(n);
  }

  lemma {:induction false} SimpleCat(a: Node, b: Node, s: Subject)
    requires Refers(a, s, true) && Refers(b, s, true)
    ensures Refers(Cat(a, b), s, true)
  {
    hide FateOf, FirstOf, Ends, Agrees;
    forall pt: Pt, k: Sequel | pt.pos <= |s.text|
      ensures Agrees(FateOf(Cat(a, b), s, pt, k), FirstOf(Ends(Cat(a, b), s, pt), k), true)
    {
      CatRefers(a, b, s, pt, k, true);
    }
  }

  lemma {:induction false} SimpleQuant(a: Node, min: nat, max: nat, greedy: bool, lo: nat, hi: nat, s: Subject)
    requires Refers(a, s, true) && (max == INT32_MAX && !greedy ==> MustAdvance(a))
    ensures Refers(Quant(a, min, max, greedy, lo, hi), s, true)
  {
    hide FateOf, FirstOf, Ends, Agrees;
    var n := Quant(a, min, max, greedy, lo, hi);
    forall pt: Pt, k: Sequel | pt.pos <= |s.text| ensures Agrees(FateOf(n, s, pt, k), FirstOf(Ends(n, s, pt), k), true) {
      QuantRefers(a, min, max, greedy, lo, hi, s, pt, k, true);
    }
  }

  lemma {:induction false} NeverFate(a: Node, max: nat, greedy: bool, lo: nat, hi: nat, s: Subject, pt: Pt, k: Sequel)
    requires max == 0 && ResetCaps(pt.caps, lo, hi) == pt.caps
    ensures FateOf(Quant(a, 0, max, greedy, lo, hi), s, pt, k) == k(pt)
  {
    hide ResetCaps;
    assert UpToFate(a, 0, greedy, s, pt, k) == k(pt);
    assert PowerFate(a, 0, s, pt, Optional(a, false, 0, greedy, s, k)) == k(pt);
  }

  lemma {:induction false} SimpleNever(a: Node, max: nat, greedy: bool, lo: nat, hi: nat, s: Subject)
    requires max == 0 && lo == hi
    ensures Refers(Quant(a, 0, max, greedy, lo, hi), s, true)
  {
    hide FateOf, FirstOf, Ends, Agrees;
    var n := Quant(a, 0, max, greedy, lo, hi);
    forall pt: Pt, k: Sequel | pt.pos <= |s.text| ensures Agrees(FateOf(n, s, pt, k), FirstOf(Ends(n, s, pt), k), true) {
      ResetNothing(pt.caps, lo);
      NeverAtAll(a, s, pt, max, greedy, lo, hi);
      NeverFate(a, max, greedy, lo, hi, s, pt, k);
      FirstOne(pt, k);
      SelfAgrees(k(pt), true);
    }
  }
}
