/** Running a piece of code "yields" a list of points: it reaches its end with the first one, and
    whenever the rest of the run fails back into it, with the next one, until it fails itself. */
module RegexYields {
  import opened RegexBytes
  import opened RegexMatch
  import opened RegexMachine

  ghost predicate Reaches(p: Program, o: Outcome, o': Outcome) {
    exists n: nat :: Run(p, o, n) == o'
  }

  lemma {:induction false} RunAdd(p: Program, o: Outcome, m: nat, n: nat)
    ensures Run(p, Run(p, o, m), n) == Run(p, o, m + n)
    decreases m
  {
    if m == 0 {
    } else if !o.Running? {
    } else {
      RunAdd(p, Step(p, o.st), m - 1, n);
    }
  }

  lemma {:induction false} DoneStays(p: Program, o: Outcome, steps: nat)
    requires !o.Running?
    ensures Run(p, o, steps) == o
  {
  }

  lemma {:induction false} ReachesSelf(p: Program, o: Outcome)
    ensures Reaches(p, o, o)
  {
    assert Run(p, o, 0) == o;
  }

  lemma {:induction false} ReachesTrans(p: Program, o1: Outcome, o2: Outcome, o3: Outcome)
    requires Reaches(p, o1, o2) && Reaches(p, o2, o3)
    ensures Reaches(p, o1, o3)
  {
    hide Step;
    var m: nat :| Run(p, o1, m) == o2;
    var n: nat :| Run(p, o2, n) == o3;
    RunAdd(p, o1, m, n);
  }

  lemma {:induction false} ReachesStep(p: Program, st: State)
    ensures Reaches(p, Running(st), Step(p, st))
  {
    assert Run(p, Running(st), 1) == Run(p, Step(p, st), 0);
  }

  /** More saved states on top, none of them an assertion. */
  ghost predicate Extends(saved': seq<Entry>, saved: seq<Entry>) {
    |saved| <= |saved'| && saved'[..|saved|] == saved
    && forall i :: |saved| <= i < |saved'| ==> !saved'[i].Assertion?
  }

  lemma {:induction false} ExtendsTrans(s1: seq<Entry>, s2: seq<Entry>, s3: seq<Entry>)
    requires Extends(s1, s2) && Extends(s2, s3)
    ensures Extends(s1, s3)
  {
    assert s1[..|s3|] == s1[..|s2|][..|s3|];
    forall i | |s3| <= i < |s1| ensures !s1[i].Assertion? {
      if i < |s2| { assert s1[i] == s1[..|s2|][i]; }
    }
  }

  lemma {:induction false} ExtendsBy(saved: seq<Entry>, e: Entry)
    requires !e.Assertion?
    ensures Extends(saved + [e], saved)
  {
  }

  /** An accepting run does not care about the choices left open above the assertions. */
  lemma {:induction false} SucceedIgnoresChoices(bc: seq<Byte>, saved': seq<Entry>, saved: seq<Entry>, pt: Pt)
    requires Extends(saved', saved)
    ensures Succeed(bc, saved', pt) == Succeed(bc, saved, pt)
    decreases |saved'|
  {
    if |saved'| == |saved| {
      assert saved' == saved;
    } else {
      var rest := saved'[..|saved'| - 1];
      assert rest[..|saved|] == saved'[..|saved|];
      SucceedIgnoresChoices(bc, rest, saved, pt);
    }
  }

  ghost predicate Yields(p: Program, o: Outcome, q: int, stack: seq<int>, ends: seq<Pt>, saved: seq<Entry>)
    decreases |ends|
  {
    if ends == [] then Reaches(p, o, Fail(p.bc, saved))
    else
      exists saved' ::
        && Extends(saved', saved)
        && Reaches(p, o, Running(State(q, ends[0], stack, saved')))
        && Yields(p, Fail(p.bc, saved'), q, stack, ends[1..], saved)
  }

  lemma {:induction false} YieldsEmpty(p: Program, o: Outcome, q: int, stack: seq<int>, saved: seq<Entry>)
    requires Yields(p, o, q, stack, [], saved)
    ensures Reaches(p, o, Fail(p.bc, saved))
  {
  }

  lemma {:induction false} YieldsFirst(p: Program, o: Outcome, q: int, stack: seq<int>, ends: seq<Pt>, saved: seq<Entry>)
    returns (saved': seq<Entry>)
    requires ends != [] && Yields(p, o, q, stack, ends, saved)
    ensures Extends(saved', saved) && Reaches(p, o, Running(State(q, ends[0], stack, saved')))
    ensures Yields(p, Fail(p.bc, saved'), q, stack, ends[1..], saved)
  {
    hide Reaches, Step, Run, Fail;
    saved' :| Extends(saved', saved) && Reaches(p, o, Running(State(q, ends[0], stack, saved')))
              && Yields(p, Fail(p.bc, saved'), q, stack, ends[1..], saved);
  }

  lemma {:induction false} YieldsFrom(p: Program, o: Outcome, o': Outcome, q: int, stack: seq<int>, ends: seq<Pt>, saved: seq<Entry>)
    requires Reaches(p, o, o') && Yields(p, o', q, stack, ends, saved)
    ensures Yields(p, o, q, stack, ends, saved)
  {
    if ends == [] {
      ReachesTrans(p, o, o', Fail(p.bc, saved));
    } else {
      var saved' :| Extends(saved', saved) && Reaches(p, o', Running(State(q, ends[0], stack, saved')))
                    && Yields(p, Fail(p.bc, saved'), q, stack, ends[1..], saved);
      ReachesTrans(p, o, o', Running(State(q, ends[0], stack, saved')));
    }
  }

  /** One instruction first. */
  lemma {:induction false} YieldsStep(p: Program, st: State, q: int, stack: seq<int>, ends: seq<Pt>, saved: seq<Entry>)
    requires Yields(p, Step(p, st), q, stack, ends, saved)
    ensures Yields(p, Running(st), q, stack, ends, saved)
  {
    ReachesStep(p, st);
    YieldsFrom(p, Running(st), Step(p, st), q, stack, ends, saved);
  }

  /** Standing at the end already is one way. */
  lemma {:induction false} YieldsHere(p: Program, q: int, pt: Pt, stack: seq<int>, saved: seq<Entry>)
    ensures Yields(p, Running(State(q, pt, stack, saved)), q, stack, [pt], saved)
  {
    var o := Running(State(q, pt, stack, saved));
    ReachesSelf(p, o);
    ReachesSelf(p, Fail(p.bc, saved));
    assert [pt][1..] == [];
    assert Extends(saved, saved);
  }

  lemma {:induction false} YieldsNone(p: Program, q: int, stack: seq<int>, saved: seq<Entry>)
    ensures Yields(p, Fail(p.bc, saved), q, stack, [], saved)
  {
    ReachesSelf(p, Fail(p.bc, saved));
  }

  /** First the ways above `mid`, then those found by failing out of `mid`. */
  lemma {:induction false} Append(p: Program, o: Outcome, q: int, stack: seq<int>, xs: seq<Pt>, mid: seq<Entry>,
                                  ys: seq<Pt>, saved: seq<Entry>)
    requires Yields(p, o, q, stack, xs, mid) && Extends(mid, saved)
    requires Yields(p, Fail(p.bc, mid), q, stack, ys, saved)
    ensures Yields(p, o, q, stack, xs + ys, saved)
    decreases |xs|
  {
    hide Reaches, Run, Step, Fail, Extends;
    if xs == [] {
      YieldsFrom(p, o, Fail(p.bc, mid), q, stack, ys, saved);
      assert xs + ys == ys;
    } else {
      var saved' :| Extends(saved', mid) && Reaches(p, o, Running(State(q, xs[0], stack, saved')))
                    && Yields(p, Fail(p.bc, saved'), q, stack, xs[1..], mid);
      Append(p, Fail(p.bc, saved'), q, stack, xs[1..], mid, ys, saved);
      ExtendsTrans(saved', mid, saved);
      assert (xs + ys)[1..] == xs[1..] + ys;
    }
  }

  /** Continuing each way e of a first piece (ending at q) with the ways After(k, e) of a second
      piece (ending at r). */
  ghost predicate Continues(p: Program, q: int, stack: seq<int>, k: Kont, e: Pt, r: int, stack': seq<int>, mid: seq<Entry>)
    requires e.pos <= |p.s.text|
  {
    forall saved' :: Extends(saved', mid) ==>
      Yields(p, Running(State(q, e, stack, saved')), r, stack', After(k, p.s, e), saved')
  }

  lemma {:induction false} ContinuesAt(p: Program, q: int, stack: seq<int>, k: Kont, e: Pt, r: int, stack': seq<int>,
                    mid: seq<Entry>, saved': seq<Entry>)
    requires e.pos <= |p.s.text| && Extends(saved', mid)
    requires Continues(p, q, stack, k, e, r, stack', mid)
    ensures Yields(p, Running(State(q, e, stack, saved')), r, stack', After(k, p.s, e), saved')
  {
    hide Yields, After, Extends;
  }

  lemma {:induction false} Bind(p: Program, o: Outcome, q: int, stack: seq<int>, ends: seq<Pt>, mid: seq<Entry>,
                                k: Kont, r: int, stack': seq<int>, low: nat, n: nat, more: seq<Pt>, saved: seq<Entry>)
    requires forall e <- ends :: low <= e.pos <= |p.s.text| && |e.caps| == n
    requires Yields(p, o, q, stack, ends, mid) && Extends(mid, saved)
    requires forall e <- ends :: Continues(p, q, stack, k, e, r, stack', mid)
    requires Yields(p, Fail(p.bc, mid), r, stack', more, saved)
    ensures Yields(p, o, r, stack', Each(k, p.s, ends, low, n) + more, saved)
    decreases |ends|
  {
    hide Reaches, Run, Step, Fail, Extends, Yields, After, Continues;
    if ends == [] {
      YieldsEmpty(p, o, q, stack, mid);
      YieldsFrom(p, o, Fail(p.bc, mid), r, stack', more, saved);
      assert [] + more == more;
    } else {
      var saved' := YieldsFirst(p, o, q, stack, ends, mid);
      var first, rest := After(k, p.s, ends[0]), Each(k, p.s, ends[1..], low, n) + more;
      Bind(p, Fail(p.bc, saved'), q, stack, ends[1..], mid, k, r, stack', low, n, more, saved);
      ContinuesAt(p, q, stack, k, ends[0], r, stack', mid, saved');
      ExtendsTrans(saved', mid, saved);
      Append(p, Running(State(q, ends[0], stack, saved')), r, stack', first, saved', rest, saved);
      YieldsFrom(p, o, Running(State(q, ends[0], stack, saved')), r, stack', first + rest, saved);
      assert first + rest == Each(k, p.s, ends, low, n) + more;
    }
  }

  /** The common case: nothing more after the first piece fails. */
  lemma {:induction false} BindAll(p: Program, o: Outcome, q: int, stack: seq<int>, ends: seq<Pt>, k: Kont, r: int, stack': seq<int>,
                low: nat, n: nat, saved: seq<Entry>)
    requires forall e <- ends :: low <= e.pos <= |p.s.text| && |e.caps| == n
    requires Yields(p, o, q, stack, ends, saved)
    requires forall e <- ends :: Continues(p, q, stack, k, e, r, stack', saved)
    ensures Yields(p, o, r, stack', Each(k, p.s, ends, low, n), saved)
  {
    YieldsNone(p, r, stack', saved);
    assert Extends(saved, saved);
    Bind(p, o, q, stack, ends, saved, k, r, stack', low, n, [], saved);
    assert Each(k, p.s, ends, low, n) + [] == Each(k, p.s, ends, low, n);
  }
}
