/** The generator of the run-length tables and their indexes, and when it can finish. */
module UnicodeGen {

  import opened UnicodeTable

  /** CHARCODE_MAX */
  const CHARCODE_MAX := 0x10_ffff

  /** The value at i of the set to encode. */
  predicate Prop(prop: seq<bool>, c: int) {
    0 <= c < |prop| && prop[c]
  }

  /** One more run at the end. */
  lemma {:induction false} LookSnoc(runs: seq<nat>, x: nat, c: int)
    requires x >= 1 && 0 <= c
    ensures Look(runs + [x], 0, false, c) ==
      if c < Sum(runs) then Look(runs, 0, false, c) else c < Sum(runs) + x && |runs| % 2 == 1
    ensures Sum(runs + [x]) == Sum(runs) + x
  {
    SumConcat(runs, [x]);
    assert Sum([x]) == x by { assert [x][1..] == []; }
    if c < Sum(runs) {
      LookPrefix(runs, [x], 0, false, c);
    } else {
      LookSkip(runs, [x], 0, false, c);
      assert [x][1..] == [];
    }
  }

  /** The runs so far cover the first i code points, and the next run starts there. */
  ghost predicate Covered(runs: seq<nat>, prop: seq<bool>, i: nat) {
    && i <= |prop| && Sum(runs) == i && (forall k :: 0 <= k < |runs| ==> 1 <= runs[k] <= |prop|)
    && (i < |prop| ==> prop[i] == (|runs| % 2 == 1))
    && forall c :: 0 <= c < i ==> Look(runs, 0, false, c) == prop[c]
  }

  lemma {:induction false} CoverRun(runs: seq<nat>, prop: seq<bool>, i: nat, j: nat)
    requires i < j <= |prop| && Covered(runs, prop, i)
    requires forall k :: i <= k < j ==> prop[k] == prop[i]
    requires j < |prop| ==> prop[j] != prop[i]
    ensures Covered(runs + [j - i], prop, j)
  {
    hide Look, Sum;
    forall c | 0 <= c < j ensures Look(runs + [j - i], 0, false, c) == prop[c] {
      LookSnoc(runs, j - i, c);
    }
    LookSnoc(runs, j - i, 0);
  }

  /** Only a last run outside the set may be missing. */
  lemma {:induction false} CoverAll(runs: seq<nat>, prop: seq<bool>, i: nat)
    requires Covered(runs, prop, i) && forall k :: i <= k < |prop| ==> !prop[k]
    ensures Sum(runs) <= |prop| && forall k :: 0 <= k < |runs| ==> 1 <= runs[k] <= |prop|
    ensures forall c :: Look(runs, 0, false, c) == Prop(prop, c)
  {
    hide Sum;
    forall c ensures Look(runs, 0, false, c) == Prop(prop, c) {
      if c < 0 {
        LookBelow(runs, 0, c);
      } else if c >= i {
        assert runs + [] == runs;
        LookSkip(runs, [], 0, false, c);
      }
    }
  }

  /** Where the run that starts at i ends. */
  function RunEnd(prop: seq<bool>, i: nat): (j: nat)
    requires i < |prop|
    ensures i < j <= |prop| && forall k :: i <= k < j ==> prop[k] == prop[i]
    ensures j < |prop| ==> prop[j] != prop[i]
    decreases |prop| - i
  {
    if i + 1 < |prop| && prop[i + 1] == prop[i] then RunEnd(prop, i + 1) else i + 1
  }

  lemma {:induction false} RunEndIs(prop: seq<bool>, i: nat, j: nat)
    requires i < j <= |prop| && forall k :: i <= k < j ==> prop[k] == prop[i]
    requires j < |prop| ==> prop[j] != prop[i]
    ensures RunEnd(prop, i) == j
  {
    var e := RunEnd(prop, i);
    assert e < |prop| ==> prop[e] != prop[i];
  }

  /** The lengths of the maximal runs from i on, without a last one outside the set. */
  function PropRuns(prop: seq<bool>, i: nat): seq<nat>
    requires i <= |prop|
    decreases |prop| - i
  {
    if i == |prop| || (RunEnd(prop, i) == |prop| && !prop[i]) then []
    else [RunEnd(prop, i) - i] + PropRuns(prop, RunEnd(prop, i))
  }

  /** The first loop of build_prop_table: the lengths of the maximal runs. */
  method FindRuns(prop: seq<bool>) returns (runs: seq<nat>)
    requires prop != [] ==> !prop[0]
    ensures runs == PropRuns(prop, 0) && forall k :: 0 <= k < |runs| ==> 1 <= runs[k] <= |prop|
    ensures Sum(runs) <= |prop| && forall c :: Look(runs, 0, false, c) == Prop(prop, c)
  {
    hide Look, Sum, Prop, PropRuns, RunEnd, Covered;
    runs := [];
    var i := 0;
    assert Covered(runs, prop, 0) by { CoverNone(prop); }
    while i < |prop|
      invariant i <= |prop| && Covered(runs, prop, i) && PropRuns(prop, 0) == runs + PropRuns(prop, i)
    {
      var v := prop[i];
      var j := i + 1;
      while j < |prop| && prop[j] == v
        invariant i < j <= |prop| && forall k :: i <= k < j ==> prop[k] == v
      {
        j := j + 1;
      }
      RunEndIs(prop, i, j);
      PropRunsAt(prop, i);
      if j == |prop| && !v {
        break;
      }
      CoverRun(runs, prop, i, j);
      assert runs + [j - i] + PropRuns(prop, j) == runs + ([j - i] + PropRuns(prop, j));
      runs := runs + [j - i];
      i := j;
    }
    PropRunsAt(prop, i);
    assert runs + [] == runs;
    CoverAll(runs, prop, i);
  }

  lemma {:induction false} PropRunsAt(prop: seq<bool>, i: nat)
    requires i <= |prop|
    ensures i == |prop| ==> PropRuns(prop, i) == []
    ensures i < |prop| && RunEnd(prop, i) == |prop| && !prop[i] ==> PropRuns(prop, i) == []
    ensures i < |prop| && !(RunEnd(prop, i) == |prop| && !prop[i]) ==>
      PropRuns(prop, i) == [RunEnd(prop, i) - i] + PropRuns(prop, RunEnd(prop, i))
  {
  }

  lemma {:induction false} CoverNone(prop: seq<bool>)
    requires prop != [] ==> !prop[0]
    ensures Covered([], prop, 0)
  {
  }

  /** The same bytes are the same entry. */
  lemma {:induction false} SameEntry(t: seq<Byte>, p: nat, u: seq<Byte>, q: nat)
    requires Fits(t, p) && q + Width(t[p]) <= |u|
    requires t[p..p + Width(t[p])] == u[q..q + Width(t[p])]
    ensures Fits(u, q) && u[q] == t[p] && RunsAt(u, q) == RunsAt(t, p)
  {
    var w := Width(t[p]);
    assert t[p] == t[p..p + w][0] == u[q..q + w][0];
    if w > 1 { assert t[p + 1] == t[p..p + w][1] == u[q..q + w][1]; }
    if w > 2 { assert t[p + 2] == t[p..p + w][2] == u[q..q + w][2]; }
  }

  /** A whole entry appended to whole entries. */
  lemma {:induction false} AppendEntry(t: seq<Byte>, e: seq<Byte>, p: nat)
    requires Parses(t, p) && Fits(e, 0) && Width(e[0]) == |e|
    ensures Parses(t + e, p) && Runs(t + e, p) == Runs(t, p) + RunsAt(e, 0)
    decreases |t| - p
  {
    hide RunsAt, Parses, Runs, Width, Fits;
    var u := t + e;
    ParsesOne(t, p);
    ParsesOne(u, p);
    if p == |t| {
      FitsRoom(e);
      assert e[0..|e|] == u[p..p + |e|];
      SameEntry(e, 0, u, p);
      ParsesOne(u, p + |e|);
    } else {
      var next := p + Width(t[p]);
      AppendEntry(t, e, next);
      assert t[p..next] == u[p..next];
      SameEntry(t, p, u, p);
      assert RunsAt(t, p) + (Runs(t, next) + RunsAt(e, 0)) == RunsAt(t, p) + Runs(t, next) + RunsAt(e, 0);
    }
  }

  ghost predicate EntriesGood(t: seq<Byte>, index: seq<Byte>) {
    Parses(t, 0) && |index| % 3 == 0 && forall i :: 0 <= i < |index| / 3 ==> EntryGood(t, index, i)
  }

  lemma {:induction false} BoundaryStays(t: seq<Byte>, e: seq<Byte>, q: nat, code: int)
    requires Parses(t, 0) && Fits(e, 0) && Width(e[0]) == |e| && Boundary(t, q, code)
    ensures Parses(t + e, 0) && Boundary(t + e, q, code)
  {
    hide RunsAt, Runs, Sum;
    AppendEntry(t, e, 0);
    AppendEntry(t, e, q);
    var before: seq<nat> :| Runs(t, 0) == before + Runs(t, q) && |before| % 2 == 0 && Sum(before) == code;
    assert Runs(t + e, 0) == before + Runs(t + e, q);
  }

  lemma {:induction false} EntriesStay(t: seq<Byte>, e: seq<Byte>, index: seq<Byte>)
    requires EntriesGood(t, index) && Fits(e, 0) && Width(e[0]) == |e|
    ensures EntriesGood(t + e, index)
  {
    hide Boundary, Le24, Runs;
    AppendEntry(t, e, 0);
    forall i | 0 <= i < |index| / 3 ensures EntryGood(t + e, index, i) {
      assert EntryGood(t, index, i);
      BoundaryStays(t, e, EntryPos(index, i), EntryCode(index, i));
    }
  }

  /** The three bytes of an index value. */
  function Put24(v: nat): seq<Byte> {
    [v % 0x100, v / 0x100 % 0x100, v / 0x1_0000 % 0x100]
  }

  lemma {:induction false} Bytes24(v: nat)
    requires v < 0x100_0000
    ensures v % 0x100 + v / 0x100 % 0x100 * 0x100 + v / 0x1_0000 % 0x100 * 0x1_0000 == v
  {
    assert v / 0x1_0000 == v / 0x100 / 0x100;
  }

  lemma {:induction false} Le24Put(index: seq<Byte>, v: nat)
    requires |index| % 3 == 0 && v < 0x100_0000
    ensures Le24(index + Put24(v), |index| / 3) == v
  {
    var n := |index|;
    var longer := index + Put24(v);
    Bytes24(v);
    assert 3 * (n / 3) == n;
    assert longer[n] == v % 0x100 && longer[n + 1] == v / 0x100 % 0x100 && longer[n + 2] == v / 0x1_0000 % 0x100;
  }

  lemma {:induction false} Le24Same(index: seq<Byte>, more: seq<Byte>, i: nat)
    requires 3 * i + 2 < |index|
    ensures Le24(index + more, i) == Le24(index, i)
  {
  }

  lemma {:induction false} SplitValue(code: nat, offset: nat)
    requires code < CODE_LIMIT
    ensures (code + offset * CODE_LIMIT) / CODE_LIMIT == offset && (code + offset * CODE_LIMIT) % CODE_LIMIT == code
  {
  }

  lemma {:induction false} EndBoundary(t: seq<Byte>, code: int)
    requires Parses(t, 0) && code == Sum(Runs(t, 0)) && |Runs(t, 0)| % 2 == 0
    ensures Boundary(t, |t|, code)
  {
    hide Sum, RunsAt;
    RunsOver(t, |t|);
    assert Runs(t, 0) == Runs(t, 0) + Runs(t, |t|);
  }

  /** An entry for the end of the table written so far. */
  lemma {:induction false} AddEntry(t: seq<Byte>, index: seq<Byte>, code: nat, offset: nat)
    requires EntriesGood(t, index) && offset <= 7 && code < CODE_LIMIT
    requires |t| == (|index| / 3 + 1) * BLOCK_LEN + offset
    requires code == Sum(Runs(t, 0)) && |Runs(t, 0)| % 2 == 0
    ensures EntriesGood(t, index + Put24(code + offset * CODE_LIMIT))
  {
    hide Le24, Runs, Put24, Sum, Boundary;
    var v := code + offset * CODE_LIMIT;
    var longer := index + Put24(v);
    assert |Put24(v)| == 3 by { PutLength(v); }
    forall i | 0 <= i < |longer| / 3 ensures EntryGood(t, longer, i) {
      if i < |index| / 3 {
        assert EntryGood(t, index, i);
        Le24Same(index, Put24(v), i);
      } else {
        Le24Put(index, v);
        SplitValue(code, offset);
        EndBoundary(t, code);
      }
    }
  }

  lemma {:induction false} PutLength(v: nat)
    ensures |Put24(v)| == 3
  {
  }

  /** The last entry is the end of the last run. */
  lemma {:induction false} CloseIndex(t: seq<Byte>, index: seq<Byte>, code: nat)
    requires EntriesGood(t, index) && code == Sum(Runs(t, 0)) < CODE_LIMIT
    ensures WellIndexed(t, index + Put24(code))
  {
    hide Le24, Runs, Put24, Sum, Boundary;
    PutLength(code);
    Le24Put(index, code);
    var longer := index + Put24(code);
    forall i | 0 <= i < |longer| / 3 - 1 ensures EntryGood(t, longer, i) {
      assert EntryGood(t, index, i);
      Le24Same(index, Put24(code), i);
    }
  }

  /** The first i runs are in the table, and the index is right so far. */
  ghost predicate Written(t: seq<Byte>, index: seq<Byte>, buf: seq<nat>, i: nat, code: int) {
    && i <= |buf| && Parses(t, 0) && Runs(t, 0) == buf[..i] && code == Sum(buf[..i])
    && EntriesGood(t, index)
  }

  lemma {:induction false} WriteNothing(buf: seq<nat>)
    ensures Written([], [], buf, 0, 0)
  {
    assert buf[..0] == [];
  }

  lemma {:induction false} WriteEntry(t: seq<Byte>, e: seq<Byte>, index: seq<Byte>, buf: seq<nat>, i: nat, n: nat, code: int)
    requires Written(t, index, buf, i, code) && Fits(e, 0) && Width(e[0]) == |e|
    requires i + n <= |buf| && RunsAt(e, 0) == buf[i..i + n]
    ensures Written(t + e, index, buf, i + n, code + Sum(buf[i..i + n]))
  {
    hide RunsAt, Runs, EntriesGood, Sum;
    AppendEntry(t, e, 0);
    EntriesStay(t, e, index);
    assert buf[..i + n] == buf[..i] + buf[i..i + n];
    SumConcat(buf[..i], buf[i..i + n]);
  }

  /** Two short runs in one byte. */
  lemma {:induction false} WriteTwo(t: seq<Byte>, index: seq<Byte>, buf: seq<nat>, i: nat, code: int)
    requires Written(t, index, buf, i, code) && i + 1 < |buf| && 1 <= buf[i] <= 8 && 1 <= buf[i + 1] <= 8
    ensures Written(t + [(buf[i] - 1) * 8 + (buf[i + 1] - 1)], index, buf, i + 2, code + buf[i] + buf[i + 1])
  {
    hide Written;
    var x, y := buf[i], buf[i + 1];
    var e: seq<Byte> := [(x - 1) * 8 + (y - 1)];
    assert RunsAt(e, 0) == [x, y];
    assert buf[i..i + 2] == [x, y];
    assert Sum([x, y]) == x + y by { assert [x, y][1..] == [y] && [y][1..] == []; assert Sum([y]) == y; }
    WriteEntry(t, e, index, buf, i, 2, code);
  }

  /** The bytes for one run, of which v is the length less one. */
  function OneRun(v: nat): seq<Byte>
    requires v < CODE_LIMIT
  {
    if v < 128 then [0x80 + v]
    else if v < 0x2000 then [0x40 + v / 0x100, v % 0x100]
    else [0x60 + v / 0x1_0000, v / 0x100 % 0x100, v % 0x100]
  }

  lemma {:induction false} OneRunEntry(v: nat)
    requires v < CODE_LIMIT
    ensures var e := OneRun(v);
            Fits(e, 0) && Width(e[0]) == |e| && RunsAt(e, 0) == [v + 1]
  {
    if v >= 0x2000 {
      assert v / 0x1_0000 == v / 0x100 / 0x100;
    }
  }

  lemma {:induction false} WriteOne(t: seq<Byte>, index: seq<Byte>, buf: seq<nat>, i: nat, code: int)
    requires Written(t, index, buf, i, code) && i < |buf| && 1 <= buf[i] <= CODE_LIMIT
    ensures Written(t + OneRun(buf[i] - 1), index, buf, i + 1, code + buf[i])
  {
    hide Written, OneRun, RunsAt;
    var x := buf[i];
    OneRunEntry(x - 1);
    assert buf[i..i + 1] == [x];
    assert Sum([x]) == x by { assert [x][1..] == []; }
    WriteEntry(t, OneRun(x - 1), index, buf, i, 1, code);
  }

  lemma {:induction false} WriteIndex(t: seq<Byte>, index: seq<Byte>, buf: seq<nat>, i: nat, code: int, offset: nat)
    requires Written(t, index, buf, i, code) && i % 2 == 0 && 0 <= code < CODE_LIMIT && offset <= 7
    requires |t| == (|index| / 3 + 1) * BLOCK_LEN + offset
    ensures Written(t, index + Put24(code + offset * CODE_LIMIT), buf, i, code)
  {
    hide Put24, EntriesGood, Runs, Sum;
    AddEntry(t, index, code, offset);
  }

  /** What has been written is below 2^21. */
  lemma {:induction false} CodeBound(t: seq<Byte>, index: seq<Byte>, buf: seq<nat>, i: nat, code: int)
    requires Written(t, index, buf, i, code)
    ensures 0 <= code <= Sum(buf) && |index| % 3 == 0
  {
    hide Sum;
    assert buf == buf[..i] + buf[i..];
    SumConcat(buf[..i], buf[i..]);
  }

  lemma {:induction false} AllWritten(t: seq<Byte>, index: seq<Byte>, buf: seq<nat>, code: int, prop: seq<bool>)
    requires Written(t, index, buf, |buf|, code) && Sum(buf) < CODE_LIMIT
    requires forall c :: Look(buf, 0, false, c) == Prop(prop, c)
    ensures Parses(t, 0) && forall c :: InTable(t, c) == Prop(prop, c)
    ensures 0 <= code && WellIndexed(t, index + Put24(code))
  {
    hide Look, Sum, Runs, EntriesGood, WellIndexed, Put24, Prop;
    assert buf[..|buf|] == buf;
    CloseIndex(t, index, code);
  }

  // ---------- when the index can be built ----------

  /** The table without an index: two short runs share a byte, any other run has one to three bytes. */
  function Layout(runs: seq<nat>): seq<Byte>
    requires forall k :: 0 <= k < |runs| ==> 1 <= runs[k] <= CODE_LIMIT
    decreases |runs|
  {
    if runs == [] then []
    else if |runs| > 1 && runs[0] <= 8 && runs[1] <= 8 then
      [(runs[0] - 1) * 8 + (runs[1] - 1)] + Layout(runs[2..])
    else OneRun(runs[0] - 1) + Layout(runs[1..])
  }

  /** From p on, where an odd number of runs comes before p or not, an entry starts at q behind an even number. */
  predicate EvenStart(t: seq<Byte>, p: nat, odd: bool, q: nat)
    requires Parses(t, p)
    decreases |t| - p
  {
    p < |t| && ((p == q && !odd) || EvenStart(t, p + Width(t[p]), odd != (t[p] >= 0x40), q))
  }

  /** The first such place at or behind e. */
  ghost predicate FirstStart(t: seq<Byte>, e: nat, q: nat)
    requires Parses(t, 0)
  {
    EvenStart(t, 0, false, q) && q >= e && forall r: nat :: EvenStart(t, 0, false, r) && r >= e ==> q <= r
  }

  function BlockEnd(k: nat): nat {
    (k + 1) * BLOCK_LEN
  }

  /** Behind the end of every block the index can point to, in three bits, the next place to start. */
  ghost predicate IndexFits(t: seq<Byte>)
    requires Parses(t, 0)
  {
    forall k: nat, q: nat :: FirstStart(t, BlockEnd(k), q) ==> q - BlockEnd(k) <= 7
  }

  lemma {:induction false} LayoutParses(runs: seq<nat>)
    requires forall k :: 0 <= k < |runs| ==> 1 <= runs[k] <= CODE_LIMIT
    ensures Parses(Layout(runs), 0) && Runs(Layout(runs), 0) == runs
    decreases |runs|
  {
    hide RunsAt, OneRun, Parses, Runs, Width, Fits;
    if runs == [] {
      ParsesOne([], 0);
    } else {
      if |runs| > 1 && runs[0] <= 8 && runs[1] <= 8 {
        var e: seq<Byte> := [(runs[0] - 1) * 8 + (runs[1] - 1)];
        LayoutParses(runs[2..]);
        TwoRunsEntry(runs[0], runs[1]);
        PrependEntry(e, Layout(runs[2..]));
        assert runs == [runs[0], runs[1]] + runs[2..];
      } else {
        LayoutParses(runs[1..]);
        OneRunEntry(runs[0] - 1);
        PrependEntry(OneRun(runs[0] - 1), Layout(runs[1..]));
        assert runs == [runs[0]] + runs[1..];
      }
    }
  }

  lemma {:induction false} TwoRunsEntry(x: nat, y: nat)
    requires 1 <= x <= 8 && 1 <= y <= 8
    ensures var e: seq<Byte> := [(x - 1) * 8 + (y - 1)];
            Fits(e, 0) && Width(e[0]) == 1 && e[0] < 0x40 && RunsAt(e, 0) == [x, y]
  {
  }

  /** A shifted table parses as before. */
  lemma {:induction false} ShiftedRuns(e: seq<Byte>, t: seq<Byte>, p: nat)
    requires Parses(t, p)
    ensures Parses(e + t, |e| + p) && Runs(e + t, |e| + p) == Runs(t, p)
    decreases |t| - p
  {
    hide RunsAt, Parses, Runs, Width, Fits;
    ParsesOne(t, p);
    if p < |t| {
      var q := p + Width(t[p]);
      assert (e + t)[|e| + p] == t[p];
      SameEntry(t, p, e + t, |e| + p);
      ShiftedRuns(e, t, q);
    }
    ParsesOne(e + t, |e| + p);
  }

  /** One entry, and the entries behind it. */
  lemma {:induction false} ParsesOne(t: seq<Byte>, p: nat)
    ensures p == |t| ==> Parses(t, p) && Runs(t, p) == []
    ensures p != |t| ==> (Parses(t, p) <==> Fits(t, p) && Parses(t, p + Width(t[p])))
    ensures p != |t| && Parses(t, p) ==> p < p + Width(t[p]) <= |t| && Runs(t, p) == RunsAt(t, p) + Runs(t, p + Width(t[p]))
  {
    hide RunsAt;
  }

  lemma {:induction false} FitsRoom(e: seq<Byte>)
    requires Fits(e, 0)
    ensures |e| > 0
  {
  }

  lemma {:induction false} PrependEntry(e: seq<Byte>, t: seq<Byte>)
    requires Fits(e, 0) && Width(e[0]) == |e| && Parses(t, 0)
    ensures Parses(e + t, 0) && Runs(e + t, 0) == RunsAt(e, 0) + Runs(t, 0)
  {
    hide RunsAt, Parses, Runs, Width, Fits;
    assert Fits(e, 0) && 0 < |e| && (e + t)[0] == e[0] by { FitsRoom(e); }
    assert e[0..|e|] == (e + t)[0..|e|];
    SameEntry(e, 0, e + t, 0);
    ShiftedRuns(e, t, 0);
    ParsesOne(e + t, 0);
  }

  lemma {:induction false} EvenStartRange(t: seq<Byte>, p: nat, odd: bool, q: nat)
    requires Parses(t, p) && EvenStart(t, p, odd, q)
    ensures p <= q < |t|
    decreases |t| - p
  {
    if !(p == q && !odd) { EvenStartRange(t, p + Width(t[p]), odd != (t[p] >= 0x40), q); }
  }

  /** Entries for n blocks have been made, and the place for the next one is not before pos. */
  ghost predicate SoFar(t: seq<Byte>, pos: nat, odd: bool, n: nat) {
    && Parses(t, 0) && Parses(t, pos)
    && (forall q: nat :: q >= pos ==> EvenStart(t, 0, false, q) == EvenStart(t, pos, odd, q))
    && (forall k: nat, q: nat :: k < n && FirstStart(t, BlockEnd(k), q) ==> q - BlockEnd(k) <= 7)
    && (forall q: nat :: EvenStart(t, 0, false, q) && q >= BlockEnd(n) ==> q >= pos)
  }

  lemma {:induction false} SoFarStart(t: seq<Byte>)
    requires Parses(t, 0)
    ensures SoFar(t, 0, false, 0)
  {
  }

  /** At the first place behind the block: either the entry fits, or the index cannot be built. */
  lemma {:induction false} SoFarPlace(t: seq<Byte>, pos: nat, n: nat)
    requires SoFar(t, pos, false, n) && pos < |t| && pos >= BlockEnd(n)
    ensures pos - BlockEnd(n) <= 7 ==> SoFar(t, pos, false, n + 1)
    ensures pos - BlockEnd(n) > 7 ==> !IndexFits(t)
  {
    assert EvenStart(t, pos, false, pos);
    assert FirstStart(t, BlockEnd(n), pos);
    if pos - BlockEnd(n) <= 7 {
      forall k: nat, q: nat | k < n + 1 && FirstStart(t, BlockEnd(k), q) ensures q - BlockEnd(k) <= 7 {
        if k == n { assert q <= pos; }
      }
    }
  }

  lemma {:induction false} SoFarStep(t: seq<Byte>, pos: nat, odd: bool, n: nat)
    requires SoFar(t, pos, odd, n) && pos < |t| && (odd || pos < BlockEnd(n))
    ensures SoFar(t, pos + Width(t[pos]), odd != (t[pos] >= 0x40), n)
  {
    var next, odd' := pos + Width(t[pos]), odd != (t[pos] >= 0x40);
    forall q: nat | EvenStart(t, 0, false, q) && q >= BlockEnd(n) ensures q >= next {
      assert EvenStart(t, pos, odd, q);
      assert EvenStart(t, next, odd', q);
      EvenStartRange(t, next, odd', q);
    }
  }

  lemma {:induction false} SoFarDone(t: seq<Byte>, odd: bool, n: nat)
    requires SoFar(t, |t|, odd, n)
    ensures IndexFits(t)
  {
    forall k: nat, q: nat | FirstStart(t, BlockEnd(k), q) ensures q - BlockEnd(k) <= 7 {
      EvenStartRange(t, 0, false, q);
    }
  }

  /** The table written so far, and what is still to come. */
  ghost predicate Laying(full: seq<Byte>, t: seq<Byte>, buf: seq<nat>, i: nat) {
    i <= |buf| && (forall k :: 0 <= k < |buf| ==> 1 <= buf[k] <= CODE_LIMIT) && full == t + Layout(buf[i..])
  }

  lemma {:induction false} LayingStart(buf: seq<nat>)
    requires forall k :: 0 <= k < |buf| ==> 1 <= buf[k] <= CODE_LIMIT
    ensures Laying(Layout(buf), [], buf, 0)
  {
    assert buf[0..] == buf;
  }

  lemma {:induction false} LayingTwo(full: seq<Byte>, t: seq<Byte>, buf: seq<nat>, i: nat)
    requires Laying(full, t, buf, i) && i + 1 < |buf| && buf[i] <= 8 && buf[i + 1] <= 8
    ensures Laying(full, t + [(buf[i] - 1) * 8 + (buf[i + 1] - 1)], buf, i + 2)
    ensures |t| < |full| && full[|t|] == (buf[i] - 1) * 8 + (buf[i + 1] - 1) < 0x40
  {
    assert buf[i..][2..] == buf[i + 2..];
  }

  lemma {:induction false} LayingOne(full: seq<Byte>, t: seq<Byte>, buf: seq<nat>, i: nat)
    requires Laying(full, t, buf, i) && i < |buf| && !(i + 1 < |buf| && buf[i] <= 8 && buf[i + 1] <= 8)
    ensures var e := OneRun(buf[i] - 1);
            && Laying(full, t + e, buf, i + 1)
            && e != [] && |t| < |full| && full[|t|] == e[0] >= 0x40 && Width(e[0]) == |e|
  {
    assert buf[i..][1..] == buf[i + 1..];
    OneRunEntry(buf[i] - 1);
  }

  lemma {:induction false} LayingEnd(full: seq<Byte>, t: seq<Byte>, buf: seq<nat>)
    requires Laying(full, t, buf, |buf|)
    ensures full == t
  {
    assert buf[|buf|..] == [];
  }

  /** All that holds before run i is written. */
  ghost predicate Building(full: seq<Byte>, t: seq<Byte>, index: seq<Byte>, buf: seq<nat>, i: nat, code: int, addIndex: bool) {
    && Written(t, index, buf, i, code) && Laying(full, t, buf, i)
    && (addIndex ==> SoFar(full, |t|, i % 2 == 1, |index| / 3))
  }

  lemma {:induction false} BuildStart(buf: seq<nat>, addIndex: bool)
    requires forall k :: 0 <= k < |buf| ==> 1 <= buf[k] <= CODE_LIMIT
    ensures Building(Layout(buf), [], [], buf, 0, 0, addIndex)
  {
    hide Written, Laying, SoFar, Layout;
    WriteNothing(buf);
    LayingStart(buf);
    LayoutParses(buf);
    SoFarStart(Layout(buf));
  }

  lemma {:induction false} BuildPlace(full: seq<Byte>, t: seq<Byte>, index: seq<Byte>, buf: seq<nat>, i: nat, code: nat)
    requires Building(full, t, index, buf, i, code, true) && i < |buf| && i % 2 == 0 && Sum(buf) < CODE_LIMIT
    requires |t| >= BlockEnd(|index| / 3)
    ensures |index| % 3 == 0 && code < CODE_LIMIT
    ensures var offset := |t| - BlockEnd(|index| / 3);
            if offset > 7 then Parses(full, 0) && !IndexFits(full)
            else Building(full, t, index + Put24(code + offset * CODE_LIMIT), buf, i, code, true)
  {
    hide Written, Laying, SoFar, Put24, Sum, IndexFits;
    var offset := |t| - BlockEnd(|index| / 3);
    LayingRoom(full, t, buf, i);
    SoFarParses(full, |t|, false, |index| / 3);
    SoFarPlace(full, |t|, |index| / 3);
    CodeBound(t, index, buf, i, code);
    if offset <= 7 {
      WriteIndex(t, index, buf, i, code, offset);
      PutLength(code + offset * CODE_LIMIT);
    }
  }

  lemma {:induction false} SoFarParses(t: seq<Byte>, pos: nat, odd: bool, n: nat)
    requires SoFar(t, pos, odd, n)
    ensures Parses(t, 0) && Parses(t, pos)
  {
  }

  lemma {:induction false} BuildTwo(full: seq<Byte>, t: seq<Byte>, index: seq<Byte>, buf: seq<nat>, i: nat, code: int, addIndex: bool)
    requires Building(full, t, index, buf, i, code, addIndex) && i + 1 < |buf| && 1 <= buf[i] <= 8 && 1 <= buf[i + 1] <= 8
    requires addIndex && i % 2 == 0 ==> |t| < BlockEnd(|index| / 3)
    ensures Building(full, t + [(buf[i] - 1) * 8 + (buf[i + 1] - 1)], index, buf, i + 2, code + buf[i] + buf[i + 1], addIndex)
  {
    hide Written, Laying, SoFar;
    WriteTwo(t, index, buf, i, code);
    LayingTwo(full, t, buf, i);
    if addIndex { SoFarStep(full, |t|, i % 2 == 1, |index| / 3); }
  }

  lemma {:induction false} BuildOne(full: seq<Byte>, t: seq<Byte>, index: seq<Byte>, buf: seq<nat>, i: nat, code: int, addIndex: bool)
    requires Building(full, t, index, buf, i, code, addIndex) && i < |buf| && 1 <= buf[i] <= CODE_LIMIT
    requires !(i + 1 < |buf| && buf[i] <= 8 && buf[i + 1] <= 8)
    requires addIndex && i % 2 == 0 ==> |t| < BlockEnd(|index| / 3)
    ensures Building(full, t + OneRun(buf[i] - 1), index, buf, i + 1, code + buf[i], addIndex)
  {
    hide Written, Laying, SoFar, OneRun;
    WriteOne(t, index, buf, i, code);
    LayingOne(full, t, buf, i);
    if addIndex { SoFarStep(full, |t|, i % 2 == 1, |index| / 3); }
  }

  lemma {:induction false} BuildEnd(full: seq<Byte>, t: seq<Byte>, index: seq<Byte>, buf: seq<nat>, code: int, prop: seq<bool>, addIndex: bool)
    requires Building(full, t, index, buf, |buf|, code, addIndex) && Sum(buf) < CODE_LIMIT
    requires forall c :: Look(buf, 0, false, c) == Prop(prop, c)
    ensures t == full && Parses(t, 0) && (addIndex ==> IndexFits(t)) && forall c :: InTable(t, c) == Prop(prop, c)
    ensures 0 <= code && WellIndexed(t, index + Put24(code))
  {
    hide Written, Laying, SoFar, Look, Sum, Put24, Prop, WellIndexed, InTable, IndexFits;
    LayingEnd(full, t, buf);
    AllWritten(t, index, buf, code, prop);
    if addIndex { SoFarDone(t, |buf| % 2 == 1, |index| / 3); }
  }

  /** An entry of one, two or three bytes. */
  method AppendRun(table: seq<Byte>, v: nat) returns (r: seq<Byte>)
    requires v < CODE_LIMIT
    ensures r == table + OneRun(v)
  {
    hide OneRun;
    OneRunIs(v);
    if v < 128 {
      r := table + [0x80 + v];
    } else if v < 0x2000 {
      r := table + [0x40 + v / 0x100, v % 0x100];
    } else {
      r := table + [0x60 + v / 0x1_0000, v / 0x100 % 0x100, v % 0x100];
    }
  }

  /** build_prop_table: writes the runs and, if wanted, an index value behind every 32 bytes. */
  method BuildPropTable(prop: seq<bool>, addIndex: bool) returns (ok: bool, table: seq<Byte>, index: seq<Byte>)
    requires |prop| == CHARCODE_MAX + 1
    ensures ok == (!prop[0] && (addIndex ==> Indexable(prop)))
    ensures ok ==> Lays(prop, table) && forall c :: InTable(table, c) == Prop(prop, c)
    ensures ok && addIndex ==> WellIndexed(table, index)
  {
    hide Look, Sum, WellIndexed, Put24, Prop, InTable, Building, Layout, OneRun, IndexFits, PropRuns;
    table, index := [], [];
    if prop[0] {
      return false, table, index;
    }
    var buf := FindRuns(prop);
    ghost var full := Layout(buf);
    LayoutParses(buf);
    assert Lays(prop, full);
    var blockEndPos, i: nat, code: nat, bit := BLOCK_LEN, 0, 0, false;
    BuildStart(buf, addIndex);
    while i < |buf|
      invariant i <= |buf| && bit == (i % 2 == 1)
      invariant Building(full, table, index, buf, i, code, addIndex)
      invariant blockEndPos == BlockEnd(|index| / 3)
    {
      if addIndex && |table| >= blockEndPos && !bit {
        var offset := |table| - blockEndPos;
        BuildPlace(full, table, index, buf, i, code);
        if offset > 7 {
          return false, table, index;
        }
        PutLength(code + offset * CODE_LIMIT);
        index := index + Put24(code + offset * CODE_LIMIT);
        blockEndPos := blockEndPos + BLOCK_LEN;
      }
      var v := buf[i] - 1;
      code := code + v + 1;
      bit := !bit;
      if v < 8 && i + 1 < |buf| && buf[i + 1] - 1 < 8 {
        BuildTwo(full, table, index, buf, i, code - buf[i], addIndex);
        code := code + (buf[i + 1] - 1) + 1;
        bit := !bit;
        table := table + [v * 8 + (buf[i + 1] - 1)];
        i := i + 2;
      } else {
        BuildOne(full, table, index, buf, i, code - buf[i], addIndex);
        table := AppendRun(table, v);
        i := i + 1;
      }
    }
    BuildEnd(full, table, index, buf, code, prop, addIndex);
    if addIndex {
      index := index + Put24(code);
    }
    ok := true;
  }

  lemma {:induction false} LayingRoom(full: seq<Byte>, t: seq<Byte>, buf: seq<nat>, i: nat)
    requires Laying(full, t, buf, i) && i < |buf|
    ensures |t| < |full|
  {
    if i + 1 < |buf| && buf[i] <= 8 && buf[i + 1] <= 8 { LayingTwo(full, t, buf, i); } else { LayingOne(full, t, buf, i); }
  }

  lemma {:induction false} OneRunIs(v: nat)
    requires v < CODE_LIMIT
    ensures OneRun(v) == if v < 128 then [0x80 + v]
                         else if v < 0x2000 then [0x40 + v / 0x100, v % 0x100]
                         else [0x60 + v / 0x1_0000, v / 0x100 % 0x100, v % 0x100]
  {
  }

  /** t is the table of the maximal runs of prop. */
  ghost predicate Lays(prop: seq<bool>, t: seq<Byte>) {
    var runs := PropRuns(prop, 0);
    && Parses(t, 0) && (forall k :: 0 <= k < |runs| ==> 1 <= runs[k] <= CODE_LIMIT) && t == Layout(runs)
  }

  /** The table of prop can be given an index. */
  ghost predicate Indexable(prop: seq<bool>) {
    exists t :: Lays(prop, t) && IndexFits(t)
  }

  /** A generated table, looked up through its index, gives back the property for every code point. */
  method LookUpBuilt(prop: seq<bool>, c: nat) returns (ok: bool, found: bool)
    requires |prop| == CHARCODE_MAX + 1
    ensures ok == (!prop[0] && Indexable(prop))
    ensures ok ==> found == Prop(prop, c)
  {
    hide Runs, WellIndexed, Prop, InTable, Lays, IndexFits;
    var table, index;
    found := false;
    ok, table, index := BuildPropTable(prop, true);
    if ok {
      found := LreIsInTable(c, table, index);
    }
  }

  // ---------- a property whose table cannot be given an index ----------

  /** The property with the given runs, the first one outside the set. */
  function PropOf(runs: seq<nat>, n: nat): seq<bool> {
    seq(n, c => Look(runs, 0, false, c))
  }

  /** Runs of length one or more that end inside the set are found again. */
  lemma {:induction false} RunsFound(prop: seq<bool>, i: nat, runs: seq<nat>, bit: bool)
    requires i + Sum(runs) <= |prop| && forall k :: 0 <= k < |runs| ==> runs[k] >= 1
    requires bit == (|runs| % 2 == 1)
    requires forall c :: i <= c < |prop| ==> prop[c] == Look(runs, i, bit, c)
    ensures PropRuns(prop, i) == runs
    decreases |runs|
  {
    if runs == [] {
      if i < |prop| { RunEndIs(prop, i, |prop|); }
    } else {
      var rest, j := runs[1..], i + runs[0];
      NextRun(runs, i, bit);
      assert forall c :: j <= c < |prop| ==> prop[c] == Look(rest, j, !bit, c);
      assert forall k :: i <= k < j ==> prop[k] == bit;
      RunEndIs(prop, i, j);
      RunsFound(prop, j, rest, !bit);
    }
  }

  lemma {:induction false} NextRun(runs: seq<nat>, i: nat, bit: bool)
    requires runs != [] && (forall k :: 0 <= k < |runs| ==> runs[k] >= 1) && bit == (|runs| % 2 == 1)
    ensures Look(runs[1..], i + runs[0], !bit, i + runs[0]) != bit
  {
    if |runs| > 1 { assert runs[1..][0] >= 1; }
  }

  function Ones(n: nat): (r: seq<nat>)
    ensures |r| == n
  {
    seq(n, _ => 1)
  }

  function ZeroBytes(n: nat): (r: seq<Byte>)
    ensures |r| == n
  {
    seq(n, _ => 0)
  }

  lemma {:induction false} LayoutPair(runs: seq<nat>)
    requires |runs| > 1 && runs[0] == runs[1] == 1 && forall i :: 0 <= i < |runs| ==> 1 <= runs[i] <= CODE_LIMIT
    ensures Layout(runs) == [0] + Layout(runs[2..])
  {
  }

  lemma {:induction false} LayoutOnes(k: nat, last: seq<nat>)
    requires forall i :: 0 <= i < |last| ==> 1 <= last[i] <= CODE_LIMIT
    ensures Layout(Ones(2 * k) + last) == ZeroBytes(k) + Layout(last)
    decreases k
  {
    hide Layout;
    var runs := Ones(2 * k) + last;
    if k == 0 {
      assert runs == last && ZeroBytes(0) + Layout(last) == Layout(last);
    } else {
      LayoutOnes(k - 1, last);
      assert runs[2..] == Ones(2 * (k - 1)) + last;
      var zero: seq<Byte> := [0];
      assert ZeroBytes(k) == zero + ZeroBytes(k - 1);
      assert runs[0] == 1 && runs[1] == 1;
      LayoutPair(runs);
      assert zero + (ZeroBytes(k - 1) + Layout(last)) == ZeroBytes(k) + Layout(last);
    }
  }

  /** Nine code points outside the set, 76 runs of one, nine inside, one outside, and nine inside. */
  const STOPPING_RUNS: seq<nat> := [9] + (Ones(76) + [9, 1, 9])

  const STOPPING_TABLE: seq<Byte> := [0x88] + ZeroBytes(38) + [0x88, 0x80, 0x88]

  lemma {:induction false} StoppingLayout()
    ensures (forall k :: 0 <= k < |STOPPING_RUNS| ==> 1 <= STOPPING_RUNS[k] <= CODE_LIMIT)
    ensures Layout(STOPPING_RUNS) == STOPPING_TABLE
  {
    hide Layout;
    var mid: seq<nat> := Ones(76) + [9, 1, 9];
    assert forall k :: 0 <= k < 80 ==> STOPPING_RUNS[k] == if k == 0 then 9 else mid[k - 1];
    LayoutLong(9, mid);
    LayoutOnes(38, [9, 1, 9]);
    LayoutLong(9, [1, 9]);
    LayoutLong(1, [9]);
    LayoutLong(9, []);
    assert [9, 1, 9] == [9] + [1, 9] && [1, 9] == [1] + [9] && [9] == [9] + [];
    LayoutNone();
    assert STOPPING_TABLE == [0x88] + (ZeroBytes(38) + ([0x88] + ([0x80] + ([0x88] + []))));
  }

  lemma {:induction false} LayoutNone()
    ensures Layout([]) == []
  {
  }

  /** A run that shares no byte. */
  lemma {:induction false} LayoutLong(x: nat, rest: seq<nat>)
    requires 1 <= x <= 128 && (x > 8 || rest == [] || rest[0] > 8) && forall k :: 0 <= k < |rest| ==> 1 <= rest[k] <= CODE_LIMIT
    ensures forall k :: 0 <= k < |[x] + rest| ==> 1 <= ([x] + rest)[k] <= CODE_LIMIT
    ensures Layout([x] + rest) == [0x80 + (x - 1)] + Layout(rest)
  {
    assert ([x] + rest)[1..] == rest;
  }

  lemma {:induction false} OddStretch(p: nat, q: nat)
    requires 1 <= p <= 39 && Parses(STOPPING_TABLE, 0)
    ensures Parses(STOPPING_TABLE, p) && EvenStart(STOPPING_TABLE, p, true, q) == (q == 40)
    decreases 39 - p
  {
    var t := STOPPING_TABLE;
    if p < 39 {
      assert t[p] == 0;
      OddStretch(p + 1, q);
    } else {
      assert t[39] == 0x88 && t[40] == 0x80 && t[41] == 0x88 && |t| == 42;
      assert Parses(t, 42) && Parses(t, 41) && Parses(t, 40);
      assert EvenStart(t, 41, true, q) == EvenStart(t, 42, false, q) == false;
      assert EvenStart(t, 40, false, q) == (q == 40);
    }
  }

  /** The generator stops at this property: its index would need an offset of eight. */
  lemma {:induction false} GeneratorStops()
    ensures var prop := PropOf(STOPPING_RUNS, CHARCODE_MAX + 1);
            !prop[0] && !Indexable(prop)
  {
    hide Layout, PropRuns, Look;
    var runs, t := STOPPING_RUNS, STOPPING_TABLE;
    var prop := PropOf(runs, CHARCODE_MAX + 1);
    StoppingLayout();
    LayoutParses(runs);
    StoppingSum();
    RunsFound(prop, 0, runs, false);
    assert !prop[0] by { StoppingFirst(); }
    forall q: nat ensures EvenStart(t, 0, false, q) == (q == 0 || q == 40) {
      OddStretch(1, q);
      assert t[0] == 0x88;
    }
    assert FirstStart(t, BlockEnd(0), 40);
  }

  lemma {:induction false} StoppingFirst()
    ensures !Look(STOPPING_RUNS, 0, false, 0)
  {
  }

  lemma {:induction false} StoppingSum()
    ensures Sum(STOPPING_RUNS) == 104 && |STOPPING_RUNS| == 80
  {
    hide Sum;
    SumConcat([9], Ones(76) + [9, 1, 9]);
    SumConcat(Ones(76), [9, 1, 9]);
    SumOnes(76);
    SumShort();
  }

  lemma {:induction false} SumShort()
    ensures Sum([9]) == 9 && Sum([9, 1, 9]) == 19
  {
    assert [9][1..] == [] && [9, 1, 9][1..] == [1, 9] && [1, 9][1..] == [9];
    assert Sum([1, 9]) == 10;
  }

  lemma {:induction false} SumOnes(n: nat)
    ensures Sum(Ones(n)) == n
    decreases n
  {
    if n > 0 {
      SumOnes(n - 1);
      assert Ones(n)[1..] == Ones(n - 1);
    }
  }
}
