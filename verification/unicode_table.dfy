/**
 * Sets of code points as tables of run lengths, with an index to start in the middle:
 * the lookup and the expansion into a range list.
 */
module UnicodeTable {

  import opened CharRanges

  type Byte = b: int | 0 <= b < 256

  /** UNICODE_INDEX_BLOCK_LEN and PROP_BLOCK_LEN */
  const BLOCK_LEN := 32
  /** An index value keeps the code point in its low 21 bits. */
  const CODE_LIMIT := 0x20_0000

  /** How many bytes the entry starting with b takes. */
  function Width(b: Byte): nat {
    if b < 0x40 || b >= 0x80 then 1 else if b < 0x60 then 2 else 3
  }

  predicate Fits(t: seq<Byte>, p: nat) {
    p < |t| && p + Width(t[p]) <= |t|
  }

  /** The bytes from p on are whole entries. */
  predicate Parses(t: seq<Byte>, p: nat)
    decreases |t| - p
  {
    p == |t| || (Fits(t, p) && Parses(t, p + Width(t[p])))
  }

  /** The run lengths in one entry: two short ones, or one. */
  function RunsAt(t: seq<Byte>, p: nat): seq<nat>
    requires Fits(t, p)
  {
    var b: int := t[p];
    if b < 0x40 then [b / 8 + 1, b % 8 + 1]
    else if b >= 0x80 then [b - 0x80 + 1]
    else if b < 0x60 then [(b - 0x40) * 0x100 + t[p + 1] as int + 1]
    else [(b - 0x60) * 0x1_0000 + t[p + 1] as int * 0x100 + t[p + 2] as int + 1]
  }

  /** All run lengths from p on. */
  function Runs(t: seq<Byte>, p: nat): seq<nat>
    requires Parses(t, p)
    decreases |t| - p
  {
    if p == |t| then [] else RunsAt(t, p) + Runs(t, p + Width(t[p]))
  }

  function Sum(runs: seq<nat>): nat {
    if runs == [] then 0 else runs[0] + Sum(runs[1..])
  }

  /** The value at c of alternating runs, the first of which starts at code with the value bit. */
  predicate Look(runs: seq<nat>, code: int, bit: bool, c: int)
    decreases |runs|
  {
    runs != [] && (if c < code + runs[0] then bit else Look(runs[1..], code + runs[0], !bit, c))
  }

  /** The set a table stands for: a scan from its start, where the first run is outside the set. */
  predicate InTable(t: seq<Byte>, c: int)
    requires Parses(t, 0)
  {
    Look(Runs(t, 0), 0, false, c)
  }

  lemma {:induction false} SumConcat(a: seq<nat>, b: seq<nat>)
    ensures Sum(a + b) == Sum(a) + Sum(b)
    decreases |a|
  {
    if a == [] {
      assert a + b == b;
    } else {
      assert (a + b)[1..] == a[1..] + b;
      SumConcat(a[1..], b);
    }
  }

  /** Beyond the runs in a, only those in b matter. */
  lemma {:induction false} LookSkip(a: seq<nat>, b: seq<nat>, code: int, bit: bool, c: int)
    requires c >= code + Sum(a)
    ensures Look(a + b, code, bit, c) == Look(b, code + Sum(a), bit == (|a| % 2 == 0), c)
    decreases |a|
  {
    if a == [] {
      assert a + b == b;
    } else {
      assert (a + b)[1..] == a[1..] + b;
      LookSkip(a[1..], b, code + a[0], !bit, c);
    }
  }

  /** Within the runs in a, those in b do not matter. */
  lemma {:induction false} LookPrefix(a: seq<nat>, b: seq<nat>, code: int, bit: bool, c: int)
    requires code <= c < code + Sum(a)
    ensures Look(a + b, code, bit, c) == Look(a, code, bit, c)
    decreases |a|
  {
    if a != [] {
      assert (a + b)[1..] == a[1..] + b;
      if c >= code + a[0] { LookPrefix(a[1..], b, code + a[0], !bit, c); }
    }
  }

  lemma {:induction false} LookStep(x: nat, rest: seq<nat>, code: int, bit: bool, c: int)
    ensures Look([x] + rest, code, bit, c) == if c < code + x then bit else Look(rest, code + x, !bit, c)
  {
    assert ([x] + rest)[1..] == rest;
  }

  lemma {:induction false} RunsShape(t: seq<Byte>, p: nat)
    requires Fits(t, p)
    ensures var r := RunsAt(t, p);
            1 <= |r| <= 2 && (|r| == 2 <==> t[p] < 0x40) && forall x <- r :: x >= 1
  {
  }

  /** Entry i of an index: get_le24. */
  function Le24(index: seq<Byte>, i: nat): nat
    requires 3 * i + 2 < |index|
  {
    index[3 * i] as int + index[3 * i + 1] as int * 0x100 + index[3 * i + 2] as int * 0x1_0000
  }

  function EntryCode(index: seq<Byte>, i: nat): nat
    requires 3 * i + 2 < |index|
  {
    Le24(index, i) % CODE_LIMIT
  }

  function EntryPos(index: seq<Byte>, i: nat): nat
    requires 3 * i + 2 < |index|
  {
    (i + 1) * BLOCK_LEN + Le24(index, i) / CODE_LIMIT
  }

  /** At position q an even number of runs, which together reach code, has been read. */
  ghost predicate Boundary(t: seq<Byte>, q: nat, code: int)
    requires Parses(t, 0)
  {
    Parses(t, q) && exists before: seq<nat> ::
      Runs(t, 0) == before + Runs(t, q) && |before| % 2 == 0 && Sum(before) == code
  }

  ghost predicate EntryGood(t: seq<Byte>, index: seq<Byte>, i: nat)
    requires Parses(t, 0) && 3 * i + 2 < |index|
  {
    Boundary(t, EntryPos(index, i), EntryCode(index, i))
  }

  /** Every entry but the last points to a boundary; the last is the end of the last run. */
  ghost predicate WellIndexed(t: seq<Byte>, index: seq<Byte>) {
    && |index| >= 3 && |index| % 3 == 0 && Parses(t, 0)
    && (forall i :: 0 <= i < |index| / 3 - 1 ==> EntryGood(t, index, i))
    && Le24(index, |index| / 3 - 1) == Sum(Runs(t, 0)) < CODE_LIMIT
  }

  /** get_index_pos: a block that starts at or before c, or -1 when c is beyond the table. */
  method GetIndexPos(c: nat, index: seq<Byte>) returns (pos: int, code: nat)
    requires |index| >= 3 && |index| % 3 == 0 && Le24(index, |index| / 3 - 1) < CODE_LIMIT
    ensures pos < 0 ==> c >= Le24(index, |index| / 3 - 1)
    ensures pos >= 0 ==> code <= c && (c < Le24(index, |index| / 3 - 1) || c < EntryCode(index, 0))
    ensures pos == 0 ==> code == 0
    ensures pos > 0 ==>
      exists i :: 0 <= i < |index| / 3 - 1 && pos == EntryPos(index, i) && code == EntryCode(index, i)
  {
    hide Le24;
    var idxMin := 0;
    code := EntryCode(index, 0);
    if c < code {
      return 0, 0;
    }
    var idxMax := |index| / 3 - 1;
    if c >= Le24(index, idxMax) {
      return -1, code;
    }
    while idxMax - idxMin > 1
      invariant 0 <= idxMin <= idxMax <= |index| / 3 - 1
      invariant idxMin < idxMax || |index| == 3
      invariant EntryCode(index, idxMin) <= c
    {
      var idx := (idxMax + idxMin) / 2;
      if c < EntryCode(index, idx) {
        idxMax := idx;
      } else {
        idxMin := idx;
      }
    }
    return EntryPos(index, idxMin), EntryCode(index, idxMin);
  }

  /** What holds while scanning for c: the rest of the table decides, and reaches beyond c. */
  predicate Scanning(t: seq<Byte>, p: nat, code: int, bit: bool, c: int)
    requires Parses(t, 0)
  {
    && Parses(t, p) && code <= c < code + Sum(Runs(t, p))
    && Look(Runs(t, p), code, bit, c) == InTable(t, c)
  }

  lemma {:induction false} ScanFromStart(t: seq<Byte>, c: int)
    requires Parses(t, 0) && 0 <= c < Sum(Runs(t, 0))
    ensures Scanning(t, 0, 0, false, c)
  {
  }

  lemma {:induction false} ScanFromBoundary(t: seq<Byte>, q: nat, code: int, c: int)
    requires Parses(t, 0) && Boundary(t, q, code) && code <= c < Sum(Runs(t, 0))
    ensures Scanning(t, q, code, false, c)
  {
    hide Look, Runs, Sum;
    var before: seq<nat> :| Runs(t, 0) == before + Runs(t, q) && |before| % 2 == 0 && Sum(before) == code;
    SumConcat(before, Runs(t, q));
    LookSkip(before, Runs(t, q), 0, false, c);
  }

  lemma {:induction false} FirstEntryInside(t: seq<Byte>, index: seq<Byte>)
    requires WellIndexed(t, index)
    ensures EntryCode(index, 0) <= Le24(index, |index| / 3 - 1)
  {
    hide Runs, Sum, Le24;
    if |index| > 3 {
      assert EntryGood(t, index, 0);
      var q := EntryPos(index, 0);
      var before: seq<nat> :| Runs(t, 0) == before + Runs(t, q) && |before| % 2 == 0 && Sum(before) == EntryCode(index, 0);
      SumConcat(before, Runs(t, q));
    }
  }

  /** The entry at p answers for c, or the scan goes on behind it. */
  lemma {:induction false} ScanEntry(t: seq<Byte>, p: nat, code: int, bit: bool, c: int)
    requires Parses(t, 0) && Scanning(t, p, code, bit, c)
    ensures Fits(t, p)
    ensures var r := RunsAt(t, p);
            if c < code + r[0] then bit == InTable(t, c)
            else if |r| == 2 then
              if c < code + r[0] + r[1] then !bit == InTable(t, c)
              else Scanning(t, p + Width(t[p]), code + r[0] + r[1], bit, c)
            else Scanning(t, p + Width(t[p]), code + r[0], !bit, c)
  {
    hide InTable, Look, RunsAt;
    var rest, r := Runs(t, p + Width(t[p])), RunsAt(t, p);
    SumConcat(r, rest);
    RunsShape(t, p);
    var r0, after := r[0], code + r[0];
    if |r| == 2 {
      var r1 := r[1];
      assert r + rest == [r0] + ([r1] + rest) && r[1..] == [r1];
      LookStep(r0, [r1] + rest, code, bit, c);
      LookStep(r1, rest, after, !bit, c);
    } else {
      assert r == [r0] && r[1..] == [];
      LookStep(r0, rest, code, bit, c);
    }
  }

  lemma {:induction false} BeyondTable(t: seq<Byte>, c: int)
    requires Parses(t, 0) && c >= Sum(Runs(t, 0))
    ensures !InTable(t, c)
  {
    assert Runs(t, 0) + [] == Runs(t, 0);
    LookSkip(Runs(t, 0), [], 0, false, c);
  }

  /** What get_index_pos finds is a place to start scanning. */
  lemma {:induction false} StartScan(t: seq<Byte>, index: seq<Byte>, pos: nat, code: nat, c: int)
    requires WellIndexed(t, index) && code <= c && (pos == 0 ==> code == 0)
    requires c < Le24(index, |index| / 3 - 1) || c < EntryCode(index, 0)
    requires pos > 0 ==>
      exists i :: 0 <= i < |index| / 3 - 1 && pos == EntryPos(index, i) && code == EntryCode(index, i)
    ensures Scanning(t, pos, code, false, c)
  {
    hide Scanning, Boundary, Le24, Runs, Sum;
    FirstEntryInside(t, index);
    if pos == 0 {
      ScanFromStart(t, c);
    } else {
      var i :| 0 <= i < |index| / 3 - 1 && pos == EntryPos(index, i) && code == EntryCode(index, i);
      assert EntryGood(t, index, i);
      ScanFromBoundary(t, pos, code, c);
    }
  }

  /** lre_is_in_table */
  method LreIsInTable(c: nat, t: seq<Byte>, index: seq<Byte>) returns (found: bool)
    requires WellIndexed(t, index)
    ensures found == InTable(t, c)
  {
    hide Le24, InTable, Scanning, Runs, Sum;
    var pos, code := GetIndexPos(c, index);
    if pos < 0 {
      BeyondTable(t, c);
      return false;
    }
    var p: nat, bit := pos, false;
    StartScan(t, index, p, code, c);
    while true
      invariant Parses(t, 0) && Scanning(t, p, code, bit, c)
      decreases |t| - p
    {
      ScanEntry(t, p, code, bit, c);
      var b: int := t[p];
      p := p + 1;
      if b < 64 {
        code := code + b / 8 + 1;
        if c < code { return bit; }
        bit := !bit;
        code := code + b % 8 + 1;
      } else if b >= 0x80 {
        code := code + (b - 0x80) + 1;
      } else if b < 0x60 {
        code := code + (b - 0x40) * 0x100 + t[p] as int + 1;
        p := p + 1;
      } else {
        code := code + (b - 0x60) * 0x1_0000 + t[p] as int * 0x100 + t[p + 1] as int + 1;
        p := p + 2;
      }
      if c < code { return bit; }
      bit := !bit;
    }
  }

  /** The ranges below code are expanded; the set goes on with the remaining runs. */
  ghost predicate Expanded(points: seq<int>, t: seq<Byte>, code: int, bit: bool, rest: seq<nat>)
    requires Parses(t, 0)
  {
    && 0 <= code && |points| % 2 == 0 && Canonical(points)
    && UpTo(points, if bit then code - 1 else code)
    && forall c :: Pending(points, code, bit, rest, c) == InTable(t, c)
  }

  predicate UpTo(points: seq<int>, c: int) {
    forall i :: 0 <= i < |points| ==> 0 <= points[i] <= c
  }

  predicate Pending(points: seq<int>, code: int, bit: bool, rest: seq<nat>, c: int) {
    if c < code then Member(points, c) else Look(rest, code, bit, c)
  }

  lemma {:induction false} ExpandStart(t: seq<Byte>)
    requires Parses(t, 0)
    ensures Expanded([], t, 0, false, Runs(t, 0))
  {
    forall c ensures Pending([], 0, false, Runs(t, 0), c) == InTable(t, c) {
      assert Count([], c) == 0;
      if c < 0 { LookBelow(Runs(t, 0), 0, c); }
    }
  }

  lemma {:induction false} LookBelow(runs: seq<nat>, code: int, c: int)
    requires c < code
    ensures !Look(runs, code, false, c)
  {
  }

  /** The next run, with its two points when it is in the set. */
  lemma {:induction false} ExpandRun(points: seq<int>, t: seq<Byte>, code: int, bit: bool, x: nat, rest: seq<nat>)
    requires Parses(t, 0) && x >= 1 && Expanded(points, t, code, bit, [x] + rest)
    ensures Expanded(if bit then points + [code, code + x] else points, t, code + x, !bit, rest)
  {
    hide Look, Member, Count;
    var points' := if bit then points + [code, code + x] else points;
    forall c ensures Pending(points', code + x, !bit, rest, c) == InTable(t, c) {
      assert Pending(points, code, bit, [x] + rest, c) == InTable(t, c);
      LookStep(x, rest, code, bit, c);
      RunMembers(points, code, bit, x, c);
    }
  }

  lemma {:induction false} RunMembers(points: seq<int>, code: int, bit: bool, x: nat, c: int)
    requires |points| % 2 == 0 && UpTo(points, code)
    ensures var points' := if bit then points + [code, code + x] else points;
            && (c < code ==> Member(points', c) == Member(points, c))
            && (code <= c < code + x ==> Member(points', c) == bit)
  {
    hide Count;
    CountConcat(points, [code, code + x], c);
    CountPair(code, code + x, c);
    if code <= c { CountAll(points, c); }
  }

  lemma {:induction false} ExpandEnd(points: seq<int>, t: seq<Byte>, code: int, bit: bool)
    requires Parses(t, 0) && Expanded(points, t, code, bit, [])
    ensures Canonical(points) && forall c :: Member(points, c) == InTable(t, c)
  {
    hide Count;
    forall c ensures Member(points, c) == InTable(t, c) {
      assert Pending(points, code, bit, [], c) == InTable(t, c);
      if c >= code { CountAll(points, c); }
    }
  }

  /** cr_add_interval */
  method AddInterval(cr: CharRange, c1: int, c2: int)
    modifies cr
    ensures cr.points == old(cr.points) + [c1, c2]
  {
    cr.AddPoint(c1);
    cr.AddPoint(c2);
  }

  /** unicode_prop1: appends the ranges of the set, read off the same bytes. */
  method UnicodeProp1(cr: CharRange, t: seq<Byte>)
    requires Parses(t, 0)
    modifies cr
    ensures old(cr.points) <= cr.points
    ensures var added := cr.points[|old(cr.points)|..];
            Canonical(added) && forall c :: Member(added, c) == InTable(t, c)
  {
    hide InTable, Expanded, Runs, Canonical, Member, RunsAt;
    var p: nat, code, bit := 0, 0, false;
    ghost var points: seq<int> := [];
    ExpandStart(t);
    while p < |t|
      invariant p <= |t| && Parses(t, p) && Expanded(points, t, code, bit, Runs(t, p)) && cr.points == old(cr.points) + points
    {
      var c0 := code;
      var b: int := t[p];
      ghost var rest, runs := Runs(t, p + Width(t[p])), RunsAt(t, p);
      NextRuns(t, p);
      p := p + 1;
      if b < 64 {
        ExpandRun(points, t, code, bit, runs[0], [runs[1]] + rest);
        code := code + b / 8 + 1;
        if bit {
          AddInterval(cr, c0, code);
          points := points + [c0, code];
        }
        bit := !bit;
        c0 := code;
        ExpandRun(points, t, code, bit, runs[1], rest);
        code := code + b % 8 + 1;
      } else {
        ExpandRun(points, t, code, bit, runs[0], rest);
        if b >= 0x80 {
          code := code + (b - 0x80) + 1;
        } else if b < 0x60 {
          code := code + (b - 0x40) * 0x100 + t[p] as int + 1;
          p := p + 1;
        } else {
          code := code + (b - 0x60) * 0x1_0000 + t[p] as int * 0x100 + t[p + 1] as int + 1;
          p := p + 2;
        }
      }
      if bit {
        AddInterval(cr, c0, code);
        points := points + [c0, code];
      }
      bit := !bit;
    }
    ExpandEnd(points, t, code, bit) by { assert Runs(t, p) == [] by { RunsOver(t, p); } }
  }

  lemma {:induction false} RunsOver(t: seq<Byte>, p: nat)
    requires p == |t|
    ensures Parses(t, p) && Runs(t, p) == []
  {
  }

  /** The run in an entry that has only one. */
  function LongRun(t: seq<Byte>, p: nat): int
    requires Fits(t, p) && t[p] >= 0x40
  {
    var b: int := t[p];
    if b >= 0x80 then b - 0x80 + 1
    else if b < 0x60 then (b - 0x40) * 0x100 + t[p + 1] as int + 1
    else (b - 0x60) * 0x1_0000 + t[p + 1] as int * 0x100 + t[p + 2] as int + 1
  }

  lemma {:induction false} NextRuns(t: seq<Byte>, p: nat)
    requires p < |t| && Parses(t, p)
    ensures Fits(t, p) && Parses(t, p + Width(t[p]))
    ensures t[p] < 0x40 ==>
      var r, rest := RunsAt(t, p), Runs(t, p + Width(t[p]));
      && |r| == 2 && Runs(t, p) == [r[0]] + ([r[1]] + rest)
      && r[0] == t[p] as int / 8 + 1 && r[1] == t[p] as int % 8 + 1
    ensures t[p] >= 0x40 ==>
      var r, rest := RunsAt(t, p), Runs(t, p + Width(t[p]));
      |r| == 1 && Runs(t, p) == [r[0]] + rest && r[0] == LongRun(t, p) >= 1
  {
    var r, rest := RunsAt(t, p), Runs(t, p + Width(t[p]));
    if t[p] < 0x40 { assert r + rest == [r[0]] + ([r[1]] + rest); } else { assert r == [r[0]]; }
  }
}
