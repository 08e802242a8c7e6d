/** Character classes in compiled patterns: re_emit_range, and the binary search that runs it. */
module CharClass {
  import opened RegexBytes
  import opened CharRanges

  /** The bytes of one interval end, in the 16-bit or the 32-bit form. */
  function Put(v: int, wide: bool): (s: seq<Byte>)
    ensures |s| == if wide then 4 else 2
  {
    if wide then U32(v) else U16(v)
  }

  function Get(bc: seq<Byte>, p: nat, wide: bool): (v: nat)
    requires p + (if wide then 4 else 2) <= |bc|
  {
    if wide then GetU32(bc, p) else GetU16(bc, p)
  }

  function Width(wide: bool): nat {
    if wide then 4 else 2
  }

  /** The last code point of interval i as it is stored: in the 16-bit form 0xffff means no end. */
  function StoredHigh(points: seq<int>, i: nat, wide: bool): int
    requires 2 * i + 1 < |points|
  {
    var high := points[2 * i + 1] - 1;
    if !wide && high == UINT32_MAX - 1 then 0xffff else high
  }

  /** Interval i stands at its place in the operand of the instruction at pc. */
  ghost predicate IntervalAt(bc: seq<Byte>, pc: nat, points: seq<int>, wide: bool, i: nat)
    requires 2 * i + 1 < |points|
  {
    var w := Width(wide);
    && pc + 3 + 2 * w * (i + 1) <= |bc|
    && Get(bc, pc + 3 + 2 * w * i, wide) == points[2 * i]
    && Get(bc, pc + 3 + 2 * w * i + w, wide) == StoredHigh(points, i, wide)
  }

  /** The instruction at pc is the class of the points. */
  ghost predicate ClassAt(bc: seq<Byte>, pc: nat, points: seq<int>, wide: bool) {
    && pc + 3 <= |bc| && bc[pc] == (if wide then OP_RANGE32 else OP_RANGE)
    && GetU16(bc, pc + 1) == |points| / 2
    && forall i :: 0 <= i < |points| / 2 ==> IntervalAt(bc, pc, points, wide, i)
  }

  /** Canonical points below or at infinity. */
  predicate Points(points: seq<int>) {
    Canonical(points) && forall i :: 0 <= i < |points| ==> 0 <= points[i] <= UINT32_MAX
  }

  /** Whether the 16-bit form is enough: all ends are small, but for an infinite last one. */
  predicate NeedsWide(points: seq<int>)
    requires |points| >= 2
  {
    var high := if points[|points| - 1] == UINT32_MAX then points[|points| - 2] else points[|points| - 1];
    high > 0xffff
  }

  /** What fits a class instruction. */
  predicate IsClass(points: seq<int>) {
    Points(points) && points != [] && |points| / 2 < 65535
  }

  lemma {:induction false} Fits(points: seq<int>, i: nat)
    requires Points(points) && 2 * i + 1 < |points|
    ensures var wide := NeedsWide(points);
            && 0 <= points[2 * i] < (if wide then 0x1_0000_0000 else 0x1_0000)
            && 0 <= StoredHigh(points, i, wide) < (if wide then 0x1_0000_0000 else 0x1_0000)
            && (!wide ==> (StoredHigh(points, i, wide) == 0xffff <==> points[2 * i + 1] == UINT32_MAX))
  {
    var n := |points|;
    assert points[2 * i] < points[2 * i + 1];
    if 2 * i + 1 < n - 1 { assert points[2 * i + 1] < points[n - 2]; }
  }

  lemma {:induction false} GetPut(bc: seq<Byte>, p: nat, v: int, wide: bool)
    requires Here(bc, p, Put(v, wide)) && 0 <= v < (if wide then 0x1_0000_0000 else 0x1_0000)
    ensures Get(bc, p, wide) == v
  {
    if wide { GetPut32(bc, p, v); } else { GetPut16(bc, p, v); }
  }

  // ---------- code ----------

  /** Class instructions hold canonical intervals, at least one and not too many. */
  type ClassPoints = p: seq<int> | IsClass(p) witness [0, 1]

  function Head(points: ClassPoints): (s: seq<Byte>)
    ensures |s| == 3
  {
    [if NeedsWide(points) then OP_RANGE32 else OP_RANGE] + U16(|points| / 2)
  }

  /** The first i intervals as bytes. */
  function Intervals(points: seq<int>, wide: bool, i: nat): (s: seq<Byte>)
    requires 2 * i <= |points|
    ensures |s| == 2 * Width(wide) * i
  {
    if i == 0 then []
    else Intervals(points, wide, i - 1) + Put(points[2 * i - 2], wide) + Put(StoredHigh(points, i - 1, wide), wide)
  }

  /** The instruction for a class. */
  function RangeCode(points: ClassPoints): (s: seq<Byte>)
    ensures |s| >= 3
  {
    EvenLength(points);
    Head(points) + Intervals(points, NeedsWide(points), |points| / 2)
  }

  /** re_emit_range: false when there are too many intervals. */
  method EmitRange(byteCode: seq<Byte>, points: seq<int>) returns (ok: bool, bc: seq<Byte>)
    requires Points(points)
    ensures ok == (|points| / 2 < 65535)
    ensures ok && points == [] ==> bc == byteCode + [OP_CHAR32] + U32(-1)
    ensures ok && points != [] ==> bc == byteCode + RangeCode(points)
  {
    hide Put, StoredHigh, U16, U32, Points, NeedsWide;
    bc := byteCode;
    var len := |points| / 2;
    if len >= 65535 { return false, bc; }
    ok := true;
    EvenLength(points);
    if len == 0 {
      // a match that is always false
      bc := bc + [OP_CHAR32] + U32(-1);
    } else {
      var wide := NeedsWide(points);
      bc := bc + [if wide then OP_RANGE32 else OP_RANGE] + U16(len);
      assert bc == byteCode + Head(points) + Intervals(points, wide, 0);
      var i := 0;
      while i < len
        invariant 0 <= i <= len && bc == byteCode + Head(points) + Intervals(points, wide, i)
      {
        bc := bc + Put(points[2 * i], wide);
        bc := bc + Put(StoredHigh(points, i, wide), wide);
        OneInterval(byteCode + Head(points), points, wide, i);
        i := i + 1;
      }
      assert bc == byteCode + (Head(points) + Intervals(points, wide, len));
    }
  }

  lemma {:induction false} OneInterval(front: seq<Byte>, points: seq<int>, wide: bool, i: nat)
    requires 2 * i + 2 <= |points|
    ensures front + Intervals(points, wide, i) + Put(points[2 * i], wide) + Put(StoredHigh(points, i, wide), wide)
         == front + Intervals(points, wide, i + 1)
  {
    hide Put, StoredHigh;
  }

  lemma {:induction false} EvenLength(points: seq<int>)
    requires Points(points)
    ensures |points| % 2 == 0
  {
  }

  // ---------- decoding ----------

  /** The intervals where they stand. */
  lemma {:induction false} IntervalsAt(bc: seq<Byte>, p: nat, points: seq<int>, wide: bool, n: nat, i: nat)
    requires Points(points) && i < n && 2 * n <= |points| && wide == NeedsWide(points) && p >= 3
    requires Here(bc, p, Intervals(points, wide, n))
    ensures IntervalAt(bc, p - 3, points, wide, i)
    decreases n
  {
    hide Put, StoredHigh, Get, NeedsWide, Points;
    var before, low, high := Intervals(points, wide, n - 1), Put(points[2 * n - 2], wide), Put(StoredHigh(points, n - 1, wide), wide);
    assert Intervals(points, wide, n) == before + (low + high);
    HereSplit(bc, p, before, low + high);
    if i < n - 1 {
      IntervalsAt(bc, p, points, wide, n - 1, i);
    } else {
      HereSplit(bc, p + |before|, low, high);
      Fits(points, i);
      GetPut(bc, p + |before|, points[2 * i], wide);
      GetPut(bc, p + |before| + |low|, StoredHigh(points, i, wide), wide);
    }
  }

  lemma {:induction false} RangeCodeAt(bc: seq<Byte>, pc: nat, points: ClassPoints)
    requires Here(bc, pc, RangeCode(points))
    ensures ClassAt(bc, pc, points, NeedsWide(points))
    ensures pc + |RangeCode(points)| <= |bc| && SizeAt(bc, pc) == |RangeCode(points)|
  {
    hide IntervalAt, Intervals, U16;
    EvenLength(points);
    var wide, len := NeedsWide(points), |points| / 2;
    HereSplit(bc, pc, Head(points), Intervals(points, wide, len));
    HereSplit(bc, pc, [if wide then OP_RANGE32 else OP_RANGE], U16(len));
    OpAt(bc, pc, if wide then OP_RANGE32 else OP_RANGE);
    GetPut16(bc, pc + 1, len);
    forall i | 0 <= i < len ensures IntervalAt(bc, pc, points, wide, i) {
      IntervalsAt(bc, pc + 3, points, wide, len, i);
    }
  }

  function HighOf(h: nat, wide: bool): int {
    if !wide && h == 0xffff then UINT32_MAX else h + 1
  }

  /** The first n intervals read back. */
  function ReadPoints(bc: seq<Byte>, p: nat, wide: bool, n: nat): (r: seq<int>)
    requires p + 2 * Width(wide) * n <= |bc|
    ensures |r| == 2 * n
    decreases n
  {
    if n == 0 then []
    else
      var at := p + 2 * Width(wide) * (n - 1);
      ReadPoints(bc, p, wide, n - 1) + [Get(bc, at, wide), HighOf(Get(bc, at + Width(wide), wide), wide)]
  }

  /** The class at pc, if it is one that can have been emitted. */
  function DecodeRange(bc: seq<Byte>, pc: nat): (r: seq<int>)
    requires pc < |bc| && (bc[pc] == OP_RANGE || bc[pc] == OP_RANGE32) && pc + SizeAt(bc, pc) <= |bc|
    ensures r != [] ==> IsClass(r)
  {
    var wide := bc[pc] == OP_RANGE32;
    var points := ReadPoints(bc, pc + 3, wide, GetU16(bc, pc + 1));
    if IsClass(points) && NeedsWide(points) == wide then points else []
  }

  lemma {:induction false} ReadPointsAt(bc: seq<Byte>, p: nat, wide: bool, n: nat, i: nat)
    requires p + 2 * Width(wide) * n <= |bc| && i < n
    ensures var r, at := ReadPoints(bc, p, wide, n), p + 2 * Width(wide) * i;
            && at + 2 * Width(wide) <= |bc|
            && r[2 * i] == Get(bc, at, wide) && r[2 * i + 1] == HighOf(Get(bc, at + Width(wide), wide), wide)
    decreases n
  {
    hide Get, HighOf;
    if i < n - 1 { ReadPointsAt(bc, p, wide, n - 1, i); }
  }

  /** What has been emitted is read back. */
  lemma {:induction false} DecodeEmitted(bc: seq<Byte>, pc: nat, points: ClassPoints)
    requires Here(bc, pc, RangeCode(points))
    ensures pc < |bc| && (bc[pc] == OP_RANGE || bc[pc] == OP_RANGE32) && pc + SizeAt(bc, pc) <= |bc|
    ensures DecodeRange(bc, pc) == points && SizeAt(bc, pc) == |RangeCode(points)|
  {
    hide Get, GetU16, RangeCode, NeedsWide, Points;
    RangeCodeAt(bc, pc, points);
    EvenLength(points);
    var wide, n := NeedsWide(points), |points| / 2;
    var r := ReadPoints(bc, pc + 3, wide, n);
    forall k | 0 <= k < |points| ensures r[k] == points[k] {
      ReadPointsAt(bc, pc + 3, wide, n, k / 2);
      assert IntervalAt(bc, pc, points, wide, k / 2);
      assert points[2 * (k / 2) + 1] == HighOf(StoredHigh(points, k / 2, wide), wide) by { HighBack(points, k / 2); }
    }
    assert r == points;
  }

  lemma {:induction false} HighBack(points: seq<int>, i: nat)
    requires Points(points) && 2 * i + 1 < |points|
    ensures StoredHigh(points, i, NeedsWide(points)) >= 0
    ensures points[2 * i + 1] == HighOf(StoredHigh(points, i, NeedsWide(points)), NeedsWide(points))
  {
    Fits(points, i);
  }

  /** What is read stands there. */
  lemma {:induction false} DecodedAt(bc: seq<Byte>, pc: nat)
    requires pc < |bc| && (bc[pc] == OP_RANGE || bc[pc] == OP_RANGE32) && pc + SizeAt(bc, pc) <= |bc|
    requires DecodeRange(bc, pc) != []
    ensures var points, wide := DecodeRange(bc, pc), bc[pc] == OP_RANGE32;
            IsClass(points) && wide == NeedsWide(points) && ClassAt(bc, pc, points, wide)
            && SizeAt(bc, pc) == 3 + GetU16(bc, pc + 1) * (if wide then 8 else 4)
  {
    hide GetU16, NeedsWide, Points, Get, HighOf, StoredHigh, ReadPoints;
    var wide, n := bc[pc] == OP_RANGE32, GetU16(bc, pc + 1);
    var points := DecodeRange(bc, pc);
    assert points == ReadPoints(bc, pc + 3, wide, n);
    forall i | 0 <= i < n ensures IntervalAt(bc, pc, points, wide, i) {
      ReadPointsAt(bc, pc + 3, wide, n, i);
      HighAgain(bc, pc + 3 + 2 * Width(wide) * i + Width(wide), points, i, wide);
    }
  }

  lemma {:induction false} HighAgain(bc: seq<Byte>, p: nat, points: seq<int>, i: nat, wide: bool)
    requires p + Width(wide) <= |bc| && 2 * i + 1 < |points| && points[2 * i + 1] == HighOf(Get(bc, p, wide), wide)
    ensures StoredHigh(points, i, wide) == Get(bc, p, wide)
  {
  }

  // ---------- matching ----------

  /** The range and range32 instructions at pc: is c in the class? The indices are unsigned. */
  method MatchRange(bc: seq<Byte>, pc: nat, c: int, wide: bool, ghost points: seq<int>) returns (match_: bool)
    requires Points(points) && points != [] && wide == NeedsWide(points) && ClassAt(bc, pc, points, wide)
    requires 0 <= c <= 0x10_ffff
    ensures match_ == Member(points, c)
  {
    hide Get, StoredHigh, Member, Points, GetU16, NeedsWide;
    EvenLength(points);
    InSomeInterval(points, c);
    var n := GetU16(bc, pc + 1);
    var w := Width(wide);
    assert IntervalAt(bc, pc, points, wide, 0) && IntervalAt(bc, pc, points, wide, n - 1);
    var low := Get(bc, pc + 3, wide);
    if c < low {
      Outside(points, c);
      return false;
    }
    var high := Get(bc, pc + 3 + 2 * w * (n - 1) + w, wide);
    if !wide && c >= 0xffff && high == 0xffff {
      InLast(points, c, wide);
      return true;
    }
    if c > high {
      AboveLast(points, c, wide);
      return false;
    }
    LastStored(points, wide);
    match_ := Search(bc, pc, c, wide, n, points);
  }

  /** Interval i of the class at pc as it is stored. */
  method ReadInterval(bc: seq<Byte>, pc: nat, wide: bool, i: nat, ghost points: seq<int>) returns (low: int, high: int)
    requires 2 * i + 1 < |points| && ClassAt(bc, pc, points, wide)
    ensures low == points[2 * i] && high == StoredHigh(points, i, wide)
  {
    hide Get, StoredHigh, GetU16;
    assert IntervalAt(bc, pc, points, wide, i);
    low := Get(bc, pc + 3 + 2 * Width(wide) * i, wide);
    high := Get(bc, pc + 3 + 2 * Width(wide) * i + Width(wide), wide);
  }

  /** The binary search, once c is known to lie between the first and the last end. */
  method Search(bc: seq<Byte>, pc: nat, c: int, wide: bool, n: nat, ghost points: seq<int>) returns (found: bool)
    requires Points(points) && n == |points| / 2 && n >= 1 && wide == NeedsWide(points) && ClassAt(bc, pc, points, wide)
    requires points[0] <= c <= 0x10_ffff && 0 <= c && (wide || c < 0xffff)
    ensures found <==> exists i :: Within(points, i, c)
  {
    hide Get, StoredHigh, Points, NeedsWide, ClassAt, Within;
    var idxMin: int, idxMax: int := 0, n - 1;
    while idxMin <= idxMax
      invariant 0 <= idxMin <= n && idxMin - 1 <= idxMax < n
      invariant forall i :: 0 <= i < idxMin ==> points[2 * i + 1] <= c
      invariant forall i :: idxMax < i < n ==> c < points[2 * i]
      decreases idxMax - idxMin
    {
      var idx := (idxMin + idxMax) / 2;
      var low, high := ReadInterval(bc, pc, wide, idx, points);
      HighMeans(points, idx, wide, c);
      if c < low {
        BelowFrom(points, idx, c);
        // the unsigned index does not wrap: c is not before the first interval
        assert idx > 0;
        idxMax := idx - 1;
      } else if c > high {
        AboveUpTo(points, idx, c);
        idxMin := idx + 1;
      } else {
        WithinThis(points, idx, c);
        return true;
      }
    }
    Between(points, c, idxMin, n);
    return false;
  }

  lemma {:induction false} WithinThis(points: seq<int>, i: nat, c: int)
    requires 2 * i + 1 < |points| && points[2 * i] <= c < points[2 * i + 1]
    ensures Within(points, i, c)
  {
  }

  /** Which side of a stored end c is on, when c is an ordinary code point. */
  lemma {:induction false} HighMeans(points: seq<int>, i: nat, wide: bool, c: int)
    requires Points(points) && 2 * i + 1 < |points| && wide == NeedsWide(points) && 0 <= c <= 0x10_ffff
    requires wide || c < 0xffff
    ensures c > StoredHigh(points, i, wide) ==> points[2 * i + 1] <= c
    ensures c <= StoredHigh(points, i, wide) ==> c < points[2 * i + 1]
  {
    Fits(points, i);
  }

  lemma {:induction false} LastStored(points: seq<int>, wide: bool)
    requires Points(points) && |points| >= 2 && wide == NeedsWide(points)
    ensures !wide ==> StoredHigh(points, |points| / 2 - 1, wide) <= 0xffff
  {
    Fits(points, |points| / 2 - 1);
  }

  lemma {:induction false} InSomeInterval(points: seq<int>, c: int)
    requires Points(points)
    ensures Member(points, c) <==> exists i :: Within(points, i, c)
  {
    hide Count;
    MemberInterval(points, c);
  }

  lemma {:induction false} Outside(points: seq<int>, c: int)
    requires Points(points) && |points| >= 2 && c < points[0]
    ensures !exists i :: Within(points, i, c)
  {
    BelowFrom(points, 0, c);
    Between(points, c, 0, |points| / 2);
  }

  /** An interval without end. */
  lemma {:induction false} InLast(points: seq<int>, c: int, wide: bool)
    requires Points(points) && |points| >= 2 && wide == NeedsWide(points) && !wide && 0xffff <= c <= 0x10_ffff
    requires StoredHigh(points, |points| / 2 - 1, wide) == 0xffff
    ensures Member(points, c)
  {
    hide Member;
    Fits(points, |points| / 2 - 1);
    InSomeInterval(points, c);
    assert Within(points, |points| / 2 - 1, c);
  }

  lemma {:induction false} AboveLast(points: seq<int>, c: int, wide: bool)
    requires Points(points) && |points| >= 2 && wide == NeedsWide(points) && 0 <= c <= 0x10_ffff
    requires c > StoredHigh(points, |points| / 2 - 1, wide)
    requires !(!wide && c >= 0xffff && StoredHigh(points, |points| / 2 - 1, wide) == 0xffff)
    ensures !exists i :: Within(points, i, c)
  {
    var n := |points|;
    Fits(points, n / 2 - 1);
    AboveUpTo(points, n / 2 - 1, c);
    Between(points, c, n / 2, n / 2);
  }

  /** c is before interval idx, so before all after it. */
  lemma {:induction false} BelowFrom(points: seq<int>, idx: nat, c: int)
    requires Points(points) && 2 * idx + 1 < |points| && c < points[2 * idx]
    ensures forall i :: idx <= i < |points| / 2 ==> c < points[2 * i]
  {
    forall i | idx <= i < |points| / 2 ensures c < points[2 * i] {
      assert i == idx || points[2 * idx] < points[2 * i];
    }
  }

  lemma {:induction false} AboveUpTo(points: seq<int>, idx: nat, c: int)
    requires Points(points) && 2 * idx + 1 < |points| && points[2 * idx + 1] <= c
    ensures forall i :: 0 <= i <= idx ==> points[2 * i + 1] <= c
  {
    forall i | 0 <= i <= idx ensures points[2 * i + 1] <= c {
      assert i == idx || points[2 * i + 1] < points[2 * idx + 1];
    }
  }

  lemma {:induction false} Between(points: seq<int>, c: int, k: nat, n: nat)
    requires n == |points| / 2 && k <= n
    requires forall i :: 0 <= i < k ==> points[2 * i + 1] <= c
    requires forall i :: k <= i < n ==> c < points[2 * i]
    ensures !exists i :: Within(points, i, c)
  {
  }
}
