/** Writing: numbers, repetition counts, characters and classes as the text of a pattern has them, and what the
    reader makes of them. */
module RegexText {
  import opened RegexBytes
  import opened RegexSyntax
  import opened RegexClass
  import opened RegexGrammar
  import opened CharRanges
  import CharClass

  /** The piece w stands at position p of t. */
  ghost predicate Stands(t: string, p: nat, w: string) {
    p + |w| <= |t| && t[p..p + |w|] == w
  }

  lemma {:induction false} StandsAt(t: string, p: nat, w: string, i: nat)
    requires Stands(t, p, w) && i < |w|
    ensures p + i < |t| && t[p + i] == w[i] && At(t, p + i) == w[i]
  {
    assert t[p + i] == t[p..p + |w|][i];
  }

  lemma {:induction false} StandsSplit(t: string, p: nat, v: string, w: string)
    requires Stands(t, p, v + w)
    ensures Stands(t, p, v) && Stands(t, p + |v|, w)
  {
    var x := t[p..p + |v + w|];
    assert x[..|v|] == v && x[|v|..] == w;
    assert x[..|v|] == t[p..p + |v|] && x[|v|..] == t[p + |v|..p + |v| + |w|];
  }

  // ---------- numbers ----------

  function Digit(d: nat): (c: char)
    requires d < 10
    ensures IsDigit(c) && c as int - '0' as int == d
  {
    ['0', '1', '2', '3', '4', '5', '6', '7', '8', '9'][d]
  }

  function Decimal(n: nat): (w: string)
    ensures |w| >= 1 && IsDigit(w[0])
  {
    if n < 10 then [Digit(n)] else Decimal(n / 10) + [Digit(n % 10)]
  }

  function Capped(n: nat): nat {
    if n < INT32_MAX then n else INT32_MAX
  }

  lemma {:induction false} ReadDecimal(t: string, p: nat, n: nat)
    requires Stands(t, p, Decimal(n))
    ensures p + |Decimal(n)| <= |t| && Digits(t, p, 0) == Digits(t, p + |Decimal(n)|, Capped(n))
    decreases n
  {
    var w := Decimal(n);
    if n < 10 {
      StandsAt(t, p, w, 0);
    } else {
      var q := p + |Decimal(n / 10)|;
      hide Digits, Stands, Decimal;
      StandsSplit(t, p, Decimal(n / 10), [Digit(n % 10)]);
      StandsAt(t, q, [Digit(n % 10)], 0);
      ReadDecimal(t, p, n / 10);
      OneMoreDigit(t, q, n);
    }
  }

  lemma {:induction false} OneMoreDigit(t: string, q: nat, n: nat)
    requires q < |t| && t[q] == Digit(n % 10)
    ensures Digits(t, q, Capped(n / 10)) == Digits(t, q + 1, Capped(n))
  {
  }

  lemma {:induction false} NumberEnds(t: string, p: nat, v: nat)
    requires p <= |t| && v <= INT32_MAX && !IsDigit(At(t, p))
    ensures Digits(t, p, v) == (v, p)
  {
  }

  lemma {:induction false} ReadNumber(t: string, p: nat, n: nat)
    requires Stands(t, p, Decimal(n)) && !IsDigit(At(t, p + |Decimal(n)|)) && n <= INT32_MAX
    ensures IsDigit(At(t, p)) && Digits(t, p, 0) == (n, p + |Decimal(n)|)
  {
    ReadDecimal(t, p, n);
    NumberEnds(t, p + |Decimal(n)|, n);
    StandsAt(t, p, Decimal(n), 0);
  }

  // ---------- repetition counts ----------

  /** min to max times in braces; INT32_MAX is no upper bound. */
  function Braces(min: nat, max: nat): string {
    if max == INT32_MAX then "{" + Decimal(min) + ",}"
    else if min == max then "{" + Decimal(min) + "}"
    else "{" + Decimal(min) + "," + Decimal(max) + "}"
  }

  /** A count in braces whose first number is read. */
  lemma {:induction false} BraceRead(t: string, p: nat, min: nat, max: nat, q: nat, z: nat)
    requires p < |t| && t[p] == '{' && p < q <= |t| && min <= max <= INT32_MAX
    requires IsDigit(At(t, p + 1)) && Digits(t, p + 1, 0) == (min, q)
    requires || (At(t, q) == '}' && z == q && min == max)
             || (At(t, q) == ',' && At(t, q + 1) == '}' && z == q + 1 && max == INT32_MAX)
             || (At(t, q) == ',' && q < |t| && IsDigit(At(t, q + 1)) && Digits(t, q + 1, 0) == (max, z) && At(t, z) == '}')
    ensures ReadSuffix(t, p) == Suffix(min, max, z + 1) && LooksLikeCount(t, p)
  {
    hide Digits;
  }

  lemma {:induction false} ReadBraces(t: string, p: nat, min: nat, max: nat)
    requires Stands(t, p, Braces(min, max)) && min <= max <= INT32_MAX
    ensures ReadSuffix(t, p) == Suffix(min, max, p + |Braces(min, max)|) && t[p] == '{' && LooksLikeCount(t, p)
  {
    hide Decimal, ReadSuffix, LooksLikeCount, Stands;
    if max == INT32_MAX {
      ReadFirst(t, p, min, ",}");
      var q := p + 1 + |Decimal(min)|;
      StandsAt(t, q, ",}", 1);
      BraceRead(t, p, min, max, q, q + 1);
    } else if min == max {
      ReadFirst(t, p, min, "}");
      BraceRead(t, p, min, max, p + 1 + |Decimal(min)|, p + 1 + |Decimal(min)|);
    } else {
      ReadBoth(t, p, min, max);
    }
  }

  /** The brace, the first number and what stands behind it. */
  lemma {:induction false} ReadFirst(t: string, p: nat, min: nat, rest: string)
    requires rest != "" && !IsDigit(rest[0]) && min <= INT32_MAX
    requires Stands(t, p, "{" + Decimal(min) + rest)
    ensures var q := p + 1 + |Decimal(min)|;
            && q < |t| && t[p] == '{' && IsDigit(At(t, p + 1)) && Digits(t, p + 1, 0) == (min, q)
            && Stands(t, q, rest) && At(t, q) == rest[0]
  {
    hide Decimal, Digits, Stands;
    var d, q := Decimal(min), p + 1 + |Decimal(min)|;
    assert "{" + d + rest == "{" + (d + rest);
    StandsSplit(t, p, "{", d + rest);
    StandsSplit(t, p + 1, d, rest);
    StandsAt(t, p, "{", 0);
    StandsAt(t, q, rest, 0);
    ReadNumber(t, p + 1, min);
  }

  lemma {:induction false} ReadBoth(t: string, p: nat, min: nat, max: nat)
    requires Stands(t, p, "{" + Decimal(min) + "," + Decimal(max) + "}") && min <= max <= INT32_MAX
    ensures ReadSuffix(t, p) == Suffix(min, max, p + 3 + |Decimal(min)| + |Decimal(max)|) && t[p] == '{' && LooksLikeCount(t, p)
  {
    hide Decimal, Digits, ReadSuffix, LooksLikeCount, Stands;
    var d, e := Decimal(min), Decimal(max);
    var q, rest := p + 1 + |d|, "," + (e + "}");
    assert "{" + d + "," + e + "}" == "{" + d + rest;
    ReadFirst(t, p, min, rest);
    StandsSplit(t, q, ",", e + "}");
    StandsSplit(t, q + 1, e, "}");
    StandsAt(t, q + 1 + |e|, "}", 0);
    ReadNumber(t, q + 1, max);
    BraceRead(t, p, min, max, q, q + 1 + |e|);
  }

  /** The shortest way to write a repetition count. */
  function CountText(min: nat, max: nat): string {
    if max == INT32_MAX && min == 0 then "*"
    else if max == INT32_MAX && min == 1 then "+"
    else if min == 0 && max == 1 then "?"
    else Braces(min, max)
  }

  lemma {:induction false} ReadCount(t: string, p: nat, min: nat, max: nat)
    requires Stands(t, p, CountText(min, max)) && min <= max <= INT32_MAX
    ensures ReadSuffix(t, p) == Suffix(min, max, p + |CountText(min, max)|)
  {
    hide Braces;
    if (max == INT32_MAX && min <= 1) || (min == 0 && max == 1) {
      StandsAt(t, p, CountText(min, max), 0);
    } else {
      ReadBraces(t, p, min, max);
    }
  }

  /** An opening brace at the start of an atom is an error where it would be a count behind one. */
  lemma {:induction false} CountAgrees(t: string, p: nat)
    requires p < |t| && t[p] == '{'
    ensures ReadSuffix(t, p).Suffix? ==> LooksLikeCount(t, p)
    ensures LooksLikeCount(t, p) ==> !ReadSuffix(t, p).NoSuffix?
  {
    hide Digits;
  }

  // ---------- characters ----------

  function HexDigit(d: nat, upper: bool): (c: char)
    requires d < 16
    ensures FromHex(c) == d
  {
    if upper then ['0', '1', '2', '3', '4', '5', '6', '7', '8', '9', 'A', 'B', 'C', 'D', 'E', 'F'][d]
    else ['0', '1', '2', '3', '4', '5', '6', '7', '8', '9', 'a', 'b', 'c', 'd', 'e', 'f'][d]
  }

  /** v in n hexadecimal digits. */
  function Hex(v: nat, n: nat, upper: bool): (w: string)
    ensures |w| == n
  {
    if n == 0 then "" else Hex(v / 16, n - 1, upper) + [HexDigit(v % 16, upper)]
  }

  function Sixteen(n: nat): (r: nat)
    ensures r >= 1
  {
    if n == 0 then 1 else 16 * Sixteen(n - 1)
  }

  lemma {:induction false} ReadHexLast(t: string, p: nat, n: nat, v: nat)
    requires ReadHex(t, p, n, v) >= 0
    ensures ReadHex(t, p, n + 1, v) ==
      var h := FromHex(At(t, p + n)); if h < 0 then -1 else ReadHex(t, p, n, v) * 16 + h
    decreases n
  {
    if n == 0 {
      assert ReadHex(t, p, 1, v) == if FromHex(At(t, p)) < 0 then -1 else ReadHex(t, p + 1, 0, v * 16 + FromHex(At(t, p)));
    } else {
      ReadHexLast(t, p + 1, n - 1, v * 16 + FromHex(At(t, p)));
    }
  }

  lemma {:induction false} ReadHexDigits(t: string, p: nat, n: nat, v: nat, upper: bool)
    requires Stands(t, p, Hex(v, n, upper)) && v < Sixteen(n)
    ensures ReadHex(t, p, n, 0) == v
    decreases n
  {
    hide ReadHex, FromHex;
    if n == 0 {
      assert ReadHex(t, p, 0, 0) == 0 by { NoHex(t, p, 0); }
    } else {
      var d := [HexDigit(v % 16, upper)];
      StandsSplit(t, p, Hex(v / 16, n - 1, upper), d);
      ReadHexDigits(t, p, n - 1, v / 16, upper);
      StandsAt(t, p + (n - 1), d, 0);
      ReadHexLast(t, p, n - 1, 0);
    }
  }

  lemma {:induction false} NoHex(t: string, p: nat, v: nat)
    ensures ReadHex(t, p, 0, v) == v
  {
  }

  /** A character by its code, as an escape. */
  function Escaped(c: nat): (w: string)
    ensures |w| == 6
  {
    "\\u" + Hex(c, 4, false)
  }

  lemma {:induction false} SixteenFour()
    ensures Sixteen(2) == 256 && Sixteen(4) == 0x1_0000
  {
    assert Sixteen(2) == 16 * Sixteen(1);
    assert Sixteen(4) == 16 * Sixteen(3);
  }

  lemma {:induction false} ReadEscaped(t: string, p: nat, c: nat, inClass: bool)
    requires Stands(t, p, Escaped(c)) && c <= 0xffff
    ensures ReadClassAtom(t, p, inClass) == One(c, p + 6) && t[p] == '\\' && t[p + 1] == 'u'
  {
    hide ReadHex, Hex;
    StandsAt(t, p, Escaped(c), 0);
    StandsAt(t, p, Escaped(c), 1);
    StandsSplit(t, p, "\\u", Hex(c, 4, false));
    SixteenFour();
    ReadHexDigits(t, p + 2, 4, c, false);
  }

  /** The two-digit form, and both cases of the digits. */
  lemma {:induction false} ReadHexEscape(t: string, p: nat, c: nat, upper: bool, inClass: bool)
    requires (c <= 0xff && Stands(t, p, "\\x" + Hex(c, 2, upper))) || (c <= 0xffff && Stands(t, p, "\\u" + Hex(c, 4, upper)))
    ensures ReadClassAtom(t, p, inClass) == One(c, if t[p + 1] == 'x' then p + 4 else p + 6)
  {
    hide ReadHex, Hex;
    SixteenFour();
    if c <= 0xff && Stands(t, p, "\\x" + Hex(c, 2, upper)) {
      StandsAt(t, p, "\\x" + Hex(c, 2, upper), 0);
      StandsAt(t, p, "\\x" + Hex(c, 2, upper), 1);
      StandsSplit(t, p, "\\x", Hex(c, 2, upper));
      ReadHexDigits(t, p + 2, 2, c, upper);
    } else {
      StandsAt(t, p, "\\u" + Hex(c, 4, upper), 0);
      StandsAt(t, p, "\\u" + Hex(c, 4, upper), 1);
      StandsSplit(t, p, "\\u", Hex(c, 4, upper));
      ReadHexDigits(t, p + 2, 4, c, upper);
    }
  }

  /** The letters t, n, v, f and r name the control characters from tab to carriage return, b in a class the one
      before. */
  lemma {:induction false} ControlNames(t: string, p: nat, i: nat, inClass: bool)
    requires i < 6 && Stands(t, p, ['\\', "btnvfr"[i]])
    ensures ReadClassAtom(t, p, inClass) == One(8 + i, p + 2)
  {
    StandsAt(t, p, ['\\', "btnvfr"[i]], 0);
    StandsAt(t, p, ['\\', "btnvfr"[i]], 1);
  }

  /** \c and the i-th letter of the alphabet, in either case, is the i-th control character. */
  lemma {:induction false} ControlLetters(t: string, p: nat, i: nat, upper: bool, inClass: bool)
    requires 1 <= i <= 26 && Stands(t, p, ['\\', 'c', ((if upper then 'A' else 'a') as int + (i - 1)) as char])
    ensures ReadClassAtom(t, p, inClass) == One(i, p + 3)
  {
    var w := ['\\', 'c', ((if upper then 'A' else 'a') as int + (i - 1)) as char];
    StandsAt(t, p, w, 0);
    StandsAt(t, p, w, 1);
    StandsAt(t, p, w, 2);
  }

  /** Three octal digits, of which the third counts only below 256. */
  lemma {:induction false} ReadOctalDigits(t: string, p: nat, a: nat, b: nat, c: nat, inClass: bool)
    requires a < 8 && b < 8 && c < 8 && Stands(t, p, ['\\', Digit(a), Digit(b), Digit(c)])
    ensures ReadClassAtom(t, p, inClass)
         == if 8 * a + b < 32 then One(64 * a + 8 * b + c, p + 4) else One(8 * a + b, p + 3)
  {
    var w := ['\\', Digit(a), Digit(b), Digit(c)];
    StandsAt(t, p, w, 0);
    StandsAt(t, p, w, 1);
    StandsAt(t, p, w, 2);
    StandsAt(t, p, w, 3);
  }

  // ---------- classes ----------

  /** The intervals of a list from the i-th on. */
  function IntervalsText(points: seq<nat>, i: nat): string
    requires |points| % 2 == 0 && forall j :: 0 <= j < |points| / 2 ==> points[2 * j + 1] >= 1
    decreases |points| - 2 * i
  {
    if 2 * i + 1 >= |points| then ""
    else Escaped(points[2 * i]) + "-" + Escaped(points[2 * i + 1] - 1) + IntervalsText(points, i + 1)
  }

  function Spans(points: seq<nat>, i: nat): (items: seq<Item>)
    requires 2 * i <= |points| && forall j :: 0 <= j < |points| / 2 ==> points[2 * j + 1] >= 1
    ensures |items| == i
  {
    seq(i, j requires 0 <= j < i => Span(points[2 * j], points[2 * j + 1] - 1))
  }

  /** Every interval has its ends within 16 bits. */
  ghost predicate Short(points: seq<nat>) {
    Canonical(points) && |points| % 2 == 0 && (forall i :: 0 <= i < |points| ==> points[i] <= 0x1_0000)
    && forall j :: 0 <= j < |points| / 2 ==> points[2 * j + 1] >= 1
  }

  /** One interval, read. */
  lemma {:induction false} IntervalRead(t: string, p: nat, items: seq<Item>, lo: nat, hi: nat, invert: bool)
    requires p + 13 <= |t| && lo <= hi && At(t, p) != ']'
    requires ReadClassAtom(t, p, true) == One(lo, p + 6) && At(t, p + 6) == '-' && At(t, p + 7) != ']'
    requires ReadClassAtom(t, p + 7, true) == One(hi, p + 13)
    ensures ReadItems(t, p, items, invert) == ReadItems(t, p + 13, items + [Span(lo, hi)], invert)
  {
    hide ReadClassAtom;
  }

  lemma {:induction false} IntervalStands(t: string, p: nat, lo: nat, hi: nat, rest: string)
    requires Stands(t, p, Escaped(lo) + "-" + Escaped(hi) + rest) && lo <= 0xffff && hi <= 0xffff
    ensures p + 13 <= |t| && Stands(t, p + 13, rest)
    ensures ReadClassAtom(t, p, true) == One(lo, p + 6) && At(t, p) != ']' && At(t, p + 6) == '-' && At(t, p + 7) != ']'
    ensures ReadClassAtom(t, p + 7, true) == One(hi, p + 13)
  {
    hide ReadClassAtom, Escaped, Stands;
    assert Escaped(lo) + "-" + Escaped(hi) + rest == Escaped(lo) + ("-" + (Escaped(hi) + rest));
    StandsSplit(t, p, Escaped(lo), "-" + (Escaped(hi) + rest));
    StandsSplit(t, p + 6, "-", Escaped(hi) + rest);
    StandsSplit(t, p + 7, Escaped(hi), rest);
    StandsAt(t, p + 6, "-", 0);
    ReadEscaped(t, p, lo, true);
    ReadEscaped(t, p + 7, hi, true);
    InText(t, p + 13, rest);
  }

  lemma {:induction false} ReadIntervals(t: string, p: nat, points: seq<nat>, i: nat, invert: bool)
    requires Short(points) && 2 * i <= |points| && Stands(t, p, IntervalsText(points, i) + "]")
    ensures ReadItems(t, p, Spans(points, i), invert)
         == Listing(Spans(points, |points| / 2), invert, p + |IntervalsText(points, i)| + 1)
    decreases |points| - 2 * i
  {
    hide ReadClassAtom, Escaped, Stands, Canonical, ReadItems;
    var w := IntervalsText(points, i);
    if 2 * i == |points| {
      StandsAt(t, p, w + "]", 0);
      ReadItemsEnd(t, p, Spans(points, i), invert);
    } else {
      var lo, hi, rest := points[2 * i], points[2 * i + 1] - 1, IntervalsText(points, i + 1);
      assert w + "]" == Escaped(lo) + "-" + Escaped(hi) + (rest + "]");
      CanonicalPair(points, i);
      IntervalStands(t, p, lo, hi, rest + "]");
      IntervalRead(t, p, Spans(points, i), lo, hi, invert);
      assert Spans(points, i) + [Span(lo, hi)] == Spans(points, i + 1);
      ReadIntervals(t, p + 13, points, i + 1, invert);
    }
  }

  lemma {:induction false} ReadItemsEnd(t: string, p: nat, items: seq<Item>, invert: bool)
    requires p < |t| && At(t, p) == ']'
    ensures ReadItems(t, p, items, invert) == Listing(items, invert, p + 1)
  {
  }

  lemma {:induction false} InText(t: string, p: nat, w: string)
    requires Stands(t, p, w)
    ensures p + |w| <= |t|
  {
  }

  lemma {:induction false} CanonicalPair(points: seq<int>, i: nat)
    requires Canonical(points) && 2 * i + 1 < |points|
    ensures points[2 * i] < points[2 * i + 1]
  {
  }

  lemma {:induction false} SpansMember(points: seq<nat>, c: int)
    requires Short(points)
    ensures InItems(Spans(points, |points| / 2), c) <==> Member(points, c)
  {
    assert Sorted(points);
    hide Count, Member, Canonical, Sorted;
    var items, p: seq<int> := Spans(points, |points| / 2), points;
    MemberInterval(p, c);
    if InItems(items, c) {
      var i :| 0 <= i < |items| && InItem(items[i], c);
      assert p[2 * i] == points[2 * i] && p[2 * i + 1] == points[2 * i + 1];
      assert Within(p, i, c);
    }
    if Member(p, c) {
      var i :| Within(p, i, c);
      SpanHolds(points, i, c);
    }
  }

  lemma {:induction false} SpanHolds(points: seq<nat>, i: nat, c: int)
    requires 2 * i + 1 < |points| && points[2 * i] <= c < points[2 * i + 1]
    requires forall j :: 0 <= j < |points| / 2 ==> points[2 * j + 1] >= 1
    ensures InItems(Spans(points, |points| / 2), c)
  {
    assert InItem(Spans(points, |points| / 2)[i], c);
  }

  // ---------- whole classes ----------

  /** A list that can be written: its ends are within 16 bits, but for an infinite last one. */
  ghost predicate Writable(points: seq<int>) {
    Canonical(points) && |points| / 2 < 65535
    && forall i :: 0 <= i < |points| ==> 0 <= points[i] && (points[i] <= 0x1_0000 || (i == |points| - 1 && points[i] == UINT32_MAX))
  }

  predicate Endless(points: seq<int>) {
    points != [] && points[|points| - 1] == UINT32_MAX
  }

  /** The complement of a list without end. */
  function Complement(points: seq<int>): (q: seq<int>)
    requires Endless(points)
  {
    if points[0] == 0 then points[1..|points| - 1] else [0] + points[..|points| - 1]
  }

  lemma {:induction false} ComplementShape(points: seq<int>)
    requires Writable(points) && Endless(points)
    ensures var q := Complement(points);
            && (forall i :: 0 <= i < |q| ==> 0 <= q[i] <= 0x1_0000) && Canonical(q) && Sorted(q) && |q| % 2 == 0
            && forall x <- q :: 0 <= x <= UINT32_MAX
  {
    var q, d := Complement(points), if points[0] == 0 then 1 else -1;
    assert forall i :: 0 <= i < |q| ==> q[i] == if i + d < 0 then 0 else points[i + d];
    assert Canonical(q) by { forall i, j | 0 <= i < j < |q| ensures q[i] < q[j] { assert points[j + d] >= 0; } }
    SortedCanonical(q);
    hide Canonical, Sorted;
  }

  lemma {:induction false} ComplementIs(points: seq<int>)
    requires Writable(points) && Endless(points)
    ensures forall c :: Member(points, c) == (0 <= c < UINT32_MAX && !Member(Complement(points), c))
  {
    ComplementShape(points);
    hide Count, Member, Canonical, Sorted, Writable;
    var q := Complement(points);
    forall c ensures Member(points, c) == (0 <= c < UINT32_MAX && !Member(q, c)) {
      WidenedAt(q, c);
      if points[0] == 0 {
        assert points == [0] + q + [UINT32_MAX];
      } else {
        TwoZeros(points, c);
        assert [0] + q + [UINT32_MAX] == [0, 0] + points;
      }
    }
  }

  lemma {:induction false} TwoZeros(p: seq<int>, c: int)
    ensures Member([0, 0] + p, c) == Member(p, c)
  {
    CountConcat([0, 0], p, c);
    CountPair(0, 0, c);
  }

  lemma {:induction false} ShortOf(points: seq<int>)
    requires Canonical(points) && forall i :: 0 <= i < |points| ==> 0 <= points[i] <= 0x1_0000
    ensures Short(points)
  {
    forall j | 0 <= j < |points| / 2 ensures points[2 * j + 1] >= 1 { CanonicalPair(points, j); }
  }

  lemma {:induction false} FinitePoints(points: seq<int>)
    requires Writable(points) && !Endless(points)
    ensures forall i :: 0 <= i < |points| ==> 0 <= points[i] <= 0x1_0000
  {
  }

  /** The list that is written, behind a ^ for the complement. */
  function Written(points: seq<int>): (q: seq<nat>)
    requires Writable(points)
    ensures Short(q)
  {
    if Endless(points) then ComplementShape(points); ShortOf(Complement(points)); Complement(points)
    else FinitePoints(points); ShortOf(points); points
  }

  ghost function ListText(points: seq<int>): string
    requires Writable(points)
  {
    (if Endless(points) then "[^" else "[") + IntervalsText(Written(points), 0) + "]"
  }

  /** The test for a list: an empty one is a character that does not exist. */
  function ListTest(points: seq<int>): (t: Test)
    requires points == [] || CharClass.IsClass(points)
  {
    if points == [] then Char(0xffff_ffff) else Class(points)
  }

  lemma {:induction false} WritableClass(points: seq<int>)
    requires Writable(points)
    ensures CharClass.Points(points) && (points == [] || CharClass.IsClass(points))
  {
  }

  lemma {:induction false} WrittenList(points: seq<int>)
    requires Writable(points)
    ensures ClassList(Spans(Written(points), |Written(points)| / 2), Endless(points)) == points
  {
    hide Count, Member, InItems, Spans;
    var q := Written(points);
    var items := Spans(q, |q| / 2);
    var f := ClassSet(items, Endless(points));
    forall c ensures Member(points, c) == (0 <= c < UINT32_MAX && f(c)) {
      SpansMember(q, c);
      if Endless(points) { ComplementIs(points); } else { FiniteMember(points, c); }
    }
    ListOfIs(f, points);
  }

  lemma {:induction false} FiniteMember(points: seq<int>, c: int)
    requires Writable(points) && !Endless(points)
    ensures Member(points, c) ==> 0 <= c < UINT32_MAX
  {
    hide Count, Member;
    FinitePoints(points);
    assert Sorted(points);
    MemberInterval(points, c);
  }

  /** A class read back is the list it was written from. */
  lemma {:induction false} ReadClassText(t: string, p: nat, points: seq<int>, captures: nat)
    requires Writable(points) && Stands(t, p, ListText(points))
    ensures p < |t| && t[p] == '['
    ensures (WritableClass(points); ReadList(t, p, captures) == Piece(Leaf(ListTest(points)), p + |ListText(points)|, captures, true))
  {
    hide Stands, ReadItems, IntervalsText, ClassList, Writable, Written, Spans, Endless;
    WritableClass(points);
    WrittenList(points);
    var body := IntervalsText(Written(points), 0) + "]";
    var open := if Endless(points) then "[^" else "[";
    assert ListText(points) == open + body;
    StandsSplit(t, p, open, body);
    StandsAt(t, p, open, 0);
    if Endless(points) { StandsAt(t, p, open, 1); } else { BodyStart(t, p + 1, points); }
    assert Short(Written(points));
    ReadIntervals(t, p + |open|, Written(points), 0, Endless(points));
    assert Spans(Written(points), 0) == [];
    InText(t, p, ListText(points));
    hide CharClass.Points, CharClass.IsClass;
  }

  lemma {:induction false} BodyStart(t: string, p: nat, points: seq<int>)
    requires Writable(points) && Stands(t, p, IntervalsText(Written(points), 0) + "]")
    ensures At(t, p) != '^'
  {
    hide Stands, Writable, Written;
    var q := Written(points);
    StandsAt(t, p, IntervalsText(q, 0) + "]", 0);
  }
}
