/** Character classes in a pattern's text: the escapes, the ranges with their Annex B exceptions, and the
    interval list they are compiled to. */
module RegexClass {
  import opened CharRanges

  /** The character at p; reading at the end of the buffer gives its terminating zero. */
  function At(t: string, p: nat): (c: char) {
    if p < |t| then t[p] else '\0'
  }

  predicate IsDigit(c: char) {
    '0' <= c <= '9'
  }

  predicate IsOctal(c: char) {
    '0' <= c <= '7'
  }

  predicate IsLetter(c: char) {
    'a' <= c <= 'z' || 'A' <= c <= 'Z'
  }

  // ---------- escapes ----------

  /** from_hex */
  function FromHex(c: char): (h: int)
    ensures -1 <= h < 16
  {
    if '0' <= c <= '9' then c as int - '0' as int
    else if 'A' <= c <= 'F' then c as int - 'A' as int + 10
    else if 'a' <= c <= 'f' then c as int - 'a' as int + 10
    else -1
  }

  /** n hexadecimal digits after v, or -1. */
  function ReadHex(t: string, p: nat, n: nat, v: nat): (r: int)
    ensures r >= 0 && n > 0 ==> p + n <= |t|
    decreases n
  {
    if n == 0 then v
    else
      var h := FromHex(At(t, p));
      if h < 0 then -1 else ReadHex(t, p + 1, n - 1, v * 16 + h)
  }

  lemma {:induction false} HexSmall(t: string, p: nat, n: nat, v: nat)
    requires n <= 4
    ensures ReadHex(t, p, n, v) < (v + 1) * (if n == 0 then 1 else if n == 1 then 16 else if n == 2 then 256 else if n == 3 then 4096 else 65536)
    decreases n
  {
    var h := FromHex(At(t, p));
    if n > 0 && h >= 0 { HexSmall(t, p + 1, n - 1, v * 16 + h); }
  }

  /** Malformed: an escape that is cut short. NoEscape: none at all. */
  datatype Escape = Value(c: nat, pos: nat) | Malformed | NoEscape

  /** lre_parse_escape, from the character after the backslash on. */
  function ReadEscapeValue(t: string, p: nat): (r: Escape)
    requires p < |t|
    ensures r.Value? ==> p < r.pos <= |t| && r.c <= 0xffff
  {
    var c := t[p];
    if c == 'b' then Value(8, p + 1)
    else if c == 'f' then Value(12, p + 1)
    else if c == 'n' then Value(10, p + 1)
    else if c == 'r' then Value(13, p + 1)
    else if c == 't' then Value(9, p + 1)
    else if c == 'v' then Value(11, p + 1)
    else if c == 'x' || c == 'u' then
      var n := if c == 'x' then 2 else 4;
      var v := ReadHex(t, p + 1, n, 0);
      HexSmall(t, p + 1, n, 0);
      if v < 0 then Malformed else Value(v, p + 1 + n)
    else if IsOctal(c) then ReadOctal(t, p)
    else NoEscape
  }

  /** Up to three octal digits, but no more than two when the first two make 32 or more. */
  function ReadOctal(t: string, p: nat): (r: Escape)
    requires p < |t| && IsOctal(t[p])
    ensures r.Value? && p < r.pos <= |t| && r.c <= 0xffff
  {
    var v := t[p] as int - '0' as int;
    if !IsOctal(At(t, p + 1)) then Value(v, p + 1)
    else
      var w := v * 8 + (At(t, p + 1) as int - '0' as int);
      if w >= 32 || !IsOctal(At(t, p + 2)) then Value(w, p + 2)
      else Value(w * 8 + (At(t, p + 2) as int - '0' as int), p + 3)
  }

  method LreParseEscape(t: string, p0: nat) returns (r: Escape)
    requires p0 < |t|
    ensures r == ReadEscapeValue(t, p0)
  {
    var p := p0;
    var c := t[p];
    p := p + 1;
    if c == 'b' { return Value(8, p); }
    if c == 'f' { return Value(12, p); }
    if c == 'n' { return Value(10, p); }
    if c == 'r' { return Value(13, p); }
    if c == 't' { return Value(9, p); }
    if c == 'v' { return Value(11, p); }
    if c == 'x' || c == 'u' {
      var n := if c == 'x' then 2 else 4;
      var v, i := 0, 0;
      while i < n
        invariant 0 <= i <= n && p == p0 + 1 + i && v >= 0
        invariant ReadHex(t, p0 + 1, n, 0) == ReadHex(t, p, n - i, v)
      {
        var h := FromHex(At(t, p));
        p := p + 1;
        if h < 0 { return Malformed; }
        v := v * 16 + h;
        i := i + 1;
      }
      return Value(v, p);
    }
    if IsOctal(c) {
      var w := c as int - '0' as int;
      if !IsOctal(At(t, p)) { return Value(w, p); }
      w := w * 8 + (At(t, p) as int - '0' as int);
      p := p + 1;
      if w >= 32 || !IsOctal(At(t, p)) { return Value(w, p); }
      w := w * 8 + (At(t, p) as int - '0' as int);
      return Value(w, p + 1);
    }
    return NoEscape;
  }

  // ---------- atoms of a class ----------

  const CHAR_RANGE_d: seq<int> := [0x30, 0x3a]
  const CHAR_RANGE_s: seq<int> :=
    [0x09, 0x0e, 0x20, 0x21, 0xa0, 0xa1, 0x1680, 0x1681, 0x2000, 0x200b, 0x2028, 0x202a, 0x202f, 0x2030,
     0x205f, 0x2060, 0x3000, 0x3001, 0xfeff, 0xff00]
  const CHAR_RANGE_w: seq<int> := [0x30, 0x3a, 0x41, 0x5b, 0x5f, 0x60, 0x61, 0x7b]

  predicate IsKind(k: char) {
    k in "dDsSwW"
  }

  function KindTable(k: char): (p: seq<int>)
    ensures Canonical(p) && forall x <- p :: 0 <= x <= UINT32_MAX
  {
    if k == 'd' || k == 'D' then
      TableOk(CHAR_RANGE_d);
      CHAR_RANGE_d
    else if k == 's' || k == 'S' then
      TableOk(CHAR_RANGE_s);
      CHAR_RANGE_s
    else
      TableOk(CHAR_RANGE_w);
      CHAR_RANGE_w
  }

  predicate Rises(p: seq<int>, i: nat) {
    i + 1 < |p| ==> 0 <= p[i] < p[i + 1] <= UINT32_MAX
  }

  lemma {:induction false} TableOk(p: seq<int>)
    requires |p| % 2 == 0 && forall i :: 0 <= i < |p| - 1 ==> Rises(p, i)
    ensures Canonical(p) && forall x <- p :: 0 <= x <= UINT32_MAX
  {
    forall i, j | 0 <= i < j < |p| ensures 0 <= p[i] < p[j] <= UINT32_MAX {
      RisesFar(p, i, j);
    }
    forall x | x in p ensures 0 <= x <= UINT32_MAX {
      var i :| 0 <= i < |p| && p[i] == x;
      assert if i == 0 then Rises(p, 0) else Rises(p, i - 1);
    }
  }

  lemma {:induction false} RisesFar(p: seq<int>, i: nat, j: nat)
    requires i < j < |p| && forall i :: 0 <= i < |p| - 1 ==> Rises(p, i)
    ensures 0 <= p[i] < p[j] <= UINT32_MAX
    decreases j
  {
    assert Rises(p, j - 1);
    if i < j - 1 { RisesFar(p, i, j - 1); }
  }

  /** The characters of an escape such as \d; the capital letters stand for the others. */
  predicate InKind(k: char, c: int) {
    if k == 'D' || k == 'S' || k == 'W' then 0 <= c < UINT32_MAX && !Member(KindTable(k), c) else Member(KindTable(k), c)
  }

  /** One character, or one of the escapes that stand for several. */
  datatype ClassAtom = One(c: nat, pos: nat) | Several(k: char, pos: nat) | BadAtom

  function Plain(t: string, p: nat): (r: ClassAtom)
    requires p < |t|
  {
    if t[p] as int > 0xffff then BadAtom else One(t[p] as int, p + 1)
  }

  /** get_class_atom */
  function ReadClassAtom(t: string, p: nat, inClass: bool): (r: ClassAtom)
    requires p <= |t|
    ensures r.One? ==> p < r.pos <= |t| && r.c <= 0xffff
    ensures r.Several? ==> p < r.pos <= |t| && IsKind(r.k)
  {
    if p >= |t| then BadAtom
    else if t[p] != '\\' then Plain(t, p)
    else if p + 1 >= |t| then BadAtom
    else
      var c := t[p + 1];
      if IsKind(c) then Several(c, p + 2)
      else if c == 'c' then
        var d := At(t, p + 2);
        if IsLetter(d) || ((IsDigit(d) || d == '_') && inClass) then One(d as int % 32, p + 3) else One('\\' as int, p + 1)
      else
        match ReadEscapeValue(t, p + 1)
        case Value(v, pos) => One(v, pos)
        case Malformed => Plain(t, p + 1)
        case NoEscape => Plain(t, p + 1)
  }

  method GetClassAtom(t: string, p: nat, inClass: bool) returns (r: ClassAtom)
    requires p <= |t|
    ensures r == ReadClassAtom(t, p, inClass)
  {
    hide ReadEscapeValue;
    if At(t, p) == '\\' {
      var q := p + 1;
      if q >= |t| { return BadAtom; }
      var c := t[q];
      if IsKind(c) { return Several(c, q + 1); }
      if c == 'c' {
        var d := At(t, q + 1);
        if IsLetter(d) || ((IsDigit(d) || d == '_') && inClass) { return One(d as int % 32, q + 2); }
        // the backslash stands for itself
        return One('\\' as int, q);
      }
      var e := LreParseEscape(t, q);
      if e.Value? { return One(e.c, e.pos); }
      // the backslash is ignored
      return Plain(t, q);
    }
    if p >= |t| { return BadAtom; }
    return Plain(t, p);
  }

  /** cr_init_char_range */
  method InitCharRange(k: char) returns (cr: CharRange)
    requires IsKind(k)
    ensures fresh(cr) && Canonical(cr.points) && (forall x <- cr.points :: 0 <= x <= UINT32_MAX)
    ensures forall c :: Member(cr.points, c) == InKind(k, c)
  {
    hide Canonical, Member;
    var table := KindTable(k);
    cr := new CharRange();
    var i := 0;
    while i < |table|
      invariant 0 <= i <= |table| && cr.points == table[..i]
    {
      cr.AddPoint(table[i]);
      i := i + 1;
    }
    assert cr.points == table;
    SortedCanonical(table);
    if k == 'D' || k == 'S' || k == 'W' {
      cr.Invert();
    }
  }

  lemma {:induction false} SortedCanonical(p: seq<int>)
    requires Canonical(p)
    ensures Sorted(p) && |p| % 2 == 0
  {
  }

  // ---------- a class ----------

  /** An escape for several characters outside a class is a class of its own. */
  lemma {:induction false} KindList(k: char, p: seq<int>)
    requires Canonical(p) && forall c :: Member(p, c) == InKind(k, c)
    ensures p == ClassList([Kind(k)], false)
  {
    hide Member, Canonical, InKind;
    forall c ensures Member(p, c) == (0 <= c < UINT32_MAX && ClassSet([Kind(k)], false)(c)) {
      assert InItems([Kind(k)], c) == InKind(k, c) by { InOne(k, c); }
      if InKind(k, c) { KindBelow(k, c); }
    }
    ListOfIs(ClassSet([Kind(k)], false), p);
  }

  lemma {:induction false} InOne(k: char, c: int)
    ensures InItems([Kind(k)], c) == InKind(k, c)
  {
    hide InKind;
    if InKind(k, c) { assert InItem([Kind(k)][0], c); }
  }

  datatype Item = Span(lo: nat, hi: nat) | Kind(k: char)

  predicate InItem(i: Item, c: int) {
    match i
    case Span(lo, hi) => lo <= c <= hi
    case Kind(k) => InKind(k, c)
  }

  predicate InItems(items: seq<Item>, c: int) {
    exists i :: 0 <= i < |items| && InItem(items[i], c)
  }

  datatype ClassText = Listing(items: seq<Item>, invert: bool, pos: nat) | BadClass

  /** What an atom stands for alone. */
  function Single(a: ClassAtom): Item
    requires !a.BadAtom?
  {
    if a.One? then Span(a.c, a.c) else Kind(a.k)
  }

  /** The rest of a class up to its closing bracket. A '-' next to an escape for several characters is itself a
      member (Annex B). */
  function ReadItems(t: string, p: nat, items: seq<Item>, invert: bool): (r: ClassText)
    requires p <= |t|
    ensures r.Listing? ==> p < r.pos <= |t|
    decreases |t| - p
  {
    if At(t, p) == ']' then Listing(items, invert, p + 1)
    else
      var a := ReadClassAtom(t, p, true);
      if a.BadAtom? then BadClass
      else if At(t, a.pos) == '-' && At(t, a.pos + 1) != ']' && a.One? then
        var b := ReadClassAtom(t, a.pos + 1, true);
        if b.BadAtom? then BadClass
        else if b.Several? then ReadItems(t, a.pos, items + [Single(a)], invert)
        else if b.c < a.c then BadClass
        else ReadItems(t, b.pos, items + [Span(a.c, b.c)], invert)
      else ReadItems(t, a.pos, items + [Single(a)], invert)
  }

  /** re_parse_char_class, from the opening bracket on. */
  function ReadClass(t: string, p: nat): (r: ClassText)
    requires p < |t|
    ensures r.Listing? ==> p < r.pos <= |t|
  {
    var invert := At(t, p + 1) == '^';
    ReadItems(t, if invert then p + 2 else p + 1, [], invert)
  }

  ghost function ClassSet(items: seq<Item>, invert: bool): int -> bool {
    c => InItems(items, c) != invert
  }

  /** The interval list of a class. */
  ghost function ClassList(items: seq<Item>, invert: bool): (p: seq<int>)
    ensures Canonical(p) && forall x <- p :: 0 <= x <= UINT32_MAX
  {
    ListOf(ClassSet(items, invert))
  }

  /** The list holds the items, all of them below infinity. */
  ghost predicate Holds(p: seq<int>, items: seq<Item>) {
    Canonical(p) && forall c :: HoldsAt(p, items, c)
  }

  ghost predicate HoldsAt(p: seq<int>, items: seq<Item>, c: int) {
    Member(p, c) == InItems(items, c) && (InItems(items, c) ==> 0 <= c < UINT32_MAX)
  }

  lemma {:induction false} HoldsNothing()
    ensures Holds([], [])
  {
  }

  lemma {:induction false} HoldsMore(p: seq<int>, q: seq<int>, items: seq<Item>, x: Item)
    requires Holds(p, items) && Canonical(q)
    requires forall c :: Member(q, c) == (Member(p, c) || InItem(x, c))
    requires forall c :: InItem(x, c) ==> 0 <= c < UINT32_MAX
    ensures Holds(q, items + [x])
  {
    hide Member, Canonical, InItem;
    var more := items + [x];
    forall c ensures HoldsAt(q, more, c) {
      assert HoldsAt(p, items, c);
      assert InItems(more, c) == (InItems(items, c) || InItem(x, c)) by { InMore(items, x, c); }
    }
  }

  lemma {:induction false} InMore(items: seq<Item>, x: Item, c: int)
    ensures InItems(items + [x], c) == (InItems(items, c) || InItem(x, c))
  {
    hide InItem;
    var more := items + [x];
    if InItems(items, c) {
      var i :| 0 <= i < |items| && InItem(items[i], c);
      assert InItem(more[i], c);
    }
    if InItem(x, c) { assert InItem(more[|items|], c); }
  }

  lemma {:induction false} KindBelow(k: char, c: int)
    requires InKind(k, c)
    ensures 0 <= c < UINT32_MAX
  {
    if k != 'D' && k != 'S' && k != 'W' { OutsideRange(KindTable(k), c); }
  }

  /** cr_union1 or cr_union_interval with what an atom stands for. */
  method UnionAtom(cr: CharRange, a: ClassAtom, ghost items: seq<Item>)
    requires !a.BadAtom? && Holds(cr.points, items) && (a.One? ==> a.c <= 0xffff) && (a.Several? ==> IsKind(a.k))
    modifies cr
    ensures Holds(cr.points, items + [Single(a)])
  {
    hide Member, Canonical, InKind, InItems;
    ghost var p := cr.points;
    assert Holds(p, items);
    SortedCanonical(p);
    if a.Several? {
      var cr1 := InitCharRange(a.k);
      SortedCanonical(cr1.points);
      cr.Union1(cr1.points);
      forall c | InKind(a.k, c) ensures 0 <= c < UINT32_MAX { KindBelow(a.k, c); }
    } else {
      cr.UnionInterval(a.c, a.c);
    }
    HoldsMore(p, cr.points, items, Single(a));
  }

  method UnionSpan(cr: CharRange, c1: nat, c2: nat, ghost items: seq<Item>)
    requires Holds(cr.points, items) && c1 <= c2 <= 0xffff
    modifies cr
    ensures Holds(cr.points, items + [Span(c1, c2)])
  {
    hide Member, Canonical, InItems;
    ghost var p := cr.points;
    SortedCanonical(p);
    cr.UnionInterval(c1, c2);
    HoldsMore(p, cr.points, items, Span(c1, c2));
  }

  method ParseCharClass(t: string, p0: nat) returns (ok: bool, points: seq<int>, p: nat)
    requires p0 < |t| && t[p0] == '['
    ensures var r := ReadClass(t, p0);
            if r.BadClass? then !ok else ok && p == r.pos && points == ClassList(r.items, r.invert)
  {
    hide Holds, ReadClassAtom;
    var cr := new CharRange();
    ghost var items: seq<Item> := [];
    HoldsNothing();
    points := [];
    p := p0 + 1;
    var invert := false;
    if At(t, p) == '^' {
      p := p + 1;
      invert := true;
    }
    ghost var r := ReadClass(t, p0);
    while At(t, p) != ']'
      invariant p <= |t| && r == ReadItems(t, p, items, invert) && Holds(cr.points, items)
      decreases |t| - p
    {
      var a := GetClassAtom(t, p, true);
      if a.BadAtom? { return false, points, p; }
      var alone := true;
      if At(t, a.pos) == '-' && At(t, a.pos + 1) != ']' && a.One? {
        var b := GetClassAtom(t, a.pos + 1, true);
        if b.BadAtom? { return false, points, p; }
        if b.One? {
          if b.c < a.c { return false, points, p; }
          UnionSpan(cr, a.c, b.c, items);
          items := items + [Span(a.c, b.c)];
          p := b.pos;
          alone := false;
        }
      }
      if alone {
        UnionAtom(cr, a, items);
        items := items + [Single(a)];
        p := a.pos;
      }
    }
    ListHolds(cr.points, items);
    ghost var list := cr.points;
    if invert {
      SortedCanonical(cr.points);
      cr.Invert();
      ListInverted(list, cr.points, items);
    }
    ok := true;
    p := p + 1;
    points := cr.points;
  }

  lemma {:induction false} ListHolds(p: seq<int>, items: seq<Item>)
    requires Holds(p, items)
    ensures p == ClassList(items, false) && Canonical(p) && forall x <- p :: 0 <= x <= UINT32_MAX
  {
    hide Member, InItems, Canonical;
    forall c ensures Member(p, c) == (0 <= c < UINT32_MAX && ClassSet(items, false)(c)) {
      assert HoldsAt(p, items, c);
    }
    ListOfIs(ClassSet(items, false), p);
  }

  lemma {:induction false} ListInverted(p: seq<int>, q: seq<int>, items: seq<Item>)
    requires Holds(p, items) && Canonical(q) && forall c :: Member(q, c) == (0 <= c < UINT32_MAX && !Member(p, c))
    ensures q == ClassList(items, true)
  {
    hide Member, InItems, Canonical;
    forall c ensures Member(q, c) == (0 <= c < UINT32_MAX && ClassSet(items, true)(c)) {
      assert HoldsAt(p, items, c);
    }
    ListOfIs(ClassSet(items, true), q);
  }
}
