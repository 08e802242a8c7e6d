/** What the tests of a pattern mean, said without the tables and predicates the matcher uses: the escapes for
    several characters, line terminators, anchors and word boundaries, and how they belong together. */
module RegexMeaning {
  import opened RegexBytes
  import opened RegexSyntax
  import opened RegexMatch
  import opened RegexClass
  import opened RegexGrammar
  import opened RegexText
  import opened CharRanges
  import CharClass

  // ---------- \d, \s and \w ----------

  lemma {:induction false} TableMember(p: seq<int>, c: int)
    requires Canonical(p)
    ensures Member(p, c) <==> exists i :: Within(p, i, c)
  {
    hide Count;
    assert Sorted(p);
    MemberInterval(p, c);
  }

  lemma {:induction false} DigitMeans(c: int)
    ensures InKind('d', c) <==> '0' as int <= c <= '9' as int
  {
    hide Count, Member;
    var p := KindTable('d');
    TableMember(p, c);
    if '0' as int <= c <= '9' as int { assert Within(p, 0, c); }
  }

  /** \w names the characters that make words for \b. */
  lemma {:induction false} WordMeans(c: int)
    ensures InKind('w', c) <==> IsWordChar(c)
    ensures InKind('w', c) <==>
      || 'a' as int <= c <= 'z' as int || 'A' as int <= c <= 'Z' as int || '0' as int <= c <= '9' as int || c == '_' as int
  {
    hide Count, Member;
    var p := KindTable('w');
    TableMember(p, c);
    if '0' as int <= c <= '9' as int { assert Within(p, 0, c); }
    if 'A' as int <= c <= 'Z' as int { assert Within(p, 1, c); }
    if c == '_' as int { assert Within(p, 2, c); }
    if 'a' as int <= c <= 'z' as int { assert Within(p, 3, c); }
  }

  /** The white space of ECMA-262 (section 11.2): tab to carriage return, the spaces of Unicode, the two separators
      and the byte order mark. */
  predicate IsSpace(c: int) {
    || 9 <= c <= 13 || c == ' ' as int || c == 0xa0 || c == 0x1680 || 0x2000 <= c <= 0x200a
    || c == 0x2028 || c == 0x2029 || c == 0x202f || c == 0x205f || c == 0x3000 || c == 0xfeff
  }

  lemma {:induction false} SpaceListed(i: int, c: int)
    requires Within(KindTable('s'), i, c)
    ensures IsSpace(c)
  {
  }

  lemma {:induction false} SpaceFound(c: int)
    requires IsSpace(c)
    ensures exists i :: Within(KindTable('s'), i, c)
  {
    var p := KindTable('s');
    var i := if c <= 13 then 0 else if c == 0x20 then 1 else if c == 0xa0 then 2 else if c == 0x1680 then 3
             else if c <= 0x200a then 4 else if c <= 0x2029 then 5 else if c == 0x202f then 6 else if c == 0x205f then 7
             else if c == 0x3000 then 8 else 9;
    assert Within(p, i, c);
  }

  lemma {:induction false} SpaceMeans(c: int)
    ensures InKind('s', c) <==> IsSpace(c)
    ensures IsLineTerminator(c) ==> InKind('s', c)
  {
    hide Count, Member, KindTable, Within, IsSpace;
    TableMember(KindTable('s'), c);
    if i :| Within(KindTable('s'), i, c) { SpaceListed(i, c); }
    if IsSpace(c) { SpaceFound(c); }
    if IsLineTerminator(c) { TerminatorIsSpace(c); }
  }

  lemma {:induction false} TerminatorIsSpace(c: int)
    requires IsLineTerminator(c)
    ensures IsSpace(c)
  {
  }

  /** The capital letters name all other characters. */
  lemma {:induction false} CapitalsMean(c: int)
    requires 0 <= c < UINT32_MAX
    ensures InKind('D', c) <==> !InKind('d', c)
    ensures InKind('S', c) <==> !InKind('s', c)
    ensures InKind('W', c) <==> !InKind('w', c)
  {
    hide Member;
  }

  lemma {:induction false} TableInside(k: char)
    ensures var p := KindTable(k); p != [] && |p| <= 20 && 0 < p[0] && p[|p| - 1] < UINT32_MAX
  {
  }

  lemma {:induction false} Outside(p: seq<int>)
    requires Canonical(p) && p != [] && 0 < p[0] && p[|p| - 1] < UINT32_MAX
    ensures Canonical([0] + p + [UINT32_MAX]) && Sorted(p) && |p| % 2 == 0
  {
  }

  lemma {:induction false} KindListed(k: char)
    requires IsKind(k)
    ensures CharClass.IsClass(ClassList([Kind(k)], false))
    ensures forall c :: Member(ClassList([Kind(k)], false), c) == InKind(k, c)
  {
    hide Member, Count, KindTable, Canonical, Sorted, CharClass.Points, ClassList;
    var table := KindTable(k);
    var p := [0] + table + [UINT32_MAX];
    TableInside(k);
    ListPoints([Kind(k)], false);
    if k == 'D' || k == 'S' || k == 'W' {
      Outside(table);
      forall c ensures Member(p, c) == InKind(k, c) { WidenedAt(table, c); }
      KindList(k, p);
    } else {
      KindList(k, table);
    }
  }

  /** An escape for several characters, read as an atom, passes exactly those characters. */
  lemma {:induction false} KindPasses(t: string, p: nat, k: char, dotall: bool, captures: nat, s: Subject, pos: nat)
    requires k in "dDsSwW" && Stands(t, p, ['\\', k]) && pos < |s.text|
    ensures p < |t| && ReadAtom(t, dotall, p, captures).Piece? && ReadAtom(t, dotall, p, captures).pos == p + 2
    ensures ReadAtom(t, dotall, p, captures).n.Leaf?
    ensures Advance(ReadAtom(t, dotall, p, captures).n.t, s, pos) == if InKind(k, s.text[pos]) then Some(pos + 1) else None
  {
    hide Member, InKind, CharClass.IsClass;
    StandsAt(t, p, ['\\', k], 0);
    StandsAt(t, p, ['\\', k], 1);
    KindListed(k);
    ListPoints([Kind(k)], false);
    assert ReadAtom(t, dotall, p, captures) == Listed(ClassList([Kind(k)], false), p + 2, captures);
    EmptyList(s.text[pos]);
  }

  /** Behind \0 up to two octal digits are read: the legacy form of a character. */
  lemma {:induction false} ZeroMeans(t: string, p: nat, a: nat, b: nat, dotall: bool, captures: nat)
    requires a < 8 && b < 8 && Stands(t, p, ['\\', '0', Digit(a), Digit(b)])
    ensures p < |t| && ReadAtom(t, dotall, p, captures) == Piece(Leaf(Char(8 * a + b)), p + 4, captures, true)
  {
    var w := ['\\', '0', Digit(a), Digit(b)];
    StandsAt(t, p, w, 0);
    StandsAt(t, p, w, 1);
    StandsAt(t, p, w, 2);
    StandsAt(t, p, w, 3);
    hide ReadGroup, ReadList, ReadPlain, LooksLikeCount, Stands, Digit;
    assert ZeroEscape(t, p + 2) == (8 * a + b, p + 4);
    hide ZeroEscape, IsOctal;
  }

  /** Behind a backslash at most three octal digits are read. */
  lemma {:induction false} OctalStops(t: string, p: nat, a: nat, x: char, inClass: bool)
    requires a < 8 && x !in "01234567" && Stands(t, p, ['\\', Digit(a), x])
    ensures ReadClassAtom(t, p, inClass) == One(a, p + 2)
  {
    var w := ['\\', Digit(a), x];
    StandsAt(t, p, w, 0);
    StandsAt(t, p, w, 1);
    StandsAt(t, p, w, 2);
  }

  // ---------- characters that stand for themselves ----------

  /** Every character without a meaning of its own, a lone closing bracket or brace among them. */
  lemma {:induction false} PlainMeans(t: string, p: nat, dotall: bool, captures: nat)
    requires p < |t| && t[p] !in "^$\\.*+?()[{|" && t[p] as int <= 0xffff
    ensures ReadAtom(t, dotall, p, captures) == Piece(Leaf(Char(t[p] as int)), p + 1, captures, true)
  {
    hide ReadGroup, ReadList, ReadEscape, LooksLikeCount;
  }

  /** An opening brace that can be no count (Annex B). */
  lemma {:induction false} BraceMeans(t: string, p: nat, dotall: bool, captures: nat)
    requires p < |t| && t[p] == '{' && (!IsDigit(At(t, p + 1)) || forall i :: p < i < |t| ==> t[i] != '}')
    ensures ReadAtom(t, dotall, p, captures) == Piece(Leaf(Char('{' as int)), p + 1, captures, true)
  {
    hide ReadGroup, ReadList, ReadEscape, Digits;
  }

  /** Behind a backslash, every character that names nothing else. */
  lemma {:induction false} IdentityEscape(t: string, p: nat, inClass: bool)
    requires p + 1 < |t| && t[p] == '\\' && t[p + 1] !in "bfnrtvxu01234567dDsSwWc" && t[p + 1] as int <= 0xffff
    ensures ReadClassAtom(t, p, inClass) == One(t[p + 1] as int, p + 2)
  {
    assert ReadEscapeValue(t, p + 1) == NoEscape;
    hide ReadEscapeValue;
  }

  /** Without all its digits a hexadecimal escape is the letter x or u. */
  lemma {:induction false} ShortHex(t: string, p: nat, n: nat, inClass: bool)
    requires p + 1 < |t| && t[p] == '\\' && ((t[p + 1] == 'x' && n < 2) || (t[p + 1] == 'u' && n < 4))
    requires FromHex(At(t, p + 2 + n)) < 0
    ensures ReadClassAtom(t, p, inClass) == One(t[p + 1] as int, p + 2)
  {
    hide FromHex;
    BrokenHex(t, p + 2, if t[p + 1] == 'x' then 2 else 4, 0, n);
    hide ReadHex;
  }

  lemma {:induction false} BrokenHex(t: string, p: nat, n: nat, v: nat, i: nat)
    requires i < n && FromHex(At(t, p + i)) < 0
    ensures ReadHex(t, p, n, v) == -1
    decreases n
  {
    hide FromHex;
    var h := FromHex(At(t, p));
    if i > 0 && h >= 0 { BrokenHex(t, p + 1, n - 1, v * 16 + h, i - 1); }
  }

  /** Where no letter follows, \c is a backslash before a c; but in a class digits and the underscore count, too. */
  lemma {:induction false} ControlElse(t: string, p: nat, inClass: bool)
    requires p + 1 < |t| && t[p] == '\\' && t[p + 1] == 'c'
    ensures var d := At(t, p + 2);
            && (!IsLetter(d) && !(inClass && (IsDigit(d) || d == '_')) ==> ReadClassAtom(t, p, inClass) == One('\\' as int, p + 1))
            && (inClass && d == '_' ==> ReadClassAtom(t, p, inClass) == One(31, p + 3))
            && (inClass && IsDigit(d) ==> ReadClassAtom(t, p, inClass) == One(16 + (d as int - '0' as int), p + 3))
  {
    hide ReadEscapeValue;
  }

  /** A hyphen in a class makes an interval, but is itself where it stands first or last. */
  lemma {:induction false} HyphenMeans(c: char, d: char)
    requires c !in "\\]-^" && d !in "\\]-^" && c as int <= d as int <= 0xffff
    ensures ReadClass(['[', c, '-', d, ']'], 0) == Listing([Span(c as int, d as int)], false, 5)
    ensures ReadClass(['[', '-', c, ']'], 0) == Listing([Span('-' as int, '-' as int), Span(c as int, c as int)], false, 4)
    ensures ReadClass(['[', c, '-', ']'], 0) == Listing([Span(c as int, c as int), Span('-' as int, '-' as int)], false, 4)
  {
    hide ReadEscapeValue, ReadItems;
    var h, x := Span('-' as int, '-' as int), Span(c as int, c as int);
    IntervalAlone(['[', c, '-', d, ']']);
    NextItem(['[', '-', c, ']'], 1, []);
    NextItem(['[', '-', c, ']'], 2, [h]);
    NextItem(['[', c, '-', ']'], 1, []);
    NextItem(['[', c, '-', ']'], 2, [x]);
    assert [] + [h] == [h] && [] + [x] == [x] && [h] + [x] == [h, x] && [x] + [h] == [x, h];
  }

  /** It is itself next to an escape for several characters, too. */
  lemma {:induction false} HyphenBeside(k: char, c: char)
    requires k in "dDsSwW" && c !in "\\]-^" && c as int <= 0xffff
    ensures ReadClass(['[', c, '-', '\\', k, ']'], 0)
         == Listing([Span(c as int, c as int), Span('-' as int, '-' as int), Kind(k)], false, 6)
    ensures ReadClass(['[', '\\', k, '-', c, ']'], 0)
         == Listing([Kind(k), Span('-' as int, '-' as int), Span(c as int, c as int)], false, 6)
  {
    hide ReadEscapeValue, ReadItems;
    var h, x := Span('-' as int, '-' as int), Span(c as int, c as int);
    var t, u := ['[', c, '-', '\\', k, ']'], ['[', '\\', k, '-', c, ']'];
    NextItem(t, 1, []);
    NextItem(t, 2, [x]);
    NextItem(t, 3, [x, h]);
    NextItem(u, 1, []);
    NextItem(u, 3, [Kind(k)]);
    NextItem(u, 4, [Kind(k), h]);
    assert [] + [x] == [x] && [] + [Kind(k)] == [Kind(k)] && [x] + [h] == [x, h] && [Kind(k)] + [h] == [Kind(k), h];
    assert [x, h] + [Kind(k)] == [x, h, Kind(k)] && [Kind(k), h] + [x] == [Kind(k), h, x];
  }

  /** What follows does not make the atom the start of an interval. */
  lemma {:induction false} NextItem(t: string, p: nat, items: seq<Item>)
    requires p + 1 < |t| && t[p] != ']' && t[|t| - 1] == ']'
    requires var a := ReadClassAtom(t, p, true);
             && !a.BadAtom? && a.pos < |t|
             && (t[a.pos] == '-' && a.One? && t[a.pos + 1] != ']' ==> ReadClassAtom(t, a.pos + 1, true).Several?)
    ensures var a := ReadClassAtom(t, p, true);
            var more := items + [Single(a)];
            ReadItems(t, p, items, false) == if a.pos == |t| - 1 then Listing(more, false, |t|) else ReadItems(t, a.pos, more, false)
  {
    hide ReadClassAtom;
    var a := ReadClassAtom(t, p, true);
    if a.pos == |t| - 1 {
      assert ReadItems(t, a.pos, items + [Single(a)], false) == Listing(items + [Single(a)], false, |t|);
    }
  }

  lemma {:induction false} IntervalAlone(t: string)
    requires |t| == 5 && t[1] !in "\\]-^" && t[2] == '-' && t[3] !in "\\]-^" && t[4] == ']' && t[1] as int <= t[3] as int <= 0xffff
    ensures ReadItems(t, 1, [], false) == Listing([Span(t[1] as int, t[3] as int)], false, 5)
  {
    hide ReadEscapeValue;
    var items := [] + [Span(t[1] as int, t[3] as int)];
    assert ReadItems(t, 4, items, false) == Listing(items, false, 5);
  }

  // ---------- texts that are rejected, and texts beyond the covered grammar ----------

  /** A count needs something before it that can be repeated. */
  lemma {:induction false} StrayCount(t: string, p: nat, n: Node, dotall: bool, captures: nat)
    requires p < |t| && t[p] in "*+?" && WellFormed(n, captures)
    ensures ReadTerms(t, dotall, n, p, captures) == Rejected
  {
    assert ReadAtom(t, dotall, p, captures) == NoPiece(false);
    assert ReadTerm(t, dotall, p, captures) == Rejected;
  }

  /** Anchors and boundaries cannot be repeated. */
  lemma {:induction false} AnchorCount(t: string, p: nat, n: Node, dotall: bool, captures: nat)
    requires p + 1 < |t| && t[p] in "^$" && t[p + 1] in "*+?" && WellFormed(n, captures)
    ensures ReadTerms(t, dotall, n, p, captures) == Rejected
  {
    var anchor := Leaf(if t[p] == '^' then LineStart else LineEnd);
    assert ReadTerm(t, dotall, p, captures) == Tree(anchor, p + 1, captures);
    StrayCount(t, p + 1, Cat(n, anchor), dotall, captures);
    hide ReadTerm;
  }

  /** Counts must not fall. */
  lemma {:induction false} FallingCount(t: string, p: nat, min: nat, max: nat)
    requires max < min <= INT32_MAX && Stands(t, p, "{" + Decimal(min) + "," + Decimal(max) + "}")
    ensures ReadSuffix(t, p) == BadSuffix && LooksLikeCount(t, p)
  {
    hide Decimal, Digits, Stands, ReadSuffix, LooksLikeCount;
    var d, e := Decimal(min), Decimal(max);
    var q, rest := p + 1 + |d|, "," + (e + "}");
    assert "{" + d + "," + e + "}" == "{" + d + rest;
    ReadFirst(t, p, min, rest);
    StandsSplit(t, q, ",", e + "}");
    StandsSplit(t, q + 1, e, "}");
    StandsAt(t, q + 1 + |e|, "}", 0);
    ReadNumber(t, q + 1, max);
    CountFalls(t, p, min, max, q, q + 1 + |e|);
  }

  lemma {:induction false} CountFalls(t: string, p: nat, min: nat, max: nat, q: nat, z: nat)
    requires p < q < |t| && t[p] == '{' && max < min
    requires IsDigit(At(t, p + 1)) && Digits(t, p + 1, 0) == (min, q)
    requires At(t, q) == ',' && IsDigit(At(t, q + 1)) && Digits(t, q + 1, 0) == (max, z) && At(t, z) == '}'
    ensures ReadSuffix(t, p) == BadSuffix && LooksLikeCount(t, p)
  {
    hide Digits;
  }

  /** A group must be closed. */
  lemma {:induction false} OpenGroup(t: string, p: nat, dotall: bool, captures: nat)
    requires p < |t| && t[p] == '(' && forall i :: p < i < |t| ==> t[i] != ')'
    ensures !ReadAtom(t, dotall, p, captures).Piece?
  {
    hide Enclosed;
    NeverClosed(t, p + 1, dotall, captures + 1);
    if p + 3 <= |t| { NeverClosed(t, p + 3, dotall, captures); }
    assert !ReadGroup(t, dotall, p, captures).Piece?;
  }

  lemma {:induction false} NeverClosed(t: string, p: nat, dotall: bool, captures: nat)
    requires p <= |t| && forall i :: p <= i < |t| ==> t[i] != ')'
    ensures !Enclosed(t, dotall, p, captures).Tree?
  {
    hide ReadDisjunction;
  }

  /** Behind (? only four characters open a group. */
  lemma {:induction false} UnknownGroup(t: string, p: nat, dotall: bool, captures: nat)
    requires p + 1 < |t| && t[p] == '(' && t[p + 1] == '?' && At(t, p + 2) !in ":=!<"
    ensures ReadTerm(t, dotall, p, captures) == Rejected
  {
    assert ReadGroup(t, dotall, p, captures) == NoPiece(false);
    assert ReadAtom(t, dotall, p, captures) == NoPiece(false);
  }

  /** A class must be closed. */
  lemma {:induction false} OpenClass(t: string, p: nat, items: seq<Item>, invert: bool)
    requires p <= |t| && forall i :: p <= i < |t| ==> t[i] != ']'
    ensures ReadItems(t, p, items, invert) == BadClass
    decreases |t| - p
  {
    hide ReadClassAtom;
    var a := ReadClassAtom(t, p, true);
    if !a.BadAtom? {
      OpenClass(t, a.pos, items + [Single(a)], invert);
      if a.One? && At(t, a.pos) == '-' {
        var b := ReadClassAtom(t, a.pos + 1, true);
        if b.One? { OpenClass(t, b.pos, items + [Span(a.c, b.c)], invert); }
      }
    }
  }

  /** Back references and lookbehind are told apart from everything else. */
  lemma {:induction false} OutsideTexts(t: string, p: nat, dotall: bool, captures: nat)
    requires p + 1 < |t|
    ensures t[p] == '\\' && (t[p + 1] == 'k' || '1' <= t[p + 1] <= '9') ==> ReadTerm(t, dotall, p, captures) == Parsed.Outside
    ensures t[p] == '(' && t[p + 1] == '?' && At(t, p + 2) == '<' ==> ReadTerm(t, dotall, p, captures) == Parsed.Outside
  {
    hide ReadList, ReadPlain, LooksLikeCount, ReadSuffix, Enclosed;
    if t[p] == '(' && t[p + 1] == '?' && At(t, p + 2) == '<' {
      assert ReadGroup(t, dotall, p, captures) == NoPiece(true);
      assert ReadAtom(t, dotall, p, captures) == NoPiece(true);
    }
  }

  // ---------- the dot, anchors and boundaries ----------

  const NO_LINE_END := "[^\\n\\r\\u2028\\u2029]"

  lemma {:induction false} NoLineEndRead()
    ensures ReadClass(NO_LINE_END, 0) == Listing([Span(10, 10), Span(13, 13), Span(0x2028, 0x2028), Span(0x2029, 0x2029)], true, 19)
  {
    var t := NO_LINE_END;
    assert t[0] == '[' && t[1] == '^' && t[2] == '\\' && t[3] == 'n' && t[4] == '\\' && t[5] == 'r' && t[6] == '\\' && t[18] == ']';
    assert ReadClassAtom(t, 2, true) == One(10, 4) && ReadClassAtom(t, 4, true) == One(13, 6);
    assert ReadClassAtom(t, 6, true) == One(0x2028, 12) by { SeparatorText(); ReadEscaped(t, 6, 0x2028, true); }
    assert ReadClassAtom(t, 12, true) == One(0x2029, 18) by { SeparatorText(); ReadEscaped(t, 12, 0x2029, true); }
    hide ReadClassAtom;
    var a, b := [Span(10, 10)], [Span(10, 10), Span(13, 13)];
    var c := b + [Span(0x2028, 0x2028)];
    assert ReadItems(t, 18, c + [Span(0x2029, 0x2029)], true) == Listing(c + [Span(0x2029, 0x2029)], true, 19);
    assert ReadItems(t, 12, c, true) == ReadItems(t, 18, c + [Span(0x2029, 0x2029)], true);
    assert ReadItems(t, 6, b, true) == ReadItems(t, 12, c, true);
    assert a + [Span(13, 13)] == b && [] + [Span(10, 10)] == a;
    assert ReadItems(t, 4, a, true) == ReadItems(t, 6, b, true);
    assert ReadItems(t, 2, [], true) == ReadItems(t, 4, a, true);
    assert c + [Span(0x2029, 0x2029)] == [Span(10, 10), Span(13, 13), Span(0x2028, 0x2028), Span(0x2029, 0x2029)];
  }

  lemma {:induction false} OneDigit(v: nat, n: nat, d: nat, w: string)
    requires d < 16 && w == Hex(v, n, false)
    ensures Hex(v * 16 + d, n + 1, false) == w + [HexDigit(d, false)]
  {
    assert (v * 16 + d) / 16 == v && (v * 16 + d) % 16 == d;
  }

  lemma {:induction false} SeparatorEscaped(d: nat)
    requires d == 8 || d == 9
    ensures Escaped(0x2020 + d) == ['\\', 'u', '2', '0', '2', if d == 8 then '8' else '9']
  {
    var last := HexDigit(d, false);
    assert HexDigit(2, false) == '2' && HexDigit(0, false) == '0' && last == (if d == 8 then '8' else '9');
    assert Hex(0, 0, false) == [];
    hide Hex, HexDigit;
    OneDigit(0, 0, 2, []);
    OneDigit(2, 1, 0, ['2']);
    OneDigit(0x20, 2, 2, ['2', '0']);
    OneDigit(0x202, 3, d, ['2', '0', '2']);
  }

  lemma {:induction false} SixStand(t: string, p: nat, w: string)
    requires p + 6 <= |t| && |w| == 6 && t[p] == w[0] && t[p + 1] == w[1] && t[p + 2] == w[2]
    requires t[p + 3] == w[3] && t[p + 4] == w[4] && t[p + 5] == w[5]
    ensures Stands(t, p, w)
  {
    var x := t[p..p + 6];
    assert x[0] == w[0] && x[1] == w[1] && x[2] == w[2] && x[3] == w[3] && x[4] == w[4] && x[5] == w[5];
  }

  lemma {:induction false} SeparatorText()
    ensures Stands(NO_LINE_END, 6, Escaped(0x2028)) && Stands(NO_LINE_END, 12, Escaped(0x2029))
  {
    hide Escaped, Stands;
    SeparatorEscaped(8);
    SeparatorEscaped(9);
    SixStand(NO_LINE_END, 6, Escaped(0x2028));
    SixStand(NO_LINE_END, 12, Escaped(0x2029));
  }

  lemma {:induction false} NoLineEndList(captures: nat)
    ensures ReadList(NO_LINE_END, 0, captures).Piece?
  {
    hide ReadClass, Member, Edges, Count;
    NoLineEndRead();
    var items := [Span(10, 10), Span(13, 13), Span(0x2028, 0x2028), Span(0x2029, 0x2029)];
    var p := [0, 10, 11, 13, 14, 0x2028, 0x202a, UINT32_MAX];
    forall c ensures Member(p, c) == (0 <= c < UINT32_MAX && ClassSet(items, true)(c)) {
      TableMember(p, c);
      OthersIn(items, p, c);
    }
    ListOfIs(ClassSet(items, true), p);
  }

  lemma {:induction false} OthersIn(items: seq<Item>, p: seq<int>, c: int)
    requires items == [Span(10, 10), Span(13, 13), Span(0x2028, 0x2028), Span(0x2029, 0x2029)]
    requires p == [0, 10, 11, 13, 14, 0x2028, 0x202a, UINT32_MAX]
    ensures InItems(items, c) <==> c == 10 || c == 13 || c == 0x2028 || c == 0x2029
    ensures (exists i :: Within(p, i, c)) <==> 0 <= c < UINT32_MAX && c != 10 && c != 13 && c != 0x2028 && c != 0x2029
  {
    FourItems(items, c);
    FourIntervals(p, c);
  }

  lemma {:induction false} FourItems(items: seq<Item>, c: int)
    requires items == [Span(10, 10), Span(13, 13), Span(0x2028, 0x2028), Span(0x2029, 0x2029)]
    ensures InItems(items, c) <==> c == 10 || c == 13 || c == 0x2028 || c == 0x2029
  {
    if c == 10 { assert InItem(items[0], c); }
    if c == 13 { assert InItem(items[1], c); }
    if c == 0x2028 { assert InItem(items[2], c); }
    if c == 0x2029 { assert InItem(items[3], c); }
  }

  lemma {:induction false} FourIntervals(p: seq<int>, c: int)
    requires p == [0, 10, 11, 13, 14, 0x2028, 0x202a, UINT32_MAX]
    ensures (exists i :: Within(p, i, c)) <==> 0 <= c < UINT32_MAX && c != 10 && c != 13 && c != 0x2028 && c != 0x2029
  {
    if 0 <= c < 10 { assert Within(p, 0, c); }
    if 11 <= c < 13 { assert Within(p, 1, c); }
    if 14 <= c < 0x2028 { assert Within(p, 2, c); }
    if 0x202a <= c < UINT32_MAX { assert Within(p, 3, c); }
  }

  /** The dot is the class of all characters but line feed, carriage return and the two separators. */
  lemma {:induction false} DotIsClass(s: Subject, pos: nat, captures: nat)
    requires pos < |s.text|
    ensures ReadList(NO_LINE_END, 0, captures).Piece?
    ensures Advance(Dot, s, pos) == Advance(ReadList(NO_LINE_END, 0, captures).n.t, s, pos)
  {
    hide ReadClass, ReadList, Member, Edges, InItems;
    NoLineEndRead();
    NoLineEndList(captures);
    ListMatches(NO_LINE_END, 0, captures, s, pos);
    OthersIn([Span(10, 10), Span(13, 13), Span(0x2028, 0x2028), Span(0x2029, 0x2029)],
             [0, 10, 11, 13, 14, 0x2028, 0x202a, UINT32_MAX], s.text[pos]);
  }

  /** A character is the class of this character alone. */
  lemma {:induction false} CharIsClass(c: nat, s: Subject, pos: nat)
    requires c <= 0xffff && pos <= |s.text|
    ensures CharClass.IsClass([c, c + 1]) && Advance(Char(c), s, pos) == Advance(Class([c, c + 1]), s, pos)
  {
    hide Member, Count;
    if pos < |s.text| {
      TableMember([c, c + 1], s.text[pos]);
      if s.text[pos] == c { assert Within([c, c + 1], 0, c); }
    }
  }

  /** In multi-line mode ^ passes behind, and $ before, exactly the characters the dot refuses; otherwise, and at
      the ends of the subject, they pass there only. */
  lemma {:induction false} AnchorsMean(s: Subject, pos: nat)
    requires pos <= |s.text|
    ensures Advance(LineStart, s, pos) == if pos == 0 || (s.multiLine && Advance(Dot, s, pos - 1) == None) then Some(pos) else None
    ensures Advance(LineEnd, s, pos) == if pos == |s.text| || (s.multiLine && Advance(Dot, s, pos) == None) then Some(pos) else None
  {
  }

  /** \b passes where one neighbour is in \w and the other is not. */
  lemma {:induction false} BoundaryMeans(s: Subject, pos: nat)
    requires pos <= |s.text|
    ensures var word := (pos > 0 && InKind('w', s.text[pos - 1])) != (pos < |s.text| && InKind('w', s.text[pos]));
            && Advance(WordBoundary, s, pos) == (if word then Some(pos) else None)
            && Advance(NotWordBoundary, s, pos) == (if word then None else Some(pos))
  {
    hide InKind;
    if pos > 0 { WordMeans(s.text[pos - 1]); }
    if pos < |s.text| { WordMeans(s.text[pos]); }
  }
}
