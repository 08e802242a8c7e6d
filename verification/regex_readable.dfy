/** Every tree the reader builds can be written out: the round trip misses none of them. */
module RegexReadable {
  import opened RegexSyntax
  import opened RegexMatch
  import opened RegexClass
  import opened RegexGrammar
  import opened RegexText
  import opened RegexRoundTrip
  import opened RegexProgram
  import opened RegexSame
  import opened CharRanges
  import CharClass

  // ---------- classes ----------

  /** Single characters have 16 bits. */
  predicate Small(items: seq<Item>) {
    forall x <- items :: if x.Span? then x.hi <= 0xffff else IsKind(x.k)
  }

  lemma {:induction false} ItemsSmall(t: string, p: nat, items: seq<Item>, invert: bool)
    requires p <= |t| && Small(items)
    ensures var r := ReadItems(t, p, items, invert); r.Listing? ==> Small(r.items)
    decreases |t| - p
  {
    hide ReadClassAtom;
    if At(t, p) != ']' {
      var a := ReadClassAtom(t, p, true);
      if !a.BadAtom? {
        var alone := items + [Single(a)];
        ItemsSmall(t, a.pos, alone, invert);
        if At(t, a.pos) == '-' && At(t, a.pos + 1) != ']' && a.One? {
          var b := ReadClassAtom(t, a.pos + 1, true);
          if b.One? && a.c <= b.c { ItemsSmall(t, b.pos, items + [Span(a.c, b.c)], invert); }
        }
      }
    }
  }

  /** Beyond 16 bits, a class has all characters or none. */
  lemma {:induction false} FlatBeyond(items: seq<Item>, c: int, d: int)
    requires Small(items) && 0x1_0000 <= c < UINT32_MAX && 0x1_0000 <= d < UINT32_MAX && InItems(items, c)
    ensures InItems(items, d)
  {
    hide InKind;
    var i :| 0 <= i < |items| && InItem(items[i], c);
    var x := items[i];
    assert x in items;
    assert x.Kind?;
    KindBeyond(x.k, c);
    KindBeyond(x.k, d);
    assert InItem(items[i], d);
  }

  lemma {:induction false} KindBeyond(k: char, c: int)
    requires IsKind(k) && 0x1_0000 <= c < UINT32_MAX
    ensures InKind(k, c) <==> k == 'D' || k == 'S' || k == 'W'
  {
    hide Count, Member;
    var p := KindTable(k);
    assert Sorted(p);
    MemberInterval(p, c);
  }

  lemma {:induction false} EdgesSmall(f: int -> bool, c: int, hi: int, inside: bool, bound: int)
    requires c <= hi && bound < hi && (c > bound ==> inside == f(bound))
    requires forall d: int | bound <= d < hi :: f(d) == f(bound)
    ensures forall x <- Edges(f, c, hi, inside) :: x <= bound || x == hi
    decreases hi - c
  {
    if c < hi { EdgesSmall(f, c + 1, hi, f(c), bound); }
  }

  lemma {:induction false} ListWritable(items: seq<Item>, invert: bool)
    requires Small(items) && |ClassList(items, invert)| / 2 < 65535
    ensures Writable(ClassList(items, invert))
  {
    hide Edges, InItems;
    var f := ClassSet(items, invert);
    forall d: int | 0x1_0000 <= d < UINT32_MAX ensures f(d) == f(0x1_0000) {
      if InItems(items, d) { FlatBeyond(items, d, 0x1_0000); }
      if InItems(items, 0x1_0000) { FlatBeyond(items, 0x1_0000, d); }
    }
    EdgesSmall(f, 0, UINT32_MAX, false, 0x1_0000);
    var p := ClassList(items, invert);
    forall i | 0 <= i < |p| ensures 0 <= p[i] && (p[i] <= 0x1_0000 || (i == |p| - 1 && p[i] == UINT32_MAX)) {
      assert p[i] in p;
      if i < |p| - 1 { assert p[i + 1] in p; }
    }
  }

  lemma {:induction false} ListedWrites(items: seq<Item>, invert: bool, p: nat, captures: nat)
    requires Small(items)
    ensures (ListPoints(items, invert);
             var r := Listed(ClassList(items, invert), p, captures); r.Piece? ==> r.n.Leaf? && Expressible(r.n.t))
  {
    hide Writable, CharClass.Points, ClassList;
    ListPoints(items, invert);
    var points := ClassList(items, invert);
    if CharClass.IsClass(points) { ListWritable(items, invert); }
  }

  // ---------- patterns ----------

  lemma {:induction false} ListReads(t: string, p: nat, captures: nat)
    requires p < |t|
    ensures var r := ReadList(t, p, captures); r.Piece? ==> Writes(r.n) && Numbered(r.n, captures)
  {
    hide ReadItems, ClassList, Listed, Expressible;
    var start := if At(t, p + 1) == '^' then p + 2 else p + 1;
    ItemsSmall(t, start, [], At(t, p + 1) == '^');
    var r := ReadClass(t, p);
    if r.Listing? { ListedWrites(r.items, r.invert, r.pos, captures); }
  }

  lemma {:induction false} PlainReads(t: string, p: nat, captures: nat)
    requires p < |t|
    ensures var r := ReadPlain(t, p, captures); r.Piece? ==> Writes(r.n) && Numbered(r.n, captures)
  {
    hide ReadClassAtom, ClassList, Listed, Writable;
    var a := ReadClassAtom(t, p, false);
    if a.Several? { ListedWrites([Kind(a.k)], false, a.pos, captures); }
  }

  lemma {:induction false} EscapeReads(t: string, p: nat, captures: nat)
    requires p < |t|
    ensures var r := ReadEscape(t, p, captures); r.Piece? ==> Writes(r.n) && Numbered(r.n, captures)
  {
    hide ReadPlain, ZeroEscape;
    PlainReads(t, p, captures);
  }

  ghost predicate Well(r: Parsed, base: nat) {
    r.Tree? ==> Writes(r.n) && Numbered(r.n, base)
  }

  lemma {:induction false} GroupReads(t: string, dotall: bool, p: nat, captures: nat)
    requires p < |t|
    ensures var r := ReadGroup(t, dotall, p, captures); r.Piece? ==> Writes(r.n) && Numbered(r.n, captures)
    decreases |t| - p, 0
  {
    hide ReadDisjunction;
    if At(t, p + 1) == '?' {
      if p + 3 <= |t| { DisjunctionReads(t, dotall, p + 3, captures); }
    } else {
      DisjunctionReads(t, dotall, p + 1, captures + 1);
    }
  }

  lemma {:induction false} AtomReads(t: string, dotall: bool, p: nat, captures: nat)
    requires p < |t|
    ensures var r := ReadAtom(t, dotall, p, captures); r.Piece? ==> Writes(r.n) && Numbered(r.n, captures)
    decreases |t| - p, 1
  {
    hide ReadGroup, ReadEscape, ReadList, ReadPlain, LooksLikeCount;
    GroupReads(t, dotall, p, captures);
    EscapeReads(t, p, captures);
    ListReads(t, p, captures);
    PlainReads(t, p, captures);
  }

  lemma {:induction false} TermReads(t: string, dotall: bool, p: nat, captures: nat)
    requires p < |t|
    ensures Well(ReadTerm(t, dotall, p, captures), captures)
    decreases |t| - p, 2
  {
    hide ReadAtom, ReadSuffix;
    AtomReads(t, dotall, p, captures);
  }

  lemma {:induction false} TermsReads(t: string, dotall: bool, n: Node, p: nat, captures: nat, base: nat)
    requires p <= |t| && WellFormed(n, captures) && Writes(n) && Numbered(n, base) && captures == base + Groups(n)
    ensures Well(ReadTerms(t, dotall, n, p, captures), base)
    decreases |t| - p, 3
  {
    hide ReadTerm, WellFormed;
    if p < |t| && t[p] != '|' && t[p] != ')' {
      TermReads(t, dotall, p, captures);
      var r := ReadTerm(t, dotall, p, captures);
      if r.Tree? {
        WellFormedMore(n, captures, r.captures);
        assert WellFormed(Cat(n, r.n), r.captures) by { BothFormed(n, r.n, r.captures); }
        TermsReads(t, dotall, Cat(n, r.n), r.pos, r.captures, base);
      }
    }
  }

  lemma {:induction false} BothFormed(a: Node, b: Node, captures: nat)
    requires WellFormed(a, captures) && WellFormed(b, captures)
    ensures WellFormed(Cat(a, b), captures) && WellFormed(Alt(a, b), captures)
  {
  }

  lemma {:induction false} ChoicesReads(t: string, dotall: bool, n: Node, p: nat, captures: nat, base: nat)
    requires p <= |t| && WellFormed(n, captures) && Writes(n) && Numbered(n, base) && captures == base + Groups(n)
    ensures Well(ReadChoices(t, dotall, n, p, captures), base)
    decreases |t| - p, 4
  {
    hide ReadTerms, WellFormed;
    if At(t, p) == '|' {
      NothingFormed(captures);
      TermsReads(t, dotall, Empty, p + 1, captures, captures);
      var r := ReadTerms(t, dotall, Empty, p + 1, captures);
      if r.Tree? {
        WellFormedMore(n, captures, r.captures);
        BothFormed(n, r.n, r.captures);
        ChoicesReads(t, dotall, Alt(n, r.n), r.pos, r.captures, base);
      }
    }
  }

  lemma {:induction false} DisjunctionReads(t: string, dotall: bool, p: nat, captures: nat)
    requires p <= |t|
    ensures Well(ReadDisjunction(t, dotall, p, captures), captures)
    decreases |t| - p, 5
  {
    hide ReadTerms, ReadChoices, WellFormed;
    NothingFormed(captures);
    TermsReads(t, dotall, Empty, p, captures, captures);
    var r := ReadTerms(t, dotall, Empty, p, captures);
    if r.Tree? { ChoicesReads(t, dotall, r.n, r.pos, r.captures, captures); }
  }

  /** Whatever text a pattern was read from, the text written for it means the same. */
  lemma {:induction false} Rewritten(t: string, dotall: bool, s: Subject, sticky: bool, pos: nat)
    requires pos <= |s.text| && ReadDisjunction(t, dotall, 0, 1).Tree?
    ensures var r := ReadDisjunction(t, dotall, 0, 1);
            && Readable(r.n, 1)
            && var w := Text(r.n, 0, dotall);
               var again := ReadDisjunction(w, dotall, 0, 1);
            && again.Tree? && At(w, again.pos) == '\0' && again.captures == r.captures
            && FirstMatch(again.n, s, sticky, pos, Unset(2 * again.captures)) == FirstMatch(r.n, s, sticky, pos, Unset(2 * r.captures))
  {
    hide ReadDisjunction, Text, Writes, Numbered, Groups, FirstMatch;
    DisjunctionReads(t, dotall, 0, 1);
    TextMatches(ReadDisjunction(t, dotall, 0, 1).n, dotall, s, sticky, pos);
  }
}
