/** Reading a pattern's text: a recursive-descent reader that builds the pattern tree. It covers
    the non-unicode syntax without back references, named groups and lookbehind. */
module RegexGrammar {
  import opened RegexBytes
  import opened RegexSyntax
  import opened RegexClass
  import CharClass
  import CharRanges
  import M = RegexMatch

  const CAPTURE_COUNT_MAX := 255

  /** Rejected: the original reports a syntax error. Outside: syntax not covered here. */
  datatype Parsed = Tree(n: Node, pos: nat, captures: nat) | Rejected | Outside

  // ---------- numbers and quantifiers ----------

  /** Reads digits, saturating at INT32_MAX. */
  function Digits(t: string, p: nat, v: nat): (r: (nat, nat))
    requires p <= |t| && v <= INT32_MAX
    ensures r.0 <= INT32_MAX && p <= r.1 <= |t|
    decreases |t| - p
  {
    if p < |t| && IsDigit(t[p]) then
      var v' := v * 10 + (t[p] as int - '0' as int);
      Digits(t, p + 1, if v' >= INT32_MAX then INT32_MAX else v')
    else (v, p)
  }

  datatype Suffix = NoSuffix | BadSuffix | Suffix(min: nat, max: nat, pos: nat)

  /** The repetition count after an atom, if any. */
  function ReadSuffix(t: string, p: nat): (r: Suffix)
    requires p <= |t|
    ensures r.Suffix? ==> r.min <= r.max <= INT32_MAX && p < r.pos <= |t|
  {
    var c := At(t, p);
    if c == '*' then Suffix(0, INT32_MAX, p + 1)
    else if c == '+' then Suffix(1, INT32_MAX, p + 1)
    else if c == '?' then Suffix(0, 1, p + 1)
    else if c == '{' && IsDigit(At(t, p + 1)) then
      var (min, p1) := Digits(t, p + 1, 0);
      if At(t, p1) == ',' then
        if IsDigit(At(t, p1 + 1)) then
          var (max, p2) := Digits(t, p1 + 1, 0);
          if max < min then BadSuffix
          else if At(t, p2) != '}' then NoSuffix else Suffix(min, max, p2 + 1)
        else if At(t, p1 + 1) != '}' then NoSuffix else Suffix(min, INT32_MAX, p1 + 2)
      else if At(t, p1) != '}' then NoSuffix else Suffix(min, min, p1 + 1)
    else NoSuffix
  }

  /** A '{' that starts an atom is an error only when it reads as a repetition count. */
  predicate LooksLikeCount(t: string, p: nat)
    requires p < |t|
  {
    IsDigit(At(t, p + 1)) &&
    var (_, p1) := Digits(t, p + 1, 0);
    var p2 := if At(t, p1) == ',' then (if IsDigit(At(t, p1 + 1)) then Digits(t, p1 + 1, 0).1 else p1 + 1) else p1;
    At(t, p2) == '}'
  }

  // ---------- atoms ----------

  /** An atom and whether it may be quantified. */
  datatype Atom = Piece(n: Node, pos: nat, captures: nat, quantifiable: bool) | NoPiece(outside: bool)

  /** Back references. */
  predicate IsUncoveredEscape(c: char) {
    c == 'k' || '1' <= c <= '9'
  }

  /** A test for an interval list; an empty one becomes a character that does not exist. Too many intervals are an error. */
  function Listed(points: seq<int>, p: nat, captures: nat): (r: Atom)
    requires CharClass.Points(points)
  {
    if points == [] then Piece(Leaf(Char(0xffff_ffff)), p, captures, true)
    else if CharClass.IsClass(points) then Piece(Leaf(Class(points)), p, captures, true)
    else NoPiece(false)
  }

  lemma {:induction false} ListPoints(items: seq<Item>, invert: bool)
    ensures CharClass.Points(ClassList(items, invert))
  {
    var p := ClassList(items, invert);
    assert forall i :: 0 <= i < |p| ==> p[i] in p;
  }

  ghost function ReadList(t: string, p: nat, captures: nat): (r: Atom)
    requires p < |t|
    ensures r.Piece? ==> p < r.pos <= |t| && r.captures == captures && r.n.Leaf? && (r.n.t.Char? ==> r.n.t.c < 0x1_0000_0000)
  {
    match ReadClass(t, p)
    case BadClass => NoPiece(false)
    case Listing(items, invert, q) => ListPoints(items, invert); Listed(ClassList(items, invert), q, captures)
  }

  /** A class in a pattern passes the characters it lists, or, behind a '^', all others. */
  lemma {:induction false} ListMatches(t: string, p: nat, captures: nat, s: M.Subject, pos: nat)
    requires p < |t| && pos < |s.text| && ReadList(t, p, captures).Piece?
    ensures ReadClass(t, p).Listing?
    ensures var r := ReadClass(t, p);
            M.Advance(ReadList(t, p, captures).n.t, s, pos) == if InItems(r.items, s.text[pos]) != r.invert then M.Some(pos + 1) else M.None
  {
    hide CharRanges.Member, CharRanges.Edges, InItems, CharClass.Points, ReadClass;
    var r := ReadClass(t, p);
    var f, c := ClassSet(r.items, r.invert), s.text[pos];
    CharRanges.EdgesMember(f, 0, CharRanges.UINT32_MAX, false, c);
    ListPoints(r.items, r.invert);
    EmptyList(c);
  }

  lemma {:induction false} EmptyList(c: int)
    ensures !CharRanges.Member([], c)
  {
  }

  ghost function ReadPlain(t: string, p: nat, captures: nat): (r: Atom)
    requires p < |t|
    ensures r.Piece? ==> p < r.pos <= |t| && r.captures == captures && r.n.Leaf? && (r.n.t.Char? ==> r.n.t.c < 0x1_0000_0000)
  {
    match ReadClassAtom(t, p, false)
    case BadAtom => NoPiece(false)
    case One(c, q) => Piece(Leaf(Char(c)), q, captures, true)
    case Several(k, q) => ListPoints([Kind(k)], false); Listed(ClassList([Kind(k)], false), q, captures)
  }

  /** The legacy octal form of a character, behind a zero. */
  function ZeroEscape(t: string, p: nat): (r: (nat, nat))
    requires p <= |t|
    ensures p <= r.1 <= |t| && r.0 < 64
  {
    if !IsOctal(At(t, p)) then (0, p)
    else
      var v := At(t, p) as int - '0' as int;
      if !IsOctal(At(t, p + 1)) then (v, p + 1) else (v * 8 + (At(t, p + 1) as int - '0' as int), p + 2)
  }

  ghost function ReadEscape(t: string, p: nat, captures: nat): (r: Atom)
    requires p < |t|
    ensures r.Piece? ==> p < r.pos <= |t| && r.captures == captures && r.n.Leaf? && (r.n.t.Char? ==> r.n.t.c < 0x1_0000_0000)
  {
    var c := At(t, p + 1);
    if c == 'b' then Piece(Leaf(WordBoundary), p + 2, captures, false)
    else if c == 'B' then Piece(Leaf(NotWordBoundary), p + 2, captures, false)
    else if IsUncoveredEscape(c) then NoPiece(true)
    else if c == '0' then
      var (v, q) := ZeroEscape(t, p + 2);
      Piece(Leaf(Char(v)), q, captures, true)
    else ReadPlain(t, p, captures)
  }

  /** A parenthesized sub-pattern, read up to its closing parenthesis. */
  ghost function Enclosed(t: string, dotall: bool, p: nat, captures: nat): (r: Parsed)
    requires p <= |t|
    ensures r.Tree? ==> p < r.pos <= |t| && r.captures == captures + Groups(r.n)
    ensures r.Tree? && captures <= CAPTURE_COUNT_MAX ==> r.captures <= CAPTURE_COUNT_MAX
    ensures r.Tree? ==> WellFormed(r.n, r.captures)
    decreases |t| - p, 6
  {
    var r := ReadDisjunction(t, dotall, p, captures);
    if !r.Tree? then r
    else if At(t, r.pos) != ')' then Rejected
    else r.(pos := r.pos + 1)
  }

  ghost function ReadGroup(t: string, dotall: bool, p: nat, captures: nat): (r: Atom)
    requires p < |t|
    ensures r.Piece? ==> p < r.pos <= |t| && r.captures == captures + Groups(r.n)
    ensures r.Piece? && captures <= CAPTURE_COUNT_MAX ==> r.captures <= CAPTURE_COUNT_MAX
    ensures r.Piece? ==> WellFormed(r.n, r.captures)
    decreases |t| - p, 0
  {
    if At(t, p + 1) == '?' then
      var c := At(t, p + 2);
      if c == ':' then
        match Enclosed(t, dotall, p + 3, captures)
        case Tree(n, pos, k) => Piece(n, pos, k, true)
        case Rejected => NoPiece(false)
        case Outside => NoPiece(true)
      else if c == '=' || c == '!' then
        match Enclosed(t, dotall, p + 3, captures)
        case Tree(n, pos, k) => Piece(Look(n, c == '!'), pos, k, true)
        case Rejected => NoPiece(false)
        case Outside => NoPiece(true)
      else NoPiece(c == '<')
    else if captures >= CAPTURE_COUNT_MAX then NoPiece(false)
    else
      match Enclosed(t, dotall, p + 1, captures + 1)
      case Tree(n, pos, k) => WellFormedMore(n, k, k); Piece(Capture(captures, n), pos, k, true)
      case Rejected => NoPiece(false)
      case Outside => NoPiece(true)
  }

  ghost function ReadAtom(t: string, dotall: bool, p: nat, captures: nat): (r: Atom)
    requires p < |t|
    ensures r.Piece? ==> p < r.pos <= |t| && r.captures == captures + Groups(r.n)
    ensures r.Piece? && captures <= CAPTURE_COUNT_MAX ==> r.captures <= CAPTURE_COUNT_MAX
    ensures r.Piece? ==> WellFormed(r.n, r.captures)
    decreases |t| - p, 1
  {
    var c := t[p];
    if c == '^' then Piece(Leaf(LineStart), p + 1, captures, false)
    else if c == '$' then Piece(Leaf(LineEnd), p + 1, captures, false)
    else if c == '.' then Piece(Leaf(if dotall then Any else Dot), p + 1, captures, true)
    else if c == '*' || c == '+' || c == '?' then NoPiece(false)
    else if c == '{' && LooksLikeCount(t, p) then NoPiece(false)
    else if c == '(' then ReadGroup(t, dotall, p, captures)
    else if c == '\\' then ReadEscape(t, p, captures)
    else if c == '[' then ReadList(t, p, captures)
    else ReadPlain(t, p, captures)
  }

  // ---------- terms, alternatives, disjunctions ----------

  lemma {:induction false} WellFormedMore(n: Node, c: nat, c': nat)
    requires WellFormed(n, c) && c <= c'
    ensures WellFormed(n, c')
  {
    match n
    case Empty =>
    case Leaf(_) =>
    case Cat(a, b) => WellFormedMore(a, c, c'); WellFormedMore(b, c, c');
    case Alt(a, b) => WellFormedMore(a, c, c'); WellFormedMore(b, c, c');
    case Quant(a, _, _, _, _, _) => WellFormedMore(a, c, c');
    case Capture(_, a) => WellFormedMore(a, c, c');
    case Look(a, _) => WellFormedMore(a, c, c');
  }

  ghost function ReadTerm(t: string, dotall: bool, p: nat, captures: nat): (r: Parsed)
    requires p < |t|
    ensures r.Tree? ==> p < r.pos <= |t| && r.captures == captures + Groups(r.n)
    ensures r.Tree? && captures <= CAPTURE_COUNT_MAX ==> r.captures <= CAPTURE_COUNT_MAX
    ensures r.Tree? ==> WellFormed(r.n, r.captures)
    decreases |t| - p, 2
  {
    match ReadAtom(t, dotall, p, captures)
    case NoPiece(outside) => if outside then Outside else Rejected
    case Piece(n, pos, k, quantifiable) =>
      if !quantifiable then Tree(n, pos, k)
      else
        match ReadSuffix(t, pos)
        case NoSuffix => Tree(n, pos, k)
        case BadSuffix => Rejected
        case Suffix(min, max, q) =>
          var greedy := At(t, q) != '?';
          Tree(Quant(n, min, max, greedy, captures, k), if greedy then q else q + 1, k)
  }

  /** Appends the following terms to `n`. */
  ghost function ReadTerms(t: string, dotall: bool, n: Node, p: nat, captures: nat): (r: Parsed)
    requires p <= |t| && WellFormed(n, captures)
    ensures r.Tree? ==> p <= r.pos <= |t| && r.captures + Groups(n) == captures + Groups(r.n)
    ensures r.Tree? && captures <= CAPTURE_COUNT_MAX ==> r.captures <= CAPTURE_COUNT_MAX
    ensures r.Tree? ==> r.captures >= captures && WellFormed(r.n, r.captures)
    decreases |t| - p, 3
  {
    if p >= |t| || t[p] == '|' || t[p] == ')' then Tree(n, p, captures)
    else
      match ReadTerm(t, dotall, p, captures)
      case Tree(m, q, k) => WellFormedMore(n, captures, k); ReadTerms(t, dotall, Cat(n, m), q, k)
      case Rejected => Rejected
      case Outside => Outside
  }

  /** Adds the following alternatives to `n`. */
  ghost function ReadChoices(t: string, dotall: bool, n: Node, p: nat, captures: nat): (r: Parsed)
    requires p <= |t| && WellFormed(n, captures)
    ensures r.Tree? ==> p <= r.pos <= |t| && r.captures + Groups(n) == captures + Groups(r.n)
    ensures r.Tree? && captures <= CAPTURE_COUNT_MAX ==> r.captures <= CAPTURE_COUNT_MAX
    ensures r.Tree? ==> r.captures >= captures && WellFormed(r.n, r.captures)
    decreases |t| - p, 4
  {
    if At(t, p) != '|' then Tree(n, p, captures)
    else
      match ReadTerms(t, dotall, Empty, p + 1, captures)
      case Tree(m, q, k) => WellFormedMore(n, captures, k); ReadChoices(t, dotall, Alt(n, m), q, k)
      case Rejected => Rejected
      case Outside => Outside
  }

  ghost function ReadDisjunction(t: string, dotall: bool, p: nat, captures: nat): (r: Parsed)
    requires p <= |t|
    ensures r.Tree? ==> p <= r.pos <= |t| && r.captures == captures + Groups(r.n)
    ensures r.Tree? && captures <= CAPTURE_COUNT_MAX ==> r.captures <= CAPTURE_COUNT_MAX
    ensures r.Tree? ==> WellFormed(r.n, r.captures)
    decreases |t| - p, 5
  {
    match ReadTerms(t, dotall, Empty, p, captures)
    case Tree(n, q, k) => ReadChoices(t, dotall, n, q, k)
    case Rejected => Rejected
    case Outside => Outside
  }
}
