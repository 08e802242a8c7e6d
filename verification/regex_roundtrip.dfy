/** Patterns written out, with no more parentheses than precedence asks for, and read back. */
module RegexRoundTrip {
  import opened RegexBytes
  import opened RegexSyntax
  import opened RegexClass
  import opened RegexGrammar
  import opened RegexText
  import CharClass
  import CharRanges

  // ---------- writing ----------

  /** The characters with a meaning of their own, which are written behind a backslash. */
  predicate IsSyntax(c: char) {
    c in "^$\\.*+?()[]{}|/"
  }

  function CharText(c: nat): (w: string)
    ensures w != ""
  {
    if 0x20 <= c < 0x7f then (if IsSyntax(c as char) then ['\\', c as char] else [c as char]) else Escaped(c)
  }

  /** What the dot passes when it does not pass line ends; all characters. */
  const LINE_POINTS: seq<int> := [0, 10, 11, 13, 14, 0x2028, 0x202a, CharRanges.UINT32_MAX]
  const ALL_POINTS: seq<int> := [0, CharRanges.UINT32_MAX]

  lemma {:induction false} PointsWritable()
    ensures Writable(LINE_POINTS) && CharClass.IsClass(LINE_POINTS) && Writable(ALL_POINTS) && CharClass.IsClass(ALL_POINTS)
  {
  }

  ghost predicate Expressible(t: Test) {
    match t
    case Char(c) => c <= 0xffff || c == 0xffff_ffff
    case Class(points) => Writable(points)
    case _ => true
  }

  /** The dot means one of two tests; the other one is written as a class. */
  ghost function LeafTest(t: Test, dotall: bool): Test {
    if t.Dot? && dotall then PointsWritable(); Class(LINE_POINTS)
    else if t.Any? && !dotall then PointsWritable(); Class(ALL_POINTS)
    else t
  }

  ghost function LeafText(t: Test, dotall: bool): string
    requires Expressible(t)
  {
    match LeafTest(t, dotall)
    case Char(c) => if c <= 0xffff then CharText(c) else "[]"
    case Class(points) => PointsWritable(); ListText(points)
    case Dot => "."
    case Any => "."
    case LineStart => "^"
    case LineEnd => "$"
    case WordBoundary => "\\b"
    case NotWordBoundary => "\\B"
  }

  /** How tightly a pattern holds together: alternatives, sequences, terms, atoms. */
  function Prec(n: Node): nat {
    if n.Alt? then 0
    else if n.Cat? || n.Empty? then 1
    else if n.Quant? || (n.Leaf? && !Consumes(n.t)) then 2
    else 3
  }

  ghost predicate Writes(n: Node) {
    match n
    case Empty => true
    case Leaf(t) => Expressible(t)
    case Cat(a, b) => Writes(a) && Writes(b)
    case Alt(a, b) => Writes(a) && Writes(b)
    case Quant(a, min, max, _, _, _) => Writes(a) && min <= max <= INT32_MAX
    case Capture(_, a) => Writes(a)
    case Look(a, _) => Writes(a)
  }

  /** The pattern without parentheses around it. */
  ghost function Bare(n: Node, dotall: bool): string
    requires Writes(n)
    decreases n, 0
  {
    match n
    case Empty => ""
    case Leaf(t) => LeafText(t, dotall)
    case Cat(a, b) => Text(a, 1, dotall) + Text(b, 2, dotall)
    case Alt(a, b) => Text(a, 0, dotall) + "|" + Text(b, 1, dotall)
    case Quant(a, min, max, greedy, _, _) => Text(a, 3, dotall) + CountText(min, max) + (if greedy then "" else "?")
    case Capture(_, a) => "(" + Text(a, 0, dotall) + ")"
    case Look(a, neg) => (if neg then "(?!" else "(?=") + Text(a, 0, dotall) + ")"
  }

  /** The pattern where something of at least the given precedence is wanted. */
  ghost function Text(n: Node, level: nat, dotall: bool): string
    requires Writes(n)
    decreases n, 1
  {
    if level <= Prec(n) then Bare(n, dotall) else "(?:" + Bare(n, dotall) + ")"
  }

  /** Captures and the ranges of quantifiers are numbered in the order of the text, from k on. */
  predicate Numbered(n: Node, k: nat) {
    match n
    case Empty => true
    case Leaf(_) => true
    case Cat(a, b) => Numbered(a, k) && Numbered(b, k + Groups(a))
    case Alt(a, b) => Numbered(a, k) && Numbered(b, k + Groups(a))
    case Quant(a, _, _, _, lo, hi) => lo == k && hi == k + Groups(a) && Numbered(a, k)
    case Capture(i, a) => i == k && Numbered(a, k + 1)
    case Look(a, _) => Numbered(a, k)
  }

  // ---------- what the reader builds ----------

  function Order(n: Node, what: nat): nat
    requires what < 4
  {
    match Prec(n)
    case 0 => [0, 3, 2, 1][what]
    case 1 => [1, 0, 3, 2][what]
    case 2 => [2, 1, 0, 3][what]
    case _ => [3, 2, 1, 0][what]
  }

  /** The tree of the pattern as alternatives, as terms after others, as a term, and as an atom: the reader starts
      every sequence with the empty pattern. */
  ghost function AsChoice(n: Node, dotall: bool): Node
    decreases n, Order(n, 0)
  {
    match n
    case Alt(a, b) => Alt(AsChoice(a, dotall), After(Empty, b, dotall))
    case _ => After(Empty, n, dotall)
  }

  ghost function After(front: Node, n: Node, dotall: bool): Node
    decreases n, Order(n, 1)
  {
    match n
    case Empty => front
    case Cat(a, b) => Cat(After(front, a, dotall), AsTerm(b, dotall))
    case _ => Cat(front, AsTerm(n, dotall))
  }

  ghost function AsTerm(n: Node, dotall: bool): Node
    decreases n, Order(n, 2)
  {
    match n
    case Quant(a, min, max, greedy, lo, hi) => Quant(AsAtom(a, dotall), min, max, greedy, lo, hi)
    case Leaf(t) => Leaf(LeafTest(t, dotall))
    case _ => AsAtom(n, dotall)
  }

  ghost function AsAtom(n: Node, dotall: bool): Node
    decreases n, Order(n, 3)
  {
    match n
    case Leaf(t) => if Consumes(t) then Leaf(LeafTest(t, dotall)) else AsChoice(n, dotall)
    case Capture(i, a) => Capture(i, AsChoice(a, dotall))
    case Look(a, neg) => Look(AsChoice(a, dotall), neg)
    case _ => AsChoice(n, dotall)
  }

  // ---------- reading a leaf ----------

  predicate StartsCount(c: char) {
    c == '*' || c == '+' || c == '?' || c == '{'
  }

  lemma {:induction false} AtomOfLiteral(t: string, p: nat, dotall: bool, captures: nat)
    requires p < |t| && !IsSyntax(t[p])
    ensures ReadAtom(t, dotall, p, captures) == ReadPlain(t, p, captures)
  {
    hide ReadGroup, ReadList, ReadPlain, ReadEscape, LooksLikeCount;
  }

  lemma {:induction false} AtomOfEscape(t: string, p: nat, dotall: bool, captures: nat)
    requires p + 1 < |t| && t[p] == '\\' && (IsSyntax(t[p + 1]) || t[p + 1] == 'u')
    ensures ReadAtom(t, dotall, p, captures) == ReadPlain(t, p, captures)
  {
    hide ReadGroup, ReadList, ReadPlain, LooksLikeCount;
  }

  lemma {:induction false} SyntaxEscape(t: string, p: nat)
    requires p + 1 < |t| && t[p] == '\\' && IsSyntax(t[p + 1])
    ensures ReadClassAtom(t, p, false) == One(t[p + 1] as int, p + 2)
  {
    assert ReadEscapeValue(t, p + 1) == NoEscape;
  }

  lemma {:induction false} ReadChar(t: string, p: nat, c: nat, dotall: bool, captures: nat)
    requires c <= 0xffff && Stands(t, p, CharText(c))
    ensures p < |t| && ReadAtom(t, dotall, p, captures) == Piece(Leaf(Char(c)), p + |CharText(c)|, captures, true)
  {
    hide ReadAtom, Escaped, Stands, ReadEscapeValue, IsSyntax, ReadClassAtom;
    StandsAt(t, p, CharText(c), 0);
    if 0x20 <= c < 0x7f {
      if IsSyntax(c as char) {
        StandsAt(t, p, CharText(c), 1);
        SyntaxEscape(t, p);
        AtomOfEscape(t, p, dotall, captures);
      } else {
        assert ReadClassAtom(t, p, false) == One(c, p + 1) by { LiteralAtom(t, p); }
        AtomOfLiteral(t, p, dotall, captures);
      }
    } else {
      ReadEscaped(t, p, c, false);
      InText(t, p, Escaped(c));
      AtomOfEscape(t, p, dotall, captures);
    }
  }

  lemma {:induction false} LiteralAtom(t: string, p: nat)
    requires p < |t| && !IsSyntax(t[p]) && t[p] as int <= 0xffff
    ensures ReadClassAtom(t, p, false) == One(t[p] as int, p + 1)
  {
  }

  lemma {:induction false} ReadEmptyClass(t: string, p: nat, captures: nat)
    requires Stands(t, p, "[]")
    ensures p < |t| && t[p] == '[' && ReadList(t, p, captures) == Piece(Leaf(Char(0xffff_ffff)), p + 2, captures, true)
  {
    assert ListText([]) == "[]";
    ReadClassText(t, p, [], captures);
  }

  lemma {:induction false} ReadLeaf(t: string, p: nat, x: Test, dotall: bool, captures: nat)
    requires Expressible(x) && Stands(t, p, LeafText(x, dotall))
    ensures p < |t|
    ensures ReadAtom(t, dotall, p, captures)
         == Piece(Leaf(LeafTest(x, dotall)), p + |LeafText(x, dotall)|, captures, Consumes(x))
  {
    hide ReadGroup, ReadList, ReadPlain, ListText, CharText, Writable, LooksLikeCount, ReadAtom, Stands;
    PointsWritable();
    match LeafTest(x, dotall)
    case Char(c) =>
      if c <= 0xffff { ReadChar(t, p, c, dotall, captures); } else {
        ReadEmptyClass(t, p, captures);
        AtomOfClass(t, p, dotall, captures);
      }
    case Class(points) =>
      ReadClassText(t, p, points, captures);
      AtomOfClass(t, p, dotall, captures);
    case _ => ReadSign(t, p, LeafTest(x, dotall), dotall, captures);
  }

  lemma {:induction false} AtomOfClass(t: string, p: nat, dotall: bool, captures: nat)
    requires p < |t| && t[p] == '['
    ensures ReadAtom(t, dotall, p, captures) == ReadList(t, p, captures)
  {
  }

  lemma {:induction false} ReadSign(t: string, p: nat, x: Test, dotall: bool, captures: nat)
    requires !x.Char? && !x.Class? && LeafTest(x, dotall) == x && Stands(t, p, LeafText(x, dotall))
    ensures p < |t| && ReadAtom(t, dotall, p, captures) == Piece(Leaf(x), p + |LeafText(x, dotall)|, captures, Consumes(x))
  {
    hide ReadGroup, ReadList, ReadPlain, LooksLikeCount;
    StandsAt(t, p, LeafText(x, dotall), 0);
    if x.WordBoundary? || x.NotWordBoundary? { StandsAt(t, p, LeafText(x, dotall), 1); }
  }

  // ---------- how texts begin and end ----------

  lemma {:induction false} FirstOfLeaf(x: Test, dotall: bool)
    requires Expressible(x)
    ensures var w := LeafText(x, dotall); w != "" && !StartsCount(w[0]) && w[0] != '|' && w[0] != ')'
  {
    hide IntervalsText, Written;
  }

  /** No text begins with a count, and a term or an atom not with the end of something else either. */
  lemma {:induction false} FirstOf(n: Node, level: nat, dotall: bool)
    requires Writes(n)
    ensures var w := Text(n, level, dotall); w != "" ==> !StartsCount(w[0])
    ensures var w := Text(n, level, dotall); level >= 2 ==> w != "" && w[0] != '|' && w[0] != ')'
    decreases n
  {
    hide CountText, LeafText;
    if level <= Prec(n) {
      match n
      case Empty =>
      case Leaf(t) => FirstOfLeaf(t, dotall);
      case Cat(a, b) => FirstOf(a, 1, dotall); FirstOf(b, 2, dotall);
      case Alt(a, b) => FirstOf(a, 0, dotall);
      case Quant(a, _, _, _, _, _) => FirstOf(a, 3, dotall);
      case Capture(_, a) =>
      case Look(a, neg) =>
    }
  }

  /** Alternatives end here. */
  predicate EndsHere(t: string, p: nat) {
    p >= |t| || t[p] == '|' || t[p] == ')'
  }

  /** No count stands here. */
  predicate NoCount(t: string, p: nat) {
    p <= |t| && !StartsCount(At(t, p))
  }

  lemma {:induction false} NoSuffixHere(t: string, p: nat)
    requires NoCount(t, p)
    ensures ReadSuffix(t, p) == NoSuffix
  {
  }

  // ---------- reading ----------

  /** The bounds and numbers a pattern brings along when it is read at p with `captures` numbers given out. */
  ghost predicate Readable(n: Node, captures: nat) {
    Writes(n) && Numbered(n, captures) && captures + Groups(n) <= CAPTURE_COUNT_MAX
  }

  /** A group without a number: its inside is a whole pattern. */
  lemma {:induction false} GroupRead(t: string, p: nat, w: string, n: Node, dotall: bool, captures: nat, k: nat)
    requires Stands(t, p, "(?:" + w + ")")
    requires ReadDisjunction(t, dotall, p + 3, captures) == Tree(n, p + 3 + |w|, k)
    ensures p < |t| && ReadAtom(t, dotall, p, captures) == Piece(n, p + |w| + 4, k, true)
  {
    hide ReadDisjunction, Stands, ReadPlain, ReadList, ReadEscape, LooksLikeCount;
    StandsAt(t, p, "(?:" + w + ")", 0);
    StandsAt(t, p, "(?:" + w + ")", 1);
    StandsAt(t, p, "(?:" + w + ")", 2);
    StandsAt(t, p, "(?:" + w + ")", |w| + 3);
    InText(t, p, "(?:" + w + ")");
    assert Enclosed(t, dotall, p + 3, captures) == Tree(n, p + 4 + |w|, k);
    assert ReadGroup(t, dotall, p, captures) == Piece(n, p + 4 + |w|, k, true);
  }

  lemma {:induction false} LookRead(t: string, p: nat, w: string, n: Node, neg: bool, dotall: bool, captures: nat, k: nat)
    requires Stands(t, p, (if neg then "(?!" else "(?=") + w + ")")
    requires ReadDisjunction(t, dotall, p + 3, captures) == Tree(n, p + 3 + |w|, k)
    ensures p < |t| && ReadAtom(t, dotall, p, captures) == Piece(Look(n, neg), p + |w| + 4, k, true)
  {
    hide ReadDisjunction, Stands, ReadPlain, ReadList, ReadEscape, LooksLikeCount;
    var v := (if neg then "(?!" else "(?=") + w + ")";
    StandsAt(t, p, v, 0);
    StandsAt(t, p, v, 1);
    StandsAt(t, p, v, 2);
    StandsAt(t, p, v, |w| + 3);
    InText(t, p, v);
    assert Enclosed(t, dotall, p + 3, captures) == Tree(n, p + 4 + |w|, k);
    assert ReadGroup(t, dotall, p, captures) == Piece(Look(n, neg), p + 4 + |w|, k, true);
  }

  lemma {:induction false} CaptureRead(t: string, p: nat, w: string, n: Node, dotall: bool, captures: nat, k: nat)
    requires Stands(t, p, "(" + w + ")") && (w != "" ==> w[0] != '?') && captures < CAPTURE_COUNT_MAX
    requires ReadDisjunction(t, dotall, p + 1, captures + 1) == Tree(n, p + 1 + |w|, k)
    ensures p < |t| && ReadAtom(t, dotall, p, captures) == Piece(Capture(captures, n), p + |w| + 2, k, true)
  {
    hide ReadDisjunction, Stands, ReadPlain, ReadList, ReadEscape, LooksLikeCount;
    StandsAt(t, p, "(" + w + ")", 0);
    StandsAt(t, p, "(" + w + ")", 1);
    StandsAt(t, p, "(" + w + ")", |w| + 1);
    InText(t, p, "(" + w + ")");
    assert Enclosed(t, dotall, p + 1, captures + 1) == Tree(n, p + 2 + |w|, k);
    assert ReadGroup(t, dotall, p, captures) == Piece(Capture(captures, n), p + 2 + |w|, k, true);
  }

  lemma {:induction false} ChoicesEnd(t: string, p: nat, n: Node, dotall: bool, captures: nat)
    requires p <= |t| && At(t, p) != '|' && WellFormed(n, captures)
    ensures ReadChoices(t, dotall, n, p, captures) == Tree(n, p, captures)
  {
  }

  lemma {:induction false} ChoiceOf(n: Node, dotall: bool)
    ensures match n
            case Alt(a, b) => AsChoice(n, dotall) == Alt(AsChoice(a, dotall), After(Empty, b, dotall))
            case _ => AsChoice(n, dotall) == After(Empty, n, dotall)
  {
    hide After;
  }

  lemma {:induction false} AfterIs(front: Node, n: Node, dotall: bool)
    ensures match n
            case Empty => After(front, n, dotall) == front
            case Cat(a, b) => After(front, n, dotall) == Cat(After(front, a, dotall), AsTerm(b, dotall))
            case _ => After(front, n, dotall) == Cat(front, AsTerm(n, dotall))
  {
    hide AsTerm;
  }

  lemma {:induction false} TermIs(n: Node, dotall: bool)
    ensures match n
            case Quant(a, min, max, greedy, lo, hi) => AsTerm(n, dotall) == Quant(AsAtom(a, dotall), min, max, greedy, lo, hi)
            case Leaf(x) => AsTerm(n, dotall) == Leaf(LeafTest(x, dotall)) && (Consumes(x) ==> AsAtom(n, dotall) == AsTerm(n, dotall))
            case _ => AsTerm(n, dotall) == AsAtom(n, dotall)
  {
    hide AsChoice, LeafTest;
  }

  lemma {:induction false} AtomIs(n: Node, dotall: bool)
    ensures match n
            case Leaf(x) => AsAtom(n, dotall) == if Consumes(x) then Leaf(LeafTest(x, dotall)) else AsChoice(n, dotall)
            case Capture(i, a) => AsAtom(n, dotall) == Capture(i, AsChoice(a, dotall))
            case Look(a, neg) => AsAtom(n, dotall) == Look(AsChoice(a, dotall), neg)
            case _ => AsAtom(n, dotall) == AsChoice(n, dotall)
  {
    hide AsChoice, LeafTest;
  }

  /** One more alternative. */
  lemma {:induction false} OneChoice(t: string, p: nat, n: Node, m: Node, q: nat, dotall: bool, captures: nat, k: nat)
    requires p < |t| && t[p] == '|' && WellFormed(n, captures) && q <= |t| && EndsHere(t, q) && WellFormed(m, k)
    requires ReadTerms(t, dotall, Empty, p + 1, captures) == ReadTerms(t, dotall, m, q, k)
    ensures WellFormed(n, k) && WellFormed(Alt(n, m), k)
    ensures ReadChoices(t, dotall, n, p, captures) == ReadChoices(t, dotall, Alt(n, m), q, k)
  {
    TermsEnd(t, q, m, dotall, k);
    assert ReadTerms(t, dotall, Empty, p + 1, captures).captures >= captures;
    WellFormedMore(n, captures, k);
  }

  lemma {:induction false} TermsEnd(t: string, p: nat, n: Node, dotall: bool, captures: nat)
    requires p <= |t| && EndsHere(t, p) && WellFormed(n, captures)
    ensures ReadTerms(t, dotall, n, p, captures) == Tree(n, p, captures)
  {
  }

  /** One more term. */
  lemma {:induction false} OneTerm(t: string, p: nat, front: Node, m: Node, q: nat, dotall: bool, captures: nat, k: nat)
    requires p < |t| && t[p] != '|' && t[p] != ')' && WellFormed(front, captures) && captures <= k
    requires ReadTerm(t, dotall, p, captures) == Tree(m, q, k)
    ensures q <= |t| && WellFormed(front, k) && WellFormed(m, k) && WellFormed(Cat(front, m), k)
    ensures ReadTerms(t, dotall, front, p, captures) == ReadTerms(t, dotall, Cat(front, m), q, k)
  {
    hide ReadTerm;
    WellFormedMore(front, captures, k);
  }

  lemma {:induction false} DisjunctionStarts(t: string, p: nat, n: Node, q: nat, dotall: bool, captures: nat, k: nat)
    requires p <= |t| && q <= |t| && EndsHere(t, q) && WellFormed(n, k)
    requires ReadTerms(t, dotall, Empty, p, captures) == ReadTerms(t, dotall, n, q, k)
    ensures ReadDisjunction(t, dotall, p, captures) == ReadChoices(t, dotall, n, q, k)
  {
    hide ReadTerms, ReadChoices;
    TermsEnd(t, q, n, dotall, k);
  }

  lemma {:induction false} TextIs(n: Node, level: nat, dotall: bool)
    requires Writes(n)
    ensures Text(n, level, dotall) == if level <= Prec(n) then Bare(n, dotall) else "(?:" + Bare(n, dotall) + ")"
  {
    hide Bare, Prec;
  }

  lemma {:induction false} BareIs(n: Node, dotall: bool)
    requires Writes(n)
    ensures match n
            case Empty => Bare(n, dotall) == ""
            case Cat(a, b) => Bare(n, dotall) == Text(a, 1, dotall) + Text(b, 2, dotall)
            case Alt(a, b) => Bare(n, dotall) == Text(a, 0, dotall) + "|" + Text(b, 1, dotall)
            case Quant(a, min, max, greedy, _, _) =>
              Bare(n, dotall) == Text(a, 3, dotall) + CountText(min, max) + (if greedy then "" else "?")
            case Leaf(x) => Bare(n, dotall) == LeafText(x, dotall)
            case Capture(_, a) => Bare(n, dotall) == "(" + Text(a, 0, dotall) + ")"
            case Look(a, neg) => Bare(n, dotall) == (if neg then "(?!" else "(?=") + Text(a, 0, dotall) + ")"
  {
    hide Text, LeafText, CountText;
  }

  /** The parts of a pattern are read with the numbers that are left. */
  lemma {:induction false} Parts(n: Node, captures: nat)
    requires Readable(n, captures)
    ensures match n
            case Cat(a, b) =>
              Readable(a, captures) && Readable(b, captures + Groups(a)) && Groups(n) == Groups(a) + Groups(b) && Writes(a) && Writes(b)
            case Alt(a, b) =>
              Readable(a, captures) && Readable(b, captures + Groups(a)) && Groups(n) == Groups(a) + Groups(b) && Writes(a) && Writes(b)
            case Quant(a, min, max, _, lo, hi) =>
              Readable(a, captures) && Writes(a) && Groups(n) == Groups(a) && lo == captures && hi == captures + Groups(a) && min <= max <= INT32_MAX
            case Capture(i, a) => Readable(a, captures + 1) && Writes(a) && Groups(n) == Groups(a) + 1 && i == captures < CAPTURE_COUNT_MAX
            case Look(a, _) => Readable(a, captures) && Writes(a) && Groups(n) == Groups(a)
            case Leaf(x) => Expressible(x) && Groups(n) == 0
            case _ => Groups(n) == 0
    ensures Writes(n)
  {
  }

  /** The text of n, for the given precedence, stands from p up to q. */
  ghost predicate Lies(t: string, p: nat, n: Node, level: nat, q: nat, dotall: bool) {
    Writes(n) && Stands(t, p, Text(n, level, dotall)) && q == p + |Text(n, level, dotall)|
  }

  lemma {:induction false} LiesIs(t: string, p: nat, n: Node, level: nat, q: nat, dotall: bool)
    requires Lies(t, p, n, level, q, dotall)
    ensures Writes(n) && Stands(t, p, Text(n, level, dotall)) && q == p + |Text(n, level, dotall)| <= |t|
    ensures Text(n, level, dotall) == if level <= Prec(n) then Bare(n, dotall) else "(?:" + Bare(n, dotall) + ")"
  {
    hide Stands, Bare, Prec, Text, Writes;
    InText(t, p, Text(n, level, dotall));
    TextIs(n, level, dotall);
  }

  lemma {:induction false} LiesOf(t: string, p: nat, n: Node, level: nat, dotall: bool)
    requires Writes(n) && Stands(t, p, Text(n, level, dotall))
    ensures Lies(t, p, n, level, p + |Text(n, level, dotall)|, dotall)
  {
    hide Stands, Text, Writes;
  }

  /** The reader has taken n in as alternatives, and looks for more at q. */
  ghost predicate ChoiceDone(t: string, p: nat, n: Node, q: nat, dotall: bool, captures: nat) {
    var m, k := AsChoice(n, dotall), captures + Groups(n);
    && p <= q <= |t| && WellFormed(m, k)
    && ReadDisjunction(t, dotall, p, captures) == ReadChoices(t, dotall, m, q, k)
  }

  /** The reader has put the terms of n behind those before, and looks for more at q. */
  ghost predicate TermsDone(t: string, p: nat, front: Node, n: Node, q: nat, dotall: bool, captures: nat) {
    var m, k := After(front, n, dotall), captures + Groups(n);
    && p <= q <= |t| && WellFormed(front, captures) && WellFormed(m, k)
    && ReadTerms(t, dotall, front, p, captures) == ReadTerms(t, dotall, m, q, k)
  }

  ghost predicate TermDone(t: string, p: nat, n: Node, q: nat, dotall: bool, captures: nat) {
    p < |t| && ReadTerm(t, dotall, p, captures) == Tree(AsTerm(n, dotall), q, captures + Groups(n))
  }

  ghost predicate AtomDone(t: string, p: nat, n: Node, q: nat, dotall: bool, captures: nat) {
    p < |t| && ReadAtom(t, dotall, p, captures) == Piece(AsAtom(n, dotall), q, captures + Groups(n), true)
  }

  lemma {:induction false} ChoiceRead(t: string, p: nat, n: Node, q: nat, dotall: bool, captures: nat)
    requires Readable(n, captures) && Lies(t, p, n, 0, q, dotall) && EndsHere(t, q)
    ensures ChoiceDone(t, p, n, q, dotall, captures)
    decreases n, 3 * Order(n, 0) + 1
  {
    hide Readable, Lies, ChoiceDone;
    if n.Alt? {
      AltRead(t, p, n, q, dotall, captures);
    } else {
      LevelDown(t, p, n, 0, q, dotall);
      NothingFormed(captures);
      EndIsNoCount(t, p, n, 1, q, dotall);
      TermsRead(t, p, Empty, n, q, dotall, captures);
      ChoiceStarts(t, p, n, q, dotall, captures);
    }
  }

  lemma {:induction false} EndIsNoCount(t: string, p: nat, n: Node, level: nat, q: nat, dotall: bool)
    requires Lies(t, p, n, level, q, dotall) && EndsHere(t, q)
    ensures NoCount(t, q)
  {
    hide Lies;
    LiesIs(t, p, n, level, q, dotall);
  }

  /** Without parentheses the text is the same at the next level. */
  lemma {:induction false} LevelDown(t: string, p: nat, n: Node, level: nat, q: nat, dotall: bool)
    requires Lies(t, p, n, level, q, dotall) && level != Prec(n)
    ensures Lies(t, p, n, level + 1, q, dotall)
  {
    hide Lies, Text, Bare, Writes, Stands;
    LiesIs(t, p, n, level, q, dotall);
    TextIs(n, level + 1, dotall);
    LiesOf(t, p, n, level + 1, dotall);
  }

  lemma {:induction false} ChoiceStarts(t: string, p: nat, n: Node, q: nat, dotall: bool, captures: nat)
    requires !n.Alt? && TermsDone(t, p, Empty, n, q, dotall, captures) && EndsHere(t, q)
    ensures ChoiceDone(t, p, n, q, dotall, captures)
  {
    hide ReadTerms, ReadChoices, ReadDisjunction, AsChoice, After, Groups, WellFormed;
    ChoiceOf(n, dotall);
    DisjunctionStarts(t, p, After(Empty, n, dotall), q, dotall, captures, captures + Groups(n));
  }

  lemma {:induction false} AltLies(t: string, p: nat, n: Node, q: nat, dotall: bool)
    requires n.Alt? && Lies(t, p, n, 0, q, dotall)
    ensures exists mid: nat ::
              Lies(t, p, n.left, 0, mid, dotall) && mid < |t| && t[mid] == '|' && Lies(t, mid + 1, n.right, 1, q, dotall)
  {
    hide Lies, Text, Bare, Stands;
    LiesIs(t, p, n, 0, q, dotall);
    BareIs(n, dotall);
    var v, w := Text(n.left, 0, dotall), Text(n.right, 1, dotall);
    BarBetween(t, p, v, w);
    LiesOf(t, p, n.left, 0, dotall);
    LiesOf(t, p + |v| + 1, n.right, 1, dotall);
  }

  lemma {:induction false} BarBetween(t: string, p: nat, v: string, w: string)
    requires Stands(t, p, v + "|" + w)
    ensures Stands(t, p, v) && At(t, p + |v|) == '|' && Stands(t, p + |v| + 1, w)
  {
    hide Stands;
    assert v + "|" + w == v + ("|" + w);
    StandsSplit(t, p, v, "|" + w);
    StandsSplit(t, p + |v|, "|", w);
    StandsAt(t, p + |v|, "|", 0);
  }

  lemma {:induction false} AltRead(t: string, p: nat, n: Node, q: nat, dotall: bool, captures: nat)
    requires n.Alt? && Readable(n, captures) && Lies(t, p, n, 0, q, dotall) && EndsHere(t, q)
    ensures ChoiceDone(t, p, n, q, dotall, captures)
    decreases n, 0
  {
    hide Readable, Lies, ChoiceDone, TermsDone, Groups, Numbered, Writes;
    Parts(n, captures);
    AltLies(t, p, n, q, dotall);
    var mid: nat :| Lies(t, p, n.left, 0, mid, dotall) && mid < |t| && t[mid] == '|' && Lies(t, mid + 1, n.right, 1, q, dotall);
    var k := captures + Groups(n.left);
    NothingFormed(k);
    EndIsNoCount(t, mid + 1, n.right, 1, q, dotall);
    ChoiceRead(t, p, n.left, mid, dotall, captures);
    TermsRead(t, mid + 1, Empty, n.right, q, dotall, k);
    AltDone(t, p, n, mid, q, dotall, captures);
  }

  lemma {:induction false} AltDone(t: string, p: nat, n: Node, mid: nat, q: nat, dotall: bool, captures: nat)
    requires n.Alt? && mid < |t| && t[mid] == '|' && EndsHere(t, q) && Groups(n) == Groups(n.left) + Groups(n.right)
    requires ChoiceDone(t, p, n.left, mid, dotall, captures)
    requires TermsDone(t, mid + 1, Empty, n.right, q, dotall, captures + Groups(n.left))
    ensures ChoiceDone(t, p, n, q, dotall, captures)
  {
    hide ReadDisjunction, ReadChoices, ReadTerms, AsChoice, After, Groups, WellFormed;
    ChoiceOf(n, dotall);
    var k := captures + Groups(n.left);
    OneChoice(t, mid, AsChoice(n.left, dotall), After(Empty, n.right, dotall), q, dotall, k, k + Groups(n.right));
  }

  lemma {:induction false} NothingFormed(captures: nat)
    ensures WellFormed(Empty, captures)
  {
  }

  lemma {:induction false} TermsRead(t: string, p: nat, front: Node, n: Node, q: nat, dotall: bool, captures: nat)
    requires WellFormed(front, captures) && Readable(n, captures) && Lies(t, p, n, 1, q, dotall) && NoCount(t, q)
    ensures TermsDone(t, p, front, n, q, dotall, captures)
    decreases n, 3 * Order(n, 1) + 1
  {
    hide Readable, Lies, TermsDone, TermDone, WellFormed;
    if n.Empty? {
      NothingRead(t, p, front, n, q, dotall, captures);
    } else if n.Cat? {
      CatRead(t, p, front, n, q, dotall, captures);
    } else {
      LevelDown(t, p, n, 1, q, dotall);
      TermRead(t, p, n, q, dotall, captures);
      OneDone(t, p, front, n, q, dotall, captures);
    }
  }

  lemma {:induction false} NothingRead(t: string, p: nat, front: Node, n: Node, q: nat, dotall: bool, captures: nat)
    requires n.Empty? && WellFormed(front, captures) && Lies(t, p, n, 1, q, dotall)
    ensures TermsDone(t, p, front, n, q, dotall, captures)
  {
    hide Lies, ReadTerms, WellFormed;
    LiesIs(t, p, n, 1, q, dotall);
    AfterIs(front, n, dotall);
  }

  /** A term behind others. */
  lemma {:induction false} OneDone(t: string, p: nat, front: Node, n: Node, q: nat, dotall: bool, captures: nat)
    requires !n.Empty? && !n.Cat? && WellFormed(front, captures) && Lies(t, p, n, 2, q, dotall)
    requires TermDone(t, p, n, q, dotall, captures)
    ensures TermsDone(t, p, front, n, q, dotall, captures)
  {
    hide Lies, ReadTerms, ReadTerm, WellFormed, Groups, After, AsTerm;
    TermStart(t, p, n, q, dotall);
    AfterIs(front, n, dotall);
    OneTerm(t, p, front, AsTerm(n, dotall), q, dotall, captures, captures + Groups(n));
  }

  lemma {:induction false} TermStart(t: string, p: nat, n: Node, q: nat, dotall: bool)
    requires Lies(t, p, n, 2, q, dotall)
    ensures p < q <= |t| && t[p] != '|' && t[p] != ')' && NoCount(t, p)
  {
    hide Lies, Text, Stands;
    LiesIs(t, p, n, 2, q, dotall);
    FirstOf(n, 2, dotall);
    StandsAt(t, p, Text(n, 2, dotall), 0);
  }

  lemma {:induction false} CatLies(t: string, p: nat, n: Node, q: nat, dotall: bool)
    requires n.Cat? && Lies(t, p, n, 1, q, dotall)
    ensures exists mid: nat :: Lies(t, p, n.first, 1, mid, dotall) && Lies(t, mid, n.second, 2, q, dotall)
  {
    hide Lies, Text, Bare, Stands;
    LiesIs(t, p, n, 1, q, dotall);
    BareIs(n, dotall);
    var v, w := Text(n.first, 1, dotall), Text(n.second, 2, dotall);
    StandsSplit(t, p, v, w);
    LiesOf(t, p, n.first, 1, dotall);
    LiesOf(t, p + |v|, n.second, 2, dotall);
  }

  lemma {:induction false} CatRead(t: string, p: nat, front: Node, n: Node, q: nat, dotall: bool, captures: nat)
    requires n.Cat? && WellFormed(front, captures) && Readable(n, captures) && Lies(t, p, n, 1, q, dotall) && NoCount(t, q)
    ensures TermsDone(t, p, front, n, q, dotall, captures)
    decreases n, 0
  {
    hide Readable, Lies, TermsDone, TermDone, Groups, Numbered, Writes, WellFormed;
    Parts(n, captures);
    CatLies(t, p, n, q, dotall);
    var mid: nat :| Lies(t, p, n.first, 1, mid, dotall) && Lies(t, mid, n.second, 2, q, dotall);
    TermStart(t, mid, n.second, q, dotall);
    TermsRead(t, p, front, n.first, mid, dotall, captures);
    TermRead(t, mid, n.second, q, dotall, captures + Groups(n.first));
    CatDone(t, p, front, n, mid, q, dotall, captures);
  }

  lemma {:induction false} CatDone(t: string, p: nat, front: Node, n: Node, mid: nat, q: nat, dotall: bool, captures: nat)
    requires n.Cat? && Groups(n) == Groups(n.first) + Groups(n.second)
    requires mid < q <= |t| && t[mid] != '|' && t[mid] != ')'
    requires TermsDone(t, p, front, n.first, mid, dotall, captures)
    requires TermDone(t, mid, n.second, q, dotall, captures + Groups(n.first))
    ensures TermsDone(t, p, front, n, q, dotall, captures)
  {
    hide ReadTerms, ReadTerm, WellFormed, Groups, After, AsTerm;
    AfterIs(front, n, dotall);
    var k := captures + Groups(n.first);
    OneTerm(t, mid, After(front, n.first, dotall), AsTerm(n.second, dotall), q, dotall, k, k + Groups(n.second));
  }

  lemma {:induction false} PlainTerm(t: string, p: nat, n: Node, q: nat, k: nat, quantifiable: bool, dotall: bool, captures: nat)
    requires p < |t| && ReadAtom(t, dotall, p, captures) == Piece(n, q, k, quantifiable) && NoCount(t, q)
    ensures ReadTerm(t, dotall, p, captures) == Tree(n, q, k)
  {
    hide ReadAtom;
    NoSuffixHere(t, q);
  }

  lemma {:induction false} QuantTerm(t: string, p: nat, a: Node, q: nat, k: nat, min: nat, max: nat, greedy: bool, z: nat, dotall: bool, captures: nat)
    requires p < |t| && ReadAtom(t, dotall, p, captures) == Piece(a, q, k, true)
    requires q <= |t| && ReadSuffix(t, q) == Suffix(min, max, z) && (greedy <==> At(t, z) != '?')
    ensures ReadTerm(t, dotall, p, captures) == Tree(Quant(a, min, max, greedy, captures, k), if greedy then z else z + 1, k)
  {
    hide ReadAtom, ReadSuffix;
  }

  lemma {:induction false} TermRead(t: string, p: nat, n: Node, q: nat, dotall: bool, captures: nat)
    requires Readable(n, captures) && Lies(t, p, n, 2, q, dotall) && NoCount(t, q)
    ensures TermDone(t, p, n, q, dotall, captures)
    decreases n, 3 * Order(n, 2) + 1
  {
    hide Readable, Lies, TermDone, AtomDone;
    if n.Quant? {
      QuantRead(t, p, n, q, dotall, captures);
    } else if n.Leaf? && !Consumes(n.t) {
      AnchorRead(t, p, n, q, dotall, captures);
    } else {
      LevelDown(t, p, n, 2, q, dotall);
      AtomRead(t, p, n, q, dotall, captures);
      TermOfAtom(t, p, n, q, dotall, captures);
    }
  }

  lemma {:induction false} TermOfAtom(t: string, p: nat, n: Node, q: nat, dotall: bool, captures: nat)
    requires !n.Quant? && (n.Leaf? ==> Consumes(n.t)) && AtomDone(t, p, n, q, dotall, captures) && NoCount(t, q)
    ensures TermDone(t, p, n, q, dotall, captures)
  {
    hide ReadAtom, ReadTerm, AsAtom, AsTerm, Groups;
    TermIs(n, dotall);
    PlainTerm(t, p, AsAtom(n, dotall), q, captures + Groups(n), true, dotall, captures);
  }

  lemma {:induction false} AnchorRead(t: string, p: nat, n: Node, q: nat, dotall: bool, captures: nat)
    requires n.Leaf? && !Consumes(n.t) && Lies(t, p, n, 2, q, dotall) && NoCount(t, q)
    ensures TermDone(t, p, n, q, dotall, captures)
  {
    hide Lies, ReadAtom, ReadTerm, LeafText, LeafTest, AsTerm;
    LiesIs(t, p, n, 2, q, dotall);
    BareIs(n, dotall);
    TermIs(n, dotall);
    ReadLeaf(t, p, n.t, dotall, captures);
    PlainTerm(t, p, Leaf(LeafTest(n.t, dotall)), q, captures, false, dotall, captures);
  }

  lemma {:induction false} QuantLies(t: string, p: nat, n: Node, q: nat, dotall: bool)
    requires n.Quant? && Lies(t, p, n, 2, q, dotall) && NoCount(t, q)
    ensures exists mid: nat ::
              && Lies(t, p, n.atom, 3, mid, dotall) && Stands(t, mid, CountText(n.min, n.max))
              && mid + |CountText(n.min, n.max)| == (if n.greedy then q else q - 1)
              && (n.greedy <==> At(t, mid + |CountText(n.min, n.max)|) != '?')
  {
    hide Lies, Text, Bare, Stands, CountText;
    LiesIs(t, p, n, 2, q, dotall);
    BareIs(n, dotall);
    CountBehind(t, p, Text(n.atom, 3, dotall), CountText(n.min, n.max), n.greedy);
    LiesOf(t, p, n.atom, 3, dotall);
  }

  lemma {:induction false} CountBehind(t: string, p: nat, v: string, c: string, greedy: bool)
    requires var w := v + c + (if greedy then "" else "?"); Stands(t, p, w) && (greedy ==> At(t, p + |w|) != '?')
    ensures Stands(t, p, v) && Stands(t, p + |v|, c) && (greedy <==> At(t, p + |v| + |c|) != '?')
  {
    hide Stands;
    if greedy {
      assert v + c + "" == v + c;
      StandsSplit(t, p, v, c);
    } else {
      StandsSplit(t, p, v + c, "?");
      StandsSplit(t, p, v, c);
      StandsAt(t, p + |v + c|, "?", 0);
    }
  }

  lemma {:induction false} QuantRead(t: string, p: nat, n: Node, q: nat, dotall: bool, captures: nat)
    requires n.Quant? && Readable(n, captures) && Lies(t, p, n, 2, q, dotall) && NoCount(t, q)
    ensures TermDone(t, p, n, q, dotall, captures)
    decreases n, 0
  {
    hide Readable, Lies, ReadTerm, ReadAtom, CountText, AsAtom, AsTerm, ReadSuffix, Stands, Groups, Numbered, Writes;
    Parts(n, captures);
    TermIs(n, dotall);
    QuantLies(t, p, n, q, dotall);
    var c := CountText(n.min, n.max);
    var mid: nat :| && Lies(t, p, n.atom, 3, mid, dotall) && Stands(t, mid, c) && mid + |c| == (if n.greedy then q else q - 1)
                    && (n.greedy <==> At(t, mid + |c|) != '?');
    AtomRead(t, p, n.atom, mid, dotall, captures);
    ReadCount(t, mid, n.min, n.max);
    InText(t, mid, c);
    QuantTerm(t, p, AsAtom(n.atom, dotall), mid, captures + Groups(n.atom), n.min, n.max, n.greedy, mid + |c|, dotall, captures);
  }

  lemma {:induction false} AtomRead(t: string, p: nat, n: Node, q: nat, dotall: bool, captures: nat)
    requires Readable(n, captures) && Lies(t, p, n, 3, q, dotall)
    ensures AtomDone(t, p, n, q, dotall, captures)
    decreases n, 3 * Order(n, 3) + 1
  {
    hide Readable, Lies, AtomDone;
    if n.Leaf? && Consumes(n.t) {
      SingleRead(t, p, n, q, dotall, captures);
    } else if n.Capture? || n.Look? {
      ParenRead(t, p, n, q, dotall, captures);
    } else {
      GroupDone(t, p, n, q, dotall, captures);
    }
  }

  lemma {:induction false} SingleRead(t: string, p: nat, n: Node, q: nat, dotall: bool, captures: nat)
    requires n.Leaf? && Consumes(n.t) && Lies(t, p, n, 3, q, dotall)
    ensures AtomDone(t, p, n, q, dotall, captures)
  {
    hide Lies, ReadAtom, LeafText, LeafTest, AsAtom;
    LiesIs(t, p, n, 3, q, dotall);
    BareIs(n, dotall);
    AtomIs(n, dotall);
    ReadLeaf(t, p, n.t, dotall, captures);
  }

  /** A whole pattern between an opening and a closing parenthesis. */
  lemma {:induction false} InsideRead(t: string, p: nat, open: string, n: Node, dotall: bool, captures: nat)
    requires Readable(n, captures) && Writes(n) && Stands(t, p, open + Text(n, 0, dotall) + ")")
    ensures ReadDisjunction(t, dotall, p + |open|, captures)
         == Tree(AsChoice(n, dotall), p + |open| + |Text(n, 0, dotall)|, captures + Groups(n))
    decreases n, 3 * Order(n, 0) + 2
  {
    hide Stands, AsChoice, Text, ReadDisjunction, Readable, Writes, ReadChoices, Groups, WellFormed;
    var w := Text(n, 0, dotall);
    Enclosed3(t, p, open, w);
    InText(t, p, open + w + ")");
    LiesOf(t, p + |open|, n, 0, dotall);
    ChoiceRead(t, p + |open|, n, p + |open| + |w|, dotall, captures);
    ChoicesEnd(t, p + |open| + |w|, AsChoice(n, dotall), dotall, captures + Groups(n));
  }

  lemma {:induction false} ParenRead(t: string, p: nat, n: Node, q: nat, dotall: bool, captures: nat)
    requires (n.Capture? || n.Look?) && Readable(n, captures) && Lies(t, p, n, 3, q, dotall)
    ensures AtomDone(t, p, n, q, dotall, captures)
    decreases n, 0
  {
    hide Lies, Stands, ReadAtom, AsChoice, AsAtom, Text, Bare, Readable, Writes, Groups, Numbered, ReadDisjunction;
    Parts(n, captures);
    AtomIs(n, dotall);
    LiesIs(t, p, n, 3, q, dotall);
    BareIs(n, dotall);
    var w := Text(n.body, 0, dotall);
    if n.Capture? {
      InsideRead(t, p, "(", n.body, dotall, captures + 1);
      FirstOf(n.body, 0, dotall);
      CaptureRead(t, p, w, AsChoice(n.body, dotall), dotall, captures, captures + Groups(n));
    } else {
      InsideRead(t, p, if n.neg then "(?!" else "(?=", n.body, dotall, captures);
      LookRead(t, p, w, AsChoice(n.body, dotall), n.neg, dotall, captures, captures + Groups(n));
    }
  }

  lemma {:induction false} GroupDone(t: string, p: nat, n: Node, q: nat, dotall: bool, captures: nat)
    requires Prec(n) < 3 && Readable(n, captures) && Lies(t, p, n, 3, q, dotall)
    ensures AtomDone(t, p, n, q, dotall, captures)
    decreases n, 3 * Order(n, 0) + 3
  {
    hide Lies, Stands, ReadAtom, AsChoice, AsAtom, Text, Bare, Readable, Writes, Groups, Numbered, ReadDisjunction;
    AtomIs(n, dotall);
    LiesIs(t, p, n, 3, q, dotall);
    TextIs(n, 0, dotall);
    InsideRead(t, p, "(?:", n, dotall, captures);
    GroupRead(t, p, Text(n, 0, dotall), AsChoice(n, dotall), dotall, captures, captures + Groups(n));
  }

  lemma {:induction false} Enclosed3(t: string, p: nat, open: string, w: string)
    requires Stands(t, p, open + w + ")")
    ensures Stands(t, p + |open|, w) && At(t, p + |open| + |w|) == ')'
  {
    hide Stands;
    assert open + w + ")" == open + (w + ")");
    StandsSplit(t, p, open, w + ")");
    StandsSplit(t, p + |open|, w, ")");
    StandsAt(t, p + |open| + |w|, ")", 0);
  }

  /** The text of a pattern is read back as its tree. */
  lemma {:induction false} TextReads(n: Node, dotall: bool)
    requires Readable(n, 1)
    ensures Writes(n)
    ensures ReadDisjunction(Text(n, 0, dotall), dotall, 0, 1)
         == Tree(AsChoice(n, dotall), |Text(n, 0, dotall)|, 1 + Groups(n))
  {
    hide AsChoice, ReadDisjunction, Text, Readable, Writes, Groups, ReadChoices, WellFormed;
    Parts(n, 1);
    var t := Text(n, 0, dotall);
    assert t[0..|t|] == t;
    LiesOf(t, 0, n, 0, dotall);
    ChoiceRead(t, 0, n, |t|, dotall, 1);
    ChoicesEnd(t, |t|, AsChoice(n, dotall), dotall, 1 + Groups(n));
  }
}
