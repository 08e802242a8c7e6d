/** The reference matcher: for a pattern and a position, the ordered list of all ways to match,
    first choice first. It follows the compiled code's rules, e.g. a greedy loop is left, not
    failed, by an iteration that consumes nothing. */
module RegexMatch {
  import opened RegexBytes
  import opened RegexSyntax
  import CharRanges

  datatype Option<T> = None | Some(value: T)

  /** A position in the subject and the capture array (two entries a group, -1 for unset). */
  datatype Pt = Pt(pos: nat, caps: seq<int>)

  /** A character of the subject, which has 8 or 16 bits a character. */
  type CharUnit = x: int | 0 <= x < 0x1_0000

  /** The subject and the multi-line flag. */
  datatype Subject = Subject(text: seq<CharUnit>, multiLine: bool)

  predicate IsLineTerminator(c: int) {
    c == 10 || c == 13 || c == 0x2028 || c == 0x2029
  }

  predicate IsWordChar(c: int) {
    48 <= c <= 57 || 97 <= c <= 122 || 65 <= c <= 90 || c == 95
  }

  /** One test: the position after it, or None. */
  function Advance(t: Test, s: Subject, pos: nat): (r: Option<nat>)
    requires pos <= |s.text|
    ensures r.Some? ==> pos <= r.value <= |s.text|
  {
    var n := |s.text|;
    match t
    case Char(c) => if pos < n && s.text[pos] == c then Some(pos + 1) else None
    case Class(points) => if pos < n && CharRanges.Member(points, s.text[pos]) then Some(pos + 1) else None
    case Dot => if pos < n && !IsLineTerminator(s.text[pos]) then Some(pos + 1) else None
    case Any => if pos < n then Some(pos + 1) else None
    case LineStart => if pos == 0 || (s.multiLine && IsLineTerminator(s.text[pos - 1])) then Some(pos) else None
    case LineEnd => if pos == n || (s.multiLine && IsLineTerminator(s.text[pos])) then Some(pos) else None
    case WordBoundary => if AtBoundary(s, pos) then Some(pos) else None
    case NotWordBoundary => if AtBoundary(s, pos) then None else Some(pos)
  }

  predicate AtBoundary(s: Subject, pos: nat)
    requires pos <= |s.text|
  {
    (pos > 0 && IsWordChar(s.text[pos - 1])) != (pos < |s.text| && IsWordChar(s.text[pos]))
  }

  function SetCap(caps: seq<int>, i: nat, v: int): (r: seq<int>)
    ensures |r| == |caps|
  {
    if i < |caps| then caps[i := v] else caps
  }

  function ResetCaps(caps: seq<int>, lo: nat, hi: nat): (r: seq<int>)
    ensures |r| == |caps|
  {
    seq(|caps|, i requires 0 <= i < |caps| => if 2 * lo <= i < 2 * hi then -1 else caps[i])
  }

  /** What remains to be done after one way of matching a sub-pattern. */
  datatype Kont =
    | KNode(n: Node)
    | KSave(a: Node, slot: nat)
    | KPower(a: Node, k: nat)
    | KUpTo(a: Node, k: nat, greedy: bool)
    | KStar(a: Node, greedy: bool, from: nat)
    | KTail(a: Node, unbounded: bool, bound: nat, greedy: bool)

  function NodeOf(k: Kont): Node {
    if k.KNode? then k.n else k.a
  }

  function Left(s: Subject, pos: nat): nat {
    if pos <= |s.text| then |s.text| - pos else 0
  }

  function Rank(k: Kont, s: Subject): nat {
    match k
    case KNode(_) => 1
    case KSave(_, _) => 1
    case KPower(_, j) => 2 * j + 2
    case KUpTo(_, j, _) => 2 * j + 2
    case KStar(_, _, from) => 2 * Left(s, from)
    case KTail(_, _, bound, _) => 4 + 2 * |s.text| + 2 * bound
  }

  /** Optional iterations after `used` mandatory ones (0 when there is no upper bound). */
  function Bound(max: nat, used: nat): nat {
    if max == INT32_MAX || max <= used then 0 else max - used
  }

  function Ends(n: Node, s: Subject, p: Pt): (r: seq<Pt>)
    requires p.pos <= |s.text|
    ensures forall e <- r :: p.pos <= e.pos <= |s.text| && |e.caps| == |p.caps|
    decreases n, 0, 0, 0
  {
    match n
    case Empty => [p]
    case Leaf(t) => (match Advance(t, s, p.pos) case None => [] case Some(q) => [p.(pos := q)])
    case Cat(a, b) => Each(KNode(b), s, Ends(a, s, p), p.pos, |p.caps|)
    case Alt(a, b) => Ends(a, s, p) + Ends(b, s, p)
    case Quant(a, min, max, greedy, lo, hi) =>
      var p' := if min == 0 then p.(caps := ResetCaps(p.caps, lo, hi)) else p;
      Each(KTail(a, max == INT32_MAX, Bound(max, min), greedy), s, Power(a, min, s, p'), p.pos, |p.caps|)
    case Capture(k, a) =>
      Each(KSave(a, 2 * k + 1), s, Ends(a, s, p.(caps := SetCap(p.caps, 2 * k, p.pos))), p.pos, |p.caps|)
    case Look(a, neg) =>
      var inner := Ends(a, s, p);
      if neg then (if inner == [] then [p] else [])
      else (if inner == [] then [] else [p.(caps := inner[0].caps)])
  }

  /** Exactly k iterations. */
  function Power(a: Node, k: nat, s: Subject, p: Pt): (r: seq<Pt>)
    requires p.pos <= |s.text|
    ensures forall e <- r :: p.pos <= e.pos <= |s.text| && |e.caps| == |p.caps|
    decreases a, 2 * k + 1, 0, 0
  {
    if k == 0 then [p] else Each(KPower(a, k - 1), s, Ends(a, s, p), p.pos, |p.caps|)
  }

  /** At most k iterations, more first when greedy. */
  function UpTo(a: Node, k: nat, greedy: bool, s: Subject, p: Pt): (r: seq<Pt>)
    requires p.pos <= |s.text|
    ensures forall e <- r :: p.pos <= e.pos <= |s.text| && |e.caps| == |p.caps|
    decreases a, 2 * k + 1, 0, 0
  {
    if k == 0 then [p]
    else
      var more := Each(KUpTo(a, k - 1, greedy), s, Ends(a, s, p), p.pos, |p.caps|);
      if greedy then more + [p] else [p] + more
  }

  /** Any number of iterations; an iteration that consumes nothing is the last. */
  function Star(a: Node, greedy: bool, s: Subject, p: Pt): (r: seq<Pt>)
    requires p.pos <= |s.text|
    ensures forall e <- r :: p.pos <= e.pos <= |s.text| && |e.caps| == |p.caps|
    decreases a, 2 * Left(s, p.pos) + 1, 0, 0
  {
    var more := Each(KStar(a, greedy, p.pos), s, Ends(a, s, p), p.pos, |p.caps|);
    if greedy then more + [p] else [p] + more
  }

  function After(k: Kont, s: Subject, e: Pt): (r: seq<Pt>)
    requires e.pos <= |s.text|
    ensures forall x <- r :: e.pos <= x.pos <= |s.text| && |x.caps| == |e.caps|
    decreases NodeOf(k), Rank(k, s), 0, 0
  {
    match k
    case KNode(n) => Ends(n, s, e)
    case KSave(_, slot) => [e.(caps := SetCap(e.caps, slot, e.pos))]
    case KPower(a, j) => Power(a, j, s, e)
    case KUpTo(a, j, greedy) => UpTo(a, j, greedy, s, e)
    case KStar(a, greedy, from) => if from < e.pos then Star(a, greedy, s, e) else [e]
    case KTail(a, unbounded, bound, greedy) => if unbounded then Star(a, greedy, s, e) else UpTo(a, bound, greedy, s, e)
  }

  /** The continuation of every way in turn. */
  function Each(k: Kont, s: Subject, ps: seq<Pt>, low: nat, n: nat): (r: seq<Pt>)
    requires forall e <- ps :: low <= e.pos <= |s.text| && |e.caps| == n
    ensures forall x <- r :: low <= x.pos <= |s.text| && |x.caps| == n
    decreases NodeOf(k), Rank(k, s), 1, |ps|
  {
    if ps == [] then [] else After(k, s, ps[0]) + Each(k, s, ps[1..], low, n)
  }
}
