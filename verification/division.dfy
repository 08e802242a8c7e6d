/** Long division by a normalized divisor: one limb, schoolbook, and by approximate reciprocal. */
module Division {
  import opened Limbs
  import opened Products
  import opened FftMultiply
  import opened Udiv
  import opened QuotientMath
  import opened ReciprocalMath

  const UDIV1NORM_THRESHOLD := 3
  const DIVNORM_LARGE_THRESHOLD := 50

  // ---------- comparison ----------

  /** Numbers compare as their highest differing limbs do. */
  lemma {:induction false} LessDigit(low: int, d: int, low': int, d': int, p: int)
    requires 0 <= low < p && 0 <= low' && d < d'
    ensures low + d * p < low' + d' * p
  {
    MulMono(d + 1, d', p);
    assert (d + 1) * p == d * p + p;
  }

  lemma {:induction false} CompareAt(s: seq<Limb>, so: nat, t: seq<Limb>, to: nat, j: nat, n: nat)
    requires j < n && so + n <= |s| && to + n <= |t|
    requires s[so + j] < t[to + j]
    requires s[so + j + 1..so + n] == t[to + j + 1..to + n]
    ensures Val(s[so..so + n]) < Val(t[to..to + n])
  {
    hide Val, Pow;
    ValSplit(s, so, so + j + 1, so + n);
    ValSplit(t, to, to + j + 1, to + n);
    ValSnoc(s, so, so + j);
    ValSnoc(t, to, to + j);
    ValBound(s[so..so + j]);
    ValBound(t[to..to + j]);
    LessDigit(Val(s[so..so + j]), s[so + j], Val(t[to..to + j]), t[to + j], Pow(j));
  }

  method MpCmp(a: array<Limb>, ao: nat, b: array<Limb>, bo: nat, n: nat) returns (c: int)
    requires ao + n <= a.Length && bo + n <= b.Length
    ensures c < 0 <==> Val(a[ao..ao + n]) < Val(b[bo..bo + n])
    ensures c > 0 <==> Val(a[ao..ao + n]) > Val(b[bo..bo + n])
  {
    hide Val, Pow;
    var i := n;
    while i > 0
      invariant 0 <= i <= n
      invariant a[ao + i..ao + n] == b[bo + i..bo + n]
    {
      i := i - 1;
      if a[ao + i] != b[bo + i] {
        if a[ao + i] < b[bo + i] {
          CompareAt(a[..], ao, b[..], bo, i, n);
          return -1;
        } else {
          CompareAt(b[..], bo, a[..], ao, i, n);
          return 1;
        }
      }
      assert a[ao + i..ao + n] == [a[ao + i]] + a[ao + i + 1..ao + n];
      assert b[bo + i..bo + n] == [b[bo + i]] + b[bo + i + 1..bo + n];
    }
    return 0;
  }

  // ---------- one limb ----------

  lemma {:induction false} Div1Step(t: seq<Limb>, to: nat, a: seq<Limb>, ao: nat, i: nat, n: nat, b: int, r0: int, r: int, top: int)
    requires i < n && to + n <= |t| && ao + n <= |a|
    requires Val(a[ao + i + 1..ao + n]) + top * Pow(n - i - 1) == Val(t[to + i + 1..to + n]) * b + r0
    requires r0 * B + a[ao + i] == t[to + i] * b + r
    ensures Val(a[ao + i..ao + n]) + top * Pow(n - i) == Val(t[to + i..to + n]) * b + r
  {
    hide Val, Pow;
    ValCons(t, to + i, to + n);
    ValCons(a, ao + i, ao + n);
    PowStep(n - i);
  }

  /** Divides a number of n limbs, preceded by the limb r < b, by the normalized limb b. */
  method MpDiv1norm(t: array<Limb>, to: nat, a: array<Limb>, ao: nat, n: nat, b: Limb, r: Limb) returns (rem: Limb)
    requires to + n <= t.Length && ao + n <= a.Length && NoClobber(t, to, a, ao, n)
    requires b >= HALF && r < b
    modifies t
    ensures old(Val(a[ao..ao + n])) + r * Pow(n) == Val(t[to..to + n]) * b + rem
    ensures rem < b
    ensures Outside(old(t[..]), t[..], to, to + n)
  {
    hide Val, Pow, Udiv1normInit;
    ghost var T0, A := t[..], a[..];
    Empty(T0, to + n);
    Empty(A, ao + n);
    rem := r;
    var b_inv: Limb := 0;
    if n >= UDIV1NORM_THRESHOLD { b_inv := Udiv1normInit(b); }
    var i := n;
    while i > 0
      invariant 0 <= i <= n && rem < b
      invariant Outside(T0, t[..], to + i, to + n)
      invariant Val(A[ao + i..ao + n]) + r * Pow(n - i) == Val(t[to + i..to + n]) * b + rem
    {
      i := i - 1;
      assert a[ao + i] == A[ao + i];
      ghost var r0, after := rem, t[to + i + 1..to + n];
      var q: Limb;
      if n >= UDIV1NORM_THRESHOLD {
        q, rem := Udiv1norm(rem, a[ao + i], b, b_inv);
      } else {
        q, rem := DivRem(rem, a[ao + i], b);
      }
      t[to + i] := q;
      assert t[to + i + 1..to + n] == after;
      Div1Step(t[..], to, A, ao, i, n, b, r0, rem, r);
    }
  }

  /** The double-limb division operator. */
  method DivRem(a1: Limb, a0: Limb, d: Limb) returns (q: Limb, r: Limb)
    requires a1 < d
    ensures a1 * B + a0 == q * d + r && r < d
  {
    MulMono(a1 + 1, d, B);
    DivLess(a1 * B + a0, d, B);
    DivMod(a1 * B + a0, d);
    q, r := (a1 * B + a0) / d, (a1 * B + a0) % d;
  }

  // ---------- one quotient digit ----------

  /** The window, low limbs and top limb, holds w - q * v, which is negative, modulo p * B. */
  ghost predicate Deficit(low: int, top: int, p: int, w: int, q: int, v: int) {
    low + p * top == w - q * v + p * B
  }

  /** The window is its low limbs plus its top limb; `carry` moves into the top limb. */
  lemma {:induction false} AddBack(low0: int, low: int, top: int, carry: int, p: int, w: int, q: int, v: int)
    requires Deficit(low0, top, p, w, q + 1, v)
    requires low + carry * p == low0 + v && 0 <= low < p
    ensures Deficit(low, top + carry, p, w, q, v)
    ensures Overdrawn(w, q, v) <==> top + carry < B
    ensures top + carry == B ==> Exactly(w, q, v, low)
  {
    WrapTest(low, top, carry, p);
    assert p * (top + carry) == p * top + carry * p;
    assert (q + 1) * v == q * v + v;
  }

  lemma {:induction false} Subtracted(low0: int, low: int, top: int, r: int, p: int, w: int, qv: int)
    requires w == low0 + top * p && low0 + r * p == qv + low && 0 <= low < p
    ensures w - qv == low + p * (top - r)
    ensures top < r ==> w < qv
  {
    assert p * (top - r) == top * p - r * p;
    if top < r { MulMono(top - r, -1, p); }
  }

  /** While the result is negative the digit is positive and at most one too many was removed. */
  lemma {:induction false} StillNegative(w: int, q0: int, tries: int, v: int)
    requires Overdrawn(w, q0 - tries, v) && TwoBelow(w, q0, v) && v > 0
    ensures tries <= 1 && q0 - tries >= 1
  {
    if tries >= 2 { MulMono(q0 - tries, q0 - 2, v); }
    if q0 - tries <= 0 { MulMono(q0 - tries, 0, v); }
  }

  lemma {:induction false} TopVanishes(low: int, x: int, p: int, w: int, q: int, v: int)
    requires 0 <= low && 0 <= x && 0 < v < p && w < (q + 1) * v && w - q * v == low + p * x
    ensures x == 0 && w == q * v + low && low < v
  {
    assert (q + 1) * v == q * v + v;
    if x > 0 { MulMono(1, x, p); }
  }

  /** Adds the divisor back to a negative window until it turns non-negative. */
  method AddBackLoop(a: array<Limb>, o: nat, b: array<Limb>, bo: nat, nb: nat, q0: Limb, ghost w: int, ghost v: int)
    returns (q: Limb, ghost tries: nat)
    requires o + nb < a.Length && bo + nb <= b.Length && a != b
    requires v == Val(b[bo..bo + nb]) && v > 0
    requires 0 <= w < q0 * v && (q0 - 2) * v <= w
    requires Deficit(Val(a[o..o + nb]), a[o + nb], Pow(nb), w, q0, v)
    modifies a
    ensures w == q * v + Val(a[o..o + nb]) && Val(a[o..o + nb]) < v
    ensures q == q0 - tries && tries <= 2
    ensures Outside(old(a[..]), a[..], o, o + nb + 1)
  {
    hide Val, Pow, Deficit, Overdrawn, TwoBelow, Exactly;
    ghost var p, low := Pow(nb), Val(a[o..o + nb]);
    tries := 0;
    q := q0;
    assert Overdrawn(w, q, v) && TwoBelow(w, q0, v) by { DigitStart(w, q0, v); }
    while true
      invariant q == q0 - tries && Overdrawn(w, q, v)
      invariant Outside(old(a[..]), a[..], o, o + nb + 1)
      invariant low == Val(a[o..o + nb]) && Deficit(low, a[o + nb], p, w, q, v)
      decreases q
    {
      StillNegative(w, q0, tries, v);
      q := q - 1;
      tries := tries + 1;
      ghost var low0, top := low, a[o + nb];
      var stop;
      ghost var carry;
      stop, carry := AddBackOnce(a, o, b, bo, nb);
      low := Val(a[o..o + nb]);
      AddBack(low0, low, top, carry, p, w, q, v);
      if stop {
        break;
      }
    }
    DigitEnd(w, q, v, low);
  }

  /** One addition of the divisor, and the carry into the limb above. */
  method AddBackOnce(a: array<Limb>, o: nat, b: array<Limb>, bo: nat, nb: nat) returns (stop: bool, ghost carry: Limb)
    requires o + nb < a.Length && bo + nb <= b.Length && a != b
    modifies a
    ensures Val(a[o..o + nb]) + carry * Pow(nb) == old(Val(a[o..o + nb])) + Val(b[bo..bo + nb])
    ensures 0 <= Val(a[o..o + nb]) < Pow(nb) && carry <= 1
    ensures a[o + nb] == (old(a[o + nb]) + carry) % B && (stop <==> old(a[o + nb]) + carry == B)
    ensures Outside(old(a[..]), a[..], o, o + nb + 1)
  {
    hide Val, Pow;
    var top := a[o + nb];
    var c := MpAdd(a, o, a, o, b, bo, nb, 0);
    carry := c;
    ValBound(a[o..o + nb]);
    stop := false;
    if c != 0 {
      SetTop(a, o, nb, (top + 1) % B);
      stop := a[o + nb] == 0;
    }
  }

  /** The digit is still too large. */
  ghost predicate Overdrawn(w: int, q: int, v: int) {
    w < q * v
  }

  ghost predicate TwoBelow(w: int, q0: int, v: int) {
    0 <= w && (q0 - 2) * v <= w
  }

  ghost predicate Exactly(w: int, q: int, v: int, low: int) {
    w == q * v + low
  }

  lemma {:induction false} DigitStart(w: int, q0: int, v: int)
    requires 0 <= w < q0 * v && (q0 - 2) * v <= w
    ensures Overdrawn(w, q0, v) && TwoBelow(w, q0, v)
  {
  }

  lemma {:induction false} DigitEnd(w: int, q: int, v: int, low: int)
    requires Overdrawn(w, q + 1, v) && Exactly(w, q, v, low)
    ensures w == q * v + low && low < v
  {
    assert (q + 1) * v == q * v + v;
  }

  /** Subtracts q0 times the divisor from the window of nb + 1 limbs and adds the divisor back
      while the result is negative; `tries` counts the additions. */
  method SubtractDigit(a: array<Limb>, o: nat, b: array<Limb>, bo: nat, nb: nat, q0: Limb, ghost w: int, ghost v: int)
    returns (q: Limb, ghost tries: nat)
    requires o + nb < a.Length && bo + nb <= b.Length && a != b
    requires w == Val(a[o..o + nb + 1]) && v == Val(b[bo..bo + nb]) && v > 0
    requires w < (q0 + 1) * v && (q0 - 2) * v <= w
    modifies a
    ensures w == q * v + Val(a[o..o + nb]) && Val(a[o..o + nb]) < v
    ensures q == q0 - tries && tries <= 2
    ensures Outside(old(a[..]), a[..], o, o + nb + 1)
  {
    hide Val, Pow;
    ghost var p, low0 := Pow(nb), Val(a[o..o + nb]);
    ValSnoc(a[..], o, o + nb);
    tries := 0;
    q := q0;
    var top := a[o + nb];
    var r := MpSubMul1(a, o, b, bo, nb, q);
    ghost var low := Val(a[o..o + nb]);
    ValBound(a[o..o + nb]);
    var x: Limb := (top - r) % B;
    ValBound(b[bo..bo + nb]);
    WindowTop(low0, low, top, r, x, p, w, q, v);
    SetTop(a, o, nb, x);
    if x > top {
      q, tries := AddBackLoop(a, o, b, bo, nb, q0, w, v);
    }
  }

  /** The limb above the window tells whether the digit was too large. */
  lemma {:induction false} WindowTop(low0: int, low: int, top: Limb, r: Limb, x: Limb, p: int, w: int, q: int, v: int)
    requires w == low0 + top * p && low0 + r * p == q * v + low && 0 <= low < p && 0 < v < p
    requires x as int == (top - r) % B && 0 <= w < (q + 1) * v
    ensures x > top ==> w < q * v && Deficit(low, x, p, w, q, v)
    ensures x <= top ==> x == 0 && w == q * v + low && low < v
  {
    Subtracted(low0, low, top, r, p, w, q * v);
    WrappedTop(top, r, x);
    if x > top {
      assert p * (top - r) == p * x - p * B;
    } else {
      TopVanishes(low, x, p, w, q, v);
    }
  }

  lemma {:induction false} WrappedTop(top: Limb, r: Limb, x: Limb)
    requires x as int == (top - r) % B
    ensures x > top ==> top < r && x as int == top - r + B
    ensures x <= top ==> x as int == top - r
  {
  }

  method SetTop(a: array<Limb>, o: nat, nb: nat, x: Limb)
    requires o + nb < a.Length
    modifies a
    ensures a[o + nb] == x && Val(a[o..o + nb]) == old(Val(a[o..o + nb]))
    ensures Outside(old(a[..]), a[..], o + nb, o + nb + 1)
  {
    ghost var before := a[o..o + nb];
    a[o + nb] := x;
    assert a[o..o + nb] == before;
  }

  // ---------- schoolbook division ----------

  ghost predicate QuotRem(a: int, v: int, q: int, r: int) {
    a == q * v + r && 0 <= r < v
  }

  /** The guess of one digit, by reciprocal when one was prepared. */
  method GuessDigit(u1: Limb, u0: Limb, b1: Limb, b1_inv: Limb) returns (q: Limb)
    requires b1 >= HALF && (b1_inv != 0 ==> b1_inv == Udiv1normInit(b1))
    ensures q == Guess(u1, u0, b1)
  {
    hide Udiv1normInit;
    var r: Limb;
    if u1 >= b1 {
      q := B - 1;
    } else if b1_inv != 0 {
      q, r := Udiv1norm(u1, u0, b1, b1_inv);
      GuessUnique(u1, u0, b1, q, r);
    } else {
      q, r := DivRem(u1, u0, b1);
      GuessUnique(u1, u0, b1, q, r);
    }
  }

  lemma {:induction false} GuessUnique(u1: Limb, u0: Limb, b1: Limb, q: int, r: int)
    requires b1 >= HALF && u1 < b1 && u1 * B + u0 == q * b1 + r && 0 <= r < b1
    ensures q == Guess(u1, u0, b1)
  {
    hide Guess;
    var g := Guess(u1, u0, b1);
    assert (g + 1) * b1 == g * b1 + b1;
    UniqueQuotient(b1, g, u1 * B + u0 - g * b1, q, r);
  }

  /** A window of nb + 1 limbs and a divisor, seen through their leading limbs. */
  lemma {:induction false} LeadingLimbs(a: seq<Limb>, o: nat, b: seq<Limb>, bo: nat, nb: nat)
    requires nb >= 2 && o + nb < |a| && bo + nb <= |b|
    ensures (a[o + nb] * B + a[o + nb - 1]) * Pow(nb - 1) <= Val(a[o..o + nb + 1])
          < (a[o + nb] * B + a[o + nb - 1] + 1) * Pow(nb - 1)
    ensures b[bo + nb - 1] * Pow(nb - 1) <= Val(b[bo..bo + nb]) < (b[bo + nb - 1] + 1) * Pow(nb - 1)
  {
    hide Val, Pow;
    ValSnoc(a, o, o + nb);
    ValSnoc(a, o, o + nb - 1);
    ValBound(a[o..o + nb - 1]);
    ValSnoc(b, bo, bo + nb - 1);
    ValBound(b[bo..bo + nb - 1]);
    PowStep(nb);
    TwoTop(a[o + nb], a[o + nb - 1], Pow(nb - 1));
    assert (b[bo + nb - 1] + 1) * Pow(nb - 1) == b[bo + nb - 1] * Pow(nb - 1) + Pow(nb - 1);
  }

  lemma {:induction false} TwoTop(u1: int, u0: int, p: int)
    ensures (u1 * B + u0) * p == u0 * p + u1 * (B * p)
    ensures (u1 * B + u0 + 1) * p == u0 * p + u1 * (B * p) + p
  {
  }

  /** A normalized divisor is at least half of B^nb. */
  lemma {:induction false} Normalized(b: seq<Limb>, bo: nat, nb: nat)
    requires nb >= 1 && bo + nb <= |b| && b[bo + nb - 1] >= HALF
    ensures Pow(nb) <= 2 * Val(b[bo..bo + nb])
  {
    hide Val, Pow;
    ValSnoc(b, bo, bo + nb - 1);
    PowStep(nb);
    MulMono(HALF, b[bo + nb - 1], Pow(nb - 1));
  }

  /** The first digit is 0 or 1: compare the leading limbs, subtract if they are not smaller. */
  method FirstDigit(a: array<Limb>, ao: nat, n: nat, b: array<Limb>, bo: nat, nb: nat) returns (q: Limb)
    requires nb >= 1 && ao + n + nb <= a.Length && bo + nb <= b.Length && a != b
    requires b[bo + nb - 1] >= HALF
    modifies a
    ensures q <= 1
    ensures old(Val(a[ao + n..ao + n + nb])) == q * Val(b[bo..bo + nb]) + Val(a[ao + n..ao + n + nb])
    ensures Val(a[ao + n..ao + n + nb]) < Val(b[bo..bo + nb])
    ensures Outside(old(a[..]), a[..], ao + n, ao + n + nb)
  {
    hide Val, Pow;
    var o := ao + n;
    ValBound(a[o..o + nb]);
    ValBound(b[bo..bo + nb]);
    Normalized(b[..], bo, nb);
    q := 1;
    var j := nb;
    while j > 0
      invariant 0 <= j <= nb && q == 1
      invariant a[o + j..o + nb] == b[bo + j..bo + nb]
    {
      j := j - 1;
      if a[o + j] != b[bo + j] {
        if a[o + j] < b[bo + j] {
          CompareAt(a[..], o, b[..], bo, j, nb);
          q := 0;
        } else {
          CompareAt(b[..], bo, a[..], o, j, nb);
        }
        break;
      }
      assert a[o + j..o + nb] == [a[o + j]] + a[o + j + 1..o + nb];
      assert b[bo + j..bo + nb] == [b[bo + j]] + b[bo + j + 1..bo + nb];
    }
    if q != 0 {
      ghost var before := Val(a[o..o + nb]);
      var k := MpSub(a, o, a, o, b, bo, nb, 0);
      ValBound(a[o..o + nb]);
      NoBorrowOut(Val(a[o..o + nb]), Val(b[bo..bo + nb]), before, k, Pow(nb));
    }
  }

  lemma {:induction false} NoBorrowOut(r: int, v: int, a: int, k: int, p: int)
    requires r + v == a + k * p && v <= a && 0 <= r < p && 0 <= k <= 1 && v >= 0
    requires a - v < p
    ensures k == 0
  {
  }

  /** Invariant of the digit loop: low limbs, window of nb limbs, and the digits found so far. */
  ghost predicate Partial(a0: int, v: int, a: seq<Limb>, ao: nat, q: seq<Limb>, qo: nat, i: nat, n: nat, nb: nat)
    requires i <= n && ao + n + nb <= |a| && qo + n < |q|
  {
    && a0 == Val(a[ao..ao + i]) + Pow(i) * Val(a[ao + i..ao + i + nb]) + (v * Pow(i)) * Val(q[qo + i..qo + n + 1])
    && Val(a[ao + i..ao + i + nb]) < v
  }

  lemma {:induction false} PartialStart(a: seq<Limb>, a': seq<Limb>, ao: nat, q: seq<Limb>, qo: nat, n: nat, nb: nat, v: int)
    requires ao + n + nb <= |a| && qo + n < |q| && Outside(a, a', ao + n, ao + n + nb)
    requires Val(a[ao + n..ao + n + nb]) == q[qo + n] * v + Val(a'[ao + n..ao + n + nb])
    requires Val(a'[ao + n..ao + n + nb]) < v
    ensures Partial(Val(a[ao..ao + n + nb]), v, a', ao, q, qo, n, n, nb)
  {
    hide Val, Pow;
    ValSplit(a, ao, ao + n, ao + n + nb);
    ValOne(q, qo + n);
    assert a[ao..ao + n] == a'[ao..ao + n];
  }

  lemma {:induction false} PartialStep(a0: int, v: int, a: seq<Limb>, a': seq<Limb>, ao: nat, q: seq<Limb>, q': seq<Limb>, qo: nat,
                    i: nat, n: nat, nb: nat)
    requires i < n && ao + n + nb <= |a| && qo + n < |q|
    requires Partial(a0, v, a, ao, q, qo, i + 1, n, nb)
    requires Outside(a, a', ao + i, ao + i + nb + 1) && Outside(q, q', qo + i, qo + i + 1)
    requires Val(a[ao + i..ao + i + nb + 1]) == q'[qo + i] * v + Val(a'[ao + i..ao + i + nb])
    requires Val(a'[ao + i..ao + i + nb]) < v
    ensures Partial(a0, v, a', ao, q', qo, i, n, nb)
  {
    hide Val, Pow;
    ValSnoc(a, ao, ao + i);
    ValCons(a, ao + i, ao + i + nb + 1);
    ValCons(q', qo + i, qo + n + 1);
    PowStep(i + 1);
    assert a[ao..ao + i] == a'[ao..ao + i];
    assert q[qo + i + 1..qo + n + 1] == q'[qo + i + 1..qo + n + 1];
    LowerWindow(Val(a[ao..ao + i]), a[ao + i], Pow(i), Val(a[ao + i + 1..ao + i + 1 + nb]));
    DigitStep(a0, Val(a[ao..ao + i]), Pow(i), Val(a[ao + i..ao + i + nb + 1]), v,
              Val(q[qo + i + 1..qo + n + 1]), q'[qo + i], Val(a'[ao + i..ao + i + nb]));
  }

  lemma {:induction false} LowerWindow(low: int, x: int, p: int, w: int)
    ensures low + x * p + (B * p) * w == low + p * (x + B * w)
  {
  }

  /** Guess, multiply-subtract and correct one digit. */
  method NextDigit(q: array<Limb>, qo: nat, a: array<Limb>, ao: nat, b: array<Limb>, bo: nat, nb: nat, i: nat, b1_inv: Limb)
    requires nb >= 2 && ao + i + nb < a.Length && bo + nb <= b.Length && qo + i < q.Length
    requires q != a && q != b && a != b
    requires b[bo + nb - 1] >= HALF
    requires b1_inv != 0 ==> b1_inv == Udiv1normInit(b[bo + nb - 1])
    requires Val(a[ao + i + 1..ao + i + nb + 1]) < Val(b[bo..bo + nb])
    modifies q, a
    ensures old(Val(a[ao + i..ao + i + nb + 1])) == q[qo + i] * Val(b[bo..bo + nb]) + Val(a[ao + i..ao + i + nb])
    ensures Val(a[ao + i..ao + i + nb]) < Val(b[bo..bo + nb])
    ensures Outside(old(a[..]), a[..], ao + i, ao + i + nb + 1) && Outside(old(q[..]), q[..], qo + i, qo + i + 1)
  {
    hide Val, Pow, Guess, Udiv1normInit;
    var o := ao + i;
    ghost var v, w := Val(b[bo..bo + nb]), Val(a[o..o + nb + 1]);
    ValCons(a[..], o, o + nb + 1);
    LeadingLimbs(a[..], o, b[..], bo, nb);
    var d := GuessDigit(a[o + nb], a[o + nb - 1], b[bo + nb - 1], b1_inv);
    GuessBounds(a[o + nb], a[o + nb - 1], b[bo + nb - 1], d, Pow(nb - 1), w, v);
    ghost var tries;
    d, tries := SubtractDigit(a, o, b, bo, nb, d, w, v);
    q[qo + i] := d;
  }

  // ---------- division, reciprocal and division by reciprocal ----------

  function Min(x: nat, y: nat): nat { if x <= y then x else y }

  predicate Operands(q: array<Limb>, qo: nat, a: array<Limb>, ao: nat, na: nat, b: array<Limb>, bo: nat, nb: nat)
    reads b
  {
    && 1 <= nb <= na && ao + na <= a.Length && bo + nb <= b.Length && qo + na - nb < q.Length
    && q != a && q != b && a != b
    && b[bo + nb - 1] >= HALF
  }

  /** The highest of the na - nb + 1 quotient limbs is 0 or 1. */
  lemma {:induction false} TopQuotientLimb(a: int, v: int, q: seq<Limb>, qo: nat, n: nat, na: nat, nb: nat)
    requires qo + n < |q| && na == n + nb && 0 <= a < Pow(na) && Pow(nb) <= 2 * v
    requires Val(q[qo..qo + n + 1]) * v <= a
    ensures q[qo + n] <= 1
  {
    hide Val, Pow;
    ValSnoc(q, qo, qo + n);
    PowAdd(n, nb);
    TwoTooMany(Val(q[qo..qo + n]), q[qo + n], Pow(n), v, Pow(nb));
  }

  lemma {:induction false} TwoTooMany(low: int, x: int, p: int, v: int, pb: int)
    requires low >= 0 && p >= 1 && v >= 0 && pb <= 2 * v
    ensures x >= 2 ==> p * pb <= (low + x * p) * v
  {
    if x >= 2 {
      MulMono(2, x, p);
      MulMono(2 * p, low + x * p, v);
      MulMono(pb, 2 * v, p);
    }
  }

  lemma {:induction false} PartialDone(a0: int, v: int, a: seq<Limb>, ao: nat, q: seq<Limb>, qo: nat, n: nat, nb: nat)
    requires ao + n + nb <= |a| && qo + n < |q| && Partial(a0, v, a, ao, q, qo, 0, n, nb)
    ensures QuotRem(a0, v, Val(q[qo..qo + n + 1]), Val(a[ao..ao + nb]))
  {
    hide Val;
    Empty(a, ao);
    assert (v * 1) * Val(q[qo..qo + n + 1]) == Val(q[qo..qo + n + 1]) * v;
  }

  lemma {:induction false} PartialSmall(a0: int, v: int, a: seq<Limb>, ao: nat, q: seq<Limb>, qo: nat, i: nat, n: nat, nb: nat)
    requires i < n && ao + n + nb <= |a| && qo + n < |q| && Partial(a0, v, a, ao, q, qo, i + 1, n, nb)
    ensures Val(a[ao + i + 1..ao + i + nb + 1]) < v
  {
  }

  /** The digit-by-digit path of mp_divnorm. */
  method Schoolbook(q: array<Limb>, qo: nat, a: array<Limb>, ao: nat, na: nat, b: array<Limb>, bo: nat, nb: nat)
    requires Operands(q, qo, a, ao, na, b, bo, nb) && nb >= 2
    modifies q, a
    ensures QuotRem(old(Val(a[ao..ao + na])), Val(b[bo..bo + nb]), Val(q[qo..qo + na - nb + 1]), Val(a[ao..ao + nb]))
    ensures q[qo + na - nb] <= 1
    ensures Outside(old(a[..]), a[..], ao, ao + na) && Outside(old(q[..]), q[..], qo, qo + na - nb + 1)
  {
    hide Val, Pow, Guess, Udiv1normInit, Partial;
    ghost var a0, v := Val(a[ao..ao + na]), Val(b[bo..bo + nb]);
    var b1, n := b[bo + nb - 1], na - nb;
    var b1_inv: Limb := 0;
    if n >= UDIV1NORM_THRESHOLD { b1_inv := Udiv1normInit(b1); }
    ghost var A := a[..];
    var d := FirstDigit(a, ao, n, b, bo, nb);
    q[qo + n] := d;
    PartialStart(A, a[..], ao, q[..], qo, n, nb, v);
    var i := n;
    while i > 0
      invariant 0 <= i <= n
      invariant Outside(A, a[..], ao, ao + na) && Outside(old(q[..]), q[..], qo, qo + n + 1)
      invariant q[qo + n] <= 1
      invariant Partial(a0, v, a[..], ao, q[..], qo, i, n, nb)
    {
      i := i - 1;
      ghost var A1, Q1 := a[..], q[..];
      PartialSmall(a0, v, A1, ao, Q1, qo, i, n, nb);
      NextDigit(q, qo, a, ao, b, bo, nb, i, b1_inv);
      PartialStep(a0, v, A1, a[..], ao, Q1, q[..], qo, i, n, nb);
    }
    PartialDone(a0, v, a[..], ao, q[..], qo, n, nb);
  }

  method MpDivnorm(q: array<Limb>, qo: nat, a: array<Limb>, ao: nat, na: nat, b: array<Limb>, bo: nat, nb: nat)
    requires Operands(q, qo, a, ao, na, b, bo, nb)
    modifies q, a
    ensures QuotRem(old(Val(a[ao..ao + na])), Val(b[bo..bo + nb]), Val(q[qo..qo + na - nb + 1]), Val(a[ao..ao + nb]))
    ensures q[qo + na - nb] <= 1
    ensures Outside(old(a[..]), a[..], ao, ao + na) && Outside(old(q[..]), q[..], qo, qo + na - nb + 1)
    decreases if Min(na - nb, nb) >= DIVNORM_LARGE_THRESHOLD then 3 else 0, na
  {
    hide Val, Pow, Guess, Udiv1normInit;
    ghost var a0, v := Val(a[ao..ao + na]), Val(b[bo..bo + nb]);
    ValBound(a[ao..ao + na]);
    Normalized(b[..], bo, nb);
    var b1, n := b[bo + nb - 1], na - nb;
    if nb == 1 {
      var r := MpDiv1norm(q, qo, a, ao, na, b1, 0);
      a[ao] := r;
      ValOne(b[..], bo);
      ValOne(a[..], ao);
      TopQuotientLimb(a0, v, q[..], qo, n, na, nb);
      return;
    }
    if Min(n, nb) >= DIVNORM_LARGE_THRESHOLD {
      MpDivnormLarge(q, qo, a, ao, na, b, bo, nb);
      TopQuotientLimb(a0, v, q[..], qo, n, na, nb);
      return;
    }
    Schoolbook(q, qo, a, ao, na, b, bo, nb);
  }

  // ---------- Newton reciprocal ----------

  lemma {:induction false} SomeNonzero(s: seq<Limb>, i: nat)
    requires i < |s| && s[i] != 0
    ensures Val(s) > 0
  {
    if i > 0 { SomeNonzero(s[1..], i - 1); }
  }

  method MpScanNz(a: array<Limb>, ao: nat, n: nat) returns (nz: bool)
    requires ao + n <= a.Length
    ensures nz <==> Val(a[ao..ao + n]) != 0
  {
    hide Val;
    Empty(a[..], ao);
    for i := 0 to n
      invariant Val(a[ao..ao + i]) == 0
    {
      if a[ao + i] != 0 {
        SomeNonzero(a[ao..ao + n], i);
        return true;
      }
      ValSnoc(a[..], ao, ao + i);
    }
    return false;
  }

  method Copy(r: array<Limb>, ro: nat, a: array<Limb>, ao: nat, n: nat)
    requires ro + n <= r.Length && ao + n <= a.Length && r != a
    modifies r
    ensures r[ro..ro + n] == a[ao..ao + n]
    ensures Outside(old(r[..]), r[..], ro, ro + n)
  {
    for i := 0 to n
      invariant r[ro..ro + i] == a[ao..ao + i]
      invariant Outside(old(r[..]), r[..], ro, ro + i)
    {
      ghost var before := r[ro..ro + i];
      r[ro + i] := a[ao + i];
      assert r[ro..ro + i + 1] == before + [a[ao + i]];
    }
  }

  method Clear(r: array<Limb>, ro: nat, n: nat)
    requires ro + n <= r.Length
    modifies r
    ensures Val(r[ro..ro + n]) == 0
    ensures Outside(old(r[..]), r[..], ro, ro + n)
  {
    hide Val;
    Empty(r[..], ro);
    for i := 0 to n
      invariant Val(r[ro..ro + i]) == 0
      invariant Outside(old(r[..]), r[..], ro, ro + i)
    {
      ghost var before := r[ro..ro + i];
      r[ro + i] := 0;
      assert r[ro..ro + i] == before;
      ValSnoc(r[..], ro, ro + i);
    }
  }

  ghost predicate RecipArgs(r: array<Limb>, ro: nat, a: array<Limb>, ao: nat, n: nat)
    reads a
  {
    n >= 1 && ro + n < r.Length && ao + n <= a.Length && r != a && a[ao + n - 1] >= HALF
  }

  /** A reciprocal lies in [B^n, 2 B^n), so its top limb is 1. */
  lemma {:induction false} ReciprocalRange(a: int, x: int, p: int)
    requires IsReciprocal(a, x, p * p) && p <= 2 * a && 0 < a < p && x >= 0 && p >= 2
    ensures p <= x < 2 * p
  {
    if x >= 2 * p { MulMono(2 * p, x, a); MulMono(p, 2 * a, p); }
    MulMono(a, p - 1, p + 1);
    if x < p { MulMono(x + 2, p + 1, a); }
  }

  lemma {:induction false} TopIsOne(r: seq<Limb>, ro: nat, n: nat)
    requires ro + n < |r| && Pow(n) <= Val(r[ro..ro + n + 1]) < 2 * Pow(n)
    ensures r[ro + n] == 1 && Val(r[ro..ro + n + 1]) == Val(r[ro..ro + n]) + Pow(n)
  {
    hide Val, Pow;
    ValSnoc(r, ro, ro + n);
    ValBound(r[ro..ro + n]);
    if r[ro + n] >= 2 { MulMono(2, r[ro + n], Pow(n)); }
  }

  method RecipBase(r: array<Limb>, ro: nat, a: array<Limb>, ao: nat, n: nat)
    requires RecipArgs(r, ro, a, ao, n) && n <= 2
    modifies r
    ensures IsReciprocal(Val(a[ao..ao + n]), Val(r[ro..ro + n + 1]), Pow(n) * Pow(n))
    ensures Outside(old(r[..]), r[..], ro, ro + n + 1)
    decreases 1, n, 0
  {
    hide Val, Pow;
    var tabu := new Limb[2 * n + 1];
    var tabt := new Limb[n + 2];
    ghost var v, p := Val(a[ao..ao + n]), Pow(n);
    Clear(tabu, 0, 2 * n);
    ghost var before := tabu[0..2 * n];
    tabu[2 * n] := 1;
    assert tabu[0..2 * n] == before;
    ValSnoc(tabu[..], 0, 2 * n);
    PowAdd(n, n);
    MpDivnorm(tabt, 0, tabu, 0, 2 * n + 1, a, ao, n);
    ghost var q, rem := Val(tabt[0..n + 2]), Val(tabu[0..n]);
    Normalized(a[..], ao, n);
    ValBound(a[ao..ao + n]);
    TopDigitZero(tabt[..], n, v, q, rem, p);
    Copy(r, ro, tabt, 0, n + 1);
    assert r[ro..ro + n + 1] == tabt[0..n + 1];
    var nz := MpScanNz(tabu, 0, n);
    if !nz {
      var k := MpSubUi(r, ro, 1, n + 1);
      ValBound(r[ro..ro + n + 1]);
      NoBorrowOut(Val(r[ro..ro + n + 1]), 1, q, k, Pow(n + 1));
    }
    CeilMinusOne(v, q, rem, p * p);
  }

  lemma {:induction false} CeilMinusOne(v: int, q: int, rem: int, s: int)
    requires v > 0 && s == q * v + rem && 0 <= rem < v
    ensures rem == 0 ==> IsReciprocal(v, q - 1, s)
    ensures rem != 0 ==> IsReciprocal(v, q, s)
  {
    assert v * (q - 1) == q * v - v && v * (q + 1) == q * v + v && v * (q + 2) == q * v + 2 * v;
  }

  /** The quotient B^(2n) / a needs only n + 1 of its n + 2 limbs. */
  lemma {:induction false} TopDigitZero(t: seq<Limb>, n: nat, v: int, q: int, rem: int, p: int)
    requires |t| == n + 2 && q == Val(t[0..n + 2]) && p == Pow(n) && p <= 2 * v && v > 0
    requires p * p == q * v + rem && rem >= 0
    ensures q == Val(t[0..n + 1])
  {
    hide Val, Pow;
    ValSnoc(t, 0, n + 1);
    PowStep(n + 1);
    QuotientAtMost(q, v, p, rem);
    if t[n + 1] >= 1 { MulMono(1, t[n + 1], Pow(n + 1)); }
  }

  lemma {:induction false} QuotientAtMost(q: int, v: int, p: int, rem: int)
    requires p * p == q * v + rem && rem >= 0 && p <= 2 * v && v > 0 && p >= 1
    ensures q <= 2 * p
  {
    if q > 2 * p { MulMono(2 * p + 1, q, v); MulMono(p, 2 * v, p); }
  }

  method MpRecip(r: array<Limb>, ro: nat, a: array<Limb>, ao: nat, n: nat)
    requires RecipArgs(r, ro, a, ao, n)
    modifies r
    ensures IsReciprocal(Val(a[ao..ao + n]), Val(r[ro..ro + n + 1]), Pow(n) * Pow(n))
    ensures r[ro + n] == 1
    ensures Outside(old(r[..]), r[..], ro, ro + n + 1)
    decreases 1, n, 1
  {
    hide Val, Pow;
    if n <= 2 {
      RecipBase(r, ro, a, ao, n);
    } else {
      RecipNewton(r, ro, a, ao, n);
    }
    Normalized(a[..], ao, n);
    ValBound(a[ao..ao + n]);
    PowStep(n);
    ReciprocalRange(Val(a[ao..ao + n]), Val(r[ro..ro + n + 1]), Pow(n));
    TopIsOne(r[..], ro, n);
  }

  /** Takes one off the half-size estimate and a off the product. */
  method LowerOnce(r: array<Limb>, xo: nat, h: nat, a: array<Limb>, ao: nat, n: nat, t: array<Limb>, ghost x: int)
    requires xo + h < r.Length && ao + n <= a.Length && t.Length == n + h + 1 && r != a && t != r && t != a
    requires x == Val(r[xo..xo + h + 1]) && Pow(h) <= x
    requires Val(t[0..n + h + 1]) == Val(a[ao..ao + n]) * x && t[n + h] != 0
    modifies r, t
    ensures Val(t[0..n + h + 1]) == Val(a[ao..ao + n]) * (x - 1)
    ensures Val(r[xo..xo + h + 1]) == x - 1 && Pow(h) <= x - 1
    ensures Pow(n + h) <= Val(a[ao..ao + n]) * x
    ensures Outside(old(r[..]), r[..], xo, xo + h + 1)
  {
    hide Val, Pow;
    ghost var v := Val(a[ao..ao + n]);
    ValSnoc(t[..], 0, n + h);
    EstimateStillLarge(v, x, Val(t[0..n + h]), t[n + h], Pow(n), Pow(h), Pow(n + h), n, h, a[..], ao);
    var c := MpSubUi(r, xo, 1, h + 1);
    ValBound(r[xo..xo + h + 1]);
    NoBorrowOut(Val(r[xo..xo + h + 1]), 1, x, c, Pow(h + 1));
    SubtractOperand(t, a, ao, n, h);
    OneLess(v, x);
  }

  lemma {:induction false} OneLess(v: int, x: int)
    ensures v * (x - 1) == v * x - v
  {
  }

  /** Lowers the half-size estimate until a * x < B^(n+h); t holds the product throughout. */
  method LowerEstimate(r: array<Limb>, xo: nat, h: nat, a: array<Limb>, ao: nat, n: nat, t: array<Limb>, ghost x0: int)
    requires xo + h < r.Length && ao + n <= a.Length && t.Length == n + h + 1 && r != a && t != r && t != a
    requires x0 == Val(r[xo..xo + h + 1]) && Pow(h) <= x0
    requires Val(t[0..n + h + 1]) == Val(a[ao..ao + n]) * x0
    modifies r, t
    ensures Val(t[0..n + h + 1]) == Val(a[ao..ao + n]) * Val(r[xo..xo + h + 1]) < Pow(n + h)
    ensures Pow(h) <= Val(r[xo..xo + h + 1]) <= x0
    ensures Val(r[xo..xo + h + 1]) == x0
         || Pow(n + h) <= Val(a[ao..ao + n]) * (Val(r[xo..xo + h + 1]) + 1)
    ensures Outside(old(r[..]), r[..], xo, xo + h + 1)
  {
    hide Val, Pow;
    ghost var v, x := Val(a[ao..ao + n]), x0;
    while t[n + h] != 0
      invariant x == Val(r[xo..xo + h + 1]) && Pow(h) <= x <= x0
      invariant Val(t[0..n + h + 1]) == v * x
      invariant x == x0 || Pow(n + h) <= v * (x + 1)
      invariant Outside(old(r[..]), r[..], xo, xo + h + 1)
      decreases x
    {
      LowerOnce(r, xo, h, a, ao, n, t, x);
      x := x - 1;
    }
    ValSnoc(t[..], 0, n + h);
    ValBound(t[0..n + h]);
  }

  lemma {:induction false} EstimateStillLarge(v: int, x: int, low: int, top: int, pn: int, ph: int, pnh: int, n: nat, h: nat, a: seq<Limb>, ao: nat)
    requires ao + n <= |a| && v == Val(a[ao..ao + n]) && pn == Pow(n) && ph == Pow(h) && pnh == Pow(n + h)
    requires v * x == low + top * pnh && low >= 0 && top >= 1 && ph <= x
    ensures ph < x && v <= v * x && pnh <= v * x
  {
    hide Val, Pow;
    ValBound(a[ao..ao + n]);
    PowAdd(n, h);
    MulMono(1, top, pnh);
    EstimateProduct(v, x, pn, ph);
  }

  lemma {:induction false} EstimateProduct(v: int, x: int, pn: int, ph: int)
    requires 0 <= v < pn && 1 <= ph <= x && pn * ph <= v * x
    ensures ph < x && v <= v * x
  {
    if x == ph { MulMono(v, pn - 1, ph); }
    MulMono(1, x, v);
  }

  /** tabt -= taba over n limbs, the borrow running into the h + 1 higher limbs. */
  method SubtractOperand(t: array<Limb>, a: array<Limb>, ao: nat, n: nat, h: nat)
    requires t.Length == n + h + 1 && ao + n <= a.Length && t != a
    requires Val(a[ao..ao + n]) <= Val(t[0..n + h + 1])
    modifies t
    ensures Val(t[0..n + h + 1]) == old(Val(t[0..n + h + 1])) - Val(a[ao..ao + n])
  {
    hide Val, Pow;
    ghost var T := t[..];
    ValSplit(T, 0, n, n + h + 1);
    var c := MpSub(t, 0, t, 0, a, ao, n, 0);
    assert t[n..n + h + 1] == T[n..n + h + 1];
    ghost var low := t[0..n];
    var c' := MpSubUi(t, n, c, h + 1);
    assert t[0..n] == low;
    ValSplit(t[..], 0, n, n + h + 1);
    ValBound(t[n..n + h + 1]);
    ValBound(t[0..n]);
    BorrowChain(Val(t[0..n]), Val(T[0..n]), Val(a[ao..ao + n]), c, c', Val(t[n..n + h + 1]), Val(T[n..n + h + 1]), Pow(n), Pow(h + 1));
  }

  lemma {:induction false} BorrowChain(low: int, low0: int, v: int, c: int, c': int, high: int, high0: int, p: int, ph: int)
    requires low + v == low0 + c * p && high + c == high0 + c' * ph && 0 <= c' <= 1
    requires 0 <= low < p && 0 <= high < ph && v <= low0 + p * high0 && p >= 1
    ensures low + p * high == low0 + p * high0 - v
  {
    assert p * high == p * high0 + c' * (ph * p) - c * p;
    MulMono(high, ph - 1, p);
    assert (ph - 1) * p == ph * p - p;
  }

  /** T := B^(n+h) - T by negating all limbs and bumping the top one. */
  method Complement(t: array<Limb>, m: nat)
    requires t.Length == m + 1 && 0 < Val(t[0..m + 1]) < Pow(m)
    modifies t
    ensures Val(t[0..m + 1]) == Pow(m) - old(Val(t[0..m + 1]))
  {
    hide Val, Pow;
    ghost var v := Val(t[0..m + 1]);
    var k := MpNeg(t, 0, t, 0, m + 1, 0);
    ValSnoc(t[..], 0, m);
    ValBound(t[0..m]);
    PowStep(m + 1);
    NegatedTop(Val(t[0..m]), t[m], Pow(m), v, k);
    ghost var low := t[0..m];
    t[m] := (t[m] + 1) % B;
    assert t[0..m] == low;
    ValSnoc(t[..], 0, m);
  }

  lemma {:induction false} NegatedTop(low: int, top: int, p: int, v: int, k: int)
    requires low + top * p + v == k * (B * p) && 0 <= low < p && 0 < v < p && 0 <= top < B && 0 <= k <= 1
    ensures top == B - 1 && low == p - v
  {
    MulMono(0, top, p);
    if top < B - 1 { MulMono(top, B - 2, p); }
  }

  lemma {:induction false} Joined(r: seq<Limb>, ro: nat, l: nat, h: nat)
    requires ro + l + h < |r| && r[ro + l + h] == 1
    ensures Val(r[ro..ro + l + h + 1]) == Val(r[ro..ro + l]) + Pow(l) * Val(r[ro + l..ro + l + h]) + Pow(l) * Pow(h)
  {
    hide Val, Pow;
    ValSplit(r, ro, ro + l, ro + l + h);
    ValSnoc(r, ro, ro + l + h);
    PowAdd(l, h);
  }

  /** X = xh * B^l + M: copy the low l limbs of M and add its next h limbs to xh in place. */
  method Assemble(r: array<Limb>, ro: nat, l: nat, h: nat, u: array<Limb>, k: nat, ghost x: int, ghost m: int)
    requires ro + l + h < r.Length && k + l + h <= u.Length && r != u
    requires x == Val(r[ro + l..ro + l + h + 1]) && Pow(h) <= x
    requires m == Val(u[k..k + l + h]) && x * Pow(l) + m < 2 * Pow(l + h)
    modifies r
    ensures Val(r[ro..ro + l + h + 1]) == x * Pow(l) + m
    ensures Outside(old(r[..]), r[..], ro, ro + l + h + 1)
  {
    hide Val, Pow;
    PowAdd(l, h);
    HalfRange(x, Pow(l), Pow(h), m);
    TopIsOne(r[..], ro + l, h);
    ghost var R0 := r[..];
    Copy(r, ro, u, k, l);
    assert r[ro + l..ro + l + h] == R0[ro + l..ro + l + h];
    assert r[ro + l + h] == 1;
    ghost var R1 := r[..];
    var c := MpAdd(r, ro + l, r, ro + l, u, k + l, h, 0);
    assert r[ro..ro + l] == R1[ro..ro + l] == u[k..k + l];
    assert u[..] == old(u[..]);
    AssembleEnd(r[..], u[..], ro, l, h, k, x, m, c);
  }

  lemma {:induction false} AssembleEnd(r: seq<Limb>, u: seq<Limb>, ro: nat, l: nat, h: nat, k: nat, x: int, m: int, c: int)
    requires ro + l + h < |r| && k + l + h <= |u| && r[ro + l + h] == 1 && r[ro..ro + l] == u[k..k + l] && 0 <= c <= 1
    requires Val(r[ro + l..ro + l + h]) + c * Pow(h) == x - Pow(h) + Val(u[k + l..k + l + h])
    requires m == Val(u[k..k + l + h]) && x * Pow(l) + m < 2 * Pow(l + h)
    ensures Val(r[ro..ro + l + h + 1]) == x * Pow(l) + m
  {
    hide Val, Pow;
    PowAdd(l, h);
    Joined(r, ro, l, h);
    ValSplit(u, k, k + l, k + l + h);
    AssembleIdentity(x, Val(u[k..k + l]), Val(u[k + l..k + l + h]), Val(r[ro + l..ro + l + h]), c, Pow(l), Pow(h), m);
  }

  lemma {:induction false} HalfRange(x: int, pl: int, ph: int, m: int)
    requires x * pl + m < 2 * (pl * ph) && m >= 0 && pl >= 1
    ensures x < 2 * ph
  {
    if x >= 2 * ph { MulMono(2 * ph, x, pl); }
  }

  lemma {:induction false} AssembleIdentity(x: int, m0: int, m1: int, high: int, c: int, pl: int, ph: int, m: int)
    requires m == m0 + pl * m1 && high + c * ph == (x - ph) + m1 && 0 <= c <= 1
    requires m0 >= 0 && high >= 0 && pl >= 1
    requires x * pl + m < 2 * (pl * ph)
    ensures m0 + pl * high + pl * ph == x * pl + m
  {
    assert pl * high == pl * (x - ph + m1 - c * ph) == pl * x - pl * ph + pl * m1 - c * (pl * ph);
    MulMono(0, high, pl);
  }

  lemma {:induction false} ReciprocalAtLeast(r: seq<Limb>, ro: nat, h: nat)
    requires ro + h < |r| && r[ro + h] == 1
    ensures Pow(h) <= Val(r[ro..ro + h + 1])
  {
    hide Val, Pow;
    ValSnoc(r, ro, ro + h);
  }

  lemma {:induction false} ErrorBound(a: seq<Limb>, ao: nat, l: nat, h: nat, v: int, x0: int, x: int, e: int)
    requires ao + l + h <= |a| && v == Val(a[ao..ao + l + h]) && x0 >= 0 && x >= 0
    requires IsReciprocal(Val(a[ao + l..ao + l + h]), x0, Pow(h) * Pow(h))
    requires e == Pow(l + h + h) - v * x && v > 0
    requires x == x0 || Pow(l + h + h) <= v * (x + 1)
    ensures Pow(l + h + h) == Pow(l) * (Pow(h) * Pow(h))
    ensures e < 2 * v
  {
    hide Val, Pow;
    PowAdd(l, h + h);
    PowAdd(h, h);
    ValSplit(a, ao, ao + l, ao + l + h);
    if x == x0 {
      ErrorUnchanged(v, Val(a[ao + l..ao + l + h]), Val(a[ao..ao + l]), Pow(l), Pow(h), x, e);
    } else {
      assert v * (x + 1) == v * x + v;
    }
  }

  /** Dropping the low limbs of the error and of its product with x. */
  lemma {:induction false} TruncatedProduct(e: int, tl: int, bl: int, tm: int, x: int, ul: int, k: int, m: int, s: int)
    requires e == tl + bl * tm && 0 <= tl < bl && x >= 1
    requires tm * x == ul + k * m && 0 <= ul < k && bl * k == s
    ensures m * s <= e * x < (m + 1) * s + bl * x
  {
    MulMono(0, ul, bl);
    MulMono(ul, k, bl);
    MulMono(0, tl, x);
    MulMono(tl + 1, bl, x);
    TruncatedIdentity(e, tl, bl, tm, x, ul, k, m);
  }

  lemma {:induction false} TruncatedIdentity(e: int, tl: int, bl: int, tm: int, x: int, ul: int, k: int, m: int)
    requires e == tl + bl * tm && tm * x == ul + k * m
    ensures e * x == tl * x + ul * bl + m * (bl * k)
    ensures (m + 1) * (bl * k) == m * (bl * k) + k * bl
    ensures (tl + 1) * x == tl * x + x
  {
    assert (bl * tm) * x == bl * (tm * x) == bl * ul + bl * (k * m);
    assert bl * (k * m) == m * (bl * k);
  }

  /** The truncated correction term completes the reciprocal of all n limbs. */
  lemma {:induction false} Correction(a: seq<Limb>, ao: nat, l: nat, h: nat, v: int, x: int, e: int, t: seq<Limb>, u: seq<Limb>, k: nat)
    requires l < h && l <= 2 * h && k == 2 * h - l
    requires ao + l + h <= |a| && v == Val(a[ao..ao + l + h]) && a[ao + l + h - 1] >= HALF
    requires |t| == l + h + h + 1 && |u| == 3 * h + 2 && e == Val(t[0..l + h + h + 1])
    requires Shortfall(e, v, x, l, h)
    requires Val(u[0..3 * h + 2]) == Val(t[l..l + h + h + 1]) * x
    ensures IsReciprocal(v, x * Pow(l) + Val(u[k..k + l + h]), Pow(l + h) * Pow(l + h))
    ensures x * Pow(l) + Val(u[k..k + l + h]) < 2 * Pow(l + h)
  {
    hide Val, Pow;
    var bl, bh, m := Pow(l), Pow(h), Val(u[k..3 * h + 2]);
    ValSplit(t, 0, l, l + h + h + 1);
    ValBound(t[0..l]);
    ValSplit(u, 0, k, 3 * h + 2);
    ValBound(u[0..k]);
    PowAdd(l, k);
    PowAdd(h, h);
    PowAdd(l, h);
    TruncatedProduct(e, Val(t[0..l]), bl, Val(t[l..l + h + h + 1]), x, Val(u[0..k]), Pow(k), m, bh * bh);
    Normalized(a, ao, l + h);
    ValBound(a[ao..ao + l + h]);
    PowMono(l + 1, h);
    PowStep(l + 1);
    NewtonUpper(v, x, e, bl, bh, m);
    NewtonLower(v, x, e, bl, bh, m);
    UpperHalfFits(v, x, bl, bh, m);
    ValSplit(u, k, k + l + h, 3 * h + 2);
    ZeroAbove(m, Val(u[k..k + l + h]), Pow(l + h), Val(u[k + l + h..3 * h + 2]));
  }

  lemma {:induction false} UpperHalfFits(v: int, x: int, bl: int, bh: int, m: int)
    requires v * (x * bl + m) < (bl * bh) * (bl * bh) && bl * bh <= 2 * v && bh <= x && bl >= 1 && bh >= 1 && m >= 0
    ensures x * bl + m < 2 * (bl * bh) && m < bl * bh
  {
    var p := bl * bh;
    MulMono(bh, x, bl);
    MulMono(1, bh, bl);
    if x * bl + m >= 2 * p { MulMono(2 * p, x * bl + m, v); MulMono(p, 2 * v, p); }
  }

  lemma {:induction false} ZeroAbove(m: int, low: int, p: int, high: int)
    requires m == low + p * high && m < p && p >= 1 && low >= 0 && high >= 0
    ensures m == low
  {
    if high >= 1 { MulMono(1, high, p); }
  }

  /** e is what v * x lacks of the power, small and positive. */
  ghost predicate Shortfall(e: int, v: int, x: int, l: nat, h: nat) {
    v * x == Pow(l) * (Pow(h) * Pow(h)) - e && 0 < e < 2 * v && Pow(h) <= x
  }

  lemma {:induction false} ShortfallIs(a: seq<Limb>, ao: nat, l: nat, h: nat, v: int, x0: int, x: int, e: int)
    requires ao + l + h <= |a| && v == Val(a[ao..ao + l + h]) && x0 >= x && h >= 1 && l + h >= 1
    requires a[ao + l + h - 1] >= HALF
    requires IsReciprocal(Val(a[ao + l..ao + l + h]), x0, Pow(h) * Pow(h))
    requires e == Pow(l + h + h) - v * x && e > 0 && Pow(h) <= x
    requires x == x0 || Pow(l + h + h) <= v * (x + 1)
    ensures Shortfall(e, v, x, l, h) && 0 < e < Pow(l + h + h)
  {
    hide Val, Pow, IsReciprocal;
    Normalized(a, ao, l + h);
    ErrorBound(a, ao, l, h, v, x0, x, e);
    MulMono(1, x, v);
  }

  /** The first half of the step: the reciprocal of the high limbs, lowered, and its shortfall in t. */
  method RecipStart(r: array<Limb>, ro: nat, a: array<Limb>, ao: nat, n: nat, l: nat, h: nat, t: array<Limb>)
    returns (ghost x: int, ghost e: int)
    requires RecipArgs(r, ro, a, ao, n) && n > 2 && l == (n - 1) / 2 && h == n - l
    requires t.Length == n + h + 1 && t != r && t != a
    modifies r, t
    ensures x == Val(r[ro + l..ro + l + h + 1]) && e == Val(t[0..n + h + 1])
    ensures Shortfall(e, Val(a[ao..ao + n]), x, l, h)
    ensures Outside(old(r[..]), r[..], ro, ro + n + 1)
    decreases 1, n - 1, 5
  {
    hide Val, Pow, IsReciprocal, Shortfall;
    ghost var v := Val(a[ao..ao + n]);
    MpRecip(r, ro + l, a, ao + l, h);
    ghost var x0 := Val(r[ro + l..ro + l + h + 1]);
    ReciprocalAtLeast(r[..], ro + l, h);
    MpMul(t, 0, a, ao, n, r, ro + l, h + 1);
    LowerEstimate(r, ro + l, h, a, ao, n, t, x0);
    x := Val(r[ro + l..ro + l + h + 1]);
    e := Pow(n + h) - v * x;
    ShortfallIs(a[..], ao, l, h, v, x0, x, e);
    Complement(t, n + h);
  }

  method RecipNewton(r: array<Limb>, ro: nat, a: array<Limb>, ao: nat, n: nat)
    requires RecipArgs(r, ro, a, ao, n) && n > 2
    modifies r
    ensures IsReciprocal(Val(a[ao..ao + n]), Val(r[ro..ro + n + 1]), Pow(n) * Pow(n))
    ensures Outside(old(r[..]), r[..], ro, ro + n + 1)
    decreases 1, n, 0
  {
    hide Val, Pow, IsReciprocal, Shortfall;
    var l := (n - 1) / 2;
    var h := n - l;
    var tabt := new Limb[n + h + 1];
    var tabu := new Limb[n + 2 * h - l + 2];
    ghost var v := Val(a[ao..ao + n]);
    ghost var x, e := RecipStart(r, ro, a, ao, n, l, h, tabt);
    MpMul(tabu, 0, tabt, l, n + h + 1 - l, r, ro + l, h + 1);
    var k := 2 * h - l;
    assert k + n == 3 * h;
    ghost var m := Val(tabu[k..k + n]);
    assert Pow(h) <= x by { ShortfallRange(e, v, x, l, h); }
    Correction(a[..], ao, l, h, v, x, e, tabt[..], tabu[..], k);
    Assemble(r, ro, l, h, tabu, k, x, m);
  }

  lemma {:induction false} ShortfallRange(e: int, v: int, x: int, l: nat, h: nat)
    requires Shortfall(e, v, x, l, h)
    ensures Pow(h) <= x
  {
  }

  // ---------- division by reciprocal ----------

  lemma {:induction false} TopFromValue(t: seq<Limb>, n: nat)
    requires n >= 1 && n <= |t| && Pow(n) <= 2 * Val(t[0..n])
    ensures t[n - 1] >= HALF
  {
    hide Val, Pow;
    ValSnoc(t, 0, n - 1);
    ValBound(t[0..n - 1]);
    PowStep(n);
    if t[n - 1] < HALF { MulMono(t[n - 1], HALF - 1, Pow(n - 1)); }
  }

  /** x is close to square / v from below. */
  ghost predicate NearInverse(v: int, x: int, square: int) {
    x * v <= square <= v * (x + 7)
  }

  lemma {:induction false} PaddedInverse(v: int, bt: int, x: int, pn: int, pnn: int, pad: int)
    requires bt == v * pad && pn * pn == pnn * pad && pad >= 1 && v >= 0
    requires IsReciprocal(bt, x, pn * pn)
    ensures NearInverse(v, x, pnn)
  {
    Swap(v, pad, x);
    Swap(v, pad, x + 2);
    Cancel(v * x, pnn, pad);
    Cancel(pnn, v * (x + 2), pad);
    assert v * (x + 7) == v * (x + 2) + 5 * v;
  }

  /** x is close to p^2 / a from below. */
  ghost predicate InverseOf(a: int, x: int, p: int) {
    a * x <= p * p <= a * (x + 2) && 0 <= x <= 2 * p
  }

  lemma {:induction false} InverseExact(p: int)
    requires p >= 1
    ensures InverseOf(p, p, p)
  {
    assert p * (p + 2) == p * p + 2 * p;
  }

  lemma {:induction false} InverseReciprocal(a: int, x: int, p: int)
    requires IsReciprocal(a, x, p * p) && p <= 2 * a && 0 < a < p && x >= 0 && p >= 2
    ensures InverseOf(a, x, p)
  {
    ReciprocalRange(a, x, p);
  }

  lemma {:induction false} TruncatedInverse(v: int, vh: int, vl: int, x: int, pn: int, pnn: int, pt: int)
    requires v == vl + pt * vh && 0 <= vl < pt && pn * pn * pt == pnn
    requires 1 <= pn <= 2 * vh && InverseOf(vh + 1, x, pn)
    ensures NearInverse(v, x, pnn)
  {
    TruncatedDivisor(vh, x, pn, v, pt, vl);
    TruncatedBelow(v, vh + 1, x, pn * pn, pt) by { assert pt * (vh + 1) == pt * vh + pt; }
  }

  lemma {:induction false} TruncatedBelow(v: int, d: int, x: int, square: int, pt: int)
    requires v <= pt * d && d * x <= square && x >= 0 && pt >= 1
    ensures x * v <= square * pt
  {
    MulMono(v, pt * d, x);
    Swap(pt, d, x);
    MulMono(d * x, square, pt);
  }

  /** Approximates B^(n+nb) / b from below: b padded with zeros, or truncated and incremented. */
  method InvertDivisor(inv: array<Limb>, t: array<Limb>, n: nat, b: array<Limb>, bo: nat, nb: nat)
    requires inv.Length == n + 1 && t.Length == 2 * (n + 1) && n >= 1 && nb >= 1 && bo + nb <= b.Length
    requires inv != t && inv != b && t != b && b[bo + nb - 1] >= HALF
    modifies inv, t
    ensures NearInverse(Val(b[bo..bo + nb]), Val(inv[0..n + 1]), Pow(n + nb))
    decreases 1, n, 4
  {
    hide Val, Pow;
    if n >= nb {
      InvertPadded(inv, t, n, b, bo, nb);
    } else {
      InvertTruncated(inv, t, n, b, bo, nb);
    }
  }

  method InvertPadded(inv: array<Limb>, t: array<Limb>, n: nat, b: array<Limb>, bo: nat, nb: nat)
    requires inv.Length == n + 1 && t.Length == 2 * (n + 1) && n >= nb >= 1 && bo + nb <= b.Length
    requires inv != t && inv != b && t != b && b[bo + nb - 1] >= HALF
    modifies inv, t
    ensures NearInverse(Val(b[bo..bo + nb]), Val(inv[0..n + 1]), Pow(n + nb))
    decreases 1, n, 2
  {
    hide Val, Pow, NearInverse, IsReciprocal;
    Clear(t, 0, n - nb);
    ghost var low := t[0..n - nb];
    Copy(t, n - nb, b, bo, nb);
    assert t[0..n - nb] == low;
    assert t[n - nb..n][nb - 1] == b[bo..bo + nb][nb - 1];
    ValSplit(t[..], 0, n - nb, n);
    MpRecip(inv, 0, t, 0, n);
    PowAdd(n, n);
    PowAdd(n + nb, n - nb);
    PaddedInverse(Val(b[bo..bo + nb]), Val(t[0..n]), Val(inv[0..n + 1]), Pow(n), Pow(n + nb), Pow(n - nb));
  }

  /** The number B^n. */
  method SetPower(inv: array<Limb>, n: nat)
    requires inv.Length == n + 1
    modifies inv
    ensures Val(inv[0..n + 1]) == Pow(n)
  {
    hide Val, Pow;
    Clear(inv, 0, n);
    ghost var low := inv[0..n];
    inv[n] := 1;
    assert inv[0..n] == low;
    ValSnoc(inv[..], 0, n);
  }

  /** The reciprocal of the incremented leading limbs, which may have become B^n. */
  method InvertRaised(inv: array<Limb>, t: array<Limb>, n: nat, c: Limb, ghost vh: int)
    requires inv.Length == n + 1 && t.Length == 2 * (n + 1) && 1 <= n && inv != t
    requires Val(t[0..n]) + c * Pow(n) == vh + 1 && 0 <= vh < Pow(n) <= 2 * vh
    modifies inv
    ensures InverseOf(vh + 1, Val(inv[0..n + 1]), Pow(n))
    decreases 1, n, 2
  {
    hide Val, Pow, IsReciprocal, InverseOf;
    ghost var pn := Pow(n);
    ValBound(t[0..n]);
    if c != 0 {
      SetPower(inv, n);
      InverseExact(pn);
      assert vh + 1 == pn by { CarriedOut(vh, Val(t[0..n]), c, pn); }
    } else {
      TopFromValue(t[..], n);
      PowAdd(n, n);
      MpRecip(inv, 0, t, 0, n);
      PowStep(n);
      InverseReciprocal(vh + 1, Val(inv[0..n + 1]), pn);
    }
  }

  lemma {:induction false} CarriedOut(vh: int, t: int, c: int, p: int)
    requires t + c * p == vh + 1 && 0 <= t && 0 <= vh < p && c >= 1
    ensures vh + 1 == p
  {
    if c >= 2 { MulMono(2, c, p); }
  }

  method InvertTruncated(inv: array<Limb>, t: array<Limb>, n: nat, b: array<Limb>, bo: nat, nb: nat)
    requires inv.Length == n + 1 && t.Length == 2 * (n + 1) && 1 <= n < nb && bo + nb <= b.Length
    requires inv != t && inv != b && t != b && b[bo + nb - 1] >= HALF
    modifies inv, t
    ensures NearInverse(Val(b[bo..bo + nb]), Val(inv[0..n + 1]), Pow(n + nb))
    decreases 1, n, 3
  {
    hide Val, Pow, IsReciprocal, InverseOf, NearInverse;
    ghost var v, pn := Val(b[bo..bo + nb]), Pow(n);
    ghost var vh := Val(b[bo + nb - n..bo + nb]);
    ValSplit(b[..], bo, bo + nb - n, bo + nb);
    ValBound(b[bo..bo + nb - n]);
    Normalized(b[..], bo + nb - n, n);
    PowAdd(n, n);
    PowAdd(n + n, nb - n);
    Copy(t, 0, b, bo + nb - n, n);
    assert t[0..n] == b[bo + nb - n..bo + nb];
    var c := MpAddUi(t, 0, 1, n);
    ValBound(b[bo + nb - n..bo + nb]);
    InvertRaised(inv, t, n, c, vh);
    TruncatedInverse(v, vh, Val(b[bo..bo + nb - n]), Val(inv[0..n + 1]), pn, Pow(n + nb), Pow(nb - n));
  }

  /** The quotient from the high limbs of the dividend is at most nine below the exact one. */
  lemma {:induction false} ApproximateQuotient(a: seq<Limb>, ao: nat, na: nat, v: int, nb: nat, n: nat, nq: nat, x: int, t: seq<Limb>, q: int)
    requires na == nq + nb && nb >= 1 && nq <= n <= nq + 1 && ao + na <= |a| && n + 1 <= na && |t| == 2 * (n + 1)
    requires Pow(nb) <= 2 * v && x >= 0
    requires NearInverse(v, x, Pow(n + nb))
    requires Val(t[0..2 * (n + 1)]) == x * Val(a[ao + na - (n + 1)..ao + na])
    requires q == Val(t[2 * n + 1 - nq..2 * (n + 1)])
    ensures 0 <= Val(a[ao..ao + na]) - q * v < 9 * v
  {
    hide Val, Pow, NearInverse;
    var sh, k := 2 * n + 1 - nq, na - (n + 1);
    var a0, al, ah := Val(a[ao..ao + na]), Val(a[ao..ao + k]), Val(a[ao + k..ao + na]);
    ValSplit(a, ao, ao + k, ao + na);
    assert 0 <= al < v by {
      ValBound(a[ao..ao + k]);
      PowMono(k, nb - 1);
      PowStep(nb);
    }
    assert 0 <= ah <= Pow(sh) by {
      ValBound(a[ao + k..ao + na]);
      PowMono(n + 1, sh);
    }
    ValSplit(t, 0, sh, 2 * (n + 1));
    ValBound(t[0..sh]);
    PowAdd(sh, k);
    WithinNine(a0, ah, al, Pow(k), Pow(sh), Pow(n + nb), v, x, q, Val(t[0..sh]));
  }

  lemma {:induction false} WithinNine(a: int, ah: int, al: int, plow: int, psh: int, pnn: int, v: int, x: int, q: int, tl: int)
    requires a == al + plow * ah && ah >= 0 && 0 <= al < v && ah <= psh && psh >= 1
    requires psh * plow == pnn && NearInverse(v, x, pnn)
    requires x * ah == tl + psh * q && 0 <= tl < psh
    ensures 0 <= a - q * v < 9 * v
  {
    NeverOvershoots(a, ah, al, plow, psh, pnn, v, x, q);
    CloseBelow(a, ah, al, plow, psh, pnn, v, x, q, 7);
  }

  /** Subtracting only the low limbs is enough for a small difference. */
  lemma {:induction false} LowDifference(a: int, b: int, alow: int, ahigh: int, blow: int, bhigh: int, r: int, k: int, p: int)
    requires a == alow + p * ahigh && b == blow + p * bhigh && r + blow == alow + k * p
    requires 0 <= r < p && 0 <= a - b < p
    ensures r == a - b
  {
    var d := ahigh - bhigh - k;
    assert a - b == r + p * d by { assert p * d == p * ahigh - p * bhigh - k * p; }
    if d >= 1 { MulMono(1, d, p); }
    if d <= -1 { MulMono(d, -1, p); }
  }

  /** R = A - B*Q on nb + 1 limbs. */
  method SubtractProduct(a: array<Limb>, ao: nat, na: nat, q: array<Limb>, qo: nat, b: array<Limb>, bo: nat, nb: nat)
    requires 1 <= nb < na && ao + na <= a.Length && bo + nb <= b.Length && qo + na - nb < q.Length
    requires q != a && a != b && b[bo + nb - 1] >= HALF
    requires 0 <= Val(a[ao..ao + na]) - Val(q[qo..qo + na - nb + 1]) * Val(b[bo..bo + nb]) < 9 * Val(b[bo..bo + nb])
    modifies a
    ensures old(Val(a[ao..ao + na])) == Val(q[qo..qo + na - nb + 1]) * Val(b[bo..bo + nb]) + Val(a[ao..ao + nb + 1])
    ensures Outside(old(a[..]), a[..], ao, ao + nb + 1)
  {
    hide Val, Pow;
    var t := new Limb[na + 1];
    MpMul(t, 0, q, qo, na - nb + 1, b, bo, nb);
    ghost var A := a[..];
    ValBound(b[bo..bo + nb]);
    var k := MpSub(a, ao, a, ao, t, 0, nb + 1, 0);
    LowLimbs(A, a[..], ao, na, t[..], nb, k, Val(b[bo..bo + nb]));
  }

  /** The low limbs of a difference that fits them. */
  lemma {:induction false} LowLimbs(A: seq<Limb>, a: seq<Limb>, ao: nat, na: nat, t: seq<Limb>, nb: nat, k: int, v: int)
    requires 1 <= nb < na && ao + na <= |A| == |a| && na + 1 <= |t|
    requires 0 <= Val(A[ao..ao + na]) - Val(t[0..na + 1]) < 9 * v && 0 <= v < Pow(nb)
    requires Val(a[ao..ao + nb + 1]) + Val(t[0..nb + 1]) == Val(A[ao..ao + nb + 1]) + k * Pow(nb + 1)
    ensures Val(A[ao..ao + na]) == Val(t[0..na + 1]) + Val(a[ao..ao + nb + 1])
  {
    hide Val, Pow;
    ValSplit(A, ao, ao + nb + 1, ao + na);
    ValSplit(t, 0, nb + 1, na + 1);
    ValBound(a[ao..ao + nb + 1]);
    PowStep(nb + 1);
    LowDifference(Val(A[ao..ao + na]), Val(t[0..na + 1]), Val(A[ao..ao + nb + 1]), Val(A[ao + nb + 1..ao + na]),
                  Val(t[0..nb + 1]), Val(t[nb + 1..na + 1]), Val(a[ao..ao + nb + 1]), k, Pow(nb + 1));
  }

  /** One divisor moved: subtracted from the remainder, one added to the quotient. */
  method RaiseOnce(q: array<Limb>, qo: nat, nq: nat, a: array<Limb>, ao: nat, b: array<Limb>, bo: nat, nb: nat,
                   ghost a0: int, ghost v: int, ghost steps: nat)
    requires nb >= 1 && ao + nb < a.Length && bo + nb <= b.Length && qo + nq < q.Length
    requires q != a && q != b && a != b
    requires v == Val(b[bo..bo + nb]) && Pow(nb) <= 2 * v && v < Pow(nb) && a0 < Pow(nq + nb) && steps <= 8
    requires Raised(a0, Val(q[qo..qo + nq + 1]), v, Val(a[ao..ao + nb + 1]), steps)
    requires a[ao + nb] != 0 || Val(a[ao..ao + nb]) >= v
    modifies q, a
    ensures Raised(a0, Val(q[qo..qo + nq + 1]), v, Val(a[ao..ao + nb + 1]), steps + 1) && steps <= 7
    ensures Outside(old(a[..]), a[..], ao, ao + nb + 1) && Outside(old(q[..]), q[..], qo, qo + nq + 1)
  {
    hide Val, Pow, Raised, QuotRem;
    ValSnoc(a[..], ao, ao + nb);
    ValBound(a[ao..ao + nb]);
    ghost var r0, q0 := Val(a[ao..ao + nb + 1]), Val(q[qo..qo + nq + 1]);
    StillLarge(a0, q0, Val(a[ao..ao + nb]), a[ao + nb], Pow(nb), v, r0, steps);
    TakeDivisor(a, ao, b, bo, nb);
    var k' := MpAddUi(q, qo, 1, nq + 1);
    ValBound(q[qo..qo + nq + 1]);
    QuotientFits(a0, q0, r0, v, nq, nb, k', Val(q[qo..qo + nq + 1]), steps);
    RaisedStep(a0, q0, v, r0, steps);
  }

  /** Subtracts the divisor from nb limbs and the borrow from the limb above. */
  method TakeDivisor(a: array<Limb>, ao: nat, b: array<Limb>, bo: nat, nb: nat)
    requires ao + nb < a.Length && bo + nb <= b.Length && a != b
    requires Val(b[bo..bo + nb]) <= Val(a[ao..ao + nb + 1])
    modifies a
    ensures Val(a[ao..ao + nb + 1]) == old(Val(a[ao..ao + nb + 1])) - Val(b[bo..bo + nb])
    ensures Outside(old(a[..]), a[..], ao, ao + nb + 1)
  {
    hide Val, Pow;
    ghost var low, top, v := Val(a[ao..ao + nb]), a[ao + nb], Val(b[bo..bo + nb]);
    ValSnoc(a[..], ao, ao + nb);
    ValBound(b[bo..bo + nb]);
    var k := MpSub(a, ao, a, ao, b, bo, nb, 0);
    assert a[ao + nb] == top;
    ValBound(a[ao..ao + nb]);
    BorrowFits(low, Val(a[ao..ao + nb]), top, k, Pow(nb), v);
    SetTop(a, ao, nb, (a[ao + nb] - k) % B);
    ValSnoc(a[..], ao, ao + nb);
  }

  /** Moves the divisor from the remainder to the quotient until the remainder is small;
      `steps` counts the increments. */
  method RaiseQuotient(q: array<Limb>, qo: nat, nq: nat, a: array<Limb>, ao: nat, b: array<Limb>, bo: nat, nb: nat,
                       ghost a0: int) returns (ghost steps: nat)
    requires nb >= 1 && ao + nb < a.Length && bo + nb <= b.Length && qo + nq < q.Length
    requires q != a && q != b && a != b && b[bo + nb - 1] >= HALF
    requires a0 == Val(q[qo..qo + nq + 1]) * Val(b[bo..bo + nb]) + Val(a[ao..ao + nb + 1])
    requires Val(a[ao..ao + nb + 1]) < 9 * Val(b[bo..bo + nb])
    requires a0 < Pow(nq + nb)
    modifies q, a
    ensures QuotRem(a0, Val(b[bo..bo + nb]), Val(q[qo..qo + nq + 1]), Val(a[ao..ao + nb]))
    ensures steps <= 8
    ensures Outside(old(a[..]), a[..], ao, ao + nb + 1) && Outside(old(q[..]), q[..], qo, qo + nq + 1)
  {
    hide Val, Pow, Raised;
    ghost var v := Val(b[bo..bo + nb]);
    Normalized(b[..], bo, nb);
    ValBound(b[bo..bo + nb]);
    steps := 0;
    assert Raised(a0, Val(q[qo..qo + nq + 1]), v, Val(a[ao..ao + nb + 1]), 0) by {
      RaisedStart(a0, Val(q[qo..qo + nq + 1]), v, Val(a[ao..ao + nb + 1]));
    }
    while true
      invariant v == Val(b[bo..bo + nb]) && steps <= 8
      invariant Raised(a0, Val(q[qo..qo + nq + 1]), v, Val(a[ao..ao + nb + 1]), steps)
      invariant Outside(old(a[..]), a[..], ao, ao + nb + 1) && Outside(old(q[..]), q[..], qo, qo + nq + 1)
      decreases 9 - steps
    {
      ValSnoc(a[..], ao, ao + nb);
      ValBound(a[ao..ao + nb]);
      var c := MpCmp(a, ao, b, bo, nb);
      if a[ao + nb] == 0 && c < 0 {
        RaisedDone(a0, Val(q[qo..qo + nq + 1]), v, Val(a[ao..ao + nb]), Val(a[ao..ao + nb + 1]), steps);
        break;
      }
      RaiseOnce(q, qo, nq, a, ao, b, bo, nb, a0, v, steps);
      steps := steps + 1;
    }
  }

  /** q divisors and the remainder r make up a0, and at most 9 - steps more divisors are in r. */
  ghost predicate Raised(a0: int, q: int, v: int, r: int, steps: nat) {
    a0 == q * v + r && r < (9 - steps) * v
  }

  lemma {:induction false} RaisedStart(a0: int, q: int, v: int, r: int)
    requires a0 == q * v + r && r < 9 * v
    ensures Raised(a0, q, v, r, 0)
  {
  }

  lemma {:induction false} RaisedStep(a0: int, q: int, v: int, r: int, steps: nat)
    requires Raised(a0, q, v, r, steps)
    ensures Raised(a0, q + 1, v, r - v, steps + 1)
  {
    assert (q + 1) * v == q * v + v;
    assert (9 - steps) * v == (9 - (steps + 1)) * v + v;
  }

  lemma {:induction false} RaisedDone(a0: int, q: int, v: int, low: int, r: int, steps: nat)
    requires Raised(a0, q, v, r, steps) && 0 <= low < v && r == low
    ensures QuotRem(a0, v, q, low)
  {
  }

  lemma {:induction false} StillLarge(a0: int, q: int, low: int, top: int, p: int, v: int, r: int, steps: nat)
    requires 0 <= low < p && top >= 0 && 0 < v < p && r == low + top * p && steps <= 8
    requires top != 0 || low >= v
    requires Raised(a0, q, v, r, steps)
    ensures r >= v && steps <= 7
  {
    if top >= 1 { MulMono(1, top, p); }
  }

  lemma {:induction false} BorrowFits(low0: int, low: int, top: int, k: int, p: int, v: int)
    requires low + v == low0 + k * p && 0 <= low < p && 0 <= k <= 1 && v >= 0 && p >= 1
    requires 0 <= top < B && low0 + top * p >= v
    ensures 0 <= top - k < B
    ensures low + (top - k) * p == low0 + top * p - v
  {
    if top == 0 && k == 1 { }
    assert (top - k) * p == top * p - k * p;
  }

  lemma {:induction false} QuotientFits(a0: int, q0: int, r0: int, v: int, nq: nat, nb: nat, k: int, q: int, steps: nat)
    requires Raised(a0, q0, v, r0, steps) && v <= r0 && a0 < Pow(nq + nb) && Pow(nb) <= 2 * v && v > 0
    requires q + k * Pow(nq + 1) == q0 + 1 && q >= 0 && 0 <= k <= 1 && q0 >= 0
    ensures k == 0
  {
    hide Pow;
    PowAdd(nq, nb);
    PowStep(nq + 1);
    if k == 1 { BigQuotient(q0 + 1, v, Pow(nq), Pow(nb), a0); }
    assert (q0 + 1) * v == q0 * v + v;
  }

  lemma {:induction false} BigQuotient(q: int, v: int, p: int, pb: int, a0: int)
    requires B * p <= q && pb <= 2 * v && p >= 1 && v > 0
    ensures q * v >= p * pb
  {
    MulMono(B * p, q, v);
    MulMono(pb, 2 * v, p);
  }

  method MpDivnormLarge(q: array<Limb>, qo: nat, a: array<Limb>, ao: nat, na: nat, b: array<Limb>, bo: nat, nb: nat)
    requires Operands(q, qo, a, ao, na, b, bo, nb) && na > nb
    modifies q, a
    ensures QuotRem(old(Val(a[ao..ao + na])), Val(b[bo..bo + nb]), Val(q[qo..qo + na - nb + 1]), Val(a[ao..ao + nb]))
    ensures Outside(old(a[..]), a[..], ao, ao + na) && Outside(old(q[..]), q[..], qo, qo + na - nb + 1)
    decreases 2, na
  {
    hide Val, Pow, NearInverse;
    var nq := na - nb;
    var n := if nq < nb then nq + 1 else nq;
    var tabb_inv := new Limb[n + 1];
    var tabt := new Limb[2 * (n + 1)];
    ghost var A := a[..];
    ValBound(a[ao..ao + na]);
    Normalized(b[..], bo, nb);
    InvertDivisor(tabb_inv, tabt, n, b, bo, nb);
    MpMul(tabt, 0, tabb_inv, 0, n + 1, a, ao + na - (n + 1), n + 1);
    Copy(q, qo, tabt, 2 * (n + 1) - (nq + 1), nq + 1);
    assert a[..] == A;
    ApproximateQuotient(A, ao, na, Val(b[bo..bo + nb]), nb, n, nq, Val(tabb_inv[0..n + 1]), tabt[..], Val(q[qo..qo + nq + 1]));
    SubtractProduct(a, ao, na, q, qo, b, bo, nb);
    ghost var steps := RaiseQuotient(q, qo, nq, a, ao, b, bo, nb, Val(A[ao..ao + na]));
  }
}
