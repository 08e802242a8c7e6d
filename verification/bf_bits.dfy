/** Bits of limb arrays: single bits, ranges of low bits, leading zeros. */
module BfBits {
  import opened Limbs
  import opened Rounding

  lemma {:induction false} TwoDouble(k: nat)
    requires k >= 1
    ensures Two(k) == 2 * Two(k - 1)
  {
  }

  lemma {:induction false} HalfLimb()
    ensures Two(63) == B / 2
  {
    hide Two;
    TwoDouble(64);
    TwoSixtyFour();
  }

  lemma {:induction false} TwoPow(i: nat)
    ensures Two(64 * i) == Pow(i)
    decreases i
  {
    hide Two;
    if i == 0 {
      assert Two(0) == 1 by { ScaleOne(0); }
    } else {
      TwoPow(i - 1);
      TwoAdd(64, 64 * (i - 1));
      TwoSixtyFour();
    }
  }

  lemma {:induction false} TwoParts(i: nat, s: nat)
    ensures Two(64 * i + s) == Pow(i) * Two(s)
  {
    hide Two, Pow;
    TwoAdd(64 * i, s);
    TwoPow(i);
  }

  /** A number cut at bit 64 * i + s: the limbs below i, and the low s bits of the rest. */
  lemma {:induction false} CutAt(t: seq<Limb>, i: nat, s: nat)
    requires i < |t| && s <= 64
    ensures var x := Val(t[i..]);
            && Val(t) / Two(64 * i + s) == x / Two(s)
            && Val(t) % Two(64 * i + s) == Val(t[..i]) + Pow(i) * (x % Two(s))
  {
    hide Two, Pow, Val;
    var low, x, p, q := Val(t[..i]), Val(t[i..]), Pow(i), Two(s);
    WholeSplit(t, i);
    ValBound(t[..i]);
    TwoParts(i, s);
    DivMod(x, q);
    MulMono(x % q + 1, q, p);
    Distribute(x % q, p);
    MulMono(0, x % q, p);
    UniqueDivision(low + p * x, p * q, x / q, low + p * (x % q));
  }

  lemma {:induction false} WholeSplit(t: seq<Limb>, i: nat)
    requires i <= |t|
    ensures Val(t) == Val(t[..i]) + Pow(i) * Val(t[i..])
  {
    hide Val, Pow;
    assert t == t[..i] + t[i..];
    ValConcat(t[..i], t[i..]);
  }

  /** The low bits of a number are those of its lowest limb. */
  lemma {:induction false} LowBits(t: seq<Limb>, s: nat)
    requires 1 <= |t| && s <= 64
    ensures Val(t) % Two(s) == t[0] % Two(s)
    ensures s < 64 ==> Val(t) / Two(s) % 2 == t[0] / Two(s) % 2
  {
    hide Two;
    var h, q, r := Val(t[1..]), Two(s), Two(64 - s);
    TwoLimb(s);
    DivMod(t[0], q);
    MulMono(0, h, r);
    LimbSum(t[0], h, q, r, t[0] / q, t[0] % q);
    UniqueDivision(t[0] + B * h, q, t[0] / q + r * h, t[0] % q);
    if s < 64 {
      UnitEven(64 - s);
      EvenPart(t[0] / q, r, h);
    }
  }

  lemma {:induction false} LimbSum(a: int, h: int, q: int, r: int, d: int, m: int)
    requires a == q * d + m && q * r == B
    ensures a + B * h == q * (d + r * h) + m
  {
    MulAssoc(q, r, h);
  }

  lemma {:induction false} EvenPart(d: int, r: int, h: int)
    requires r % 2 == 0
    ensures (d + r * h) % 2 == d % 2
  {
    var v := r / 2;
    assert r * h == 2 * (v * h) by { MulAssoc(2, v, h); }
  }

  // ---------- one bit ----------

  /** get_bit */
  function GetBit(t: seq<Limb>, pos: int): (b: int)
    ensures 0 <= b <= 1
  {
    if pos / 64 < 0 || pos / 64 >= |t| then 0 else t[pos / 64] / Two(pos % 64) % 2
  }

  lemma {:induction false} GetBitValue(t: seq<Limb>, pos: nat)
    requires pos < 64 * |t|
    ensures GetBit(t, pos) == Val(t) / Two(pos) % 2
  {
    hide Val, Two;
    var i, s := pos / 64, pos % 64;
    CutAt(t, i, s);
    LowBits(t[i..], s);
  }

  lemma {:induction false} GetBitBelow(t: seq<Limb>, pos: int)
    requires pos < 0
    ensures GetBit(t, pos) == 0
  {
  }

  lemma {:induction false} ValZero(t: seq<Limb>)
    ensures Val(t) == 0 <==> forall k :: 0 <= k < |t| ==> t[k] == 0
    decreases |t|
  {
    if |t| > 0 {
      ValZero(t[1..]);
      assert forall k :: 1 <= k < |t| ==> t[k] == t[1..][k - 1];
    }
  }

  /** scan_bit_nz: is a bit from 0 to bitPos set? */
  method ScanBitNz(tab: array<Limb>, ghost len: nat, bitPos: int) returns (nz: bool)
    requires len <= tab.Length && bitPos < 64 * len
    ensures nz <==> bitPos >= 0 && Val(tab[..len]) % Two(bitPos + 1) != 0
  {
    hide Val, Pow, Two;
    var pos := bitPos / 64;
    if pos < 0 { return false; }
    ghost var t, start, s := tab[..len], pos, bitPos % 64 + 1;
    assert bitPos + 1 == 64 * start + s;
    LowMasked(t, start, s);
    if tab[pos] % Two(bitPos % 64 + 1) != 0 { return true; }
    pos := pos - 1;
    while pos >= 0
      invariant -1 <= pos < start && forall k :: pos < k < start ==> t[k] == 0
    {
      if tab[pos] != 0 { return true; }
      pos := pos - 1;
    }
    return false;
  }

  lemma {:induction false} LowMasked(t: seq<Limb>, i: nat, s: nat)
    requires i < |t| && s <= 64
    ensures Val(t) % Two(64 * i + s) != 0 <==> t[i] % Two(s) != 0 || exists k :: 0 <= k < i && t[k] != 0
  {
    hide Val, Two, Pow;
    CutAt(t, i, s);
    LowBits(t[i..], s);
    ValZero(t[..i]);
    var m := t[i] % Two(s);
    if m > 0 { MulMono(1, m, Pow(i)); MulSwap(m, Pow(i)); }
    if exists k :: 0 <= k < i && t[k] != 0 {
      var k :| 0 <= k < i && t[k] != 0;
      assert t[..i][k] != 0;
      MulMono(0, m, Pow(i));
      MulSwap(m, Pow(i));
    }
  }

  // ---------- leading zeros ----------

  /** clz: the number of leading zeros of a limb, 64 for zero. */
  function Clz(v: Limb): (n: nat)
    ensures n <= 64 && (v > 0 ==> n < 64 && Two(63 - n) <= v < Two(64 - n))
    ensures v == 0 ==> n == 64
  {
    BitLenRange(v);
    LimbBits(v);
    64 - BitLen(v)
  }

  lemma {:induction false} LimbBits(v: Limb)
    ensures BitLen(v) <= 64
  {
    hide Two, BitLen;
    BitLenRange(v);
    TwoSixtyFour();
    if BitLen(v) > 64 { TwoMono(64, BitLen(v) - 1); }
  }
}
