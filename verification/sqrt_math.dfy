/** The table behind the first eight bits of a square root, and the integer facts of one
    refinement step (Zimmermann's Karatsuba square root). */
module SqrtMath {
  import opened Limbs

  const ROW_0: seq<int> := [128, 128, 129, 130, 131, 132, 133, 134, 135, 136, 137, 138, 139, 140, 141, 142]
  const ROW_1: seq<int> := [143, 144, 144, 145, 146, 147, 148, 149, 150, 150, 151, 152, 153, 154, 155, 155]
  const ROW_2: seq<int> := [156, 157, 158, 159, 160, 160, 161, 162, 163, 163, 164, 165, 166, 167, 167, 168]
  const ROW_3: seq<int> := [169, 170, 170, 171, 172, 173, 173, 174, 175, 176, 176, 177, 178, 178, 179, 180]
  const ROW_4: seq<int> := [181, 181, 182, 183, 183, 184, 185, 185, 186, 187, 187, 188, 189, 189, 190, 191]
  const ROW_5: seq<int> := [192, 192, 193, 193, 194, 195, 195, 196, 197, 197, 198, 199, 199, 200, 201, 201]
  const ROW_6: seq<int> := [202, 203, 203, 204, 204, 205, 206, 206, 207, 208, 208, 209, 209, 210, 211, 211]
  const ROW_7: seq<int> := [212, 212, 213, 214, 214, 215, 215, 216, 217, 217, 218, 218, 219, 219, 220, 221]
  const ROW_8: seq<int> := [221, 222, 222, 223, 224, 224, 225, 225, 226, 226, 227, 227, 228, 229, 229, 230]
  const ROW_9: seq<int> := [230, 231, 231, 232, 232, 233, 234, 234, 235, 235, 236, 236, 237, 237, 238, 238]
  const ROW_10: seq<int> := [239, 240, 240, 241, 241, 242, 242, 243, 243, 244, 244, 245, 245, 246, 246, 247]
  const ROW_11: seq<int> := [247, 248, 248, 249, 249, 250, 250, 251, 251, 252, 252, 253, 253, 254, 254, 255]

  const SQRT_TABLE: seq<int> :=
    ROW_0 + ROW_1 + ROW_2 + ROW_3 + ROW_4 + ROW_5 + ROW_6 + ROW_7 + ROW_8 + ROW_9 + ROW_10 + ROW_11

  /** Entry j is the integer square root of 256 * (y + j). */
  ghost predicate RootsFrom(row: seq<int>, y: int) {
    forall j :: 0 <= j < |row| ==> row[j] >= 0 && row[j] * row[j] <= 256 * (y + j) < (row[j] + 1) * (row[j] + 1)
  }

  lemma {:induction false} RowsJoin(s: seq<int>, t: seq<int>, y: int)
    requires RootsFrom(s, y) && RootsFrom(t, y + |s|)
    ensures RootsFrom(s + t, y)
  {
    forall j | 0 <= j < |s + t|
      ensures (s + t)[j] >= 0 && (s + t)[j] * (s + t)[j] <= 256 * (y + j) < ((s + t)[j] + 1) * ((s + t)[j] + 1)
    {
      if j < |s| { assert (s + t)[j] == s[j]; } else { assert (s + t)[j] == t[j - |s|]; }
    }
  }

  lemma {:induction false} Rows0()
    ensures |ROW_0| == 16 && RootsFrom(ROW_0, 64)
    ensures |ROW_1| == 16 && RootsFrom(ROW_1, 80)
    ensures |ROW_2| == 16 && RootsFrom(ROW_2, 96)
    ensures |ROW_3| == 16 && RootsFrom(ROW_3, 112)
  {
  }

  lemma {:induction false} Rows1()
    ensures |ROW_4| == 16 && RootsFrom(ROW_4, 128)
    ensures |ROW_5| == 16 && RootsFrom(ROW_5, 144)
    ensures |ROW_6| == 16 && RootsFrom(ROW_6, 160)
    ensures |ROW_7| == 16 && RootsFrom(ROW_7, 176)
  {
  }

  lemma {:induction false} Rows2()
    ensures |ROW_8| == 16 && RootsFrom(ROW_8, 192)
    ensures |ROW_9| == 16 && RootsFrom(ROW_9, 208)
    ensures |ROW_10| == 16 && RootsFrom(ROW_10, 224)
    ensures |ROW_11| == 16 && RootsFrom(ROW_11, 240)
  {
  }

  lemma {:induction false} TableOk()
    ensures |SQRT_TABLE| == 192 && RootsFrom(SQRT_TABLE, 64)
  {
    hide RootsFrom;
    Rows0();
    Rows1();
    Rows2();
    RowsJoin(ROW_0, ROW_1, 64);
    RowsJoin(ROW_0 + ROW_1, ROW_2, 64);
    RowsJoin(ROW_0 + ROW_1 + ROW_2, ROW_3, 64);
    RowsJoin(ROW_0 + ROW_1 + ROW_2 + ROW_3, ROW_4, 64);
    RowsJoin(ROW_0 + ROW_1 + ROW_2 + ROW_3 + ROW_4, ROW_5, 64);
    RowsJoin(ROW_0 + ROW_1 + ROW_2 + ROW_3 + ROW_4 + ROW_5, ROW_6, 64);
    RowsJoin(ROW_0 + ROW_1 + ROW_2 + ROW_3 + ROW_4 + ROW_5 + ROW_6, ROW_7, 64);
    RowsJoin(ROW_0 + ROW_1 + ROW_2 + ROW_3 + ROW_4 + ROW_5 + ROW_6 + ROW_7, ROW_8, 64);
    RowsJoin(ROW_0 + ROW_1 + ROW_2 + ROW_3 + ROW_4 + ROW_5 + ROW_6 + ROW_7 + ROW_8, ROW_9, 64);
    RowsJoin(ROW_0 + ROW_1 + ROW_2 + ROW_3 + ROW_4 + ROW_5 + ROW_6 + ROW_7 + ROW_8 + ROW_9, ROW_10, 64);
    RowsJoin(ROW_0 + ROW_1 + ROW_2 + ROW_3 + ROW_4 + ROW_5 + ROW_6 + ROW_7 + ROW_8 + ROW_9 + ROW_10, ROW_11, 64);
  }

  lemma {:induction false} EntryBounds(table: seq<int>, j: int)
    requires 0 <= j < |table| <= 192 && RootsFrom(table, 64)
    ensures 128 <= table[j] < 256 && table[j] * table[j] <= 256 * (j + 64) < (table[j] + 1) * (table[j] + 1)
  {
    if table[j] < 128 { RootMono(table[j] + 1, 128); }
    if table[j] >= 256 { RootMono(256, table[j]); }
  }

  lemma {:induction false} TableBounds(j: int)
    requires 0 <= j < 192
    ensures |SQRT_TABLE| == 192 && 128 <= SQRT_TABLE[j] < 256
    ensures SQRT_TABLE[j] * SQRT_TABLE[j] <= 256 * (j + 64) < (SQRT_TABLE[j] + 1) * (SQRT_TABLE[j] + 1)
  {
    hide SQRT_TABLE, RootsFrom;
    TableOk();
    EntryBounds(SQRT_TABLE, j);
  }

  // ---------- one refinement step ----------

  ghost predicate IsSqrtRem(a: int, s: int, r: int) {
    a == s * s + r && 0 <= r <= 2 * s
  }

  /** The pair is unique: s is the integer square root. */
  lemma {:induction false} SqrtRemUnique(a: int, s: int, r: int, s': int, r': int)
    requires IsSqrtRem(a, s, r) && IsSqrtRem(a, s', r')
    ensures s == s' && r == r'
  {
    if s < s' { RootMono(s + 1, s'); }
    if s' < s { RootMono(s' + 1, s); }
  }

  lemma {:induction false} RootMono(x: int, y: int)
    requires 0 <= x <= y
    ensures x * x <= y * y
  {
    MulMono(x, y, x);
    MulMono(x, y, y);
  }

  /** c*c <= a < d*d bounds the root. */
  lemma {:induction false} RootBetween(a: int, s: int, r: int, c: int, d: int)
    requires IsSqrtRem(a, s, r) && c * c <= a < d * d && c >= 0 && d >= 0
    ensures c <= s < d
  {
    if s < c { RootMono(s + 1, c); }
    if s >= d { RootMono(d, s); }
  }

  /** The root s1 of the high part, and the division by 2*s1, give root and remainder of
      hi*b^2 + x1*b + x0 up to one unit. */
  lemma {:induction false} SqrtStep(hi: int, s1: int, r1: int, b: int, x1: int, x0: int, q: int, u: int)
    requires IsSqrtRem(hi, s1, r1) && 1 <= b <= 2 * s1 && 0 <= x1 < b && 0 <= x0 < b
    requires r1 * b + x1 == q * (2 * s1) + u && 0 <= u < 2 * s1
    ensures 0 <= q <= b
    ensures var s, r := s1 * b + q, u * b + x0 - q * q;
            r <= 2 * s
            && (r >= 0 ==> IsSqrtRem(hi * (b * b) + x1 * b + x0, s, r))
            && (r < 0 ==> IsSqrtRem(hi * (b * b) + x1 * b + x0, s - 1, r + 2 * (s - 1) + 1))
    ensures -(b * b) <= u * b + x0 - q * q
  {
    StepQuotient(s1, r1, b, x1, q, u);
    StepSquare(hi, s1, r1, b, x1, x0, q, u);
    RootMono(q, b);
    StepUpper(s1, b, x0, u, q);
    StepLower(s1, b, x0, u, q);
    PreviousSquare(s1 * b + q);
  }

  lemma {:induction false} PreviousSquare(s: int)
    ensures (s - 1) * (s - 1) == s * s - 2 * s + 1
  {
  }

  lemma {:induction false} StepQuotient(s1: int, r1: int, b: int, x1: int, q: int, u: int)
    requires 0 <= r1 <= 2 * s1 && 1 <= b <= 2 * s1 && 0 <= x1 < b
    requires r1 * b + x1 == q * (2 * s1) + u && 0 <= u < 2 * s1
    ensures 0 <= q <= b
  {
    MulMono(r1, 2 * s1, b);
    MulMono(0, r1, b);
    assert (b + 1) * (2 * s1) == (2 * s1) * b + 2 * s1;
    if q > b { MulMono(b + 1, q, 2 * s1); }
    if q < 0 { MulMono(q, -1, 2 * s1); }
  }

  lemma {:induction false} StepSquare(hi: int, s1: int, r1: int, b: int, x1: int, x0: int, q: int, u: int)
    requires hi == s1 * s1 + r1 && r1 * b + x1 == q * (2 * s1) + u
    ensures hi * (b * b) + x1 * b + x0 == (s1 * b + q) * (s1 * b + q) + (u * b + x0 - q * q)
  {
    HighSquare(hi, s1, r1, b, x1);
    ProductSquare(s1, b);
  }

  lemma {:induction false} HighSquare(hi: int, s1: int, r1: int, b: int, x1: int)
    requires hi == s1 * s1 + r1
    ensures hi * (b * b) + x1 * b == (s1 * s1) * (b * b) + (r1 * b + x1) * b
  {
    var p := s1 * s1;
    assert (p + r1) * (b * b) == p * (b * b) + r1 * (b * b);
    assert (r1 * b + x1) * b == r1 * (b * b) + x1 * b;
  }

  lemma {:induction false} ProductSquare(x: int, y: int)
    ensures (x * y) * (x * y) == (x * x) * (y * y)
  {
    assert (x * y) * (x * y) == x * (y * (x * y));
    assert y * (x * y) == x * (y * y);
  }

  lemma {:induction false} StepUpper(s1: int, b: int, x0: int, u: int, q: int)
    requires 0 <= u < 2 * s1 && 0 <= x0 < b && q >= 0
    ensures u * b + x0 - q * q <= 2 * (s1 * b + q)
  {
    MulMono(u, 2 * s1 - 1, b);
    assert (2 * s1 - 1) * b == 2 * (s1 * b) - b;
    RootMono(0, q);
  }

  lemma {:induction false} StepLower(s1: int, b: int, x0: int, u: int, q: int)
    requires 0 <= u && 0 <= x0 && 0 <= q <= b <= 2 * s1 && b >= 1
    ensures u * b + x0 - q * q + 2 * (s1 * b + q) - 1 >= 0
    ensures -(b * b) <= u * b + x0 - q * q
  {
    MulMono(0, u, b);
    MulMono(b, 2 * s1, b);
    assert (2 * s1) * b == 2 * (s1 * b);
    RootMono(q, b);
    if q < b { RootMono(q, b - 1); PreviousSquare(b); }
  }
}
