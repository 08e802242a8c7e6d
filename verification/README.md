# QuickJS support libraries, modelled and proved in Dafny

The JavaScript program of this repository embeds QuickJS. The hard code is in four of its
support libraries under `javascript/quickjs`, and this project models their cores:

* **`libbf.c`**: arithmetic on little-endian limb arrays of base B = 2^64, updated in place. Carry and
  borrow loops, Knuth division, Newton reciprocal and the division by it, Karatsuba square root; on
  top of them floating-point addition with correct rounding, logic operations on integers of any
  sign, products of long numbers through number theoretic transforms, division by precomputed
  reciprocals, and the divide-and-conquer base conversions.
* **`libregexp.c`**: the compiler from patterns to bytecode, which inserts, copies and patches code,
  the static stack analysis, and the backtracking interpreter.
* **`libunicode.c`**: sets of code points as interval lists, run-length tables with an index (and the
  generator of those tables, `unicode_gen.c`), decomposition, canonical ordering and composition.
* **`cutils.c`**: `rqsort`, a three-way quicksort with an explicit stack, and its fallback `heapsortx`.

## How it is built

Code that changes arrays or object fields is a method or a class here too: limb arrays are
`array<Limb>` with offsets where the original has pointers into a buffer, `bf_t`, `CharRange`,
`DynBuf`, `REParseState` and `REExecContext` are classes, and each method is proved against a function of
its inputs or of the old state. The files follow this order.

| files | contents |
|---|---|
| `limbs`, `products`, `udiv`, `quotient_math`, `reciprocal_math`, `division`, `sqrt_math`, `sqrt` | exact integer arithmetic; `Val` is the number a limb sequence stands for. Division and square root multiply with `FftMultiply.MpMul` |
| `rounding`, `bf_bits`, `bf_round`, `bf_operands`, `bf_compare`, `bf_add`, `logic` | `Rounding.RoundTo` defines the rounded number, the others show that the code computes it |
| `modular`, `fourier`, `ntt_arith`, `ntt_stage`, `ntt` | the transform over any ring of residues, then the code |
| `four_step`, `ntt_split` | the split of long transforms into columns and rows |
| `fft_roots`, `fft_tables`, `fft_product`, `fft_digits`, `fft_crt`, `fft_limbs`, `fft_mul` | the product of two limb arrays: constants and tables, chunks and their residues, Chinese remainders, carries, and the choice of the size |
| `fast_division`, `radix` | precomputed division and base conversion |
| `regex_syntax`, `regex_match`, `regex_machine` | patterns with the code they compile to, the reference matcher, the abstract machine |
| `regex_bytes`, `regex_yields`, `regex_scan`, `regex_simple`, `regex_correct` | compiler correctness; `Yields` says that code offers given ways of matching, in order |
| `regex_fate`, `regex_forever`, `regex_program`, `regex_lazy` | the same for patterns that may keep the machine busy for ever: `FateOf` says whether they do, whole programs, and the lazy loops that do |
| `regex_class`, `regex_grammar`, `regex_compiler`, `regex_lre_compile` | the parser that emits the code byte by byte, character classes included |
| `regex_text`, `regex_roundtrip`, `regex_same`, `regex_readable` | patterns written out and read back: the same ways of matching, for every pattern the reader accepts |
| `regex_meaning`, `regex_captures` | what escapes, anchors, the dot and rejected texts mean, said without the tables and predicates the code shares with the reference; what a match reports |
| `regex_stack`, `regex_exec` | the static stack analysis, and the interpreter loop on arrays |
| `char_range`, `char_class` | sets of characters as interval lists, and the class instruction |
| `unicode_table`, `unicode_gen`, `decompose`, `reorder`, `compose`, `normalize`, `normal_forms` | the Unicode tables, their generator, and normalization |
| `ordering`, `heapsort`, `rqsort` | the sorts, for any comparison function of a total preorder |

Every lemma carries `{:induction false}`: induction is always written out.

## Where the code departs from its documentation

* The comment on `mp_recip` (`javascript/quickjs/libbf.c:1346`) says B^(2n) < a\*r + 2. What the code
  guarantees, and what is proved, is B^(2n) < a\*(r + 2).
* The reference matcher follows the bytecode, not section 21.2.2.5.1 of ECMA-262 (ES2020): a greedy loop
  leaves after an iteration that consumed nothing instead of failing it
  (`javascript/quickjs/libregexp.c:1628-1634`), and captures inside an optional atom are reset once
  before the loop, not in every iteration (`javascript/quickjs/libregexp.c:1606-1612`).
* The test for progress that is to avoid infinite loops (`javascript/quickjs/libregexp.c:1628-1631`) is
  emitted for greedy loops only (`javascript/quickjs/libregexp.c:1597`). So a lazy unbounded loop over an
  atom that may match nothing can run for ever: `RegexLazy.LazyTextNeverStops` gives a pattern's text and a
  subject, `RegexLazy.LazyRunsForever` says when such a loop does, and `RegexProgram.ProgramCorrect` when a
  whole program does, for every pattern and subject. `RegexProgram.RunsForever` follows the pattern along
  the subject and always comes to an end itself; the predicate `Tame`, which reads only the pattern, is
  enough for it to be false.
* `compose_pair` takes U+11A7, which is not a trailing consonant, for one
  (`javascript/quickjs/libunicode.c:846`), and drops it. So the law that composition keeps the canonical
  decomposition is false as it stands: `Normalize.LostExample` gives the input,
  `Normalize.NfcKeepsMeaningIff` the exact condition, and `Normalize.NfcStrips` what becomes of the
  decomposition of any text. NFC of NFC is NFC nevertheless, and `NormalForms.NothingLeft` holds.
* The generator of the composition table keeps pairs whose first character is combining
  (`javascript/quickjs/unicode_gen.c:2762`), such as U+0308 and U+0301. The loop only looks up pairs that
  start with a starter, and only of those do the hypotheses (`Compose.PairSound`, `NormalForms.PairOrderly`)
  speak.
* `pow_tab_len` carries the note "XXX: check" (`javascript/quickjs/libbf.c:2741`); `Radix.LevelFits` shows that
  the table is long enough.
* The generator of the index tables stops when an offset does not fit three bits
  (`javascript/quickjs/unicode_gen.c:1443`). `UnicodeGen.Indexable` says of which properties it does not,
  and `UnicodeGen.GeneratorStops` gives one of which it does.

## Model

| member | source | states |
|---|---|---|
| Limbs.MpAdd | javascript/quickjs/libbf.c:1024-1040 | the limbs written and the carry returned are op1 + op2 + carry exactly; no other limb changes |
| Limbs.MpSub | javascript/quickjs/libbf.c:1058-1074 | the difference and the borrow, exactly |
| Limbs.MpAddUi | javascript/quickjs/libbf.c:1042-1056 | adds one limb to a number, stopping when the carry dies out; result and carry are the exact sum |
| Limbs.MpSubUi | javascript/quickjs/libbf.c:1094-1109 | subtracts one limb, stopping when the borrow dies out |
| Limbs.MpNeg | javascript/quickjs/libbf.c:1077-1092 | 0 - op2 - carry modulo B^n, with the borrow |
| Limbs.MpShr | javascript/quickjs/libbf.c:1113-1127 | quotient and remainder by 2^shift of a + high * B^n |
| Products.MpMul1 | javascript/quickjs/libbf.c:1130-1142 | a * b + l, limbs and high limb, exactly, also in place |
| Products.MpAddMul1 | javascript/quickjs/libbf.c:1145-1158 | adds a * b in place; the high limb completes the sum |
| Products.SubMulLimb | javascript/quickjs/libbf.c:1205-1209 | one limb of the subtraction, computed modulo B^2, with the value still to be taken from above |
| Products.MpSubMul1 | javascript/quickjs/libbf.c:1198-1211 | subtracts a * b in place; the value returned is what is still to be taken from the limb above |
| Products.MpMulBasecase | javascript/quickjs/libbf.c:1161-1172 | the row-by-row product is the product of the two values |
| Udiv.Udiv1normInit | javascript/quickjs/libbf.c:1213-1220 | floor((B^2 - 1) / d) - B from wrapping limbs |
| Udiv.EstimateError | javascript/quickjs/libbf.c:1222-1232 | the error of the reciprocal estimate, exactly, from which the single correction step is shown to be enough |
| Udiv.Udiv1norm | javascript/quickjs/libbf.c:1213-1242 | quotient and remainder of a1 * B + a0 for every d >= B/2 and a1 < d, through the wrapping reciprocal arithmetic |
| Udiv.Udiv1normFix | javascript/quickjs/libbf.c:1233-1241 | subtracting once too often and adding back under the sign mask gives quotient and remainder |
| QuotientMath.Guess | javascript/quickjs/libbf.c:1311-1320 | the largest q with q * b1 <= u1 * B + u0, capped at B - 1 |
| QuotientMath.GuessBounds | javascript/quickjs/libbf.c:1311-1320 | Knuth's bound: the digit guessed from the leading limbs is never too small and at most two too large |
| QuotientMath.UniqueQuotient | javascript/quickjs/libbf.c:1271-1274 | the pair (Q, R) is unique, so both division paths agree |
| ReciprocalMath.NewtonUpper | javascript/quickjs/libbf.c:1394-1403 | the truncated correction never overshoots |
| ReciprocalMath.NewtonLower | javascript/quickjs/libbf.c:1394-1403 | nor does it fall short by two |
| Division.MpCmp | javascript/quickjs/libbf.c:1415-1427 | the sign returned is that of the difference of the values, both ways |
| Division.MpDiv1norm | javascript/quickjs/libbf.c:1245-1265 | quotient limbs and remainder of a number of any length by a normalized limb |
| Division.AddBackLoop | javascript/quickjs/libbf.c:1328-1340 | the add-back loop ends with the exact digit and a remainder below the divisor after at most two additions |
| Division.SubtractDigit | javascript/quickjs/libbf.c:1321-1340 | multiply, subtract and add back: the exact digit and remainder of one window |
| Division.GuessDigit | javascript/quickjs/libbf.c:1311-1320 | the guess by reciprocal or by division is the same digit |
| Division.FirstDigit | javascript/quickjs/libbf.c:1296-1308 | the top digit is 0 or 1 and the window it leaves is below the divisor |
| Division.NextDigit | javascript/quickjs/libbf.c:1310-1342 | one digit: the window before is the digit times the divisor plus the window after, which is below the divisor |
| Division.TopQuotientLimb | javascript/quickjs/libbf.c:1296-1308 | the top one of na - nb + 1 quotient limbs is 0 or 1 for a normalized divisor |
| Division.Schoolbook | javascript/quickjs/libbf.c:1291-1343 | the digit-by-digit path as a whole |
| Division.MpDivnorm | javascript/quickjs/libbf.c:1275-1344 | A = Q * B + R with R < B in place for all na >= nb, top quotient limb 0 or 1, in the base case and in the call for large operands |
| Division.MpScanNz | javascript/quickjs/libbf.c:362-370 | true exactly when some limb is not zero |
| Division.RecipBase | javascript/quickjs/libbf.c:1356-1373 | ceil(B^(2n) / a) - 1 by division, for one or two limbs |
| Division.MpRecip | javascript/quickjs/libbf.c:1351-1412 | a * r < B^(2n) < a * (r + 2) and r[n] = 1 at every recursion size |
| Division.LowerEstimate | javascript/quickjs/libbf.c:1389-1393 | lowering the half-size estimate stops at the first x with a * x < B^(n+h), or leaves it as it was |
| Division.Complement | javascript/quickjs/libbf.c:1394-1396 | negating all limbs and bumping the top one gives B^(n+h) - T |
| Division.Assemble | javascript/quickjs/libbf.c:1400-1403 | the low limbs copied and the next ones added in place make up xh * B^l + M |
| Division.Correction | javascript/quickjs/libbf.c:1394-1403 | the truncated Newton correction completes the reciprocal of all n limbs, and the sum fits |
| Division.RecipStart | javascript/quickjs/libbf.c:1380-1396 | the half-size reciprocal, lowered, with its shortfall: small, positive, and left in the buffer |
| Division.RecipNewton | javascript/quickjs/libbf.c:1374-1404 | one Newton step doubles the size of the reciprocal |
| Division.InvertDivisor | javascript/quickjs/libbf.c:1453-1472 | the padded or truncated-and-incremented divisor gives x with x * b <= B^(n+nb) <= b * (x + 7) |
| Division.InvertPadded | javascript/quickjs/libbf.c:1453-1457 | the divisor padded with zeros |
| Division.InvertTruncated | javascript/quickjs/libbf.c:1458-1471 | the divisor truncated and incremented, with the case in which the increment overflows |
| Division.ApproximateQuotient | javascript/quickjs/libbf.c:1473-1478 | the quotient from the high limbs never overshoots and is at most nine short in the remainder |
| Division.SubtractProduct | javascript/quickjs/libbf.c:1487-1494 | the low nb + 1 limbs of A - B * Q are all of it |
| Division.RaiseQuotient | javascript/quickjs/libbf.c:1502-1510 | the increment loop ends after at most eight steps with quotient and remainder |
| Division.MpDivnormLarge | javascript/quickjs/libbf.c:1433-1522 | A = Q * B + R with R < B exactly, by reciprocal |
| SqrtMath.TableOk | javascript/quickjs/libbf.c:1876-1884 | every entry of the square root table is the integer square root of 256 times its argument |
| SqrtMath.SqrtRemUnique | javascript/quickjs/libbf.c:1972-1975 | root and remainder are the only pair with those bounds |
| SquareRoot.TableRoot | javascript/quickjs/libbf.c:1891-1897 | sixteen bits of argument give root and remainder from the table |
| SquareRoot.Refine | javascript/quickjs/libbf.c:1899-1909 | one refinement doubles the bits of the root |
| SquareRoot.SignFix | javascript/quickjs/libbf.c:1905-1909 | a remainder whose sign bit is set means the root is one too large |
| SquareRoot.MpSqrtrem1 | javascript/quickjs/libbf.c:1887-1928 | s * s + r = a with r <= 2s for every limb a >= B/4, from the table and two refinements |
| SquareRoot.MpSqrtrem2 | javascript/quickjs/libbf.c:1944-1970 | the same for two limbs; the remainder is one limb and a bit |
| SquareRoot.SignFix2 | javascript/quickjs/libbf.c:1963-1966 | the same on a double limb, the root kept modulo B |
| SquareRoot.DivideByTwiceRoot | javascript/quickjs/libbf.c:1998-2014 | quotient and remainder by twice the root of the high half |
| SquareRoot.HalveQuotient | javascript/quickjs/libbf.c:2006-2014 | halving the quotient; an odd one sends the root back into the remainder |
| SquareRoot.SubtractSquare | javascript/quickjs/libbf.c:2025-2034 | subtracting the square of the quotient, with the shortcut for a quotient of B^l |
| SquareRoot.FixNegative | javascript/quickjs/libbf.c:2035-2039 | a negative remainder: the root drops by one and 2S + 1 is added back |
| SquareRoot.MpSqrtremRec | javascript/quickjs/libbf.c:1976-2042 | S * S + R = A with 0 <= R <= 2S for every n >= 1, in place, remainder as n limbs and a bit |
| SquareRoot.SplitHigh | javascript/quickjs/libbf.c:1988-2025 | the pieces of one level: sx and the signed remainder determine the root |
| SquareRoot.CompleteRoot | javascript/quickjs/libbf.c:2020-2040 | adding the quotient, subtracting its square and correcting yields the root |
| SquareRoot.MpSqrtrem | javascript/quickjs/libbf.c:2050-2068 | the same with the remainder as n + 1 limbs |
| Rounding.NoneBetween | javascript/quickjs/libbf.c:395-446 | the two neighbours are the nearest numbers with prec significant bits: none lies between them |
| Rounding.RoundMeans | javascript/quickjs/libbf.c:395-446 | what rounding means: the result has prec significant bits; it is the lower or upper neighbour, the nearer one, the even one at a tie, or the one on the side the mode names |
| Rounding.NearestIsNearest | javascript/quickjs/libbf.c:395-446 | rounding to nearest: no number with prec significant bits is nearer |
| Rounding.Sticky | javascript/quickjs/libbf.c:993-994 | cutting any number of low bits and or-ing one sticky bit in leaves every rounding unchanged if prec + 2 bits are kept |
| BfBits.GetBit | javascript/quickjs/libbf.c:341-348 | bit pos of the value, zero outside |
| BfBits.ScanBitNz | javascript/quickjs/libbf.c:373-391 | true exactly when the value below bit_pos + 1 is not a multiple of that power |
| BfBits.Clz | javascript/quickjs/libbf.c:93-105 | the number of leading zeros |
| BfRound.AddOneIsUp | javascript/quickjs/libbf.c:395-446 | the decision from the rounding bit, the bits below and the last kept bit is the decision by the remainder, in every mode |
| BfRound.OverflowDecided | javascript/quickjs/libbf.c:454-460 | overflow goes to infinity exactly in the modes, and for the signs, in which a remainder of more than half a unit is rounded up |
| BfRound.LargestBelow | javascript/quickjs/libbf.c:461-473 | (2^prec - 1) * 2^(e_max - prec) is the largest number with prec significant bits below 2^e_max |
| BfRound.BfT.GetRndAdd | javascript/quickjs/libbf.c:395-446 | add_one is the exact rounding decision for the l limbs, and inexact is exact |
| BfRound.BfT.AddUnit | javascript/quickjs/libbf.c:526-549 | adding one at a bit position; a carry out of the top shifts the number and moves the point |
| BfRound.BfT.Trim | javascript/quickjs/libbf.c:570-588 | clearing the low bits and dropping zero limbs keeps the value |
| BfRound.BfT.SetOverflow | javascript/quickjs/libbf.c:448-477 | infinity or the largest finite number, by mode and sign |
| BfRound.BfT.OverflowMeans | javascript/quickjs/libbf.c:448-477 | overflow by value: infinity where a remainder of more than half a unit goes up, else that largest number |
| BfRound.BfT.FiniteMeans | javascript/quickjs/libbf.c:551-567 | a rounded number stays finite and other than zero exactly when it lies from 2^(2 - e) up to 2^e, e the exponent range |
| BfRound.BfT.Round | javascript/quickjs/libbf.c:484-589 | the number in place becomes the rounded one, canonical; underflow, overflow and inexact are reported exactly |
| BfRound.BfT.Normalize | javascript/quickjs/libbf.c:599-620 | shifting so that the top bit is set keeps the value |
| BfRound.BfT.NormalizeAndRound | javascript/quickjs/libbf.c:592-625 | the same for any magnitude, wherever its top bit is; zero stays zero |
| BfRound.BfT.RoundedSticky | javascript/quickjs/libbf.c:993-1004 | rounding the kept limbs with the sticky bit is rounding the whole number |
| BfOperands.BitsValue | javascript/quickjs/libbf.c:318-339 | fetching limbs at a bit offset is shifting the number |
| BfCompare.CmpU | javascript/quickjs/libbf.c:738-761 | compares absolute values of numbers of different lengths; zero, infinity and NaN by their exponents |
| BfCompare.FewZeros | javascript/quickjs/libbf.c:816-866 | a difference in the leading limbs bounds the number of leading zeros of the whole difference |
| BfCompare.FirstDifference | javascript/quickjs/libbf.c:827-839 | the limbs that agree, and the first differing bit |
| BfCompare.SecondRun | javascript/quickjs/libbf.c:840-863 | the run of zeros against ones after it |
| BfCompare.CountCancelledBits | javascript/quickjs/libbf.c:816-866 | in a - b no more than the returned number of leading bits are zero |
| BfAdd.LowPart | javascript/quickjs/libbf.c:935-981 | the loop that skips limbs outside both operands computes the carry out of the low limbs and whether any is nonzero |
| BfAdd.HighPart | javascript/quickjs/libbf.c:982-992 | the limbs that are kept |
| BfAdd.EnoughBits | javascript/quickjs/libbf.c:915-929 | what is kept has two bits more than the precision after cancellation |
| BfAdd.AddCut | javascript/quickjs/libbf.c:926-1002 | the kept limbs with sticky bit and carry |
| BfAdd.AddNormal | javascript/quickjs/libbf.c:908-1004 | the sum or difference of two normal numbers, the larger first, correctly rounded |
| BfAdd.AddFinite | javascript/quickjs/libbf.c:877-1005 | both orders of the operands and both signs |
| BfAdd.SpecialSwaps | javascript/quickjs/libbf.c:889-907 | a sum with a zero, infinite or NaN operand is the same in both orders, flags and sign of zero included |
| BfAdd.AddSpecial | javascript/quickjs/libbf.c:889-907 | zero, infinite and NaN operands |
| BfAdd.BfAddInternal | javascript/quickjs/libbf.c:868-1010 | for finite operands the correctly rounded exact sum with its sign, and the values and flags for zero, infinite and NaN operands |
| Logic.BitsUnique | javascript/quickjs/libbf.c:2301-2320 | integers with the same bits are equal, so the specification determines the result |
| Logic.BitShift | javascript/quickjs/libbf.c:318-339 | adding a multiple of B leaves the low bits alone |
| Logic.AddIntegers | javascript/quickjs/libbf.c:868-1010 | on integers the exact addition and subtraction are those of the integers, whatever the signs |
| Logic.AddSi | javascript/quickjs/libbf.c:2248-2259 | adding 1 or -1 to an integer is exact |
| Logic.LogicSums | javascript/quickjs/libbf.c:2301-2320 | AND and OR of two integers add up to their sum, OR without AND is XOR, AND with -1 is the identity and with 0 is zero |
| Logic.LogicBits | javascript/quickjs/libbf.c:2301-2320 | the specification: every bit of the result is the operation on the bits of the operands, negative integers included |
| Logic.ResultValue | javascript/quickjs/libbf.c:2383-2394 | the limbs read with the sign are the result |
| Logic.Operand | javascript/quickjs/libbf.c:2332-2360 | a negative operand is replaced by its complement, minus zero counts as zero |
| Logic.Combine | javascript/quickjs/libbf.c:2374-2396 | the loop over sign-magnitude limbs at different offsets computes the result limbs |
| Logic.BfLogicOp | javascript/quickjs/libbf.c:2322-2406 | and, or, xor of unbounded signed integers as infinite two's complement, including the truncated AND and the final adjustment by one |
| Fourier.Halve | javascript/quickjs/libbf.c:7734-7765 | even and odd transform values are the transforms of sums and of twisted differences over the squared root |
| Fourier.Inversion | javascript/quickjs/libbf.c:7940-7970 | transforming with the inverse roots gives back length times the input |
| Fourier.CyclicAt | javascript/quickjs/libbf.c:7940-7970 | the recursive product modulo x^N - 1 has the coefficients of the schoolbook cyclic convolution |
| Fourier.Convolution | javascript/quickjs/libbf.c:7940-7970 | multiplying transform values is transforming the cyclic convolution |
| NttArith.AddMod | javascript/quickjs/libbf.c:7368-7375 | a sum below 2m reduced once |
| NttArith.SubMod | javascript/quickjs/libbf.c:7378-7385 | a difference reduced by noticing the wrap-around |
| NttArith.FastQuotient | javascript/quickjs/libbf.c:7390-7409 | the quotient by the precomputed inverse is at most two too small |
| NttArith.Correct | javascript/quickjs/libbf.c:7390-7409 | the masked corrections at the end bring the residue into range |
| NttArith.ModFast | javascript/quickjs/libbf.c:7390-7406 | the exact residue of a double limb below 2^125 by a precomputed inverse |
| NttArith.MulModFast | javascript/quickjs/libbf.c:7410-7416 | the exact residue of a product |
| NttArith.MulModFast3 | javascript/quickjs/libbf.c:7444-7452 | the same, or m more, for any first factor |
| NttArith.MulModFast2 | javascript/quickjs/libbf.c:7429-7439 | the exact residue of a product with a prepared constant |
| NttStage.StagePartial | javascript/quickjs/libbf.c:7734-7765 | one stage halves the columns and doubles their number: the invariant of the whole transform |
| NttStage.Cross | javascript/quickjs/libbf.c:7749-7755 | one butterfly |
| NttStage.Block | javascript/quickjs/libbf.c:7740-7756 | the butterflies of one twiddle factor stay below 2m and are congruent to sum and scaled difference |
| Ntt.GetTrig | javascript/quickjs/libbf.c:7818-7853 | the twiddle factors are the powers of the root, with their precomputed inverses |
| Ntt.StagePass | javascript/quickjs/libbf.c:7734-7760 | a stage writes every block, from the input buffer to the other one |
| Ntt.LastStage | javascript/quickjs/libbf.c:7766-7776 | the last stage, which may write over its own input |
| Ntt.FftPass | javascript/quickjs/libbf.c:7734-7765 | one turn of the stage loop |
| Ntt.NttFft | javascript/quickjs/libbf.c:7721-7778 | values below 2m congruent to the discrete Fourier transform of the input, in place or not |
| Ntt.NttVecMul | javascript/quickjs/libbf.c:7780-7801 | pointwise products scaled by the inverse length |
| Ntt.NttConvWhole | javascript/quickjs/libbf.c:7940-7970 | without a split: the first buffer becomes the cyclic convolution of both modulo m, times 2^k and the factor for the total length |
| FourStep.RowEval | javascript/quickjs/libbf.c:7882-7935 | after the columns are transformed and twisted, row i has at a root of its order the value of the whole at that root times w^i |
| FourStep.RowProduct | javascript/quickjs/libbf.c:7960-7966 | multiplying row i of both factors cyclically gives row i of the cyclic product, coefficient by coefficient |
| FourStep.ColumnBack | javascript/quickjs/libbf.c:7967-7968 | untwisting and transforming the columns back gives the coefficients, scaled |
| NttSplit.MulTrig | javascript/quickjs/libbf.c:7803-7814 | the powers of a constant multiplied in |
| NttSplit.TransformColumn | javascript/quickjs/libbf.c:7912-7919 | one column: untwisted before on the way back, twisted after on the way there |
| NttSplit.NttFftPartial | javascript/quickjs/libbf.c:7882-7936 | every column is transformed and twisted, and nothing else changes |
| NttSplit.NttConv | javascript/quickjs/libbf.c:7940-7970 | for every length 2^k the root tables cover, through any number of splits: the cyclic convolution modulo m, values below 2m |
| NttSplit.NttConvSplit | javascript/quickjs/libbf.c:7944-7969 | columns, rows, columns: the cyclic convolution again |
| NttSplit.RowConvolutions | javascript/quickjs/libbf.c:7962-7965 | the recursive calls leave the rows of the cyclic product |
| FftRoots.RootTurns | javascript/quickjs/libbf.c:7299-7302 | the constants are what they are said to be: squared fifty times, every root is -1 modulo its prime |
| FftRoots.RootsInvert | javascript/quickjs/libbf.c:7299-7302 | the roots for the way back are the inverses of the others |
| FftRoots.PrimesInvert | javascript/quickjs/libbf.c:7304-7309 | the table of inverses of the primes modulo each other |
| FftRoots.PrimesRoom | javascript/quickjs/libbf.c:7294-7297 | the product of the primes used has the number of bits the table says |
| FftTables.TablesReady | javascript/quickjs/libbf.c:8246-8306 | the tables serve every transform length up to 2^51 |
| FftTables.FillRoots | javascript/quickjs/libbf.c:8281-8290 | repeated squaring gives the roots of all orders: each squares to the one before, and the last is -1 |
| FftTables.FillLengths | javascript/quickjs/libbf.c:8273-8279 | the inverses of the powers of two |
| FftTables.NttStaticInit | javascript/quickjs/libbf.c:8246-8306 | from the constants alone: roots of all orders up to 2^51 with their inverses, 1 / 2^i, and prepared inverses of the primes, for every prime |
| FftProduct.CyclicExact | javascript/quickjs/libbf.c:8371-8377 | a cyclic product of polynomials that end early enough is their product |
| FftDigits.ReadChunk | javascript/quickjs/libbf.c:7998-8019 | dpl bits from any bit position, put together from up to three limbs, in one or two parts |
| FftDigits.ChunkResidue | javascript/quickjs/libbf.c:8020-8028 | one or two reductions leave the residue of a chunk of up to 188 bits |
| FftDigits.LimbToNtt | javascript/quickjs/libbf.c:7973-8032 | every chunk of the number modulo every prime, zero behind the last limb |
| FftCrt.GarnerStep | javascript/quickjs/libbf.c:8184-8191 | subtracting a digit and multiplying with the inverse of its prime divides by the prime |
| FftCrt.MixedRadix | javascript/quickjs/libbf.c:8174-8191 | the residues of c become its digits in the mixed radix of the primes |
| FftCrt.Recompose | javascript/quickjs/libbf.c:8193-8214 | the digits put together and the carry added: exactly c + carry, in as many limbs as there are primes |
| FftLimbs.PutBits | javascript/quickjs/libbf.c:7241-7256 | a limb added at any bit position where all bits above are zero; what lies behind the last limb is dropped |
| FftLimbs.WriteChunk | javascript/quickjs/libbf.c:8222-8229 | the low dpl bits of the sum, limb by limb and masked, are added at bit position pos |
| FftLimbs.ShiftCarry | javascript/quickjs/libbf.c:8230-8240 | the carry is the sum shifted down by dpl bits |
| FftLimbs.NttToLimb | javascript/quickjs/libbf.c:8146-8243 | the polynomial whose coefficients have the given residues, at 2^dpl, modulo what the limbs hold |
| FftMultiply.SizeLimit | javascript/quickjs/libbf.c:8318-8345 | no choice fits a product of more than 2^52 limbs |
| FftMultiply.GetFftSize | javascript/quickjs/libbf.c:8308-8355 | a length, chunk size and number of primes whose coefficients cannot overflow and whose chunks hold the product; one is found exactly up to 2^52 limbs |
| FftMultiply.CoefficientsProduct | javascript/quickjs/libbf.c:8371-8377 | the cyclic product of the chunks does not wrap: at 2^dpl it is the product of the numbers |
| FftMultiply.CoefficientsBounded | javascript/quickjs/libbf.c:8323-8327 | every coefficient is below the product of the primes used |
| FftMultiply.FftMul | javascript/quickjs/libbf.c:8358-8457 | the product of two limb arrays through packing, transforms modulo three to five primes, Chinese remainders and carries; true exactly up to 2^52 limbs, beyond which the original aborts |
| FftMultiply.ConvolveRows | javascript/quickjs/libbf.c:8401-8430 | with all rows of the second factor at once, or one at a time to save memory: the residues of the coefficients of the product |
| FftMultiply.MpMul | javascript/quickjs/libbf.c:1176-1195 | the product of the two values, by rows or, where both factors have 100 limbs, through the transforms |
| FastDivision.FastUdivInit | javascript/quickjs/libbf.c:5464-5483 | multiplier and shifts with the bounds the division needs, for 1 <= d <= 2^63 |
| FastDivision.FastUdiv | javascript/quickjs/libbf.c:5485-5491 | the exact quotient for every limb |
| FastDivision.Exact | javascript/quickjs/libbf.c:5461-5491 | a multiplier rounded up within those bounds never reaches the next quotient |
| FastDivision.BaseQuotient | javascript/quickjs/libbf.c:5414-5422 | the quotient by the scaled inverse is at most two too small |
| FastDivision.Settle | javascript/quickjs/libbf.c:5423-5430 | the two masked corrections |
| FastDivision.DivdqBase | javascript/quickjs/libbf.c:5411-5431 | quotient and remainder by 10^19 of every double limb with a1 < 2^63 |
| Radix.DigitsOfValue | javascript/quickjs/libbf.c:3373-3482 | the digits of a value are the digits it was made from |
| Radix.ValueOfDigits | javascript/quickjs/libbf.c:3373-3482 | the value of the digits of a number that fits is the number |
| Radix.PowUi | javascript/quickjs/libbf.c:2261-2277 | square-and-multiply computes the power |
| Radix.NodeParts | javascript/quickjs/libbf.c:2704-2712 | both parts of a node are nodes of the next level, so one cached power serves the whole level |
| Radix.LevelFits | javascript/quickjs/libbf.c:2739-2742 | a node that is split lies at a level the power table has room for |
| Radix.EstimateClose | javascript/quickjs/libbf.c:3412-3419 | a reciprocal rounded to two bits more than the quotient can have, and a product rounded to the bits of the quotient, give a quotient that is at most one off |
| Radix.Converter.LevelPower | javascript/quickjs/libbf.c:3404-3415 | the power of a level and its reciprocal, computed on first use |
| Radix.Converter.FromRadixRec | javascript/quickjs/libbf.c:2693-2729 | the value of a node equals Horner evaluation of its digits; the cache stays valid |
| Radix.Converter.ToRadixRec | javascript/quickjs/libbf.c:3373-3456 | the n digits of a are written to their place and nowhere else; the cached powers and reciprocals stay valid |
| Radix.Converter.Divide | javascript/quickjs/libbf.c:3400-3437 | quotient and remainder by a power, from the product with its rounded reciprocal and at most one correction |
| Radix.Correct | javascript/quickjs/libbf.c:3425-3437 | the correction loops run as often as the estimate is off |
| Radix.EstimateInTree | javascript/quickjs/libbf.c:3412-3419 | the precisions the code takes from the numbers of digits are enough at every node |
| Radix.FromRadix | javascript/quickjs/libbf.c:2732-2753 | the value of all digits |
| Radix.ToRadix | javascript/quickjs/libbf.c:3459-3482 | the digits of a number that fits |
| Radix.RoundTrip | javascript/quickjs/libbf.c:3373-3482 | converting digits to a number and back gives the digits again |
| RegexScan.CodeScan | javascript/quickjs/libregexp.c:944-1030 | the check on emitted code never claims an advance the pattern does not make |
| RegexScan.AdvancesSound | javascript/quickjs/libregexp.c:944-1030 | every way of matching a pattern that must advance ends further on |
| RegexScan.SimpleRun | javascript/quickjs/libregexp.c:1032-1071 | straight-line code matches in at most one way, at a fixed distance, as the reference does |
| RegexSimple.SimpleYields | javascript/quickjs/libregexp.c:2450-2489 | the optimized instruction stepping back by char_count visits the reference's ends in order, down to quant_min |
| RegexFate.FateUniform | javascript/quickjs/libregexp.c:2106-2174 | captures do not decide whether a run accepts, fails or goes on for ever |
| RegexFate.FateRefers | javascript/quickjs/libregexp.c:1555-1690 | the fate of a pattern is the first of the reference's ways that the rest accepts, unless it is to run for ever, which needs an unbounded lazy loop over an atom that may be empty |
| RegexCorrect.StarYields | javascript/quickjs/libregexp.c:1622-1637 | a loop with the test for progress, or over an atom that must advance, yields the ways of the reference's loop, in order |
| RegexCorrect.StarLoop | javascript/quickjs/libregexp.c:1622-1637 | the emitted code is such a loop: the choice at its head, the atom, and the way back |
| RegexCorrect.UpToYields | javascript/quickjs/libregexp.c:1638-1649 | a counted loop yields at most that many iterations, in the order of its priority |
| RegexCorrect.LookYields | javascript/quickjs/libregexp.c:1284-1320 | a lookahead keeps its captures when it holds, and discards its choices |
| RegexCorrect.NodeCorrect | javascript/quickjs/libregexp.c:1502-1770 | wherever the code of a pattern without such loops stands, it yields exactly the ways of the ordered-choice reference, in order |
| RegexForever.StarMeets | javascript/quickjs/libregexp.c:1616-1637 | the emitted loop does what the fate says: it is left after an iteration without progress when it tests for one, and never ends when it does not |
| RegexForever.NodeFaithful | javascript/quickjs/libregexp.c:1502-1770 | compiler correctness for every pattern, and whatever follows it: accepting, failing, and running for ever |
| RegexProgram.WholeFirst | javascript/quickjs/libregexp.c:1851-1860 | the lazy prefix makes the first way of the program the leftmost match |
| RegexProgram.ProgramCorrect | javascript/quickjs/libregexp.c:2089-2494 | for every pattern, subject and start: the program stops with the leftmost, first-choice match of the reference, or with none, or it runs for ever, exactly as the fate of the pattern says |
| RegexProgram.StopsUnlessForever | javascript/quickjs/libregexp.c:2089-2494 | the program reaches a result exactly when its fate is not to run for ever |
| RegexProgram.TameStops | javascript/quickjs/libregexp.c:1590-1598 | without unbounded lazy loops over atoms that may be empty every program stops |
| RegexProgram.OneResult | javascript/quickjs/libregexp.c:2089-2494 | the machine is deterministic: no other result can be reached |
| RegexProgram.SimpleRefinesLoop | javascript/quickjs/libregexp.c:1566-1589 | the optimized instruction and the generic code of the same quantifier, whatever its bounds, yield the same list of ways |
| RegexClass.LreParseEscape | javascript/quickjs/libregexp.c:492-601 | the value of an escape, hexadecimal and octal forms included, or that there is none |
| RegexClass.GetClassAtom | javascript/quickjs/libregexp.c:711-819 | one character, or an escape for several, with the Annex B readings of a lone backslash |
| RegexClass.InitCharRange | javascript/quickjs/libregexp.c:224-246 | the canonical list of an escape such as \d, complemented for a capital letter |
| RegexClass.KindList | javascript/quickjs/libregexp.c:1474-1488 | an escape for several characters outside a class has the list of a class of its own |
| RegexClass.ParseCharClass | javascript/quickjs/libregexp.c:859-943 | the canonical list of all items of a class, complemented behind a ^ |
| RegexGrammar.ListMatches | javascript/quickjs/libregexp.c:859-943 | a class in a pattern passes exactly the characters its items name, or, behind a ^, all others |
| RegexCompiler.IsSimpleQuantifier | javascript/quickjs/libregexp.c:1034-1071 | the scan returns the number of characters of straight-line code, or -1 |
| RegexCompiler.CheckAdvanceScan | javascript/quickjs/libregexp.c:950-1030 | the scan returns whether the first instruction that is not neutral advances |
| RegexCompiler.REParseState.EmitSimple | javascript/quickjs/libregexp.c:1566-1589 | the atom becomes the body of one optimized instruction |
| RegexCompiler.REParseState.EmitStar | javascript/quickjs/libregexp.c:1622-1637 | split, position and jump around the atom |
| RegexCompiler.REParseState.EmitUpTo | javascript/quickjs/libregexp.c:1638-1649 | the counted loop around the atom |
| RegexCompiler.REParseState.EmitReset | javascript/quickjs/libregexp.c:1604-1612 | the reset of the captures inside |
| RegexCompiler.REParseState.EmitOptional | javascript/quickjs/libregexp.c:1604-1649 | every form without mandatory iteration |
| RegexCompiler.REParseState.EmitRepeat | javascript/quickjs/libregexp.c:1655-1666 | the mandatory iterations |
| RegexCompiler.REParseState.EmitTail | javascript/quickjs/libregexp.c:1667-1689 | the optional iterations over a copy of the atom |
| RegexCompiler.REParseState.EmitQuantifier | javascript/quickjs/libregexp.c:1558-1690 | insertions, copies and patched offsets leave exactly the code of the quantifier behind an unchanged prefix |
| RegexCompiler.REParseState.ParseDigits | javascript/quickjs/libregexp.c:446-469 | the number read, saturating at INT32_MAX |
| RegexCompiler.REParseState.ParseSuffix | javascript/quickjs/libregexp.c:1502-1560 | the repetition count, including the Annex B treatment of a brace that is none |
| RegexCompiler.REParseState.CountLooksValid | javascript/quickjs/libregexp.c:1245-1266 | whether an opening brace reads as a repetition count |
| RegexCompiler.REParseState.ParseClass | javascript/quickjs/libregexp.c:1457-1466 | a class emits the code of its list |
| RegexCompiler.REParseState.ParsePlain | javascript/quickjs/libregexp.c:1472-1499 | a character, or the list of an escape for several |
| RegexCompiler.REParseState.ParseZero | javascript/quickjs/libregexp.c:1402-1418 | legacy octal behind a zero |
| RegexCompiler.REParseState.ParseEscape | javascript/quickjs/libregexp.c:1357-1456 | escapes of the covered grammar |
| RegexCompiler.REParseState.ParseCapture | javascript/quickjs/libregexp.c:1331-1355 | a capture group with its number and its two save instructions |
| RegexCompiler.REParseState.ParseLookahead | javascript/quickjs/libregexp.c:1283-1313 | a lookahead with its patched jump |
| RegexCompiler.REParseState.ParseGroup | javascript/quickjs/libregexp.c:1271-1356 | the groups, or an error |
| RegexCompiler.REParseState.ParseAtom | javascript/quickjs/libregexp.c:1222-1500 | the atoms, or an error |
| RegexCompiler.REParseState.ParseTerm | javascript/quickjs/libregexp.c:1215-1702 | a term of the covered grammar emits the code of the tree the reader gives |
| RegexCompiler.REParseState.ParseAlternative | javascript/quickjs/libregexp.c:1704-1736 | the terms up to a bar or a parenthesis, in sequence |
| RegexCompiler.REParseState.ParseDisjunction | javascript/quickjs/libregexp.c:1738-1770 | a split in front of all alternatives so far, a patched jump behind |
| RegexCompiler.REParseState.ParseChoice | javascript/quickjs/libregexp.c:1745-1768 | one more alternative |
| RegexLreCompile.FlagBits | javascript/quickjs/libregexp.c:1828-1832 | each flag is read from its own bit, whatever the others are |
| RegexLreCompile.LreCompile | javascript/quickjs/libregexp.c:1821-1908 | rejected, outside the covered grammar, too deep, or the image: header, search prefix and the code of the tree |
| RegexText.ReadCount | javascript/quickjs/libregexp.c:1502-1553 | round trip: *, +, ?, {n}, {n,} and {n,m} are read as the bounds they were written for |
| RegexText.CountAgrees | javascript/quickjs/libregexp.c:1245-1266 | an opening brace at the start of an atom is an error only where it would be a count behind one |
| RegexText.ReadHexEscape | javascript/quickjs/libregexp.c:518-571 | \x and \u with the hexadecimal digits of a code, in either case, are that character |
| RegexText.ControlNames | javascript/quickjs/libregexp.c:500-517 | \b (in a class), \t, \n, \v, \f and \r are the characters 8 to 13 |
| RegexText.ControlLetters | javascript/quickjs/libregexp.c:750-765 | \c and the i-th letter, in either case, is the i-th control character |
| RegexText.ReadOctalDigits | javascript/quickjs/libregexp.c:572-595 | three octal digits, of which the third counts only below 256 |
| RegexText.ReadClassText | javascript/quickjs/libregexp.c:859-943 | round trip: the text of an interval list, behind ^ where it has no end, is read as the class with exactly this list |
| RegexMeaning.DigitMeans | javascript/quickjs/libregexp.c:150-153 | \d is 0 to 9 |
| RegexMeaning.WordMeans | javascript/quickjs/libregexp.c:199-205 | \w is letters, digits and underscore, the characters that make words for \b |
| RegexMeaning.SpaceMeans | javascript/quickjs/libregexp.c:156-169 | \s is the white space and line terminators of ECMA-262, and nothing else |
| RegexMeaning.CapitalsMean | javascript/quickjs/libregexp.c:224-245 | \D, \S and \W are their complements |
| RegexMeaning.KindPasses | javascript/quickjs/libregexp.c:1474-1488 | as an atom of a pattern each of the six escapes passes exactly its characters |
| RegexMeaning.ZeroMeans | javascript/quickjs/libregexp.c:1402-1418 | behind \0 two more octal digits are read |
| RegexMeaning.OctalStops | javascript/quickjs/libregexp.c:572-595 | octal escapes end before the first other character |
| RegexMeaning.PlainMeans | javascript/quickjs/libregexp.c:1467-1499 | characters without a meaning of their own stand for themselves, lone closing brackets and braces among them |
| RegexMeaning.BraceMeans | javascript/quickjs/libregexp.c:1245-1266 | so does an opening brace that can be no count (Annex B) |
| RegexMeaning.IdentityEscape | javascript/quickjs/libregexp.c:777-795 | and, behind a backslash, every character that names nothing else |
| RegexMeaning.ShortHex | javascript/quickjs/libregexp.c:518-571 | a hexadecimal escape without all its digits is the letter x or u |
| RegexMeaning.ControlElse | javascript/quickjs/libregexp.c:750-765 | \c without a letter is a backslash before a c; in a class digits and the underscore count as letters |
| RegexMeaning.HyphenMeans | javascript/quickjs/libregexp.c:875-923 | a hyphen in a class makes an interval, but is itself where it stands first or last |
| RegexMeaning.HyphenBeside | javascript/quickjs/libregexp.c:881-901 | and next to an escape for several characters (Annex B) |
| RegexMeaning.StrayCount | javascript/quickjs/libregexp.c:1267-1270 | a repetition with nothing before it is an error, whatever was read before |
| RegexMeaning.AnchorCount | javascript/quickjs/libregexp.c:1227-1234 | so is one behind an anchor |
| RegexMeaning.FallingCount | javascript/quickjs/libregexp.c:1535-1539 | so is a count {n,m} with m below n |
| RegexMeaning.OpenGroup | javascript/quickjs/libregexp.c:1271-1356 | so is a group without a closing parenthesis |
| RegexMeaning.UnknownGroup | javascript/quickjs/libregexp.c:1328-1330 | and behind (? every character but four is an error |
| RegexMeaning.OpenClass | javascript/quickjs/libregexp.c:875-880 | a class without a closing bracket is an error |
| RegexMeaning.OutsideTexts | javascript/quickjs/libregexp.c:1288-1452 | back references and lookbehind are reported as outside the covered grammar, never misread |
| RegexMeaning.DotIsClass | javascript/quickjs/libregexp.c:2245-2251 | the dot passes what the class [^\n\r\u2028\u2029], read from its text, passes |
| RegexMeaning.CharIsClass | javascript/quickjs/libregexp.c:2175-2191 | a character passes what the class of it alone passes |
| RegexMeaning.AnchorsMean | javascript/quickjs/libregexp.c:2227-2244 | in multi-line mode ^ passes behind, and $ before, exactly the characters the dot refuses; else at the ends of the subject only |
| RegexMeaning.BoundaryMeans | javascript/quickjs/libregexp.c:2301-2322 | \b passes exactly where one neighbour is in \w and the other is not; \B everywhere else |
| RegexRoundTrip.TextReads | javascript/quickjs/libregexp.c:1738-1770 | round trip: the text of a pattern, with no more parentheses than precedence asks for, is read to its end, as the tree that regroups its sequences from the left |
| RegexSame.RoundTrip | javascript/quickjs/libregexp.c:1738-1770 | and this tree has, on every subject and from every position, the same ways of matching, in the same order |
| RegexSame.TextMatches | javascript/quickjs/libregexp.c:1738-1770 | so searching with the text of a pattern finds the match of the pattern, captures included |
| RegexReadable.Rewritten | javascript/quickjs/libregexp.c:1738-1770 | every pattern the reader accepts can be written out again, and what is written finds the same matches |
| RegexCaptures.EndsMove | javascript/quickjs/libregexp.c:2257-2276 | on every way of matching a pattern changes no group outside its own, and its own stay unset or stretches of the subject |
| RegexCaptures.FirstMatchMeans | javascript/quickjs/libregexp.c:1849-1857 | the match found starts at the first position where the pattern matches (at the given one with the sticky flag) and is the first way there; group 0 is its start and end; when there is none the pattern matches nowhere |
| RegexCaptures.SearchMeans | javascript/quickjs/libregexp.c:2499-2535 | so it is for every pattern the reader accepts |
| RegexStack.CodeStack | javascript/quickjs/libregexp.c:1600-1690 | emitted code is closed under jumps of equal depth and leaves the depth as it found it |
| RegexStack.StepFits | javascript/quickjs/libregexp.c:2102-2493 | one instruction keeps the depth of the current and of all saved states where the scan has it |
| RegexStack.StackSound | javascript/quickjs/libregexp.c:1772-1815 | in every reachable state the operand stack has the depth of the scan at pc: no underflow, never above compute_stack_size |
| RegexStack.ComputeStackSize | javascript/quickjs/libregexp.c:1773-1815 | the linear scan returns the greatest depth, or -1 above the limit |
| RegexExec.REExecContext.constructor | javascript/quickjs/libregexp.c:2499-2535 | captures, stack and saved states at the start of a run |
| RegexExec.REExecContext.RestoreCaptures | javascript/quickjs/libregexp.c:2125-2127 | the saved captures copied back |
| RegexExec.REExecContext.RestoreRest | javascript/quickjs/libregexp.c:2128-2135 | operand stack, position and program counter |
| RegexExec.REExecContext.StepBack | javascript/quickjs/libregexp.c:2137-2159 | a saved greedy quantifier gives back one iteration and stays saved while more are left |
| RegexExec.REExecContext.Unwind | javascript/quickjs/libregexp.c:2106-2174 | popping saved states on match and on failure does what the abstract machine does |
| RegexExec.REExecContext.ExecRange | javascript/quickjs/libregexp.c:2367-2443 | the class instruction at pc passes exactly when the next character is a member, and goes on behind its intervals |
| RegexExec.REExecContext.ExecTest | javascript/quickjs/libregexp.c:2175-2256 | the test instructions |
| RegexExec.REExecContext.ExecAtom | javascript/quickjs/libregexp.c:2464-2476 | the run of the atom without recursion |
| RegexExec.REExecContext.ExecGreedy | javascript/quickjs/libregexp.c:2450-2489 | as many iterations as there are, up to the maximum, and the saved state for the rest |
| RegexExec.REExecContext.ExecSplit | javascript/quickjs/libregexp.c:2192-2222 | splits and assertions save a state |
| RegexExec.REExecContext.ExecSave | javascript/quickjs/libregexp.c:2257-2276 | saving and resetting captures |
| RegexExec.REExecContext.ExecStack | javascript/quickjs/libregexp.c:2277-2294 | pushes and drops |
| RegexExec.REExecContext.ExecLoop | javascript/quickjs/libregexp.c:2285-2300 | counted loops and the test for progress |
| RegexExec.REExecContext.Execute | javascript/quickjs/libregexp.c:2102-2493 | one turn of the interpreter loop is one step of the abstract machine |
| RegexExec.REExecContext.LreExecBacktrack | javascript/quickjs/libregexp.c:2089-2494 | when the abstract machine stops with a result, the loop ends with that result |
| RegexExec.LreExec | javascript/quickjs/libregexp.c:2499-2535 | whenever the run of a compiled image ends, on a subject of 8-bit or 16-bit characters, it ends with the leftmost, first-choice match with all captures, or with none |
| RegexExec.Search | javascript/quickjs/libregexp.c:1821-1908 | end to end: compile, then run |
| RegexLazy.LazyRunsForever | javascript/quickjs/libregexp.c:1590-1598 | before something that matches nowhere, a lazy unbounded loop runs for ever exactly when from some start, after some iterations, its atom can match without consuming anything |
| RegexLazy.LazyNeverStops | javascript/quickjs/libregexp.c:1590-1598 | on the empty subject the program of a*? before a character runs for ever exactly when a has some way of matching there |
| RegexLazy.LazyTextNeverStops | javascript/quickjs/libregexp.c:1590-1598 | the text (?:)*?b compiles, and its program never stops on the empty subject |
| CharRanges.MemberInterval | javascript/quickjs/libunicode.c:270-285 | counting points modulo two is lying in one of the intervals |
| CharRanges.CanonicalUnique | javascript/quickjs/libunicode.c:326-353 | one canonical list per set |
| CharRanges.ListOfIs | javascript/quickjs/libunicode.c:326-353 | the points where membership changes are the only canonical list of a set |
| CharRanges.OperationsMean | javascript/quickjs/libunicode.c:326-353 | intersection is union of complements, complemented; exclusive or is union without intersection |
| CharRanges.CharRange.Compress | javascript/quickjs/libunicode.c:326-352 | in place, for sorted lists with duplicates: the canonical list of the same set, using only given points |
| CharRanges.CharRange.CrOp | javascript/quickjs/libunicode.c:355-405 | union, intersection or exclusive or, exactly, as a canonical list |
| CharRanges.CharRange.Union1 | javascript/quickjs/libunicode.c:407-417 | the union in place |
| CharRanges.CharRange.UnionInterval | javascript/quickjs/libunicode.h:91-97 | the union with one interval |
| CharRanges.CharRange.Invert | javascript/quickjs/libunicode.c:419-431 | the complement below 2^32 - 1, canonical |
| CharRanges.CharRange.InvertTwice | javascript/quickjs/libunicode.c:419-431 | inverting a canonical list twice gives it back |
| CharClass.EmitRange | javascript/quickjs/libregexp.c:821-857 | the instruction with the 16-bit or 32-bit intervals, a test that always fails for none; false for too many intervals |
| CharClass.DecodeEmitted | javascript/quickjs/libregexp.c:2367-2443 | round trip: the intervals read from an emitted class are those it was made from, infinity included, and its size is the one the scans compute |
| CharClass.MatchRange | javascript/quickjs/libregexp.c:2367-2443 | the binary search accepts c <= 0x10FFFF exactly when it is in the set the operand was made from |
| CharClass.Search | javascript/quickjs/libregexp.c:2391-2402 | idx_max never goes below zero and the interval found decides |
| UnicodeTable.GetIndexPos | javascript/quickjs/libunicode.c:172-203 | -1 only beyond the table, else an entry at or before c |
| UnicodeTable.ScanEntry | javascript/quickjs/libunicode.c:218-237 | an entry answers for c, or the scan goes on behind it |
| UnicodeTable.LreIsInTable | javascript/quickjs/libunicode.c:205-238 | for every well-formed table and index, the answer of a scan from the start |
| UnicodeTable.UnicodeProp1 | javascript/quickjs/libunicode.c:1129-1166 | the expanded ranges are the canonical list of the set that scan defines |
| UnicodeGen.FindRuns | javascript/quickjs/unicode_gen.c:1412-1431 | run lengths that describe the property exactly |
| UnicodeGen.BuildPropTable | javascript/quickjs/unicode_gen.c:1399-1497 | the generated table stands for the property and its index is well-formed; the generator stops exactly when the property holds of 0 or, with an index wanted, some offset does not fit |
| UnicodeGen.LookUpBuilt | javascript/quickjs/unicode_gen.c:1399-1497 | round trip: looking up a generated table gives back the property, whenever the generator does not stop |
| UnicodeGen.GeneratorStops | javascript/quickjs/unicode_gen.c:1439-1443 | a property for which the generator stops: short runs that make an offset of eight |
| Decompose.HangulOrder | javascript/quickjs/libunicode.c:818-825 | the syllables are all combinations of a leading consonant, a vowel and perhaps a trailing one, in dictionary order |
| Decompose.FullAllDecomposed | javascript/quickjs/libunicode.c:809-835 | nothing in a full decomposition can be decomposed further |
| Decompose.DynBuf.PutSyllable | javascript/quickjs/libunicode.c:818-825 | a Hangul syllable by arithmetic |
| Decompose.DynBuf.ToNfdRec | javascript/quickjs/libunicode.c:809-835 | appends the full decomposition, Hangul by arithmetic, everything else by repeated table steps |
| Reorder.ReorderedEquivalent | javascript/quickjs/libunicode.c:773-807 | stability: within a run the characters of each class keep their order, and nothing crosses a starter |
| Reorder.ReorderedOrdered | javascript/quickjs/libunicode.c:773-807 | no combining character is left behind one of a higher class |
| Reorder.OrderedUnique | javascript/quickjs/libunicode.c:773-807 | equivalent texts in order are the same text |
| Reorder.ReorderedDecides | javascript/quickjs/libunicode.c:773-807 | two texts are equivalent exactly when they have the same canonical order |
| Reorder.ReorderedIdempotent | javascript/quickjs/libunicode.c:773-807 | reordering twice is reordering once |
| Reorder.StartersFixed | javascript/quickjs/libunicode.c:773-807 | starters do not move and nothing takes the place of one |
| Reorder.ReorderedPermutes | javascript/quickjs/libunicode.c:773-807 | the result is a permutation |
| Reorder.MoveBack | javascript/quickjs/libunicode.c:782-796 | one character moved back over those of a higher class |
| Reorder.SortCc | javascript/quickjs/libunicode.c:773-807 | the buffer becomes its canonical order, in place |
| Compose.BlockedByLast | javascript/quickjs/libunicode.c:902-912 | in ordered text only the character just before c can block it, which is why the search may raise last_cc to 256 |
| Compose.FindStarter | javascript/quickjs/libunicode.c:902-912 | the backward search finds the last starter exactly when nothing between blocks it |
| Compose.AbsorbOrdered | javascript/quickjs/libunicode.c:913-920 | composing keeps the text in order |
| Compose.ComposeLoop | javascript/quickjs/libunicode.c:897-921 | the in-place loop computes the composition of the original text: unread input is never overwritten |
| Normalize.CompositeFull | javascript/quickjs/libunicode.c:838-851 | a composite decomposes into what its pair decomposes into, except for U+11A7 after an LV syllable |
| Normalize.NfdIdempotent | javascript/quickjs/libunicode.c:853-924 | NFD text does not change under NFD, nor NFKD text under NFKD or NFD |
| Normalize.NfcKeepsMeaning | javascript/quickjs/libunicode.c:853-924 | composing keeps the decomposition exactly when the run of the loop loses no U+11A7 |
| Normalize.NfcKeepsMeaningIff | javascript/quickjs/libunicode.c:838-851 | the condition on the decomposed text: no leading consonant, vowel and U+11A7 in a row |
| Normalize.NfcStrips | javascript/quickjs/libunicode.c:853-924 | the decomposition of NFC text is that of the original without the U+11A7 that follow an LV syllable, for every text |
| Normalize.NfcIdempotent | javascript/quickjs/libunicode.c:853-924 | NFC of NFC is NFC, for every text; NFKC text does not change under NFKC or NFC |
| Normalize.NfcDecides | javascript/quickjs/libunicode.c:853-924 | two texts have the same NFC exactly when their decompositions agree but for the U+11A7 that are lost |
| Normalize.NfcDecidesEquivalence | javascript/quickjs/libunicode.c:853-924 | of texts that lose none: exactly when they are canonically equivalent |
| Normalize.LostExample | javascript/quickjs/libunicode.c:838-851 | the input that shows the loss: U+1100 U+1161 U+11A7 |
| Normalize.SyllablesKept | javascript/quickjs/libunicode.c:838-851 | NFC of any text of Hangul syllables is the text itself, and so is NFC of its jamo |
| Normalize.PrecomposedKept | javascript/quickjs/libunicode.c:838-851 | a character whose decomposition the pair table gives back step by step is its own NFC, and that of its decomposition, exactly when this decomposition is in canonical order |
| Normalize.Latin1Shortcut | javascript/quickjs/libunicode.c:867-877 | returning Latin-1 text at once gives what the full computation would give |
| Normalize.UnicodeNormalize | javascript/quickjs/libunicode.c:853-924 | each of the four forms is the decomposition in canonical order, composed for NFC and NFKC |
| Normalize.SampleSound | javascript/quickjs/libunicode.c:838-851 | the hypotheses on the tables hold of tables with a pair of combining characters, as the shipped ones have |
| NormalForms.NothingMapped | javascript/quickjs/libunicode.c:809-835 | in NFD text no canonical mapping applies, in NFKD text no mapping of either kind |
| NormalForms.MappingKept | javascript/quickjs/libunicode.c:809-835 | applying one mapping anywhere in a text changes no form of it: a canonical one for NFD and NFC, one of either kind for NFKD and NFKC |
| NormalForms.NothingToMap | javascript/quickjs/libunicode.c:809-835 | text in order to which no mapping applies is its own decomposition |
| NormalForms.NothingLeft | javascript/quickjs/libunicode.c:897-921 | nothing is left to compose: NFC text holds no starter and no character behind it, unblocked, that have a composite |
| NormalForms.SampleOrderly | javascript/quickjs/libunicode.c:838-851 | the hypotheses on the pairs can be met |
| HeapSort.RootLargest | javascript/quickjs/cutils.c:482-488 | the root of a heap is its largest element |
| HeapSort.SiftDown | javascript/quickjs/cutils.c:482-488 | sinks an element until the heap property holds from its place on; the elements are permuted |
| HeapSort.HeapSortX | javascript/quickjs/cutils.c:470-502 | sorted and a permutation of the stretch, nothing else touched |
| HeapSort.BuildHeap | javascript/quickjs/cutils.c:477-489 | the elements form a heap |
| HeapSort.PopRoot | javascript/quickjs/cutils.c:490-500 | the largest element goes behind the heap, which shrinks |
| RQSort.Med3 | javascript/quickjs/cutils.c:504-509 | one of the three positions, holding a median |
| RQSort.InsertionSort | javascript/quickjs/cutils.c:623-627 | short stretches sorted by insertion |
| RQSort.ScanLeft | javascript/quickjs/cutils.c:551-559 | smaller elements stay, equal ones go to the front |
| RQSort.ScanRight | javascript/quickjs/cutils.c:560-566 | greater elements stay, equal ones go to the end |
| RQSort.Scan | javascript/quickjs/cutils.c:546-572 | the two scans and swaps around the pivot: smaller, greater, and equal elements at both ends |
| RQSort.SwapBlock | javascript/quickjs/cutils.c:588-602 | two blocks of equal length change places |
| RQSort.Gather | javascript/quickjs/cutils.c:580-604 | the equal elements are brought to the middle |
| RQSort.Partition | javascript/quickjs/cutils.c:541-606 | three-way partition, with a middle part that is not empty |
| RQSort.DepthsShort | javascript/quickjs/cutils.c:515-540 | saved depths increase strictly and are capped, so there is room on the 50-entry stack |
| RQSort.NarrowOnce | javascript/quickjs/cutils.c:535-621 | one partition: the larger part saved, the smaller one kept |
| RQSort.Narrow | javascript/quickjs/cutils.c:535-621 | partitions until the stretch is short, saving the larger part, or falls back to heapsortx at the depth limit |
| RQSort.RqSort | javascript/quickjs/cutils.c:512-629 | for every total preorder: sorted, a permutation, and never more than 50 stack entries |

## Left out

- FftMultiply.MpMul: beyond 2^52 limbs, where the original aborts, it multiplies row by row; the tables are filled for every long product, where the original keeps them.
- FftMultiply.FftMul: results that are resized or share memory with an operand (the flags of `fft_mul` that `mp_mul` does not use).
- NttSplit.NttConv: columns and rows are copied to buffers of their own, one at a time, where the original copies sixteen columns at once and passes pointers to the rows.
- Radix.ToRadix: the limb loops of the floating-point reciprocal and product; they are taken as correctly rounded to the precisions the code asks for.
- RegexCorrect.NodeCorrect: patterns with unbounded lazy loops over atoms that may be empty, whose ways no finite list holds; RegexForever.NodeFaithful covers them.
- Radix.PowUi: the multiplications inside base conversion are exact integer products, not limb loops.
- BfRound.BfT.Round: faithful rounding (BF_RNDF), subnormal results and the radix-point precision flag.
- BfAdd.BfAddInternal: the result object is distinct from the operands; sharing one object is not modelled.
- Logic.BfLogicOp: integers within 64 bits of the exponent range, where the intermediate sums could overflow.
- RegexLreCompile.LreCompile: back references, named groups, lookbehind, the unicode and ignore-case flags (reported as unsupported); code longer than 2^31 - 1 bytes.
- RegexExec.LreExec: surrogate pairs, which only the unicode flag joins; opcodes the covered grammar never emits, growth of the state stack, and runs that never end.
- RegexExec.Search: runs that never end (see above); the loop of the interpreter is a Dafny loop, which has to.
- CharClass.MatchRange: case folding; the subject character is given here and fetched by RegexExec.REExecContext.ExecRange.
- RegexClass.GetClassAtom: the text of a pattern is a string of code points; decoding it from UTF-8 and the escapes of the unicode flag are not modelled.
- UnicodeTable.LreIsInTable: the contents of the tables; any table and index that satisfy `WellIndexed`, which the generator is shown to establish, are covered.
- Normalize.UnicodeNormalize: the decoding of the decomposition and composition tables (they are functions with the properties in `Sound`), and the class lookup of `unicode_get_cc`.
- RQSort.RqSort: elements are values of a type; the byte-wise exchange functions and their choice by size are not modelled.
- Memory allocation failures, the AVX2 code, and 32-bit limbs.
- The transcendental functions of libbf.c and their Ziv loops, whose precision analysis the code itself says is missing; multiplication, division and square root of floating-point numbers.
- General category, script and case tables, and name lookup.
- The Varnish and KVM glue and the programs in other languages: hypercalls and HTTP against code that cannot be seen.
- qjs.c: command line and I/O.
