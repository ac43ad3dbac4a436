# The correct-rounding kernel of CRlibm, verified

CRlibm promises the correctly rounded value of an elementary function. It
keeps the promise in two phases: a quick phase computes the result as an
unevaluated sum of two doubles, a rounding test decides whether that sum is
good enough to round, and otherwise an accurate phase does the work again with
three doubles. This project models the machinery between the approximation
polynomials and the returned double, and proves it:

- **error-free transformations** (`ErrorFree`, `Product`): the two-sums and
  Dekker's product on Veltkamp's splitting are exact, subnormal factors included;
- **double-double operators** (`DoubleDouble`, `Division`, `Horner`): relative
  error bounds of `Add22`, `Mul22`, `Mul122`, `MulAdd212`, `MulAdd22`, `Div22`
  and of Horner chains of any length;
- **the square root** (`Sqrt12`, `InitialRoot`, `SquareRoot`): `sqrt12` on every
  positive double, with no hypothesis on the starting polynomial: its quality on
  [1/2, 2) is proved as well, which settles the remark "To prove: mMr3Sqh = 1.0
  in each case";
- **rounding tests** (`ZivTest`, `DirectedTests`, `MaskTests`): a test that
  passes determines the rounding of every real the words may stand for, and it is
  known when a test passes;
- **the exponential** (`LogTwo`, `ExpReduction`, `ExpQuick`, `ExpScaling`,
  `ExpFunction`): every double `exp_rn` returns before its accurate phases is
  RN(e^x), special cases included, with ln 2 enclosed by its series;
- **exact plumbing** (`IntegerConversion`, `ExpTail`, `ExpAccurate`,
  `Renormalization`, `TripleRounding`, `AsinpiTail`, `ArctanSearch`,
  `AsinDispatch`, `Expm1`, `IntervalExpm1`): rounding into the subnormal range,
  renormalisation and final rounding of triples, table searches and dispatch, and
  the endpoint logic of an interval function.

`Dyadic`, `Rounding`, `BitPattern` and `Neighbours` are the base: powers of two
and their grids, the double format with its four roundings, the 64-bit encoding
with the in-place union `db_number`, and nextUp/nextDown.

## How the machine is modelled

- A double is a real n * 2^e with |n| <= 2^53 and e >= -1074 (`Rounding.Rep`),
  so underflow is gradual as in IEEE 754-2008. The exponent has no upper limit
  in the arithmetic; where a result is stored as a bit pattern its finiteness is
  part of the contract. `RN` is roundTiesToEven (section 4.3.1), `RD`, `RU`,
  `RZ` are the directed roundings (section 4.3.2); `RNNearest`, `RDGreatest` and
  `RULeast` prove that they are what their names say.
- Every machine operation is one rounding of the exact result, in the order the
  C code performs it.
- `db_number` is the class `BitPattern.DbNumber`, a 64-bit cell read as an
  integer or as a double and changed in place (`l++`, `l--`, `i[HI] += M << 20`).
- The true function value is an arbitrary real y with a bound on its distance
  from the computed words. Nothing about asin or atan is assumed beyond such
  bounds; `Expm1` uses the functional equation E(2t) = E(t)^2, and `ExpFunction`
  any increasing function with Exp(a+b) = Exp(a) Exp(b), Exp(ln 2) = 2 and values
  within 5 * 10^-23 of the Taylor polynomial of degree four for |t| <= 0.0000848,
  together with table entries within two units of 2^-106 of the values they are
  meant to hold (`ExpQuick.Entries`).
- ln 2 is the number all of whose remainders in the series 2 artanh(1/3) lie
  between 0 and 9^-n (`LogTwo.IsLn2`).
- Error bounds are written in units of 2^-106: `Near(v, z, k)` says
  |v - z| <= k * 2^-106 * |z|. So 8 units are 2^-103, 16 are 2^-102 and 64 are 2^-100.
- `Tiny()` is 2^-960: products at least that large cannot underflow anywhere in
  the operators. It stands for the absence of underflow, which the bounds of the
  library take for granted.

## Findings

- The comment on `Add12` asks for a >= b. Without absolute values that is not
  enough (`ErrorFree.SignedOrderFails`). The pairs on which `Add12` is exact are
  known (`ErrorFree.Add12Condition`): those with |a| >= |b|, those whose sum is a
  double, those where a is a multiple of the last place of b, and one boundary
  case: b a power of two, a of the same sign and equal to n times half the last
  place of b with |n| = 1 modulo 4.
- The comment on `Add22` asks for xh > yh. When the high words cancel, the
  relative error can exceed 2^52 - 1 units of 2^-106, practically 2^-54
  (`DoubleDouble.CancellationFails`); it stays below 2^-103 when
  2|yh| + |xh| <= 5|xh + yh|, in particular for equal signs. For |yh| <= |xh| the
  error is always below 5 units of |x| + |y| and the result is normalised, with
  or without cancellation (`DoubleDouble.Add22Total`).
- The comment on `Div22` states 2^-104, which is 4 units. The quotient of
  1 + 31 * 2^-58 by 9/8 - 15 * 2^-57 is returned with an error of more than 6
  (`Division.StatedBoundFails`). With low words of at most f times half a unit in
  the last place of the high ones, the error is at most 3.011 + 7.011 f + 2.011 f^2
  units (`Division.Div22ErrorBy`): the 4 units hold up to f = 0.135
  (`Division.StatedBoundHolds`), and 12.1 units, below 2^-102, for all operands
  clear of underflow (`Division.Div22Error`).
- `DOUBLE2LONGINT` returns -2^51 instead of 0 exactly on [-1/2, 0)
  (`IntegerConversion.DoubleToLongInt`).
- The fast and the accurate arctangent searches return the same index if and
  only if x does not lie in (b[61], a[61]), where the guard of the fast one takes
  the last interval (`ArctanSearch.BothIndices`).
- The comment on the table of the arctangent bounds the reduced argument by
  "2^6.3"; the table meets 2^-6.3 on all 62 rows (`ArctanSearch.ReducedArgument`).
- `RoundToNearest3` returns the rounding of the triple if and only if it is not at
  a midpoint with either a vanishing low word and an odd high word, or a low word
  that points past the midpoint while its product with the middle word underflows
  to zero (`TripleRounding.RoundToNearest3`). The comment excludes the first case,
  not the second, which the triple 1 + 2^-53 + 2^-1074 meets
  (`TripleRounding.UnderflowReached`); no argument of a function is known to
  produce such a triple.
- The high word `Renormalize3` delivers is not always the rounding of the sum: it
  is unless the first of its sums is a midpoint that the lowest word moves past,
  or the whole sum is a midpoint (`Renormalization.HighWordRounds`, with an example
  in `HighWordMissed`).

The next three are properties of the final steps on an arbitrary triple. No
argument of exp or asinpi is known to produce such a triple; the comments in
exp-td.c exclude it for exp.

- The subnormal tails of `exp_ru` and `exp_rd` always move strictly: they return
  the correct rounding exactly when the value is not a double (`ExpTail.TailRU`,
  `ExpTail.TailRD`; `ExpTail.ExactReached` is such a triple).
- The tiny-argument path of `asinpi_rn` returns the rounding to nearest even
  exactly when the value is not a midpoint whose lower neighbour is even
  (`AsinpiTail.TinyRN`); at 2^-1075 it returns 2^-1074 where 0 is due
  (`AsinpiTail.TieReached`).
- That of `asinpi_rz` differs from the rounding to zero exactly for negative x
  whose value is a double (`AsinpiTail.TinyRZ`; `AsinpiTail.DoubleReached` is
  such a triple). `asinpi_rd` and `asinpi_ru` need no exception.

## Model

| member | source | states |
|---|---|---|
| ErrorFree.Add12Exact | crlibm/crlibm_private.h:472-479 | for all doubles with abs(b) <= abs(a): s is RN(a+b) and s + r = a + b |
| ErrorFree.SignedOrderFails | crlibm/crlibm_private.h:472-479 | a pair with a >= b, as the comment asks, on which s + r differs from a + b |
| ErrorFree.Add12ExactIff | crlibm/crlibm_private.h:472-479 | Add12 is exact if and only if s - a is a double, that is, if its first subtraction is exact |
| ErrorFree.Add12Condition | crlibm/crlibm_private.h:472-479 | Add12 is exact if and only if abs(b) <= abs(a), or a + b is a double, or a is a multiple of the last place of b, or b is a power of two and a, of the same sign, n times half the last place of b with abs(n) = 1 modulo 4 |
| ErrorFree.Add12CondExact | crlibm/crlibm_private.h:443-457 | the branch-free two-sum is exact for every pair of doubles, with s = RN(a+b) |
| ErrorFree.BranchingAgrees | crlibm/crlibm_private.h:443-480 | the branch-free and the branching two-sum return the same pair always, and Add12's pair when abs(b) <= abs(a) |
| ErrorFree.FastStep | crlibm/crlibm_private.h:476-479 | RN(a+b) - a is a double, so the first subtraction of the fast two-sum is exact |
| ErrorFree.Sterbenz | crlibm/crlibm_private.h:443-457 | the difference of two doubles within a factor two of each other is a double |
| Product.SplitExact | crlibm/crlibm_private.h:588-593 | Veltkamp's splitting with 2^27+1 yields two halves that sum to u, on their 26-bit grids, for every nonzero double |
| Product.Mul12Exact | crlibm/crlibm_private.h:549-597 | Dekker's product gives rh = RN(u*v) and rh + rl = u*v, the same pair as the fused multiply-subtract, unless u*v underflows |
| DoubleDouble.Add22Error | crlibm/crlibm_private.h:498-540 | relative error at most 8 units (2^-103) and a normalised result when the high words do not cancel |
| DoubleDouble.Add22SameSign | crlibm/crlibm_private.h:498-540 | the same bound for summands of equal sign |
| DoubleDouble.Add22Total | crlibm/crlibm_private.h:498-540 | without a condition on cancellation: an error of at most 5 units of abs(x) + abs(y), and a normalised result, whenever abs(yh) <= abs(xh) |
| DoubleDouble.CancellationFails | crlibm/crlibm_private.h:498-540 | two pairs ordered as the comment asks on which the relative error exceeds 2^52 - 1 units of 2^-106 |
| DoubleDouble.Mul22Error | crlibm/crlibm_private.h:656-680 | relative error at most 9 units, below the stated 2^-102, and a normalised result |
| DoubleDouble.ClosingAligned | crlibm/crlibm_private.h:533-540 | the last two lines of Add22 and Mul22 normalise their operands without error whenever the fast two-sum is exact on them |
| DoubleDouble.Mul122Error | crlibm/crlibm_private.h:690-699 | relative error at most 4 units, below the stated 2^-102 |
| DoubleDouble.MulAdd212Error | crlibm/crlibm_private.h:701-713 | relative error at most 9 units, below the stated 2^-100, when the product is at most a quarter of the addend |
| DoubleDouble.MulAdd22Error | crlibm/crlibm_private.h:715-731 | relative error at most 11 units, below the stated 2^-100, under the same condition |
| Division.RemainderRep | crlibm/crlibm_private.c:255-260 | the remainder xh - ch*yh of the first quotient is a double |
| Division.Div22ErrorBy | crlibm/crlibm_private.c:250-260 | for low words within the fraction f of half a unit in the last place: relative error at most 3.011 + 7.011 f + 2.011 f^2 units against the exact quotient, and a normalised result |
| Division.Div22Error | crlibm/crlibm_private.c:250-260 | relative error at most 12.1 units, and a normalised result, for all operands clear of underflow |
| Division.StatedBoundHolds | crlibm/crlibm_private.c:250-260 | the stated 2^-104, 4 units, for operands whose low words are at most 0.135 times half a unit in the last place of the high ones |
| Division.StatedBoundFails | crlibm/crlibm_private.c:250-260 | two normalised operands, clear of underflow, on which the relative error exceeds 6 units, so that the stated 2^-104 does not hold |
| Horner.ChainError | crlibm/asin-td.c:531-539 | a chain of MulAdd212 of any length whose steps meet the quarter condition has at most 16 units of error |
| Horner.CoefficientsSuffice | crlibm/asin-td.c:531-539 | the quarter condition on every computed intermediate follows from one on the coefficients alone |
| Horner.HornerError | crlibm/asin-td.c:531-539 | hence a chain of any length has a relative error of at most 16 units, well below 2^-99 and independent of its length, from a condition on the coefficients |
| Sqrt12.NewtonDouble | crlibm/crlibm_private.h:852-855 | a machine Newton step turns the defect d = 1 - m*r^2 into at most 0.76 d^2 plus 6.5 * 2^-53 |
| Sqrt12.ThirdStepError | crlibm/crlibm_private.h:857-867 | the double-double step turns it into at most 0.76 d^2 plus 25.5 units |
| Sqrt12.HighIsOne | crlibm/crlibm_private.h:869-871 | from a defect of 4.5e-17 on, the high word of m*r3^2 is exactly 1 and its low word is the defect to 18.1 units |
| Sqrt12.Corrected | crlibm/crlibm_private.h:871-873 | the correction by half the low word leaves a defect of at most 37 units |
| Sqrt12.LastStepError | crlibm/crlibm_private.h:871-877 | the square of the resulting pair is m up to a relative 55.1 units |
| InitialRoot.InitialDefect | crlibm/crlibm_private.h:782-795 | the polynomial for 1/sqrt(m), as evaluated in doubles, has a defect of at most 0.0106 on the whole of [1/2, 2) |
| InitialRoot.QuarticDefect | crlibm/crlibm_private.h:791-795 | the quality of the polynomial itself, proved patch by patch from its Taylor expansions |
| InitialRoot.HighWordIsOne | crlibm/crlibm_private.c:340 | the open claim: the high word of m*r3^2 is 1 for every mantissa |
| SquareRoot.Decompose | crlibm/crlibm_private.h:819-845 | x = m * 2^E exactly with E even and m in [1/2, 2), for normal and subnormal x; the stored pattern is 2^(E/2) |
| SquareRoot.Root | crlibm/crlibm_private.c:267-353 | for every positive double the square of the returned pair is x up to a relative 58 units and the pair is normalised, its high word being the rounding of the sum; zero gives zero |
| SquareRoot.RelativeToRoot | crlibm/crlibm_private.c:267-269 | the same against the real square root: a relative error below 2^-100 |
| ZivTest.ZivSound | crlibm/exp-td.c:341-345 | if the comparison passes and the constant absorbs eps, then RN(y) = yh for every y within a relative eps of yh + yl, powers of two included |
| ZivTest.ZivPasses | crlibm/exp-td.c:341-345 | conversely the comparison passes whenever the scaled low word is at most 0.49999 times the gap between yh and its neighbour on the side of yl |
| ZivTest.ExpConstant | crlibm/exp-td.h:22 | ROUNDCST absorbs a relative error of 2^-64, and is below 1.001 |
| ZivTest.Expm1Constant | crlibm/expm1.h:20-23 | the constants of expm1 absorb 2^-62, and are below 1.004 |
| ZivTest.AsinConstant | crlibm/asincos.h:4-5 | RNROUNDCST of asin absorbs RDROUNDCST, and is below 1.0028 |
| DirectedTests.UnitPattern | crlibm/crlibm_private.h:157 | masking and adding on the pattern builds the least power of two above abs(yh) |
| DirectedTests.PassedTest | crlibm/crlibm_private.h:149-168 | a passed comparison places y strictly between yh and the neighbour on the side of yl |
| DirectedTests.DecidesMeans | crlibm/crlibm_private.h:155-158 | with a bound of 2^-k the comparison holds if and only if the unit is finite and abs(yl) exceeds 2^-k units, underflow of the machine product included |
| DirectedTests.TestAndReturnRU | crlibm/crlibm_private.h:149-168 | it returns a pattern exactly when the comparison holds, and every returned pattern is RU(y) |
| DirectedTests.TestAndReturnRD | crlibm/crlibm_private.h:170-189 | the same for RD(y) |
| DirectedTests.TestAndReturnRZ | crlibm/crlibm_private.h:192-209 | the same for RZ(y) |
| Neighbours.StepBits | crlibm/crlibm_private.h:159-164 | l++ and l-- are nextUp and nextDown in the direction given by the sign, across binades |
| MaskTests.NearestSound | crlibm/double-extended.h:83-94 | away from the patterns 0x3ff and 0x400 under the mask, everything within 2^k units rounds to nearest like the computed value |
| MaskTests.DirectedSound | crlibm/double-extended.h:97-124 | away from the patterns 0 and all ones, the same for both directed roundings |
| MaskTests.SlackIsPower | crlibm/double-extended.h:45-50 | the mask ACCURATE_TO_(64-k)_BITS leaves out exactly the bits below 2^k |
| MaskTests.MaskedBits | crlibm/double-extended.h:83-94 | masking the low eleven bits subtracts the significand modulo 2^k |
| MaskTests.TestRN | crlibm/double-extended.h:83-94 | a returned double is RN of every value within 2^k units of the last place, and one is returned exactly when the low eleven bits are at least 2^k away from 0x400 |
| MaskTests.TestRD | crlibm/double-extended.h:97-110 | the same for RD, returned exactly when the low eleven bits are at least 2^k away from 0 and 0x800 |
| MaskTests.TestRU | crlibm/double-extended.h:111-124 | the same for RU |
| IntegerConversion.DoubleToInt | crlibm/crlibm_private.h:112-119 | the nearest integer, ties to even, read from the low word |
| IntegerConversion.DoubleToLongInt | crlibm/crlibm_private.h:122-131 | the nearest integer if and only if d is not in [-1/2, 0), where the result is -2^51 |
| ExpReduction.Reduce | crlibm/exp-td.c:123-204 | kd is the integer nearest to the scaled argument and equals k, and meets the hypothesis of the error bound; k = 4096 M + 64 index2 + index1 with both indices below 64; M in [-1075, 1024], 1024 only with zero indices, at most -1022 up to DENORMBOUND and at least -1022 above it |
| ExpReduction.LeadingCancels | crlibm/exp-td.c:195-198 | the subtraction of the leading product from x is exact |
| LogTwo.Enclosure | crlibm/exp-td.h:8-9 | two rationals 2^-114 apart that enclose the limit of the series of ln 2 |
| ExpReduction.StepIsLn2 | crlibm/exp-td.h:7-9 | the two step constants sum to -ln 2 / 4096 up to 2^-121, and the scaling constant is 4096 / ln 2 up to half a unit in the last place |
| ExpReduction.BoundsAreLn2 | crlibm/exp-td.h:15-19 | the overflow, underflow and denormal bounds are 1024 ln 2, -1075 ln 2 and -1022 ln 2 to 2^-44, the first two below and the last one above |
| ExpReduction.ReductionError | crlibm/exp-td.c:195-199 | rh + rm is a normalised pair within 1.6e-13 * 2^-53 of x - kd * ln 2 / 4096 |
| ExpScaling.ScalingExact | crlibm/exp-td.c:341-345 | adding M << 20 to the high word multiplies by exactly 2^M, M = 1024 included, as long as the result is normal |
| ExpScaling.RoundingsCommute | crlibm/exp-td.c:361-375 | RN, RD and RU commute with the scaling by 2^M for normal results |
| ExpQuick.TermsAreTaylor | crlibm/exp-td.c:306-322 | the polynomial with the coefficients c3 and c4 is 1 + r + r^2/2 + r^3/6 + r^4/24 up to 2e-23 on the reduced range |
| ExpQuick.PolyWordError | crlibm/exp-td.c:306-322 | t9 is within 0.0000851 * 2^-53 of r + r^2/2 + r^3/6 + r^4/24 for the exact reduced argument r |
| ExpQuick.QuickWordsError | crlibm/exp-td.c:306-331 | the two words are normalised and stand for T1 * T2 * E with a relative error of at most 2^-64, for every E within 0.00023 * 2^-53 of the Taylor polynomial and table entries within two units of T1 and T2 |
| ExpQuick.ReductionSuits | crlibm/exp-td.c:195-199 | the argument reduction against x - kd * ln 2 / 4096 delivers words in the range this needs |
| ExpQuick.QuickExit | crlibm/exp-td.c:306-345 | from the reduced argument to the returned pattern: whenever the rounding test passes, the result is RN(2^M * T1 * T2 * E) |
| ExpFunction.ExpRN | crlibm/exp-td.c:106-345 | exp_rn on every pattern up to its accurate phases: NaN and infinities as they should be, a finite argument whose result is returned gets RN(e^x), overflow to infinity and underflow to zero included; the arguments that go on are exactly those between the underflow and the denormal bound and those whose quick words fail the rounding test |
| ExpFunction.QuickPhase | crlibm/exp-td.c:123-345 | the quick phase itself: it returns exactly when the rounding test passes on the words of the nearest multiple of ln 2 / 4096, and then RN(e^x) |
| ExpFunction.Overflowed | crlibm/exp-td.c:167-171 | for every double above OVRFLWBOUND the rounding of e^x is at least 2^1024 |
| ExpFunction.Underflowed | crlibm/exp-td.c:173-178 | up to UNDERFLWBOUND e^x rounds to 0 |
| ExpFunction.RoundsToOne | crlibm/exp-td.c:134-138 | for zero and subnormal arguments e^x rounds to 1 |
| ExpFunction.AtMultiples | crlibm/exp-td.c:123-204 | the functional equation gives e^(M ln 2) = 2^M for every integer M |
| ExpFunction.ResultRange | crlibm/exp-td.h:15-19 | between the denormal and the overflow bound e^x is at least 2^-1022 and its rounding is below 2^1024 |
| ExpScaling.QuickRN | crlibm/exp-td.c:341-345 | the quick exit returns RN(2^M y) for every y the words may stand for, and returns exactly when the comparison holds |
| ExpScaling.QuickRU | crlibm/exp-td.c:632-637 | the quick exit of exp_ru returns RU(2^M y) |
| ExpScaling.QuickRD | crlibm/exp-td.c:928-933 | the quick exit of exp_rd returns RD(2^M y) |
| ExpScaling.RdDecides | crlibm/exp-td.h:23 | the comparison of exp_ru and exp_rd holds if and only if the low word exceeds 2^-64 units |
| Renormalization.Renormalize3Exact | crlibm/triple-double.h:56-87 | for words overlapping by at most 51 bits: the sum is preserved exactly, the middle word is the rounding of the two lower ones, and it is at most seven eighths of the gap between the high word and the next double |
| Renormalization.HighWordRounds | crlibm/triple-double.h:79-87 | the high word is the rounding of the sum if and only if the first sum is not a midpoint moved past by the lowest word and the whole sum is not a midpoint with the high word on its odd side |
| Renormalization.HighWordMissed | crlibm/triple-double.h:79-87 | three words meeting the precondition whose high word is not the rounding of their sum |
| TripleRounding.RoundToNearest3 | crlibm/triple-double.h:1035-1081 | the rounding to nearest of xh + xm + xl, for both signs and powers of two, if and only if the triple is not at a midpoint with xl = 0 and xh odd, or with xl pointing past it and xm*xl at most half the least subnormal; xh is returned there |
| TripleRounding.UnderflowReached | crlibm/triple-double.h:1070-1080 | the triple (1, 2^-53, 2^-1074) meets the hypotheses; the product of its low words underflows and the macro misrounds |
| TripleRounding.RenormalizedSuits | crlibm/triple-double.h:1047-1050 | the output of Renormalize3 meets the hypotheses of the three rounding macros, with the same sum |
| TripleRounding.RoundUpwards3 | crlibm/triple-double.h:1083-1127 | the rounding up of the triple, exact sums included |
| TripleRounding.RoundDownwards3 | crlibm/triple-double.h:1129-1171 | the rounding down of the triple, exact sums included |
| ExpAccurate.AccurateRN | crlibm/exp-td.c:358-375 | rounding the triple first and scaling afterwards gives RN(2^M (ph+pm+pl)) |
| ExpAccurate.AccurateRU | crlibm/exp-td.c:652-668 | the same for RU |
| ExpAccurate.AccurateRD | crlibm/exp-td.c:947-963 | the same for RD |
| ExpTail.Descend | crlibm/exp-td.c:240-265 | of the five operations only the one that reaches the subnormal range rounds, and t7 is exactly its error scaled by 2^-M |
| ExpTail.TailRN | crlibm/exp-td.c:230-299 | no double rounding: the result is RN(2^M (ph+pm+pl)), ties to even, into the subnormal range; a zero result is +0 |
| ExpTail.TailRU | crlibm/exp-td.c:527-590 | the least double strictly above 2^M (ph+pm+pl), which is RU exactly when that value is not a double |
| ExpTail.TailRD | crlibm/exp-td.c:824-886 | the greatest double strictly below it, which is RD exactly when it is not a double |
| ExpTail.ExactReached | crlibm/exp-td.c:566-572 | a triple that meets the hypotheses of the tails and whose scaled value is a double |
| ExpTail.RenormalizedTriple | crlibm/exp-td.c:89 | the output of Renormalize3 meets the hypothesis of the tails exactly when its high word is the rounding of the sum |
| AsinpiTail.Situate | crlibm/asincos.c:3156-3205 | the comparisons made on deltah and deltal decide where the exact value lies against the intermediate rounding, its neighbour and their midpoint |
| AsinpiTail.TinyRN | crlibm/asincos.c:3156-3244 | a nearest double to (h+m+l) 2^-1000 for both signs, subnormal or normal, the upper one at midpoints; it is RN if and only if the value is not a midpoint with an even lower neighbour; the sign bit is that of h, for zeros too |
| AsinpiTail.NearestUpIsRN | crlibm/asincos.c:3215-3244 | the nearest double, midpoints going up, is RN if and only if the value is not a midpoint whose lower neighbour has an even significand |
| AsinpiTail.TieReached | crlibm/asincos.c:3215-3244 | a triple that meets the hypotheses and is such a midpoint: 2^-1075, where the tail gives 2^-1074 and RN is 0 |
| AsinpiTail.TinyRD | crlibm/asincos.c:3535-3595 | exactly RD((h+m+l) 2^-1000), for both signs, with the sign bit of h |
| AsinpiTail.TinyRU | crlibm/asincos.c:3889-3948 | exactly RU, for both signs, with the sign bit of h |
| AsinpiTail.TinyRZ | crlibm/asincos.c:4242-4298 | RZ if and only if not (x < 0 and the value is a double); in that case the next double above the value |
| AsinpiTail.DoubleReached | crlibm/asincos.c:4284-4298 | a triple for a negative x that meets the hypotheses and whose value is a double |
| AsinpiTail.RenormalizedScaled | crlibm/asincos.c:3144-3162 | the output of Renormalize3 meets the hypotheses of the four tiny-argument paths, with the same sum |
| ArctanSearch.QuickIndex | crlibm/atan_fast.c:49-81 | up to b[61] the interval of x among the 62 limits of the table, never outside it; above b[61] the index 61; in both cases (x - b[i]) / (1 + x b[i]) is at most 2^-6.3 in magnitude |
| ArctanSearch.AccurateIndex | crlibm/atan_accurate.c:86-100 | the interval of x for every larger x, the clamp keeping the index in 0..61; the same bound of the reduced argument |
| ArctanSearch.ReducedArgument | crlibm/atan_fast.c:49-54 | for all 62 rows of the two columns: everywhere on the interval i the argument reduced by b[i] is at most 2^-6.3 in magnitude |
| ArctanSearch.Unique | crlibm/atan_fast.c:67 | at most one index satisfies a[i] <= x < a[i+1] |
| ArctanSearch.BothIndices | crlibm/atan_fast.c:60-81 | for every argument that is reduced, both searches return the same index if and only if it does not lie between b[61] and a[61]; there they return 61 and 60 |
| AsinDispatch.ShiftedRange | crlibm/asincos.c:501 | RN(1 + RN(x^2)) stays in [1, 2) for every double below 1 in magnitude, within 2^-52 of 1 + x^2 |
| AsinDispatch.IndexMonotone | crlibm/asincos.c:544 | a larger abs(x) never gets a smaller index |
| AsinDispatch.IndexMeaning | crlibm/asincos.c:546-550 | index i means i/16 <= x^2 < (i+1)/16 up to 2^-52 |
| AsinDispatch.Dispatch | crlibm/asincos.c:544-606 | the three paths are taken for the indices 0, 1..8 and 9..15; up to 2^-52 the first has x^2 < 1/16, the third x^2 >= 9/16 and row i of the second (i+1)/16 <= x^2 < (i+2)/16; all table accesses of the second path are in bounds |
| AsinDispatch.Near1Exact | crlibm/asincos.c:608-614 | on the third path both abs(x) - MI_9, at most 0.1252 in magnitude, and 2 (1 - abs(x)) are computed exactly |
| Expm1.DoublingsArePowers | crlibm/expm1.c:313-317 | n doublings p -> (p+2)p give (1+p)^(2^n) - 1, for every n |
| Expm1.RebuildsExponential | crlibm/expm1.c:313-317 | so they rebuild E(x) - 1 from E(x/2^n) - 1 for every E with E(2t) = E(t)^2 |
| Expm1.DirectIsRange | crlibm/expm1.c:309-313 | the comparisons on the high word select exactly 2^-54 <= abs(x) < 1/4 |
| Expm1.ReduceDirect | crlibm/expm1.c:319-343 | the exponent-field reduction divides x by exactly 2^(expoX+1), lands below 1/32 and keeps expoX <= 2 |
| Expm1.StepError | crlibm/expm1.c:393-396 | one machine reconstruction step takes a relative error of k units to at most 1.2 k + 12 and renormalises |
| Expm1.Reconstruct | crlibm/expm1.c:387-430 | the nested reconstruction has at most 1.73 k + 44 units of error against the exact doublings |
| Expm1.DirectPath | crlibm/expm1.c:311-430 | reduction, polynomial and reconstruction together stand for E(x) - 1 on the whole direct interval |
| Expm1.DirectQuick | crlibm/expm1.c:311-436 | from the argument to the rounding test: whenever the quick phase of expm1_rn returns on the direct interval, it returns RN(E(x) - 1) |
| IntervalExpm1.TestBoth | crlibm/interval.h:126-176 | the joint test trusts each result exactly when its own comparison holds, and trusted results are RD and RU |
| IntervalExpm1.TestDecides | crlibm/interval.h:126-176 | the comparison holds if and only if the low word exceeds 2^-62 units |
| IntervalExpm1.FilteredIsRange | crlibm/expm1.c:1590-1616 | the filter passes exactly the finite x with abs(x) >= 2^-54, x <= OVERFLOWBOUND and x >= MINUSONEBOUND |
| IntervalExpm1.MinusOneBoundIsLn2 | crlibm/expm1.h:16 | MINUSONEBOUND lies below -54 ln 2 by at most 2e-15 |
| IntervalExpm1.JExpm1 | crlibm/expm1.c:1616-2513 | for every combination of endpoints and test outcomes, INF is RD of the lower value and SUP is RU of the upper one |
| IntervalExpm1.Tightest | crlibm/expm1.c:2509-2513 | such an interval contains the image and is contained in every other interval of doubles that does |
| Rounding.RNNearest | crlibm/crlibm_private.h:436-440 | no double is nearer to x than RN(x) |
| Rounding.MidpointParity | crlibm/crlibm_private.h:436-440 | half way between two doubles, RN takes the one with the even significand |
| Neighbours.PatternMidpoint | crlibm/crlibm_private.h:436-440 | half way between two consecutive patterns, RN takes the even one |
| Rounding.RDGreatest | crlibm/crlibm_private.h:170-171 | RD(x) is the greatest double not above x |
| Rounding.RULeast | crlibm/crlibm_private.h:149-150 | RU(x) is the least double not below x |
| BitPattern.DecodeSucc | crlibm/crlibm_private.h:162 | adding one to a pattern adds one unit in the last place, across binades and into the normal range |
| BitPattern.EncodeBits | crlibm/crlibm_private.h:152 | encoding and decoding a double of either sign is a round trip |

## Left out

- Overflow: the arithmetic has no largest exponent; overflow filters, infinities and NaNs are modelled for `exp_rn` only (`ExpFunction.ExpRN`), exception flags not at all.
- Underflow in the operators: the error bounds assume products of at least `Tiny()`, or zero.
- Approximation quality: how close the minimax polynomials and tables for asin, atan and 1/pi are to the true functions is a hypothesis. The starting polynomial of `sqrt12` and the quick polynomial of exp are analysed.
- ExpFunction.ExpRN: the 128 table entries are hypotheses, within two units of 2^-106 of e^(i ln 2 / 4096); the two accurate phases are not entered, only their final steps are modelled (`ExpTail`, `ExpAccurate`).
- ArctanSearch.QuickIndex: the columns that hold arctan(b[i]) and the polynomial after the reduction are not modelled.
- Division.StatedBoundHolds: the condition on the low words is sufficient for 2^-104, not necessary; the largest error that occurs is not determined.
- DoubleDouble.Add22Error: the condition on cancellation is sufficient for a relative error below 2^-103, not necessary.
- ExpTail.TailRN: needs a triple whose high word is the rounding of its sum, as `ExpTail.RenormalizedTriple` describes; the error of the accurate phase against e^x is not analysed.
- AsinpiTail.TinyRN: the product `Mul133` for x/pi before `Renormalize3` and the two-step branch guarded by a constant no high word reaches are not modelled.
- MaskTests.TestRN: needs a normal double as result; switching the precision and rounding mode of the processor is represented by the choice of rounding.
- IntervalExpm1.JExpm1: the words of the quick phases and the results of the accurate phases are inputs with their error bounds.
- Triple-double arithmetic (`Add33`, `Mul33` and relatives) other than `Renormalize3` and the final roundings.
- Renormalization.Renormalize3Exact: an overlap of at most 51 bits is read as a ratio of at most 1/4 between neighbouring words.
- The multiprecision library scs, of which only the index search of `scs_atan` appears.
- `Mul12Cond`, `Add22Cond`, `Add122` and `TEST_AND_COPY_RZ`.
- Logarithms, powers, trigonometric functions and `acos`, which use the same building blocks.
- Inline assembly, Itanium intrinsics, endianness variants, performance counters and debugging output.
