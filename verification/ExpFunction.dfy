/**
 exp_rn from the argument to the returned double: whenever the quick phase
 returns, it returns the exponential rounded to nearest.
 */
module ExpFunction {
  import opened Dyadic
  import opened Rounding
  import opened ErrorFree
  import opened Product
  import opened BitPattern
  import opened Neighbours
  import opened DirectedTests
  import opened ExpTail
  import opened ExpScaling
  import opened ZivTest
  import opened LogTwo
  import opened ExpQuick
  import ExpReduction

  // -------------------------------------------- what is known of the exponential

  ghost predicate Additive(Exp: real -> real) {
    forall a, b, s {:trigger Exp(a), Exp(b), Exp(s)} :: s == a + b ==> Exp(s) == Exp(a) * Exp(b)
  }

  ghost predicate Increasing(Exp: real -> real) {
    forall a, b {:trigger Exp(a), Exp(b)} :: a <= b ==> Exp(a) <= Exp(b)
  }

  /** Near zero the Taylor polynomial of degree four is accurate to 5e-23. */
  ghost predicate NearTaylor(Exp: real -> real) {
    forall t {:trigger Exp(t)} :: Abs(t) <= 0.0000848 ==> Abs(Exp(t) - Taylor(t)) <= 0.00000000000000000000005
  }

  /** The exponential: e^(a+b) = e^a e^b, e^(ln 2) = 2, increasing, e^t near zero. */
  ghost predicate IsExp(Exp: real -> real, ln2: real) {
    IsLn2(ln2) && Exp(ln2) == 2.0 && Additive(Exp) && Increasing(Exp) && NearTaylor(Exp)
  }

  /** Row i of the first table is e^(i ln2/4096), of the second e^(64 i ln2/4096). */
  ghost predicate Tables(tbl1: nat -> Pair, tbl2: nat -> Pair, Exp: real -> real, step: real) {
    forall i: nat, j: nat {:trigger tbl1(i), tbl2(j)} :: i < 64 && j < 64 ==>
      Entries(tbl1(i), tbl2(j), Exp(i as real * step), Exp((64 * j) as real * step))
  }

  lemma SumLaw(Exp: real -> real, a: real, b: real, s: real)
    requires Additive(Exp) && s == a + b
    ensures Exp(s) == Exp(a) * Exp(b)
  {
  }

  lemma AtZero(Exp: real -> real, ln2: real)
    requires IsExp(Exp, ln2)
    ensures Exp(0.0) == 1.0
  {
    hide Additive, Increasing, NearTaylor, IsLn2;
    SumLaw(Exp, 0.0, ln2, ln2);
  }

  lemma PowerStep(Exp: real -> real, ln2: real, M: int, a: real, s: real)
    requires IsExp(Exp, ln2) && a == M as real * ln2 && s == (M + 1) as real * ln2
    ensures Exp(a) == Pow2(M) <==> Exp(s) == Pow2(M + 1)
  {
    hide Pow2, Additive, Increasing, NearTaylor, IsLn2;
    Distribute((M + 1) as real, M as real, 1.0, ln2);
    SumLaw(Exp, a, ln2, s);
    Pow2Succ(M);
  }

  /** e^(M ln 2) = 2^M, for M of either sign. */
  lemma {:induction false} AtMultiples(Exp: real -> real, ln2: real, M: int, a: real)
    requires IsExp(Exp, ln2) && a == M as real * ln2
    ensures Exp(a) == Pow2(M)
    decreases if M < 0 then -M else M
  {
    hide Pow2, IsExp;
    if M == 0 {
      AtZero(Exp, ln2);
      Pow2Zero();
      assert a == 0.0 * ln2 == 0.0;
    } else if M > 0 {
      var b := (M - 1) as real * ln2;
      AtMultiples(Exp, ln2, M - 1, b);
      PowerStep(Exp, ln2, M - 1, b, a);
    } else {
      var b := (M + 1) as real * ln2;
      AtMultiples(Exp, ln2, M + 1, b);
      PowerStep(Exp, ln2, M, a, b);
    }
  }

  // ----------------------------------------------------- putting e^x together

  /** x = M ln2 + 64 i2 ln2/4096 + i1 ln2/4096 + exact. */
  lemma Decomposed(x: real, kd: real, k: int, M: int, i1: nat, i2: nat, ln2: real, step: real, exact: real)
    requires kd == k as real && k == 4096 * M + 64 * i2 + i1 && step == ln2 / 4096.0 && exact == x - kd * step
    ensures x == M as real * ln2 + ((64 * i2) as real * step + i1 as real * step + exact)
  {
    var m, j, i := M as real, (64 * i2) as real, i1 as real;
    assert kd == 4096.0 * m + j + i;
    Distribute(kd, 4096.0 * m + j, i, step);
    Distribute(4096.0 * m + j, 4096.0 * m, j, step);
    Regroup(4096.0, m, step);
    assert (4096.0 * m) * step == m * ln2;
  }

  /** e^x is 2^M times the product of the two table values and e^exact. */
  lemma Assembled(Exp: real -> real, ln2: real, x: real, M: int, a: real, b: real, c: real, T: real, y: real)
    requires IsExp(Exp, ln2) && x == M as real * ln2 + (b + a + c)
    requires T == Exp(a) * Exp(b) && y == T * Exp(c)
    ensures Exp(x) == Ldexp(y, M) && y == Exp(b + a + c)
  {
    hide Pow2, Additive, Increasing, NearTaylor, IsLn2;
    var m := M as real * ln2;
    SumLaw(Exp, m, b + a + c, x);
    SumLaw(Exp, b + a, c, b + a + c);
    SumLaw(Exp, b, a, b + a);
    hide IsExp;
    AtMultiples(Exp, ln2, M, m);
  }

  lemma MonotoneAt(Exp: real -> real, a: real, b: real)
    requires Increasing(Exp) && a <= b
    ensures Exp(a) <= Exp(b)
  {
  }

  /** The mantissa lies in [1/2, 2]. */
  lemma MantissaRange(Exp: real -> real, ln2: real, i: nat, j: nat, step: real, a: real, b: real, exact: real)
    requires IsExp(Exp, ln2) && step == ln2 / 4096.0 && i < 64 && j < 64 && Abs(exact) <= 0.0000848
    requires a == i as real * step && b == (64 * j) as real * step
    ensures 0.5 <= Exp(b + a + exact) <= 2.0
  {
    hide Pow2, Additive, Increasing, NearTaylor, IsLn2;
    Coarse(ln2);
    StepsBound(i as real, 63.0, step, a);
    StepsBound((64 * j) as real, 4032.0, step, b);
    AbsBounds(exact);
    var w := b + a + exact;
    MonotoneAt(Exp, w, ln2);
    MonotoneAt(Exp, -ln2, w);
    SumLaw(Exp, -ln2, ln2, 0.0);
    AtZero(Exp, ln2);
  }

  lemma StepsBound(p: real, n: real, step: real, ps: real)
    requires 0.0 <= p <= n && step > 0.0 && ps == p * step
    ensures 0.0 <= ps <= n * step
  {
    MulLeAs(ps, n * step, p, n, step);
    MulLeAs(0.0, ps, 0.0, p, step);
  }

  lemma AbsBounds(x: real)
    ensures -Abs(x) <= x <= Abs(x)
  {
  }

  /** Above DENORMBOUND the exponential is normal, up to OVRFLWBOUND it does not overflow. */
  lemma ResultRange(Exp: real -> real, ln2: real, x: real)
    requires IsExp(Exp, ln2) && ExpReduction.DENORM_BOUND < x <= ExpReduction.OVERFLOW_BOUND
    ensures Pow2(EMIN + 52) <= Exp(x) && RN(Exp(x)) < Pow2(1024)
  {
    hide Pow2, Cexp, RN, Rep, Additive, Increasing, NearTaylor, IsLn2, Taylor;
    ExpReduction.BoundsAreLn2(ln2);
    var low, top, d := -1022.0 * ln2, 1024.0 * ln2, -0.00000000000002;
    MonotoneAt(Exp, low, x);
    MonotoneAt(Exp, x, top + d);
    SumLaw(Exp, top, d, top + d);
    JustBelowOne(Exp);
    BothPowers(Exp, ln2);
    BelowTopPower(Exp(x), Exp(d));
  }

  lemma BothPowers(Exp: real -> real, ln2: real)
    requires IsExp(Exp, ln2)
    ensures Exp(1024.0 * ln2) == Pow2(1024) && Exp(-1022.0 * ln2) == Pow2(EMIN + 52)
  {
    hide Pow2, IsExp;
    AtMultiples(Exp, ln2, 1024, 1024.0 * ln2);
    AtMultiples(Exp, ln2, -1022, -1022.0 * ln2);
  }

  lemma JustBelowOne(Exp: real -> real)
    requires NearTaylor(Exp)
    ensures Exp(-0.00000000000002) <= 1.0 - Eps(2.0)
  {
  }

  lemma BelowTopPower(e: real, f: real)
    requires e <= Pow2(1024) * f && f <= 1.0 - Eps(2.0)
    ensures RN(e) < Pow2(1024)
  {
    hide Pow2, FloorIndex, Mult, Cexp, RN, Rep;
    var p := Pow2(1024);
    MulLe(f, 1.0 - Eps(2.0), p);
    UnitRoundoff();
    Pow2Succ(-53);
    Pow2Add(1024, -52);
    GridPow2(1024, 972);
    GridPow2(972, 972);
    GridSum(p, Pow2(972), 972);
    Pow2Succ(1024);
    Pow2Mono(972, 1024);
    RepIntro(p - Pow2(972), 972);
    assert (1.0 - Eps(2.0)) * p == p - Pow2(972);
    RNBelow(e, p - Pow2(972));
  }

  // ------------------------------------------------------ the quick phase

  /** Nearby arguments have nearby Taylor values. */
  lemma TaylorClose(a: real, b: real)
    requires Abs(a) <= 0.00008481 && Abs(b) <= 0.00008481 && Abs(a - b) <= Eps(0.00000000000016)
    ensures Abs(Taylor(a) - Taylor(b)) <= 0.0000000000000000000000000001
  {
    hide Abs;
    var d, s, t := a - b, a * a, b * b;
    var m := a + b;
    var dm := d * m;
    MulBound(a, a, 0.00008481, 0.00008481);
    MulBound(b, b, 0.00008481, 0.00008481);
    SumSize(a, b);
    MulBound(d, m, Eps(0.00000000000016), 0.00016962);
    assert s - t == dm;
    var u, v := dm * a, t * d;
    MulBound(dm, a, Eps(0.00000000000016), 0.00008481);
    MulBound(t, d, 0.00000001, Eps(0.00000000000016));
    Distribute(s, t, dm, a);
    Distribute(a, b, d, t);
    assert s * a - t * b == u + v;
    var e, f := dm * s, t * dm;
    MulBound(dm, s, Eps(0.00000000000016), 0.00000001);
    MulBound(t, dm, 0.00000001, Eps(0.00000000000016));
    Distribute(s, t, dm, s);
    Distribute(s, t, dm, t);
    assert s * s - t * t == e + f;
    CloseLinear(Taylor(a) - Taylor(b), d, dm, u, v, e, f);
  }

  lemma SumSize(a: real, b: real)
    requires Abs(a) <= 0.00008481 && Abs(b) <= 0.00008481
    ensures Abs(a + b) <= 0.00016962
  {
  }

  lemma CloseLinear(x: real, d: real, dm: real, u: real, v: real, e: real, f: real)
    requires x == d + dm / 2.0 + (u + v) / 6.0 + (e + f) / 24.0 && Abs(d) <= Eps(0.00000000000016)
    requires Abs(dm) <= Eps(0.00000000000016) * 0.00016962 && Abs(u) <= Eps(0.00000000000016) * 0.00008481
    requires Abs(v) <= 0.00000001 * Eps(0.00000000000016) && Abs(e) <= Eps(0.00000000000016) * 0.00000001
    requires Abs(f) <= 0.00000001 * Eps(0.00000000000016)
    ensures Abs(x) <= 0.0000000000000000000000000001
  {
  }

  /** e^exact against the Taylor polynomial at the reduced argument. */
  lemma ReducedExp(Exp: real -> real, ln2: real, r: real, exact: real)
    requires IsExp(Exp, ln2) && Abs(r) <= 0.0000847 && Abs(r - exact) <= Eps(0.00000000000016)
    ensures Abs(Exp(exact) - Taylor(r)) <= Eps(0.00023) && Abs(exact) <= 0.0000848
  {
    hide Additive, Increasing, NearTaylor, IsLn2, Taylor;
    ExactSize(r, exact);
    TaylorClose(exact, r);
    TaylorAt(Exp, exact);
    Triangle(Exp(exact) - Taylor(exact), Taylor(exact) - Taylor(r), Exp(exact) - Taylor(r));
  }

  lemma ExactSize(r: real, exact: real)
    requires Abs(r) <= 0.0000847 && Abs(r - exact) <= Eps(0.00000000000016)
    ensures Abs(exact) <= 0.0000848 && Abs(exact - r) <= Eps(0.00000000000016)
  {
  }

  lemma TaylorAt(Exp: real -> real, t: real)
    requires NearTaylor(Exp) && Abs(t) <= 0.0000848
    ensures Abs(Exp(t) - Taylor(t)) <= 0.00000000000000000000005
  {
    hide Taylor;
  }

  /** The two words of the quick phase for the nearest integer k. */
  function WordsOf(x: real, k: int, tbl1: nat -> Pair, tbl2: nat -> Pair): Pair {
    var red := ExpReduction.ReducedArgument(x, k as real);
    QuickWords(red.h, red.l, tbl1(k % 64), tbl2(k / 64 % 64))
  }

  lemma TableIndices(k: int, M: int, i: nat, j: nat)
    requires k == 4096 * M + 64 * j + i && i < 64 && j < 64
    ensures k % 64 == i && k / 64 % 64 == j
  {
    assert k == 64 * (64 * M + j) + i;
    assert k / 64 == 64 * M + j;
  }

  /**
   The quick phase for arguments whose exponential is normal: argument reduction,
   table reads, polynomial, rounding test and scaling. Whenever it returns, it
   returns e^x rounded to nearest; it does so exactly when the test passes.
   */
  method QuickPhase(x: real, tbl1: nat -> Pair, tbl2: nat -> Pair, ghost Exp: real -> real, ghost ln2: real)
      returns (r: Option<Bits64>)
    requires Rep(x) && ExpReduction.DENORM_BOUND < x <= ExpReduction.OVERFLOW_BOUND
    requires IsExp(Exp, ln2) && Tables(tbl1, tbl2, Exp, ln2 / 4096.0)
    ensures r.Some? ==> Decode(r.value) == RN(Exp(x))
    ensures var w := WordsOf(x, NearestInt(FMul(x, ExpReduction.LOG2_INV)), tbl1, tbl2);
      r.Some? <==> Passes(w.h, w.l, ROUNDCST)
  {
    hide Passes, ROUNDCST, QuickWords, NearestInt, FMul;
    hide Pow2, Cexp, RN, Rep, IsExp, IsLn2, Taylor, Decode, Ldexp, Entries, ReducedWords, ExpReduction.Matched,
      ExpReduction.ReducedArgument, Eps, Abs, Tables;
    var kd, k, M, index1, index2 := ExpReduction.Reduce(x);
    var red := ExpReduction.ReducedArgument(x, kd);
    ghost var step := ln2 / 4096.0;
    ghost var exact := x - kd * step;
    IsExpLn2(Exp, ln2);
    ReductionSuits(x, kd, ln2, exact);
    ReducedExp(Exp, ln2, red.h + red.l, exact);
    ghost var a, b := index1 as real * step, (64 * index2) as real * step;
    ghost var T := Exp(a) * Exp(b);
    ghost var y := T * Exp(exact);
    ReadTables(tbl1, tbl2, Exp, step, index1, index2);
    TableIndices(k, M, index1, index2);
    r := QuickExit(red.h, red.l, tbl1(index1), tbl2(index2), M, Exp(a), Exp(b), Exp(exact), T, y);
    Decomposed(x, kd, k, M, index1, index2, ln2, step, exact);
    Assembled(Exp, ln2, x, M, a, b, exact, T, y);
    MantissaRange(Exp, ln2, index1, index2, step, a, b, exact);
    ResultRange(Exp, ln2, x);
  }

  lemma IsExpLn2(Exp: real -> real, ln2: real)
    requires IsExp(Exp, ln2)
    ensures IsLn2(ln2)
  {
    hide IsLn2;
  }

  lemma ReadTables(tbl1: nat -> Pair, tbl2: nat -> Pair, Exp: real -> real, step: real, i: nat, j: nat)
    requires Tables(tbl1, tbl2, Exp, step) && i < 64 && j < 64
    ensures Entries(tbl1(i), tbl2(j), Exp(i as real * step), Exp((64 * j) as real * step))
  {
    hide Entries;
  }

  // ------------------------------------------------------ the special cases

  /** OVRUDRFLWSMPLBOUND, a high word that stands for a number below 709. */
  const SIMPLE_BOUND: nat := 0x4086_232b

  /** Below it neither the overflow nor the denormal bound can be reached. */
  lemma SimpleRange(x: Bits64)
    requires Magnitude(x) / WORD < SIMPLE_BOUND
    ensures ExpReduction.DENORM_BOUND < Decode(x) <= ExpReduction.OVERFLOW_BOUND
  {
    hide Pow2, DecodeMag;
    var m, top := Magnitude(x), 0x4086_232b_0000_0000;
    DecodeMono(m, top);
    DecodeMagRep(m);
    SimpleValue();
  }

  lemma SimpleValue()
    ensures DecodeMag(0x4086_232b_0000_0000) < 708.3962
  {
    hide Pow2;
    SmallPowers();
    Pow2Add(27, 16);
    Pow2Inverse(43);
  }

  /** Past OVRFLWBOUND e^x is not below 2^1024. */
  lemma Overflowed(Exp: real -> real, ln2: real, x: real)
    requires IsExp(Exp, ln2) && Rep(x) && x > ExpReduction.OVERFLOW_BOUND
    ensures RN(Exp(x)) >= Pow2(1024)
  {
    hide Pow2, Cexp, RN, Rep, Additive, NearTaylor, IsLn2, FloorIndex, Mult;
    ExpReduction.BoundsAreLn2(ln2);
    NextAfterBound(x);
    BothPowers(Exp, ln2);
    MonotoneAt(Exp, 1024.0 * ln2, x);
    RepPow2(1024);
    RNAbove(Exp(x), Pow2(1024));
  }

  lemma NextAfterBound(x: real)
    requires Rep(x) && x > ExpReduction.OVERFLOW_BOUND
    ensures x >= ExpReduction.OVERFLOW_BOUND + 1.0 / 8796093022208.0
  {
    hide Pow2, Cexp, Rep, FloorIndex;
    SmallPowers();
    Pow2Add(27, 16);
    Pow2Inverse(43);
    Pow2Add(8, 1);
    Pow2Zero();
    Pow2Succ(0);
    var b := ExpReduction.OVERFLOW_BOUND;
    GridOf(b, 6243314768165359, -43);
    CexpGe(x, -43);
    RepGrid(x, -43);
    GridApart(b, x, -43);
  }

  /** Up to UNDERFLWBOUND e^x is at most half the least subnormal. */
  lemma Underflowed(Exp: real -> real, ln2: real, x: real)
    requires IsExp(Exp, ln2) && x <= ExpReduction.UNDERFLOW_BOUND
    ensures RN(Exp(x)) == 0.0
  {
    hide Pow2, Cexp, RN, Rep, Additive, NearTaylor, IsLn2, FloorIndex, Mult;
    ExpReduction.BoundsAreLn2(ln2);
    var low := -1075.0 * ln2;
    MonotoneAt(Exp, x, low);
    AtLow(Exp, ln2);
    RNMono(Exp(x), Pow2(-1075));
    TinyPower(-1075);
    NonNegative(Exp, x);
    RepZero();
    RNAbove(Exp(x), 0.0);
  }

  lemma NonNegative(Exp: real -> real, x: real)
    requires Additive(Exp)
    ensures Exp(x) >= 0.0
  {
    var h := x / 2.0;
    SumLaw(Exp, h, h, x);
    SquareNonneg(Exp(h));
  }

  lemma SquareNonneg(x: real)
    ensures x * x >= 0.0
  {
  }

  lemma AtLow(Exp: real -> real, ln2: real)
    requires IsExp(Exp, ln2)
    ensures Exp(-1075.0 * ln2) == Pow2(-1075)
  {
    hide Pow2, IsExp;
    AtMultiples(Exp, ln2, -1075, -1075.0 * ln2);
  }

  /** For a zero or subnormal argument e^x rounds to 1. */
  lemma RoundsToOne(Exp: real -> real, ln2: real, x: real)
    requires IsExp(Exp, ln2) && Abs(x) < Pow2(-1022)
    ensures RN(Exp(x)) == 1.0
  {
    hide Additive, Increasing, NearTaylor, IsLn2;
    hide Pow2, Cexp, RN, Rep, FloorIndex, Mult, Taylor;
    Pow2Mono(-1022, -104);
    TinyArgument(x);
    TaylorAt(Exp, x);
    CloseToOne(Exp(x), Taylor(x));
    Pow2Zero();
    RepPow2(0);
    var lo, hi, e := PositiveNeighbours(1.0);
    CexpGe(1.0, -52);
    UnitRoundoff();
    Pow2Succ(-53);
    Pow2Mono(-53, e);
    Pow2Mono(-52, Cexp(1.0));
    NearestNeighbour(lo, 1.0, hi, Exp(x));
  }

  lemma TinyArgument(x: real)
    requires Abs(x) < Pow2(-104)
    ensures Abs(x) <= 0.0000848 && Abs(Taylor(x) - 1.0) <= 0.0000000000000000000000001
  {
    hide Pow2, Abs;
    TinyPowerValue();
    var s := x * x;
    var c, f := s * x, s * s;
    MulBound(x, x, 0.00000000000000000000000001, 0.00000000000000000000000001);
    MulBound(s, x, 0.00000000000000000000000001, 0.00000000000000000000000001);
    MulBound(s, s, 0.00000000000000000000000001, 0.00000000000000000000000001);
    TinySum(x, s, c, f, Taylor(x) - 1.0);
  }

  lemma TinyPowerValue()
    ensures Pow2(-104) <= 0.00000000000000000000000001
  {
    hide Pow2;
    Powers();
    Pow2Add(52, 52);
    Pow2Inverse(104);
  }

  lemma TinySum(x: real, s: real, c: real, f: real, t: real)
    requires Abs(x) <= 0.00000000000000000000000001 && Abs(s) <= 0.00000000000000000000000001
    requires Abs(c) <= 0.00000000000000000000000001 && Abs(f) <= 0.00000000000000000000000001
    requires t == x + s / 2.0 + c / 6.0 + f / 24.0
    ensures Abs(x) <= 0.0000848 && Abs(t) <= 0.0000000000000000000000001
  {
  }

  lemma CloseToOne(e: real, t: real)
    requires Abs(e - t) <= 0.00000000000000000000005 && Abs(t - 1.0) <= 0.0000000000000000000000001
    ensures -0.0000000000000000000001 <= e - 1.0 <= 0.0000000000000000000001
  {
  }

  // ---------------------------------------------------------- exp_rn

  /** What exp_rn has done when the quick phase ends: returned a pattern, returned
      a NaN, or gone on to the accurate phase, with or without denormal results. */
  datatype Outcome = Returned(value: Bits64) | NotANumber | Accurate(mightBeDenorm: bool)

  /** The pattern is e rounded to nearest, infinity if that overflows. */
  ghost predicate IsResult(v: Bits64, e: real) {
    if RN(e) >= Pow2(1024) then v == INFINITE else Finite(v) && !Negative(v) && Decode(v) == RN(e)
  }

  /** The words of the quick phase for x pass the rounding test. */
  predicate QuickPasses(x: real, tbl1: nat -> Pair, tbl2: nat -> Pair) {
    var w := WordsOf(x, NearestInt(FMul(x, ExpReduction.LOG2_INV)), tbl1, tbl2);
    Passes(w.h, w.l, ROUNDCST)
  }

  lemma PassesMeans(x: real, tbl1: nat -> Pair, tbl2: nat -> Pair)
    ensures var w := WordsOf(x, NearestInt(FMul(x, ExpReduction.LOG2_INV)), tbl1, tbl2);
      QuickPasses(x, tbl1, tbl2) <==> Passes(w.h, w.l, ROUNDCST)
  {
    hide WordsOf, NearestInt, FMul, Passes, ROUNDCST;
  }

  lemma MagnitudeFields(x: Bits64)
    ensures Finite(x) <==> Magnitude(x) < INFINITE
  {
  }

  /** A pattern whose value is positive and below 2^1024 is finite, without sign bit. */
  lemma PositivePattern(v: Bits64)
    requires 0.0 < Decode(v) < Pow2(1024)
    ensures Finite(v) && !Negative(v)
  {
    hide Pow2, DecodeMag;
    var m := Magnitude(v);
    DecodeMagRep(m);
    TopPattern();
    if INFINITE < m { DecodeMono(INFINITE, m); }
  }

  lemma TopPattern()
    ensures DecodeMag(INFINITE) == Pow2(1024)
  {
    hide Pow2;
    Powers();
    Pow2Add(52, 972);
  }

  /** The exponent field vanishes for zero and subnormal arguments only. */
  lemma SubnormalField(x: Bits64)
    requires Magnitude(x) < FRAC
    ensures Abs(Decode(x)) < Pow2(-1022) && Decode(x) > ExpReduction.DENORM_BOUND
  {
    hide Pow2, DecodeMag;
    MagnitudeAbs(x);
    TwoPowerPattern(1);
    DecodeMono(Magnitude(x), FRAC);
    Pow2Zero();
    Pow2Mono(-1022, 0);
  }

  /** The magnitude is the pattern without its sign bit. */
  lemma StripSign(x: Bits64, hi: nat, m: nat)
    requires hi == x / WORD && m == Magnitude(x)
    ensures hi % 0x8000_0000 == m / WORD && x % WORD == m % WORD && (hi < 0x8000_0000 <==> !Negative(x))
  {
    assert x == m || x == m + SIGN;
    assert x / WORD == m / WORD || x / WORD == m / WORD + 0x8000_0000;
  }

  lemma Below31(hi: nat, h: nat)
    requires h == hi % 0x8000_0000
    ensures hi / 0x10_0000 % 0x800 == h / 0x10_0000 && hi % 0x10_0000 == h % 0x10_0000
  {
    var n := hi / 0x8000_0000;
    assert hi == 0x8000_0000 * n + h;
    assert hi / 0x10_0000 == 0x800 * n + h / 0x10_0000;
  }

  /** The fields of the high word against the magnitude. */
  lemma HighFields(x: Bits64, hi: nat)
    requires hi == x / WORD
    ensures hi / 0x10_0000 % 0x800 == 0 <==> Magnitude(x) < FRAC
    ensures hi % 0x8000_0000 == Magnitude(x) / WORD && (hi < 0x8000_0000 <==> !Negative(x))
    ensures hi % 0x8000_0000 >= 0x7ff0_0000 <==> !Finite(x)
  {
    hide Negative;
    var m := Magnitude(x);
    StripSign(x, hi, m);
    Below31(hi, m / WORD);
    hide Magnitude;
    MagnitudeFields(x);
  }

  lemma NanFields(x: Bits64, hi: nat)
    requires !Finite(x) && hi == x / WORD
    ensures hi % 0x10_0000 != 0 || x % WORD != 0 <==> Magnitude(x) > INFINITE
    ensures Magnitude(x) >= INFINITE && (!Negative(x) && Magnitude(x) == INFINITE ==> x == INFINITE)
  {
    var m := Magnitude(x);
    StripSign(x, hi, m);
    Below31(hi, m / WORD);
    BitsOfNan(m);
  }

  lemma BitsOfNan(m: nat)
    requires INFINITE <= m < SIGN
    ensures m / WORD % 0x10_0000 != 0 || m % WORD != 0 <==> m > INFINITE
  {
    var d := m - INFINITE;
    assert m / WORD == 0x7ff0_0000 + d / WORD && m % WORD == d % WORD;
  }

  lemma OneResult(e: real)
    requires RN(e) == 1.0
    ensures IsResult(1023 * FRAC, e)
  {
    hide Pow2, RN, Decode;
    TwoPowerPattern(1023);
    Pow2Zero();
    Pow2Mono(0, 1024);
    Pow2Succ(0);
    Pow2Mono(1, 1024);
  }

  lemma OverflowResult(e: real)
    requires RN(e) >= Pow2(1024)
    ensures IsResult(INFINITE, e)
  {
  }

  lemma ZeroResult(e: real)
    requires RN(e) == 0.0
    ensures IsResult(0, e)
  {
    hide Pow2, RN;
    DecodeZero();
  }

  lemma QuickResult(Exp: real -> real, ln2: real, x: real, v: Bits64)
    requires IsExp(Exp, ln2) && ExpReduction.DENORM_BOUND < x <= ExpReduction.OVERFLOW_BOUND
    requires Decode(v) == RN(Exp(x))
    ensures IsResult(v, Exp(x))
  {
    hide Pow2, RN, Decode, IsExp;
    ResultRange(Exp, ln2, x);
    RepPow2(EMIN + 52);
    RNAbove(Exp(x), Pow2(EMIN + 52));
    PositivePattern(v);
  }

  /**
   exp_rn on every pattern up to its accurate phases. Every finite argument whose
   result is returned here gets e^x rounded to nearest, with overflow to infinity
   and underflow to zero; the others are those whose result may be subnormal, and
   those whose quick words fail the rounding test.
   */
  method ExpRN(x: Bits64, tbl1: nat -> Pair, tbl2: nat -> Pair, ghost Exp: real -> real, ghost ln2: real)
      returns (r: Outcome)
    requires IsExp(Exp, ln2) && Tables(tbl1, tbl2, Exp, ln2 / 4096.0)
    ensures r == NotANumber <==> Magnitude(x) > INFINITE
    ensures Magnitude(x) == INFINITE ==> r == Returned(if Negative(x) then 0 else INFINITE)
    ensures Finite(x) && r.Returned? ==> IsResult(r.value, Exp(Decode(x)))
    ensures r == Accurate(true) <==>
      Finite(x) && ExpReduction.UNDERFLOW_BOUND < Decode(x) <= ExpReduction.DENORM_BOUND
    ensures r == Accurate(false) <==>
      && FRAC <= Magnitude(x) < INFINITE
      && ExpReduction.DENORM_BOUND < Decode(x) <= ExpReduction.OVERFLOW_BOUND
      && !QuickPasses(Decode(x), tbl1, tbl2)
  {
    hide Magnitude, Negative, Finite, QuickPasses, Abs;
    hide Pow2, Cexp, RN, Rep, IsExp, IsLn2, Decode, Tables, IsResult, WordsOf, Passes, NearestInt, FMul, ROUNDCST;
    var xdb := new DbNumber(x);
    var xIntHi := xdb.Hi();
    HighFields(x, xIntHi);
    MagnitudeFields(x);
    ghost var e := Exp(Decode(x));
    if xIntHi / 0x10_0000 % 0x800 == 0 {
      SubnormalField(x);
      RoundsToOne(Exp, ln2, Decode(x));
      OneResult(e);
      return Returned(0x3ff0_0000_0000_0000);
    }
    if xIntHi % 0x8000_0000 >= SIMPLE_BOUND {
      if xIntHi % 0x8000_0000 >= 0x7ff0_0000 {
        NanFields(x, xIntHi);
        if xIntHi % 0x10_0000 != 0 || xdb.Lo() != 0 {
          return NotANumber;
        } else if xIntHi < 0x8000_0000 {
          return Returned(x);
        } else {
          return Returned(0);
        }
      }
      DecodeRep(x);
      if xdb.D() > ExpReduction.OVERFLOW_BOUND {
        Overflowed(Exp, ln2, Decode(x));
        OverflowResult(e);
        return Returned(INFINITE);
      }
      if xdb.D() <= ExpReduction.UNDERFLOW_BOUND {
        Underflowed(Exp, ln2, Decode(x));
        ZeroResult(e);
        return Returned(0);
      }
      if xdb.D() <= ExpReduction.DENORM_BOUND {
        return Accurate(true);
      }
    } else {
      SimpleRange(x);
    }
    DecodeRep(x);
    var quick := QuickPhase(xdb.D(), tbl1, tbl2, Exp, ln2);
    assert quick.Some? <==> QuickPasses(Decode(x), tbl1, tbl2) by { PassesMeans(Decode(x), tbl1, tbl2); }
    if quick.Some? {
      QuickResult(Exp, ln2, Decode(x), quick.value);
      return Returned(quick.value);
    }
    return Accurate(false);
  }
}
