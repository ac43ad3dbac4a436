/**
 The argument reduction of exp: kd and k from the shift constant, the fields
 of k, and the reduced argument rh + rm.
 */
module ExpReduction {
  import opened Dyadic
  import opened Rounding
  import opened ErrorFree
  import opened Product
  import opened BitPattern
  import opened IntegerConversion
  import opened LogTwo

  /** log2InvMult2L, the double next to 4096/ln 2. */
  const LOG2_INV: real := 5909.278887481194033171050250530242919921875

  const OVERFLOW_BOUND: real := 709.7827128933839730962063185870647430419921875
  const UNDERFLOW_BOUND: real := -745.133219101941222106688655912876129150390625
  const DENORM_BOUND: real := -708.396418532264078748994506895542144775390625

  /** The product x * log2InvMult2L is computed to within 2^-30. */
  lemma ScaledArgument(x: real, z: real)
    requires UNDERFLOW_BOUND <= x <= OVERFLOW_BOUND && z == x * LOG2_INV
    ensures Abs(RN(z) - z) <= 0.000000001
    ensures -4403200.01 <= z <= 4194304.01 && Abs(RN(z)) <= 4403201.0
    ensures x <= DENORM_BOUND ==> z <= -4186111.99
    ensures x >= DENORM_BOUND ==> z >= -4186112.01
  {
    hide Pow2, Cexp, RN;
    RNBound(z);
    Pow2Mono(EMIN - 1, -53);
    UnitRoundoff();
  }

  lemma Quotient(k: int, q: int, r: int)
    requires k == 4096 * q + r && 0 <= r < 4096
    ensures k / 4096 == q && k % 4096 == r
  {
  }

  lemma ShortRemainder(w: int, q: int, r: int)
    requires w == 4096 * q + r && 0 <= r < 4096
    ensures w % 64 == r % 64
  {
    var n := 64 * q + r / 64;
    assert w == 64 * n + r % 64;
  }

  /** k = 4096 M + 64 index2 + index1 for negative k as well. */
  lemma Fields(w: nat, k: int)
    requires w < WORD && k == Signed(w)
    ensures k == 4096 * (k / 4096) + 64 * ((w % 4096) / 64) + w % 64
    ensures (w % 4096) / 64 < 64
  {
    var q, r := w / 4096, w % 4096;
    ShortRemainder(w, q, r);
    Quotient(k, if w < 0x8000_0000 then q else q - 0x10_0000, r);
    assert r == 64 * (r / 64) + r % 64;
  }

  /** From the scaled argument z and its rounding t to the exponent M. */
  lemma ExponentRange(z: real, t: real, k: int, M: int, i: nat)
    requires Abs(t - z) <= 0.000000001 && -0.5 <= k as real - t <= 0.5
    requires -4403200.01 <= z <= 4194304.01 && k == 4096 * M + i && i < 4096
    ensures Abs(k as real - z) <= 0.500000001 && -1075 <= M <= 1024 && (M == 1024 ==> i == 0)
    ensures z <= -4186111.99 ==> M <= -1022
    ensures z >= -4186112.01 ==> M >= -1022
  {
  }

  /** kd and x as the reduction leaves them. */
  ghost predicate Matched(x: real, kd: real) {
    && Rep(x) && Abs(kd) <= 4403201.0 && kd == kd.Floor as real
    && Abs(kd - x * LOG2_INV) <= 0.500000001
  }

  lemma IntegerMatches(x: real, kd: real, k: int)
    requires Rep(x) && UNDERFLOW_BOUND < x <= OVERFLOW_BOUND
    requires kd == k as real && Abs(kd - x * LOG2_INV) <= 0.500000001
    ensures Matched(x, kd)
  {
    hide Rep;
    assert (k as real).Floor == k;
  }

  /**
   kd is the integer nearest to the scaled argument, k is the same integer read
   from the low word, and its fields address the two tables. M stays between
   -1075 and 1024, reaches 1024 only with both indices zero, and is at most
   -1022 for arguments up to DENORMBOUND, at least -1022 above it.
   */
  method Reduce(x: real) returns (kd: real, k: int, M: int, index1: nat, index2: nat)
    requires Rep(x) && UNDERFLOW_BOUND < x <= OVERFLOW_BOUND
    ensures kd == k as real && k == NearestInt(FMul(x, LOG2_INV))
    ensures Matched(x, kd) && Abs(kd - x * LOG2_INV) <= 0.500000001
    ensures k == 4096 * M + 64 * index2 + index1 && index1 < 64 && index2 < 64
    ensures -1075 <= M <= 1024 && (M == 1024 ==> index1 == 0 && index2 == 0)
    ensures x <= DENORM_BOUND ==> M <= -1022
    ensures x > DENORM_BOUND ==> M >= -1022
  {
    hide Pow2, FloorIndex, Cexp, Rep, RN, NearestInt, Encode, FMul, Abs, Signed, Decode;
    ghost var z := x * LOG2_INV;
    FMulIs(x, LOG2_INV, z);
    ScaledArgument(x, z);
    var xMultLog2InvMult2L := FMul(x, LOG2_INV);
    ghost var n := NearestInt(xMultLog2InvMult2L);
    NearestIntBounds(xMultLog2InvMult2L);
    var shiftedXMult := RN(xMultLog2InvMult2L + SHIFT as real);
    ShiftRounds(xMultLog2InvMult2L);
    LowWord(n);
    kd := RN(shiftedXMult - SHIFT as real);
    IntegerRep(n);
    assert shiftedXMult - SHIFT as real == n as real;
    RNExact(n as real);
    var shiftedXMultdb := new DbNumber(Encode(false, shiftedXMult));
    var w := shiftedXMultdb.Lo();
    k := Signed(w);
    Fields(w, k);
    M := k / 4096;
    index1 := w % 64;
    index2 := (w % 4096) / 64;
    ExponentRange(z, xMultLog2InvMult2L, k, M, 64 * index2 + index1);
    IntegerMatches(x, kd, k);
  }

  // ---------------------------------------------------- the reduced argument

  /** msLog2Div2Lh, the double next to -ln 2 / 4096: -6243314768165359 * 2^-65. */
  const STEP_HIGH: real := -6243314768165359.0 / 36893488147419103232.0

  /** msLog2Div2Lm: -7525737178955839 * 2^-120. */
  const STEP_LOW: real := -7525737178955839.0 / 1329227995784915872903807060280344576.0

  /** rh + rm, the reduced argument of the quick phase. */
  function ReducedArgument(x: real, kd: real): Pair {
    var s := Mul12(STEP_HIGH, kd);
    var s3 := FMul(kd, STEP_LOW);
    var s4 := RN(s.l + s3);
    var s5 := RN(x + s.h);
    Add12Cond(s5, s4)
  }

  /**
   The two step constants stand for -ln 2 / 4096 to within half a unit in the last place, and
   log2InvMult2L for 4096 / ln 2 to within half a unit in its last place.
   */
  lemma StepIsLn2(ln2: real)
    requires IsLn2(ln2)
    ensures Abs(STEP_HIGH + STEP_LOW + ln2 / 4096.0) <= 1.0 / 2658455991569831745807614120560689152.0
    ensures Abs(LOG2_INV * ln2 - 4096.0) <= ln2 / 2199023255552.0
  {
    hide IsLn2;
    Enclosure(ln2);
  }

  /**
   The bounds of the argument are the multiples 1024, -1075 and -1022 of ln 2, to
   within half a unit in the last place, the first two below and the last one above.
   */
  lemma BoundsAreLn2(ln2: real)
    requires IsLn2(ln2)
    ensures 1024.0 * ln2 - 1.0 / 17592186044416.0 <= OVERFLOW_BOUND <= 1024.0 * ln2 - 0.00000000000002
    ensures -1075.0 * ln2 - 1.0 / 17592186044416.0 <= UNDERFLOW_BOUND < -1075.0 * ln2
    ensures -1022.0 * ln2 < DENORM_BOUND <= -1022.0 * ln2 + 1.0 / 17592186044416.0
  {
    hide IsLn2;
    Coarse(ln2);
  }

  lemma SmallNegativePowers()
    ensures Pow2(-13) == 1.0 / 8192.0 && Pow2(-14) == 1.0 / 16384.0 && Pow2(-65) == 1.0 / 36893488147419103232.0
  {
    hide Pow2;
    UnitRoundoff();
    SmallPowers();
    Pow2Inverse(13);
    Pow2Add(8, 4);
    Pow2Add(12, 1);
    Pow2Zero();
    Pow2Succ(0);
    Pow2Add(12, 2);
    Pow2Inverse(14);
    Pow2Add(53, 12);
    Pow2Inverse(65);
  }

  lemma StepHighRep()
    ensures Rep(STEP_HIGH) && Cexp(STEP_HIGH) == -65
  {
    hide Pow2, FloorIndex, Cexp, Rep;
    SmallNegativePowers();
    GridOf(STEP_HIGH, -6243314768165359, -65);
    Pow2Succ(-13);
    CexpIs(STEP_HIGH, -65);
    RepIntro(STEP_HIGH, -65);
  }

  /** What is left of x once kd steps are subtracted: about half a step. */
  lemma Remainder(x: real, kd: real, z: real)
    requires Matched(x, kd) && z == kd * STEP_HIGH
    ensures Abs(x + z) <= 0.00008462
    ensures Abs(z) <= 746.0
    ensures Abs(kd) >= 1.0 ==> Abs(x) >= 1.0 / 16384.0 && Abs(z) >= 1.0 / 8192.0
    ensures Abs(kd) >= 2.0 ==> Abs(x) >= 0.00025 && Abs(z) >= 0.00033
  {
    hide Rep;
  }

  /** kd * msLog2Div2Lh is split exactly into two doubles. */
  lemma StepProduct(kd: real, z: real)
    requires Abs(kd) <= 4403201.0 && kd == kd.Floor as real && z == kd * STEP_HIGH
    ensures Rep(kd) && Mul12(STEP_HIGH, kd) == Pair(RN(z), z - RN(z))
    ensures Rep(z - RN(z)) && Rep(RN(z))
    ensures kd == 0.0 || Abs(kd) >= 1.0
  {
    hide Pow2, FloorIndex, Cexp, Rep, RN, Mul12;
    IntegerRep(kd.Floor);
    StepHighRep();
    RNRep(z);
    if kd != 0.0 {
      Pow2Zero();
      CexpGe(kd, -52);
    }
    Mul12Exact(STEP_HIGH, kd, z);
  }

  /** Two doubles of opposite sign that cancel down to half a step. */
  lemma Cancels(x: real, s1: real)
    requires Rep(x) && Rep(s1) && Abs(x + s1) <= 0.0000847
    requires Abs(x) >= 1.0 / 16384.0 && Abs(s1) >= 1.0 / 8192.0
    ensures Rep(x + s1)
  {
    hide Pow2, FloorIndex, Cexp, Rep, RN;
    SmallNegativePowers();
    CexpGe(x, -66);
    CexpGe(s1, -66);
    RepGrid(x, -66);
    RepGrid(s1, -66);
    GridSum(x, s1, -66);
    if Abs(x) >= 0.00025 && Abs(s1) >= 0.00025 {
      RepNeg(s1);
      Sterbenz(x, -s1);
      assert x - -s1 == x + s1;
    } else {
      RepIntro(x + s1, -66);
    }
  }

  /** The rounding of the product is far below the size of a step. */
  lemma ProductRounding(z: real, s1: real)
    requires Abs(z) <= 746.0 && s1 == RN(z)
    ensures Abs(s1 - z) <= 0.0000000000000829
    ensures Abs(z) >= 1.0 / 8192.0 ==> Abs(s1) >= 1.0 / 8192.0
  {
    hide Pow2, FloorIndex, Cexp, Rep, RN;
    RNBound(z);
    Pow2Mono(EMIN - 1, -105);
    UnitRoundoff();
    Pow2Add(-53, -52);
    Pow2Succ(-53);
    SmallNegativePowers();
    RepPow2(-13);
    RNMagnitude(z, Pow2(-13));
  }

  /** The leading subtraction of the reduction cancels without error. */
  lemma LeadingCancels(x: real, kd: real, z: real, s1: real)
    requires Matched(x, kd) && z == kd * STEP_HIGH && s1 == RN(z)
    requires kd == 0.0 || Abs(kd) >= 1.0
    ensures RN(x + s1) == x + s1 && Rep(x + s1) && Abs(s1 - z) <= 0.0000000000000829
    ensures Abs(x + z) <= 0.00008462
  {
    hide Pow2, FloorIndex, Cexp, Rep, RN, Abs;
    Remainder(x, kd, z);
    RNRep(z);
    ProductRounding(z, s1);
    Triangle(x + z, s1 - z, x + s1);
    if kd == 0.0 {
      RepZero();
      RNExact(0.0);
    } else {
      Cancels(x, s1);
    }
    RNExact(x + s1);
  }

  /** The error budget of the low words. */
  lemma LowBudget(kd: real, s2: real, z3: real, s3: real, s4: real, eta: real)
    requires Abs(kd) <= 4403201.0 && Abs(s2) <= 0.0000000000000829
    requires z3 == kd * STEP_LOW && Abs(s3 - z3) <= Eps(Abs(z3)) + eta
    requires Abs(s4 - (s2 + s3)) <= Eps(Abs(s2 + s3)) && 0.0 <= eta <= Eps(Eps(1.0))
    ensures Abs(s4 - (s2 + z3)) <= Eps(0.00000000000014)
    ensures Abs(s4) <= 0.00000000000011
  {
    assert Abs(z3) <= 0.0000000000000251;
    LowBudgetLinear(s2, z3, s3, s4, eta);
  }

  lemma LowBudgetLinear(s2: real, z3: real, s3: real, s4: real, eta: real)
    requires Abs(s2) <= 0.0000000000000829 && Abs(z3) <= 0.0000000000000251
    requires Abs(s3 - z3) <= Eps(Abs(z3)) + eta
    requires Abs(s4 - (s2 + s3)) <= Eps(Abs(s2 + s3)) && 0.0 <= eta <= Eps(Eps(1.0))
    ensures Abs(s4 - (s2 + z3)) <= Eps(0.00000000000014)
    ensures Abs(s4) <= 0.00000000000011
  {
    hide Abs;
    Triangle(s3 - z3, z3, s3);
    Triangle(s2, s3, s2 + s3);
    Triangle(s4 - (s2 + s3), s3 - z3, s4 - (s2 + z3));
    Triangle(s2 + s3, s4 - (s2 + s3), s4);
  }

  /**
   The reduced argument is a normalised pair within 2^-95 of
   x + kd * (msLog2Div2Lh + msLog2Div2Lm): of its three additions and two
   products only the last product and the sum of the low words round.
   */
  lemma StepError(x: real, kd: real, exact: real)
    requires Matched(x, kd)
    requires exact == x + kd * STEP_HIGH + kd * STEP_LOW
    ensures var r := ReducedArgument(x, kd);
      && Abs(r.h + r.l - exact) <= Eps(0.00000000000014)
      && r.h == RN(r.h + r.l) && Abs(r.h + r.l) <= 0.0000847
  {
    hide Pow2, FloorIndex, Cexp, Rep, RN, Mult, Mul12, Abs, Eps, Add12Cond, FMul, Matched;
    var z, z3 := kd * STEP_HIGH, kd * STEP_LOW;
    MatchedInteger(x, kd);
    StepProduct(kd, z);
    var s1, s2 := RN(z), z - RN(z);
    LeadingCancels(x, kd, z, s1);
    AbsNeg(s2);
    FMulIs(kd, STEP_LOW, z3);
    var s3 := FMul(kd, STEP_LOW);
    RNBound(z3);
    RNRep(z3);
    TinyHalf();
    RNSum(s2, s3);
    var s4 := RN(s2 + s3);
    RNRep(s2 + s3);
    LowBudget(kd, s2, z3, s3, s4, Pow2(EMIN - 1));
    var s5 := x + s1;
    Add12CondExact(s5, s4);
    assert s5 + s4 - exact == s4 - (s2 + z3);
    Triangle(x + z, s1 - z, s5);
    Triangle(s5, s4, s5 + s4);
  }

  lemma StepDeviation(x: real, kd: real, ln2: real, exact: real, steps: real)
    requires Abs(kd) <= 4403201.0 && exact == x - kd * (ln2 / 4096.0) && steps == x + kd * STEP_HIGH + kd * STEP_LOW
    requires Abs(STEP_HIGH + STEP_LOW + ln2 / 4096.0) <= 1.0 / 2658455991569831745807614120560689152.0
    ensures Abs(steps - exact) <= Eps(0.00000000000002)
  {
    hide Abs;
    var d, t := STEP_HIGH + STEP_LOW + ln2 / 4096.0, ln2 / 4096.0;
    var z := kd * d;
    Distribute(d, STEP_HIGH + STEP_LOW, t, kd);
    Distribute(STEP_HIGH + STEP_LOW, STEP_HIGH, STEP_LOW, kd);
    assert steps - exact == z;
    MulBound(kd, d, 4403201.0, 1.0 / 2658455991569831745807614120560689152.0);
  }

  /** The reduced argument is a normalised pair within 2^-95 of x - kd * ln 2 / 4096. */
  lemma ReductionError(x: real, kd: real, ln2: real, exact: real)
    requires Matched(x, kd) && IsLn2(ln2) && exact == x - kd * (ln2 / 4096.0)
    ensures var r := ReducedArgument(x, kd);
      && Abs(r.h + r.l - exact) <= Eps(0.00000000000016)
      && r.h == RN(r.h + r.l) && Abs(r.h + r.l) <= 0.0000847
  {
    hide RN, Rep, Eps, Matched, IsLn2, ReducedArgument, Abs;
    var steps := x + kd * STEP_HIGH + kd * STEP_LOW;
    StepError(x, kd, steps);
    StepIsLn2(ln2);
    MatchedInteger(x, kd);
    StepDeviation(x, kd, ln2, exact, steps);
    var r := ReducedArgument(x, kd);
    Triangle(r.h + r.l - steps, steps - exact, r.h + r.l - exact);
    EpsAdd();
  }

  lemma EpsAdd()
    ensures Eps(0.00000000000014) + Eps(0.00000000000002) <= Eps(0.00000000000016)
  {
  }

  lemma ReducedRep(x: real, kd: real)
    ensures var r := ReducedArgument(x, kd);
      Rep(r.h) && Rep(r.l)
  {
    hide Pow2, FloorIndex, Cexp, RN, Rep, Mult, Mul12, FMul;
    var s5, s4 := RN(x + Mul12(STEP_HIGH, kd).h), RN(Mul12(STEP_HIGH, kd).l + FMul(kd, STEP_LOW));
    RNRep(s5 + s4);
    var s := RN(s5 + s4);
    var u1 := RN(s - s5);
    RNRep(RN(s5 - RN(s - u1)) + RN(s4 - u1));
  }

  lemma TinyHalf()
    ensures 0.0 <= Pow2(EMIN - 1) <= Eps(Eps(1.0))
  {
    hide Pow2;
    UnitRoundoff();
    Pow2Add(-53, -53);
    Pow2Mono(EMIN - 1, -106);
  }

  lemma MatchedInteger(x: real, kd: real)
    requires Matched(x, kd)
    ensures Rep(x) && Abs(kd) <= 4403201.0 && kd == kd.Floor as real
  {
  }
}
