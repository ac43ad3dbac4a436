/**
 The last step of exp_rn, exp_ru and exp_rd when the result may be subnormal:
 2^M * (ph + pm + pl) is rounded once, although ph * 2^M has already been
 rounded on the way.
 */
module ExpTail {
  import opened Dyadic
  import opened Rounding
  import opened Product
  import opened BitPattern
  import opened Neighbours
  import opened ErrorFree
  import opened Renormalization

  /** x * 2^k */
  function Ldexp(x: real, k: int): real {
    x * Pow2(k)
  }

  /** A normalised triple whose high word is the rounding of the whole sum. */
  ghost predicate Triple(ph: real, pm: real, pl: real) {
    Rep(ph) && Rep(pm) && Rep(pl) && ph == RN(ph + (pm + pl))
  }

  /** What the argument reduction of exp leaves when the result may be subnormal. */
  ghost predicate Reduced(ph: real, pm: real, pl: real, M: int) {
    Triple(ph, pm, pl) && 0.5 <= ph < 2.0 && -1075 <= M <= -1022
  }

  // ----------------------------------------------------- exact rescalings

  lemma LdexpLdexp(x: real, a: int, b: int)
    ensures Ldexp(Ldexp(x, a), b) == Ldexp(x, a + b)
  {
    hide Pow2;
    Pow2Add(a, b);
    Regroup(x, Pow2(a), Pow2(b));
  }

  lemma LdexpZero(x: real)
    ensures Ldexp(x, 0) == x
  {
    hide Pow2;
    Pow2Zero();
  }

  lemma LdexpSum(x: real, y: real, z: real, k: int)
    requires z == x + y
    ensures Ldexp(z, k) == Ldexp(x, k) + Ldexp(y, k)
  {
    hide Pow2;
    Distribute(z, x, y, Pow2(k));
  }

  lemma LdexpNeg(x: real, k: int)
    ensures Ldexp(-x, k) == -Ldexp(x, k)
  {
    hide Pow2;
  }

  lemma LdexpPow2(e: int, k: int)
    ensures Ldexp(Pow2(e), k) == Pow2(e + k)
  {
    hide Pow2;
    Pow2Add(e, k);
  }

  lemma LdexpAbs(x: real, k: int)
    ensures Abs(Ldexp(x, k)) == Ldexp(Abs(x), k)
  {
    hide Pow2;
    AbsMul(x, Pow2(k));
  }

  lemma LdexpOrder(x: real, y: real, k: int)
    ensures x < y <==> Ldexp(x, k) < Ldexp(y, k)
    ensures x == y <==> Ldexp(x, k) == Ldexp(y, k)
  {
    hide Pow2;
    if x < y { MulLt(x, y, Pow2(k)); }
    if y < x { MulLt(y, x, Pow2(k)); }
  }

  /** Scaling a short number by a power of two is exact. */
  lemma ExactScale(x: real, g: int, k: int)
    requires Grid(x, g) && g + k >= EMIN && Abs(x) <= Pow2(g + 53)
    ensures FMul(x, Pow2(k)) == Ldexp(x, k) && Rep(Ldexp(x, k))
    ensures Grid(Ldexp(x, k), g + k) && Abs(Ldexp(x, k)) <= Pow2(g + k + 53)
  {
    hide Pow2, FloorIndex, Mult, Cexp, RN, Rep, Abs;
    var z := Ldexp(x, k);
    GridShift(z, x, g, k);
    LdexpAbs(x, k);
    LdexpOrder(Pow2(g + 53), Abs(x), k);
    LdexpPow2(g + 53, k);
    RepIntro(z, g + k);
    FMulIs(x, Pow2(k), z);
    RNExact(z);
  }

  /** Rounding commutes with a scaling that keeps the number of bits kept. */
  lemma RoundScaled(x: real, k: int)
    requires Cexp(Ldexp(x, k)) == Cexp(x) + k
    ensures RN(Ldexp(x, k)) == Ldexp(RN(x), k)
  {
    hide Pow2, Cexp, NearestInt;
    var c, z := Cexp(x), Ldexp(x, k);
    Pow2Add(k, -c - k);
    Regroup(x, Pow2(k), Pow2(-c - k));
    assert Scaled(z, c + k) == Scaled(x, c);
    var n := NearestInt(Scaled(x, c));
    Pow2Add(c, k);
    Regroup(n as real, Pow2(c), Pow2(k));
  }

  // ------------------------------------------------ the scaling steps

  /** t4: the two multiplications that bring ph down to 2^M. */
  function Down(ph: real, m: real): real {
    FMul(FMul(ph, Pow2(-1000)), m)
  }

  /** t6: the two multiplications that bring t4 back. */
  function Back(t4: real, m: real): real {
    FMul(FMul(t4, m), Pow2(1000))
  }

  lemma BinadesOfHigh(ph: real)
    requires 0.5 <= ph < 2.0
    ensures -53 <= Cexp(ph) <= -52
  {
    hide Pow2, Cexp;
    Pow2Zero();
    Pow2Succ(-1);
    Pow2Succ(0);
    CexpGe(ph, -53);
    CexpLe(ph, -52);
  }

  /** Only the multiplication that reaches the subnormal range rounds. */
  lemma DownRounds(ph: real, M: int)
    requires Rep(ph) && 0.5 <= ph < 2.0 && -1075 <= M <= -1022
    ensures Down(ph, Pow2(M + 1000)) == RN(Ldexp(ph, M))
  {
    hide Pow2, FloorIndex, Mult, Cexp, RN, Rep, FMul, Ldexp;
    BinadesOfHigh(ph);
    var c := Cexp(ph);
    RepGrid(ph, c);
    ExactScale(ph, c, -1000);
    LdexpLdexp(ph, -1000, M + 1000);
    LdexpIs(Ldexp(ph, -1000), M + 1000);
  }

  lemma LdexpIs(x: real, k: int)
    ensures FMul(x, Pow2(k)) == RN(Ldexp(x, k))
  {
    hide Pow2, RN;
  }

  lemma BackExact(t4: real, M: int)
    requires Grid(t4, EMIN) && Abs(t4) <= Pow2(EMIN + 53) && -1075 <= M <= -1022
    ensures Back(t4, Pow2(-M - 1000)) == Ldexp(t4, -M)
    ensures Grid(Ldexp(t4, -M), -M + EMIN)
  {
    hide Pow2, FloorIndex, Mult, Cexp, RN, Rep, FMul, Ldexp;
    ExactScale(t4, EMIN, -M - 1000);
    ExactScale(Ldexp(t4, -M - 1000), EMIN - M - 1000, 1000);
    LdexpLdexp(t4, -M - 1000, 1000);
  }

  /** f = t4 is the rounding of x = ph * 2^M, and it is subnormal or just normal. */
  lemma Landing(ph: real, M: int, x: real, f: real)
    requires Rep(ph) && 0.5 <= ph < 2.0 && -1075 <= M <= -1022
    requires x == Ldexp(ph, M) && f == RN(x)
    ensures Rep(f) && Grid(f, EMIN) && 0.0 <= f <= Pow2(EMIN + 53)
    ensures x > 0.0 && Grid(x, Cexp(ph) + M) && x + Pow2(Cexp(ph) + M) <= Pow2(EMIN + 53)
    ensures Abs(x - f) <= Pow2(EMIN - 1)
  {
    hide Pow2, FloorIndex, Mult, Cexp, RN, Rep, Ldexp, Abs;
    BinadesOfHigh(ph);
    RepGrid(ph, Cexp(ph));
    GridShiftLdexp(ph, Cexp(ph), M);
    LdexpPositive(ph, M);
    var e := Cexp(ph) + M;
    LdexpPow2(1, M);
    LdexpOrder(ph, Pow2(1), M);
    Pow2Zero();
    Pow2Succ(0);
    Pow2Mono(M + 1, EMIN + 53);
    GridPow2(EMIN + 53, e);
    GridApart(x, Pow2(EMIN + 53), e);
    LandingRound(x, f);
  }

  lemma LandingRound(x: real, f: real)
    requires 0.0 < x < Pow2(EMIN + 53) && f == RN(x)
    ensures Rep(f) && Grid(f, EMIN) && 0.0 <= f <= Pow2(EMIN + 53)
    ensures Abs(x - f) <= Pow2(EMIN - 1)
  {
    hide Pow2, FloorIndex, Mult, Cexp, RN, Rep;
    CexpLe(x, EMIN);
    RNRep(x);
    RNError(x);
    RepZero();
    RNAbove(x, 0.0);
  }

  lemma GridShiftLdexp(x: real, e: int, k: int)
    requires Grid(x, e)
    ensures Grid(Ldexp(x, k), e + k)
  {
    hide Pow2, FloorIndex, Mult;
    GridShift(Ldexp(x, k), x, e, k);
  }

  lemma LdexpPositive(x: real, k: int)
    ensures x > 0.0 <==> Ldexp(x, k) > 0.0
    ensures x == 0.0 <==> Ldexp(x, k) == 0.0
  {
    hide Pow2;
    LdexpOrder(0.0, x, k);
    LdexpOrder(x, 0.0, k);
    assert Ldexp(0.0, k) == 0.0;
  }

  /** The subtraction t7 = ph - t6 recovers the rounding error, scaled by 2^-M. */
  lemma Recovered(ph: real, M: int, f: real)
    requires Rep(ph) && 0.5 <= ph < 2.0 && -1075 <= M <= -1022 && f == RN(Ldexp(ph, M))
    ensures var t6 := Back(f, Pow2(-M - 1000));
      RN(ph - t6) == ph - t6 && Ldexp(ph - t6, M) == Ldexp(ph, M) - f
  {
    hide Pow2, FloorIndex, Mult, Cexp, RN, Rep, Ldexp, FMul, Back;
    var x := Ldexp(ph, M);
    Landing(ph, M, x, f);
    BackExact(f, M);
    var t6 := Ldexp(f, -M);
    LdexpLdexp(f, -M, M);
    LdexpZero(f);
    LdexpSum(ph - t6, t6, ph, M);
    var t7 := ph - t6;
    LdexpAbs(t7, M);
    LdexpPow2(-M + EMIN - 1, M);
    LdexpOrder(Pow2(-M + EMIN - 1), Abs(t7), M);
    BinadesOfHigh(ph);
    RepGrid(ph, -53);
    GridCoarser(t6, -M + EMIN, -53);
    GridSum(ph, t6, -53);
    Pow2Mono(-M + EMIN - 1, 0);
    RepIntro(t7, -53);
    RNExact(t7);
  }

  // ----------------------------------- the position of the exact value

  /**
   v = f + delta + rho: the tail f, its rounding error delta (a multiple of
   2^e) and the scaled low words rho, at most half of 2^e.
   */
  ghost predicate Placed(v: real, f: real, delta: real, rho: real, e: int) {
    && v == f + delta + rho && v > 0.0 && v < Pow2(EMIN + 53)
    && Rep(f) && Grid(f, EMIN) && 0.0 <= f <= Pow2(EMIN + 53)
    && e <= EMIN && Grid(delta, e)
    && Abs(delta) <= Pow2(EMIN - 1) && Abs(rho) <= Pow2(e - 1)
    && f + delta + Pow2(e) <= Pow2(EMIN + 53)
  }

  /** The low words are at most half a unit in the last place of the high one. */
  lemma LowHalf(ph: real, q: real)
    requires Rep(ph) && 0.5 <= ph < 2.0 && ph == RN(ph + q)
    ensures Abs(q) <= Pow2(Cexp(ph) - 1)
  {
    hide Pow2, FloorIndex, Mult, Cexp, RN, Rep;
    var c := Cexp(ph);
    BinadesOfHigh(ph);
    RepGrid(ph, c);
    GridPow2(c, c);
    GridSum(ph, Pow2(c), c);
    BelowTop(ph, c);
    Pow2Succ(c - 1);
    Pow2Mono(c, c + 52);
    if ph < Pow2(c + 52) { CexpLe(ph, c - 1); }
    RepIntro(ph + Pow2(c), c);
    RepIntro(ph - Pow2(c), c);
    if q > 0.0 { HalfGap(ph, ph + Pow2(c), q); }
    if q < 0.0 { HalfGap(ph, ph - Pow2(c), q); }
  }

  lemma Position(ph: real, pm: real, pl: real, M: int)
    requires Reduced(ph, pm, pl, M)
    ensures var x, f := Ldexp(ph, M), RN(Ldexp(ph, M));
      Placed(Ldexp(ph + (pm + pl), M), f, x - f, Ldexp(pm + pl, M), Cexp(ph) + M)
  {
    hide Pow2, FloorIndex, Mult, Cexp, RN, Rep, Ldexp;
    var x, q, c := Ldexp(ph, M), pm + pl, Cexp(ph);
    var f := RN(x);
    var e := c + M;
    BinadesOfHigh(ph);
    Landing(ph, M, x, f);
    GridCoarser(f, EMIN, e);
    GridSum(x, f, e);
    LowHalf(ph, q);
    LdexpAbs(q, M);
    LdexpPow2(c - 1, M);
    LdexpOrder(Pow2(c - 1), Abs(q), M);
    LdexpSum(ph, q, ph + q, M);
    Pow2Succ(e - 1);
    Pow2Zero();
    Pow2Succ(-1);
    Pow2Succ(-2);
    Pow2Mono(c - 1, -2);
    LdexpPositive(ph + q, M);
  }

  // ------------------------------------------------- rounding to nearest

  /** A grid point less than half a step away is the rounding to nearest. */
  lemma StrictlyNearest(v: real, f: real)
    requires Rep(f) && Abs(v - f) < Pow2(EMIN - 1)
    ensures RN(v) == f
  {
    hide Pow2, FloorIndex, Mult, Cexp, RN, Rep;
    RNNearest(v, f);
    RNRep(v);
    RepGrid(RN(v), EMIN);
    RepGrid(f, EMIN);
    Pow2Succ(EMIN - 1);
    if RN(v) < f { GridApart(RN(v), f, EMIN); }
    if RN(v) > f { GridApart(f, RN(v), EMIN); }
  }

  /** The error and the low words: either the error dominates, or it is zero. */
  lemma Dominates(v: real, f: real, delta: real, rho: real, e: int)
    requires Placed(v, f, delta, rho, e)
    ensures delta == 0.0 || Abs(delta) >= Pow2(e) >= 2.0 * Abs(rho)
    ensures delta > 0.0 ==> v > f
    ensures delta < 0.0 ==> v < f
    ensures delta == 0.0 ==> v - f == rho
    ensures Abs(v - f) < Pow2(EMIN)
    ensures e == EMIN ==> delta == 0.0
  {
    hide Pow2, FloorIndex, Mult, Cexp, Rep;
    GridZero(e);
    Pow2Succ(e - 1);
    Pow2Succ(EMIN - 1);
    if delta > 0.0 { GridApart(0.0, delta, e); }
    if delta < 0.0 { GridApart(delta, 0.0, e); }
    Pow2Mono(e, EMIN);
    if e < EMIN { Pow2Mono(e, EMIN - 1); }
  }

  /** Away from the midpoint the tail is already the correct rounding. */
  lemma NoTie(v: real, f: real, delta: real, rho: real, e: int)
    requires Placed(v, f, delta, rho, e) && e < EMIN && Abs(delta) != Pow2(EMIN - 1)
    ensures RN(v) == f
  {
    hide Pow2, FloorIndex, Mult, Cexp, RN, Rep;
    GridPow2(EMIN - 1, e);
    GridNeg(delta, e);
    GridApart(Abs(delta), Pow2(EMIN - 1), e);
    Pow2Succ(e - 1);
    StrictlyNearest(v, f);
  }

  /** At the midpoint the sign of the low words decides. */
  lemma Tie(v: real, f: real, delta: real, rho: real, e: int)
    requires Placed(v, f, delta, rho, e) && Abs(delta) == Pow2(EMIN - 1)
    ensures delta > 0.0 && rho > 0.0 && Rep(f + Pow2(EMIN)) ==> RN(v) == f + Pow2(EMIN)
    ensures delta < 0.0 && rho < 0.0 && Rep(f - Pow2(EMIN)) ==> RN(v) == f - Pow2(EMIN)
    ensures delta > 0.0 && rho < 0.0 ==> RN(v) == f
    ensures delta < 0.0 && rho > 0.0 ==> RN(v) == f
  {
    hide Pow2, FloorIndex, Mult, Cexp, RN, Rep;
    Dominates(v, f, delta, rho, e);
    Pow2Succ(EMIN - 1);
    if delta > 0.0 && rho > 0.0 && Rep(f + Pow2(EMIN)) { StrictlyNearest(v, f + Pow2(EMIN)); }
    if delta < 0.0 && rho < 0.0 && Rep(f - Pow2(EMIN)) { StrictlyNearest(v, f - Pow2(EMIN)); }
    if (delta > 0.0 && rho < 0.0) || (delta < 0.0 && rho > 0.0) { StrictlyNearest(v, f); }
  }

  /** M = -1022 with ph in [1,2): the result is normal and nothing was lost. */
  lemma NormalEnd(ph: real, q: real, M: int)
    requires Rep(ph) && 0.5 <= ph < 2.0 && M == -1022 && Cexp(ph) + M == EMIN && ph == RN(ph + q)
    requires RN(Ldexp(ph, M)) == Ldexp(ph, M)
    requires Rep(Ldexp(ph, M))
    ensures RN(Ldexp(ph + q, M)) == Ldexp(ph, M)
  {
    hide Pow2, FloorIndex, Mult, Cexp, RN, Rep, Ldexp;
    var v := Ldexp(ph + q, M);
    LowHalf(ph, q);
    LdexpAbs(q, M);
    LdexpPow2(-53, M);
    LdexpSum(ph, q, ph + q, M);
    LdexpOrder(Pow2(-53), Abs(q), M);
    if Abs(q) < Pow2(-53) {
      LdexpOrder(Abs(q), Pow2(-53), M);
      StrictlyNearest(v, Ldexp(ph, M));
    } else {
      HalfwayBinade(ph, q);
      CexpIs(ph + q, -52);
      LdexpPow2(0, M);
      LdexpPow2(1, M);
      LdexpOrder(ph + q, Pow2(0), M);
      LdexpOrder(ph + q, Pow2(1), M);
      CexpIs(v, EMIN);
      RoundScaled(ph + q, M);
    }
  }

  lemma HalfwayBinade(ph: real, q: real)
    requires Rep(ph) && 0.5 <= ph < 2.0 && Cexp(ph) == -52 && ph == RN(ph + q)
    requires Abs(q) == Pow2(-53)
    ensures Pow2(0) <= ph + q < Pow2(1) && Pow2(1) > 0.0
  {
    hide Pow2, FloorIndex, Mult, Cexp, RN, Rep;
    Pow2Zero();
    Pow2Succ(0);
    Pow2Succ(-1);
    Pow2Succ(-53);
    RepGrid(ph, -52);
    BelowTop(ph, -52);
    Pow2Mono(-53, -1);
    if ph + q < Pow2(0) {
      var b := 1.0 - Pow2(-53);
      GridPow2(0, -53);
      GridPow2(-53, -53);
      GridSum(1.0, Pow2(-53), -53);
      RepIntro(b, -53);
      GridPow2(0, -52);
      if ph < 1.0 { CexpLe(ph, -53); }
      if ph > 1.0 { GridApart(1.0, ph, -52); }
      assert ph + q == b;
      RNExact(b);
    }
  }

  // ---------------------------------------------------- the patterns stepped

  /** 2^(n-1023), built by writing n << 20 into the high word. */
  lemma TwoPowerPattern(n: nat)
    requires 1 <= n < 2047
    ensures n * 0x10_0000 < WORD && Decode(n * 0x10_0000 * WORD) == Pow2(n - 1023)
  {
    hide Pow2;
    var l: Bits64 := n * FRAC;
    assert Magnitude(l) == l && l % FRAC == 0 && l / FRAC == n;
    Powers();
    Pow2Add(52, EMIN - 1 + n);
  }

  /** l++ adds 2^-1074 to a double below 2^-1021. */
  lemma StepUp(l: Bits64, f: real)
    requires Finite(l) && !Negative(l) && f == Decode(l) && f < Pow2(EMIN + 53)
    ensures l + 1 < SIGN && !Negative(l + 1) && Decode(l + 1) == f + Pow2(EMIN) && NextUp(f, f + Pow2(EMIN))
  {
    hide Pow2, Cexp, DecodeMag, LastPlace, NextUp, Rep;
    var m := Magnitude(l);
    StepBits(l);
    DecodeSucc(m);
    DecodeMagRep(m);
    CexpLe(f, EMIN);
  }

  /** l-- subtracts 2^-1074 from a positive double up to 2^-1021. */
  lemma StepDown(l: Bits64, f: real)
    requires Finite(l) && !Negative(l) && f == Decode(l) && 0.0 < f <= Pow2(EMIN + 53)
    ensures l > 0 && !Negative(l - 1) && Decode(l - 1) == f - Pow2(EMIN) && NextUp(f - Pow2(EMIN), f)
  {
    hide Pow2, Cexp, DecodeMag, LastPlace, NextUp, Rep;
    DecodeZero();
    var m := Magnitude(l);
    StepBits(l);
    DecodeSucc(m - 1);
    DecodeMagRep(m - 1);
    DecodeMono(m - 1, m);
    CexpLe(DecodeMag(m - 1), EMIN);
  }

  lemma NextUpReps(f: real, g: real)
    requires NextUp(f, g)
    ensures Rep(f) && Rep(g) && f < g
  {
  }

  /** The machine sum of two doubles has the sign of their sum. */
  lemma SumSign(a: real, b: real)
    requires Rep(a) && Rep(b)
    ensures RN(a + b) > 0.0 <==> a + b > 0.0
    ensures RN(a + b) < 0.0 <==> a + b < 0.0
  {
    hide Pow2, FloorIndex, Mult, Cexp, RN, Rep;
    var s := a + b;
    RepGrid(a, EMIN);
    RepGrid(b, EMIN);
    GridSum(a, b, EMIN);
    RepZero();
    GridZero(EMIN);
    RepPow2(EMIN);
    RepNeg(Pow2(EMIN));
    if s > 0.0 {
      GridApart(0.0, s, EMIN);
      RNAbove(s, Pow2(EMIN));
    } else if s < 0.0 {
      GridApart(s, 0.0, EMIN);
      RNBelow(s, -Pow2(EMIN));
    } else {
      RNExact(0.0);
    }
  }

  // -------------------------------------------------------- the three tails

  /** t4 and t7: the steps shared by the three rounding directions. */
  method Descend(ph: real, M: int) returns (t4: Bits64, t7: real)
    requires Rep(ph) && 0.5 <= ph < 2.0 && -1075 <= M <= -1022
    ensures Finite(t4) && !Negative(t4) && Decode(t4) == RN(Ldexp(ph, M))
    ensures Rep(t7) && Ldexp(t7, M) == Ldexp(ph, M) - Decode(t4)
  {
    hide Pow2, FloorIndex, Mult, Cexp, RN, Rep, Ldexp, FMul, Decode, Encode, Finite, Negative;
    var t3 := FMul(ph, Pow2(-1000));
    TwoPowerPattern(M + 2023);
    var twoPowerMdb := new DbNumber(0);
    twoPowerMdb.SetWords((M + 2023) * 0x10_0000, 0);
    var f := FMul(t3, twoPowerMdb.D());
    DownRounds(ph, M);
    Landing(ph, M, Ldexp(ph, M), f);
    Pow2Mono(EMIN + 53, 1023);
    Pow2Mono(1023, 1024);
    EncodeBits(false, f);
    t4 := Encode(false, f);
    var negM := -M;
    TwoPowerPattern(negM + 23);
    twoPowerMdb.SetWords((negM + 23) * 0x10_0000, 0);
    var t5 := FMul(f, twoPowerMdb.D());
    var t6 := FMul(t5, Pow2(1000));
    t7 := RN(ph - t6);
    Recovered(ph, M, f);
    RNRep(ph - t6);
  }

  /** t7 against half a step, before and after the scaling by 2^M. */
  lemma ScaledError(t7: real, M: int)
    ensures var delta := Ldexp(t7, M);
      && (Abs(t7) == Pow2(-M - 1075) <==> Abs(delta) == Pow2(EMIN - 1))
      && (t7 > 0.0 <==> delta > 0.0) && (t7 < 0.0 <==> delta < 0.0)
  {
    hide Pow2, Ldexp, Abs;
    LdexpAbs(t7, M);
    LdexpPow2(-M - 1075, M);
    LdexpOrder(Abs(t7), Pow2(-M - 1075), M);
    LdexpPositive(t7, M);
    LdexpOrder(t7, 0.0, M);
    LdexpPositive(0.0, M);
  }

  /** What RN(v) is in each branch of exp_rn. */
  lemma NearestTail(ph: real, pm: real, pl: real, M: int, f: real, t7: real, v: real)
    requires Reduced(ph, pm, pl, M) && v == Ldexp(ph + (pm + pl), M)
    requires f == RN(Ldexp(ph, M)) && Ldexp(t7, M) == Ldexp(ph, M) - f
    ensures Abs(t7) != Pow2(-M - 1075) ==> RN(v) == f
    ensures Abs(t7) == Pow2(-M - 1075) ==>
      && (t7 > 0.0 && pm + pl > 0.0 ==> f < Pow2(EMIN + 53) && (Rep(f + Pow2(EMIN)) ==> RN(v) == f + Pow2(EMIN)))
      && (t7 > 0.0 && pm + pl <= 0.0 ==> RN(v) == f)
      && (t7 < 0.0 && pm + pl < 0.0 ==> 0.0 < f <= Pow2(EMIN + 53) && (Rep(f - Pow2(EMIN)) ==> RN(v) == f - Pow2(EMIN)))
      && (t7 < 0.0 && pm + pl >= 0.0 ==> RN(v) == f)
  {
    hide Pow2, FloorIndex, Mult, Cexp, RN, Rep, Ldexp, Abs;
    var q, e := pm + pl, Cexp(ph) + M;
    var delta, rho := Ldexp(t7, M), Ldexp(q, M);
    ScaledError(t7, M);
    Position(ph, pm, pl, M);
    Dominates(v, f, delta, rho, e);
    LdexpPositive(q, M);
    LdexpOrder(q, 0.0, M);
    LdexpPositive(0.0, M);
    BinadesOfHigh(ph);
    Landing(ph, M, Ldexp(ph, M), f);
    if Abs(t7) == Pow2(-M - 1075) {
      Tie(v, f, delta, rho, e);
    } else if e < EMIN {
      NoTie(v, f, delta, rho, e);
    } else {
      NormalEnd(ph, q, M);
    }
  }

  /**
   exp_rn: no double rounding. The returned pattern is the one rounding to
   nearest of 2^M * (ph + pm + pl), ties to even included.
   */
  method TailRN(ph: real, pm: real, pl: real, M0: int) returns (r: Bits64)
    requires Reduced(ph, pm, pl, M0)
    ensures Decode(r) == RN(Ldexp(ph + (pm + pl), M0)) && !Negative(r)
  {
    hide Pow2, FloorIndex, Mult, Cexp, RN, Rep, Ldexp, FMul, Decode, Finite, Negative, NextUp, Abs;
    var t4, t7 := Descend(ph, M0);
    var t4db := new DbNumber(t4);
    var M := -M0;
    TwoPowerPattern(M - 52);
    var twoPowerMdb := new DbNumber(0);
    twoPowerMdb.SetWords((M - 52) * 0x10_0000, 0);
    ghost var f := t4db.D();
    NearestTail(ph, pm, pl, M0, f, t7, Ldexp(ph + (pm + pl), M0));
    if Abs(t7) != twoPowerMdb.D() {
      return t4;
    }
    SumSign(pm, pl);
    var low := RN(pm + pl);
    if t7 > 0.0 {
      if low > 0.0 {
        StepUp(t4, f);
        NextUpReps(f, f + Pow2(EMIN));
        t4db.Increment();
        return t4db.l;
      } else {
        return t4;
      }
    } else {
      ScaledError(t7, M0);
      ErrorNonzero(t7, M0);
      if low < 0.0 {
        StepDown(t4, f);
        NextUpReps(f - Pow2(EMIN), f);
        t4db.Decrement();
        return t4db.l;
      } else {
        return t4;
      }
    }
  }

  lemma ErrorNonzero(t7: real, M: int)
    requires Abs(t7) == Pow2(-M - 1075)
    ensures t7 != 0.0
  {
    hide Pow2;
  }

  // --------------------------------------------------- the directed tails

  /** The sign of t8 is the sign of the exact error v - f. */
  lemma DirectedSign(ph: real, pm: real, pl: real, M: int, f: real, t7: real, v: real)
    requires Reduced(ph, pm, pl, M) && v == Ldexp(ph + (pm + pl), M) && Rep(t7)
    requires f == RN(Ldexp(ph, M)) && Ldexp(t7, M) == Ldexp(ph, M) - f
    ensures var t8 := RN(t7 + RN(pm + pl));
      (t8 > 0.0 <==> v > f) && (t8 < 0.0 <==> v < f)
    ensures Rep(f) && 0.0 <= f <= Pow2(EMIN + 53) && Abs(v - f) < Pow2(EMIN) && 0.0 < v < Pow2(EMIN + 53)
  {
    hide Pow2, FloorIndex, Mult, Cexp, RN, Rep, Ldexp, Abs;
    var q, c := pm + pl, Cexp(ph);
    var delta, rho := Ldexp(t7, M), Ldexp(q, M);
    Position(ph, pm, pl, M);
    Dominates(v, f, delta, rho, c + M);
    ScaledError(t7, M);
    LdexpAbs(t7, M);
    LdexpPow2(c, M);
    LdexpOrder(Abs(t7), Pow2(c), M);
    LdexpPositive(q, M);
    LdexpOrder(q, 0.0, M);
    LdexpPositive(0.0, M);
    LdexpPositive(t7, M);
    LowHalf(ph, q);
    BinadesOfHigh(ph);
    RepPow2(c - 1);
    RNMagnitude(q, Pow2(c - 1));
    Pow2Succ(c - 1);
    SumSign(pm, pl);
    RNRep(q);
    SumSign(t7, RN(q));
    SignOfSums(t7, q, RN(q), Pow2(c - 1));
  }

  lemma SignOfSums(t7: real, q: real, low: real, h: real)
    requires h > 0.0 && (t7 == 0.0 || Abs(t7) >= 2.0 * h) && Abs(q) <= h && Abs(low) <= h
    requires (low > 0.0 <==> q > 0.0) && (low < 0.0 <==> q < 0.0)
    ensures t7 > 0.0 ==> t7 + low > 0.0
    ensures t7 < 0.0 ==> t7 + low < 0.0
    ensures t7 == 0.0 ==> (t7 + low > 0.0 <==> q > 0.0) && (t7 + low < 0.0 <==> q < 0.0)
  {
  }

  /** r is the least double strictly above v. */
  ghost predicate LeastAbove(v: real, r: real) {
    Rep(r) && v < r && forall g {:trigger Rep(g)} :: Rep(g) && v < g ==> r <= g
  }

  /** r is the greatest double strictly below v. */
  ghost predicate GreatestBelow(v: real, r: real) {
    Rep(r) && r < v && forall g {:trigger Rep(g)} :: Rep(g) && g < v ==> g <= r
  }

  /** The strict neighbour is the directed rounding exactly when v is not a double. */
  lemma StrictIsDirected(v: real, r: real)
    ensures LeastAbove(v, r) ==> (r == RU(v) <==> !Rep(v))
    ensures GreatestBelow(v, r) ==> (r == RD(v) <==> !Rep(v))
  {
    hide Pow2, FloorIndex, Mult, Cexp, RD, Rep;
    RDRep(v);
    RURep(v);
    if Rep(v) {
      RDGreatest(v, v);
      RULeast(v, v);
    }
    if LeastAbove(v, r) { RULeast(v, r); }
    if GreatestBelow(v, r) { RDGreatest(v, r); }
  }

  lemma AboveFromNextUp(f: real, g: real, v: real)
    requires NextUp(f, g) && f <= v < g
    ensures LeastAbove(v, g)
  {
    hide Rep;
  }

  lemma BelowFromNextUp(f: real, g: real, v: real)
    requires NextUp(f, g) && f < v <= g
    ensures GreatestBelow(v, f)
  {
    hide Rep;
    forall h {:trigger Rep(h)} | Rep(h) && h < v
      ensures h <= f
    {
      assert f < h ==> g <= h;
    }
  }

  /**
   exp_ru: always the least double strictly above 2^M * (ph + pm + pl), which
   is the rounding up exactly when that value is not itself a double.
   */
  method TailRU(ph: real, pm: real, pl: real, M: int) returns (r: Bits64)
    requires Reduced(ph, pm, pl, M)
    ensures var v := Ldexp(ph + (pm + pl), M);
      LeastAbove(v, Decode(r)) && (Decode(r) == RU(v) <==> !Rep(v)) && !Negative(r)
  {
    hide Pow2, FloorIndex, Mult, Cexp, RN, RU, RD, Rep, Ldexp, Decode, Finite, Negative, NextUp, LeastAbove;
    var t4, t7 := Descend(ph, M);
    var t4db := new DbNumber(t4);
    var low := RN(pm + pl);
    var t8 := RN(t7 + low);
    ghost var f, v := t4db.D(), Ldexp(ph + (pm + pl), M);
    DirectedSign(ph, pm, pl, M, f, t7, v);
    if t8 < 0.0 {
      StepDown(t4, f);
      AboveFromNextUp(f - Pow2(EMIN), f, v);
      StrictIsDirected(v, f);
      return t4;
    }
    StepUp(t4, f);
    AboveFromNextUp(f, f + Pow2(EMIN), v);
    StrictIsDirected(v, f + Pow2(EMIN));
    t4db.Increment();
    return t4db.l;
  }

  /** exp_rd: always the greatest double strictly below 2^M * (ph + pm + pl). */
  method TailRD(ph: real, pm: real, pl: real, M: int) returns (r: Bits64)
    requires Reduced(ph, pm, pl, M)
    ensures var v := Ldexp(ph + (pm + pl), M);
      GreatestBelow(v, Decode(r)) && (Decode(r) == RD(v) <==> !Rep(v)) && !Negative(r)
  {
    hide Pow2, FloorIndex, Mult, Cexp, RN, RU, RD, Rep, Ldexp, Decode, Finite, Negative, NextUp, GreatestBelow;
    var t4, t7 := Descend(ph, M);
    var t4db := new DbNumber(t4);
    var low := RN(pm + pl);
    var t8 := RN(t7 + low);
    ghost var f, v := t4db.D(), Ldexp(ph + (pm + pl), M);
    DirectedSign(ph, pm, pl, M, f, t7, v);
    if t8 > 0.0 {
      StepUp(t4, f);
      BelowFromNextUp(f, f + Pow2(EMIN), v);
      StrictIsDirected(v, f);
      return t4;
    }
    StepDown(t4, f);
    BelowFromNextUp(f - Pow2(EMIN), f, v);
    StrictIsDirected(v, f - Pow2(EMIN));
    t4db.Decrement();
    return t4db.l;
  }

  /** The exception is within reach of the triples: 2^-1022 is a double. */
  lemma ExactReached()
    ensures Reduced(1.0, 0.0, 0.0, -1022) && Rep(Ldexp(1.0 + (0.0 + 0.0), -1022))
  {
    hide Pow2, FloorIndex, Mult, Cexp, Rep, RN, Ldexp;
    Pow2Zero();
    RepPow2(0);
    RepZero();
    RNExact(0.0);
    RNExact(1.0);
    LdexpPow2(0, -1022);
    RepPow2(-1022);
  }

  /**
   What Renormalize3 delivers is a triple in this sense exactly when its high
   word is the rounding of the sum.
   */
  lemma RenormalizedTriple(ah: real, am: real, al: real)
    requires Overlapping(ah, am, al)
    ensures var k := RN(am + al);
      var h, r, w := RN(ah + k), am + al - k, Renormalize3(ah, am, al);
      Triple(w.h, w.m, w.l) <==> !(Midpoint(ah + k) && SameSign(ah + k - h, r)) && !OddMidpoint(ah + am + al, h)
  {
    hide RN, Rep, Midpoint, SameSign, OddMidpoint, Separated, Overlapping, Renormalize3;
    Renormalize3Exact(ah, am, al);
    HighWordRounds(ah, am, al);
    var w := Renormalize3(ah, am, al);
    assert w.h + (w.m + w.l) == ah + am + al;
  }
}
