/**
 The rounding test of the quick phases in rounding to nearest: the comparison
 yh == yh + yl * RNCST.
 */
module ZivTest {
  import opened Dyadic
  import opened Rounding
  import opened Product
  import opened Neighbours

  /** The comparison made by the quick phase. */
  predicate Passes(yh: real, yl: real, rncst: real) {
    yh == RN(yh + FMul(yl, rncst))
  }

  /** The rounding constant absorbs the relative error eps of the quick phase:
      rncst * (1 - 2^54 eps) exceeds 1 + 2^-53. */
  ghost predicate Absorbs(rncst: real, eps: real) {
    && 0.0 <= eps && 36028797018963968.0 * eps <= 1.0 && rncst > 0.0
    && Times(rncst, 1.0 - 18014398509481984.0 * eps) > 1.0 + Eps(1.0)
  }

  /** A product that exceeds 2^e by more than half a unit is rounded above 2^e. */
  lemma RoundsAbove(x: real, e: int)
    requires e - 52 >= EMIN && x > Pow2(e) + Pow2(e - 53)
    ensures RN(x) > Pow2(e)
  {
    hide Pow2, FloorIndex, Mult, Cexp, RN, Rep;
    var g := Pow2(e) + Pow2(e - 52);
    Pow2Succ(e - 53);
    GridPow2(e, e - 52);
    GridPow2(e - 52, e - 52);
    GridSum(Pow2(e), Pow2(e - 52), e - 52);
    Pow2Mono(e - 52, e);
    Pow2Succ(e);
    Pow2Mono(e + 1, e + 1);
    RepIntro(g, e - 52);
    if x >= g {
      RNAbove(x, g);
    } else {
      RNNearest(x, g);
    }
  }

  /** The low word is large when the true value lies on the far side of a midpoint. */
  lemma LowIsLarge(yh: real, yl: real, eps: real, y: real, e: int, k: real)
    requires 0.0 <= eps && y >= yh + Pow2(e)
    requires k == Abs(yh + yl) && k <= Pow2(e + 54)
    requires Abs(y - (yh + yl)) <= Times(eps, k)
    ensures yl >= Times(1.0 - 18014398509481984.0 * eps, Pow2(e))
  {
    hide Pow2;
    var d := Pow2(e);
    Pow2Fifty4();
    Pow2Add(54, e);
    var big := 18014398509481984.0 * d;
    MulLe(k, big, eps);
    Regroup(eps, 18014398509481984.0, d);
    var f := 1.0 - 18014398509481984.0 * eps;
    Distribute(1.0, f, 18014398509481984.0 * eps, d);
    assert f * d == d - (18014398509481984.0 * eps) * d;
    Regroup(18014398509481984.0, eps, d);
    assert eps * k <= eps * big;
  }

  lemma Pow2Fifty4()
    ensures Pow2(54) == 18014398509481984.0
  {
    hide Pow2;
    UnitRoundoff();
    Pow2Succ(53);
  }

  /** Hence the scaled low word, rounded, is beyond the midpoint. */
  lemma ScaledLow(yl: real, rncst: real, eps: real, e: int)
    requires Absorbs(rncst, eps) && e - 52 >= EMIN
    requires yl >= Times(1.0 - 18014398509481984.0 * eps, Pow2(e))
    ensures FMul(yl, rncst) > Pow2(e)
  {
    hide Pow2, RN;
    var f, d := 1.0 - 18014398509481984.0 * eps, Pow2(e);
    var x := yl * rncst;
    FMulIs(yl, rncst, x);
    var fd, rf := f * d, rncst * f;
    MulLe(fd, yl, rncst);
    Regroup(rncst, f, d);
    MulLt(1.0 + Eps(1.0), rf, d);
    var one := 1.0 + Eps(1.0);
    Distribute(one, 1.0, Eps(1.0), d);
    UnitRoundoff();
    Pow2Add(e, -53);
    assert one * d == d + Pow2(e - 53);
    assert rf * d > one * d;
    assert x >= rf * d;
    RoundsAbove(x, e);
  }

  /** Then the comparison fails: the neighbour g of yh is nearer. */
  lemma FailsAbove(yh: real, g: real, q: real, e: int)
    requires Rep(g) && g == yh + Pow2(e + 1) && q > Pow2(e)
    ensures RN(yh + q) != yh
  {
    hide Pow2, RN, Rep;
    Pow2Succ(e);
    RNNearest(yh + q, g);
  }

  lemma AboveMidpoint(yh: real, yl: real, rncst: real, eps: real, y: real, e: int, g: real)
    requires Absorbs(rncst, eps) && e - 52 >= EMIN
    requires Rep(g) && g == yh + Pow2(e + 1) && y >= yh + Pow2(e)
    requires Abs(yh + yl) <= Pow2(e + 54)
    requires Abs(y - (yh + yl)) <= Times(eps, Abs(yh + yl))
    ensures !Passes(yh, yl, rncst)
  {
    hide Pow2, RN, Rep, FMul, Times;
    LowIsLarge(yh, yl, eps, y, e, Abs(yh + yl));
    ScaledLow(yl, rncst, eps, e);
    FailsAbove(yh, g, FMul(yl, rncst), e);
  }

  lemma PassesNeg(yh: real, yl: real, rncst: real)
    ensures Passes(yh, yl, rncst) == Passes(-yh, -yl, rncst)
  {
    hide RN;
    var x := yl * rncst;
    FMulIs(yl, rncst, x);
    FMulIs(-yl, rncst, -x);
    RNNeg(x);
    RNNeg(yh + RN(x));
    assert -(yh + RN(x)) == -yh + -RN(x);
  }

  /** Below yh the same argument applies to the opposite numbers. */
  lemma BelowMidpoint(yh: real, yl: real, rncst: real, eps: real, y: real, e: int, g: real)
    requires Absorbs(rncst, eps) && e - 52 >= EMIN
    requires Rep(g) && g == yh - Pow2(e + 1) && y <= yh - Pow2(e)
    requires Abs(yh + yl) <= Pow2(e + 54)
    requires Abs(y - (yh + yl)) <= Times(eps, Abs(yh + yl))
    ensures !Passes(yh, yl, rncst)
  {
    hide Pow2, RN, Rep, FMul, Times, Passes;
    PassesNeg(yh, yl, rncst);
    RepNeg(g);
    assert Abs(-yh + -yl) == Abs(yh + yl);
    assert Abs(-y - (-yh + -yl)) == Abs(y - (yh + yl));
    AboveMidpoint(-yh, -yl, rncst, eps, -y, e, -g);
  }

  lemma EpsSmall(eps: real, k: real, c: int)
    requires 0.0 <= eps && 36028797018963968.0 * eps <= 1.0 && k <= Pow2(c + 53)
    ensures Times(eps, k) <= Pow2(c - 2)
  {
    hide Pow2;
    Pow2Fifty4();
    Pow2Succ(54);
    Pow2Add(55, c - 2);
    EpsTimesBig(eps, k, Pow2(c - 2));
  }

  lemma EpsTimesBig(eps: real, k: real, d: real)
    requires 0.0 <= eps && 36028797018963968.0 * eps <= 1.0 && d > 0.0
    requires k <= 36028797018963968.0 * d
    ensures Times(eps, k) <= d
  {
    var b := 36028797018963968.0 * d;
    MulLe(k, b, eps);
    assert k * eps <= b * eps;
    var f := 36028797018963968.0 * eps;
    assert b * eps == f * d;
    MulLe(f, 1.0, d);
    assert f * d <= d;
  }

  lemma ZivPositive(yh: real, yl: real, rncst: real, eps: real, y: real)
    requires Rep(yh) && yh >= Pow2(EMIN + 106) && yh == RN(yh + yl)
    requires Absorbs(rncst, eps)
    requires Abs(y - (yh + yl)) <= Times(eps, Abs(yh + yl))
    requires Passes(yh, yl, rncst)
    ensures RN(y) == yh
  {
    hide Pow2, Cexp, RN, Rep, FMul, Times, Passes, FloorIndex, Mult;
    var c := Cexp(yh);
    CexpGe(yh, EMIN + 54);
    var lo, hi, e := PositiveNeighbours(yh);
    Pow2Succ(c - 1);
    Pow2Succ(c - 2);
    Pow2Succ(e - 1);
    if yl > 0.0 { HalfGap(yh, hi, yl); }
    if yl < 0.0 { HalfGap(yh, lo, yl); }
    RepGrid(yh, c);
    BelowTop(yh, c);
    var k := Abs(yh + yl);
    assert k <= Pow2(c + 53);
    if y >= yh + Pow2(c - 1) {
      AboveMidpoint(yh, yl, rncst, eps, y, c - 1, hi);
    }
    if y <= yh - Pow2(e - 1) {
      if e == c - 1 && yl > 0.0 {
        EpsSmall(eps, k, c);
      } else {
        BelowMidpoint(yh, yl, rncst, eps, y, e - 1, lo);
      }
    }
    NearestNeighbour(lo, yh, hi, y);
  }

  /**
   The test is sound: when yh is the rounding of yh + yl, the true value y is
   within a relative eps of yh + yl, and the constant absorbs eps, a passed
   comparison means that yh is the correctly rounded y. This includes yh a
   power of two, where the gap below is half the gap above.
   */
  lemma ZivSound(yh: real, yl: real, rncst: real, eps: real, y: real)
    requires Rep(yh) && Abs(yh) >= Pow2(EMIN + 106) && yh == RN(yh + yl)
    requires Absorbs(rncst, eps)
    requires Abs(y - (yh + yl)) <= Times(eps, Abs(yh + yl))
    requires Passes(yh, yl, rncst)
    ensures RN(y) == yh
  {
    hide Pow2, RN, Rep, FMul, Times, Passes, Absorbs;
    if yh > 0.0 {
      ZivPositive(yh, yl, rncst, eps, y);
    } else {
      PassesNeg(yh, yl, rncst);
      RepNeg(yh);
      RNNeg(yh + yl);
      RNNeg(y);
      assert -(yh + yl) == -yh + -yl;
      assert Abs(-yh + -yl) == Abs(yh + yl);
      assert Abs(-y - (-yh + -yl)) == Abs(y - (yh + yl));
      ZivPositive(-yh, -yl, rncst, eps, -y);
    }
  }

  // --------------------------------------------------- when the test passes

  /** The neighbour of yh on the side of yl is 2^GapExponent away. */
  ghost function GapExponent(yh: real, yl: real): int {
    if Abs(yh) == Pow2(Cexp(yh) + 52) && (yh > 0.0) != (yl > 0.0) then Cexp(yh) - 1 else Cexp(yh)
  }

  /** A scaled low word below half the gap stays below half the gap when rounded. */
  lemma BelowHalf(x: real, w: int)
    requires w - 17 >= EMIN && Abs(x) <= 0.49999 * Pow2(w)
    ensures Abs(RN(x)) < Pow2(w - 1)
    ensures (x >= 0.0 ==> RN(x) >= 0.0) && (x <= 0.0 ==> RN(x) <= 0.0)
  {
    hide Pow2, FloorIndex, Mult, Cexp, RN, Rep;
    var b := Pow2(w - 1) - Pow2(w - 17);
    SixteenHalvings(w);
    GridPow2(w - 1, w - 17);
    GridPow2(w - 17, w - 17);
    GridSum(Pow2(w - 1), Pow2(w - 17), w - 17);
    Pow2Mono(w - 1, w + 36);
    RepIntro(b, w - 17);
    RNMagnitude(x, b);
    RepZero();
    if x >= 0.0 { RNAbove(x, 0.0); }
    if x <= 0.0 { RNBelow(x, 0.0); }
  }

  lemma SixteenHalvings(w: int)
    ensures Pow2(w) == 131072.0 * Pow2(w - 17) && Pow2(w - 1) == 65536.0 * Pow2(w - 17)
  {
    hide Pow2;
    SmallPowers();
    Pow2Add(16, w - 17);
    Pow2Succ(w - 1);
  }

  lemma SmallPasses(yh: real, yl: real, rncst: real, x: real)
    requires Rep(yh) && yh >= Pow2(EMIN + 106) && rncst > 0.0 && x == yl * rncst
    requires Abs(x) <= 0.49999 * Pow2(GapExponent(yh, yl))
    requires (yl > 0.0 <==> x > 0.0) && (yl < 0.0 <==> x < 0.0)
    ensures Passes(yh, yl, rncst)
  {
    hide Pow2, Cexp, RN, Rep, FMul, FloorIndex, Mult;
    var c, w, q := Cexp(yh), GapExponent(yh, yl), RN(x);
    CexpGe(yh, EMIN + 54);
    FMulIs(yl, rncst, x);
    BelowHalf(x, w);
    var lo, hi, e := PositiveNeighbours(yh);
    Pow2Succ(w - 1);
    if yl <= 0.0 { Pow2Mono(w, e); }
    Gaps(lo, yh, hi);
    NearestNeighbour(lo, yh, hi, yh + q);
  }

  lemma Gaps(lo: real, yh: real, hi: real)
    requires NextUp(lo, yh) && NextUp(yh, hi)
    ensures lo < yh < hi
  {
    hide Rep;
  }

  lemma SignOfProduct(x: real, y: real, z: real)
    requires x == y * z && z > 0.0
    ensures (y > 0.0 <==> x > 0.0) && (y < 0.0 <==> x < 0.0)
  {
  }

  lemma MirroredGap(yh: real, yl: real, x: real)
    requires yh < 0.0 && (yl == 0.0 ==> x == 0.0)
    requires Abs(x) <= 0.49999 * Pow2(GapExponent(yh, yl))
    ensures Abs(-x) <= 0.49999 * Pow2(GapExponent(-yh, -yl))
  {
    hide Pow2, Cexp;
    CexpNeg(yh);
    if yl != 0.0 { assert GapExponent(-yh, -yl) == GapExponent(yh, yl); }
  }

  /**
   The test is not only sound: it passes whenever the scaled low word stays
   below half the gap to the neighbour on its side, up to one part in 50000.
   */
  lemma ZivPasses(yh: real, yl: real, rncst: real, x: real)
    requires Rep(yh) && Abs(yh) >= Pow2(EMIN + 106) && rncst > 0.0 && x == yl * rncst
    requires Abs(x) <= 0.49999 * Pow2(GapExponent(yh, yl))
    ensures Passes(yh, yl, rncst)
  {
    hide Pow2, Cexp, RN, Rep, FMul, Passes;
    SignOfProduct(x, yl, rncst);
    if yh > 0.0 {
      SmallPasses(yh, yl, rncst, x);
    } else {
      PassesNeg(yh, yl, rncst);
      RepNeg(yh);
      MirroredGap(yh, yl, x);
      SmallPasses(-yh, -yl, rncst, -x);
    }
  }

  // ----------------------------------------------------- the shipped constants

  /** A decimal constant is read as the double it is nearest to. */
  lemma ReadConstant(x: real, n: int)
    requires 4503599627370496 <= n < 9007199254740992
    requires -0.5 < 4503599627370496.0 * x - n as real < 0.5
    requires 1.0 <= x < 2.0
    ensures RN(x) == n as real / 4503599627370496.0
  {
    hide Pow2, FloorIndex, Cexp, RN, Rep;
    var v := Mult(n, -52);
    UnitRoundoff();
    Pow2Succ(-53);
    Pow2Zero();
    Pow2Succ(0);
    CexpIs(x, -52);
    RNError(x);
    RNRep(x);
    GridOf(v, n, -52);
    if RN(x) < v { GridApart(RN(x), v, -52); }
    if v < RN(x) { GridApart(v, RN(x), -52); }
  }

  /** ROUNDCST of exp absorbs a relative error of 2^-64. */
  lemma ExpConstant()
    ensures Absorbs(RN(1.00097751710654947574476244840271277078237100388308), 1.0 / 18446744073709551616.0)
    ensures RN(1.00097751710654947574476244840271277078237100388308) < 1.001
  {
    hide RN;
    ReadConstant(1.00097751710654947574476244840271277078237100388308, 4508001973047301);
  }

  /** ROUNDCSTDIRECTRN and ROUNDCSTCOMMONRN of expm1 absorb 2^-62, the constant
      ROUNDCSTDIRECTRD of the directed tests. */
  lemma Expm1Constant()
    ensures Absorbs(RN(1.00392156862745109185069459291432461909707184007331), 1.0 / 4611686018427387904.0)
    ensures RN(1.00392156862745109185069459291432461909707184007331) < 1.004
  {
    hide RN;
    ReadConstant(1.00392156862745109185069459291432461909707184007331, 4521260802379793);
  }

  /** RNROUNDCST of asin and acos absorbs RDROUNDCST. */
  lemma AsinConstant()
    ensures Absorbs(RN(1.00277296776935912123020172797003775857085744686284),
                    0.000000000000000000153329341668337408143884997262066747209318683475599)
    ensures RN(1.00277296776935912123020172797003775857085744686284) < 1.0028
  {
    hide RN;
    ReadConstant(1.00277296776935912123020172797003775857085744686284, 4516087963983292);
  }
}
