/**
 The directed rounding tests TEST_AND_RETURN_RU, _RD and _RZ, which work on
 the bit patterns of the high and low words.
 */
module DirectedTests {
  import opened Dyadic
  import opened Rounding
  import opened Product
  import opened BitPattern
  import opened Neighbours

  datatype Option<T> = None | Some(value: T)

  /** The exponent field of a pattern. */
  function Field(l: Bits64): nat {
    Magnitude(l) / FRAC
  }

  /** The unit u53 of the tests: the least power of two above |yh|. */
  function Unit(yh: Bits64): real {
    Pow2(EMIN - 1 + Field(yh) + 53)
  }

  predicate Normal(l: Bits64) {
    Finite(l) && Magnitude(l) >= FRAC
  }

  /** The words yh + yl approximate y with an error of at most eps units. */
  ghost predicate Approximates(yh: Bits64, yl: Bits64, eps: real, y: real) {
    && Normal(yh) && Finite(yl)
    && Decode(yh) == RN(Decode(yh) + Decode(yl))
    && Abs(y - (Decode(yh) + Decode(yl))) <= Times(eps, Unit(yh))
  }

  /** The mask and addition that build u53 give the unit. */
  lemma UnitPattern(yh: Bits64, u: Bits64)
    requires Normal(yh)
    requires u == (Magnitude(yh) / FRAC) * FRAC + FRAC
    ensures !Negative(u) && DecodeMag(Magnitude(u)) == Unit(yh)
    ensures Finite(u) <==> Field(yh) < 2046
  {
    hide Pow2;
    assert Magnitude(u) == u;
    assert u == (Field(yh) + 1) * FRAC;
    assert u % FRAC == 0;
    assert LastPlace(u) == EMIN + Field(yh);
    Powers();
    Pow2Add(52, EMIN + Field(yh));
  }

  /** yl is large enough for the sign of y - yh and its size to be known. */
  lemma Displaced(yh: Bits64, yl: Bits64, eps: real, y: real, m: real)
    requires Approximates(yh, yl, eps, y)
    requires m == Times(eps, Unit(yh)) && Abs(Decode(yl)) > RN(m)
    ensures var d := y - Decode(yh);
      if Negative(yl) then -2.0 * Abs(Decode(yl)) < d < 0.0 else 0.0 < d < 2.0 * Abs(Decode(yl))
    ensures Decode(yl) != 0.0 && (Negative(yl) <==> Decode(yl) < 0.0)
  {
    hide Pow2, RN, Rep, DecodeMag, Times, Unit, Field;
    DecodeMagRep(Magnitude(yl));
    RepNeg(DecodeMag(Magnitude(yl)));
    if Abs(Decode(yl)) <= m {
      RNAboveAbs(m, Abs(Decode(yl)));
    }
    AbsNonneg(y - (Decode(yh) + Decode(yl)));
  }

  lemma RNAboveAbs(m: real, a: real)
    requires Rep(a) && a <= m
    ensures a <= RN(m)
  {
    hide RN, Rep;
    RNAbove(m, a);
  }

  /** The pattern stepped towards (or away from) yl's side of yh. */
  function Stepped(yh: Bits64, up: bool): int {
    if Negative(yh) == up then yh - 1 else yh + 1
  }

  /**
   When the test passes, y lies strictly between yh and the neighbour of yh
   on the side of yl, so both directed roundings of y are known.
   */
  lemma PassedTest(yh: Bits64, yl: Bits64, eps: real, y: real, m: real)
    requires Approximates(yh, yl, eps, y)
    requires m == Times(eps, Unit(yh)) && Abs(Decode(yl)) > RN(m)
    ensures 0 <= Stepped(yh, !Negative(yl)) < 0x1_0000_0000_0000_0000
    ensures var g := Decode(Stepped(yh, !Negative(yl)));
      if Negative(yl) then RD(y) == g && RU(y) == Decode(yh)
      else RD(y) == Decode(yh) && RU(y) == g
  {
    hide Pow2, RN, RD, Rep, DecodeMag, Times, Unit, Field, NextUp;
    Displaced(yh, yl, eps, y, m);
    StepBits(yh);
    var f := Decode(yh);
    var s: Bits64 := Stepped(yh, !Negative(yl));
    var g := Decode(s);
    NextUpFacts(f, g);
    HalfGap(f, g, Decode(yl));
    if Negative(yl) {
      BetweenNeighbours(g, f, y);
    } else {
      BetweenNeighbours(f, g, y);
    }
  }

  lemma NextUpFacts(f: real, g: real)
    ensures NextUp(f, g) ==> f < g && Rep(g)
    ensures NextUp(g, f) ==> g < f && Rep(g)
  {
  }

  // -------------------------------------------------------------- the tests

  /** The comparison |yl| > eps * u53; it fails when u53 is infinite. */
  predicate Decides(yh: Bits64, yl: Bits64, eps: real) {
    Field(yh) < 2046 && DecodeMag(Magnitude(yl)) > FMul(eps, Unit(yh))
  }

  /**
   With the bound 2^-k the test passes if and only if the unit is finite and the
   low word exceeds 2^-k units, underflow of the product included.
   */
  lemma DecidesMeans(yh: Bits64, yl: Bits64, eps: real, k: int)
    requires eps == Pow2(-k)
    ensures Decides(yh, yl, eps) <==> Field(yh) < 2046 && Abs(Decode(yl)) > Pow2(Field(yh) - 1022 - k)
  {
    hide Pow2, RN, Rep, Cexp, DecodeMag, Field, Magnitude, FMul, Unit;
    var n := Field(yh) - 1022;
    assert Unit(yh) == Pow2(n) by { UnitIs(yh); }
    Pow2Add(-k, n);
    FMulIs(eps, Unit(yh), Pow2(n - k));
    MagnitudeAbs(yl);
    DecodeMagRep(Magnitude(yl));
    AbovePower(DecodeMag(Magnitude(yl)), n - k);
  }

  lemma UnitIs(yh: Bits64)
    ensures Unit(yh) == Pow2(Field(yh) - 1022)
  {
    hide Pow2;
  }

  /** Rounding a power of two does not change which doubles exceed it. */
  lemma AbovePower(x: real, j: int)
    requires Rep(x) && x >= 0.0
    ensures x > RN(Pow2(j)) <==> x > Pow2(j)
  {
    hide Pow2, RN, Rep, Cexp, FloorIndex, Mult;
    if j >= EMIN {
      RepPow2(j);
      RNExact(Pow2(j));
    } else {
      RepZero();
      RepPow2(EMIN);
      Pow2Mono(j, EMIN);
      RNNearest(Pow2(j), 0.0);
      RNRep(Pow2(j));
      RepGrid(x, EMIN);
      GridZero(EMIN);
      if x > 0.0 { GridApart(0.0, x, EMIN); }
      TinyPower(j);
    }
  }

  /** A power of two below 2^-1074 rounds to zero; 2^-1075 is a tie that goes to even. */
  lemma TinyPower(j: int)
    requires j < EMIN
    ensures RN(Pow2(j)) == 0.0
  {
    hide Pow2, Cexp, RN, RD, RU, Rep, FloorIndex;
    var half := Pow2(EMIN - 1);
    Pow2Succ(EMIN - 1);
    Pow2Mono(EMIN, EMIN + 53);
    CexpLe(half, EMIN);
    assert Mult(0, EMIN) == 0.0;
    FloorOfHalf(half, 0, EMIN);
    FloorIsDown(half, 0, EMIN);
    UpperNeighbour(half);
    MidpointParity(half);
    Pow2Mono(j, EMIN - 1);
    RNMono(Pow2(j), half);
    RepZero();
    RNAbove(Pow2(j), 0.0);
  }

  /** Every direction of a decided test, in terms of the stepped pattern. */
  lemma Decided(yh: Bits64, yl: Bits64, eps: real, y: real)
    requires Approximates(yh, yl, eps, y) && Decides(yh, yl, eps)
    ensures 0 <= Stepped(yh, !Negative(yl)) < 0x1_0000_0000_0000_0000
    ensures var g := Decode(Stepped(yh, !Negative(yl)));
      if Negative(yl) then RD(y) == g && RU(y) == Decode(yh)
      else RD(y) == Decode(yh) && RU(y) == g
    ensures y > 0.0 <==> !Negative(yh)
    ensures y != 0.0
  {
    hide Pow2, RN, RD, Rep, DecodeMag, Times, Unit, Field, FMul;
    var m := Times(eps, Unit(yh));
    MagnitudeAbs(yl);
    TimesFMul(eps, Unit(yh));
    PassedTest(yh, yl, eps, y, m);
    SignOf(yh, yl, y);
  }

  lemma TimesFMul(x: real, y: real)
    ensures FMul(x, y) == RN(Times(x, y))
  {
    hide RN;
    FMulIs(x, y, Times(x, y));
  }

  lemma MagnitudeAbs(l: Bits64)
    ensures Abs(Decode(l)) == DecodeMag(Magnitude(l))
  {
    hide DecodeMag, Pow2;
    DecodeMagRep(Magnitude(l));
  }

  /** A step from a normal pattern keeps the sign bit and does not reach zero. */
  lemma SteppedSign(yh: Bits64, s: Bits64)
    requires Normal(yh) && (s == yh - 1 || s == yh + 1)
    ensures Negative(s) == Negative(yh) && Magnitude(s) > 0
  {
  }

  /** y has the sign of yh: it lies between yh and a neighbour of the same sign. */
  lemma SignOf(yh: Bits64, yl: Bits64, y: real)
    requires Normal(yh) && 0 <= Stepped(yh, !Negative(yl)) < 0x1_0000_0000_0000_0000
    requires var g := Decode(Stepped(yh, !Negative(yl)));
      if Negative(yl) then RD(y) == g && RU(y) == Decode(yh)
      else RD(y) == Decode(yh) && RU(y) == g
    ensures y > 0.0 <==> !Negative(yh)
    ensures y != 0.0
  {
    hide Pow2, RD, RU, Rep, DecodeMag, Magnitude, Negative;
    RDRep(y);
    RURep(y);
    var s: Bits64 := Stepped(yh, !Negative(yl));
    SteppedSign(yh, s);
    DecodeMagRep(Magnitude(yh));
    DecodeMagRep(Magnitude(s));
  }

  lemma ApproximatesNormal(yh: Bits64, yl: Bits64, eps: real, y: real)
    requires Approximates(yh, yl, eps, y)
    ensures Normal(yh)
  {
  }

  /** The C macro builds u53 and compares; shared by the three tests. */
  method Compare(yh: Bits64, yl: Bits64, eps: real) returns (passed: bool)
    requires Finite(yh) && Finite(yl)
    ensures Normal(yh) ==> passed == Decides(yh, yl, eps)
  {
    hide Pow2, RN, DecodeMag, Unit, FMul;
    var yhdb := new DbNumber(yh);
    var yldb := new DbNumber(yl);
    yhdb.StripSign();
    yldb.StripSign();
    var u53 := new DbNumber(yhdb.l / FRAC * FRAC + FRAC);
    ghost var u := u53.l;
    if Normal(yh) {
      UnitPattern(yh, u);
    }
    passed := Finite(u53.l) && yldb.D() > FMul(eps, u53.D());
  }

  /** What every passed comparison means, for all true values at once. */
  lemma DecidedForAll(yh: Bits64, yl: Bits64, eps: real)
    requires Normal(yh) ==> Decides(yh, yl, eps)
    ensures forall y {:trigger Approximates(yh, yl, eps, y)} :: Approximates(yh, yl, eps, y) ==>
      && Normal(yh) && Correct(yh, yl, y)
  {
    hide *;
    forall y | Approximates(yh, yl, eps, y)
      ensures Normal(yh) && Correct(yh, yl, y)
    {
      ApproximatesNormal(yh, yl, eps, y);
      DecidedCorrect(yh, yl, eps, y);
    }
  }

  /** The three directed roundings of y, by the signs of the two words. */
  ghost predicate Correct(yh: Bits64, yl: Bits64, y: real) {
    && 0 <= Stepped(yh, !Negative(yl)) < 0x1_0000_0000_0000_0000
    && var f, g := Decode(yh), Decode(Stepped(yh, !Negative(yl)));
      && RU(y) == (if Negative(yl) then f else g)
      && RD(y) == (if Negative(yl) then g else f)
      && RZ(y) == (if Negative(yl) == Negative(yh) then f else g)
  }

  lemma DecidedCorrect(yh: Bits64, yl: Bits64, eps: real, y: real)
    requires Approximates(yh, yl, eps, y) && Decides(yh, yl, eps)
    ensures Correct(yh, yl, y)
  {
    hide Pow2, RN, RD, RU, Rep, Decode, Approximates, Decides;
    Decided(yh, yl, eps, y);
  }

  /** TEST_AND_RETURN_RU: a returned pattern is the rounding up of y. */
  method TestAndReturnRU(yh: Bits64, yl: Bits64, eps: real) returns (r: Option<Bits64>)
    requires Finite(yh) && Finite(yl)
    ensures Normal(yh) ==> (r.Some? <==> Decides(yh, yl, eps))
    ensures forall y {:trigger Approximates(yh, yl, eps, y)} ::
      Approximates(yh, yl, eps, y) && r.Some? ==> Decode(r.value) == RU(y)
  {
    hide Decode, RU, RD, RZ, Approximates, Decides, Normal;
    var yhdb := new DbNumber(yh);
    var yhNeg := yhdb.Hi() >= 0x8000_0000;
    var yldb := new DbNumber(yl);
    var ylNeg := yldb.Hi() >= 0x8000_0000;
    var passed := Compare(yh, yl, eps);
    r := None;
    if passed {
      DecidedForAll(yh, yl, eps);
      if !ylNeg {
        yhdb.l := yh;
        if yhNeg { yhdb.Decrement(); } else { yhdb.Increment(); }
        r := Some(yhdb.l);
      } else {
        r := Some(yh);
      }
    }
  }

  /** TEST_AND_RETURN_RD: a returned pattern is the rounding down of y. */
  method TestAndReturnRD(yh: Bits64, yl: Bits64, eps: real) returns (r: Option<Bits64>)
    requires Finite(yh) && Finite(yl)
    ensures Normal(yh) ==> (r.Some? <==> Decides(yh, yl, eps))
    ensures forall y {:trigger Approximates(yh, yl, eps, y)} ::
      Approximates(yh, yl, eps, y) && r.Some? ==> Decode(r.value) == RD(y)
  {
    hide Decode, RU, RD, RZ, Approximates, Decides, Normal;
    var yhdb := new DbNumber(yh);
    var yhNeg := yhdb.Hi() >= 0x8000_0000;
    var yldb := new DbNumber(yl);
    var ylNeg := yldb.Hi() >= 0x8000_0000;
    var passed := Compare(yh, yl, eps);
    r := None;
    if passed {
      DecidedForAll(yh, yl, eps);
      if ylNeg {
        yhdb.l := yh;
        if yhNeg { yhdb.Increment(); } else { yhdb.Decrement(); }
        r := Some(yhdb.l);
      } else {
        r := Some(yh);
      }
    }
  }

  /** TEST_AND_RETURN_RZ: a returned pattern is the rounding of y towards zero. */
  method TestAndReturnRZ(yh: Bits64, yl: Bits64, eps: real) returns (r: Option<Bits64>)
    requires Finite(yh) && Finite(yl)
    ensures Normal(yh) ==> (r.Some? <==> Decides(yh, yl, eps))
    ensures forall y {:trigger Approximates(yh, yl, eps, y)} ::
      Approximates(yh, yl, eps, y) && r.Some? ==> Decode(r.value) == RZ(y)
  {
    hide Decode, RU, RD, RZ, Approximates, Decides, Normal;
    var yhdb := new DbNumber(yh);
    var yhNeg := yhdb.Hi() >= 0x8000_0000;
    var yldb := new DbNumber(yl);
    var ylNeg := yldb.Hi() >= 0x8000_0000;
    var passed := Compare(yh, yl, eps);
    r := None;
    if passed {
      DecidedForAll(yh, yl, eps);
      if ylNeg != yhNeg {
        yhdb.l := yh;
        yhdb.Decrement();
        r := Some(yhdb.l);
      } else {
        r := Some(yh);
      }
    }
  }
}
