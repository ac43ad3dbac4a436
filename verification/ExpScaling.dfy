/**
 The final multiplication by 2^M of exp, done by adding M to the exponent
 field, and the quick phases that end with it.
 */
module ExpScaling {
  import opened Dyadic
  import opened Rounding
  import opened Product
  import opened BitPattern
  import opened ZivTest
  import opened DirectedTests
  import opened ExpTail

  /** resdb.i[HI] += M << 20, in 32-bit arithmetic. */
  function ScaledBits(l: Bits64, M: int): Bits64 {
    (l / WORD + M * 0x10_0000) % WORD * WORD + l % WORD
  }

  /** The result of the scaling is a normal number. */
  predicate InRange(l: Bits64, M: int) {
    Normal(l) && 1 <= Field(l) + M <= 2046
  }

  lemma HighWordSum(l: Bits64, M: int)
    requires 0 <= l + M * FRAC < 0x1_0000_0000_0000_0000
    ensures ScaledBits(l, M) == l + M * FRAC
  {
    var h, r := l / WORD, l % WORD;
    var k := h + M * 0x10_0000;
    assert l + M * FRAC == k * WORD + r;
    assert 0 <= k < WORD;
  }

  lemma FieldShift(m: nat, M: int)
    requires FRAC <= m && 1 <= m / FRAC + M
    ensures m + M * FRAC >= FRAC
    ensures (m + M * FRAC) / FRAC == m / FRAC + M && (m + M * FRAC) % FRAC == m % FRAC
  {
    var q, r := m / FRAC, m % FRAC;
    assert m + M * FRAC == (q + M) * FRAC + r;
  }

  /** Adding M to the exponent field of a magnitude multiplies it by 2^M. */
  lemma MagnitudeScaled(m: nat, M: int)
    requires FRAC <= m && 1 <= m / FRAC + M
    ensures m + M * FRAC >= 0 && DecodeMag(m + M * FRAC) == Ldexp(DecodeMag(m), M)
  {
    hide Pow2;
    FieldShift(m, M);
    var n, e := Significand(m), LastPlace(m);
    Pow2Add(e, M);
    Regroup(n as real, Pow2(e), Pow2(M));
  }

  /**
   Adding M << 20 to the high word multiplies a normal double of either sign by
   exactly 2^M as long as the result is normal, M = 1024 included.
   */
  lemma ScalingExact(l: Bits64, M: int)
    requires InRange(l, M)
    ensures Decode(ScaledBits(l, M)) == Ldexp(Decode(l), M)
    ensures Finite(ScaledBits(l, M)) && Negative(ScaledBits(l, M)) == Negative(l)
  {
    hide Pow2, DecodeMag, Ldexp, ScaledBits;
    var m := Magnitude(l);
    FieldShift(m, M);
    assert m + M * FRAC < INFINITE;
    HighWordSum(l, M);
    MagnitudeScaled(m, M);
    LdexpNeg(DecodeMag(m), M);
  }

  // ------------------------------------------- rounding commutes with scaling

  /** x and its scaled value have equally many bits when both are normal. */
  lemma NormalScale(x: real, k: int)
    requires Abs(x) >= Pow2(EMIN + 52) && Abs(Ldexp(x, k)) >= Pow2(EMIN + 52)
    ensures Cexp(Ldexp(x, k)) == Cexp(x) + k
  {
    hide Pow2, Cexp, Ldexp, Abs;
    var z, c := Ldexp(x, k), Cexp(x);
    CexpGe(x, EMIN);
    if c == EMIN { assert Abs(x) >= Pow2(c + 52); }
    LdexpAbs(x, k);
    LdexpPow2(c + 52, k);
    LdexpPow2(c + 53, k);
    LdexpOrder(Abs(x), Pow2(c + 52), k);
    LdexpOrder(Abs(x), Pow2(c + 53), k);
    Pow2Less(EMIN + 52, c + k + 53);
    CexpIs(z, c + k);
  }

  /** All roundings commute with the scaling when the scaled value is normal. */
  lemma RoundingsCommute(y: real, M: int)
    requires y >= Pow2(EMIN + 52) && Ldexp(y, M) >= Pow2(EMIN + 52)
    ensures RN(Ldexp(y, M)) == Ldexp(RN(y), M)
    ensures RD(Ldexp(y, M)) == Ldexp(RD(y), M)
    ensures RU(Ldexp(y, M)) == Ldexp(RU(y), M)
  {
    hide Pow2, FloorIndex, Cexp, Ldexp, RN;
    NormalScale(y, M);
    RoundScaled(y, M);
    FloorScaled(y, M);
    CexpNeg(y);
    CexpNeg(Ldexp(y, M));
    LdexpNeg(y, M);
    FloorScaled(-y, M);
    LdexpNeg(RD(-y), M);
  }

  lemma FloorScaled(x: real, k: int)
    requires Cexp(Ldexp(x, k)) == Cexp(x) + k
    ensures RD(Ldexp(x, k)) == Ldexp(RD(x), k)
  {
    hide Pow2, Cexp;
    var c, z := Cexp(x), Ldexp(x, k);
    Pow2Add(k, -c - k);
    Regroup(x, Pow2(k), Pow2(-c - k));
    assert Scaled(z, c + k) == Scaled(x, c);
    var n := FloorIndex(x, c);
    Pow2Add(c, k);
    Regroup(n as real, Pow2(c), Pow2(k));
  }

  // ------------------------------------------------------- the quick phases

  const ROUNDCST: real := RN(1.00097751710654947574476244840271277078237100388308)
  const RDROUNDCST: real := 0.0000000000000000000542101086242752217003726400434970855712890625

  /** When the comparison of exp_ru and exp_rd holds. */
  lemma RdDecides(ph: Bits64, pm: Bits64)
    ensures Decides(ph, pm, RDROUNDCST) <==> Field(ph) < 2046 && Abs(Decode(pm)) > Pow2(Field(ph) - 1086)
  {
    hide Pow2, Decides, Decode, Field;
    SixtyFour();
    DecidesMeans(ph, pm, RDROUNDCST, 64);
  }

  lemma SixtyFour()
    ensures Pow2(-64) == RDROUNDCST
  {
    hide Pow2;
    SmallPowers();
    Pow2Add(16, 16);
    Pow2Add(32, 32);
    Pow2Inverse(64);
  }

  /** A positive pattern whose value is normal before and after the scaling. */
  lemma RangeFromValue(l: Bits64, M: int)
    requires Pow2(EMIN + 52) <= Decode(l) <= 2.0
    requires Pow2(EMIN + 52) <= Ldexp(Decode(l), M) < Pow2(1024)
    ensures InRange(l, M)
  {
    hide Pow2, DecodeMag, Ldexp, Cexp;
    var m := Magnitude(l);
    DecodeMagRep(m);
    SmallMagnitude(m);
    var e := LastPlace(m);
    LdexpPow2(e + 52, M);
    LdexpPow2(e + 53, M);
    LdexpOrder(DecodeMag(m), Pow2(e + 52), M);
    LdexpOrder(DecodeMag(m), Pow2(e + 53), M);
    Pow2Less(EMIN + 52, e + M + 53);
    Pow2Less(e + M + 52, 1024);
    Pow2Zero();
    Pow2Succ(0);
    Pow2Succ(1);
    Pow2Less(e + 52, 2);
  }

  lemma SmallMagnitude(m: nat)
    requires DecodeMag(m) >= Pow2(EMIN + 52)
    ensures m >= FRAC
  {
    hide Pow2;
    if m < FRAC {
      Powers();
      Pow2Add(52, EMIN);
      MulLt(m as real, Pow2(52), Pow2(EMIN));
    }
  }

  /** y is the value before the final scaling, which leads to a normal result. */
  ghost predicate Target(y: real, M: int) {
    0.5 <= y <= 2.0 && Ldexp(y, M) >= Pow2(EMIN + 52)
  }

  /** A rounding of y within [1/2, 2], scaled through the exponent field. */
  lemma ScaledRounding(l: Bits64, y: real, M: int, scaled: real)
    requires 0.5 <= Decode(l) <= 2.0 && scaled == Ldexp(Decode(l), M)
    requires Pow2(EMIN + 52) <= scaled < Pow2(1024)
    ensures Decode(ScaledBits(l, M)) == scaled
  {
    hide Pow2, Decode, ScaledBits, Ldexp;
    Pow2Zero();
    Pow2Succ(-1);
    Pow2Mono(EMIN + 52, -1);
    RangeFromValue(l, M);
    ScalingExact(l, M);
  }

  lemma RoundingsInside(y: real)
    requires 0.5 <= y <= 2.0
    ensures 0.5 <= RN(y) <= 2.0 && 0.5 <= RD(y) <= 2.0 && 0.5 <= RU(y) <= 2.0
  {
    hide Pow2, FloorIndex, Cexp, RN, RD, Rep, Mult;
    Pow2Zero();
    Pow2Succ(-1);
    Pow2Succ(0);
    RepPow2(-1);
    RepPow2(1);
    RNAbove(y, 0.5);
    RNBelow(y, 2.0);
    RDGreatest(y, 0.5);
    RULeast(y, 2.0);
    RDRep(y);
    RURep(y);
  }

  /** Every rounding of the scaled value stays above the least normal number. */
  lemma TargetRoundings(y: real, M: int)
    requires Target(y, M)
    ensures RN(Ldexp(y, M)) == Ldexp(RN(y), M) >= Pow2(EMIN + 52)
    ensures RD(Ldexp(y, M)) == Ldexp(RD(y), M) >= Pow2(EMIN + 52)
    ensures RU(Ldexp(y, M)) == Ldexp(RU(y), M) >= Pow2(EMIN + 52)
  {
    hide Pow2, FloorIndex, Cexp, RN, RD, Rep, Mult, Ldexp;
    var v := Ldexp(y, M);
    Pow2Zero();
    Pow2Succ(-1);
    Pow2Mono(EMIN + 52, -1);
    RoundingsCommute(y, M);
    RepPow2(EMIN + 52);
    RNAbove(v, Pow2(EMIN + 52));
    RDGreatest(v, Pow2(EMIN + 52));
    RURep(v);
  }

  /** The error bound of the quick phase of exp_rn. */
  ghost predicate QuickError(ph: Bits64, pm: real, y: real) {
    && Decode(ph) == RN(Decode(ph) + pm)
    && Abs(y - (Decode(ph) + pm)) <= Times(1.0 / 18446744073709551616.0, Abs(Decode(ph) + pm))
  }

  lemma QuickNearest(ph: Bits64, pm: real, M: int, y: real)
    requires Passes(Decode(ph), pm, ROUNDCST) && 0.5 <= Decode(ph)
    requires QuickError(ph, pm, y) && Target(y, M) && RN(Ldexp(y, M)) < Pow2(1024)
    ensures Decode(ScaledBits(ph, M)) == RN(Ldexp(y, M))
  {
    hide Pow2, RN, RD, Rep, Decode, ScaledBits, Ldexp, Passes, Absorbs, Times;
    ExpConstant();
    Pow2Zero();
    Pow2Succ(-1);
    Pow2Mono(EMIN + 106, -1);
    RNRep(Decode(ph) + pm);
    ZivSound(Decode(ph), pm, ROUNDCST, 1.0 / 18446744073709551616.0, y);
    TargetRoundings(y, M);
    RoundingsInside(y);
    ScaledRounding(ph, y, M, RN(Ldexp(y, M)));
  }

  /**
   The quick phase of exp_rn: a returned pattern is 2^M * y rounded to nearest,
   for every y the two words may stand for.
   */
  method QuickRN(ph: Bits64, pm: real, M: int) returns (r: Option<Bits64>)
    requires Finite(ph) && 0.5 <= Decode(ph)
    ensures r.Some? <==> Passes(Decode(ph), pm, ROUNDCST)
    ensures forall y {:trigger QuickError(ph, pm, y)} ::
      r.Some? && QuickError(ph, pm, y) && Target(y, M) && RN(Ldexp(y, M)) < Pow2(1024)
      ==> Decode(r.value) == RN(Ldexp(y, M))
  {
    hide Pow2, RN, Decode, FMul, Ldexp, QuickError, Target, ROUNDCST;
    var polyTblhdb := new DbNumber(ph);
    var yh := polyTblhdb.D();
    r := None;
    if yh == RN(yh + FMul(pm, ROUNDCST)) {
      forall y {:trigger QuickError(ph, pm, y)} | QuickError(ph, pm, y) && Target(y, M) && RN(Ldexp(y, M)) < Pow2(1024)
        ensures Decode(ScaledBits(ph, M)) == RN(Ldexp(y, M))
      {
        QuickNearest(ph, pm, M, y);
      }
      polyTblhdb.SetHi((polyTblhdb.Hi() + M * 0x10_0000) % WORD);
      r := Some(polyTblhdb.l);
    }
  }

  /** What the directed quick phases return, given the tested rounding of y. */
  lemma QuickDirected(res: Bits64, M: int, y: real)
    requires Target(y, M)
    ensures Decode(res) == RU(y) && RU(Ldexp(y, M)) < Pow2(1024) ==> Decode(ScaledBits(res, M)) == RU(Ldexp(y, M))
    ensures Decode(res) == RD(y) && RD(Ldexp(y, M)) < Pow2(1024) ==> Decode(ScaledBits(res, M)) == RD(Ldexp(y, M))
  {
    hide Pow2, RN, RD, RU, Rep, Decode, ScaledBits, Ldexp;
    TargetRoundings(y, M);
    RoundingsInside(y);
    if Decode(res) == RU(y) && RU(Ldexp(y, M)) < Pow2(1024) { ScaledRounding(res, y, M, RU(Ldexp(y, M))); }
    if Decode(res) == RD(y) && RD(Ldexp(y, M)) < Pow2(1024) { ScaledRounding(res, y, M, RD(Ldexp(y, M))); }
  }

  /** The quick phase of exp_ru: TEST_AND_COPY_RU, then the scaling. */
  method QuickRU(ph: Bits64, pm: Bits64, M: int) returns (r: Option<Bits64>)
    requires Finite(ph) && Finite(pm)
    ensures Normal(ph) ==> (r.Some? <==> Decides(ph, pm, RDROUNDCST))
    ensures forall y {:trigger Approximates(ph, pm, RDROUNDCST, y)} ::
      r.Some? && Approximates(ph, pm, RDROUNDCST, y) && Target(y, M) && RU(Ldexp(y, M)) < Pow2(1024)
      ==> Decode(r.value) == RU(Ldexp(y, M))
  {
    hide Pow2, RN, RU, RD, Decode, Finite, Ldexp, Approximates, Target, Decides, Normal;
    var res := TestAndReturnRU(ph, pm, RDROUNDCST);
    r := None;
    if res.Some? {
      var resdb := new DbNumber(res.value);
      resdb.SetHi((resdb.Hi() + M * 0x10_0000) % WORD);
      r := Some(resdb.l);
      forall y {:trigger Approximates(ph, pm, RDROUNDCST, y)} | Target(y, M)
        && Approximates(ph, pm, RDROUNDCST, y) && RU(Ldexp(y, M)) < Pow2(1024)
        ensures Decode(r.value) == RU(Ldexp(y, M))
      {
        QuickDirected(res.value, M, y);
      }
    }
  }

  /** The quick phase of exp_rd: TEST_AND_COPY_RD, then the scaling. */
  method QuickRD(ph: Bits64, pm: Bits64, M: int) returns (r: Option<Bits64>)
    requires Finite(ph) && Finite(pm)
    ensures Normal(ph) ==> (r.Some? <==> Decides(ph, pm, RDROUNDCST))
    ensures forall y {:trigger Approximates(ph, pm, RDROUNDCST, y)} ::
      r.Some? && Approximates(ph, pm, RDROUNDCST, y) && Target(y, M) && RD(Ldexp(y, M)) < Pow2(1024)
      ==> Decode(r.value) == RD(Ldexp(y, M))
  {
    hide Pow2, RN, RU, RD, Decode, Finite, Ldexp, Approximates, Target, Decides, Normal;
    var res := TestAndReturnRD(ph, pm, RDROUNDCST);
    r := None;
    if res.Some? {
      var resdb := new DbNumber(res.value);
      resdb.SetHi((resdb.Hi() + M * 0x10_0000) % WORD);
      r := Some(resdb.l);
      forall y {:trigger Approximates(ph, pm, RDROUNDCST, y)} | Target(y, M)
        && Approximates(ph, pm, RDROUNDCST, y) && RD(Ldexp(y, M)) < Pow2(1024)
        ensures Decode(r.value) == RD(Ldexp(y, M))
      {
        QuickDirected(res.value, M, y);
      }
    }
  }
}
