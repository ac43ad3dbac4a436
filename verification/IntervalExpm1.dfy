/**
 The interval function j_expm1: which phase delivers which endpoint, and the
 joint rounding test TEST_AND_COPY_RDRU_EXPM1 on both endpoints.
 */
module IntervalExpm1 {
  import opened Dyadic
  import opened Rounding
  import opened BitPattern
  import opened DirectedTests
  import opened Expm1
  import opened LogTwo
  import ExpReduction

  datatype Interval = Interval(inf: Bits64, sup: Bits64)

  /** An endpoint as computed on one of the two argument intervals: the words of
      the quick phase and the rounding the accurate phase would deliver. */
  datatype Phase = Phase(h: Bits64, m: Bits64, accurate: Bits64)

  /** ROUNDCSTDIRECTRD and ROUNDCSTCOMMONRD, both 2^-62. */
  const TEST_BOUND: real := 1.0 / 4611686018427387904.0

  /** The modulus of the arithmetic on patterns. */
  const TWO64: int := 0x1_0000_0000_0000_0000

  const MINUS_ONE_BOUND: real := -37.4299477502370478987359092570841312408447265625
  const SIMPLE_OVERFLOW_BOUND: nat := 0x4086_2e42

  /**
   MINUSONEBOUND lies just below -54 ln 2: past it exp(x) is below 2^-54, half
   the distance from -1 to the next double above.
   */
  lemma MinusOneBoundIsLn2(ln2: real)
    requires IsLn2(ln2)
    ensures -54.0 * ln2 - 0.000000000000002 <= MINUS_ONE_BOUND < -54.0 * ln2
  {
    hide IsLn2;
    Coarse(ln2);
  }

  /** The filter on the values; the bounds on the high word are only shortcuts. */
  lemma FilteredIsRange(x: Bits64)
    ensures Filtered(x) <==>
      || !Finite(x) || Abs(Decode(x)) < Pow2(-54)
      || Decode(x) > ExpReduction.OVERFLOW_BOUND || Decode(x) < MINUS_ONE_BOUND
  {
    hide Pow2, DecodeMag, Decode;
    MagnitudeAbs(x);
    PowerPattern(969);
    var m, lo, top := Magnitude(x), 969 * FRAC, 0x4086_2e42_0000_0000;
    if m < lo { DecodeMono(m, lo); }
    if lo < m { DecodeMono(lo, m); }
    ShortOverflow();
    if m < top { DecodeMono(m, top); }
    assert AbsHi(x) < RETURN_X_BOUND <==> m < lo;
    assert AbsHi(x) < SIMPLE_OVERFLOW_BOUND <==> m < top;
    assert AbsHi(x) >= 0x7ff0_0000 <==> !Finite(x);
  }

  /** SIMPLEOVERFLOWBOUND stands for a number not above OVERFLOWBOUND. */
  lemma ShortOverflow()
    ensures DecodeMag(0x4086_2e42_0000_0000) <= ExpReduction.OVERFLOW_BOUND
  {
    hide Pow2;
    SmallPowers();
    Pow2Add(27, 16);
    Pow2Inverse(43);
  }

  /** When the comparison of TEST_AND_RETURN and its relatives holds. */
  lemma TestDecides(yh: Bits64, yl: Bits64)
    ensures Decides(yh, yl, TEST_BOUND) <==> Field(yh) < 2046 && Abs(Decode(yl)) > Pow2(Field(yh) - 1084)
  {
    hide Pow2, Decides, Decode, Field;
    SixtyTwo();
    DecidesMeans(yh, yl, TEST_BOUND, 62);
  }

  lemma SixtyTwo()
    ensures Pow2(-62) == TEST_BOUND
  {
    hide Pow2;
    UnitRoundoff();
    SmallPowers();
    Pow2Add(53, 8);
    Pow2Succ(61);
    Pow2Inverse(62);
  }

  /** The words stand for y and the accurate phase would return its rounding. */
  ghost predicate Delivers(p: Phase, y: real, rounded: real) {
    Approximates(p.h, p.m, TEST_BOUND, y) && Decode(p.accurate) == rounded
  }

  /** The endpoints handed to expm1_rd and expm1_ru: tiny, special or saturating. */
  predicate Filtered(x: Bits64) {
    || AbsHi(x) < RETURN_X_BOUND
    || (AbsHi(x) >= SIMPLE_OVERFLOW_BOUND && AbsHi(x) >= 0x7ff0_0000)
    || (AbsHi(x) >= SIMPLE_OVERFLOW_BOUND && Decode(x) > ExpReduction.OVERFLOW_BOUND)
    || Decode(x) < MINUS_ONE_BOUND
  }

  // -------------------------------------------------- the joint rounding test

  /** The pattern stored for the lower endpoint: yh, or its neighbour below. */
  lemma StoredDown(yh: Bits64, yl: Bits64, res: Bits64)
    requires Normal(yh) ==> Decides(yh, yl, TEST_BOUND)
    requires res == if Negative(yl) then (if Negative(yh) then yh + 1 else yh - 1) % TWO64 else yh
    ensures forall y {:trigger Approximates(yh, yl, TEST_BOUND, y)} ::
      Approximates(yh, yl, TEST_BOUND, y) ==> Decode(res) == RD(y)
  {
    hide Decode, RU, RD, RZ, Approximates, Decides, Normal, TEST_BOUND, Negative;
    DecidedForAll(yh, yl, TEST_BOUND);
  }

  /** The pattern stored for the upper endpoint: yh, or its neighbour above. */
  lemma StoredUp(yh: Bits64, yl: Bits64, res: Bits64)
    requires Normal(yh) ==> Decides(yh, yl, TEST_BOUND)
    requires res == if !Negative(yl) then (if Negative(yh) then yh - 1 else yh + 1) % TWO64 else yh
    ensures forall y {:trigger Approximates(yh, yl, TEST_BOUND, y)} ::
      Approximates(yh, yl, TEST_BOUND, y) ==> Decode(res) == RU(y)
  {
    hide Decode, RU, RD, RZ, Approximates, Decides, Normal, TEST_BOUND, Negative;
    DecidedForAll(yh, yl, TEST_BOUND);
  }

  /**
   Both results are always stored; the condition says which of them can be
   trusted: 1 the lower, 2 the upper, 3 both (an immediate return), 0 neither.
   */
  method TestBoth(yhRd: Bits64, ylRd: Bits64, yhRu: Bits64, ylRu: Bits64) returns (cond: int, resRd: Bits64, resRu: Bits64)
    requires Finite(yhRd) && Finite(ylRd) && Finite(yhRu) && Finite(ylRu)
    ensures 0 <= cond <= 3
    ensures Normal(yhRd) ==> (Decides(yhRd, ylRd, TEST_BOUND) <==> cond == 1 || cond == 3)
    ensures Normal(yhRu) ==> (Decides(yhRu, ylRu, TEST_BOUND) <==> cond == 2 || cond == 3)
    ensures forall y {:trigger Approximates(yhRd, ylRd, TEST_BOUND, y)} ::
      Approximates(yhRd, ylRd, TEST_BOUND, y) && (cond == 1 || cond == 3) ==> Decode(resRd) == RD(y)
    ensures forall y {:trigger Approximates(yhRu, ylRu, TEST_BOUND, y)} ::
      Approximates(yhRu, ylRu, TEST_BOUND, y) && (cond == 2 || cond == 3) ==> Decode(resRu) == RU(y)
  {
    hide Decode, RU, RD, RZ, Approximates, Decides, Normal, TEST_BOUND;
    var dbRd := new DbNumber(yhRd);
    var dbRu := new DbNumber(yhRu);
    var lowRd := new DbNumber(ylRd);
    var lowRu := new DbNumber(ylRu);
    var yhRdNeg, ylRdNeg := dbRd.Hi() >= 0x8000_0000, lowRd.Hi() >= 0x8000_0000;
    var yhRuNeg, ylRuNeg := dbRu.Hi() >= 0x8000_0000, lowRu.Hi() >= 0x8000_0000;
    var rdOk := Compare(yhRd, ylRd, TEST_BOUND);
    var ruOk := Compare(yhRu, ylRu, TEST_BOUND);
    if ylRdNeg {
      if yhRdNeg { dbRd.Increment(); } else { dbRd.Decrement(); }
    }
    resRd := dbRd.l;
    if !ylRuNeg {
      if yhRuNeg { dbRu.Decrement(); } else { dbRu.Increment(); }
    }
    resRu := dbRu.l;
    if rdOk { StoredDown(yhRd, ylRd, resRd); }
    if ruOk { StoredUp(yhRu, ylRu, resRu); }
    cond := 0;
    if rdOk && ruOk {
      cond := 3;
    } else if rdOk {
      cond := 1;
    } else if ruOk {
      cond := 2;
    }
  }

  // --------------------------------------------------- the interval function

  /** Delivered words are finite, so the tests may read them. */
  lemma DeliveredFinite(p: Phase, y: real, rounded: real)
    requires Delivers(p, y, rounded)
    ensures Finite(p.h) && Finite(p.m)
  {
  }

  /**
   j_expm1: whatever mixture of direct and common endpoints, and whatever the
   outcomes of the rounding tests, INF is the rounding down of the lower value
   and SUP the rounding up of the upper one. Only the phase of an endpoint's own
   argument interval is relied upon.
   */
  method JExpm1(xInf: Bits64, xSup: Bits64, scalar: Interval,
                directInf: Phase, commonInf: Phase, directSup: Phase, commonSup: Phase,
                ghost yInf: real, ghost ySup: real)
      returns (res: Interval)
    requires Filtered(xInf) || Filtered(xSup) ==> Decode(scalar.inf) == RD(yInf) && Decode(scalar.sup) == RU(ySup)
    requires !Filtered(xInf) && !Filtered(xSup) ==>
      && Delivers(if AbsHi(xInf) < DIRECT_BOUND then directInf else commonInf, yInf, RD(yInf))
      && Delivers(if AbsHi(xSup) < DIRECT_BOUND then directSup else commonSup, ySup, RU(ySup))
    ensures Decode(res.inf) == RD(yInf) && Decode(res.sup) == RU(ySup)
  {
    hide Pow2, RN, RD, RU, RZ, Decode, Finite, Approximates, Decides, AbsHi, Filtered, TEST_BOUND;
    if Filtered(xInf) || Filtered(xSup) {
      return scalar;
    }
    DeliveredFinite(if AbsHi(xInf) < DIRECT_BOUND then directInf else commonInf, yInf, RD(yInf));
    DeliveredFinite(if AbsHi(xSup) < DIRECT_BOUND then directSup else commonSup, ySup, RU(ySup));
    var infDone, supDone := false, false;
    var resInf, resSup, restempInf, restempSup: Bits64 := 0, 0, 0, 0;
    var roundable: int;
    if AbsHi(xInf) < DIRECT_BOUND && AbsHi(xSup) < DIRECT_BOUND {
      roundable, restempInf, restempSup := TestBoth(directInf.h, directInf.m, directSup.h, directSup.m);
      if roundable == 3 { return Interval(restempInf, restempSup); }
      if roundable == 2 || roundable == 0 { restempInf := directInf.accurate; }
      if roundable == 1 || roundable == 0 { restempSup := directSup.accurate; }
      return Interval(restempInf, restempSup);
    }
    if AbsHi(xInf) < DIRECT_BOUND {
      infDone := true;
      var r := TestAndReturnRD(directInf.h, directInf.m, TEST_BOUND);
      restempInf := if r.Some? then r.value else directInf.accurate;
    }
    if AbsHi(xSup) < DIRECT_BOUND {
      supDone := true;
      var r := TestAndReturnRU(directSup.h, directSup.m, TEST_BOUND);
      restempSup := if r.Some? then r.value else directSup.accurate;
    }
    if !infDone && !supDone {
      roundable, resInf, resSup := TestBoth(commonInf.h, commonInf.m, commonSup.h, commonSup.m);
      if roundable == 3 { return Interval(resInf, resSup); }
      if roundable == 2 || roundable == 0 { resInf := commonInf.accurate; }
      if roundable == 1 || roundable == 0 { resSup := commonSup.accurate; }
      return Interval(resInf, resSup);
    }
    if supDone {
      var r := TestAndReturnRD(commonInf.h, commonInf.m, TEST_BOUND);
      resInf := if r.Some? then r.value else commonInf.accurate;
    }
    if infDone {
      var r := TestAndReturnRU(commonSup.h, commonSup.m, TEST_BOUND);
      resSup := if r.Some? then r.value else commonSup.accurate;
    }
    if infDone { resInf := restempInf; }
    if supDone { resSup := restempSup; }
    return Interval(resInf, resSup);
  }

  /**
   Such an interval is the tightest one with double endpoints: it contains every
   value of an increasing function between the endpoints, and any interval of
   doubles that contains both end values contains it.
   */
  lemma Tightest(E: real -> real, a: real, b: real, res: Interval)
    requires Decode(res.inf) == RD(E(a)) && Decode(res.sup) == RU(E(b))
    requires forall s, t :: s <= t ==> E(s) <= E(t)
    ensures forall t {:trigger E(t)} :: a <= t <= b ==> Decode(res.inf) <= E(t) <= Decode(res.sup)
    ensures forall lo, hi {:trigger Rep(lo), Rep(hi)} ::
      Rep(lo) && Rep(hi) && lo <= E(a) && E(b) <= hi ==> lo <= Decode(res.inf) && Decode(res.sup) <= hi
  {
    hide Pow2, RD, RU, Rep, Decode;
    RDRep(E(a));
    RURep(E(b));
    forall lo, hi {:trigger Rep(lo), Rep(hi)} | Rep(lo) && Rep(hi) && lo <= E(a) && E(b) <= hi
      ensures lo <= Decode(res.inf) && Decode(res.sup) <= hi
    {
      RDGreatest(E(a), lo);
      RULeast(E(b), hi);
    }
  }
}
