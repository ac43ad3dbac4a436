/**
 The final rounding of the accurate phases: a triple of doubles to one double,
 to nearest, up and down.
 */
module TripleRounding {
  import opened Dyadic
  import opened Rounding
  import opened ErrorFree
  import opened Product
  import opened DoubleDouble
  import opened BitPattern
  import opened Neighbours
  import opened Renormalization
  import opened ExpTail
  import opened AsinpiTail

  /** A renormalised triple whose high word is a normal double with half an ulp
      above the least subnormal. */
  ghost predicate Renormalised(xh: Bits64, m: real, l: real) {
    && Finite(xh) && Rep(m) && Rep(l) && Separated(Decode(xh), m) && m == RN(m + l)
    && Abs(Decode(xh)) >= Pow2(EMIN + 55)
  }

  /** A rounded product is positive when it exceeds half the least subnormal. */
  lemma ProductSign(x: real, y: real, z: real)
    requires z == x * y
    ensures FMul(x, y) > 0.0 <==> z > Pow2(EMIN - 1)
  {
    hide Pow2, RN, RU, Rep, Cexp, TieDown;
    var half := Pow2(EMIN - 1);
    FMulIs(x, y, z);
    LeastMidpoint();
    RepZero();
    RepPow2(EMIN);
    if z > half {
      RNAbove(z, 0.0);
      RNNearest(z, Pow2(EMIN));
    } else {
      RNMono(z, half);
    }
  }

  lemma SignRule(x: real, y: real, z: real)
    requires z == x * y
    ensures z > 0.0 <==> (x > 0.0 && y > 0.0) || (x < 0.0 && y < 0.0)
  {
    if x > 0.0 && y > 0.0 { MulLt(0.0, x, y); }
    if x < 0.0 && y < 0.0 { MulLt(0.0, -x, -y); }
    if x > 0.0 && y < 0.0 { MulLt(0.0, x, -y); }
    if x < 0.0 && y > 0.0 { MulLt(0.0, -x, y); }
  }

  /** Past the midpoint towards g, the upper of two neighbours. */
  lemma NearerUpper(f: real, g: real, v: real)
    requires NextUp(f, g) && f < v <= g && 2.0 * v > f + g
    ensures RN(v) == g
  {
    hide RN, Rep;
    RNRep(v);
    RNNearest(v, g);
    var r := RN(v);
    assert r > f ==> g <= r;
  }

  lemma NearerLower(f: real, g: real, v: real)
    requires NextUp(f, g) && f <= v < g && 2.0 * v < f + g
    ensures RN(v) == f
  {
    hide RN, Rep;
    RNRep(v);
    RNNearest(v, f);
    var r := RN(v);
    assert r > f ==> g <= r;
  }

  // --------------------------------------------------- both neighbours

  /** The two neighbours of x, each a power of two away: near towards zero, far
      away from it. */
  lemma Around(x: Bits64) returns (j: int, k: int)
    requires Finite(x) && Abs(Decode(x)) >= Pow2(EMIN + 54)
    ensures 0 < x && x + 1 < 0x1_0000_0000_0000_0000 && j > EMIN && k > EMIN
    ensures var h, near, far := Decode(x), Decode(x - 1), Decode(x + 1);
      if h > 0.0 then NextUp(near, h) && NextUp(h, far) && near == h - Pow2(j) && far == h + Pow2(k)
      else h < 0.0 && NextUp(far, h) && NextUp(h, near) && near == h + Pow2(j) && far == h - Pow2(k)
    ensures Cexp(Decode(x)) - 1 <= j && j <= k <= Cexp(Decode(x)) && Cexp(Decode(x)) >= EMIN + 2
  {
    hide Pow2, Cexp, DecodeMag, LastPlace, NextUp, Rep;
    var m := Magnitude(x);
    DecodeMagRep(m);
    CexpNeg(DecodeMag(m));
    CexpGe(Decode(x), EMIN + 2);
    if m == 0 { DecodeZero(); }
    StepBits(x);
    StepAway(x);
    StepBack(x, m - 1);
    PreviousPlace(m);
    j, k := LastPlace(m - 1), LastPlace(m);
  }

  // ------------------------------------------------- rounding to nearest

  /** Strictly inside the half gap, m + l is inside as well. */
  lemma SumInside(m: real, l: real, half: real)
    requires m == RN(m + l) && Rep(half)
    ensures m < half ==> m + l < half
    ensures m > half ==> m + l > half
  {
    hide RN, Rep;
    if m + l >= half { RNAbove(m + l, half); }
    if m + l <= half { RNBelow(m + l, half); }
  }

  lemma WithinHalf(lo: real, h: real, hi: real, m: real)
    requires NextUp(lo, h) && NextUp(h, hi) && Separated(h, m)
    ensures 7.0 * (lo - h) <= 8.0 * m <= 7.0 * (hi - h)
  {
    hide Rep;
    assert Rep(lo) && Rep(hi);
  }

  /** What RN(h + m + l) is, by the position of m. */
  lemma TripleNearest(lo: real, h: real, hi: real, m: real, l: real, v: real)
    requires NextUp(lo, h) && NextUp(h, hi) && v == h + m + l
    requires Rep(m) && Rep(l) && Separated(h, m) && m == RN(m + l)
    requires Rep((hi - h) / 2.0) && Rep((lo - h) / 2.0)
    ensures m != (hi - h) / 2.0 && m != (lo - h) / 2.0 ==> RN(h + m) == RN(v)
    ensures m == (hi - h) / 2.0 ==> (l > 0.0 ==> RN(v) == hi) && (l < 0.0 ==> RN(v) == h)
    ensures m == (lo - h) / 2.0 ==> (l < 0.0 ==> RN(v) == lo) && (l > 0.0 ==> RN(v) == h)
  {
    hide Pow2, FloorIndex, Mult, Cexp, RN, Rep, Separated;
    WithinHalf(lo, h, hi, m);
    NormalisedIsDD(Pair(m, l));
    var up, down := (hi - h) / 2.0, (lo - h) / 2.0;
    GapReps(lo, h);
    GapReps(h, hi);
    SumInside(m, l, up);
    SumInside(m, l, down);
    if m > up {
      NearerUpper(h, hi, h + m);
      NearerUpper(h, hi, v);
    } else if m < down {
      NearerLower(lo, h, h + m);
      NearerLower(lo, h, v);
    } else if m != up && m != down {
      NearestNeighbour(lo, h, hi, h + m);
      NearestNeighbour(lo, h, hi, v);
    } else if m == up {
      if l > 0.0 { NearerUpper(h, hi, v); }
      if l < 0.0 { NearestNeighbour(lo, h, hi, v); }
    } else {
      if l < 0.0 { NearerLower(lo, h, v); }
      if l > 0.0 { NearestNeighbour(lo, h, hi, v); }
    }
  }

  /** Halving a gap of 2^k with k > EMIN. */
  lemma HalfOfGap(d: real, k: int)
    requires k > EMIN && (d == Pow2(k) || d == -Pow2(k))
    ensures RN(d) == d && FMul(d, 0.5) == d / 2.0 && FMul(d, -0.5) == -d / 2.0
    ensures Rep(d / 2.0) && Rep(-d / 2.0)
  {
    hide Pow2, FloorIndex, Mult, Cexp, RN, Rep;
    Pow2Succ(k - 1);
    RepPow2(k);
    RepPow2(k - 1);
    RepNeg(Pow2(k));
    RepNeg(Pow2(k - 1));
    RNExact(d);
    RNExact(d / 2.0);
    RNExact(-d / 2.0);
    FMulIs(d, 0.5, d / 2.0);
    FMulIs(d, -0.5, -d / 2.0);
  }

  /** m lies exactly half way between xh and one of its neighbours. */
  ghost predicate AtMidpoint(xh: Bits64, m: real) {
    && 0 < xh && xh + 1 < 0x1_0000_0000_0000_0000
    && (2.0 * m == Decode(xh - 1) - Decode(xh) || 2.0 * m == Decode(xh + 1) - Decode(xh))
  }

  /**
   The triples on which RoundToNearest3 goes wrong: at a midpoint, with a
   vanishing low word and an odd high word, or with a low word that points past
   the midpoint but whose product with m underflows to zero.
   */
  ghost predicate Misrounded(xh: Bits64, m: real, l: real) {
    AtMidpoint(xh, m) && if l == 0.0 then xh % 2 != 0 else SameSign(m, l) && Times(m, l) <= Pow2(EMIN - 1)
  }

  /** The patterns next to xh, as magnitudes of its sign. */
  lemma PatternNeighbours(xh: Bits64)
    requires Finite(xh) && Magnitude(xh) > 0
    ensures 0 < xh && xh + 1 < 0x1_0000_0000_0000_0000 && xh % 2 == Magnitude(xh) % 2
    ensures var n := Magnitude(xh);
      && Decode(xh + 1) == (if Negative(xh) then -DecodeMag(n + 1) else DecodeMag(n + 1))
      && Decode(xh - 1) == (if Negative(xh) then -DecodeMag(n - 1) else DecodeMag(n - 1))
  {
    hide DecodeMag;
  }

  /** RN half way between the magnitudes k and k + 1, of either sign. */
  lemma SignedMidpoint(k: nat, neg: bool, z: real)
    requires 2.0 * z == if neg then -(DecodeMag(k) + DecodeMag(k + 1)) else DecodeMag(k) + DecodeMag(k + 1)
    ensures var r := DecodeMag(if k % 2 == 0 then k else k + 1); RN(z) == if neg then -r else r
    ensures DecodeMag(k) < DecodeMag(k + 1)
  {
    hide RN, DecodeMag;
    var y := (DecodeMag(k) + DecodeMag(k + 1)) / 2.0;
    PatternMidpoint(k);
    DecodeMono(k, k + 1);
    RNNeg(y);
    assert z == if neg then -y else y;
  }

  /** RN at a midpoint is xh exactly when the pattern is even. */
  lemma MidpointPattern(xh: Bits64, m: real)
    requires Finite(xh) && AtMidpoint(xh, m) && Abs(Decode(xh)) >= Pow2(EMIN + 54)
    ensures RN(Decode(xh) + m) == Decode(xh) <==> xh % 2 == 0
  {
    hide Pow2, RN, DecodeMag, Magnitude, Negative, Finite;
    var n := Magnitude(xh);
    if n == 0 { DecodeZero(); }
    PatternNeighbours(xh);
    if 2.0 * m == Decode(xh - 1) - Decode(xh) {
      SignedMidpoint(n - 1, Negative(xh), Decode(xh) + m);
    } else {
      SignedMidpoint(n, Negative(xh), Decode(xh) + m);
    }
  }

  /** The sign of the low word against that of the high one. */
  lemma SecondProduct(h: real, m: real, l: real, hl: real, ml: real)
    requires hl == h * l && ml == m * l && Abs(m) <= Abs(h) && ml > Pow2(EMIN - 1)
    ensures hl > Pow2(EMIN - 1) <==> SameSign(h, l)
    ensures SameSign(m, l)
  {
    hide Pow2, Abs;
    SignRule(m, l, ml);
    SignRule(h, l, hl);
    AbsProduct(hl, h, l);
    AbsProduct(ml, m, l);
    AbsNonneg(l);
    MulLeAs(Abs(ml), Abs(hl), Abs(m), Abs(h), Abs(l));
    AbsNonneg(hl);
    AbsOfPositive(ml);
    AbsOfPositive(hl);
  }

  lemma AbsOfPositive(x: real)
    ensures x >= 0.0 ==> Abs(x) == x
  {
  }

  /** The four outcomes of the macro, against the rounding of the triple. */
  lemma Outcome(xh: Bits64, m: real, l: real, lo: real, h: real, hi: real, v: real)
    requires Renormalised(xh, m, l) && h == Decode(xh) && v == h + m + l
    requires NextUp(lo, h) && NextUp(h, hi) && Rep((hi - h) / 2.0) && Rep((lo - h) / 2.0)
    requires AtMidpoint(xh, m) <==> m == (hi - h) / 2.0 || m == (lo - h) / 2.0
    ensures !AtMidpoint(xh, m) ==> RN(h + m) == RN(v)
    ensures AtMidpoint(xh, m) && l != 0.0 && !SameSign(m, l) ==> RN(v) == h
    ensures AtMidpoint(xh, m) && SameSign(m, l) ==> RN(v) == if l > 0.0 then hi else lo
    ensures AtMidpoint(xh, m) && l == 0.0 ==> (RN(v) == h <==> xh % 2 == 0)
    ensures lo < h < hi
  {
    hide Pow2, FloorIndex, Mult, Cexp, RN, Rep, Separated, Abs, Decode, Finite, AtMidpoint;
    TripleNearest(lo, h, hi, m, l, v);
    GapReps(lo, h);
    Pow2Mono(EMIN + 54, EMIN + 55);
    if AtMidpoint(xh, m) && l == 0.0 { MidpointPattern(xh, m); }
  }

  /**
   RoundToNearest3: the rounding to nearest of the whole triple, for both signs
   and powers of two included, if and only if the triple is not one of those
   described above; on those it returns xh.
   */
  method RoundToNearest3(xh: Bits64, xm: real, xl: real) returns (res: real)
    requires Renormalised(xh, xm, xl)
    ensures res == RN(Decode(xh) + xm + xl) <==> !Misrounded(xh, xm, xl)
    ensures Misrounded(xh, xm, xl) ==> res == Decode(xh)
  {
    hide Pow2, FloorIndex, Mult, Cexp, RN, Rep, FMul, Decode, NextUp, Separated, Abs, Finite, Times;
    Pow2Mono(EMIN + 54, EMIN + 55);
    ghost var j, k := Around(xh);
    var xp := new DbNumber(xh);
    var xn := new DbNumber(xh);
    var h := xp.D();
    xn.Decrement();
    var t1 := xn.D();
    xp.Increment();
    var t4 := xp.D();
    HalfOfGap(h - t1, j);
    HalfOfGap(t4 - h, k);
    var t3 := FMul(RN(h - t1), -0.5);
    var t6 := FMul(RN(t4 - h), 0.5);
    assert t3 == (t1 - h) / 2.0 && t6 == (t4 - h) / 2.0;
    ghost var v := h + xm + xl;
    if h > 0.0 { Outcome(xh, xm, xl, t1, h, t4, v); } else { Outcome(xh, xm, xl, t4, h, t1, v); }
    if xm != t3 && xm != t6 {
      res := RN(h + xm);
    } else {
      ProductsDecide(xh, xm, xl, h);
      if FMul(xm, xl) > 0.0 {
        if FMul(h, xl) > 0.0 {
          res := t4;
        } else {
          res := t1;
        }
      } else {
        res := h;
      }
    }
  }

  /** What the two products say about the signs. */
  lemma ProductsDecide(xh: Bits64, m: real, l: real, h: real)
    requires Renormalised(xh, m, l) && h == Decode(xh)
    ensures FMul(m, l) > 0.0 <==> Times(m, l) > Pow2(EMIN - 1)
    ensures FMul(m, l) > 0.0 ==> SameSign(m, l) && (FMul(h, l) > 0.0 <==> SameSign(h, l))
    ensures h > 0.0 || h < 0.0
  {
    hide Pow2, FloorIndex, Mult, Cexp, RN, Rep, FMul, Separated, Decode, Finite;
    ProductSign(m, l, m * l);
    ProductSign(h, l, h * l);
    DecodeRep(xh);
    LowWords(h, m, l);
    Pow2Mono(EMIN + 55, EMIN + 55);
    CexpGe(h, EMIN + 3);
    Pow2Mono(Cexp(h), Cexp(h) + 52);
    if m * l > Pow2(EMIN - 1) { SecondProduct(h, m, l, h * l, m * l); }
  }

  /** What Renormalize3 delivers suits all three macros. */
  lemma RenormalizedSuits(ah: real, am: real, al: real, xh: Bits64)
    requires Overlapping(ah, am, al) && Finite(xh) && Decode(xh) == Renormalize3(ah, am, al).h
    requires Abs(Decode(xh)) >= Pow2(EMIN + 55)
    ensures var w := Renormalize3(ah, am, al);
      Renormalised(xh, w.m, w.l) && Decode(xh) + w.m + w.l == ah + am + al
  {
    hide Pow2, RN, Rep, Decode, Finite, Separated, Overlapping, Renormalize3;
    Renormalize3Exact(ah, am, al);
  }

  /** The least subnormal vanishes beside 2^-53, in sums and in products. */
  lemma UnderflowPowers()
    ensures var m, l := Pow2(-53), Pow2(EMIN);
      RN(m + l) == m && Rep(m) && Rep(l) && Times(m, l) <= Pow2(EMIN - 1)
  {
    hide Pow2, FloorIndex, Mult, Cexp, RN, Rep;
    var m, l := Pow2(-53), Pow2(EMIN);
    RepPow2(-53);
    RepPow2(EMIN);
    Pow2Mono(EMIN, -107);
    Pow2Succ(-107);
    Pow2Succ(-106);
    Pow2Mono(-105, -53);
    Pow2Succ(-53);
    CexpIs(m + l, -105);
    RNRep(m + l);
    RNAbove(m + l, m);
    RNNearest(m + l, m);
    GridPow2(-53, -105);
    if RN(m + l) > m { GridApart(m, RN(m + l), -105); }
    Pow2Add(-53, EMIN);
    Pow2Mono(EMIN - 53, EMIN - 1);
  }

  lemma OnePattern()
    ensures var xh: Bits64 := 1023 * FRAC;
      && Magnitude(xh) == xh && Magnitude(xh + 1) == xh + 1 && DecodeMag(xh) == 1.0 && LastPlace(xh) == -52
  {
    hide Pow2;
    Powers();
    Pow2Inverse(52);
  }

  /**
   The second kind of exception is within reach of the triples: for 1 and the low
   words 2^-53 and 2^-1074 the product of the low words underflows, and the macro
   returns 1 although the sum lies beyond the midpoint.
   */
  lemma UnderflowReached()
    ensures var xh: Bits64 := 1023 * FRAC;
      && Decode(xh) == 1.0 && Renormalised(xh, Pow2(-53), Pow2(EMIN)) && Misrounded(xh, Pow2(-53), Pow2(EMIN))
  {
    hide Pow2, RN, Rep, FloorIndex, Cexp, Mult, Times;
    var xh: Bits64 := 1023 * FRAC;
    UnderflowPowers();
    OnePattern();
    DecodeSucc(xh);
    Pow2Succ(-53);
    Pow2Zero();
    Pow2Mono(EMIN + 55, 0);
    Pow2Succ(0);
    Pow2Mono(-52, 0);
    CexpIs(1.0, -52);
    RepPow2(0);
    RepGrid(1.0, -52);
    forall g {:trigger Rep(g)} | Rep(g) && g > 1.0
      ensures 8.0 * Abs(Pow2(-53)) <= 7.0 * Abs(g - 1.0)
    {
      CexpGe(g, -52);
      RepGrid(g, -52);
      GridApart(1.0, g, -52);
    }
  }

  // ------------------------------------------------- the directed roundings

  /** t1 = RN(h + m) is half as large as h at least, and a finite double. */
  lemma FirstSum(h: real, m: real, l: real)
    requires Rep(h) && Rep(m) && Rep(l) && Separated(h, m) && m == RN(m + l)
    requires Pow2(EMIN + 55) <= Abs(h) <= Pow2(1022)
    ensures var t := Add12(h, m);
      && t.h + t.l == h + m && t.h == RN(t.h + t.l) && Rep(t.h) && Rep(t.l)
      && Pow2(EMIN + 54) <= Abs(t.h) < Pow2(1024) && Cexp(t.h) >= Cexp(h) - 1
      && Abs(l) <= Eps(Pow2(Cexp(h))) && Rep(Abs(t.h))
  {
    hide Pow2, FloorIndex, Mult, Grid, Cexp, RN, Rep, Add12, Separated;
    var c := Cexp(h);
    LowWords(h, m, l);
    CexpGe(h, EMIN + 3);
    Pow2Mono(c, c + 51);
    Pow2Succ(c + 51);
    Add12Exact(h, m);
    Add12Normalised(h, m);
    Pow2Succ(EMIN + 54);
    Pow2Succ(1022);
    Pow2Succ(1023);
    RepPow2(EMIN + 54);
    RepPow2(1023);
    RNMagnitude(h + m, Pow2(EMIN + 54));
    RNMagnitude(h + m, Pow2(1023));
    RepPow2(c + 51);
    RNMagnitude(h + m, Pow2(c + 51));
    CexpGe(RN(h + m), c - 1);
    RepNeg(RN(h + m));
  }

  /** The error t2 + l of t1 stays below the gap on either side. */
  lemma ErrorInGap(lo: real, f: real, hi: real, t2: real, l: real, a: int, b: int, c: int)
    requires NextUp(lo, f) && NextUp(f, hi) && lo == f - Pow2(a) && hi == f + Pow2(b)
    requires f == RN(f + t2) && Abs(l) <= Eps(Pow2(c)) && a >= c - 2 && b >= c - 2
    ensures lo < f + (t2 + l) < hi
  {
    hide Pow2, Cexp, RN, Rep;
    GapReps(lo, f);
    GapReps(f, hi);
    Pow2Mono(c - 2, a);
    Pow2Mono(c - 2, b);
    Pow2Succ(c - 2);
    Pow2Succ(c - 1);
    if t2 > 0.0 { HalfGap(f, hi, t2); }
    if t2 < 0.0 { HalfGap(f, lo, t2); }
  }

  /** The directed roundings of a value inside the gaps around f. */
  lemma DirectedInGap(lo: real, f: real, hi: real, v: real)
    requires NextUp(lo, f) && NextUp(f, hi) && lo < v < hi
    ensures v > f ==> RU(v) == hi && RD(v) == f
    ensures v < f ==> RU(v) == f && RD(v) == lo
    ensures v == f ==> RU(v) == f && RD(v) == f
  {
    hide RD, Rep;
    GapReps(f, hi);
    if v > f {
      BetweenNeighbours(f, hi, v);
    } else if v < f {
      BetweenNeighbours(lo, f, v);
    } else {
      RDGreatest(v, f);
      RULeast(v, f);
    }
  }

  /** Where the triple lies against t1 and its neighbours, and the sign of t3. */
  lemma Located(t: Bits64, h: real, m: real, l: real, t2: real)
    requires Rep(h) && Rep(m) && Rep(l) && Separated(h, m) && m == RN(m + l)
    requires Pow2(EMIN + 55) <= Abs(h) <= Pow2(1022)
    requires Finite(t) && Decode(t) == Add12(h, m).h && t2 == Add12(h, m).l
    ensures 0 < t && t + 1 < 0x1_0000_0000_0000_0000 && Decode(t) != 0.0
    ensures var v, f, t3 := h + m + l, Decode(t), RN(t2 + l);
      var lo, hi := if f > 0.0 then Decode(t - 1) else Decode(t + 1), if f > 0.0 then Decode(t + 1) else Decode(t - 1);
      && (t3 > 0.0 ==> RU(v) == hi) && (t3 <= 0.0 ==> RU(v) == f)
      && (t3 < 0.0 ==> RD(v) == lo) && (t3 >= 0.0 ==> RD(v) == f)
  {
    hide Pow2, FloorIndex, Mult, Cexp, RN, RU, RD, Rep, Add12, Separated, Decode, NextUp, Finite;
    FirstSum(h, m, l);
    var f := Decode(t);
    var j, k := Around(t);
    SumSign(t2, l);
    var lo, hi := if f > 0.0 then Decode(t - 1) else Decode(t + 1), if f > 0.0 then Decode(t + 1) else Decode(t - 1);
    ErrorInGap(lo, f, hi, t2, l, if f > 0.0 then j else k, if f > 0.0 then k else j, Cexp(h));
    DirectedInGap(lo, f, hi, h + m + l);
  }

  /** RoundUpwards3: the rounding up of the triple, exact sums included. */
  method RoundUpwards3(xh: Bits64, xm: real, xl: real) returns (res: real)
    requires Renormalised(xh, xm, xl) && Abs(Decode(xh)) <= Pow2(1022)
    ensures res == RU(Decode(xh) + xm + xl)
  {
    hide Pow2, FloorIndex, Mult, Cexp, RN, RU, RD, Rep, Add12, Separated, Decode, NextUp, Finite, Encode;
    var h := Decode(xh);
    DecodeRep(xh);
    FirstSum(h, xm, xl);
    var t := Add12(h, xm);
    var t3 := RN(t.l + xl);
    EncodeBits(t.h < 0.0, Abs(t.h));
    var tdb := new DbNumber(Encode(t.h < 0.0, Abs(t.h)));
    Located(tdb.l, h, xm, xl, t.l);
    if t3 > 0.0 {
      if t.h > 0.0 { tdb.Increment(); } else { tdb.Decrement(); }
      res := tdb.D();
    } else {
      res := t.h;
    }
  }

  /** RoundDownwards3: the rounding down of the triple, exact sums included. */
  method RoundDownwards3(xh: Bits64, xm: real, xl: real) returns (res: real)
    requires Renormalised(xh, xm, xl) && Abs(Decode(xh)) <= Pow2(1022)
    ensures res == RD(Decode(xh) + xm + xl)
  {
    hide Pow2, FloorIndex, Mult, Cexp, RN, RU, RD, Rep, Add12, Separated, Decode, NextUp, Finite, Encode;
    var h := Decode(xh);
    DecodeRep(xh);
    FirstSum(h, xm, xl);
    var t := Add12(h, xm);
    var t3 := RN(t.l + xl);
    EncodeBits(t.h < 0.0, Abs(t.h));
    var tdb := new DbNumber(Encode(t.h < 0.0, Abs(t.h)));
    Located(tdb.l, h, xm, xl, t.l);
    if t3 < 0.0 {
      if t.h > 0.0 { tdb.Decrement(); } else { tdb.Increment(); }
      res := tdb.D();
    } else {
      res := t.h;
    }
  }
}
