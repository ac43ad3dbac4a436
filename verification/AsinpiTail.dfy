/**
 asinpi on tiny arguments: the rounding of (h + m + l) * 2^-1000 through an
 intermediate rounding of h * 2^-1000 that may be subnormal, in all four
 rounding directions and for both signs.
 */
module AsinpiTail {
  import opened Dyadic
  import opened Rounding
  import opened ErrorFree
  import opened Product
  import opened DoubleDouble
  import opened BitPattern
  import opened Neighbours
  import opened Renormalization
  import opened DirectedTests
  import opened ExpTail

  /** The triple left by Renormalize3 for x / pi scaled by 2^1000. */
  ghost predicate Scaled1000(x: real, h: real, m: real, l: real) {
    && Rep(h) && Rep(m) && Rep(l) && Separated(h, m) && m == RN(m + l)
    && Pow2(-76) <= Abs(h) < Pow2(940)
    && x != 0.0 && (x > 0.0 <==> h > 0.0)
  }

  /** What Renormalize3 delivers for x / pi scaled by 2^1000 is such a triple. */
  lemma RenormalizedScaled(x: real, ah: real, am: real, al: real)
    requires Overlapping(ah, am, al)
    requires var h := Renormalize3(ah, am, al).h;
      Pow2(-76) <= Abs(h) < Pow2(940) && x != 0.0 && (x > 0.0 <==> h > 0.0)
    ensures var w := Renormalize3(ah, am, al);
      Scaled1000(x, w.h, w.m, w.l) && w.h + w.m + w.l == ah + am + al
  {
    hide Pow2, RN, Rep, Separated, Overlapping, Renormalize3;
    Renormalize3Exact(ah, am, al);
  }

  /** The error of the intermediate rounding a, in scaled terms. */
  function Error(h: real, a: Bits64): real {
    h - Ldexp(Decode(a), 1000)
  }

  // --------------------------------------------- the intermediate rounding

  /** Either h * 2^-1000 is a double, or it is rounded on the subnormal grid. */
  lemma Intermediate(h: real, f: real)
    requires Rep(h) && Pow2(-76) <= Abs(h) && f == RN(Ldexp(h, -1000))
    ensures f != Ldexp(h, -1000) ==>
      && -128 <= Cexp(h) <= -75 && Abs(f) <= Pow2(EMIN + 52)
      && Abs(Ldexp(h, -1000) - f) <= Pow2(EMIN - 1)
  {
    hide Pow2, FloorIndex, Mult, Cexp, RN, Rep, Ldexp, Abs;
    var x, c := Ldexp(h, -1000), Cexp(h);
    CexpGe(h, -128);
    RepGrid(h, c);
    if c >= -74 {
      ExactScale(h, c, -1000);
      RNExact(x);
    } else {
      LdexpAbs(h, -1000);
      LdexpPow2(c + 53, -1000);
      LdexpOrder(Abs(h), Pow2(c + 53), -1000);
      Pow2Mono(c + 53 - 1000, EMIN + 52);
      Pow2Mono(EMIN + 52, EMIN + 53);
      CexpLe(x, EMIN);
      RNError(x);
      RepPow2(EMIN + 52);
      RNMagnitude(x, Pow2(EMIN + 52));
      Triangle(RN(x) - x, x, RN(x));
      Triangle(x - RN(x), RN(x) - x, 0.0);
      AbsSwap(x, RN(x));
    }
  }

  /** Scaling a double up is exact. */
  lemma ScaledUp(x: real, k: nat)
    requires Rep(x)
    ensures Rep(Ldexp(x, k)) && FMul(x, Pow2(k)) == Ldexp(x, k)
  {
    hide Pow2, FloorIndex, Mult, Cexp, RN, Ldexp, FMul;
    ExactScale(x, Cexp(x), k);
  }

  /** The scaled error: zero, or a multiple of the unit of h below half a step. */
  lemma ScaledError1000(h: real, a: Bits64)
    requires Rep(h) && Pow2(-76) <= Abs(h) && Decode(a) == RN(Ldexp(h, -1000))
    ensures var d, c := Error(h, a), Cexp(h);
      d != 0.0 ==> Grid(d, c) && Abs(d) <= Pow2(-75) && -128 <= c <= -75 && Abs(Decode(a)) <= Pow2(EMIN + 52)
    ensures Rep(Error(h, a))
  {
    hide Pow2, FloorIndex, Mult, Cexp, RN, Rep, Ldexp, Abs, Decode;
    var f, c := Decode(a), Cexp(h);
    var x := Ldexp(h, -1000);
    Intermediate(h, f);
    RNRep(x);
    LdexpLdexp(h, -1000, 1000);
    LdexpZero(h);
    if f == x {
      RepZero();
    } else {
      var d := Error(h, a);
      RepGrid(f, EMIN);
      GridShiftLdexp(f, EMIN, 1000);
      GridCoarser(Ldexp(f, 1000), -74, c);
      RepGrid(h, c);
      GridSum(h, Ldexp(f, 1000), c);
      LdexpSum(x - f, f, x, 1000);
      LdexpAbs(x - f, 1000);
      LdexpPow2(EMIN - 1, 1000);
      LdexpOrder(Pow2(EMIN - 1), Abs(x - f), 1000);
      Pow2Mono(-75, c + 53);
      RepIntro(d, c);
    }
  }

  // -------------------------------------------------- the accumulated error

  /**
   The two words of the accumulated error d + m + l: exact when d is zero, and
   otherwise with an error far below the unit of h.
   */
  ghost predicate Accumulated(d: real, m: real, l: real, delta: Pair) {
    && Rep(delta.h) && Rep(delta.l) && delta.h == RN(delta.h + delta.l)
    && (d == 0.0 ==> delta.h + delta.l == m + l)
    && (d != 0.0 ==> Abs(delta.h + delta.l - (d + m + l)) <= Eps(Abs(m) + Abs(l)))
  }

  /** Add12Cond, an addition and Add12: the accumulation of the error. */
  function Accumulate(d: real, m: real, l: real): Pair {
    var t := Add12Cond(d, m);
    Add12(t.h, RN(t.l + l))
  }

  lemma AccumulateExact(m: real, l: real)
    requires Rep(m) && Rep(l) && m == RN(m + l) && Abs(l) <= Eps(Abs(m))
    ensures Accumulated(0.0, m, l, Accumulate(0.0, m, l))
  {
    hide Pow2, FloorIndex, Mult, Cexp, RN, Rep, Add12, Add12Cond;
    RepZero();
    Add12CondExact(0.0, m);
    RNExact(m);
    RNExact(l);
    Add12Exact(m, l);
    Add12Normalised(m, l);
  }

  lemma AccumulateSizes(d: real, m: real, l: real, th: real, tl: real, t3: real)
    requires 7.0 * Abs(d) >= 8.0 * Abs(m) && Abs(l) <= Eps(Abs(m))
    requires th + tl == d + m && Abs(tl) <= Eps(Abs(d + m)) && Abs(tl) <= Abs(m)
    requires Abs(t3 - (tl + l)) <= Eps(Abs(tl + l))
    ensures Abs(t3) <= Abs(th)
    ensures Abs(th + t3 - (d + m + l)) <= Eps(Abs(m) + Abs(l))
  {
    hide Abs;
    Triangle(tl, l, tl + l);
    Triangle(tl + l, t3 - (tl + l), t3);
    Triangle(d, m, d + m);
    Triangle(th, tl, d + m);
    AbsNonneg(m);
    assert th + t3 - (d + m + l) == t3 - (tl + l);
  }

  lemma AccumulateClose(d: real, m: real, l: real)
    requires Rep(d) && Rep(m) && Rep(l) && 7.0 * Abs(d) >= 8.0 * Abs(m) && d != 0.0 && Abs(l) <= Eps(Abs(m))
    ensures Accumulated(d, m, l, Accumulate(d, m, l))
  {
    hide Pow2, FloorIndex, Mult, Cexp, RN, Rep, Add12, Add12Cond, Abs;
    Add12CondExact(d, m);
    AbsNonneg(m);
    SumErrorRep(d, m);
    AbsSwap(RN(d + m), d + m);
    RNSum(d, m);
    RNRep(d + m);
    var t := Add12Cond(d, m);
    RNSum(t.l, l);
    RNRep(t.l + l);
    var t3 := RN(t.l + l);
    AccumulateSizes(d, m, l, t.h, t.l, t3);
    Add12Exact(t.h, t3);
    Add12Normalised(t.h, t3);
  }

  lemma AccumulateAlways(h: real, m: real, l: real, a: Bits64)
    requires Rep(h) && Rep(m) && Rep(l) && Separated(h, m) && m == RN(m + l)
    requires Pow2(-76) <= Abs(h) && Decode(a) == RN(Ldexp(h, -1000))
    ensures Accumulated(Error(h, a), m, l, Accumulate(Error(h, a), m, l))
    ensures Error(h, a) != 0.0 ==> Abs(Error(h, a)) >= Pow2(Cexp(h))
  {
    hide Pow2, FloorIndex, Mult, Cexp, RN, Rep, Accumulate, Accumulated, Separated, Decode, Error, Ldexp;
    var d, c := Error(h, a), Cexp(h);
    LowWords(h, m, l);
    ScaledError1000(h, a);
    if d == 0.0 {
      AccumulateExact(m, l);
    } else {
      if Abs(d) < Pow2(c) { GridSmall(d, c); }
      AccumulateClose(d, m, l);
    }
  }

  // ------------------------------------------------------ reading the sign

  /** A small perturbation does not change the side of zero k + m + l is on. */
  lemma SameSide(k: real, m: real, l: real, s: real, u: real)
    requires u > 0.0 && (k == 0.0 || Abs(k) >= u) && 8.0 * Abs(m) <= 7.0 * u && Abs(l) <= Eps(Abs(m))
    requires Abs(s - (k + m + l)) <= Eps(Abs(m) + Abs(l))
    ensures (s > 0.0 <==> k + m + l > 0.0) && (s < 0.0 <==> k + m + l < 0.0)
  {
  }

  /** Comparisons of the accumulated error s with zero and with both half gaps
      agree with comparisons of the exact error. */
  ghost predicate Agrees(s: real, exact: real, half: real) {
    && (s > 0.0 <==> exact > 0.0) && (s < 0.0 <==> exact < 0.0)
    && (s >= half <==> exact >= half) && (s < -half <==> exact < -half)
  }

  lemma AgreesSubnormal(d: real, m: real, l: real, s: real, c: int)
    requires Grid(d, c) && d != 0.0 && -128 <= c <= -75
    requires 8.0 * Abs(m) <= 7.0 * Pow2(c) && Abs(l) <= Eps(Abs(m))
    requires Abs(s - (d + m + l)) <= Eps(Abs(m) + Abs(l))
    ensures Agrees(s, d + m + l, Pow2(-75))
  {
    hide Pow2, FloorIndex, Mult, Abs, Eps;
    var half, u := Pow2(-75), Pow2(c);
    GridPow2(-75, c);
    GridSum(d, half, c);
    if Abs(d) < Pow2(c) { GridSmall(d, c); }
    if Abs(d - half) < Pow2(c) { GridSmall(d - half, c); }
    if Abs(d + half) < Pow2(c) { GridSmall(d + half, c); }
    SameSide(d, m, l, s, u);
    assert s - half - (d - half + m + l) == s - (d + m + l) == s + half - (d + half + m + l);
    SameSide(d - half, m, l, s - half, u);
    SameSide(d + half, m, l, s + half, u);
  }

  // ------------------------------------------------- the neighbour of a

  /** The neighbour away from zero is one unit in the last place away. */
  lemma StepAway(a: Bits64)
    requires Finite(a)
    ensures a + 1 < 0x1_0000_0000_0000_0000
    ensures Decode(a + 1) == Decode(a) + (if Negative(a) then -Pow2(LastPlace(Magnitude(a))) else Pow2(LastPlace(Magnitude(a))))
  {
    hide Pow2, DecodeMag, LastPlace;
    DecodeSucc(Magnitude(a));
    assert Magnitude(a + 1) == Magnitude(a) + 1;
  }

  /** The neighbour towards zero is one unit of its own last place away. */
  lemma StepBack(a: Bits64, m: nat)
    requires Finite(a) && m + 1 == Magnitude(a)
    ensures a > 0 && Decode(a - 1) == Decode(a) + (if Negative(a) then Pow2(LastPlace(m)) else -Pow2(LastPlace(m)))
  {
    hide Pow2, DecodeMag, LastPlace;
    DecodeSucc(m);
    assert Magnitude(a - 1) == m;
  }

  lemma PlaceOf(a: Bits64)
    ensures LastPlace(Magnitude(a)) == Cexp(Decode(a)) >= EMIN
    ensures Magnitude(a) > 0 ==> EMIN <= LastPlace(Magnitude(a) - 1) <= Cexp(Decode(a))
  {
    hide Pow2, Cexp, DecodeMag, LastPlace, Magnitude;
    var m := Magnitude(a);
    DecodeMagRep(m);
    CexpNeg(DecodeMag(m));
    if m > 0 {
      PreviousPlace(m);
      DecodeMagRep(m - 1);
    }
  }

  /** The pattern next to a upwards or downwards, one power of two away. */
  lemma StepGap(a: Bits64, up: bool) returns (k: int)
    requires Finite(a) && (Magnitude(a) > 0 || up == !Negative(a))
    ensures 0 <= Stepped(a, up) < 0x1_0000_0000_0000_0000 && Negative(Stepped(a, up)) == Negative(a)
    ensures var f, g := Decode(a), Decode(Stepped(a, up));
      if up then NextUp(f, g) && g == f + Pow2(k) else NextUp(g, f) && g == f - Pow2(k)
    ensures EMIN <= k <= Cexp(Decode(a))
  {
    hide Pow2, Cexp, Decode, LastPlace, NextUp, Rep;
    StepBits(a);
    StepAway(a);
    if Magnitude(a) > 0 { StepBack(a, Magnitude(a) - 1); }
    PlaceOf(a);
    k := LastPlace(if up == !Negative(a) then Magnitude(a) else Magnitude(a) - 1);
  }

  /** Where the exact value v lies, as the comparisons made on s see it: f is the
      intermediate rounding, g its neighbour on the side of s, 2^k away. */
  ghost predicate Situation(v: real, f: real, g: real, k: int, s: real) {
    && (if s >= 0.0 then NextUp(f, g) && g == f + Pow2(k) else NextUp(g, f) && g == f - Pow2(k))
    && Abs(v - f) < Pow2(k)
    && (s > 0.0 <==> v > f) && (s < 0.0 <==> v < f)
    && (s >= Pow2(k + 999) <==> v - f >= Pow2(k - 1))
    && (s < -Pow2(k + 999) <==> v - f < -Pow2(k - 1))
  }

  /** Back to the scale of the result. */
  lemma Unscaled(h: real, f: real, m: real, l: real, exact: real, v: real, k: int)
    requires v == Ldexp(h + m + l, -1000) && exact == h - Ldexp(f, 1000) + m + l
    ensures v - f == Ldexp(exact, -1000)
    ensures (exact > 0.0 <==> v > f) && (exact < 0.0 <==> v < f)
    ensures exact >= Pow2(k + 999) <==> v - f >= Pow2(k - 1)
    ensures exact < -Pow2(k + 999) <==> v - f < -Pow2(k - 1)
    ensures Abs(exact) < Pow2(k + 1000) <==> Abs(v - f) < Pow2(k)
  {
    hide Pow2, Ldexp, Abs;
    LdexpLdexp(f, 1000, -1000);
    LdexpZero(f);
    LdexpSum(Ldexp(f, 1000), exact, h + m + l, -1000);
    LdexpOrder(exact, 0.0, -1000);
    LdexpPositive(0.0, -1000);
    LdexpPositive(exact, -1000);
    LdexpPow2(k + 999, -1000);
    LdexpOrder(exact, Pow2(k + 999), -1000);
    LdexpNeg(Pow2(k + 999), -1000);
    LdexpOrder(exact, -Pow2(k + 999), -1000);
    LdexpAbs(exact, -1000);
    LdexpPow2(k + 1000, -1000);
    LdexpOrder(Abs(exact), Pow2(k + 1000), -1000);
  }

  /** The low words stay within the gap towards g when nothing was lost in a. */
  lemma WithinGap(h: real, m: real, l: real, f: real, g: real, k: int, up: bool)
    requires Rep(m) && Separated(h, m) && Abs(l) <= Eps(Abs(m)) && h == Ldexp(f, 1000)
    requires Rep(g) && g == (if up then f + Pow2(k) else f - Pow2(k))
    requires up <==> m + l >= 0.0
    ensures Abs(m + l) < Pow2(k + 1000)
  {
    hide Pow2, FloorIndex, Mult, Cexp, RN, Rep, Ldexp;
    ScaledUp(g, 1000);
    LdexpPow2(k, 1000);
    LdexpNeg(Pow2(k), 1000);
    LdexpSum(f, if up then Pow2(k) else -Pow2(k), g, 1000);
    var big := Ldexp(g, 1000);
    assert big == if up then h + Pow2(k + 1000) else h - Pow2(k + 1000);
    assert m == 0.0 || 8.0 * Abs(m) <= 7.0 * Abs(big - h);
  }

  /** The triple has the sign of its high word. */
  lemma SignOfTriple(h: real, m: real, l: real)
    requires Rep(h) && Rep(m) && Rep(l) && Separated(h, m) && m == RN(m + l)
    requires Pow2(-76) <= Abs(h)
    ensures h != 0.0 && h + m + l != 0.0 && (h + m + l > 0.0 <==> h > 0.0)
  {
    hide Pow2, FloorIndex, Mult, Cexp, RN, Rep;
    LowWords(h, m, l);
    Pow2Succ(Cexp(h) - 1);
    RepGrid(h, Cexp(h));
    if Abs(h) < Pow2(Cexp(h)) { GridSmall(h, Cexp(h)); }
  }

  /** The comparisons of all four variants are decided correctly. */
  lemma Situate(x: real, h: real, m: real, l: real, a: Bits64, delta: Pair, v: real) returns (k: int)
    requires Scaled1000(x, h, m, l) && v == Ldexp(h + m + l, -1000)
    requires Finite(a) && Negative(a) == (h < 0.0) && Decode(a) == RN(Ldexp(h, -1000))
    requires delta == Accumulate(Error(h, a), m, l)
    ensures 0 <= Stepped(a, delta.h >= 0.0) < 0x1_0000_0000_0000_0000
    ensures Negative(Stepped(a, delta.h >= 0.0)) == Negative(a)
    ensures Situation(v, Decode(a), Decode(Stepped(a, delta.h >= 0.0)), k, delta.h + delta.l)
    ensures delta.h == RN(delta.h + delta.l) && Rep(delta.h) && Rep(delta.l) && k >= EMIN
    ensures (delta.h >= 0.0 <==> delta.h + delta.l >= 0.0) && (delta.h > 0.0 <==> delta.h + delta.l > 0.0)
  {
    hide Pow2, FloorIndex, Mult, Cexp, RN, Rep, Ldexp, Decode, Error, Accumulate, Magnitude, Negative, Finite,
      Stepped, NextUp, Abs, Separated;
    var d, f, c := Error(h, a), Decode(a), Cexp(h);
    var exact, s := d + m + l, delta.h + delta.l;
    AccumulateAlways(h, m, l, a);
    ScaledError1000(h, a);
    LowWords(h, m, l);
    SumSign(delta.h, delta.l);
    var up := delta.h >= 0.0;
    if d != 0.0 {
      AgreesSubnormal(d, m, l, s, c);
    }
    assert s >= 0.0 <==> exact >= 0.0;
    if Magnitude(a) == 0 {
      ZeroPattern(a);
      ErrorIs(h, a);
      LdexpPositive(0.0, 1000);
      SignOfTriple(h, m, l);
    }
    k := StepGap(a, up);
    var g := Decode(Stepped(a, up));
    GapReps(f, g);
    if d != 0.0 {
      Pow2Mono(EMIN + 52, EMIN + 53);
      Pow2Less(EMIN + 52, EMIN + 53);
      CexpLe(f, EMIN);
      SubnormalExact(d, m, l, c);
    } else {
      ErrorIs(h, a);
      WithinGap(h, m, l, f, g, k, up);
    }
    ErrorIs(h, a);
    Unscaled(h, f, m, l, exact, v, k);
  }

  lemma ErrorIs(h: real, a: Bits64)
    ensures Error(h, a) == h - Ldexp(Decode(a), 1000)
  {
  }

  lemma ZeroPattern(a: Bits64)
    requires Magnitude(a) == 0
    ensures Decode(a) == 0.0
  {
    hide Pow2;
  }

  lemma GapReps(f: real, g: real)
    ensures NextUp(f, g) || NextUp(g, f) ==> Rep(f) && Rep(g)
  {
  }

  lemma SubnormalExact(d: real, m: real, l: real, c: int)
    requires Abs(d) <= Pow2(-75) && c <= -75 && 8.0 * Abs(m) <= 7.0 * Pow2(c) && Abs(l) <= Eps(Abs(m))
    ensures Abs(d + m + l) < Pow2(EMIN + 1000)
  {
    hide Pow2;
    Pow2Mono(c, -75);
    Pow2Succ(-75);
  }

  // ----------------------------------------------------- what is returned

  /** r is a nearest double to v, the upper one of two equally near ones. */
  ghost predicate NearestUp(v: real, r: real) {
    && Rep(r)
    && forall g {:trigger Rep(g)} :: Rep(g) ==>
      Abs(r - v) <= Abs(g - v) && (Abs(r - v) == Abs(g - v) ==> g <= r)
  }

  lemma NearestUpBetween(f: real, g: real, v: real)
    requires NextUp(f, g) && f <= v < g
    ensures v - f >= g - v ==> NearestUp(v, g)
    ensures v - f < g - v ==> NearestUp(v, f)
  {
    hide Rep;
    forall h {:trigger Rep(h)} | Rep(h)
      ensures h <= f || g <= h
    {
    }
  }

  /** v is half way between two doubles, of which the lower one is even. */
  ghost predicate TieDown(v: real) {
    Midpoint(v) && FloorIndex(v, Cexp(v)) % 2 == 0
  }

  /** NearestUp is rounding to nearest if and only if v is not such a tie. */
  lemma NearestUpIsRN(v: real, r: real)
    requires NearestUp(v, r)
    ensures r == RN(v) <==> !TieDown(v)
  {
    hide Pow2, FloorIndex, Mult, Cexp, Rep, RN, RD, RU;
    RNRep(v);
    RDRep(v);
    RURep(v);
    RNNearest(v, r);
    if Midpoint(v) {
      MidpointParity(v);
    } else if r != RN(v) {
      NearestOfTwo(v);
      UpperNeighbour(v);
      RULeast(v, r);
    }
  }

  lemma NearestUpTies(v: real)
    ensures forall r {:trigger NearestUp(v, r)} :: NearestUp(v, r) ==> (r == RN(v) <==> !TieDown(v))
  {
    hide *;
    forall r {:trigger NearestUp(v, r)} | NearestUp(v, r)
      ensures r == RN(v) <==> !TieDown(v)
    {
      NearestUpIsRN(v, r);
    }
  }

  /** A single word is a triple. */
  lemma OneWord(x: real, h: real)
    requires Rep(h) && Pow2(-76) <= Abs(h) < Pow2(940) && x != 0.0 && (x > 0.0 <==> h > 0.0)
    ensures Scaled1000(x, h, 0.0, 0.0)
  {
    hide Pow2, FloorIndex, Cexp, Rep, RN;
    RepZero();
    RNExact(0.0);
  }

  /** 2^-1075 lies half way between 0 and the least subnormal. */
  lemma LeastMidpoint()
    ensures var v := Pow2(EMIN - 1); TieDown(v) && RN(v) == 0.0 && RU(v) == Pow2(EMIN) == 2.0 * v
  {
    hide Pow2, RN, RU, Cexp;
    var v := Pow2(EMIN - 1);
    Pow2Succ(EMIN - 1);
    Pow2Mono(EMIN, EMIN + 53);
    CexpLe(v, EMIN);
    Pow2Zero();
    Pow2Succ(-1);
    Pow2Add(EMIN - 1, -EMIN);
    assert Scaled(v, EMIN) == 0.5;
    UpperNeighbour(v);
    MidpointParity(v);
  }

  /** Such a tie is within reach of the triples: at 2^-1075 the result is 2^-1074,
      where the even neighbour is 0. */
  lemma TieReached()
    ensures var v := Ldexp(Pow2(-75) + 0.0 + 0.0, -1000);
      && Scaled1000(1.0, Pow2(-75), 0.0, 0.0) && TieDown(v) && RN(v) == 0.0
      && forall r {:trigger NearestUp(v, r)} :: NearestUp(v, r) ==> r == Pow2(EMIN)
  {
    hide Pow2, FloorIndex, Mult, Cexp, Rep, RN, RU, Ldexp, TieDown, Scaled1000;
    RepPow2(-75);
    Pow2Mono(-76, -75);
    Pow2Mono(-75, 940);
    OneWord(1.0, Pow2(-75));
    LdexpPow2(-75, -1000);
    LeastMidpoint();
    forall r {:trigger NearestUp(Pow2(EMIN - 1), r)} | NearestUp(Pow2(EMIN - 1), r)
      ensures r == Pow2(EMIN)
    {
      RepZero();
      RepPow2(EMIN);
      RepGrid(r, EMIN);
      assert Abs(r - Pow2(EMIN - 1)) <= Abs(0.0 - Pow2(EMIN - 1));
      if r < Pow2(EMIN) { GridSmall(r, EMIN); }
    }
  }

  /** A double is within reach as well: x = -1 with the triple (-1, 0, 0). */
  lemma DoubleReached()
    ensures Scaled1000(-1.0, -1.0, 0.0, 0.0) && Rep(Ldexp(-1.0 + 0.0 + 0.0, -1000))
  {
    hide Pow2, FloorIndex, Cexp, Rep, RN, Ldexp;
    Pow2Zero();
    Pow2Mono(-76, 0);
    Pow2Mono(0, 940);
    RepPow2(0);
    RepNeg(1.0);
    OneWord(-1.0, -1.0);
    LdexpPow2(0, -1000);
    LdexpNeg(1.0, -1000);
    RepPow2(-1000);
    RepNeg(Pow2(-1000));
  }

  /** The comparison of |deltah| with the half gap, and of the signs at equality. */
  lemma Compared(dh: real, dl: real, half: real)
    requires dh == RN(dh + dl) && Rep(half) && half > 0.0
    ensures Abs(dh) < half ==> -half < dh + dl < half
    ensures dh > half ==> dh + dl > half
    ensures dh < -half ==> dh + dl < -half
  {
    hide Rep, RN;
    RepNeg(half);
    var s := dh + dl;
    if s >= half { RNAbove(s, half); }
    if s <= -half { RNBelow(s, -half); }
    if s <= half { RNBelow(s, half); }
    if s >= -half { RNAbove(s, -half); }
  }

  /** miulp is half the gap between the two candidates, scaled by 2^1000. */
  lemma HalfGapScaled(f: real, g: real, k: int, up: bool)
    requires k >= EMIN && g - f == if up then Pow2(k) else -Pow2(k)
    ensures RN(g - f) == g - f
    ensures Abs(FMul(Pow2(999), RN(g - f))) == Pow2(k + 999) && Rep(Pow2(k + 999))
  {
    hide Pow2, FloorIndex, Mult, Cexp, RN, Rep, FMul, Ldexp;
    RepPow2(k);
    RepNeg(Pow2(k));
    RNExact(g - f);
    ScaledUp(Pow2(k), 999);
    ScaledUp(-Pow2(k), 999);
    LdexpPow2(k, 999);
    LdexpNeg(Pow2(k), 999);
    FMulCommutes(Pow2(999), g - f);
  }

  lemma FMulCommutes(x: real, y: real)
    ensures FMul(x, y) == FMul(y, x)
  {
    hide RN;
    FMulIs(x, y, y * x);
  }

  /** The pattern of the intermediate rounding; a zero keeps the sign of h. */
  method Intermediate1000(x: real, h: real, m: real, l: real) returns (a: Bits64, delta: Pair)
    requires Scaled1000(x, h, m, l)
    ensures Finite(a) && Negative(a) == (h < 0.0) && Decode(a) == RN(Ldexp(h, -1000))
    ensures delta == Accumulate(Error(h, a), m, l)
  {
    hide Pow2, FloorIndex, Mult, Cexp, RN, Rep, FMul, Ldexp, Decode, Finite, Negative, Separated, Encode;
    var p := FMul(h, Pow2(-1000));
    LdexpIs(h, -1000);
    SignOfScaled(h, p);
    var asinhdb := new DbNumber(Encode(h < 0.0, Abs(p)));
    EncodeBits(h < 0.0, Abs(p));
    a := asinhdb.l;
    var temp1 := FMul(asinhdb.D(), Pow2(1000));
    RNRep(Ldexp(h, -1000));
    ScaledUp(asinhdb.D(), 1000);
    var deltatemp := RN(h - temp1);
    ScaledError1000(h, a);
    ErrorIs(h, a);
    RNExact(Error(h, a));
    var t2 := Add12Cond(deltatemp, m);
    var temp3 := RN(t2.l + l);
    delta := Add12(t2.h, temp3);
  }

  lemma SignOfScaled(h: real, p: real)
    requires Rep(h) && h != 0.0 && Abs(h) < Pow2(940) && p == RN(Ldexp(h, -1000))
    ensures Rep(Abs(p)) && Abs(p) < Pow2(1024) && (if h < 0.0 then p <= 0.0 else p >= 0.0)
  {
    hide Pow2, FloorIndex, Mult, Cexp, RN, Rep, Ldexp;
    var x := Ldexp(h, -1000);
    LdexpOrder(h, 0.0, -1000);
    LdexpPositive(h, -1000);
    LdexpPositive(0.0, -1000);
    LdexpAbs(h, -1000);
    LdexpOrder(Abs(h), Pow2(940), -1000);
    LdexpPow2(940, -1000);
    RepPow2(-60);
    RNMagnitude(x, Pow2(-60));
    Pow2Mono(-60, 1024);
    RepZero();
    RNRep(x);
    RepNeg(RN(x));
    if h < 0.0 { RNBelow(x, 0.0); } else { RNAbove(x, 0.0); }
  }

  /** asinpi_rn: the nearest double, midpoints going up. */
  method TinyRN(x: real, h: real, m: real, l: real) returns (r: Bits64)
    requires Scaled1000(x, h, m, l)
    ensures var v := Ldexp(h + m + l, -1000);
      NearestUp(v, Decode(r)) && (Decode(r) == RN(v) <==> !TieDown(v))
    ensures Negative(r) == (h < 0.0)
  {
    hide Pow2, FloorIndex, Mult, Cexp, RN, Rep, FMul, Ldexp, Decode, Finite, Negative, Separated, Accumulate,
      Magnitude, NextUp, NearestUp, TieDown, Error;
    var a, delta := Intermediate1000(x, h, m, l);
    var asinhdb := new DbNumber(a);
    var tempdb := new DbNumber(a);
    ghost var v := Ldexp(h + m + l, -1000);
    ghost var k := Situate(x, h, m, l, a, delta, v);
    NearestUpTies(v);
    if (x >= 0.0) != (delta.h >= 0.0) {
      tempdb.Decrement();
    } else {
      tempdb.Increment();
    }
    assert tempdb.l == Stepped(a, delta.h >= 0.0);
    ghost var f, g := asinhdb.D(), tempdb.D();
    HalfGapScaled(f, g, k, delta.h >= 0.0);
    Compared(delta.h, delta.l, Pow2(k + 999));
    Pow2Succ(k - 1);
    if delta.h >= 0.0 { NearestUpBetween(f, g, v); } else { NearestUpBetween(g, f, v); }
    var miulp := FMul(Pow2(999), RN(tempdb.D() - asinhdb.D()));
    if Abs(delta.h) < Abs(miulp) {
      return asinhdb.l;
    }
    if Abs(delta.h) > Abs(miulp) {
      return tempdb.l;
    }
    if (delta.h >= 0.0) != (delta.l >= 0.0) {
      return asinhdb.l;
    }
    return tempdb.l;
  }

  /** Both directed roundings, from the sign of the accumulated error. */
  lemma DirectedSituation(v: real, f: real, g: real, k: int, s: real)
    requires Situation(v, f, g, k, s)
    ensures s > 0.0 ==> RD(v) == f && RU(v) == g
    ensures s < 0.0 ==> RD(v) == g && RU(v) == f
    ensures s == 0.0 ==> RD(v) == f && RU(v) == f && NextUp(v, g)
    ensures s == 0.0 <==> Rep(v)
    ensures f != g
  {
    hide Pow2, Cexp, RD, Rep, FloorIndex, Mult;
    GapReps(f, g);
    if s > 0.0 {
      BetweenNeighbours(f, g, v);
    } else if s < 0.0 {
      BetweenNeighbours(g, f, v);
    } else {
      RDGreatest(v, f);
      RULeast(v, f);
    }
    if Rep(v) && s != 0.0 { NothingBetween(f, g, v); }
  }

  lemma NothingBetween(f: real, g: real, v: real)
    requires Rep(v)
    ensures NextUp(f, g) ==> v <= f || g <= v
    ensures NextUp(g, f) ==> v <= g || f <= v
  {
    hide Rep;
  }

  /** asinpi_rd: the rounding down, always. */
  method TinyRD(x: real, h: real, m: real, l: real) returns (r: Bits64)
    requires Scaled1000(x, h, m, l)
    ensures Decode(r) == RD(Ldexp(h + m + l, -1000)) && Negative(r) == (h < 0.0)
  {
    hide Pow2, FloorIndex, Mult, Cexp, RN, RD, RU, Rep, FMul, Ldexp, Decode, Finite, Negative, Separated,
      Accumulate, Magnitude, NextUp, Error, Situation;
    var a, delta := Intermediate1000(x, h, m, l);
    var asinhdb := new DbNumber(a);
    ghost var v := Ldexp(h + m + l, -1000);
    ghost var k := Situate(x, h, m, l, a, delta, v);
    DirectedSituation(v, Decode(a), Decode(Stepped(a, delta.h >= 0.0)), k, delta.h + delta.l);
    if delta.h >= 0.0 {
      return asinhdb.l;
    }
    if x < 0.0 {
      asinhdb.Increment();
    } else {
      asinhdb.Decrement();
    }
    assert asinhdb.l == Stepped(a, false);
    return asinhdb.l;
  }

  /** asinpi_ru: the rounding up, always. */
  method TinyRU(x: real, h: real, m: real, l: real) returns (r: Bits64)
    requires Scaled1000(x, h, m, l)
    ensures Decode(r) == RU(Ldexp(h + m + l, -1000)) && Negative(r) == (h < 0.0)
  {
    hide Pow2, FloorIndex, Mult, Cexp, RN, RD, RU, Rep, FMul, Ldexp, Decode, Finite, Negative, Separated,
      Accumulate, Magnitude, NextUp, Error, Situation;
    var a, delta := Intermediate1000(x, h, m, l);
    var asinhdb := new DbNumber(a);
    ghost var v := Ldexp(h + m + l, -1000);
    ghost var k := Situate(x, h, m, l, a, delta, v);
    DirectedSituation(v, Decode(a), Decode(Stepped(a, delta.h >= 0.0)), k, delta.h + delta.l);
    if delta.h <= 0.0 {
      return asinhdb.l;
    }
    if x < 0.0 {
      asinhdb.Decrement();
    } else {
      asinhdb.Increment();
    }
    assert asinhdb.l == Stepped(a, true);
    return asinhdb.l;
  }

  /**
   asinpi_rz: the rounding towards zero, except that for negative x a value
   that is itself a double is moved one unit towards zero.
   */
  method TinyRZ(x: real, h: real, m: real, l: real) returns (r: Bits64)
    requires Scaled1000(x, h, m, l)
    ensures var v := Ldexp(h + m + l, -1000);
      && (Decode(r) == RZ(v) <==> !(x < 0.0 && Rep(v)))
      && (x < 0.0 && Rep(v) ==> NextUp(v, Decode(r)))
    ensures Negative(r) == (h < 0.0)
  {
    hide Pow2, FloorIndex, Mult, Cexp, RN, RD, RU, Rep, FMul, Ldexp, Decode, Finite, Negative, Separated,
      Accumulate, Magnitude, NextUp, Error, Situation;
    var a, delta := Intermediate1000(x, h, m, l);
    var asinhdb := new DbNumber(a);
    ghost var v := Ldexp(h + m + l, -1000);
    ghost var k := Situate(x, h, m, l, a, delta, v);
    DirectedSituation(v, Decode(a), Decode(Stepped(a, delta.h >= 0.0)), k, delta.h + delta.l);
    SignOfTriple(h, m, l);
    LdexpPositive(h + m + l, -1000);
    if (x > 0.0) != (delta.h < 0.0) {
      return asinhdb.l;
    }
    asinhdb.Decrement();
    assert asinhdb.l == Stepped(a, delta.h >= 0.0);
    return asinhdb.l;
  }
}
