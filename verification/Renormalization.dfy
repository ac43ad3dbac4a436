/**
 Renormalize3: three overlapping doubles become a triple with the same sum.
 */
module Renormalization {
  import opened Dyadic
  import opened Rounding
  import opened ErrorFree
  import opened DoubleDouble
  import opened Neighbours

  /** |m| is at most seven eighths of the gap between h and the next double on
      m's side. */
  ghost predicate Separated(h: real, m: real) {
    forall g {:trigger Rep(g)} :: Rep(g) && ((m > 0.0 && g > h) || (m < 0.0 && g < h)) ==> 8.0 * Abs(m) <= 7.0 * Abs(g - h)
  }

  lemma LowWords(h: real, m: real, l: real)
    requires Rep(h) && Rep(m) && Rep(l) && Separated(h, m) && m == RN(m + l)
    ensures 8.0 * Abs(m) <= 7.0 * Pow2(Cexp(h)) && Abs(l) <= Eps(Abs(m))
    ensures m == 0.0 ==> l == 0.0
  {
    hide Pow2, FloorIndex, Mult, Cexp, RN, Rep;
    var c := Cexp(h);
    NormalisedIsDD(Pair(m, l));
    RepGrid(h, c);
    GridPow2(c, c);
    GridSum(h, Pow2(c), c);
    BelowTop(h, c);
    RepIntro(h + Pow2(c), c);
    RepIntro(h - Pow2(c), c);
    if m > 0.0 { assert 8.0 * Abs(m) <= 7.0 * Abs(h + Pow2(c) - h); }
    if m < 0.0 { assert 8.0 * Abs(m) <= 7.0 * Abs(h - Pow2(c) - h); }
  }

  // ------------------------------------------------------- the procedure

  datatype Words = Words(h: real, m: real, l: real)

  /** DoRenormalize3: three fast two-sums. */
  function Renormalize3(ah: real, am: real, al: real): Words {
    var t1 := Add12(am, al);
    var t2 := Add12(ah, t1.h);
    var t3 := Add12(t2.l, t1.l);
    Words(t2.h, t3.h, t3.l)
  }

  /** Neighbouring words overlap by at most 51 of their 53 bits. */
  ghost predicate Overlapping(ah: real, am: real, al: real) {
    && Rep(ah) && Rep(am) && Rep(al)
    && 4.0 * Abs(am) <= Abs(ah) && 4.0 * Abs(al) <= Abs(am)
  }

  /** The words on the way: k + r is am + al, h + t is ah + k, both rounded and
      exact; g is the last place of k. */
  ghost predicate Passing(ah: real, k: real, r: real, h: real, t: real, g: int) {
    && Rep(ah) && Rep(k) && Rep(r) && Rep(h) && Rep(t) && 8.0 * Abs(k) <= 3.0 * Abs(ah)
    && h == RN(ah + k) && h + t == ah + k && Abs(t) <= Eps(Abs(ah + k))
    && g == Cexp(k) && Grid(h, g) && Grid(t, g) && Abs(r) <= Pow2(g - 1)
  }

  lemma PlaceOfRounded(x: real)
    ensures Cexp(x) <= Cexp(RN(x))
  {
    hide Pow2, FloorIndex, Mult, Cexp, RN, Rep;
    var c := Cexp(x);
    if c > EMIN {
      RepPow2(c + 52);
      RNMagnitude(x, Pow2(c + 52));
      CexpGe(RN(x), c);
    }
  }

  lemma FirstSize(ah: real, am: real, al: real, k: real)
    requires 4.0 * Abs(am) <= Abs(ah) && 4.0 * Abs(al) <= Abs(am) && Abs(k - (am + al)) <= Abs(al)
    ensures 8.0 * Abs(k) <= 3.0 * Abs(ah) && Abs(al) <= Abs(am)
  {
    hide Abs;
    AbsNonneg(am);
    Triangle(am, al, am + al);
    Triangle(k - (am + al), am + al, k);
  }

  lemma FirstTwo(ah: real, am: real, al: real) returns (k: real, r: real, h: real, t: real, g: int)
    requires Overlapping(ah, am, al)
    ensures Passing(ah, k, r, h, t, g) && k + r == am + al && k == RN(am + al)
    ensures Renormalize3(ah, am, al) == Words(h, Add12(t, r).h, Add12(t, r).l)
  {
    hide Pow2, FloorIndex, Mult, Grid, Cexp, RN, Rep, Add12, Eps, Abs;
    k, g := RN(am + al), Cexp(RN(am + al));
    r := am + al - k;
    AbsNonneg(am);
    AbsNonneg(ah);
    AbsSwap(k, am + al);
    Add12Exact(am, al);
    SumErrorRep(am, al);
    PlaceOfRounded(am + al);
    RNError(am + al);
    FirstSize(ah, am, al, k);
    Pow2Mono(Cexp(am + al) - 1, g - 1);
    RNRep(am + al);
    h := RN(ah + k);
    t := ah + k - h;
    Add12Exact(ah, k);
    SumErrorRep(ah, k);
    SumGrid(ah, k);
    GridSum(ah + k, h, g);
    RNRep(ah + k);
    RNSum(ah, k);
    AbsSwap(h, ah + k);
  }

  /** What is left of the first sum is zero or outweighs r. */
  lemma Remainders(t: real, r: real, g: int)
    requires Rep(t) && Rep(r) && Grid(t, g) && Abs(r) <= Pow2(g - 1)
    ensures t == 0.0 || Abs(t) >= 2.0 * Abs(r)
    ensures Add12(t, r).h + Add12(t, r).l == t + r && Add12(t, r).h == RN(t + r)
    ensures Rep(Add12(t, r).h) && Rep(Add12(t, r).l)
  {
    hide Pow2, FloorIndex, Mult, Cexp, RN, Rep, Grid;
    Pow2Succ(g - 1);
    if Abs(t) < Pow2(g) { GridSmall(t, g); }
    RNRep(t + r);
    RNRep(r - RN(RN(t + r) - t));
    Add12Condition(t, r);
  }

  /** Every double is at least one place of k away from h. */
  lemma PlacesApart(ah: real, k: real, r: real, h: real, t: real, g: int, d: real)
    requires Passing(ah, k, r, h, t, g) && Rep(d) && d != h
    ensures Abs(d - h) >= Pow2(g)
  {
    hide Pow2, FloorIndex, Mult, Cexp, RN, Rep, Grid;
    if Cexp(d) >= g {
      RepGrid(d, g);
      if d < h { GridApart(d, h, g); } else { GridApart(h, d, g); }
    } else {
      if Abs(d) >= Pow2(g + 52) { CexpGe(d, g); }
      Pow2Mono(g, g + 51);
      Pow2Succ(g + 51);
      LargerHigh(ah, k, h, t);
    }
  }

  lemma LargerHigh(ah: real, k: real, h: real, t: real)
    requires 8.0 * Abs(k) <= 3.0 * Abs(ah) && h + t == ah + k && Abs(t) <= Eps(Abs(ah + k))
    ensures Abs(h) >= 1.6 * Abs(k) && Abs(ah + k) >= 1.6 * Abs(k)
  {
  }

  lemma RoundedShare(t: real, r: real, m: real, gap: real)
    requires Abs(m - (t + r)) <= Eps(Abs(t + r)) && Abs(t) >= 2.0 * Abs(r) && gap >= 2.0 * Abs(t)
    ensures 8.0 * Abs(m) <= 7.0 * gap
  {
  }

  /**
   Renormalize3, for words overlapping by at most 51 bits: the sum is preserved
   without error, the middle word is the rounding of the two lower ones, and it
   stays within the gap between the high word and the next double.
   */
  lemma Renormalize3Exact(ah: real, am: real, al: real)
    requires Overlapping(ah, am, al)
    ensures var w := Renormalize3(ah, am, al);
      && w.h + w.m + w.l == ah + am + al
      && Rep(w.h) && Rep(w.m) && Rep(w.l) && w.m == RN(w.m + w.l) && Separated(w.h, w.m)
  {
    hide Pow2, FloorIndex, Mult, Cexp, RN, Rep, Grid, Add12, Overlapping, Abs;
    var k, r, h, t, g := FirstTwo(ah, am, al);
    Remainders(t, r, g);
    var m := RN(t + r);
    forall d {:trigger Rep(d)} | Rep(d) && ((m > 0.0 && d > h) || (m < 0.0 && d < h))
      ensures 8.0 * Abs(m) <= 7.0 * Abs(d - h)
    {
      MiddleShare(ah, k, r, h, t, g, d);
    }
  }

  lemma MiddleShare(ah: real, k: real, r: real, h: real, t: real, g: int, d: real)
    requires Passing(ah, k, r, h, t, g) && Rep(d)
    requires (RN(t + r) > 0.0 && d > h) || (RN(t + r) < 0.0 && d < h)
    ensures 8.0 * Abs(RN(t + r)) <= 7.0 * Abs(d - h)
  {
    hide Pow2, FloorIndex, Mult, Cexp, RN, Rep, Grid;
    Remainders(t, r, g);
    if t == 0.0 {
      RNExact(r);
      PlacesApart(ah, k, r, h, t, g, d);
      Pow2Succ(g - 1);
    } else {
      RNSum(t, r);
      HalfGap(h, d, t);
      RoundedShare(t, r, RN(t + r), Abs(d - h));
    }
  }

  // ------------------------------------- the high word against the whole sum

  /** z lies half way between h and p, of which neither is farther than any double. */
  lemma HalfWay(h: real, p: real, z: real)
    requires Rep(h) && Rep(p) && h < p && 2.0 * z == h + p && (RN(z) == h || RN(z) == p)
    ensures Midpoint(z) && RD(z) == h && RU(z) == p
  {
    hide Pow2, FloorIndex, Mult, Cexp, RN, RD, Rep;
    RDRep(z);
    RURep(z);
    RDGreatest(z, h);
    RULeast(z, p);
    RNNearest(z, RD(z));
    RNNearest(z, RU(z));
  }

  /** A double p above h that is at least as near to h + t + r as h is. */
  lemma Overtaking(h: real, t: real, r: real, g: int, p: real)
    requires Rep(p) && p > h && h == RN(h + t) && Grid(p - h, g) && Grid(t, g) && Abs(r) <= Pow2(g - 1)
    requires Abs(p - (h + t + r)) <= Abs(t + r)
    ensures (p - h == 2.0 * t && t > 0.0 && r >= 0.0) || p - h == 2.0 * (t + r)
  {
    hide Pow2, FloorIndex, Mult, RN, Rep, Grid;
    Pow2Succ(g - 1);
    if Abs(t) < Pow2(g) { GridSmall(t, g); }
    if t > 0.0 { HalfGap(h, p, t); }
    GridSum(p - h, t, g);
    GridSum(p - h - t, t, g);
    var rest := p - h - 2.0 * t;
    assert rest == p - h - t - t;
    if Abs(rest) < Pow2(g) { GridSmall(rest, g); }
  }

  /** Such a double is the rounding of one of the two sums' midpoints. */
  lemma OvertakenAbove(h: real, t: real, r: real, g: int, p: real)
    requires Rep(h) && Rep(p) && p > h && h == RN(h + t) && Grid(p - h, g) && Grid(t, g) && Abs(r) <= Pow2(g - 1)
    requires p == RN(h + t + r)
    ensures (Midpoint(h + t) && SameSign(t, r)) || (Midpoint(h + t + r) && h == RD(h + t + r))
  {
    hide Pow2, FloorIndex, Mult, Cexp, RN, RD, RU, Rep, Grid;
    RNNearest(h + t + r, h);
    Overtaking(h, t, r, g, p);
    if p - h == 2.0 * (t + r) {
      HalfWay(h, p, h + t + r);
    } else {
      HalfWay(h, p, h + t);
    }
  }

  lemma MidpointNeg(z: real)
    ensures Midpoint(-z) == Midpoint(z) && RU(z) == -RD(-z) && RD(z) == -RU(-z)
  {
    hide Pow2, FloorIndex, Mult, Cexp, RD, Rep;
    RDRep(z);
    RDRep(-z);
    if RD(z) == z {
      RULeast(z, z);
    }
    if RD(-z) == -z {
      RULeast(-z, -z);
    }
    assert - -z == z;
  }

  lemma Overtaken(h: real, t: real, r: real, g: int, p: real)
    requires Rep(h) && Rep(p) && p != h && h == RN(h + t) && Grid(p - h, g) && Grid(t, g) && Abs(r) <= Pow2(g - 1)
    requires p == RN(h + t + r)
    ensures (Midpoint(h + t) && SameSign(t, r)) || (Midpoint(h + t + r) && (h == RD(h + t + r) || h == RU(h + t + r)))
  {
    hide Pow2, FloorIndex, Mult, Cexp, RN, RD, RU, Rep, Grid, Midpoint;
    if p > h {
      OvertakenAbove(h, t, r, g, p);
    } else {
      RepNeg(h);
      RepNeg(p);
      RNNeg(h + t);
      RNNeg(h + t + r);
      assert -(h + t) == -h + -t && -(h + t + r) == -h + -t + -r;
      GridNeg(p - h, g);
      assert -(p - h) == -p - -h;
      GridNeg(t, g);
      OvertakenAbove(-h, -t, -r, g, -p);
      MidpointNeg(h + t);
      MidpointNeg(h + t + r);
    }
  }

  lemma StaysLarge(x: real, k: real, t: real, r: real, p: real)
    requires k >= 0.0 && Abs(x) >= 1.6 * k && Abs(t) <= Eps(Abs(x)) && Abs(r) <= Eps(k)
    requires Abs(p - (x + r)) <= Abs(t + r)
    ensures Abs(p) >= k
  {
  }

  /** The rounding of the whole sum is on the grid of k as well. */
  lemma RoundedOnGrid(ah: real, k: real, r: real, h: real, t: real, g: int)
    requires Passing(ah, k, r, h, t, g)
    ensures Grid(RN(h + t + r) - h, g)
  {
    hide Pow2, FloorIndex, Mult, Cexp, RN, Rep, Grid;
    var p := RN(h + t + r);
    RNRep(h + t + r);
    RNNearest(h + t + r, h);
    LargerHigh(ah, k, h, t);
    if Cexp(p) < g {
      HalfUlp(g);
      StaysLarge(ah + k, Pow2(g + 52), t, r, p);
      CexpGe(p, g);
    }
    RepGrid(p, g);
    GridSum(p, h, g);
  }

  /** h lies half way to the next double, on the odd side. */
  ghost predicate OddMidpoint(z: real, h: real) {
    Midpoint(z) && h == if FloorIndex(z, Cexp(z)) % 2 == 0 then RU(z) else RD(z)
  }

  /**
   The high word is the rounding of the whole sum if and only if neither happens:
   ah + RN(am + al) is a midpoint and the error of am + al has the sign of that
   of the first sum, or the whole sum is a midpoint with the high word on its odd
   side.
   */
  lemma HighWordRounds(ah: real, am: real, al: real)
    requires Overlapping(ah, am, al)
    ensures var k := RN(am + al);
      var h, r := RN(ah + k), am + al - k;
      && Renormalize3(ah, am, al).h == h
      && (h == RN(ah + am + al) <==>
          !(Midpoint(ah + k) && SameSign(ah + k - h, r)) && !OddMidpoint(ah + am + al, h))
  {
    hide Pow2, FloorIndex, Mult, Cexp, RN, RD, RU, Rep, Grid, Add12, Overlapping, SameSign, Midpoint;
    var k, r, h, t, g := FirstTwo(ah, am, al);
    assert h + t == ah + k && h + t + r == ah + am + al;
    var p := RN(h + t + r);
    RNRep(h + t + r);
    if p != h {
      RoundedOnGrid(ah, k, r, h, t, g);
      Overtaken(h, t, r, g, p);
      if Midpoint(h + t + r) { MidpointParity(h + t + r); }
    } else {
      if Midpoint(h + t) && SameSign(t, r) { PastMidpoint(h, t, r, g); }
      if OddMidpoint(h + t + r, h) { OddSide(h + t + r, h); }
    }
  }

  lemma OddSide(z: real, h: real)
    requires OddMidpoint(z, h)
    ensures RN(z) != h
  {
    hide Pow2, FloorIndex, Mult, Cexp, RN, RD, RU, Rep;
    MidpointParity(z);
    RURep(z);
  }

  /** Past the midpoint h + t, h is no longer the rounding. */
  lemma PastMidpoint(h: real, t: real, r: real, g: int)
    requires Rep(h) && Rep(t) && Rep(r) && h == RN(h + t) && Midpoint(h + t) && SameSign(t, r)
    requires Grid(t, g) && Abs(r) <= Pow2(g - 1)
    ensures RN(h + t + r) != h
  {
    hide Pow2, FloorIndex, Mult, Cexp, RN, RD, RU, Rep, Grid;
    var z := h + t;
    Remainders(t, r, g);
    RDRep(z);
    RURep(z);
    MidpointParity(z);
    RNNearest(h + t + r, RU(z));
    RNNearest(h + t + r, RD(z));
  }

  // One quarter and a half unit beside 1: the first sum is a midpoint, and the
  // lowest word points past it.

  const LOWEST: real := Eps(0.0625)

  lemma MissedWords()
    ensures Overlapping(1.0, 0.125 + Eps(1.0), LOWEST)
    ensures RN(0.125 + Eps(1.0) + LOWEST) == 0.125 + Eps(1.0) && RN(1.125 + Eps(1.0)) == 1.125
    ensures Rep(1.125) && Rep(1.125 + Eps(2.0))
  {
    hide Pow2, RN, Rep;
    MissedPowers();
    RNScaled(0.125 + Eps(1.0) + LOWEST, 4503599627370500.25, -55);
    RNRep(0.125 + Eps(1.0) + LOWEST);
    RNScaled(1.125 + Eps(1.0), 5066549580791808.5, -52);
    RNRep(1.125 + Eps(1.0));
    RNScaled(1.125 + Eps(2.0), 5066549580791809.0, -52);
    RNRep(1.125 + Eps(2.0));
    RepPow2(0);
    RepPow2(-57);
  }

  lemma MissedPowers()
    ensures Pow2(0) == 1.0 && Pow2(-52) == Eps(2.0) && Pow2(-55) == Eps(0.25) && Pow2(-57) == Eps(0.0625)
  {
    hide Pow2;
    UnitRoundoff();
    Pow2Zero();
    Pow2Succ(-53);
    Pow2Succ(-54);
    Pow2Succ(-55);
    Pow2Succ(-56);
    Pow2Succ(-57);
  }

  /** The high word of Renormalize3 can miss the rounding of the sum. */
  lemma HighWordMissed()
    ensures var ah, am, al := 1.0, 0.125 + Eps(1.0), LOWEST;
      Overlapping(ah, am, al) && Renormalize3(ah, am, al).h != RN(ah + am + al)
  {
    hide Pow2, RN, RD, RU, Rep, Overlapping, Renormalize3;
    MissedWords();
    var x := 1.125 + Eps(1.0);
    HalfWay(1.125, 1.125 + Eps(2.0), x);
    assert 1.0 + (0.125 + Eps(1.0)) == x;
    HighWordRounds(1.0, 0.125 + Eps(1.0), LOWEST);
  }
}
