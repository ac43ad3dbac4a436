/**
 nextUp and nextDown (section 5.3.1 of IEEE 754-2008) through the bit
 pattern, and the directed roundings of a value known to lie between a double
 and one of its neighbours.
 */
module Neighbours {
  import opened Dyadic
  import opened Rounding
  import opened BitPattern

  /** g is the next double above f. */
  ghost predicate NextUp(f: real, g: real) {
    Rep(f) && Rep(g) && f < g && forall h {:trigger Rep(h)} :: Rep(h) && f < h ==> g <= h
  }

  lemma NextUpMag(m: nat)
    ensures NextUp(DecodeMag(m), DecodeMag(m + 1))
    ensures NextUp(-DecodeMag(m + 1), -DecodeMag(m))
  {
    hide Pow2, Cexp, DecodeMag, LastPlace, Rep;
    var f, g := DecodeMag(m), DecodeMag(m + 1);
    DecodeMagRep(m);
    DecodeMagRep(m + 1);
    DecodeMono(m, m + 1);
    RepNeg(f);
    RepNeg(g);
    forall h {:trigger Rep(h)} | Rep(h) && f < h
      ensures g <= h
    {
      NoneBetween(m, h);
    }
    forall h {:trigger Rep(h)} | Rep(h) && -g < h
      ensures -f <= h
    {
      RepNeg(h);
      if -h > f { NoneBetween(m, -h); }
    }
  }

  /** l++ and l-- reach the neighbour away from and towards zero. */
  lemma StepBits(l: Bits64)
    requires Finite(l)
    ensures var up: Bits64 := l + 1;
      if Negative(l) then NextUp(Decode(up), Decode(l)) else NextUp(Decode(l), Decode(up))
    ensures Magnitude(l) > 0 ==>
      var down: Bits64 := l - 1;
      if Negative(l) then NextUp(Decode(l), Decode(down)) else NextUp(Decode(down), Decode(l))
  {
    hide DecodeMag, NextUp;
    var m := Magnitude(l);
    NextUpMag(m);
    if m > 0 { NextUpMag(m - 1); }
  }

  /** Strictly between two neighbours, RD and RU are those neighbours. */
  lemma BetweenNeighbours(f: real, g: real, y: real)
    requires NextUp(f, g) && f < y < g
    ensures RD(y) == f && RU(y) == g
  {
    hide Rep, RD;
    RDRep(y);
    RURep(y);
    RDGreatest(y, f);
    RULeast(y, g);
  }

  /** When f = RN(f + d), the distance |d| is at most half the gap on that side. */
  lemma HalfGap(f: real, g: real, d: real)
    requires Rep(g) && f == RN(f + d)
    requires (d > 0.0 && g > f) || (d < 0.0 && g < f)
    ensures 2.0 * Abs(d) <= Abs(g - f)
  {
    hide Rep, RN;
    RNNearest(f + d, g);
  }

  /** Strictly inside both midpoints around f, rounding to nearest gives f. */
  lemma NearestNeighbour(lo: real, f: real, hi: real, y: real)
    requires NextUp(lo, f) && NextUp(f, hi)
    requires lo + f < 2.0 * y < f + hi
    ensures RN(y) == f
  {
    hide Rep, RN;
    RNRep(y);
    RNNearest(y, f);
    var r := RN(y);
    assert r > f ==> hi <= r;
    assert r > lo ==> f <= r;
  }

  /** The neighbours of a positive double, one unit in the last place away; the
      lower unit is the smaller one just above a power of two. */
  lemma PositiveNeighbours(x: real) returns (lo: real, hi: real, e: int)
    requires Rep(x) && x > 0.0
    ensures NextUp(lo, x) && NextUp(x, hi)
    ensures hi == x + Pow2(Cexp(x)) && lo == x - Pow2(e) && lo >= 0.0
    ensures EMIN <= e && (e == Cexp(x) || (e == Cexp(x) - 1 && x == Pow2(Cexp(x) + 52)))
  {
    hide Pow2, Cexp, DecodeMag, EncodeMag, Rep, FloorIndex, Mult, NextUp;
    var m := EncodeMag(x);
    EncodeDecode(x);
    if m == 0 { DecodeZero(); }
    NextUpMag(m);
    NextUpMag(m - 1);
    DecodeSucc(m);
    DecodeSucc(m - 1);
    DecodeMagRep(m - 1);
    lo, hi, e := DecodeMag(m - 1), DecodeMag(m + 1), LastPlace(m - 1);
    PreviousPlace(m);
    if e != Cexp(x) {
      RepGrid(lo, e);
      BelowTop(lo, e);
      DecodeMagRep(m);
    }
  }

  lemma DecodeZero()
    ensures DecodeMag(0) == 0.0
  {
    hide Pow2;
  }

  lemma PreviousPlace(m: nat)
    requires m > 0
    ensures LastPlace(m - 1) == LastPlace(m) || (LastPlace(m - 1) == LastPlace(m) - 1 && m >= FRAC)
  {
  }

  lemma SignificandParity(n: nat)
    ensures Significand(n) % 2 == n % 2
  {
    var q, r := n / FRAC, n % FRAC;
    assert n == q * FRAC + r;
    assert (q * FRAC) % 2 == 0 by { assert q * FRAC == 2 * (q * (FRAC / 2)); }
  }

  /** Half way between two consecutive patterns, the even one is the rounding. */
  lemma PatternMidpoint(n: nat)
    ensures RN((DecodeMag(n) + DecodeMag(n + 1)) / 2.0) == DecodeMag(if n % 2 == 0 then n else n + 1)
  {
    hide Pow2, FloorIndex, Mult, Cexp, RN, RD, RU, Rep, Significand, LastPlace;
    var c, f, z := LastPlace(n), DecodeMag(n), (DecodeMag(n) + DecodeMag(n + 1)) / 2.0;
    DecodeSucc(n);
    Pow2Succ(c - 1);
    assert z == f + Pow2(c - 1);
    DecodeMagRep(n);
    RepGrid(f, c);
    BelowTop(f, c);
    CexpLe(z, c);
    CexpMono(f, z);
    FloorOfHalf(z, Significand(n), c);
    FloorIsDown(z, Significand(n), c);
    UpperNeighbour(z);
    MidpointParity(z);
    SignificandParity(n);
  }
}
