/**
 Double-double arithmetic: sums, products and multiply-adds of unevaluated
 pairs, with their relative error bounds.
 */
module DoubleDouble {
  import opened Dyadic
  import opened Rounding
  import opened ErrorFree
  import opened Product

  /** A pair whose low part is at most half a unit in the last place of the high one. */
  ghost predicate IsDD(x: Pair) {
    Rep(x.h) && Rep(x.l) && Abs(x.l) <= Eps(Abs(x.h))
  }

  /** A pair whose high part is its own sum rounded to nearest. */
  ghost predicate Normalised(x: Pair) {
    Rep(x.h) && Rep(x.l) && x.h == RN(x.h + x.l)
  }

  function Value(x: Pair): real {
    x.h + x.l
  }

  lemma NormalisedIsDD(x: Pair)
    requires Normalised(x)
    ensures IsDD(x)
  {
    hide Pow2, FloorIndex, Mult, Cexp, RN, Rep;
    var s := x.h + x.l;
    var c := Cexp(s);
    RepGrid(x.h, EMIN);
    RepGrid(x.l, EMIN);
    GridSum(x.h, x.l, EMIN);
    if Abs(s) < Pow2(c + 52) {
      assert c == EMIN;
      RepIntro(s, EMIN);
      RNExact(s);
    } else {
      RNError(s);
      HalfUlp(c);
      RepPow2(c + 52);
      RNMagnitude(s, Pow2(c + 52));
    }
  }

  // ---------------------------------------------------------- the operators

  /** The closing fast two-sum, in the form Add22 and Mul22 write it. */
  function Closed(r: real, s: real): Pair {
    var zh := RN(r + s);
    Pair(zh, RN(RN(r - zh) + s))
  }

  /** zh + zl ~ (xh+xl) + (yh+yl) for |xh| >= |yh|. */
  function Add22(x: Pair, y: Pair): Pair {
    var r := RN(x.h + y.h);
    var s := RN(RN(RN(RN(x.h - r) + y.h) + y.l) + x.l);
    Closed(r, s)
  }

  /** zh + zl ~ (xh+xl) * (yh+yl). */
  function Mul22(x: Pair, y: Pair): Pair {
    var mh := FMul(x.h, y.h);
    var ml := LowPart(mh, Split(x.h), Split(y.h));
    var ml' := RN(ml + RN(FMul(x.h, y.l) + FMul(x.l, y.h)));
    Closed(mh, ml')
  }

  /** resh + resl ~ a * (bh+bl). */
  function Mul122(a: real, b: Pair): Pair {
    var t := Mul12(a, b.h);
    var t3 := FMul(a, b.l);
    var t4 := RN(t.l + t3);
    Add12(t.h, t4)
  }

  /** resh + resl ~ (ch+cl) + a * (bh+bl). */
  function MulAdd212(c: Pair, a: real, b: Pair): Pair {
    var t12 := Mul12(a, b.h);
    var t34 := Add12(c.h, t12.h);
    var t5 := FMul(b.l, a);
    var t6 := RN(c.l + t12.l);
    var t7 := RN(t5 + t6);
    var t8 := RN(t7 + t34.l);
    Add12(t34.h, t8)
  }

  /** resh + resl ~ (ch+cl) + (ah+al) * (bh+bl). */
  function MulAdd22(c: Pair, a: Pair, b: Pair): Pair {
    var t12 := Mul12(a.h, b.h);
    var t34 := Add12(c.h, t12.h);
    var t5 := FMul(a.h, b.l);
    var t6 := FMul(a.l, b.h);
    var t7 := RN(t12.l + c.l);
    var t8 := RN(t34.l + t7);
    var t9 := RN(t5 + t6);
    var t10 := RN(t8 + t9);
    Add12(t34.h, t10)
  }

  // ------------------------------------------------------------ error algebra

  /** v approximates z with a relative error of at most k * 2^-106. */
  ghost predicate Near(v: real, z: real, k: real) {
    Abs(v - z) <= Eps(Eps(k * Abs(z)))
  }

  lemma NearIs(v: real, z: real, k: real, kz: real)
    requires kz == k * Abs(z)
    ensures Near(v, z, k) <==> Abs(v - z) <= Eps(Eps(kz))
  {
  }

  lemma NearWeaken(v: real, z: real, k: real, n: real)
    requires Near(v, z, k) && k <= n
    ensures Near(v, z, n)
  {
    AbsNonneg(z);
    MulLe(k, n, Abs(z));
  }

  /** Half the least subnormal: the absolute part of an underflowing error. */
  ghost function Eta(): (e: real)
    ensures e > 0.0
  {
    Pow2(EMIN - 1)
  }

  /** The smallest product for which underflow is ruled out everywhere below. */
  ghost function Tiny(): (t: real)
    ensures t > 0.0
  {
    Pow2(EMIN + 114)
  }

  lemma EtaSmall()
    ensures 512.0 * Eta() <= Eps(Eps(Tiny()))
    ensures Pow2(EMIN + 105) <= Tiny()
  {
    hide Pow2;
    UnitRoundoff();
    SmallPowers();
    Pow2Add(EMIN - 1, 8);
    Pow2Succ(EMIN + 7);
    Pow2Add(-53, -53);
    Pow2Add(-106, EMIN + 114);
    Pow2Mono(EMIN + 105, EMIN + 114);
  }

  lemma FMulError(x: real, y: real, z: real)
    requires z == x * y
    ensures Abs(FMul(x, y) - z) <= Eps(Abs(z)) + Eta()
  {
    hide RN, Cexp, Pow2;
    FMulIs(x, y, z);
    RNBound(z);
  }

  /** Replacing the factor h of a = x * h by a low part y shrinks the product. */
  lemma CrossTerm(z: real, x: real, y: real, h: real, a: real)
    requires z == x * y && a == x * h && Abs(y) <= Eps(Abs(h))
    ensures Abs(z) <= Eps(Abs(a))
  {
    AbsMul(x, h);
    AbsMul(x, y);
    EpsTimes(Abs(y), Abs(h), Abs(x));
  }

  lemma EpsTimes(y: real, h: real, x: real)
    requires y <= Eps(h) && x >= 0.0
    ensures x * y <= Eps(x * h)
  {
    MulLe(9007199254740992.0 * y, h, x);
    assert (9007199254740992.0 * y) * x == 9007199254740992.0 * (x * y);
  }

  lemma Closing(r: real, s: real)
    requires Rep(r) && Rep(s) && Abs(s) <= Abs(r)
    ensures Value(Closed(r, s)) == r + s && Normalised(Closed(r, s))
  {
    hide Pow2, FloorIndex, Mult, Grid, Cexp, RN, Rep, Value, Closed, Normalised;
    ClosingAligned(r, s);
  }

  /** The closing step is exact whenever the fast two-sum is. */
  lemma ClosingAligned(r: real, s: real)
    requires Rep(r) && Rep(s) && Aligned(r, s)
    ensures Value(Closed(r, s)) == r + s && Normalised(Closed(r, s))
  {
    hide Pow2, FloorIndex, Mult, Cexp, RN, Rep, Aligned;
    Add12Condition(r, s);
    var z := RN(r + s);
    RNNeg(z - r);
    assert -(z - r) == r - z;
    assert RN(r - z) + s == s - RN(z - r);
    RNRep(r + s);
    RNRep(s - RN(z - r));
  }

  // -------------------------------------------------------------------- Add22

  lemma Add22Budget(xh: real, xl: real, yh: real, yl: real, e: real, s1: real, s: real, t: real)
    requires t == Abs(xh + yh) && 2.0 * Abs(yh) + Abs(xh) <= 5.0 * t
    requires Abs(xl) <= Eps(Abs(xh)) && Abs(yl) <= Eps(Abs(yh)) && Abs(e) <= Eps(t)
    requires Abs(s1 - (e + yl)) <= Eps(Abs(e + yl))
    requires Abs(s - (s1 + xl)) <= Eps(Abs(s1 + xl))
    ensures Abs(s - (e + yl + xl)) <= Eps(Eps(8.0 * Abs(xh + xl + (yh + yl))))
    ensures Abs(s) <= t / 2.0
  {
    hide Abs;
    Triangle(e, yl, e + yl);
    Triangle(s1 - (e + yl), e + yl, s1);
    Triangle(s1, xl, s1 + xl);
    Triangle(s - (s1 + xl), s1 + xl, s);
    Triangle(s - (s1 + xl), s1 - (e + yl), s - (e + yl + xl));
    Triangle(xl, yl, xl + yl);
    Triangle(xh + yh, xl + yl, xh + xl + (yh + yl));
  }

  /** The first two subtractions of Add22 recover the error of xh + yh exactly. */
  lemma Add22Recover(xh: real, yh: real)
    requires Rep(xh) && Rep(yh) && Abs(yh) <= Abs(xh)
    ensures var r := RN(xh + yh);
      RN(RN(xh - r) + yh) == xh + yh - r && Rep(xh + yh - r) && Rep(r)
      && Abs(xh + yh - r) <= Eps(Abs(xh + yh))
  {
    hide Pow2, FloorIndex, Mult, Cexp, RN, Rep;
    var r := RN(xh + yh);
    FastStep(xh, yh);
    RepNeg(r - xh);
    assert -(r - xh) == xh - r;
    RNExact(xh - r);
    SumErrorRep(xh, yh);
    assert xh - r + yh == xh + yh - r;
    RNExact(xh + yh - r);
    RNSum(xh, yh);
    RNRep(xh + yh);
  }

  /** The intermediate values of Add22: r and s are what the closing step adds. */
  lemma Add22Trace(x: Pair, y: Pair) returns (r: real, e: real, s1: real, s: real)
    requires IsDD(x) && IsDD(y) && Abs(y.h) <= Abs(x.h)
    ensures r == RN(x.h + y.h) && Rep(r) && Rep(s) && r + e == x.h + y.h && Abs(e) <= Eps(Abs(x.h + y.h))
    ensures Abs(s1 - (e + y.l)) <= Eps(Abs(e + y.l))
    ensures Abs(s - (s1 + x.l)) <= Eps(Abs(s1 + x.l))
    ensures Add22(x, y) == Closed(r, s)
  {
    hide Pow2, FloorIndex, Mult, Cexp, RN, Rep, Abs, Eps;
    r := RN(x.h + y.h);
    e := x.h + y.h - r;
    s1 := RN(e + y.l);
    s := RN(s1 + x.l);
    Add22Recover(x.h, y.h);
    RNSum(e, y.l);
    RNRep(e + y.l);
    RNSum(s1, x.l);
    RNRep(s1 + x.l);
  }

  /**
   Add22 has a relative error below 2^-103 and returns a normalised pair,
   provided the high parts do not cancel: 2|yh| + |xh| <= 5|xh + yh|.
   */
  lemma Add22Error(x: Pair, y: Pair)
    requires IsDD(x) && IsDD(y) && Abs(y.h) <= Abs(x.h)
    requires 2.0 * Abs(y.h) + Abs(x.h) <= 5.0 * Abs(x.h + y.h)
    ensures Near(Value(Add22(x, y)), Value(x) + Value(y), 8.0)
    ensures Normalised(Add22(x, y))
  {
    hide Rep, RN, Add22, Abs, Closed;
    var r, e, s1, s := Add22Trace(x, y);
    var t := Abs(x.h + y.h);
    Add22Budget(x.h, x.l, y.h, y.l, e, s1, s, t);
    Triangle(r, e, x.h + y.h);
    Closing(r, s);
    assert r + s - (Value(x) + Value(y)) == s - (e + y.l + x.l);
  }

  /** Summands of the same sign never cancel. */
  lemma Add22SameSign(x: Pair, y: Pair)
    requires IsDD(x) && IsDD(y) && Abs(y.h) <= Abs(x.h)
    requires (x.h >= 0.0 && y.h >= 0.0) || (x.h <= 0.0 && y.h <= 0.0)
    ensures Near(Value(Add22(x, y)), Value(x) + Value(y), 8.0)
    ensures Normalised(Add22(x, y))
  {
    hide Rep, RN, Add22, Normalised;
    Add22Error(x, y);
  }

  lemma TotalBudget(xh: real, xl: real, yh: real, yl: real, r: real, e: real, s1: real, s: real)
    requires Abs(yh) <= Abs(xh) && Abs(xl) <= Eps(Abs(xh)) && Abs(yl) <= Eps(Abs(yh))
    requires r + e == xh + yh && Abs(e) <= Eps(Abs(xh + yh))
    requires Abs(s1 - (e + yl)) <= Eps(Abs(e + yl))
    requires Abs(s - (s1 + xl)) <= Eps(Abs(s1 + xl))
    ensures Abs(s - (e + yl + xl)) <= Eps(Eps(5.0 * (Abs(xh + xl) + Abs(yh + yl))))
    ensures Abs(s) <= Abs(r) || Abs(s) <= Eps(4.1 * Abs(yh))
  {
    hide Abs;
    Triangle(xh, yh, xh + yh);
    Triangle(e, yl, e + yl);
    Triangle(s1 - (e + yl), e + yl, s1);
    Triangle(s1, xl, s1 + xl);
    Triangle(s - (s1 + xl), s1 + xl, s);
    Triangle(s - (s1 + xl), s1 - (e + yl), s - (e + yl + xl));
    Triangle(xh, xl, xh + xl);
    Triangle(yh, yl, yh + yl);
    Triangle(r, e, xh + yh);
    Cancels(xh, yh);
  }

  /** A small sum needs operands of nearly equal size. */
  lemma Cancels(xh: real, yh: real)
    ensures Abs(yh) >= Abs(xh) - Abs(xh + yh)
  {
  }

  /**
   Without any condition on cancellation, the error of Add22 is below 5 units of
   2^-106 of |x| + |y|, and the result is normalised. The closing step stays
   exact even when the low words outweigh what is left of the high ones: the
   latter is then a multiple of the last place of the former.
   */
  lemma Add22Total(x: Pair, y: Pair)
    requires IsDD(x) && IsDD(y) && Abs(y.h) <= Abs(x.h)
    ensures var v := Value(Add22(x, y));
      Abs(v - (Value(x) + Value(y))) <= Eps(Eps(5.0 * (Abs(Value(x)) + Abs(Value(y)))))
    ensures Normalised(Add22(x, y))
  {
    hide Pow2, FloorIndex, Mult, Grid, Cexp, RN, Rep, Add22, Closed, Normalised, Abs;
    var r, e, s1, s := Add22Trace(x, y);
    TotalBudget(x.h, x.l, y.h, y.l, r, e, s1, s);
    if Abs(s) <= Abs(r) {
      Closing(r, s);
    } else {
      HighOnGrid(x.h, y.h, r);
      LowBelow(s, y.h);
      GridCoarser(r, Cexp(y.h), Cexp(s));
      ClosingAligned(r, s);
    }
    assert r + s - (Value(x) + Value(y)) == s - (e + y.l + x.l);
  }

  lemma HighOnGrid(xh: real, yh: real, r: real)
    requires Rep(xh) && Rep(yh) && Abs(yh) <= Abs(xh) && r == RN(xh + yh)
    ensures Grid(r, Cexp(yh))
  {
    hide Pow2, FloorIndex, Mult, Grid, Cexp, RN, Rep;
    SumErrorRep(xh, yh);
  }

  lemma LowBelow(s: real, y: real)
    requires Abs(s) <= Eps(4.1 * Abs(y))
    ensures Cexp(s) <= Cexp(y)
  {
    hide Pow2, Cexp;
    CexpLe(s, Cexp(y));
  }

  lemma CancelledSum()
    ensures RN(Pow2(-108) + Pow2(-54)) == Pow2(-54)
    ensures Rep(Pow2(-54)) && Rep(Pow2(-108)) && Rep(1.0) && Rep(-1.0)
    ensures Pow2(-108) == Eps(Pow2(-54)) / 2.0 && Pow2(-54) == Eps(0.5)
  {
    hide Pow2, FloorIndex, Mult, Cexp, RN, Rep;
    var x, b := Pow2(-108) + Pow2(-54), Pow2(-54);
    UnitRoundoff();
    Pow2Zero();
    Pow2Succ(-54);
    Pow2Add(-54, -54);
    RepPow2(0);
    RepNeg(1.0);
    RepPow2(-54);
    RepPow2(-108);
    Pow2Mono(-108, -107);
    Pow2Mono(-107, -106);
    CexpIs(x, -106);
    RNNearest(x, b);
    RNRep(x);
    GridPow2(-54, -106);
    if RN(x) < b { GridApart(RN(x), b, -106); }
    if RN(x) > b { GridApart(b, RN(x), -106); }
  }

  lemma CancelledAdd()
    ensures Add22(Pair(1.0, Pow2(-54)), Pair(-1.0, Pow2(-108))) == Pair(Pow2(-54), 0.0)
  {
    hide Pow2, RN, Rep, Eps;
    CancelledSum();
    var t := Pow2(-54);
    RepZero();
    RNExact(0.0);
    RNExact(1.0);
    RNExact(Pow2(-108));
    RNExact(t);
    RepNeg(t);
    RNExact(-t);
  }

  /** The order xh > yh alone does not give the error bound: when the high parts
      cancel, a whole low word can be lost. Here the relative error exceeds
      2^52 - 1 units of 2^-106, which is 2^-54 to within one unit. */
  lemma CancellationFails()
    ensures var x, y := Pair(1.0, Pow2(-54)), Pair(-1.0, Pow2(-108));
      && IsDD(x) && IsDD(y) && x.h > y.h && Abs(y.h) <= Abs(x.h)
      && !Near(Value(Add22(x, y)), Value(x) + Value(y), 4503599627370495.0)
  {
    hide Pow2, RN, Rep, Add22;
    CancelledSum();
    CancelledAdd();
  }

  // -------------------------------------------------------------------- Mul22

  lemma FiveErrors(x: real, e1: real, e2: real, e3: real, e4: real, e5: real)
    requires x == e1 + e2 + e3 + e4 + e5
    ensures Abs(x) <= Abs(e1) + Abs(e2) + Abs(e3) + Abs(e4) + Abs(e5)
  {
  }

  lemma SevenErrors(x: real, e1: real, e2: real, e3: real, e4: real, e5: real, e6: real, e7: real)
    requires x == e1 + e2 + e3 + e4 + e5 + e6 + e7
    ensures Abs(x) <= Abs(e1) + Abs(e2) + Abs(e3) + Abs(e4) + Abs(e5) + Abs(e6) + Abs(e7)
  {
  }

  /** The four rounding errors of Mul22 and the dropped product, against z = a + low. */
  lemma Mul22Close(a: real, p: real, low: real, x: real, e1: real, e2: real, e3: real, e4: real, d: real)
    requires p == Abs(a) && Abs(low) <= Eps(2.3 * p) && x - (a + low) == e1 + e2 + e3 + e4 - d
    requires Abs(e1) <= Eps(Eps(1.01 * p)) && Abs(e2) <= Eps(Eps(1.21 * p)) && Abs(e3) <= Eps(Eps(2.21 * p))
    requires Abs(e4) <= Eps(Eps(3.21 * p)) && Abs(d) <= Eps(Eps(1.2 * p))
    ensures Near(x, a + low, 9.0)
  {
    hide Abs;
    FiveErrors(x - (a + low), e1, e2, e3, e4, -d);
    AbsNeg(d);
    AbsNonneg(a);
    Triangle(a, low, a + low);
  }

  /** The first factor may be slightly unnormalised: c is up to 1.2 * 2^-53 of a. */
  lemma Mul22Sizes(p: real, ml0: real, b: real, b1: real, c: real, c1: real, t: real, ml: real, eta: real)
    requires p >= 0.0 && Abs(ml0) <= Eps(p) && Abs(b) <= Eps(p) && Abs(c) <= Eps(1.2 * p)
    requires Abs(b1 - b) <= Eps(Abs(b)) + eta && Abs(c1 - c) <= Eps(Abs(c)) + eta
    requires Abs(t - (b1 + c1)) <= Eps(Abs(b1 + c1)) && Abs(ml - (ml0 + t)) <= Eps(Abs(ml0 + t))
    requires 512.0 * eta <= Eps(Eps(p))
    ensures Abs(b1 - b) <= Eps(Eps(1.01 * p)) && Abs(c1 - c) <= Eps(Eps(1.21 * p))
    ensures Abs(t - (b1 + c1)) <= Eps(Eps(2.21 * p)) && Abs(ml - (ml0 + t)) <= Eps(Eps(3.21 * p))
    ensures Abs(ml) <= p / 2.0
  {
    hide Abs;
    Triangle(b1 - b, b, b1);
    Triangle(c1 - c, c, c1);
    Triangle(b1, c1, b1 + c1);
    Triangle(t - (b1 + c1), b1 + c1, t);
    Triangle(ml0, t, ml0 + t);
    Triangle(ml - (ml0 + t), ml0 + t, ml);
  }

  lemma Mul22Budget(a: real, mh: real, ml0: real, b: real, b1: real, c: real, c1: real, d: real,
                    t: real, ml: real, p: real, eta: real)
    requires p == Abs(a) && mh + ml0 == a && Abs(ml0) <= Eps(p)
    requires Abs(b) <= Eps(p) && Abs(c) <= Eps(1.2 * p) && Abs(d) <= Eps(Eps(1.2 * p))
    requires Abs(b1 - b) <= Eps(Abs(b)) + eta && Abs(c1 - c) <= Eps(Abs(c)) + eta
    requires Abs(t - (b1 + c1)) <= Eps(Abs(b1 + c1)) && Abs(ml - (ml0 + t)) <= Eps(Abs(ml0 + t))
    requires 512.0 * eta <= Eps(Eps(p))
    ensures Near(mh + ml, a + b + c + d, 9.0)
    ensures Abs(ml) <= p / 2.0
  {
    hide Abs, Near;
    AbsNonneg(a);
    Mul22Sizes(p, ml0, b, b1, c, c1, t, ml, eta);
    Triangle(b, c, b + c);
    Triangle(b + c, d, b + c + d);
    var low := b + c + d;
    assert a + low == a + b + c + d;
    Mul22Close(a, p, low, mh + ml, b1 - b, c1 - c, t - (b1 + c1), ml - (ml0 + t), d);
  }

  /** The intermediate values of Mul22. */
  lemma Mul22Trace(x: Pair, y: Pair, a: real, b: real, c: real)
      returns (mh: real, ml0: real, b1: real, c1: real, t: real, ml: real)
    requires Rep(x.h) && Rep(x.l) && Rep(y.h) && Rep(y.l) && Abs(a) >= Tiny()
    requires a == x.h * y.h && b == x.h * y.l && c == x.l * y.h
    ensures Rep(mh) && Rep(ml) && mh + ml0 == a && Abs(ml0) <= Eps(Abs(a))
    ensures Abs(b1 - b) <= Eps(Abs(b)) + Eta() && Abs(c1 - c) <= Eps(Abs(c)) + Eta()
    ensures Abs(t - (b1 + c1)) <= Eps(Abs(b1 + c1))
    ensures Abs(ml - (ml0 + t)) <= Eps(Abs(ml0 + t))
    ensures Mul22(x, y) == Closed(mh, ml)
  {
    hide Pow2, FloorIndex, Mult, Cexp, RN, Rep, FMul, LowPart, Split, Tiny, Eta, Abs, Eps, Closed;
    EtaSmall();
    NoUnderflow(a, x.h, y.h);
    Mul12Exact(x.h, y.h, a);
    FMulError(x.h, y.l, b);
    FMulError(x.l, y.h, c);
    HighError(a);
    MachineProducts(x.h, y.l);
    MachineProducts(x.l, y.h);
    b1, c1 := FMul(x.h, y.l), FMul(x.l, y.h);
    mh := RN(a);
    ml0 := a - mh;
    t := RN(b1 + c1);
    ml := RN(ml0 + t);
    RNSum(b1, c1);
    RNRep(b1 + c1);
    RNSum(ml0, t);
    RNRep(ml0 + t);
    RNRep(a);
  }

  /** Mul22 has a relative error below 2^-102 and returns a normalised pair. */
  lemma Mul22Error(x: Pair, y: Pair, z: real)
    requires IsDD(x) && IsDD(y) && Abs(x.h * y.h) >= Tiny()
    requires z == Value(x) * Value(y)
    ensures Near(Value(Mul22(x, y)), z, 9.0)
    ensures Normalised(Mul22(x, y))
  {
    hide RN, Rep, Tiny, Eta, Abs, Closed, Mul22;
    var a, b, c, d := x.h * y.h, x.h * y.l, x.l * y.h, x.l * y.l;
    EtaSmall();
    Expand(x.h, x.l, y.h, y.l, z);
    CrossTerm(b, x.h, y.l, y.h, a);
    CrossTerm(c, y.h, x.l, x.h, a);
    CrossTerm(d, x.l, y.l, y.h, c);
    var mh, ml0, b1, c1, t, ml := Mul22Trace(x, y, a, b, c);
    Mul22Budget(a, mh, ml0, b, b1, c, c1, d, t, ml, Abs(a), Eta());
    Triangle(mh, ml0, a);
    Closing(mh, ml);
    assert Value(Mul22(x, y)) == mh + ml;
    assert z == a + b + c + d;
  }

  lemma MachineProducts(x: real, y: real)
    ensures Rep(FMul(x, y))
  {
    hide RN, Rep;
    RNRep(x * y);
  }

  lemma HighError(a: real)
    requires Abs(a) >= Tiny()
    ensures Abs(a - RN(a)) <= Eps(Abs(a))
  {
    hide Pow2, FloorIndex, Mult, Cexp, RN;
    Pow2Mono(EMIN + 52, EMIN + 114);
    RNRelative(a);
  }

  // ------------------------------------------------------- Mul122, MulAdd212

  /** Fast two-sum as a closing step: its result is a normalised pair. */
  lemma Add12Normalised(r: real, s: real)
    requires Rep(r) && Rep(s) && Abs(s) <= Abs(r)
    ensures Value(Add12(r, s)) == r + s && Normalised(Add12(r, s))
  {
    hide Pow2, FloorIndex, Mult, Cexp, RN, Rep;
    Add12Exact(r, s);
    RNRep(r + s);
    RNRep(s - RN(RN(r + s) - r));
  }

  lemma Mul122Budget(p: real, t1: real, t2: real, q: real, t3: real, t4: real, eta: real)
    requires t1 + t2 == p && Abs(t2) <= Eps(Abs(p)) && Abs(q) <= Eps(Abs(p))
    requires Abs(t3 - q) <= Eps(Abs(q)) + eta
    requires Abs(t4 - (t2 + t3)) <= Eps(Abs(t2 + t3))
    requires 512.0 * eta <= Eps(Eps(Abs(p)))
    ensures Near(t1 + t4, p + q, 4.0)
    ensures Abs(t4) <= Abs(t1)
  {
    hide Abs;
    Triangle(t3 - q, q, t3);
    Triangle(t2, t3, t2 + t3);
    Triangle(t4 - (t2 + t3), t2 + t3, t4);
    Triangle(t4 - (t2 + t3), t3 - q, t1 + t4 - (p + q));
    Triangle(p, q, p + q);
    Triangle(t1, t2, p);
  }

  /** Mul122 has a relative error below 2^-102 and returns a normalised pair. */
  lemma Mul122Error(a: real, b: Pair, z: real)
    requires Rep(a) && IsDD(b) && Abs(a * b.h) >= Tiny()
    requires z == a * Value(b)
    ensures Near(Value(Mul122(a, b)), z, 4.0)
    ensures Normalised(Mul122(a, b))
  {
    hide Pow2, FloorIndex, Mult, Cexp, RN, Rep, FMul, Tiny, Eta, Abs, Mul12, Add12;
    var p, q := a * b.h, a * b.l;
    EtaSmall();
    NoUnderflow(p, a, b.h);
    Mul12Exact(a, b.h, p);
    var v := Value(b);
    Distribute(v, b.h, b.l, a);
    assert z == p + q;
    CrossTerm(q, a, b.l, b.h, p);
    FMulError(a, b.l, q);
    MachineProducts(a, b.l);
    HighError(p);
    var t1, t2, t3 := RN(p), p - RN(p), FMul(a, b.l);
    var t4 := RN(t2 + t3);
    RNSum(t2, t3);
    RNRep(t2 + t3);
    RNRep(p);
    Mul122Budget(p, t1, t2, q, t3, t4, Eta());
    Add12Normalised(t1, t4);
  }

  /** A product that vanishes or is clear of underflow. */
  ghost predicate Clear(p: real) {
    p == 0.0 || Abs(p) >= Tiny()
  }

  /** The sizes of the intermediate errors of MulAdd212, in units of |ch|. */
  lemma MulAdd212Sizes(m: real, ch: real, cl: real, p: real, t1: real, t2: real, q: real, t5: real,
                       t3: real, t4: real, t6: real, t7: real, t8: real, eta: real)
    requires m == Abs(ch) && Abs(cl) <= Eps(m) && Abs(p) <= 0.251 * m
    requires t1 + t2 == p && Abs(t2) <= Eps(Abs(p)) && Abs(q) <= Eps(Abs(p))
    requires Abs(t5 - q) <= Eps(Abs(q)) + eta
    requires t3 + t4 == ch + t1 && Abs(t4) <= Eps(Abs(ch + t1))
    requires Abs(t6 - (cl + t2)) <= Eps(Abs(cl + t2))
    requires Abs(t7 - (t5 + t6)) <= Eps(Abs(t5 + t6))
    requires Abs(t8 - (t7 + t4)) <= Eps(Abs(t7 + t4))
    requires 512.0 * eta <= Eps(Eps(m))
    ensures Abs(t5 - q) <= Eps(Eps(0.26 * m)) && Abs(t6 - (cl + t2)) <= Eps(Eps(1.26 * m))
    ensures Abs(t7 - (t5 + t6)) <= Eps(Eps(1.53 * m)) && Abs(t8 - (t7 + t4)) <= Eps(Eps(2.8 * m))
    ensures Abs(t8) <= Eps(2.9 * m) && Abs(t4) <= Eps(1.26 * m)
  {
    hide Abs;
    Triangle(t1, t2, p);
    Triangle(ch, t1, ch + t1);
    Triangle(cl, t2, cl + t2);
    assert Abs(t4) <= Eps(1.26 * m) && Abs(cl + t2) <= Eps(1.26 * m);
    Triangle(t5 - q, q, t5);
    Triangle(t6 - (cl + t2), cl + t2, t6);
    Triangle(t5, t6, t5 + t6);
    assert Abs(t5 + t6) <= Eps(1.53 * m);
    Triangle(t7 - (t5 + t6), t5 + t6, t7);
    Triangle(t7, t4, t7 + t4);
    assert Abs(t7 + t4) <= Eps(2.8 * m);
    Triangle(t8 - (t7 + t4), t7 + t4, t8);
  }

  lemma MulAdd212Budget(ch: real, cl: real, p: real, t1: real, t2: real, q: real, t5: real,
                        t3: real, t4: real, t6: real, t7: real, t8: real, eta: real)
    requires Abs(cl) <= Eps(Abs(ch)) && Abs(p + q) <= 0.25 * Abs(ch + cl)
    requires t1 + t2 == p && Abs(t2) <= Eps(Abs(p)) && Abs(q) <= Eps(Abs(p))
    requires Abs(t5 - q) <= Eps(Abs(q)) + eta
    requires t3 + t4 == ch + t1 && Abs(t4) <= Eps(Abs(ch + t1))
    requires Abs(t6 - (cl + t2)) <= Eps(Abs(cl + t2))
    requires Abs(t7 - (t5 + t6)) <= Eps(Abs(t5 + t6))
    requires Abs(t8 - (t7 + t4)) <= Eps(Abs(t7 + t4))
    requires 512.0 * eta <= Eps(Eps(Abs(ch)))
    ensures Near(t3 + t8, ch + cl + (p + q), 9.0)
    ensures Abs(t8) <= Abs(t3)
  {
    hide Abs;
    var m := Abs(ch);
    Triangle(p, q, p + q);
    Triangle(ch, cl, ch + cl);
    MulAdd212Sizes(m, ch, cl, p, t1, t2, q, t5, t3, t4, t6, t7, t8, eta);
    Triangle(t1, t2, p);
    Triangle(ch, t1, ch + t1);
    Triangle(t3, t4, ch + t1);
    var e6, e7, e8 := t6 - (cl + t2), t7 - (t5 + t6), t8 - (t7 + t4);
    Triangle(t5 - q, e6, t5 - q + e6);
    Triangle(t5 - q + e6, e7, t5 - q + e6 + e7);
    Triangle(t5 - q + e6 + e7, e8, t3 + t8 - (ch + cl + (p + q)));
    Triangle(ch + cl, p + q, ch + cl + (p + q));
  }

  /** |a * bh| never exceeds |ch| under the MulAdd212 precondition. */
  lemma AddendSmall(ch: real, cl: real, p: real, q: real, t1: real, t2: real)
    requires Abs(cl) <= Eps(Abs(ch)) && Abs(p + q) <= 0.25 * Abs(ch + cl)
    requires t1 + t2 == p && Abs(t2) <= Eps(Abs(p)) && Abs(q) <= Eps(Abs(p))
    ensures Abs(t1) <= Abs(ch)
  {
    hide Abs;
    Triangle(p, q, p + q);
    Triangle(ch, cl, ch + cl);
    Triangle(t1, t2, p);
  }

  /** The product step of MulAdd212, also for a vanishing product. */
  lemma ClearProduct(a: real, b: Pair, p: real, q: real)
    requires Rep(a) && IsDD(b) && p == a * b.h && Clear(p) && q == a * b.l
    ensures Mul12(a, b.h) == Pair(RN(p), p - RN(p))
    ensures Rep(RN(p)) && Rep(p - RN(p)) && Abs(p - RN(p)) <= Eps(Abs(p))
    ensures Abs(q) <= Eps(Abs(p))
  {
    hide Pow2, FloorIndex, Mult, Cexp, RN, Rep, FMul, Tiny, Mul12;
    EtaSmall();
    CrossTerm(q, a, b.l, b.h, p);
    if p != 0.0 {
      NoUnderflow(p, a, b.h);
      HighError(p);
    } else {
      RepZero();
      RNExact(0.0);
    }
    Mul12Exact(a, b.h, p);
    RNRep(p);
  }

  /** The intermediate values of MulAdd212. */
  lemma MulAdd212Trace(c: Pair, a: real, b: Pair, p: real, q: real)
      returns (t1: real, t2: real, t3: real, t4: real, t5: real, t6: real, t7: real, t8: real)
    requires Rep(a) && IsDD(b) && IsDD(c) && p == a * b.h && Clear(p) && q == a * b.l
    requires Abs(p + q) <= 0.25 * Abs(c.h + c.l)
    ensures t1 + t2 == p && Abs(t2) <= Eps(Abs(p)) && Abs(q) <= Eps(Abs(p))
    ensures Abs(t5 - q) <= Eps(Abs(q)) + Eta()
    ensures t3 + t4 == c.h + t1 && Abs(t4) <= Eps(Abs(c.h + t1))
    ensures Abs(t6 - (c.l + t2)) <= Eps(Abs(c.l + t2))
    ensures Abs(t7 - (t5 + t6)) <= Eps(Abs(t5 + t6))
    ensures Abs(t8 - (t7 + t4)) <= Eps(Abs(t7 + t4))
    ensures Rep(t3) && Rep(t8) && MulAdd212(c, a, b) == Add12(t3, t8)
  {
    hide Pow2, FloorIndex, Mult, Cexp, RN, Rep, FMul, Tiny, Eta, Abs, Eps, Mul12, Add12, Clear;
    ClearProduct(a, b, p, q);
    t1, t2 := RN(p), p - RN(p);
    AddendSmall(c.h, c.l, p, q, t1, t2);
    Add12Normalised(c.h, t1);
    Add12High(c.h, t1);
    var s := Add12(c.h, t1);
    t3, t4 := s.h, s.l;
    FMulError(b.l, a, q);
    MachineProducts(b.l, a);
    t5 := FMul(b.l, a);
    t6 := RN(c.l + t2);
    t7 := RN(t5 + t6);
    t8 := RN(t7 + t4);
    RNSum(c.l, t2);
    RNRep(c.l + t2);
    RNSum(t5, t6);
    RNRep(t5 + t6);
    RNSum(t7, t4);
    RNRep(t7 + t4);
  }

  lemma Add12High(r: real, s: real)
    requires Rep(r) && Rep(s) && Abs(s) <= Abs(r)
    ensures Abs(Add12(r, s).l) <= Eps(Abs(r + s))
  {
    hide Pow2, FloorIndex, Mult, Cexp, RN, Rep;
    Add12Exact(r, s);
    RNSum(r, s);
  }

  /**
   MulAdd212 has a relative error below 2^-100 and returns a normalised pair
   whenever w = a * (bh+bl) is at most 1/4 of ch+cl.
   */
  lemma MulAdd212Error(c: Pair, a: real, b: Pair, p: real, w: real)
    requires Rep(a) && IsDD(b) && IsDD(c) && Abs(c.h) >= Tiny()
    requires p == a * b.h && Clear(p)
    requires w == a * Value(b) && Abs(w) <= 0.25 * Abs(Value(c))
    ensures Near(Value(MulAdd212(c, a, b)), Value(c) + w, 9.0)
    ensures Normalised(MulAdd212(c, a, b))
  {
    hide RN, Rep, Tiny, Eta, Abs, Add12, MulAdd212, Clear;
    var q := a * b.l;
    var v := Value(b);
    Distribute(v, b.h, b.l, a);
    assert w == p + q;
    EtaSmall();
    var t1, t2, t3, t4, t5, t6, t7, t8 := MulAdd212Trace(c, a, b, p, q);
    MulAdd212Budget(c.h, c.l, p, t1, t2, q, t5, t3, t4, t6, t7, t8, Eta());
    Add12Normalised(t3, t8);
  }

  // ----------------------------------------------------------------- MulAdd22

  /** The sizes of the intermediate errors of MulAdd22, in units of |ch|. */
  lemma CrossSizes(m: real, p: real, q: real, t5: real, r: real, t6: real, t9: real, eta: real)
    requires Abs(p) <= 0.251 * m && Abs(q) <= Eps(Abs(p)) && Abs(r) <= Eps(Abs(p))
    requires Abs(t5 - q) <= Eps(Abs(q)) + eta && Abs(t6 - r) <= Eps(Abs(r)) + eta
    requires Abs(t9 - (t5 + t6)) <= Eps(Abs(t5 + t6)) && 512.0 * eta <= Eps(Eps(m))
    ensures Abs(t5 - q) <= Eps(Eps(0.26 * m)) && Abs(t6 - r) <= Eps(Eps(0.26 * m))
    ensures Abs(t9 - (t5 + t6)) <= Eps(Eps(0.51 * m)) && Abs(t9) <= Eps(0.506 * m)
  {
    hide Abs;
    AbsNonneg(p);
    Triangle(t5 - q, q, t5);
    Triangle(t6 - r, r, t6);
    Triangle(t5, t6, t5 + t6);
    Triangle(t9 - (t5 + t6), t5 + t6, t9);
  }

  lemma MulAdd22Sizes(m: real, ch: real, cl: real, p: real, t1: real, t2: real, q: real, t5: real, r: real, t6: real,
                      t3: real, t4: real, t7: real, t8: real, t9: real, t10: real, eta: real)
    requires m == Abs(ch) && Abs(cl) <= Eps(m) && Abs(p) <= 0.251 * m
    requires t1 + t2 == p && Abs(t2) <= Eps(Abs(p)) && Abs(q) <= Eps(Abs(p)) && Abs(r) <= Eps(Abs(p))
    requires Abs(t5 - q) <= Eps(Abs(q)) + eta && Abs(t6 - r) <= Eps(Abs(r)) + eta
    requires t3 + t4 == ch + t1 && Abs(t4) <= Eps(Abs(ch + t1))
    requires Abs(t7 - (t2 + cl)) <= Eps(Abs(t2 + cl)) && Abs(t8 - (t4 + t7)) <= Eps(Abs(t4 + t7))
    requires Abs(t9 - (t5 + t6)) <= Eps(Abs(t5 + t6)) && Abs(t10 - (t8 + t9)) <= Eps(Abs(t8 + t9))
    requires 512.0 * eta <= Eps(Eps(m))
    ensures Abs(t5 - q) <= Eps(Eps(0.26 * m)) && Abs(t6 - r) <= Eps(Eps(0.26 * m))
    ensures Abs(t7 - (t2 + cl)) <= Eps(Eps(1.26 * m)) && Abs(t8 - (t4 + t7)) <= Eps(Eps(2.53 * m))
    ensures Abs(t9 - (t5 + t6)) <= Eps(Eps(0.51 * m)) && Abs(t10 - (t8 + t9)) <= Eps(Eps(3.06 * m))
    ensures Abs(t10) <= Eps(3.1 * m) && Abs(t4) <= Eps(1.26 * m)
  {
    hide Abs;
    CrossSizes(m, p, q, t5, r, t6, t9, eta);
    HighSizes(m, ch, cl, p, t1, t2, t3, t4, t7, t8);
    Triangle(t8, t9, t8 + t9);
    Triangle(t10 - (t8 + t9), t8 + t9, t10);
  }

  lemma HighSizes(m: real, ch: real, cl: real, p: real, t1: real, t2: real, t3: real, t4: real, t7: real, t8: real)
    requires m == Abs(ch) && Abs(cl) <= Eps(m) && Abs(p) <= 0.251 * m
    requires t1 + t2 == p && Abs(t2) <= Eps(Abs(p))
    requires t3 + t4 == ch + t1 && Abs(t4) <= Eps(Abs(ch + t1))
    requires Abs(t7 - (t2 + cl)) <= Eps(Abs(t2 + cl)) && Abs(t8 - (t4 + t7)) <= Eps(Abs(t4 + t7))
    ensures Abs(t7 - (t2 + cl)) <= Eps(Eps(1.26 * m)) && Abs(t8 - (t4 + t7)) <= Eps(Eps(2.53 * m))
    ensures Abs(t8) <= Eps(2.526 * m) && Abs(t4) <= Eps(1.26 * m)
  {
    hide Abs;
    AbsNonneg(ch);
    Triangle(t1, t2, p);
    Triangle(ch, t1, ch + t1);
    Triangle(t2, cl, t2 + cl);
    Triangle(t7 - (t2 + cl), t2 + cl, t7);
    Triangle(t4, t7, t4 + t7);
    Triangle(t8 - (t4 + t7), t4 + t7, t8);
  }

  lemma MulAdd22Close(m: real, c: real, w: real, x: real,
                      e5: real, e6: real, e7: real, e8: real, e9: real, e10: real, d: real)
    requires 0.0 <= m <= 1.001 * Abs(c) && Abs(w) <= 0.25 * Abs(c) && x - (c + w) == e5 + e6 + e7 + e8 + e9 + e10 - d
    requires Abs(e5) <= Eps(Eps(0.26 * m)) && Abs(e6) <= Eps(Eps(0.26 * m)) && Abs(e7) <= Eps(Eps(1.26 * m))
    requires Abs(e8) <= Eps(Eps(2.53 * m)) && Abs(e9) <= Eps(Eps(0.51 * m)) && Abs(e10) <= Eps(Eps(3.06 * m))
    requires Abs(d) <= Eps(Eps(0.251 * m))
    ensures Near(x, c + w, 11.0)
  {
    hide Abs;
    SevenErrors(x - (c + w), e5, e6, e7, e8, e9, e10, -d);
    AbsNeg(d);
    Triangle(c, w, c + w);
  }

  lemma MulAdd22High(m: real, ch: real, p: real, t1: real, t2: real, t3: real, t4: real)
    requires m == Abs(ch) && Abs(p) <= 0.251 * m && t1 + t2 == p && Abs(t2) <= Eps(Abs(p))
    requires t3 + t4 == ch + t1 && Abs(t4) <= Eps(1.26 * m)
    ensures Abs(t3) >= Eps(3.1 * m)
  {
    hide Abs;
    AbsNonneg(ch);
    Triangle(t1, t2, p);
    Triangle(ch, t1, ch + t1);
    Triangle(t3, t4, ch + t1);
  }

  lemma MulAdd22Budget(ch: real, cl: real, p: real, t1: real, t2: real, q: real, t5: real, r: real, t6: real, d: real,
                       t3: real, t4: real, t7: real, t8: real, t9: real, t10: real, w: real, eta: real)
    requires w == p + q + r + d && Abs(d) <= Eps(Eps(Abs(p)))
    requires Abs(cl) <= Eps(Abs(ch)) && Abs(w) <= 0.25 * Abs(ch + cl)
    requires t1 + t2 == p && Abs(t2) <= Eps(Abs(p)) && Abs(q) <= Eps(Abs(p)) && Abs(r) <= Eps(Abs(p))
    requires Abs(t5 - q) <= Eps(Abs(q)) + eta && Abs(t6 - r) <= Eps(Abs(r)) + eta
    requires t3 + t4 == ch + t1 && Abs(t4) <= Eps(Abs(ch + t1))
    requires Abs(t7 - (t2 + cl)) <= Eps(Abs(t2 + cl)) && Abs(t8 - (t4 + t7)) <= Eps(Abs(t4 + t7))
    requires Abs(t9 - (t5 + t6)) <= Eps(Abs(t5 + t6)) && Abs(t10 - (t8 + t9)) <= Eps(Abs(t8 + t9))
    requires 512.0 * eta <= Eps(Eps(Abs(ch)))
    ensures Near(t3 + t10, ch + cl + w, 11.0)
    ensures Abs(t10) <= Abs(t3)
  {
    hide Abs;
    var m := Abs(ch);
    Triangle(q, r, q + r);
    Triangle(q + r, d, q + r + d);
    Triangle(p, q + r + d, w);
    Triangle(ch, cl, ch + cl);
    MulAdd22Sizes(m, ch, cl, p, t1, t2, q, t5, r, t6, t3, t4, t7, t8, t9, t10, eta);
    var e5, e6, e7, e8, e9, e10 := t5 - q, t6 - r, t7 - (t2 + cl), t8 - (t4 + t7), t9 - (t5 + t6), t10 - (t8 + t9);
    MulAdd22Close(m, ch + cl, w, t3 + t10, e5, e6, e7, e8, e9, e10, d);
    MulAdd22High(m, ch, p, t1, t2, t3, t4);
  }

  /** |ah * bh| never exceeds |ch| under the precondition. */
  lemma AddendSmall22(ch: real, cl: real, p: real, q: real, r: real, d: real, t1: real, t2: real)
    requires Abs(cl) <= Eps(Abs(ch)) && Abs(p + q + r + d) <= 0.25 * Abs(ch + cl)
    requires t1 + t2 == p && Abs(t2) <= Eps(Abs(p)) && Abs(q) <= Eps(Abs(p)) && Abs(r) <= Eps(Abs(p))
    requires Abs(d) <= Eps(Eps(Abs(p)))
    ensures Abs(t1) <= Abs(ch)
  {
    hide Abs;
    Triangle(q, r, q + r);
    Triangle(q + r, d, q + r + d);
    Triangle(p, q + r + d, p + q + r + d);
    Triangle(ch, cl, ch + cl);
    Triangle(t1, t2, p);
  }

  /** The intermediate values of MulAdd22. */
  lemma MulAdd22Trace(c: Pair, a: Pair, b: Pair, p: real, q: real, r: real, d: real)
      returns (t1: real, t2: real, t3: real, t4: real, t5: real, t6: real, t7: real, t8: real, t9: real, t10: real)
    requires IsDD(a) && IsDD(b) && IsDD(c) && Clear(p)
    requires p == a.h * b.h && q == a.h * b.l && r == a.l * b.h && d == a.l * b.l
    requires Abs(p + q + r + d) <= 0.25 * Abs(c.h + c.l)
    ensures t1 + t2 == p && Abs(t2) <= Eps(Abs(p)) && Abs(q) <= Eps(Abs(p)) && Abs(r) <= Eps(Abs(p))
    ensures Abs(d) <= Eps(Eps(Abs(p)))
    ensures Abs(t5 - q) <= Eps(Abs(q)) + Eta() && Abs(t6 - r) <= Eps(Abs(r)) + Eta()
    ensures t3 + t4 == c.h + t1 && Abs(t4) <= Eps(Abs(c.h + t1))
    ensures Abs(t7 - (t2 + c.l)) <= Eps(Abs(t2 + c.l)) && Abs(t8 - (t4 + t7)) <= Eps(Abs(t4 + t7))
    ensures Abs(t9 - (t5 + t6)) <= Eps(Abs(t5 + t6)) && Abs(t10 - (t8 + t9)) <= Eps(Abs(t8 + t9))
    ensures Rep(t3) && Rep(t10) && MulAdd22(c, a, b) == Add12(t3, t10)
  {
    hide Pow2, FloorIndex, Mult, Cexp, RN, Rep, FMul, Tiny, Eta, Abs, Mul12, Add12, Clear;
    ClearProduct(a.h, b, p, q);
    CrossTerm(r, b.h, a.l, a.h, p);
    CrossTerm(d, a.l, b.l, b.h, r);
    t1, t2 := RN(p), p - RN(p);
    AddendSmall22(c.h, c.l, p, q, r, d, t1, t2);
    Add12Normalised(c.h, t1);
    Add12High(c.h, t1);
    var s := Add12(c.h, t1);
    t3, t4 := s.h, s.l;
    FMulError(a.h, b.l, q);
    FMulError(a.l, b.h, r);
    MachineProducts(a.h, b.l);
    MachineProducts(a.l, b.h);
    t5, t6 := FMul(a.h, b.l), FMul(a.l, b.h);
    t7 := RN(t2 + c.l);
    t8 := RN(t4 + t7);
    t9 := RN(t5 + t6);
    t10 := RN(t8 + t9);
    RNSum(t2, c.l);
    RNRep(t2 + c.l);
    RNSum(t4, t7);
    RNRep(t4 + t7);
    RNSum(t5, t6);
    RNRep(t5 + t6);
    RNSum(t8, t9);
    RNRep(t8 + t9);
  }

  /** MulAdd22 has a relative error below 2^-102 and returns a normalised pair
      whenever w = (ah+al) * (bh+bl) is at most 1/4 of ch+cl. */
  lemma MulAdd22Error(c: Pair, a: Pair, b: Pair, p: real, w: real)
    requires IsDD(a) && IsDD(b) && IsDD(c) && Abs(c.h) >= Tiny() && p == a.h * b.h && Clear(p)
    requires w == Value(a) * Value(b) && Abs(w) <= 0.25 * Abs(Value(c))
    ensures Near(Value(MulAdd22(c, a, b)), Value(c) + w, 11.0)
    ensures Normalised(MulAdd22(c, a, b))
  {
    hide RN, Rep, Tiny, Eta, Abs, Add12, MulAdd22, Clear;
    var q, r, d := a.h * b.l, a.l * b.h, a.l * b.l;
    Expand(a.h, a.l, b.h, b.l, w);
    assert w == p + q + r + d;
    EtaSmall();
    var t1, t2, t3, t4, t5, t6, t7, t8, t9, t10 := MulAdd22Trace(c, a, b, p, q, r, d);
    MulAdd22Budget(c.h, c.l, p, t1, t2, q, t5, r, t6, d, t3, t4, t7, t8, t9, t10, w, Eta());
    Add12Normalised(t3, t10);
  }
}
