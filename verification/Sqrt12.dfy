/**
 The double-double square root sqrt12: an initial approximation of 1/sqrt(m),
 two Newton steps in double precision, one in double-double precision, and a
 last step that relies on the high word of m * r3^2 being exactly 1.

 The quality of an approximation r of 1/sqrt(m) is its defect 1 - m * r^2; no
 square root appears anywhere below.
 */
module Sqrt12 {
  import opened Dyadic
  import opened Rounding
  import opened ErrorFree
  import opened Product
  import opened DoubleDouble

  // ------------------------------------------------- one step of Newton's method

  /** r has the defect d: m * r^2 = 1 - d. */
  ghost predicate Defect(m: real, r: real, d: real) {
    m * (r * r) == 1.0 - d
  }

  lemma DefectIdentity(d: real, e: real, f: real)
    requires f == d / 2.0 + e
    ensures 1.0 - (1.0 - d) * ((1.0 + f) * (1.0 + f)) == 0.75 * (d * d) - 2.0 * e + d * e - e * e + d * (f * f)
    ensures f * f == d * d / 4.0 + d * e + e * e
  {
  }

  lemma DefectLinear(ae: real, e: real, dd: real, de: real, ee: real, ff: real, dff: real)
    requires ae == Abs(e) && dd >= 0.0 && ff >= 0.0 && ff == dd / 4.0 + de + ee
    requires Abs(de) <= 0.012 * ae && Abs(ee) <= 0.000000000001 * ae && Abs(dff) <= 0.012 * ff
    ensures Abs(0.75 * dd - 2.0 * e + de - ee + dff) <= 0.76 * dd + 2.02 * ae
  {
  }

  lemma DefectBound(d: real, e: real, g: real, z: real)
    requires g == 1.0 + d / 2.0 + e && z == (1.0 - d) * (g * g)
    requires Abs(d) <= 0.012 && Abs(e) <= 0.000000000001
    ensures Abs(1.0 - z) <= 0.76 * (d * d) + 2.02 * Abs(e)
  {
    hide Abs;
    var f := d / 2.0 + e;
    DefectIdentity(d, e, f);
    var dd, de, ee, ff := d * d, d * e, e * e, f * f;
    var dff := d * ff;
    MulBound(d, e, 0.012, Abs(e));
    MulBound(e, e, 0.000000000001, Abs(e));
    Squares(d);
    Squares(f);
    AbsNonneg(ff);
    MulBound(d, ff, 0.012, Abs(ff));
    AbsOf(ff);
    assert 1.0 - z == 0.75 * dd - 2.0 * e + de - ee + dff;
    DefectLinear(Abs(e), e, dd, de, ee, ff, dff);
  }

  lemma Squares(x: real)
    ensures x * x >= 0.0
  {
  }

  lemma AbsOf(x: real)
    ensures x >= 0.0 ==> Abs(x) == x
  {
  }

  lemma Rearrange(m: real, r: real, g: real, t: real, rr: real, gg: real)
    requires t == r * g && rr == r * r && gg == g * g
    ensures m * (t * t) == (m * rr) * gg
  {
    Regroup4(r, g, r, g);
    Regroup(m, rr, gg);
    assert t * t == rr * gg;
  }

  /** Replacing r by about r * (1 + d/2) squares the defect. */
  lemma Improved(m: real, r: real, d: real, e: real, t: real) returns (k: real)
    requires Defect(m, r, d) && t == r * (1.0 + d / 2.0 + e)
    requires Abs(d) <= 0.012 && Abs(e) <= 0.000000000001
    ensures Defect(m, t, k) && Abs(k) <= 0.76 * (d * d) + 2.02 * Abs(e)
  {
    hide Abs;
    var g := 1.0 + d / 2.0 + e;
    var rr, gg := r * r, g * g;
    var z := (1.0 - d) * gg;
    DefectBound(d, e, g, z);
    Rearrange(m, r, g, t, rr, gg);
    assert m * (t * t) == z;
    k := 1.0 - z;
  }

  /** A relative deviation from an absolute one. */
  lemma Deviation(t: real, r: real, n: real, b: real, rn: real) returns (e: real)
    requires r > 0.0 && rn == r * n && Abs(t - rn) <= b * r
    ensures t == r * (n + e) && Abs(e) <= b
  {
    var z := t - rn;
    e := z / r;
    assert r * e == z;
    Distribute(n + e, n, e, r);
    AbsMul(r, e);
    if Abs(e) > b { MulLt(b, Abs(e), r); }
  }

  // ------------------------------------------------ Newton in double precision

  /** r * (3 - m * r^2) / 2 in machine arithmetic. */
  function NewtonStep(m: real, r: real): real {
    FMul(FMul(0.5, r), RN(3.0 - FMul(m, FMul(r, r))))
  }

  /** m and r in the ranges met throughout. */
  ghost predicate Ranges(m: real, r: real, d: real) {
    0.5 <= m < 2.0 && r > 0.0 && Rep(m) && Rep(r) && Defect(m, r, d) && Abs(d) <= 0.012
  }

  lemma SquareBounds(m: real, rr: real)
    requires 0.5 <= m < 2.0 && rr >= 0.0
    ensures 0.5 * rr <= m * rr <= 2.0 * rr
  {
    MulLe(0.5, m, rr);
    MulLe(m, 2.0, rr);
  }

  /** A small defect confines r to the vicinity of the unit interval. */
  lemma RangeFromDefect(m: real, r: real, d: real)
    requires 0.5 <= m < 2.0 && r > 0.0 && Defect(m, r, d) && Abs(d) <= 0.012
    ensures 0.6 <= r <= 1.6
  {
    Squares(r);
    SquareBounds(m, r * r);
    if r > 1.6 { MulLe(1.6, r, r); }
    if r < 0.6 { MulLe(r, 0.6, r); }
  }

  lemma HalveExact(x: real)
    requires Rep(x) && (x == 0.0 || Abs(x) >= Pow2(EMIN + 53))
    ensures FMul(0.5, x) == x / 2.0 && Rep(x / 2.0) && FMul(-0.5, x) == -x / 2.0
  {
    hide Pow2, FloorIndex, Mult, Cexp, RN, Rep;
    FMulIs(0.5, x, x / 2.0);
    FMulIs(-0.5, x, -x / 2.0);
    var c := Cexp(x);
    if x != 0.0 {
      Pow2Zero();
      Pow2Succ(-1);
      RepGrid(x, c);
      GridShift(x / 2.0, x, c, -1);
      CexpGe(x, EMIN + 1);
      Pow2Succ(c + 52);
      RepIntro(x / 2.0, c - 1);
    }
    RepNeg(x / 2.0);
    RNExact(x / 2.0);
    RNExact(-x / 2.0);
  }

  lemma NormalRange()
    ensures Pow2(EMIN + 53) <= 0.01 && 0.0 < Eta() <= Eps(0.0001) && Eta() <= Eps(Eps(0.0001))
  {
    hide Pow2;
    Pow2Zero();
    SmallPowers();
    Pow2Inverse(8);
    UnitRoundoff();
    Pow2Mono(EMIN + 53, -8);
    Pow2Add(-53, -53);
    Pow2Inverse(16);
    Pow2Add(-106, -16);
    Pow2Mono(EMIN - 1, -122);
  }

  /** The rounding errors of one step, all absolute and linear. */
  lemma StepBudget(s: real, mp: real, q: real, w: real, eta: real)
    requires 0.98 <= s <= 1.02 && 0.0 < eta <= Eps(0.0001)
    requires Abs(mp - s) <= Eps(s) + 2.0 * eta && Abs(q - mp) <= Eps(Abs(mp)) + eta
    requires Abs(w - (3.0 - q)) <= Eps(Abs(3.0 - q)) + eta
    ensures Abs(w - (3.0 - s)) <= Eps(4.12) && Abs(w) <= 2.03
  {
  }

  lemma StepProducts(m: real, r: real, rr: real, s: real, p: real, mp: real, eta: real)
    requires 0.5 <= m < 2.0 && rr >= 0.0 && s == m * rr && mp == m * p && eta > 0.0
    requires Abs(p - rr) <= Eps(rr) + eta
    ensures Abs(mp - s) <= Eps(s) + 2.0 * eta
  {
    hide Abs;
    var x, e := p - rr, Eps(rr);
    var b := e + eta;
    Distribute(p, rr, x, m);
    assert mp - s == m * x;
    AbsScale(mp - s, m, x, b);
    Distribute(b, e, eta, m);
    assert m * e == Eps(s);
    MulLe(m, 2.0, eta);
  }

  /** The computed step differs from r * (1 + d/2) by a few units in the last place. */
  lemma NewtonClose(m: real, r: real, d: real)
    requires Ranges(m, r, d)
    ensures Abs(NewtonStep(m, r) - r * (1.0 + d / 2.0)) <= Eps(3.2) * r
    ensures Rep(NewtonStep(m, r))
  {
    hide Pow2, FloorIndex, Mult, Cexp, RN, Rep, FMul;
    var rr, s := r * r, 1.0 - d;
    NormalRange();
    RangeFromDefect(m, r, d);
    assert rr >= 0.0;
    HalveExact(r);
    var p := FMul(r, r);
    FMulError(r, r, rr);
    var mp := m * p;
    var q := FMul(m, p);
    FMulError(m, p, mp);
    StepProducts(m, r, rr, s, p, mp, Eta());
    RNBound(3.0 - q);
    var w := RN(3.0 - q);
    StepBudget(s, mp, q, w, Eta());
    var h := r / 2.0;
    var z := h * w;
    FMulError(h, w, z);
    RNRep(z);
    FMulIs(h, w, z);
    StepLast(r, h, w, s, d, z, FMul(h, w), Eta());
  }

  lemma StepLast(r: real, h: real, w: real, s: real, d: real, z: real, t: real, eta: real)
    requires 0.6 <= r <= 1.6 && h == r / 2.0 && s == 1.0 - d && z == h * w
    requires Abs(w - (3.0 - s)) <= Eps(4.12) && Abs(w) <= 2.03 && Abs(t - z) <= Eps(Abs(z)) + eta
    requires 0.0 < eta <= Eps(0.0001)
    ensures Abs(t - r * (1.0 + d / 2.0)) <= Eps(3.2) * r
  {
    hide Abs;
    var x, n := w - (3.0 - s), 3.0 - s;
    var y, exact := h * x, h * n;
    Distribute(w, n, x, h);
    AbsScale(y, h, x, Eps(4.12));
    AbsScale(z, h, w, 2.03);
    assert exact == r * (1.0 + d / 2.0);
    Triangle(t - z, y, t - exact);
  }

  lemma StaysPositive(t: real, r: real, d: real, x: real)
    requires r > 0.0 && t == r * (1.0 + d / 2.0 + x) && Abs(d) <= 0.012 && Abs(x) <= 0.1
    ensures t > 0.0
  {
    var g := 1.0 + d / 2.0 + x;
    MulLt(0.0, g, r);
    assert g * r > 0.0;
  }

  /** One step in double precision: the defect is squared, up to a few units. */
  lemma NewtonDouble(m: real, r: real, d: real) returns (e: real)
    requires Ranges(m, r, d)
    ensures Defect(m, NewtonStep(m, r), e) && Abs(e) <= 0.76 * (d * d) + Eps(6.5)
    ensures Rep(NewtonStep(m, r)) && NewtonStep(m, r) > 0.0
  {
    hide Pow2, FloorIndex, Mult, Cexp, RN, Rep, FMul, NewtonStep, Defect, Abs;
    NewtonClose(m, r, d);
    var t := NewtonStep(m, r);
    var x := Deviation(t, r, 1.0 + d / 2.0, Eps(3.2), r * (1.0 + d / 2.0));
    e := Improved(m, r, d, x, t);
    StaysPositive(t, r, d, x);
  }

  // ----------------------------------------- Newton in double-double precision

  /** Componentwise multiplication by -1/2. */
  function MinusHalf(p: Pair): Pair {
    Pair(FMul(-0.5, p.h), FMul(-0.5, p.l))
  }

  /** r3h + r3l: the third step, 3/2 * r - m * r^3 / 2 on pairs. */
  function ThirdStep(m: real, r2: real): Pair {
    var r2Sq := Mul12(r2, r2);
    var r2PHr2 := Add12(r2, FMul(0.5, r2));
    var mMr2 := Mul12(m, r2);
    var mMr2C := Mul22(mMr2, r2Sq);
    Add22(r2PHr2, MinusHalf(mMr2C))
  }

  /** mMr3Sqh + mMr3Sql: m * r3^2, whose high word is to be 1. */
  function ScaledSquare(m: real, r3: Pair): Pair {
    Mul22(Pair(m, 0.0), Mul22(r3, r3))
  }

  /** srtmh + srtml: the last correction, then the multiplication by m. */
  function LastStep(m: real, r3: Pair): Pair {
    var r4 := Mul22(r3, Pair(1.0, FMul(-0.5, ScaledSquare(m, r3).l)));
    Mul22(Pair(m, 0.0), r4)
  }

  /** Halving keeps a pair a pair, up to half the least subnormal. */
  lemma MinusHalfPair(p: Pair)
    requires IsDD(p) && Abs(p.h) >= 0.1
    ensures MinusHalf(p).h == -p.h / 2.0 && IsDD(MinusHalf(p))
    ensures Abs(MinusHalf(p).l + p.l / 2.0) <= Eta()
  {
    hide Pow2, FloorIndex, Mult, Cexp, RN, FMul, Rep;
    NormalRange();
    HalveExact(p.h);
    RepNeg(p.h / 2.0);
    HalveLow(p.l);
  }

  lemma HalveLow(x: real)
    requires Rep(x)
    ensures var y := FMul(-0.5, x);
      Rep(y) && Abs(y + x / 2.0) <= Eta() && (Abs(y) == Abs(x) / 2.0 || Abs(y) <= Eps(Eps(0.01)))
  {
    hide Pow2, FloorIndex, Mult, Cexp, RN, Rep;
    if x == 0.0 || Abs(x) >= Pow2(EMIN + 53) {
      HalveExact(x);
      RepNeg(x / 2.0);
    } else {
      var z := -x / 2.0;
      FMulIs(-0.5, x, z);
      RNRep(z);
      Pow2Mono(EMIN + 52, EMIN + 53);
      CexpLe(z, EMIN);
      RNError(z);
      NormalRange();
      NormalTiny();
    }
  }

  lemma NormalTiny()
    ensures Pow2(EMIN + 53) <= Eps(Eps(0.001))
  {
    hide Pow2;
    UnitRoundoff();
    SmallPowers();
    Pow2Inverse(16);
    Pow2Add(-53, -53);
    Pow2Add(-106, -16);
    Pow2Mono(EMIN + 53, -122);
  }

  /** An exact product of moderate doubles is a normalised pair. */
  lemma ExactPair(x: real, y: real, z: real)
    requires Rep(x) && Rep(y) && z == x * y && Abs(z) >= 0.1
    ensures Value(Mul12(x, y)) == z && IsDD(Mul12(x, y))
    ensures Abs(Mul12(x, y).h - z) <= Eps(Abs(z))
  {
    hide Pow2, FloorIndex, Mult, Cexp, RN, Rep, Mul12;
    TinyRange();
    NoUnderflow(z, x, y);
    Mul12Exact(x, y, z);
    RNRep(z);
    NormalisedIsDD(Mul12(x, y));
    Pow2Mono(EMIN + 52, EMIN + 105);
    RNRelative(z);
  }

  lemma TinyRange()
    ensures Pow2(EMIN + 105) <= 0.01 && Tiny() <= 0.01
  {
    hide Pow2;
    SmallPowers();
    Pow2Inverse(8);
    Pow2Mono(EMIN + 105, -8);
    Pow2Mono(EMIN + 114, -8);
  }

  /** 2^-106 times x */
  function Ulp2(x: real): real {
    Eps(Eps(x))
  }

  /** Multiplying by m keeps a relative error. */
  lemma ScaledNear(m: real, v: real, w: real, z: real, y: real, k: real)
    requires Near(v, z, k) && m >= 0.0 && w == m * v && y == m * z && k >= 0.0
    ensures Abs(w - y) <= Ulp2(k * Abs(y))
  {
    hide Abs;
    var x, a := v - z, Abs(z);
    AbsScale(m * x, m, x, Ulp2(k * a));
    Distribute(v, z, x, m);
    AbsMul(m, z);
    AbsOf(m);
    var ka := k * a;
    Regroup(m, k, a);
    var ma, mu := m * a, m * Ulp2(ka);
    assert mu == Ulp2(m * ka);
    assert m * ka == k * ma;
    MulLe(ma, Abs(y), k);
    assert w - y == m * x;
  }

  /** The budget of the third step, relative to r. */
  lemma ThirdBudget(r: real, d: real, x: real, y: real, c: real, v: real, eta: real)
    requires 0.6 <= r <= 1.6 && Abs(d) <= 0.00000001 && 0.0 < eta <= Ulp2(0.0001)
    requires x == 1.5 * r && Abs(y + c / 2.0) <= eta
    requires Abs(c - (r - r * d)) <= Ulp2(9.0 * Abs(r - r * d)) && Abs(r * d) <= 0.00000001 * r
    requires Abs(v - (x + y)) <= Ulp2(8.0 * Abs(x + y))
    ensures Abs(v - (r + r * d / 2.0)) <= Ulp2(12.6) * r
  {
    ThirdLinear(r, r * d, r - r * d, x, y, c, v, eta);
    assert Ulp2(12.6) * r == Ulp2(12.6 * r);
  }

  lemma AbsMinus(x: real)
    ensures Abs(-x) == Abs(x) && Abs(x / 2.0) == Abs(x) / 2.0
  {
  }

  lemma ThirdLinear(r: real, rd: real, cube: real, x: real, y: real, c: real, v: real, eta: real)
    requires 0.6 <= r <= 1.6 && 0.0 < eta <= Ulp2(0.0001) && cube == r - rd && x == 1.5 * r
    requires Abs(y + c / 2.0) <= eta && Abs(rd) <= 0.00000001 * r
    requires Abs(c - cube) <= Ulp2(9.0 * Abs(cube)) && Abs(v - (x + y)) <= Ulp2(8.0 * Abs(x + y))
    ensures Abs(v - (r + rd / 2.0)) <= Ulp2(12.6 * r)
  {
    hide Abs;
    AbsOf(r);
    AbsMinus(rd);
    AbsMinus(c - cube);
    Triangle(r, -rd, cube);
    var e1, e2 := y + c / 2.0, (c - cube) / 2.0;
    AbsMinus(e2);
    Triangle(e1, -e2, x + y - (r + rd / 2.0));
    Triangle(r, rd / 2.0, r + rd / 2.0);
    Triangle(r + rd / 2.0, x + y - (r + rd / 2.0), x + y);
    Triangle(v - (x + y), x + y - (r + rd / 2.0), v - (r + rd / 2.0));
  }

  /** The products of the third step and their sizes. */
  lemma ThirdProducts(m: real, r: real, d: real, rr: real, mr: real, cube: real)
    requires 0.5 <= m < 2.0 && 0.6 <= r <= 1.6 && Defect(m, r, d) && Abs(d) <= 0.00000001
    requires rr == r * r && mr == m * r && cube == mr * rr
    ensures rr >= 0.36 && mr >= 0.3 && cube == r - r * d && Abs(r * d) <= 0.00000001 * r
    ensures 0.59 <= cube <= 1.61
  {
    MulLe(0.6, r, 0.6);
    MulLe(0.6, r, r);
    MulLe(0.5, m, r);
    var s := m * rr;
    Regroup(mr, r, r);
    Regroup(r, m, rr);
    Regroup(m, r, rr);
    assert cube == r * s;
    assert s == 1.0 - d;
    Distribute(1.0 - d, 1.0, -d, r);
    AbsScale(r * d, r, d, 0.00000001);
  }

  lemma HighNear(p: Pair, z: real)
    requires IsDD(p) && 0.1 <= z <= 4.0 && Near(Value(p), z, 16.0)
    ensures 0.99 * z <= p.h <= 1.01 * z
  {
    hide Rep;
  }

  lemma LargeProduct(x: real, y: real)
    requires x >= 0.29 && y >= 0.29
    ensures Abs(x * y) >= Tiny()
  {
    hide Tiny;
    TinyRange();
    MulLe(0.29, x, y);
  }

  /** Mul22 on pairs of moderate size. */
  lemma Moderate22(x: Pair, y: Pair, z: real)
    requires IsDD(x) && IsDD(y) && x.h >= 0.29 && y.h >= 0.29 && z == Value(x) * Value(y)
    ensures Near(Value(Mul22(x, y)), z, 9.0) && Normalised(Mul22(x, y)) && IsDD(Mul22(x, y))
  {
    hide Mul22, Near, Tiny, Rep, RN, Value;
    LargeProduct(x.h, y.h);
    Mul22Error(x, y, z);
    NormalisedIsDD(Mul22(x, y));
  }

  /** m * r2^3 as a pair. */
  lemma Cube(m: real, r: real, d: real, cube: real)
    requires Ranges(m, r, d) && Abs(d) <= 0.00000001 && cube == r - r * d
    ensures var c := Mul22(Mul12(m, r), Mul12(r, r));
      Near(Value(c), cube, 9.0) && IsDD(c) && 0.98 * cube <= c.h <= 1.02 * cube
    ensures 0.59 <= cube <= 1.61 && Abs(r * d) <= 0.00000001 * r && 0.6 <= r <= 1.6
  {
    hide Pow2, FloorIndex, Mult, Cexp, RN, Rep, FMul, Mul12, Mul22, Tiny, Abs, Near, Value, Normalised, IsDD;
    var rr, mr := r * r, m * r;
    RangeFromDefect(m, r, d);
    ThirdProducts(m, r, d, rr, mr, mr * rr);
    AbsOf(rr);
    AbsOf(mr);
    ExactPair(r, r, rr);
    ExactPair(m, r, mr);
    var p, q := Mul12(m, r), Mul12(r, r);
    ExactHigh(p.h, mr);
    ExactHigh(q.h, rr);
    Moderate22(p, q, cube);
    var c := Mul22(p, q);
    NearWeaken(Value(c), cube, 9.0, 16.0);
    HighNear(c, cube);
  }

  lemma ExactHigh(h: real, z: real)
    requires z >= 0.3 && Abs(h - z) <= Eps(Abs(z))
    ensures h >= 0.29
  {
  }

  /** The sum of the third step, with its operands. */
  lemma ThirdSum(r: real, c: Pair, rd: real, cube: real)
    requires Rep(r) && 0.6 <= r <= 1.6 && IsDD(c) && cube == r - rd
    requires Abs(rd) <= 0.00000001 * r && 0.98 * cube <= c.h <= 1.02 * cube
    ensures var x, y := Add12(r, FMul(0.5, r)), MinusHalf(c);
      && Value(x) == 1.5 * r && Abs(Value(y) + Value(c) / 2.0) <= Eta()
      && Near(Value(Add22(x, y)), Value(x) + Value(y), 8.0) && Normalised(Add22(x, y))
  {
    hide Pow2, FloorIndex, Mult, Cexp, RN, Rep, FMul, Add12, Add22, MinusHalf, Eps;
    NormalRange();
    HalveExact(r);
    Add12Normalised(r, r / 2.0);
    var x, y := Add12(r, FMul(0.5, r)), MinusHalf(c);
    NormalisedIsDD(x);
    MinusHalfPair(c);
    HighOf(x, r);
    Add22Error(x, y);
  }

  lemma HighOf(x: Pair, r: real)
    requires IsDD(x) && Value(x) == 1.5 * r && 0.6 <= r <= 1.6
    ensures 1.49 * r <= x.h <= 1.51 * r
  {
    hide Rep;
  }

  /** The third step squares the defect, up to 25.5 * 2^-106. */
  lemma ThirdStepError(m: real, r: real, d: real) returns (e: real)
    requires Ranges(m, r, d) && Abs(d) <= 0.00000001
    ensures var t := ThirdStep(m, r);
      && Defect(m, Value(t), e) && Abs(e) <= 0.76 * (d * d) + Ulp2(25.5)
      && IsDD(t) && Value(t) > 0.0
  {
    hide Pow2, FloorIndex, Mult, Cexp, RN, Rep, FMul, Add12, Add22, MinusHalf, Mul22, Mul12, Abs, Defect,
      Value, Normalised, IsDD;
    var cube := r - r * d;
    Cube(m, r, d, cube);
    var c := Mul22(Mul12(m, r), Mul12(r, r));
    ThirdSum(r, c, r * d, cube);
    var x, y, t := Add12(r, FMul(0.5, r)), MinusHalf(c), ThirdStep(m, r);
    NormalRange();
    NearIs(Value(c), cube, 9.0, 9.0 * Abs(cube));
    ThirdBudget(r, d, Value(x), Value(y), Value(c), Value(t), Eta());
    var z := Deviation(Value(t), r, 1.0 + d / 2.0, Ulp2(12.6), r + r * d / 2.0);
    e := Improved(m, r, d, z, Value(t));
    StaysPositive(Value(t), r, d, z);
    NormalisedIsDD(t);
  }

  // ------------------------------------------------ the last correction

  lemma RoundsToOne(q: real)
    requires Abs(q - 1.0) < Eps(0.5)
    ensures RN(q) == 1.0
  {
    hide Pow2, FloorIndex, Mult, Cexp, RN, Rep;
    UnitRoundoff();
    Pow2Zero();
    Pow2Succ(-1);
    RepPow2(0);
    RepPow2(-1);
    RNNearest(q, 1.0);
    RNAbove(q, 0.5);
    RNRep(q);
    CexpGe(RN(q), -53);
    RepGrid(RN(q), -53);
    GridPow2(0, -53);
    if RN(q) < 1.0 { GridApart(RN(q), 1.0, -53); }
    if RN(q) > 1.0 { GridApart(1.0, RN(q), -53); }
  }

  lemma SquareOf(m: real, v: real, d: real)
    requires Defect(m, v, d)
    ensures m * (v * v) == 1.0 - d
  {
  }

  lemma UnitLinear(d: real, rs: real, z: real, q: real)
    requires Abs(d) <= 0.000000000000000045
    requires Abs(z - (1.0 - d)) <= Ulp2(9.0 * Abs(1.0 - d)) && Abs(q - z) <= Ulp2(9.0 * Abs(z))
    ensures Abs(q - 1.0 + d) <= Ulp2(18.1) && Abs(q - 1.0) < Eps(0.5)
  {
  }

  lemma PairOf(m: real)
    requires Rep(m) && 0.5 <= m
    ensures IsDD(Pair(m, 0.0)) && Value(Pair(m, 0.0)) == m
  {
    hide Rep;
    RepZero();
  }

  /** r3 as the third step leaves it. */
  ghost predicate Ready(m: real, r3: Pair, d: real) {
    && 0.5 <= m < 2.0 && Rep(m) && IsDD(r3) && Value(r3) > 0.0
    && Defect(m, Value(r3), d) && Abs(d) <= 0.000000000000000045
  }

  lemma ReadyHigh(m: real, r3: Pair, d: real)
    requires Ready(m, r3, d)
    ensures 0.6 <= Value(r3) <= 1.6 && r3.h >= 0.5
  {
    hide Defect, Rep;
    RangeFromDefect(m, Value(r3), d);
    HighPart(r3);
  }

  lemma HighPart(p: Pair)
    requires IsDD(p) && Value(p) >= 0.36
    ensures p.h >= 0.35 && p.h >= 0.99 * Value(p)
  {
    hide Rep;
  }

  /** The high word of m * r3^2 is exactly 1, and its low word is the defect. */
  lemma HighIsOne(m: real, r3: Pair, d: real)
    requires Ready(m, r3, d)
    ensures var q := ScaledSquare(m, r3);
      q.h == 1.0 && Abs(q.l + d) <= Ulp2(18.1) && Abs(q.l) <= Eps(0.5) && Rep(q.l)
  {
    hide Pow2, FloorIndex, Mult, Cexp, RN, Rep, Mul22, Near, Value, Defect, IsDD, Abs;
    var v := Value(r3);
    var vv := v * v;
    ReadyHigh(m, r3, d);
    SquareOf(m, v, d);
    MulLe(0.6, v, v);
    Moderate22(r3, r3, vv);
    var rs := Mul22(r3, r3);
    SquareHigh(rs, vv);
    PairOf(m);
    var z := m * Value(rs);
    ScaledNear(m, Value(rs), z, vv, 1.0 - d, 9.0);
    Moderate22(Pair(m, 0.0), rs, z);
    var q := ScaledSquare(m, r3);
    NearIs(Value(q), z, 9.0, 9.0 * Abs(z));
    UnitLinear(d, Value(rs), z, Value(q));
    RoundsToOne(Value(q));
    ValueParts(q);
  }

  lemma SquareHigh(p: Pair, vv: real)
    requires IsDD(p) && Near(Value(p), vv, 9.0) && vv >= 0.36
    ensures p.h >= 0.3
  {
    hide Rep;
  }

  lemma ValueParts(q: Pair)
    requires Normalised(q) && RN(Value(q)) == 1.0 && Abs(Value(q) - 1.0) < Eps(0.5)
    ensures q.h == 1.0 && q.l == Value(q) - 1.0 && Rep(q.l) && Abs(q.l) <= Eps(0.5)
  {
    hide RN, Rep;
  }

  /** The correction factor 1 - mMr3Sql / 2 as a pair. */
  lemma CorrectionPair(l: real, d: real)
    requires Rep(l) && Abs(l) <= Eps(0.5) && Abs(l + d) <= Ulp2(18.1)
    ensures var c := FMul(-0.5, l);
      IsDD(Pair(1.0, c)) && Abs(c - d / 2.0) <= Ulp2(9.1) && Abs(c) <= Eps(0.5)
  {
    hide Pow2, FloorIndex, Mult, Cexp, RN, Rep, FMul;
    HalveLow(l);
    NormalRange();
    Pow2Zero();
    RepPow2(0);
  }

  lemma CorrectionBudget(v: real, c: real, d: real, vc: real, vd: real, t: real, y: real)
    requires v > 0.0 && vc == v * (1.0 + c) && vd == v * (1.0 + d / 2.0) && y == v * (c - d / 2.0)
    requires Abs(c - d / 2.0) <= Ulp2(9.1) && Abs(c) <= Eps(0.5) && Abs(t - vc) <= Ulp2(9.0 * Abs(vc))
    ensures Abs(t - vd) <= Ulp2(18.2) * v
  {
    hide Abs;
    var k := c - d / 2.0;
    AbsScale(y, v, k, Ulp2(9.1));
    AbsScale(v * c, v, c, Eps(0.5));
    assert vc == v + v * c && vc - vd == y;
    Triangle(v, v * c, vc);
    AbsOf(v);
    Triangle(t - vc, y, t - vd);
  }

  /** The corrected reciprocal root has a defect of at most 37 * 2^-106. */
  lemma Corrected(m: real, r3: Pair, d: real) returns (e: real)
    requires Ready(m, r3, d)
    ensures var r4 := Mul22(r3, Pair(1.0, FMul(-0.5, ScaledSquare(m, r3).l)));
      && Defect(m, Value(r4), e) && Abs(e) <= Ulp2(37.0) && IsDD(r4) && Value(r4) > 0.0
  {
    hide Pow2, FloorIndex, Mult, Cexp, RN, Rep, Mul22, Near, Defect, IsDD, Abs, FMul, ScaledSquare, Value;
    var v, l := Value(r3), ScaledSquare(m, r3).l;
    ReadyHigh(m, r3, d);
    HighIsOne(m, r3, d);
    CorrectionPair(l, d);
    var c := FMul(-0.5, l);
    var one, vc := Pair(1.0, c), v * (1.0 + c);
    ValueIs(one);
    Moderate22(r3, one, vc);
    var r4 := Mul22(r3, one);
    NearIs(Value(r4), vc, 9.0, 9.0 * Abs(vc));
    var vd := v * (1.0 + d / 2.0);
    CorrectionBudget(v, c, d, vc, vd, Value(r4), v * (c - d / 2.0));
    var x := Deviation(Value(r4), v, 1.0 + d / 2.0, Ulp2(18.2), vd);
    e := Improved(m, v, d, x, Value(r4));
    AbsSmall(d);
    StaysPositive(Value(r4), v, d, x);
  }

  lemma ValueIs(p: Pair)
    ensures Value(p) == p.h + p.l
  {
  }

  lemma AbsSmall(d: real)
    requires Abs(d) <= 0.000000000000000045
    ensures 0.76 * (d * d) <= Ulp2(0.2)
  {
    MulBound(d, d, 0.000000000000000045, 0.000000000000000045);
    AbsOf(d * d);
    Squares(d);
  }

  // --------------------------------------------------- the square root

  lemma FinalSquare(d: real, b: real, w: real)
    requires w == (1.0 - d) * ((1.0 + b) * (1.0 + b)) && Abs(d) <= Ulp2(37.0) && Abs(b) <= Ulp2(9.0)
    ensures Abs(w - 1.0) <= Ulp2(55.1)
  {
    var bb := b * b;
    MulBound(b, b, Ulp2(9.0), 0.000001);
    var x := 2.0 * b + bb;
    assert (1.0 + b) * (1.0 + b) == 1.0 + x;
    FinalSquareBound(d, b, bb, x, w);
  }

  lemma FinalSquareBound(d: real, b: real, bb: real, x: real, w: real)
    requires x == 2.0 * b + bb && Abs(bb) <= Ulp2(0.00001) && w == (1.0 - d) * (1.0 + x)
    requires Abs(d) <= Ulp2(37.0) && Abs(b) <= Ulp2(9.0)
    ensures Abs(w - 1.0) <= Ulp2(55.1)
  {
    var dx := d * x;
    MulBound(d, x, Ulp2(37.0), 0.000001);
    Distribute(1.0 - d, 1.0, -d, 1.0 + x);
    assert w == 1.0 + x - d - dx;
  }

  /** t = m * v * g, squared. */
  lemma SquareOfRoot(m: real, v: real, d: real, y: real, g: real, t: real, w: real)
    requires Defect(m, v, d) && y == m * v && t == y * g && w == (1.0 - d) * (g * g)
    ensures t * t == m * w
  {
    var vv, gg := v * v, g * g;
    Regroup4(y, g, y, g);
    Regroup4(m, v, m, v);
    Regroup(m, m, vv);
    assert m * vv == 1.0 - d;
    assert y * y == m * (1.0 - d);
    Regroup(m, 1.0 - d, gg);
  }

  /** s is the square root of x, up to a relative error of k * 2^-106 in its square. */
  ghost predicate RootOf(s: real, x: real, k: real) {
    s > 0.0 && Abs(s * s - x) <= Ulp2(k) * x
  }

  /** A root from a factor close to 1. */
  lemma CloseFactor(m: real, w: real, t: real, k: real)
    requires m >= 0.0 && t > 0.0 && t * t == m * w && Abs(w - 1.0) <= Ulp2(k)
    ensures RootOf(t, m, k)
  {
    hide Abs, Ulp2;
    var tt := t * t;
    Distribute(w, 1.0, w - 1.0, m);
    AbsScale(tt - m, m, w - 1.0, Ulp2(k));
    assert tt - m == t * t - m;
    SameAbs(tt - m, t * t - m);
  }

  lemma SameAbs(x: real, y: real)
    requires x == y
    ensures Abs(x) == Abs(y)
  {
  }

  lemma NearAbove(v: real, z: real, k: real)
    requires Near(v, z, k) && z > 0.0
    ensures Abs(v - z) <= Ulp2(k) * z
  {
  }

  lemma UlpsSmall()
    ensures 0.0 < Ulp2(9.0) <= 0.1 && Ulp2(37.0) <= 0.012
  {
  }

  /** A relative deviation, for a positive y. */
  lemma FinalDeviation(y: real, t: real) returns (b: real)
    requires y > 0.0 && Near(t, y, 9.0)
    ensures t > 0.0 && t == y * (1.0 + b) && Abs(b) <= Ulp2(9.0)
  {
    hide Near, Abs, Ulp2;
    UlpsSmall();
    NearAbove(t, y, 9.0);
    AbsOf(0.0);
    b := Deviation(t, y, 1.0, Ulp2(9.0), y);
    StaysPositive(t, y, 0.0, b);
  }

  /** From a defect of 4.5e-17 on, the last step delivers the root of m. */
  lemma LastStepError(m: real, r3: Pair, d: real)
    requires Ready(m, r3, d)
    ensures var t := LastStep(m, r3);
      IsDD(t) && Normalised(t) && RootOf(Value(t), m, 55.1)
  {
    hide Pow2, FloorIndex, Mult, Cexp, RN, Rep, Mul22, Near, Defect, IsDD, FMul, ScaledSquare, Value, Normalised,
      Abs, Ulp2, RootOf;
    var e := Corrected(m, r3, d);
    var r4 := Mul22(r3, Pair(1.0, FMul(-0.5, ScaledSquare(m, r3).l)));
    PairOf(m);
    UlpsSmall();
    RangeFromDefect(m, Value(r4), e);
    HighPart(r4);
    var y := m * Value(r4);
    Moderate22(Pair(m, 0.0), r4, y);
    var t := Value(LastStep(m, r3));
    MulLt(0.0, Value(r4), m);
    var b := FinalDeviation(y, t);
    var g := 1.0 + b;
    var w := (1.0 - e) * (g * g);
    FinalSquare(e, b, w);
    SquareOfRoot(m, Value(r4), e, y, g, t, w);
    CloseFactor(m, w, t, 55.1);
  }

  // ------------------------------------------- from the initial approximation

  /** r3 as computed from the initial approximation r0. */
  function ThirdFrom(m: real, r0: real): Pair {
    ThirdStep(m, NewtonStep(m, NewtonStep(m, r0)))
  }

  lemma SquareBound(d: real, b: real, e: real)
    requires Abs(d) <= b
    ensures 0.76 * (d * d) + e <= 0.76 * (b * b) + e
  {
    AbsNonneg(d);
    MulBound(d, d, b, b);
    AbsOf(d * d);
    Squares(d);
  }

  /**
   The high word of m * r3^2 is exactly 1 for every m in [1/2, 2), whenever the
   initial approximation r0 has a defect of at most 0.0106.
   */
  lemma ThirdReady(m: real, r0: real, d0: real) returns (d: real)
    requires Ranges(m, r0, d0) && Abs(d0) <= 0.0106
    ensures Ready(m, ThirdFrom(m, r0), d)
    ensures ScaledSquare(m, ThirdFrom(m, r0)).h == 1.0
  {
    hide Pow2, FloorIndex, Mult, Cexp, RN, Rep, NewtonStep, ThirdStep, Defect, IsDD, Value, ScaledSquare, Abs;
    var d1 := NewtonDouble(m, r0, d0);
    SquareBound(d0, 0.0106, Eps(6.5));
    var r1 := NewtonStep(m, r0);
    var d2 := NewtonDouble(m, r1, d1);
    SquareBound(d1, 0.0000855, Eps(6.5));
    d := ThirdStepError(m, NewtonStep(m, r1), d2);
    SquareBound(d2, 0.00000000556, Ulp2(25.5));
    HighIsOne(m, ThirdFrom(m, r0), d);
  }
}
