/**
 The initial approximation of 1/sqrt(m) in sqrt12: a polynomial of degree four
 evaluated in double precision, whose defect 1 - m * r0^2 is bounded on the
 whole of [1/2, 2).
 */
module InitialRoot {
  import opened Dyadic
  import opened Rounding
  import opened Product
  import opened ErrorFree
  import opened DoubleDouble
  import opened Sqrt12

  const SQRTPOLYC0: real := RN(2.50385236695888790947606139525305479764938354492188)
  const SQRTPOLYC1: real := RN(-3.29763389114324168005509818613063544034957885742188)
  const SQRTPOLYC2: real := RN(2.75726076139124520736345402838196605443954467773438)
  const SQRTPOLYC3: real := RN(-1.15233725777933848632983426796272397041320800781250)
  const SQRTPOLYC4: real := RN(0.186900066679800969104974228685023263096809387207031)

  /** r0 */
  function Initial(m: real): real {
    RN(SQRTPOLYC0 + FMul(m, RN(SQRTPOLYC1 + FMul(m, RN(SQRTPOLYC2 + FMul(m,
      RN(SQRTPOLYC3 + FMul(m, SQRTPOLYC4))))))))
  }

  /** The polynomial with its coefficients rounded to six decimals. */
  function Quartic(x: real): real {
    2.503852 + x * (-3.297634 + x * (2.757261 + x * (-1.152337 + x * 0.186900)))
  }

  // ---------------------------------------------------- machine evaluation

  /** One Horner step: the deviation at most doubles, plus 10^-6. */
  lemma HornerMachine(m: real, y: real, z: real, mz: real, k: real, c: real, e: real)
    requires 0.5 <= m < 2.0 && Abs(y - z) <= e <= 0.001 && Abs(z) <= 40.0
    requires mz == m * z && Abs(k - c) <= 0.00000051 && Abs(c) <= 4.0
    ensures Abs(RN(k + FMul(m, y)) - (c + mz)) <= 2.0 * e + 0.000001
  {
    hide Pow2, Cexp, RN, FMul, Abs;
    NormalRange();
    var my := m * y;
    FMulError(m, y, my);
    var p := FMul(m, y);
    RNBound(k + p);
    var x := y - z;
    Distribute(y, z, x, m);
    assert my - mz == m * x;
    AbsScale(my - mz, m, x, e);
    AbsScale(mz, m, z, 40.0);
    AbsNonneg(x);
    MulLe(m, 2.0, e);
    HornerLinear(my, mz, p, k, c, RN(k + p), 2.0 * e, Eta());
  }

  lemma HornerLinear(my: real, mz: real, p: real, k: real, c: real, t: real, e: real, eta: real)
    requires Abs(my - mz) <= e <= 0.002 && Abs(mz) <= 80.0 && Abs(k - c) <= 0.00000051 && Abs(c) <= 4.0
    requires Abs(p - my) <= Eps(Abs(my)) + eta && Abs(t - (k + p)) <= Eps(Abs(k + p)) + eta
    requires 0.0 < eta <= Eps(0.0001)
    ensures Abs(t - (c + mz)) <= e + 0.000001
  {
    hide Abs;
    Triangle(my - mz, mz, my);
    Triangle(p - my, my, p);
    Triangle(k - c, c, k);
    Triangle(k, p, k + p);
    Triangle(t - (k + p), p - my, t - k - my);
    Triangle(t - k - my, my - mz, t - k - mz);
    Triangle(t - k - mz, k - c, t - c - mz);
  }

  lemma Coefficient(x: real, c: real)
    requires Abs(x - c) <= 0.0000005 && Abs(x) <= 4.0
    ensures Abs(RN(x) - c) <= 0.00000051
  {
    hide Pow2, Cexp, RN;
    NormalRange();
    RNBound(x);
  }

  lemma QuarticSizes(m: real, m4: real, y3: real, m3: real, y2: real, m2: real, y1: real)
    requires 0.5 <= m < 2.0 && m4 == m * 0.186900 && y3 == -1.152337 + m4 && m3 == m * y3
    requires y2 == 2.757261 + m3 && m2 == m * y2 && y1 == -3.297634 + m2
    ensures Abs(0.186900) <= 40.0 && Abs(y3) <= 40.0 && Abs(y2) <= 40.0 && Abs(y1) <= 40.0
    ensures Quartic(m) == 2.503852 + m * y1
  {
    AbsScale(m3, m, y3, 1.6);
    AbsScale(m2, m, y2, 6.0);
  }

  lemma ConstantSizes()
    ensures Abs(2.503852) <= 4.0 && Abs(-3.297634) <= 4.0 && Abs(2.757261) <= 4.0 && Abs(-1.152337) <= 4.0
    ensures Abs(2.50385236695888790947606139525305479764938354492188 - 2.503852) <= 0.0000005
    ensures Abs(-3.29763389114324168005509818613063544034957885742188 - -3.297634) <= 0.0000005
    ensures Abs(2.75726076139124520736345402838196605443954467773438 - 2.757261) <= 0.0000005
    ensures Abs(-1.15233725777933848632983426796272397041320800781250 - -1.152337) <= 0.0000005
    ensures Abs(0.186900066679800969104974228685023263096809387207031 - 0.186900) <= 0.0000005
    ensures Abs(2.50385236695888790947606139525305479764938354492188) <= 4.0
    ensures Abs(-3.29763389114324168005509818613063544034957885742188) <= 4.0
    ensures Abs(2.75726076139124520736345402838196605443954467773438) <= 4.0
    ensures Abs(-1.15233725777933848632983426796272397041320800781250) <= 4.0
    ensures Abs(0.186900066679800969104974228685023263096809387207031) <= 4.0
  {
  }

  /** r0 is the polynomial to within 3 * 10^-5. */
  lemma InitialClose(m: real)
    requires 0.5 <= m < 2.0
    ensures Abs(Initial(m) - Quartic(m)) <= 0.00003 && Rep(Initial(m))
  {
    hide Pow2, Cexp, RN, FMul, Rep, Abs, Quartic;
    ConstantSizes();
    Coefficient(2.50385236695888790947606139525305479764938354492188, 2.503852);
    Coefficient(-3.29763389114324168005509818613063544034957885742188, -3.297634);
    Coefficient(2.75726076139124520736345402838196605443954467773438, 2.757261);
    Coefficient(-1.15233725777933848632983426796272397041320800781250, -1.152337);
    Coefficient(0.186900066679800969104974228685023263096809387207031, 0.186900);
    var m4 := m * 0.186900;
    var y3 := -1.152337 + m4;
    var m3 := m * y3;
    var y2 := 2.757261 + m3;
    var m2 := m * y2;
    var y1 := -3.297634 + m2;
    var m1 := m * y1;
    QuarticSizes(m, m4, y3, m3, y2, m2, y1);
    HornerMachine(m, SQRTPOLYC4, 0.186900, m4, SQRTPOLYC3, -1.152337, 0.00000051);
    var r3 := RN(SQRTPOLYC3 + FMul(m, SQRTPOLYC4));
    HornerMachine(m, r3, y3, m3, SQRTPOLYC2, 2.757261, 0.00000203);
    var r2 := RN(SQRTPOLYC2 + FMul(m, r3));
    HornerMachine(m, r2, y2, m2, SQRTPOLYC1, -3.297634, 0.00000507);
    var r1 := RN(SQRTPOLYC1 + FMul(m, r2));
    HornerMachine(m, r1, y1, m1, SQRTPOLYC0, 2.503852, 0.00001115);
    RNRep(SQRTPOLYC0 + FMul(m, r1));
    assert Initial(m) == RN(SQRTPOLYC0 + FMul(m, r1));
    assert Quartic(m) == 2.503852 + m1;
  }

  // -------------------------------------------------- the polynomial itself

  /** The Taylor coefficients of the polynomial at a. */
  function T1(a: real): real {
    -3.297634 + a * (5.514522 + a * (-3.457011 + a * 0.7476))
  }

  function T2(a: real): real {
    2.757261 + a * (-3.457011 + a * 1.1214)
  }

  function T3(a: real): real {
    -1.152337 + a * 0.7476
  }

  lemma Taylor(a: real, t: real, x: real)
    requires x == a + t
    ensures Quartic(x) == Quartic(a) + t * (T1(a) + t * (T2(a) + t * (T3(a) + t * 0.1869)))
  {
  }

  // m * p(m)^2 at m = a + t, in nested form: c0 + t (c1 + t (c2 + t c3)).

  function Level1(a: real, t: real, q0: real, y1: real): real {
    q0 * q0 + 2.0 * (a * (q0 * y1)) + t * (2.0 * (q0 * y1) + a * (y1 * y1)) + (t * t) * (y1 * y1)
  }

  function Level2(a: real, t: real, q0: real, y2: real, y1: real): real {
    2.0 * (a * (q0 * y2)) + 2.0 * (q0 * y1) + a * (y1 * y1) + t * (y1 * y1)
  }

  function Level3(a: real, t: real, q0: real, q1: real, y3: real, y2: real, y1: real): real {
    2.0 * (a * (q0 * y3)) + 2.0 * (q0 * y2) + 2.0 * (a * (q1 * y2)) + a * (t * (y2 * y2)) + y1 * y1
  }

  lemma Outer(a: real, t: real, m: real, q0: real, y1: real, p: real, z: real, d: real, c0: real)
    requires m == a + t && z == m * (p * p) && p == q0 + t * y1
    requires d == Level1(a, t, q0, y1)
    requires c0 == a * (q0 * q0)
    ensures z == c0 + t * d
  {
  }

  lemma Middle(a: real, t: real, q0: real, q1: real, y2: real, y1: real, d: real, b: real, c1: real)
    requires y1 == q1 + t * y2 && c1 == q0 * q0 + 2.0 * (a * (q0 * q1))
    requires d == Level1(a, t, q0, y1)
    requires b == Level2(a, t, q0, y2, y1)
    ensures d == c1 + t * b
  {
  }

  lemma Inner(a: real, t: real, q0: real, q1: real, q2: real, y3: real, y2: real, y1: real, b: real, c2: real, c3: real)
    requires y1 == q1 + t * y2 && y2 == q2 + t * y3
    requires b == Level2(a, t, q0, y2, y1)
    requires c2 == 2.0 * (a * (q0 * q2)) + 2.0 * (q0 * q1) + a * (q1 * q1)
    requires c3 == Level3(a, t, q0, q1, y3, y2, y1)
    ensures b == c2 + t * c3
  {
  }

  // Bounds on the Taylor coefficients and on m * p(m)^2 - 1 for |m - a| <= w.

  function B3(a: real, w: real): real {
    Abs(T3(a)) + w * 0.1869
  }

  function B2(a: real, w: real): real {
    Abs(T2(a)) + w * B3(a, w)
  }

  function B1(a: real, w: real): real {
    Abs(T1(a)) + w * B2(a, w)
  }

  function K0(a: real): real {
    a * (Quartic(a) * Quartic(a))
  }

  function K1(a: real): real {
    Quartic(a) * Quartic(a) + 2.0 * (a * (Quartic(a) * T1(a)))
  }

  function K2(a: real): real {
    2.0 * (a * (Quartic(a) * T2(a))) + 2.0 * (Quartic(a) * T1(a)) + a * (T1(a) * T1(a))
  }

  /** Bounds the coefficient of (m - a)^3. */
  function CubicBound(a: real, w: real): real {
    CubicSum(a, w, Abs(Quartic(a)), Abs(T1(a)), B3(a, w), B2(a, w), B1(a, w))
  }

  function CubicSum(a: real, w: real, q0: real, q1: real, b3: real, b2: real, b1: real): real {
    2.0 * (a * (q0 * b3)) + 2.0 * (q0 * b2) + 2.0 * (a * (q1 * b2)) + a * (w * (b2 * b2)) + b1 * b1
  }

  /** Bounds the deviation of m * p(m)^2 from 1. */
  function PatchBound(a: real, w: real): real {
    Abs(K0(a) - 1.0) + w * SlopeBound(a, w)
  }

  function SlopeBound(a: real, w: real): real {
    Abs(K1(a)) + w * (Abs(K2(a)) + w * CubicBound(a, w))
  }

  lemma Bounded(z: real, x: real, y: real, a: real, b: real)
    requires z == x * y && Abs(x) <= a && Abs(y) <= b
    ensures Abs(z) <= a * b
  {
    MulBound(x, y, a, b);
  }

  /** One level of a nested bound. */
  lemma Level(z: real, c: real, t: real, w: real, y: real, b: real)
    requires z == c + t * y && Abs(t) <= w && Abs(y) <= b
    ensures Abs(z) <= Abs(c) + w * b
  {
    hide Abs;
    var x := t * y;
    Bounded(x, t, y, w, b);
    Triangle(c, x, z);
  }

  lemma Sum5(z: real, x1: real, x2: real, x3: real, x4: real, x5: real)
    requires z == 2.0 * x1 + 2.0 * x2 + 2.0 * x3 + x4 + x5
    ensures Abs(z) <= 2.0 * Abs(x1) + 2.0 * Abs(x2) + 2.0 * Abs(x3) + Abs(x4) + Abs(x5)
  {
  }

  lemma Level3Is(a: real, t: real, q0: real, q1: real, y3: real, y2: real, y1: real,
                 au: real, u2: real, av: real, at: real, y11: real)
    requires au == a * (q0 * y3) && u2 == q0 * y2 && av == a * (q1 * y2) && at == a * (t * (y2 * y2)) && y11 == y1 * y1
    ensures Level3(a, t, q0, q1, y3, y2, y1) == 2.0 * au + 2.0 * u2 + 2.0 * av + at + y11
  {
  }

  lemma CubicSumIs(a: real, w: real, q0: real, q1: real, b3: real, b2: real, b1: real,
                   au: real, u2: real, av: real, at: real, y11: real)
    requires au == a * (q0 * b3) && u2 == q0 * b2 && av == a * (q1 * b2) && at == a * (w * (b2 * b2)) && y11 == b1 * b1
    ensures CubicSum(a, w, q0, q1, b3, b2, b1) == 2.0 * au + 2.0 * u2 + 2.0 * av + at + y11
  {
  }

  /** a * (x * y), for a non-negative a. */
  lemma Bounded3(z: real, a: real, x: real, y: real, b: real, c: real)
    requires z == a * (x * y) && a >= 0.0 && Abs(x) <= b && Abs(y) <= c
    ensures Abs(z) <= a * (b * c)
  {
    hide Abs;
    var xy := x * y;
    Bounded(xy, x, y, b, c);
    AbsScale(z, a, xy, b * c);
  }

  lemma CubicTerm(a: real, t: real, w: real, q0: real, q1: real, y3: real, y2: real, y1: real,
                  b3: real, b2: real, b1: real, c3: real, bound: real)
    requires 0.0 <= a && Abs(t) <= w && Abs(y3) <= b3 && Abs(y2) <= b2 && Abs(y1) <= b1
    requires c3 == Level3(a, t, q0, q1, y3, y2, y1)
    requires bound == CubicSum(a, w, Abs(q0), Abs(q1), b3, b2, b1)
    ensures Abs(c3) <= bound
  {
    hide Abs, Level3, CubicSum;
    var p0, p1, yy, bb := Abs(q0), Abs(q1), y2 * y2, b2 * b2;
    var au, u2, av, at, y11 := a * (q0 * y3), q0 * y2, a * (q1 * y2), a * (t * yy), y1 * y1;
    Bounded3(au, a, q0, y3, p0, b3);
    Bounded(u2, q0, y2, p0, b2);
    Bounded3(av, a, q1, y2, p1, b2);
    Bounded(yy, y2, y2, b2, b2);
    Bounded3(at, a, t, yy, w, bb);
    Bounded(y11, y1, y1, b1, b1);
    Level3Is(a, t, q0, q1, y3, y2, y1, au, u2, av, at, y11);
    CubicSumIs(a, w, p0, p1, b3, b2, b1, a * (p0 * b3), p0 * b2, a * (p1 * b2), a * (w * bb), b1 * b1);
    Sum5(c3, au, u2, av, at, y11);
  }

  // The same steps in terms of the centre a alone.

  lemma OuterAt(a: real, t: real, m: real, y1: real, z: real)
    requires m == a + t && z == m * (Quartic(m) * Quartic(m)) && Quartic(m) == Quartic(a) + t * y1
    ensures z == K0(a) + t * Level1(a, t, Quartic(a), y1)
  {
    hide Quartic, Level1;
    Outer(a, t, m, Quartic(a), y1, Quartic(m), z, Level1(a, t, Quartic(a), y1), K0(a));
  }

  lemma MiddleAt(a: real, t: real, y2: real, y1: real)
    requires y1 == T1(a) + t * y2
    ensures Level1(a, t, Quartic(a), y1) == K1(a) + t * Level2(a, t, Quartic(a), y2, y1)
  {
    hide Quartic, T1, Level1, Level2;
    var q := Quartic(a);
    Middle(a, t, q, T1(a), y2, y1, Level1(a, t, q, y1), Level2(a, t, q, y2, y1), K1(a));
  }

  lemma InnerAt(a: real, t: real, y3: real, y2: real, y1: real)
    requires y1 == T1(a) + t * y2 && y2 == T2(a) + t * y3
    ensures Level2(a, t, Quartic(a), y2, y1) == K2(a) + t * Level3(a, t, Quartic(a), T1(a), y3, y2, y1)
  {
    hide Quartic, T1, T2, Level2, Level3;
    var q, q1 := Quartic(a), T1(a);
    Inner(a, t, q, q1, T2(a), y3, y2, y1, Level2(a, t, q, y2, y1), K2(a), Level3(a, t, q, q1, y3, y2, y1));
  }

  lemma CubicAt(a: real, t: real, w: real, y3: real, y2: real, y1: real)
    requires 0.0 <= a && Abs(t) <= w && Abs(y3) <= B3(a, w) && Abs(y2) <= B2(a, w) && Abs(y1) <= B1(a, w)
    ensures Abs(Level3(a, t, Quartic(a), T1(a), y3, y2, y1)) <= CubicBound(a, w)
  {
    hide Quartic, T1, T2, Level3, Abs, B1, B2, B3, CubicSum;
    var q, q1 := Quartic(a), T1(a);
    CubicTerm(a, t, w, q, q1, y3, y2, y1, B3(a, w), B2(a, w), B1(a, w), Level3(a, t, q, q1, y3, y2, y1), CubicBound(a, w));
  }

  /** The nested form around a, with all its coefficients bounded. */
  lemma AroundCentre(a: real, t: real, w: real, m: real, z: real) returns (x1: real, x2: real, x3: real)
    requires 0.0 <= a && Abs(t) <= w && m == a + t && z == m * (Quartic(m) * Quartic(m))
    ensures z == K0(a) + t * x1 && x1 == K1(a) + t * x2 && x2 == K2(a) + t * x3 && Abs(x3) <= CubicBound(a, w)
  {
    hide Abs, Quartic, T1, T2, T3, B1, B2, B3, K0, K1, K2, Level1, Level2, Level3, CubicBound;
    var y3, y2, y1 := Tails(a, t, w);
    var q := Quartic(a);
    x1, x2, x3 := Level1(a, t, q, y1), Level2(a, t, q, y2, y1), Level3(a, t, q, T1(a), y3, y2, y1);
    OuterAt(a, t, m, y1, z);
    MiddleAt(a, t, y2, y1);
    InnerAt(a, t, y3, y2, y1);
    CubicAt(a, t, w, y3, y2, y1);
  }

  /** The tails of the Taylor expansion of the polynomial. */
  lemma Tails(a: real, t: real, w: real) returns (y3: real, y2: real, y1: real)
    requires Abs(t) <= w
    ensures y2 == T2(a) + t * y3 && y1 == T1(a) + t * y2 && Quartic(a + t) == Quartic(a) + t * y1
    ensures Abs(y3) <= B3(a, w) && Abs(y2) <= B2(a, w) && Abs(y1) <= B1(a, w)
  {
    hide Abs, Quartic, T1, T2, T3;
    y3 := T3(a) + t * 0.1869;
    y2 := T2(a) + t * y3;
    y1 := T1(a) + t * y2;
    Taylor(a, t, a + t);
    AbsOf(0.1869);
    Level(y3, T3(a), t, w, 0.1869, 0.1869);
    Level(y2, T2(a), t, w, y3, B3(a, w));
    Level(y1, T1(a), t, w, y2, B2(a, w));
  }

  /** The nested bound: c0 + t (c1 + t (c2 + t c3)) against 1. */
  lemma NestedBound(t: real, w: real, z: real, k0: real, k1: real, k2: real, x1: real, x2: real, b1: real, b2: real)
    requires Abs(t) <= w && z == k0 + t * x1 && x1 == k1 + t * x2 && Abs(x2) <= b2 && b1 == Abs(k1) + w * b2
    ensures Abs(z - 1.0) <= Abs(k0 - 1.0) + w * b1
  {
    hide Abs;
    Level(x1, k1, t, w, x2, b2);
    Level(z - 1.0, k0 - 1.0, t, w, x1, b1);
  }

  lemma Numeric1()
    ensures PatchBound(0.56, 0.06) <= 0.0104 && PatchBound(0.72, 0.1) <= 0.0104
  {
  }

  lemma Numeric2()
    ensures PatchBound(0.93, 0.11) <= 0.0104 && PatchBound(1.18, 0.14) <= 0.0104
  {
  }

  lemma Numeric3()
    ensures PatchBound(1.45, 0.13) <= 0.0104 && PatchBound(1.7, 0.12) <= 0.0104
  {
  }

  lemma Numeric4()
    ensures PatchBound(1.88, 0.06) <= 0.0104 && PatchBound(1.98, 0.04) <= 0.0104
  {
  }

  /** The centres and half-widths of the eight patches. */
  ghost predicate IsPatch(a: real, w: real) {
    || (a == 0.56 && w == 0.06) || (a == 0.72 && w == 0.1) || (a == 0.93 && w == 0.11) || (a == 1.18 && w == 0.14)
    || (a == 1.45 && w == 0.13) || (a == 1.7 && w == 0.12) || (a == 1.88 && w == 0.06) || (a == 1.98 && w == 0.04)
  }

  /** The patches cover [1/2, 2). */
  lemma PatchFor(m: real) returns (a: real, w: real)
    requires 0.5 <= m < 2.0
    ensures IsPatch(a, w) && Abs(m - a) <= w
  {
    a, w := if m <= 0.62 then 0.56 else if m <= 0.82 then 0.72 else if m <= 1.04 then 0.93 else if m <= 1.32 then 1.18
      else if m <= 1.58 then 1.45 else if m <= 1.82 then 1.7 else if m <= 1.94 then 1.88 else 1.98,
      if m <= 0.62 then 0.06 else if m <= 0.82 then 0.1 else if m <= 1.04 then 0.11 else if m <= 1.32 then 0.14
      else if m <= 1.58 then 0.13 else if m <= 1.82 then 0.12 else if m <= 1.94 then 0.06 else 0.04;
  }

  /** The defect of the polynomial on the whole interval. */
  lemma QuarticDefect(m: real, z: real)
    requires 0.5 <= m < 2.0 && z == m * (Quartic(m) * Quartic(m))
    ensures Abs(z - 1.0) <= 0.0104
  {
    hide Quartic, Abs, K0, K1, K2, CubicBound;
    var a, w := PatchFor(m);
    assert PatchBound(a, w) <= 0.0104 by {
      hide PatchBound;
      Numeric1();
      Numeric2();
      Numeric3();
      Numeric4();
    }
    var t := m - a;
    var x1, x2, x3 := AroundCentre(a, t, w, m, z);
    Level(x2, K2(a), t, w, x3, CubicBound(a, w));
    NestedBound(t, w, z, K0(a), K1(a), K2(a), x1, x2, SlopeBound(a, w), Abs(K2(a)) + w * CubicBound(a, w));
  }

  lemma Tangent(m: real, mm: real, a: real, aa: real)
    requires mm == m * m && aa == a * a
    ensures mm >= 2.0 * (a * m) - aa
  {
    var x := m - a;
    Distribute(x, m, -a, x);
    Distribute(x, m, -a, m);
    Distribute(x, m, -a, a);
    Squares(x);
  }

  lemma Affine(m: real, mm: real, a: real, b: real, u: real, um: real)
    requires mm == m * m && u == b + m * a && um == m * u
    ensures um == a * mm + b * m
  {
    Distribute(u, b, m * a, m);
    Regroup(a, m, m);
  }

  lemma QuarticNested(m: real, u: real, g: real, t: real)
    requires u == -1.152337 + m * 0.1869 && g == 2.757261 + m * u && t == -3.297634 + m * g
    ensures Quartic(m) == 2.503852 + m * t
  {
  }

  lemma QuarticPositive(m: real)
    requires 0.5 <= m < 2.0
    ensures Quartic(m) >= 0.2
  {
    hide Quartic;
    var mm, u := m * m, -1.152337 + m * 0.1869;
    var um := m * u;
    Affine(m, mm, 0.1869, -1.152337, u, um);
    Tangent(m, mm, 2.0, 4.0);
    var g := 2.757261 + um;
    assert g >= 1.2;
    var gm := m * g;
    MulLe(1.2, g, m);
    var t, s := -3.297634 + gm, -3.297634 + m * 1.2;
    MulLe(s, t, m);
    var sm, tm := m * s, m * t;
    assert sm <= tm;
    Affine(m, mm, 1.2, -3.297634, s, sm);
    Tangent(m, mm, 1.374, 1.887876);
    QuarticNested(m, u, g, t);
  }

  lemma NearbyProduct(m: real, q: real, r: real, z: real, w: real)
    requires 0.5 <= m < 2.0 && 0.2 <= q <= 1.43 && z == m * (q * q) && w == m * (r * r) && Abs(r - q) <= 0.00003
    ensures Abs(w - z) <= 2.0 * 0.0000861
  {
    var x, y := r - q, r + q;
    var xy := x * y;
    Bounded(xy, x, y, 0.00003, 2.87);
    Distribute(r * r, q * q, xy, m);
    Bounded(w - z, m, xy, 2.0, 0.0000861);
  }

  lemma NearbyDefect(m: real, q: real, r: real, z: real, w: real)
    requires 0.5 <= m < 2.0 && q >= 0.2 && z == m * (q * q) && w == m * (r * r)
    requires Abs(z - 1.0) <= 0.0104 && Abs(r - q) <= 0.00003
    ensures r > 0.0 && Abs(1.0 - w) <= 0.0106
  {
    Squares(q);
    SquareBounds(m, q * q);
    if q > 1.43 { MulLe(1.43, q, q); }
    NearbyProduct(m, q, r, z, w);
  }

  /** The initial approximation has a defect of at most 0.0106 for every m. */
  lemma InitialDefect(m: real) returns (d: real)
    requires Rep(m) && 0.5 <= m < 2.0
    ensures Ranges(m, Initial(m), d) && Abs(d) <= 0.0106
  {
    hide Initial, Quartic, Rep;
    QuarticPositive(m);
    InitialClose(m);
    var q, r := Quartic(m), Initial(m);
    QuarticDefect(m, m * (q * q));
    var w := m * (r * r);
    NearbyDefect(m, q, r, m * (q * q), w);
    d := 1.0 - w;
  }

  /** The open claim: the high word of m * r3^2 is 1 for every m in [1/2, 2). */
  lemma HighWordIsOne(m: real)
    requires Rep(m) && 0.5 <= m < 2.0
    ensures ScaledSquare(m, ThirdFrom(m, Initial(m))).h == 1.0
  {
    hide Initial, Rep, ScaledSquare, ThirdFrom;
    var d0 := InitialDefect(m);
    var d := ThirdReady(m, Initial(m), d0);
  }

  /** sqrt(m) as a pair, for the mantissa m. */
  function RootOfMantissa(m: real): Pair {
    LastStep(m, ThirdFrom(m, Initial(m)))
  }

  /** Its square is within 55.1 * 2^-106 of m, relatively. */
  lemma RootOfMantissaError(m: real)
    requires Rep(m) && 0.5 <= m < 2.0
    ensures var t := RootOfMantissa(m);
      IsDD(t) && Normalised(t) && RootOf(Value(t), m, 55.1)
  {
    hide Initial, Rep, ScaledSquare, ThirdFrom, LastStep, IsDD, Normalised, Value, Ranges, Ready;
    var d0 := InitialDefect(m);
    var d := ThirdReady(m, Initial(m), d0);
    LastStepError(m, ThirdFrom(m, Initial(m)), d);
  }
}
