/**
 The quick phase of exp: a polynomial of degree four in double precision, the
 product of two table entries as a pair, and their combination.
 */
module ExpQuick {
  import opened Dyadic
  import opened Rounding
  import opened ErrorFree
  import opened Product
  import opened DoubleDouble
  import opened BitPattern
  import opened DirectedTests
  import opened ZivTest
  import opened ExpTail
  import opened ExpScaling
  import opened LogTwo
  import ExpReduction
  import Sqrt12

  const C3: real := RN(0.166666666696497128841158996692684013396501541137695)
  const C4: real := RN(0.0416666666766101478902584176466916687786579132080078)

  /** highPolyWithSquare: the terms from the square on. */
  function HighPoly(rh: real): real {
    var rhSquare := FMul(rh, rh);
    var monomialCube := FMul(FMul(C3, rh), rhSquare);
    var monomialFour := FMul(C4, FMul(rhSquare, rhSquare));
    RN(FMul(0.5, rhSquare) + RN(monomialCube + monomialFour))
  }

  /** t9, which stands for e^r - 1. */
  function PolyWord(rh: real, rm: real): real {
    RN(rh + RN(rm + HighPoly(rh)))
  }

  /** polyTblh + polyTblm. */
  function QuickWords(rh: real, rm: real, tbl1: Pair, tbl2: Pair): Pair {
    Assembled(Mul22(tbl1, tbl2), PolyWord(rh, rm))
  }

  /** The table product, and its product with t9, added up. */
  function Assembled(tables: Pair, t9: real): Pair {
    var t10 := FMul(tables.h, t9);
    var t11 := Add12(tables.h, t10);
    Add12(t11.h, RN(t11.l + tables.l))
  }

  /** The polynomial that PolyWord evaluates, with q = rh^2. */
  function Terms(rh: real, rm: real, q: real): real {
    rh + rm + q / 2.0 + (C3 * rh) * q + C4 * (q * q)
  }

  // -------------------------------------------------- the polynomial

  /** The coefficients are close to 1/6 and 1/24. */
  lemma Coefficients()
    ensures 0.0 < C3 <= 0.1667 && 0.0 < C4 <= 0.0417
    ensures Abs(C3 - 1.0 / 6.0) <= 0.00000000002984 && Abs(C4 - 1.0 / 24.0) <= 0.00000000001
  {
    hide Pow2, RN;
    Sqrt12.NormalRange();
    RNBound(0.166666666696497128841158996692684013396501541137695);
    RNBound(0.0416666666766101478902584176466916687786579132080078);
  }

  /** A machine product of approximations of x0 and y0. */
  lemma FMulClose(x: real, y: real, x0: real, y0: real, z0: real, ax: real, ay: real, ex: real, ey: real, b: real)
    requires Abs(x) <= ax && Abs(y) <= ay && Abs(y0) <= ay && Abs(x - x0) <= ex && Abs(y - y0) <= ey && z0 == x0 * y0
    requires ax * ey + ex * ay + Eps(ax * ay) + Eps(Eps(0.0001)) <= b
    ensures Abs(FMul(x, y) - z0) <= b && Rep(FMul(x, y))
  {
    hide RN, Rep, FMul, Abs;
    Sqrt12.NormalRange();
    var z, dx, dy := x * y, x - x0, y - y0;
    var u, v := x * dy, dx * y0;
    Distribute(y, dy, y0, x);
    Distribute(x, dx, x0, y0);
    assert z - z0 == u + v;
    MulBound(x, dy, ax, ey);
    MulBound(dx, y0, ex, ay);
    MulBound(x, y, ax, ay);
    FMulError(x, y, z);
    MachineProducts(x, y);
    Triangle(u, v, z - z0);
    Triangle(FMul(x, y) - z, z - z0, FMul(x, y) - z0);
  }

  /** The reduced argument: a normalised pair below 0.0000848. */
  ghost predicate ReducedWords(rh: real, rm: real) {
    Rep(rh) && Rep(rm) && Abs(rh) <= 0.0000848 && Abs(rm) <= Eps(0.0000848)
  }

  lemma SquareTerms(rh: real, q: real)
    requires Rep(rh) && Abs(rh) <= 0.0000848 && q == rh * rh
    ensures 0.0 <= q <= 0.0000000072
    ensures var a := FMul(rh, rh);
      Abs(a - q) <= Eps(0.0000000073) && Abs(a) <= 0.0000000073 && Abs(FMul(0.5, a) - q / 2.0) <= Eps(0.0000000074)
    ensures Rep(FMul(0.5, FMul(rh, rh)))
  {
    hide RN, Rep, FMul;
    Sqrt12.Squares(rh);
    MulBound(rh, rh, 0.0000848, 0.0000848);
    FMulClose(rh, rh, rh, rh, q, 0.0000848, 0.0000848, 0.0, 0.0, Eps(0.0000000073));
    var a := FMul(rh, rh);
    FMulClose(0.5, a, 0.5, q, q / 2.0, 0.5, 0.0000000073, 0.0, Eps(0.0000000073), Eps(0.0000000074));
  }

  lemma CubeTerm(rh: real, q: real, a: real, z: real)
    requires Abs(rh) <= 0.0000848 && 0.0 <= q <= 0.0000000072 && z == (C3 * rh) * q
    requires Abs(a - q) <= Eps(0.0000000073) && Abs(a) <= 0.0000000073
    ensures Abs(FMul(FMul(C3, rh), a) - z) <= Eps(0.0000000000004) && Abs(z) <= 0.00000000000011
    ensures Rep(FMul(FMul(C3, rh), a))
  {
    hide RN, Rep, FMul;
    Coefficients();
    var c := C3 * rh;
    MulBound(C3, rh, 0.1667, 0.0000848);
    FMulClose(C3, rh, C3, rh, c, 0.1667, 0.0000848, 0.0, 0.0, Eps(0.0000143));
    MulBound(c, q, 0.0000142, 0.0000000072);
    FMulClose(FMul(C3, rh), a, c, q, z, 0.0000143, 0.0000000073, Eps(0.0000143), Eps(0.0000000073), Eps(0.0000000000004));
  }

  lemma FourthTerm(q: real, a: real, z: real)
    requires 0.0 <= q <= 0.0000000072 && z == C4 * (q * q)
    requires Abs(a - q) <= Eps(0.0000000073) && Abs(a) <= 0.0000000073
    ensures Abs(FMul(C4, FMul(a, a)) - z) <= Eps(0.000000000000001) && Abs(z) <= 0.00000000000001
    ensures Rep(FMul(C4, FMul(a, a)))
  {
    hide RN, Rep, FMul;
    Coefficients();
    var qq := q * q;
    MulBound(q, q, 0.0000000072, 0.0000000072);
    FMulClose(a, a, q, q, qq, 0.0000000073, 0.0000000073, Eps(0.0000000073), Eps(0.0000000073), Eps(0.0000000000000002));
    MulBound(C4, qq, 0.0417, 0.0000000000000001);
    FMulClose(C4, FMul(a, a), C4, qq, z, 0.0417, 0.0000000000000001, 0.0, Eps(0.0000000000000002), Eps(0.000000000000001));
  }

  /** A machine sum of two approximations. */
  lemma SumClose(x: real, y: real, x0: real, y0: real, ex: real, ey: real, m: real)
    requires Rep(x) && Rep(y) && Abs(x - x0) <= ex && Abs(y - y0) <= ey && Abs(x0 + y0) + ex + ey <= m
    ensures Abs(RN(x + y) - (x0 + y0)) <= ex + ey + Eps(m) && Rep(RN(x + y))
  {
    hide RN, Rep, Abs;
    RNSum(x, y);
    RNRep(x + y);
    Triangle(x - x0, y - y0, x + y - (x0 + y0));
    Triangle(x0 + y0, x + y - (x0 + y0), x + y);
    Triangle(RN(x + y) - (x + y), x + y - (x0 + y0), RN(x + y) - (x0 + y0));
  }

  lemma HighPolyError(rh: real, q: real, cube: real, four: real)
    requires Rep(rh) && Abs(rh) <= 0.0000848 && q == rh * rh && cube == (C3 * rh) * q && four == C4 * (q * q)
    ensures Abs(HighPoly(rh) - (q / 2.0 + (cube + four))) <= Eps(0.0000000112) && Rep(HighPoly(rh))
    ensures Abs(q / 2.0 + (cube + four)) <= 0.0000000037
  {
    hide RN, Rep, FMul, Eps, C3, C4;
    SquareTerms(rh, q);
    var a := FMul(rh, rh);
    CubeTerm(rh, q, a, cube);
    FourthTerm(q, a, four);
    var b, c, d := FMul(0.5, a), FMul(FMul(C3, rh), a), FMul(C4, FMul(a, a));
    EpsSums();
    SumClose(c, d, cube, four, Eps(0.0000000000004), Eps(0.000000000000001), 0.00000000000013);
    SumClose(b, RN(c + d), q / 2.0, cube + four, Eps(0.0000000074), Eps(0.0000000000006), 0.0000000037);
  }

  lemma EpsSums()
    ensures Eps(0.0000000000004) + Eps(0.000000000000001) + Eps(0.00000000000013) <= Eps(0.0000000000006) <= 0.000000000000000001
    ensures Eps(0.0000000074) + Eps(0.0000000000006) + Eps(0.0000000037) <= Eps(0.0000000112) <= 0.000000000000000001
    ensures Eps(0.0000000112) + Eps(0.0000000038) <= Eps(0.0000000151) <= 0.000000000000000001
    ensures Eps(0.0000000151) + Eps(0.00008481) <= Eps(0.00008483) <= 0.000000000000000001
    ensures 0.0 <= Eps(0.000000000000001) <= Eps(0.0000000000004) <= Eps(0.0000000000006) && 0.0 <= Eps(0.0000848) <= 0.000000000000000001
    ensures Eps(0.0000000000006) <= Eps(0.0000000074) <= Eps(0.0000000112)
  {
  }

  lemma TermsSum(rh: real, rm: real, s: real)
    requires Abs(rh) <= 0.0000848 && Abs(rm) <= 0.000000000000000001 && Abs(s) <= 0.0000000037
    ensures Abs(rm + s) <= 0.00000000371 && Abs(rh + (rm + s)) <= 0.000084804
  {
  }

  lemma WordSize(w: real, p: real)
    requires Abs(p) <= 0.000084804 && Abs(w - p) <= 0.000000000000000001
    ensures Abs(w) <= 0.00008481
  {
  }

  /** t9 against the terms as written, with the coefficients of the source. */
  lemma TermsError(rh: real, rm: real, q: real)
    requires ReducedWords(rh, rm) && q == rh * rh
    ensures Abs(PolyWord(rh, rm) - Terms(rh, rm, q)) <= Eps(0.00008483) && Abs(PolyWord(rh, rm)) <= 0.00008481
    ensures Rep(PolyWord(rh, rm))
  {
    hide RN, Rep, FMul, HighPoly, Eps, C3, C4, Abs;
    var cube, four := (C3 * rh) * q, C4 * (q * q);
    var s := q / 2.0 + (cube + four);
    HighPolyError(rh, q, cube, four);
    EpsSums();
    TermsSum(rh, rm, s);
    AbsSelf(rm);
    AbsSelf(rh);
    SumClose(rm, HighPoly(rh), rm, s, 0.0, Eps(0.0000000112), 0.0000000038);
    SumClose(rh, RN(rm + HighPoly(rh)), rh, rm + s, 0.0, Eps(0.0000000151), 0.00008481);
    assert Terms(rh, rm, q) == rh + (rm + s);
    WordSize(PolyWord(rh, rm), rh + (rm + s));
  }

  /** The Taylor polynomial of e^r of degree four. */
  function Taylor(r: real): real {
    var s := r * r;
    1.0 + r + s / 2.0 + s * r / 6.0 + s * s / 24.0
  }

  /** The powers of r = rh + rm against those of rh. */
  lemma PowersOf(rh: real, rm: real, r: real, q: real, s: real)
    requires ReducedWords(rh, rm) && r == rh + rm && q == rh * rh && s == r * r
    ensures Abs(s - q) <= 0.0000000000000000000000017 && 0.0 <= q <= 0.0000000072
    ensures Abs(s * r - q * rh) <= 0.0000000000000000000000000003 && Abs(q * rh) <= 0.0000000000006106
    ensures Abs(s * s - q * q) <= 0.0000000000000000000000000003 && q * q <= 0.0000000000000001
  {
    hide Abs, Rep;
    WordSizes(rh, rm);
    Sqrt12.Squares(rh);
    MulBound(rh, rh, 0.0000848, 0.0000848);
    var t, u := 2.0 * rh + rm, s - q;
    Distribute(r, rh, rm, r);
    Distribute(r, rh, rm, rh);
    Distribute(r, rh, rm, rm);
    Distribute(t, 2.0 * rh, rm, rm);
    assert u == rm * t;
    MulBound(rm, t, 0.0000000000000000000095, 0.0001697);
    Distribute(s, q, u, r);
    Distribute(r, rh, rm, q);
    var ur, qm := u * r, q * rm;
    MulBound(u, r, 0.0000000000000000000000017, 0.00008481);
    Positive(q);
    MulBound(q, rm, 0.0000000072, 0.0000000000000000000095);
    assert s * r - q * rh == ur + qm;
    Triangle(ur, qm, s * r - q * rh);
    MulBound(q, rh, 0.0000000072, 0.0000848);
    Distribute(s, q, u, s);
    Distribute(s, q, u, q);
    var us, uq := u * s, u * q;
    MulBound(r, r, 0.00008481, 0.00008481);
    MulBound(u, s, 0.0000000000000000000000017, 0.00000001);
    MulBound(u, q, 0.0000000000000000000000017, 0.0000000072);
    assert s * s - q * q == us + uq;
    Triangle(us, uq, s * s - q * q);
    MulBound(q, q, 0.0000000072, 0.0000000072);
    Sqrt12.Squares(q);
    Positive(q * q);
  }

  lemma WordSizes(rh: real, rm: real)
    requires ReducedWords(rh, rm)
    ensures Abs(rm) <= 0.0000000000000000000095 && Abs(rh + rm) <= 0.00008481 && Abs(2.0 * rh + rm) <= 0.0001697
  {
    hide Rep;
  }

  /** The terms and the Taylor polynomial, product by product. */
  lemma ByProducts(rh: real, rm: real, r: real, q: real, cube: real, fourth: real, s: real, sr: real, ss: real,
                 a3: real, a4: real)
    requires cube == q * rh && fourth == q * q && s == r * r && sr == s * r && ss == s * s
    requires a3 == C3 * cube && a4 == C4 * fourth
    ensures Terms(rh, rm, q) == rh + rm + q / 2.0 + a3 + a4
    ensures Taylor(r) == 1.0 + r + s / 2.0 + sr / 6.0 + ss / 24.0
  {
    hide C3, C4;
    Regroup(C3, rh, q);
  }

  /** What the coefficients lack, term by term. */
  lemma CoefficientErrors(cube: real, fourth: real, a3: real, a4: real) returns (e3: real, e4: real)
    requires a3 == C3 * cube && a4 == C4 * fourth
    requires Abs(cube) <= 0.0000000000006106 && 0.0 <= fourth <= 0.0000000000000001
    ensures a3 == cube / 6.0 + e3 && Abs(e3) <= 0.00000000002984 * 0.0000000000006106
    ensures a4 == fourth / 24.0 + e4 && Abs(e4) <= 0.00000000001 * 0.0000000000000001
  {
    hide Abs, C3, C4;
    Coefficients();
    var c3, c4 := C3 - 1.0 / 6.0, C4 - 1.0 / 24.0;
    e3, e4 := c3 * cube, c4 * fourth;
    Distribute(C3, 1.0 / 6.0, c3, cube);
    Distribute(C4, 1.0 / 24.0, c4, fourth);
    MulBound(c3, cube, 0.00000000002984, 0.0000000000006106);
    Positive(fourth);
    MulBound(c4, fourth, 0.00000000001, 0.0000000000000001);
  }

  /** The terms are the Taylor polynomial of degree four to within 2e-23. */
  lemma TermsAreTaylor(rh: real, rm: real, r: real, q: real)
    requires ReducedWords(rh, rm) && r == rh + rm && q == rh * rh
    ensures Abs(1.0 + Terms(rh, rm, q) - Taylor(r)) <= 0.00000000000000000000002
  {
    hide Abs, C3, C4, ReducedWords, Terms, Taylor;
    var s := r * r;
    PowersOf(rh, rm, r, q, s);
    var cube, fourth, sr, ss := q * rh, q * q, s * r, s * s;
    var a3, a4 := C3 * cube, C4 * fourth;
    ByProducts(rh, rm, r, q, cube, fourth, s, sr, ss, a3, a4);
    Sqrt12.Squares(q);
    var e3, e4 := CoefficientErrors(cube, fourth, a3, a4);
    TaylorLinear(Terms(rh, rm, q), Taylor(r), rh, rm, r, q, cube, fourth, s, sr, ss, a3, a4, e3, e4);
  }

  lemma TaylorLinear(t: real, y: real, rh: real, rm: real, r: real, q: real, cube: real, fourth: real,
                     s: real, sr: real, ss: real, a3: real, a4: real, e3: real, e4: real)
    requires t == rh + rm + q / 2.0 + a3 + a4 && y == 1.0 + r + s / 2.0 + sr / 6.0 + ss / 24.0 && r == rh + rm
    requires a3 == cube / 6.0 + e3 && a4 == fourth / 24.0 + e4
    requires Abs(s - q) <= 0.0000000000000000000000017 && Abs(sr - cube) <= 0.0000000000000000000000000003
    requires Abs(ss - fourth) <= 0.0000000000000000000000000003
    requires Abs(e3) <= 0.00000000002984 * 0.0000000000006106 && Abs(e4) <= 0.00000000001 * 0.0000000000000001
    ensures Abs(1.0 + t - y) <= 0.00000000000000000000002
  {
  }

  /** t9 is the Taylor polynomial without its leading 1, to within half a unit in
      the last place of rh, nearly. */
  lemma PolyWordError(rh: real, rm: real, r: real)
    requires ReducedWords(rh, rm) && r == rh + rm
    ensures Abs(PolyWord(rh, rm) - (Taylor(r) - 1.0)) <= Eps(0.0000851) && Abs(PolyWord(rh, rm)) <= 0.00008481
    ensures Rep(PolyWord(rh, rm))
  {
    hide RN, Rep, PolyWord, Terms, Taylor, ReducedWords, Abs;
    var q := rh * rh;
    TermsError(rh, rm, q);
    TermsAreTaylor(rh, rm, r, q);
    var p, t := Terms(rh, rm, q), Taylor(r) - 1.0;
    assert p - t == 1.0 + p - Taylor(r);
    Triangle(PolyWord(rh, rm) - p, p - t, PolyWord(rh, rm) - t);
    TinyShare();
  }

  lemma TinyShare()
    ensures Eps(0.00008483) + 0.00000000000000000000002 <= Eps(0.0000851)
  {
  }

  lemma AbsSelf(x: real)
    ensures Abs(x - x) <= 0.0
  {
  }

  // ------------------------------------------- the tables and the words

  /** Two table entries and the powers of two they stand for. */
  ghost predicate Entries(tbl1: Pair, tbl2: Pair, T1: real, T2: real) {
    && IsDD(tbl1) && IsDD(tbl2) && 0.999 <= Value(tbl1) <= 2.001 && 0.999 <= Value(tbl2) <= 2.001
    && Near(Value(tbl1), T1, 2.0) && Near(Value(tbl2), T2, 2.0)
  }

  lemma EntrySize(p: Pair, t: real)
    requires IsDD(p) && 0.999 <= Value(p) <= 2.001 && Near(Value(p), t, 2.0)
    ensures 0.29 <= p.h && 0.998 <= t <= 2.002 && Abs(Value(p) - t) <= Eps(Eps(4.1))
  {
    hide Rep;
  }

  /** The product of the entries against the product of the powers. */
  lemma TablesError(tbl1: Pair, tbl2: Pair, T1: real, T2: real, T: real)
    requires Entries(tbl1, tbl2, T1, T2) && T == T1 * T2
    ensures var tables := Mul22(tbl1, tbl2);
      IsDD(tables) && Abs(Value(tables) - T) <= Eps(Eps(60.0)) && 0.97 <= tables.h <= 4.1
    ensures 0.99 <= T <= 4.05
  {
    hide RN, Rep, Mul22, Normalised, Near, Abs, IsDD, Value;
    EntrySize(tbl1, T1);
    EntrySize(tbl2, T2);
    EntryRange(tbl1);
    EntryRange(tbl2);
    var v1, v2 := Value(tbl1), Value(tbl2);
    var z := v1 * v2;
    Sqrt12.Moderate22(tbl1, tbl2, z);
    ProductOf(v1, v2, T1, T2, z, T);
    var tables := Mul22(tbl1, tbl2);
    NearIs(Value(tables), z, 9.0, 9.0 * Abs(z));
    ProductClose(Value(tables), z, T);
    HighOfTables(tables);
  }

  lemma EntryRange(p: Pair)
    requires 0.999 <= Value(p) <= 2.001
    ensures Abs(Value(p)) <= 2.002
  {
  }

  lemma ProductOf(v1: real, v2: real, T1: real, T2: real, z: real, T: real)
    requires 0.999 <= v1 <= 2.001 && 0.999 <= v2 <= 2.001 && 0.998 <= T1 <= 2.002 && 0.998 <= T2 <= 2.002
    requires Abs(v1 - T1) <= Eps(Eps(4.1)) && Abs(v2 - T2) <= Eps(Eps(4.1)) && z == v1 * v2 && T == T1 * T2
    ensures Abs(z - T) <= Eps(Eps(17.0)) && 0.998 <= z <= 4.05 && 0.99 <= T <= 4.05
  {
    hide Abs;
    var d1, d2 := v1 - T1, v2 - T2;
    var u, w := d1 * v2, T1 * d2;
    Distribute(v1, T1, d1, v2);
    Distribute(v2, T2, d2, T1);
    assert z - T == u + w;
    Positive(v2);
    Positive(T1);
    MulBound(d1, v2, Eps(Eps(4.1)), 2.002);
    MulBound(T1, d2, 2.002, Eps(Eps(4.1)));
    Triangle(u, w, z - T);
    ProductLe(0.999 * 0.999, z, 0.999, 0.999, v1, v2);
    ProductLe(z, 2.001 * 2.001, v1, v2, 2.001, 2.001);
    ProductLe(0.998 * 0.998, T, 0.998, 0.998, T1, T2);
    ProductLe(T, 2.002 * 2.002, T1, T2, 2.002, 2.002);
  }

  lemma Positive(x: real)
    ensures x >= 0.0 ==> Abs(x) == x
  {
  }

  lemma ProductClose(v: real, z: real, T: real)
    requires Abs(v - z) <= Eps(Eps(9.0 * Abs(z))) && Abs(z - T) <= Eps(Eps(17.0)) && 0.998 <= z <= 4.05
    ensures Abs(v - T) <= Eps(Eps(60.0)) && 0.99 <= v <= 4.06
  {
  }

  lemma HighOfTables(p: Pair)
    requires IsDD(p) && 0.99 <= Value(p) <= 4.06
    ensures 0.97 <= p.h <= 4.1
  {
    hide Rep;
  }

  /** The last additions: what is lost is the rounding of t10, the product of the
      low table word with t9, and the last rounding. */
  lemma Combined(th: real, tl: real, w: real, t10: real, sh: real, sl: real, t13: real, tw: real, lw: real, eta: real)
    requires 0.97 <= th <= 4.1 && Abs(tl) <= Eps(th) && Abs(tw) <= 0.00008481 * th && Abs(lw) <= Eps(0.00008481 * th)
    requires Abs(t10 - tw) <= Eps(Abs(tw)) + eta && 0.0 < eta <= Eps(Eps(0.0001))
    requires sh + sl == th + t10 && Abs(sl) <= Eps(Abs(th + t10)) && Abs(t13 - (sl + tl)) <= Eps(Abs(sl + tl))
    ensures Abs(sh + t13 - (th + tl + tw + lw)) <= Eps(0.00016963 * th)
    ensures Abs(t13) <= Abs(sh) && 0.9999 * th <= sh + t13 <= 1.001 * th
  {
    hide Abs;
    CombinedSizes(th, tl, t10, sh, sl, t13, tw, eta);
    var e, f := t10 - tw, t13 - (sl + tl);
    var x := sh + t13 - (th + tl + tw + lw);
    assert x == e + f - lw;
    Triangle(e, f, e + f);
    AbsNeg(lw);
    Triangle(e + f, -lw, x);
  }

  lemma CombinedSizes(th: real, tl: real, t10: real, sh: real, sl: real, t13: real, tw: real, eta: real)
    requires 0.97 <= th <= 4.1 && Abs(tl) <= Eps(th) && Abs(tw) <= 0.00008481 * th
    requires Abs(t10 - tw) <= Eps(Abs(tw)) + eta && 0.0 < eta <= Eps(Eps(0.0001))
    requires sh + sl == th + t10 && Abs(sl) <= Eps(Abs(th + t10)) && Abs(t13 - (sl + tl)) <= Eps(Abs(sl + tl))
    ensures Abs(t10 - tw) <= Eps(0.000084811 * th) && Abs(t13 - (sl + tl)) <= Eps(Eps(2.002 * th))
    ensures Abs(t13) <= Abs(sh) && 0.9999 * th <= sh + t13 <= 1.001 * th
  {
    hide Abs;
    Positive(th);
    Triangle(t10 - tw, tw, t10);
    assert Abs(t10) <= 0.0000849 * th;
    Triangle(th, t10, th + t10);
    LastSizes(th, tl, t10, sh, sl, t13);
  }

  lemma LastSizes(th: real, tl: real, t10: real, sh: real, sl: real, t13: real)
    requires 0.97 <= th && Abs(tl) <= Eps(th) && Abs(t10) <= 0.0000849 * th && Abs(th + t10) <= 1.0000849 * th
    requires sh + sl == th + t10 && Abs(sl) <= Eps(Abs(th + t10)) && Abs(t13 - (sl + tl)) <= Eps(Abs(sl + tl))
    ensures Abs(t13 - (sl + tl)) <= Eps(Eps(2.002 * th)) && Abs(t13) <= Abs(sh) && 0.9999 * th <= sh + t13 <= 1.001 * th
  {
    hide Abs;
    Triangle(sl, tl, sl + tl);
    Triangle(t13 - (sl + tl), sl + tl, t13);
    Negatives(t13, sl, t10);
    Positive(sh);
  }

  lemma Negatives(x: real, y: real, z: real)
    ensures -Abs(x) <= x <= Abs(x) && -Abs(y) <= y <= Abs(y) && -Abs(z) <= z <= Abs(z)
  {
  }

  /** The two products with t9. */
  ghost predicate Products(t: Pair, w: real, tw: real, lw: real) {
    && IsDD(t) && 0.97 <= t.h <= 4.1 && Abs(tw) <= 0.00008481 * t.h && Abs(lw) <= Eps(0.00008481 * t.h)
    && Abs(FMul(t.h, w) - tw) <= Eps(Abs(tw)) + Eta() && Rep(FMul(t.h, w))
  }

  lemma AssembledSum(t: Pair, w: real, tw: real, lw: real)
    requires Products(t, w, tw, lw)
    ensures var r := Assembled(t, w);
      && Normalised(r) && Abs(Value(r) - (t.h + t.l + tw + lw)) <= Eps(0.00016963 * t.h) && 0.9999 * t.h <= Value(r) <= 1.001 * t.h
  {
    hide Pow2, FloorIndex, Mult, Cexp, RN, Rep, FMul, Add12, Eps, Normalised, Abs, Eta;
    Sqrt12.NormalRange();
    LowOfTables(t);
    var t10 := FMul(t.h, w);
    TenIsSmaller(t.h, tw, t10, Eta());
    Add12Parts(t.h, t10);
    var s := Add12(t.h, t10);
    RNSum(s.l, t.l);
    RNRep(s.l + t.l);
    var t13 := RN(s.l + t.l);
    Combined(t.h, t.l, w, t10, s.h, s.l, t13, tw, lw, Eta());
    Add12Normalised(s.h, t13);
  }

  lemma LowOfTables(t: Pair)
    requires IsDD(t) && 0.97 <= t.h <= 4.1
    ensures Abs(t.l) <= Eps(t.h)
  {
    hide Rep;
  }

  lemma CombinedWords(rh: real, rm: real, tbl1: Pair, tbl2: Pair, v: real, vw: real)
    requires ReducedWords(rh, rm) && IsDD(Mul22(tbl1, tbl2)) && 0.97 <= Mul22(tbl1, tbl2).h <= 4.1
    requires v == Value(Mul22(tbl1, tbl2)) && vw == v * PolyWord(rh, rm)
    ensures var r, th := QuickWords(rh, rm, tbl1, tbl2), Mul22(tbl1, tbl2).h;
      Normalised(r) && Abs(Value(r) - (v + vw)) <= Eps(0.00016963 * th) && 0.9999 * th <= Value(r) <= 1.001 * th
  {
    hide Pow2, FloorIndex, Mult, Cexp, RN, Rep, FMul, Mul22, PolyWord, Assembled, Eps, Normalised, Eta, Abs, Taylor;
    PolyWordError(rh, rm, rh + rm);
    var w, t := PolyWord(rh, rm), Mul22(tbl1, tbl2);
    var tw, lw := t.h * w, t.l * w;
    Distribute(v, t.h, t.l, w);
    FMulError(t.h, w, tw);
    MachineProducts(t.h, w);
    TableProducts(t, w, tw, lw);
    AssembledSum(t, w, tw, lw);
    assert v + vw == t.h + t.l + tw + lw;
  }

  lemma Add12Parts(a: real, b: real)
    requires Rep(a) && Rep(b) && Abs(b) <= Abs(a)
    ensures var s := Add12(a, b);
      Rep(s.h) && Rep(s.l) && s.h + s.l == a + b && Abs(s.l) <= Eps(Abs(a + b))
  {
    hide Pow2, FloorIndex, Mult, Cexp, RN, Rep;
    Add12Exact(a, b);
    Add12Normalised(a, b);
    RNSum(a, b);
    AbsSwap(RN(a + b), a + b);
  }

  lemma TableProducts(t: Pair, w: real, tw: real, lw: real)
    requires IsDD(t) && 0.97 <= t.h <= 4.1 && Abs(w) <= 0.00008481 && tw == t.h * w && lw == t.l * w
    ensures Abs(tw) <= 0.00008481 * t.h && Abs(lw) <= Eps(0.00008481 * t.h) && Abs(t.l) <= Eps(t.h)
  {
    hide Rep;
    AbsScale(tw, t.h, w, 0.00008481);
    MulBound(t.l, w, Eps(t.h), 0.00008481);
  }

  lemma TenIsSmaller(th: real, tw: real, t10: real, eta: real)
    requires 0.97 <= th <= 4.1 && Abs(tw) <= 0.00008481 * th && Abs(t10 - tw) <= Eps(Abs(tw)) + eta && 0.0 < eta <= Eps(Eps(0.0001))
    ensures Abs(t10) <= Abs(th)
  {
  }

  /** The true value against v * (1 + w). */
  lemma TrueValue(v: real, w: real, vw: real, T: real, E: real, y: real, th: real, p: real)
    requires vw == v * w && y == T * E && Abs(v - T) <= Eps(Eps(60.0)) && 0.97 <= th && 0.0 <= v <= 1.001 * th
    requires Abs(E - p) <= Eps(0.00023) && Abs(w - (p - 1.0)) <= Eps(0.0000851) && Abs(w) <= 0.00008481
    ensures Abs(y - (v + vw)) <= Eps(0.00031545 * th)
  {
    hide Abs;
    var d, e := T - v, E - (1.0 + w);
    var u, x := d * E, v * e;
    Distribute(T, d, v, E);
    Distribute(E, e, 1.0 + w, v);
    Distribute(1.0 + w, 1.0, w, v);
    assert y - (v + vw) == u + x;
    AbsSwap(v, T);
    FactorSizes(E, w, p);
    MulBound(d, E, Eps(Eps(60.0)), 1.0002);
    AbsScale(x, v, e, Eps(0.0003151));
    MulLe(v, 1.001 * th, Eps(0.0003151));
    Triangle(u, x, y - (v + vw));
    assert Eps(0.0003151) * (1.001 * th) == Eps(0.0003154151 * th);
  }

  lemma FactorSizes(E: real, w: real, p: real)
    requires Abs(E - p) <= Eps(0.00023) && Abs(w - (p - 1.0)) <= Eps(0.0000851) && Abs(w) <= 0.00008481
    ensures Abs(E) <= 1.0002 && Abs(E - (1.0 + w)) <= Eps(0.0003151)
  {
  }

  lemma WithinTwo64(y: real, r: real, s: real, th: real)
    requires Abs(y - s) <= Eps(0.00031545 * th) && Abs(r - s) <= Eps(0.00016963 * th) && 0.9999 * th <= r && 0.97 <= th
    ensures Abs(y - r) <= Times(1.0 / 18446744073709551616.0, Abs(r)) && r >= 0.96
  {
  }

  /**
   The quick phase of exp: for table entries within 2 units of 2^-106 of T1 and
   T2, and E within 2.5e-20 of the Taylor polynomial of e^r of degree four at
   r = rh + rm, the two words are normalised and stand for T1 * T2 * E with a
   relative error of at most 2^-64.
   */
  lemma QuickWordsError(rh: real, rm: real, tbl1: Pair, tbl2: Pair, T1: real, T2: real, E: real, T: real, y: real)
    requires ReducedWords(rh, rm) && Entries(tbl1, tbl2, T1, T2) && T == T1 * T2 && y == T * E
    requires Abs(E - Taylor(rh + rm)) <= Eps(0.00023)
    ensures var r := QuickWords(rh, rm, tbl1, tbl2);
      Normalised(r) && Abs(y - Value(r)) <= Times(1.0 / 18446744073709551616.0, Abs(Value(r))) && 0.96 <= Value(r) <= 4.2
  {
    hide RN, Rep, Mul22, PolyWord, QuickWords, Taylor, Eps, Abs, Normalised, Near, Value, Times;
    TablesError(tbl1, tbl2, T1, T2, T);
    var t := Mul22(tbl1, tbl2);
    var v, w := Value(t), PolyWord(rh, rm);
    var vw := v * w;
    PolyWordError(rh, rm, rh + rm);
    CombinedWords(rh, rm, tbl1, tbl2, v, vw);
    TablesSize(t);
    TrueValue(v, w, vw, T, E, y, t.h, Taylor(rh + rm));
    WithinTwo64(y, Value(QuickWords(rh, rm, tbl1, tbl2)), v + vw, t.h);
  }

  lemma TablesSize(t: Pair)
    requires IsDD(t) && 0.97 <= t.h <= 4.1
    ensures 0.0 <= Value(t) <= 1.001 * t.h
  {
    hide Rep;
  }

  /** The argument reduction delivers such words. */
  lemma ReductionSuits(x: real, kd: real, ln2: real, exact: real)
    requires ExpReduction.Matched(x, kd) && IsLn2(ln2) && exact == x - kd * (ln2 / 4096.0)
    ensures var r := ExpReduction.ReducedArgument(x, kd);
      ReducedWords(r.h, r.l) && Abs(r.h + r.l - exact) <= Eps(0.00000000000016) && Abs(r.h + r.l) <= 0.0000847
  {
    hide RN, Rep, ExpReduction.Matched, ExpReduction.ReducedArgument, IsLn2;
    ExpReduction.ReductionError(x, kd, ln2, exact);
    var r := ExpReduction.ReducedArgument(x, kd);
    ExpReduction.ReducedRep(x, kd);
    NormalisedIsDD(r);
    ReducedSizes(r.h, r.l);
  }

  lemma ReducedSizes(rh: real, rm: real)
    requires Abs(rm) <= Eps(Abs(rh)) && Abs(rh + rm) <= 0.0000847
    ensures Abs(rh) <= 0.0000848 && Abs(rm) <= Eps(0.0000848)
  {
  }

  /**
   The quick phase of exp_rn from the reduced argument to the returned pattern:
   whenever the rounding test passes, the result is 2^M * T1 * T2 * e^r rounded
   to nearest.
   */
  method QuickExit(rh: real, rm: real, tbl1: Pair, tbl2: Pair, M: int,
                   ghost T1: real, ghost T2: real, ghost E: real, ghost T: real, ghost y: real)
      returns (r: Option<Bits64>)
    requires ReducedWords(rh, rm) && Entries(tbl1, tbl2, T1, T2) && T == T1 * T2 && y == T * E
    requires Abs(E - Taylor(rh + rm)) <= Eps(0.00023)
    ensures var w := QuickWords(rh, rm, tbl1, tbl2); r.Some? <==> Passes(w.h, w.l, ROUNDCST)
    ensures r.Some? && Target(y, M) && RN(Ldexp(y, M)) < Pow2(1024) ==> Decode(r.value) == RN(Ldexp(y, M))
  {
    hide Pow2, RN, Rep, Decode, Finite, Encode, Ldexp, Target, QuickWords, Passes, Taylor, Eps, Abs, Normalised, Times,
      Entries, ReducedWords, ROUNDCST;
    QuickWordsError(rh, rm, tbl1, tbl2, T1, T2, E, T, y);
    var w := QuickWords(rh, rm, tbl1, tbl2);
    HighWord(w);
    EncodeBits(false, w.h);
    var ph := Encode(false, w.h);
    r := QuickRN(ph, w.l, M);
    assert QuickError(ph, w.l, y);
  }

  lemma HighWord(w: Pair)
    requires Normalised(w) && 0.96 <= Value(w) <= 4.2
    ensures Rep(w.h) && 0.5 <= w.h < Pow2(1024) && w.h == RN(w.h + w.l)
  {
    hide Pow2, RN, Rep;
    NormalisedIsDD(w);
    Pow2Zero();
    Pow2Succ(0);
    Pow2Succ(1);
    Pow2Succ(2);
    Pow2Mono(3, 1024);
  }
}
