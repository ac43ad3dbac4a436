/**
 Double-double division: Div22 and its relative error.
 */
module Division {
  import opened Dyadic
  import opened Rounding
  import opened ErrorFree
  import opened Product
  import opened DoubleDouble

  /** The machine quotient. */
  function FDiv(x: real, y: real): real
    requires y != 0.0
  {
    RN(x / y)
  }

  lemma FDivIs(x: real, y: real, q: real)
    requires y != 0.0 && q * y == x
    ensures FDiv(x, y) == RN(q)
  {
    hide RN;
    assert x / y == q;
  }

  /** zh + zl ~ (xh+xl) / (yh+yl). */
  function Div22(x: Pair, y: Pair): Pair
    requires y.h != 0.0
  {
    var ch := FDiv(x.h, y.h);
    var u := Mul12(ch, y.h);
    var r := RN(RN(RN(x.h - u.h) - u.l) + x.l);
    var cl := FDiv(RN(r - FMul(ch, y.l)), y.h);
    Closed(ch, cl)
  }

  /** The rounded quotient of the high words: its error, its exponent. */
  lemma Quotient(q: real, xh: real, yh: real)
    requires Abs(q) >= Tiny() && q * yh == xh
    ensures Rep(RN(q)) && Abs(RN(q)) >= Pow2(Cexp(RN(q)) + 52) && Abs(RN(q) - q) <= Pow2(Cexp(RN(q)) - 1)
    ensures Abs(RN(q) - q) <= Eps(Abs(q))
  {
    hide Pow2, FloorIndex, Mult, Cexp, RN, Rep, Eps;
    var c := Cexp(q);
    Pow2Mono(EMIN + 53, EMIN + 114);
    Pow2Mono(EMIN + 52, EMIN + 114);
    CexpGe(q, EMIN + 1);
    RNRelative(q);
    RNRep(q);
    RNError(q);
    RepPow2(c + 52);
    RNMagnitude(q, Pow2(c + 52));
    CexpGe(RN(q), c);
    Pow2Mono(c - 1, Cexp(RN(q)) - 1);
  }

  lemma ErrorTimes(d: real, q: real, yh: real, e: real, xh: real)
    requires e == d * yh && xh == q * yh && Abs(d) <= Eps(Abs(q))
    ensures Abs(e) <= Eps(Abs(xh))
  {
    AbsMul(d, yh);
    AbsMul(q, yh);
    EpsTimes(Abs(d), Abs(q), Abs(yh));
  }

  /** The remainder of the high quotient is small, relatively and on the grid of
      the product. */
  lemma RemainderSmall(q: real, ch: real, xh: real, yh: real, z: real)
    requires q * yh == xh && z == ch * yh && Abs(ch - q) <= Eps(Abs(q))
    requires Abs(ch - q) <= Pow2(Cexp(ch) - 1)
    ensures Abs(xh - z) <= Eps(Abs(xh)) && Abs(xh - z) <= Pow2(Cexp(ch) + Cexp(yh) + 52)
  {
    hide Pow2, Cexp, Abs, Eps;
    var d, e := q - ch, xh - z;
    Distribute(q, ch, d, yh);
    assert e == d * yh;
    AbsSwap(q, ch);
    ErrorTimes(d, q, yh, e, xh);
    AbsBounded(e, d, yh, Pow2(Cexp(ch) - 1), Pow2(Cexp(yh) + 53));
    Pow2Add(Cexp(ch) - 1, Cexp(yh) + 53);
  }

  lemma AbsBounded(e: real, d: real, y: real, a: real, b: real)
    requires e == d * y && Abs(d) <= a && Abs(y) <= b
    ensures Abs(e) <= a * b
  {
    MulBound(d, y, a, b);
  }

  lemma HalfAtLeast(x: real, z: real)
    requires Abs(x - z) <= Eps(Abs(x))
    ensures 2.0 * Abs(x) >= Abs(z) && 2.0 * Abs(z) >= Abs(x)
  {
  }

  /** Normal factors: the product has 104 leading bits. */
  lemma ProductLarge(ch: real, yh: real, z: real)
    requires z == ch * yh && Abs(ch) >= Pow2(Cexp(ch) + 52) && Abs(yh) >= Pow2(Cexp(yh) + 52)
    ensures Abs(z) >= Pow2(Cexp(ch) + Cexp(yh) + 104)
  {
    hide Pow2, Cexp, Abs;
    var a, b := Cexp(ch) + 52, Cexp(yh) + 52;
    AbsProduct(z, ch, yh);
    Pow2Add(a, b);
    ProductLe(Pow2(a + b), Abs(z), Pow2(a), Pow2(b), Abs(ch), Abs(yh));
  }

  /** The remainder of the division of doubles is a double. */
  lemma RemainderRep(ch: real, xh: real, yh: real, z: real)
    requires Rep(ch) && Rep(xh) && Rep(yh) && z == ch * yh && Cexp(ch) + Cexp(yh) >= EMIN
    requires Abs(ch) >= Pow2(Cexp(ch) + 52) && Abs(yh) >= Pow2(Cexp(yh) + 52)
    requires Abs(xh - z) <= Eps(Abs(xh)) && Abs(xh - z) <= Pow2(Cexp(ch) + Cexp(yh) + 52)
    ensures Rep(xh - z)
  {
    hide Pow2, FloorIndex, Mult, Cexp, Rep, Eps;
    var g := Cexp(ch) + Cexp(yh);
    ProductLarge(ch, yh, z);
    HalfAtLeast(xh, z);
    Pow2Succ(g + 103);
    Pow2Mono(g + 52, g + 103);
    CexpGe(xh, g);
    RepGrid(xh, g);
    RepGrid(ch, Cexp(ch));
    RepGrid(yh, Cexp(yh));
    GridProduct(z, ch, yh, Cexp(ch), Cexp(yh));
    GridSum(xh, z, g);
    Pow2Mono(g + 52, g + 53);
    RepIntro(xh - z, g);
  }

  /** Both subtractions that form the remainder are exact. */
  lemma RemainderExact(xh: real, z: real)
    requires Rep(xh) && Rep(xh - z) && Abs(xh - z) <= Eps(Abs(xh)) && Abs(RN(z) - z) <= Eps(Abs(z))
    ensures RN(RN(xh - RN(z)) - (z - RN(z))) == xh - z
  {
    hide Pow2, FloorIndex, Mult, Cexp, RN, Rep;
    RNRep(z);
    Sterbenz(xh, RN(z));
    RNExact(xh - RN(z));
    assert xh - RN(z) - (z - RN(z)) == xh - z;
    RNExact(xh - z);
  }

  /** The low word is at most the fraction f of half a unit in the last place. */
  ghost predicate LowWithin(p: Pair, f: real) {
    Within(p.l, p.h, f)
  }

  ghost predicate Within(l: real, h: real, f: real) {
    Abs(l) <= Eps(f * Abs(h))
  }

  lemma WithinIs(l: real, h: real, f: real, fh: real)
    requires fh == f * Abs(h)
    ensures Within(l, h, f) <==> Abs(l) <= Eps(fh)
  {
  }

  /** The errors of the low quotient, multiplied by yh and relative to a = |xh|;
      fa stands for f * a. */
  lemma LowSizes(a: real, fa: real, r: real, xl: real, w: real, s: real, p: real, t: real, eta: real)
    requires 0.0 <= fa <= a && Abs(r) <= Eps(a) && Abs(xl) <= Eps(fa) && Abs(w) <= Eps(1.0001 * fa)
    requires Abs(s - (r + xl)) <= Eps(Abs(r + xl)) && Abs(p - w) <= Eps(Abs(w)) + eta
    requires Abs(t - (s - p)) <= Eps(Abs(s - p)) && 512.0 * eta <= Eps(Eps(a))
    ensures Abs(t - (r + xl - w)) <= Eps(Eps(2.003 * a + 4.001 * fa)) && Abs(t) <= Eps(1.001 * a + 2.002 * fa)
  {
    hide Abs;
    Triangle(r, xl, r + xl);
    Triangle(s - (r + xl), r + xl, s);
    Triangle(p - w, w, p);
    AbsNeg(p);
    AbsNeg(p - w);
    Triangle(s, -p, s - p);
    Triangle(t - (s - p), s - p, t);
    Triangle(t - (s - p), s - (r + xl), t + p - r - xl);
    Triangle(t + p - r - xl, -(p - w), t - (r + xl - w));
  }

  /** The deviation of (ch + cl) * y from x; ffa stands for f * f * a. */
  lemma LowBudget(a: real, fa: real, ffa: real, d: real, t: real, clyh: real, clyl: real, eta: real)
    requires 0.0 <= ffa <= fa <= a
    requires Abs(t - d) <= Eps(Eps(2.003 * a + 4.001 * fa)) && Abs(t) <= Eps(1.001 * a + 2.002 * fa)
    requires Abs(clyh - t) <= Eps(Abs(t)) + eta && 512.0 * eta <= Eps(Eps(a))
    requires Abs(clyl) <= Eps(Eps(1.002 * fa + 2.003 * ffa))
    ensures Abs(clyh + clyl - d) <= Eps(Eps(3.01 * a + 7.01 * fa + 2.01 * ffa))
  {
    hide Abs;
    Triangle(clyh - t, t - d, clyh - d);
    Triangle(clyh - d, clyl, clyh + clyl - d);
  }

  /** The low quotient multiplied back. */
  lemma LowProduct(a: real, fa: real, t: real, clyh: real, eta: real)
    requires 0.0 <= fa <= a && Abs(t) <= Eps(1.001 * a + 2.002 * fa)
    requires Abs(clyh - t) <= Eps(Abs(t)) + eta && 512.0 * eta <= Eps(Eps(a))
    ensures Abs(clyh) <= Eps(1.002 * a + 2.003 * fa)
  {
    hide Abs;
    Triangle(clyh - t, t, clyh);
  }

  /** The cross product with the low word of the divisor. */
  lemma LowTimesLow(a: real, fa: real, ffa: real, f: real, clyh: real, clyl: real, b: real)
    requires 0.0 <= f && fa == f * a && ffa == f * fa && b == f * Abs(clyh) && Abs(clyl) <= Eps(b)
    requires Abs(clyh) <= Eps(1.002 * a + 2.003 * fa)
    ensures Abs(clyl) <= Eps(Eps(1.002 * fa + 2.003 * ffa))
  {
    hide Abs;
    var m, e := 1.002 * a + 2.003 * fa, Eps(1.002 * a + 2.003 * fa);
    MulLe(Abs(clyh), e, f);
    Distribute(m, 1.002 * a, 2.003 * fa, f);
    assert e * f == Eps(m * f);
  }

  /** Replacing the factor h of a = x * h by a low part y within f * 2^-53 of it. */
  lemma CrossWithin(z: real, x: real, y: real, h: real, a: real, f: real, fa: real)
    requires z == x * y && a == x * h && Within(y, h, f) && fa == f * Abs(a)
    ensures Abs(z) <= Eps(fa)
  {
    hide Abs, Within;
    var k, n := Abs(x), Abs(h);
    var fn, kn := f * n, k * n;
    WithinIs(y, h, f, fn);
    AbsProduct(a, x, h);
    AbsProduct(z, x, y);
    AbsNonneg(x);
    EpsTimes(Abs(y), fn, k);
    Regroup(k, f, n);
    assert k * fn == f * kn;
    assert fa == f * kn;
  }

  /** No underflow anywhere: normal divisor, and clear of the threshold in the
      dividend, the quotient and their product. */
  ghost predicate NormalDivision(x: Pair, y: Pair, q: real) {
    && IsDD(x) && IsDD(y) && y.h != 0.0 && Abs(y.h) >= Pow2(Cexp(y.h) + 52)
    && q * y.h == x.h && Abs(q) >= Tiny() && Abs(x.h) >= 2.0 * Tiny()
  }

  /** The high part of the division: its remainder is recovered without error. */
  lemma HighPart(x: Pair, y: Pair, q: real, ch: real, z: real)
    requires NormalDivision(x, y, q) && ch == RN(q) && z == ch * y.h
    ensures Rep(ch) && Abs(x.h - z) <= Eps(Abs(x.h)) && Rep(x.h - z)
    ensures Mul12(ch, y.h) == Pair(RN(z), z - RN(z)) && RN(RN(x.h - RN(z)) - (z - RN(z))) == x.h - z
    ensures Abs(z) <= 1.0001 * Abs(x.h)
  {
    hide Pow2, FloorIndex, Mult, Cexp, RN, Rep, Mul12, Tiny, Abs, Eps;
    Quotient(q, x.h, y.h);
    RemainderSmall(q, ch, x.h, y.h, z);
    ProductSizes(x.h, z);
    EtaSmall();
    NoUnderflow(z, ch, y.h);
    Mul12Exact(ch, y.h, z);
    RemainderRep(ch, x.h, y.h, z);
    HighErrorTiny(z);
    RemainderExact(x.h, z);
  }

  lemma ProductSizes(x: real, z: real)
    requires Abs(x - z) <= Eps(Abs(x)) && Abs(x) >= 2.0 * Tiny()
    ensures Abs(z) >= Tiny() && Abs(z) <= 1.0001 * Abs(x)
  {
    hide Tiny;
  }

  lemma HighErrorTiny(z: real)
    requires Abs(z) >= Tiny()
    ensures Abs(RN(z) - z) <= Eps(Abs(z))
  {
    hide Pow2, FloorIndex, Mult, Cexp, RN;
    HighError(z);
    AbsSwap(RN(z), z);
  }

  /** The intermediate values of Div22. */
  lemma Div22Trace(x: Pair, y: Pair, q: real, f: real, fa: real)
      returns (ch: real, r: real, w: real, s: real, p: real, t: real, cl: real)
    requires NormalDivision(x, y, q) && LowWithin(y, f) && f >= 0.0 && fa == f * Abs(x.h)
    ensures Rep(ch) && Rep(cl) && Div22(x, y) == Closed(ch, cl) && ch == RN(q)
    ensures r == x.h - ch * y.h && w == ch * y.l
    ensures Abs(r) <= Eps(Abs(x.h)) && Abs(w) <= Eps(1.0001 * fa)
    ensures Abs(s - (r + x.l)) <= Eps(Abs(r + x.l)) && Abs(p - w) <= Eps(Abs(w)) + Eta()
    ensures Abs(t - (s - p)) <= Eps(Abs(s - p))
    ensures cl == FDiv(t, y.h)
  {
    hide Pow2, FloorIndex, Mult, Cexp, RN, Rep, Mul12, Tiny, Abs, Eps, FMul, FDiv, Closed, Eta, Within;
    ch := RN(q);
    var z := ch * y.h;
    HighPart(x, y, q, ch, z);
    FDivIs(x.h, y.h, q);
    r := x.h - z;
    w := ch * y.l;
    LowCross(w, ch, y.l, y.h, z, x.h, f, fa);
    s := RN(r + x.l);
    RNSum(r, x.l);
    RNRep(r + x.l);
    p := FMul(ch, y.l);
    FMulError(ch, y.l, w);
    MachineProducts(ch, y.l);
    RepNeg(p);
    t := RN(s - p);
    assert s + -p == s - p;
    RNSum(s, -p);
    cl := FDiv(t, y.h);
    FDivRep(t, y.h);
  }

  lemma FDivRep(x: real, y: real)
    requires y != 0.0
    ensures Rep(FDiv(x, y))
  {
    hide RN, Rep;
    RNRep(x / y);
  }

  lemma LowCross(w: real, ch: real, yl: real, yh: real, z: real, xh: real, f: real, fa: real)
    requires w == ch * yl && z == ch * yh && Within(yl, yh, f) && Abs(z) <= 1.0001 * Abs(xh)
    requires f >= 0.0 && fa == f * Abs(xh)
    ensures Abs(w) <= Eps(1.0001 * fa)
  {
    hide Abs, Within;
    var m, n := Abs(z), Abs(xh);
    CrossWithin(w, ch, yl, yh, z, f, f * m);
    MulLe(m, 1.0001 * n, f);
    assert (1.0001 * n) * f == 1.0001 * (f * n);
  }

  /** The division that ends the low part, multiplied back by yh. */
  lemma LowQuotient(t: real, yh: real, cl: real, m: real, clyh: real, eta: real, q: real, a: real)
    requires yh != 0.0 && cl == FDiv(t, yh) && clyh == cl * yh && eta == Eta()
    requires a == Abs(q) * Abs(yh) && Abs(q) >= Tiny() && m == eta * Abs(yh)
    ensures Abs(clyh - t) <= Eps(Abs(t)) + m && 512.0 * m <= Eps(Eps(a))
  {
    hide Pow2, RN, Cexp, Tiny;
    var e := t / yh;
    assert e * yh == t;
    FDivIs(t, yh, e);
    RNBound(e);
    var d, k := cl - e, Abs(yh);
    Distribute(cl, e, d, yh);
    DividedBack(d, e, yh, clyh, t, eta);
    EtaSmall();
    ScaledThreshold(eta, Abs(q), k);
  }

  lemma DividedBack(d: real, e: real, yh: real, clyh: real, t: real, eta: real)
    requires clyh - t == d * yh && t == e * yh && Abs(d) <= Eps(Abs(e)) + eta
    ensures Abs(clyh - t) <= Eps(Abs(t)) + eta * Abs(yh)
  {
    AbsMul(d, yh);
    AbsMul(e, yh);
    hide Abs;
    var k, b, c := Abs(yh), Eps(Abs(e)) + eta, Eps(Abs(e));
    AbsNonneg(yh);
    MulLe(Abs(d), b, k);
    Distribute(b, c, eta, k);
    EpsScale(Abs(e), k);
  }

  lemma EpsScale(x: real, k: real)
    ensures Eps(x) * k == Eps(x * k)
  {
  }

  lemma ScaledThreshold(eta: real, q: real, k: real)
    requires 512.0 * eta <= Eps(Eps(q)) && k >= 0.0
    ensures 512.0 * (eta * k) <= Eps(Eps(q * k))
  {
    MulLe(512.0 * eta, Eps(Eps(q)), k);
    var e := Eps(q);
    EpsScale(q, k);
    EpsScale(e, k);
    assert (512.0 * eta) * k == 512.0 * (eta * k);
  }

  lemma Assemble(ch: real, cl: real, y: Pair, x: Pair, v: real, vy: real, d: real)
    requires v == ch + cl && vy == v * Value(y) && d == x.h - ch * y.h + x.l - ch * y.l
    ensures vy - Value(x) == cl * y.h + cl * y.l - d
  {
    ExpandSplit(v, Value(y), ch, cl, y.h, y.l, vy);
  }

  lemma TwoEps(k: real, z: real, y: real, m: real, kz: real, km: real)
    requires m == z * y && kz == k * z && km == k * m
    ensures Eps(Eps(kz)) * y == Eps(Eps(km))
  {
    Regroup(k, z, y);
    assert kz * y == km;
  }

  /** From a deviation after multiplication by y to a relative error of k units. */
  lemma DivideOut(v: real, z: real, y: real, vy: real, x: real, k: real, km: real)
    requires vy == v * y && x == z * y && km == k * Abs(x) && Abs(vy - x) <= Eps(Eps(km)) && y != 0.0
    ensures Near(v, z, k)
  {
    hide Abs, Near;
    var d, e, n := v - z, vy - x, Abs(z);
    Distribute(v, z, d, y);
    assert e == d * y;
    AbsPositive(y);
    AbsProduct(e, d, y);
    AbsProduct(x, z, y);
    var kn := k * n;
    NearIs(v, z, k, kn);
    TwoEps(k, n, Abs(y), Abs(x), kn, km);
    CancelFactor(Abs(d), Eps(Eps(kn)), Abs(y), Abs(e), Eps(Eps(km)));
  }

  lemma AbsPositive(y: real)
    requires y != 0.0
    ensures Abs(y) > 0.0
  {
  }

  lemma CancelFactor(a: real, b: real, k: real, ak: real, bk: real)
    requires ak == a * k && bk == b * k && ak <= bk && k > 0.0
    ensures a <= b
  {
    if a > b { MulLt(b, a, k); }
  }

  lemma LowerWord(ch: real, clyh: real, cl: real, yh: real, xh: real, z: real)
    requires clyh == cl * yh && z == ch * yh && yh != 0.0 && Abs(clyh) <= Eps(3.1 * Abs(xh))
    requires Abs(z) >= 0.5 * Abs(xh)
    ensures Abs(cl) <= Abs(ch)
  {
    hide Abs;
    AbsProduct(clyh, cl, yh);
    AbsProduct(z, ch, yh);
    AbsNonneg(xh);
    AbsPositive(yh);
    CancelFactor(Abs(cl), Abs(ch), Abs(yh), Abs(clyh), Abs(z));
  }

  /** The error bound of Div22, in units of 2^-106, for low words within the
      fraction f of half a unit in the last place. */
  function DivisionUnits(f: real): real {
    3.011 + 7.011 * f + 2.011 * (f * f)
  }

  /** From a = |xh| to m = |x|; the other parameters are their products with f. */
  lemma UnitsOfDividend(f: real, a: real, fa: real, ffa: real, m: real, km: real)
    requires 0.0 <= f <= 1.0 && 0.0 <= a <= 1.0001 * m && fa == f * a && ffa == f * fa && km == DivisionUnits(f) * m
    ensures 0.0 <= ffa <= fa <= a && 3.01 * a + 7.01 * fa + 2.01 * ffa <= km
  {
    var fm, k := f * m, DivisionUnits(f);
    var ffm, ff := f * fm, f * f;
    MulLeAs(fa, 1.0001 * fm, a, 1.0001 * m, f);
    MulLeAs(ffa, 1.0001 * ffm, fa, 1.0001 * fm, f);
    MulLeAs(fa, a, f, 1.0, a);
    MulLeAs(0.0, fa, 0.0, f, a);
    MulLeAs(ffa, fa, f, 1.0, fa);
    MulLeAs(0.0, ffa, 0.0, f, fa);
    Regroup(f, f, m);
    Distribute(k, 3.011 + 7.011 * f, 2.011 * ff, m);
    Distribute(3.011 + 7.011 * f, 3.011, 7.011 * f, m);
    assert (7.011 * f) * m == 7.011 * fm && (2.011 * ff) * m == 2.011 * ffm;
  }

  lemma EpsMono(x: real, y: real)
    requires x <= y
    ensures Eps(x) <= Eps(y)
  {
  }

  /** The two quotients Div22 adds, and what they leave of x. */
  lemma Div22Quotients(x: Pair, y: Pair, q: real, f: real, fa: real, ffa: real)
      returns (ch: real, cl: real, d: real, clyh: real, clyl: real)
    requires NormalDivision(x, y, q) && LowWithin(x, f) && LowWithin(y, f)
    requires 0.0 <= f && fa == f * Abs(x.h) && ffa == f * fa && 0.0 <= ffa <= fa <= Abs(x.h)
    ensures Rep(ch) && Rep(cl) && Div22(x, y) == Closed(ch, cl) && ch == RN(q)
    ensures d == x.h - ch * y.h + x.l - ch * y.l && clyh == cl * y.h && clyl == cl * y.l
    ensures Abs(clyh + clyl - d) <= Eps(Eps(3.01 * Abs(x.h) + 7.01 * fa + 2.01 * ffa)) && Abs(clyh) <= Eps(3.1 * Abs(x.h))
  {
    hide Pow2, RN, Rep, Cexp, Tiny, Abs, Eps, FDiv, Closed, Div22, Within, Eta, IsDD, Value;
    var a, eta := Abs(x.h), Eta();
    var r, w, s, p, t;
    WithinIs(x.l, x.h, f, fa);
    ch, r, w, s, p, t, cl := Div22Trace(x, y, q, f, fa);
    EtaOfDividend(a, eta);
    clyh, clyl, d := cl * y.h, cl * y.l, r + x.l - w;
    var m := eta * Abs(y.h);
    AbsProduct(x.h, q, y.h);
    LowQuotient(t, y.h, cl, m, clyh, eta, q, a);
    LowSizes(a, fa, r, x.l, w, s, p, t, eta);
    LowProduct(a, fa, t, clyh, m);
    var b := f * Abs(clyh);
    CrossWithin(clyl, cl, y.l, y.h, clyh, f, b);
    LowTimesLow(a, fa, ffa, f, clyh, clyl, b);
    LowBudget(a, fa, ffa, d, t, clyh, clyl, m);
    EpsMono(1.002 * a + 2.003 * fa, 3.1 * a);
  }

  /**
   Div22, for low words within the fraction f of half a unit in the last place:
   its relative error against the exact quotient z, and a normalised result.
   */
  lemma Div22ErrorBy(x: Pair, y: Pair, q: real, z: real, f: real)
    requires NormalDivision(x, y, q) && Value(y) != 0.0 && z * Value(y) == Value(x)
    requires 0.0 <= f <= 1.0 && LowWithin(x, f) && LowWithin(y, f)
    ensures Near(Value(Div22(x, y)), z, DivisionUnits(f)) && Normalised(Div22(x, y))
  {
    hide Pow2, RN, Rep, Cexp, Tiny, Abs, Eps, FDiv, Closed, Div22, Near, Normalised, DivisionUnits, Within, IsDD, Value;
    var a, m := Abs(x.h), Abs(Value(x));
    var fa := f * a;
    var ffa, km := f * fa, DivisionUnits(f) * m;
    AbsNonneg(x.h);
    DividendHigh(x);
    UnitsOfDividend(f, a, fa, ffa, m, km);
    var ch, cl, d, clyh, clyl := Div22Quotients(x, y, q, f, fa, ffa);
    EpsMono(3.01 * a + 7.01 * fa + 2.01 * ffa, km);
    EpsMono(Eps(3.01 * a + 7.01 * fa + 2.01 * ffa), Eps(km));
    var v := ch + cl;
    var vy := v * Value(y);
    Assemble(ch, cl, y, x, v, vy, d);
    assert vy - Value(x) == clyh + clyl - d;
    DivideOut(v, z, Value(y), vy, Value(x), DivisionUnits(f), km);
    HighProduct(x, y, q, ch);
    LowerWord(ch, clyh, cl, y.h, x.h, ch * y.h);
    Closing(ch, cl);
  }

  /** For all operands clear of underflow the error is below 2^-102. */
  lemma Div22Error(x: Pair, y: Pair, q: real, z: real)
    requires NormalDivision(x, y, q) && Value(y) != 0.0 && z * Value(y) == Value(x)
    ensures Near(Value(Div22(x, y)), z, 12.1) && Normalised(Div22(x, y))
  {
    hide Rep, Near, Normalised, Div22, Pow2, Cexp, Tiny;
    Div22ErrorBy(x, y, q, z, 1.0);
    NearWeaken(Value(Div22(x, y)), z, DivisionUnits(1.0), 12.1);
  }

  /**
   The bound 2^-104, which is 4 units, holds when both low words are at most
   0.135 times half a unit in the last place of the high ones.
   */
  lemma StatedBoundHolds(x: Pair, y: Pair, q: real, z: real)
    requires NormalDivision(x, y, q) && Value(y) != 0.0 && z * Value(y) == Value(x)
    requires LowWithin(x, 0.135) && LowWithin(y, 0.135)
    ensures Near(Value(Div22(x, y)), z, 4.0) && Normalised(Div22(x, y))
  {
    hide Rep, Near, Normalised, Div22, Pow2, Cexp, Tiny, LowWithin;
    Div22ErrorBy(x, y, q, z, 0.135);
    NearWeaken(Value(Div22(x, y)), z, DivisionUnits(0.135), 4.0);
  }

  lemma EtaOfDividend(a: real, eta: real)
    requires a >= 2.0 * Tiny() && eta == Eta()
    ensures 512.0 * eta <= Eps(Eps(a))
  {
    hide Pow2, Tiny, Eta;
    EtaSmall();
  }

  lemma DividendHigh(x: Pair)
    requires IsDD(x)
    ensures Abs(x.h) <= 1.0001 * Abs(Value(x)) && Abs(x.l) <= Eps(Abs(x.h))
  {
    hide Rep;
  }

  lemma HighProduct(x: Pair, y: Pair, q: real, ch: real)
    requires NormalDivision(x, y, q) && ch == RN(q)
    ensures Abs(ch * y.h) >= 0.5 * Abs(x.h)
  {
    hide Pow2, Cexp, RN, Rep, Tiny;
    var z := ch * y.h;
    HighPart(x, y, q, ch, z);
    HalfAtLeast(x.h, z);
  }

  // ------------------------------------------- the bound stated in the source

  // The operands (1 + 31 * 2^-58) / (9/8 - 15 * 2^-57). The values below are in
  // units of 2^-53 and of 2^-107, where all of them are integers.

  const DIVIDEND: Pair := Pair(1.0, Eps(0.96875))
  const DIVISOR: Pair := Pair(1.125, -Eps(0.9375))

  /** The two quotients Div22 computes for them. */
  const HIGH: real := Eps(8006399337547548.0)
  const LOW: real := Eps(Eps(18431398474979248.0))

  lemma ExamplePowers()
    ensures Pow2(0) == 1.0 && Pow2(-52) == Eps(2.0) && Pow2(-53) == Eps(1.0) && Pow2(-57) == Eps(0.0625)
    ensures Pow2(-58) == Eps(0.03125) && Pow2(-104) == Eps(Eps(4.0)) && Pow2(-106) == Eps(Eps(1.0))
  {
    hide Pow2;
    UnitRoundoff();
    SmallPowers();
    Pow2Zero();
    Pow2Succ(-53);
    Pow2Inverse(4);
    Pow2Add(-53, -4);
    Pow2Succ(-58);
    Pow2Add(-53, -53);
    Pow2Succ(-106);
    Pow2Succ(-105);
  }

  /** An integer of at most 53 bits times a power of two is a double. */
  lemma ExampleRep(x: real, n: int, c: int)
    requires c >= EMIN && x == n as real * Pow2(c) && -9007199254740992 <= n <= 9007199254740992
    ensures Rep(x)
  {
    hide Pow2, FloorIndex, Cexp, Grid;
    UnitRoundoff();
    Pow2Add(53, c);
    GridOf(x, n, c);
    AbsTimes(x, Pow2(c), n as real);
    MulLe(Abs(n as real), Pow2(53), Pow2(c));
    RepIntro(x, c);
  }

  lemma ExampleOperands()
    ensures Rep(1.0) && Rep(1.125) && Rep(Eps(0.96875)) && Rep(-Eps(0.9375)) && Rep(Eps(1.46875)) && Rep(LOW)
    ensures Cexp(1.125) == -52 && Pow2(0) == 1.0 && Tiny() <= 0.1
  {
    hide Pow2, Cexp, Rep;
    ExamplePowers();
    ExampleRep(1.0, 1, 0);
    ExampleRep(1.125, 5066549580791808, -52);
    ExampleRep(Eps(0.96875), 31, -58);
    ExampleRep(-Eps(0.9375), -15, -57);
    ExampleRep(Eps(1.46875), 47, -58);
    ExampleRep(LOW, 4607849618744812, -104);
    Pow2Succ(0);
    CexpIs(1.125, -52);
    SmallPowers();
    Pow2Inverse(8);
    Pow2Mono(EMIN + 114, -8);
  }

  /** The roundings met on the way; the third one is a tie. */
  lemma ExampleRoundings()
    ensures RN(8.0 / 9.0) == HIGH && RN(Eps(Eps(-7505999378950826.25))) == Eps(Eps(-7505999378950826.0))
    ensures RN(Eps(Eps(20735323284351658.0))) == Eps(Eps(20735323284351656.0))
    ensures RN(Eps(Eps(20735323284351656.0)) / 1.125) == LOW
  {
    hide Pow2, RN;
    ExamplePowers();
    RNScaled(8.0 / 9.0, 8006399337547548.0 + 4.0 / 9.0, -53);
    RNScaled(Eps(Eps(-7505999378950826.25)), -7505999378950826.25, -106);
    RNScaled(Eps(Eps(20735323284351658.0)), 5183830821087914.5, -104);
    RNScaled(Eps(Eps(20735323284351656.0)) / 1.125, 4607849618744812.0 + 4.0 / 9.0, -104);
  }

  lemma ExampleNormalised()
    ensures RN(1.0 + Eps(0.96875)) == 1.0 && RN(1.125 + -Eps(0.9375)) == 1.125
  {
    hide Pow2, RN;
    ExamplePowers();
    RNScaled(1.0 + Eps(0.96875), 4503599627370496.0 + 0.484375, -52);
    RNScaled(1.125 + -Eps(0.9375), 5066549580791808.0 - 0.46875, -52);
  }

  lemma ExampleQuotient()
    ensures NormalDivision(DIVIDEND, DIVISOR, 8.0 / 9.0)
    ensures Div22(DIVIDEND, DIVISOR) == Closed(HIGH, LOW)
  {
    hide Pow2, RN, Rep, Cexp, Tiny, Mul12, Closed;
    ExampleOperands();
    ExampleRoundings();
    var x, y := DIVIDEND, DIVISOR;
    FDivIs(x.h, y.h, 8.0 / 9.0);
    HighPart(x, y, 8.0 / 9.0, HIGH, HIGH * y.h);
    assert x.h - HIGH * y.h == Eps(0.5);
    RNExact(Eps(1.46875));
    FMulIs(HIGH, y.l, Eps(Eps(-7505999378950826.25)));
    FDivIs(Eps(Eps(20735323284351656.0)), y.h, Eps(Eps(20735323284351656.0)) / 1.125);
  }

  /**
   The bound 2^-104, which is 4 units, does not hold for Div22: here the
   relative error exceeds 6 units.
   */
  lemma StatedBoundFails()
    ensures var x, y := DIVIDEND, DIVISOR;
      && Normalised(x) && Normalised(y) && NormalDivision(x, y, 8.0 / 9.0)
      && !Near(Value(Div22(x, y)), Value(x) / Value(y), 6.0)
  {
    hide Pow2, RN, Rep, Cexp, Tiny, Mul12, Closed, Div22;
    ExampleQuotient();
    ExampleOperands();
    ExampleNormalised();
    RNRep(8.0 / 9.0);
    ExampleRoundings();
    Closing(HIGH, LOW);
  }
}
