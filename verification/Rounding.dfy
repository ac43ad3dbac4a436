/**
 The IEEE 754 double format with gradual underflow and its roundings.

 A double is a real n * 2^e with |n| <= 2^53 and e >= -1074. The exponent has
 no upper limit here: overflow is outside this model. `RN` is roundTiesToEven
 (section 4.3.1 of IEEE 754-2008), `RD`, `RU` and `RZ` are the directed
 roundings (section 4.3.2).
 */
module Rounding {
  import opened Dyadic

  const EMIN: int := -1074

  // ------------------------------------------------- canonical exponents

  lemma FloorHalves(a: real, e: int)
    requires a >= Pow2(e + 53)
    ensures 0 <= FloorIndex(a, e + 1) < FloorIndex(a, e)
  {
    hide Pow2;
    Pow2Mono(e, e + 53);
    Pow2Inverse(e);
    MulLe(Pow2(e), a, Pow2(-e));
    Pow2Succ(-e - 1);
    var y := a * Pow2(-e);
    assert a * Pow2(-(e + 1)) == y / 2.0;
  }

  function CexpFrom(a: real, e: int): (c: int)
    requires a >= 0.0
    ensures c >= e && a < Pow2(c + 53)
    ensures c > e ==> a >= Pow2(c + 53 - 1)
    decreases if a < Pow2(e + 53) then 0 else FloorIndex(a, e)
  {
    if a < Pow2(e + 53) then e
    else
      FloorHalves(a, e);
      CexpFrom(a, e + 1)
  }

  /** The exponent of the last place of x: the least c >= EMIN with |x| < 2^(c+53). */
  function Cexp(x: real): (c: int)
    ensures c >= EMIN && Abs(x) < Pow2(c + 53)
    ensures c > EMIN ==> Abs(x) >= Pow2(c + 53 - 1)
  {
    CexpFrom(Abs(x), EMIN)
  }

  lemma CexpLe(x: real, c: int)
    requires c >= EMIN && Abs(x) < Pow2(c + 53)
    ensures Cexp(x) <= c
  {
    hide *;
    if Cexp(x) > c {
      Pow2Mono(c + 53, Cexp(x) + 53 - 1);
    }
  }

  lemma CexpGe(x: real, c: int)
    requires Abs(x) >= Pow2(c + 53 - 1)
    ensures Cexp(x) >= c
  {
    hide *;
    if Cexp(x) < c {
      Pow2Mono(Cexp(x) + 53, c + 53 - 1);
    }
  }

  lemma CexpIs(x: real, c: int)
    requires c >= EMIN && Pow2(c + 53 - 1) <= Abs(x) < Pow2(c + 53)
    ensures Cexp(x) == c
  {
    hide *;
    CexpLe(x, c);
    CexpGe(x, c);
  }

  lemma CexpMono(x: real, y: real)
    requires Abs(x) <= Abs(y)
    ensures Cexp(x) <= Cexp(y)
  {
    hide *;
    CexpLe(x, Cexp(y));
  }

  lemma CexpNeg(x: real)
    ensures Cexp(-x) == Cexp(x)
  {
  }

  // ---------------------------------------------------- representable numbers

  /** x is a double. */
  predicate Rep(x: real) {
    Grid(x, Cexp(x))
  }

  lemma RepIntro(x: real, g: int)
    requires Grid(x, g) && g >= EMIN && Abs(x) <= Pow2(g + 53)
    ensures Rep(x)
  {
    hide Pow2, FloorIndex, Mult, Cexp;
    if Abs(x) < Pow2(g + 53) {
      CexpLe(x, g);
      GridCoarser(x, g, Cexp(x));
    } else {
      Pow2Mono(g + 53, g + 1 + 53);
      CexpIs(x, g + 1);
      GridPow2(g + 53, g + 1);
      GridNeg(Pow2(g + 53), g + 1);
    }
  }

  lemma RepPow2(e: int)
    requires e >= EMIN
    ensures Rep(Pow2(e))
  {
    hide Pow2, FloorIndex, Mult, Cexp;
    GridPow2(e, e);
    Pow2Mono(e, e + 53);
    RepIntro(Pow2(e), e);
  }

  lemma RepZero()
    ensures Rep(0.0)
  {
    hide Pow2, FloorIndex, Mult, Cexp;
    GridZero(EMIN);
    RepIntro(0.0, EMIN);
  }

  lemma RepNeg(x: real)
    requires Rep(x)
    ensures Rep(-x)
  {
    hide Pow2, FloorIndex, Mult, Cexp;
    CexpNeg(x);
    GridNeg(x, Cexp(x));
  }

  lemma RepGrid(x: real, g: int)
    requires Rep(x) && g <= Cexp(x)
    ensures Grid(x, g)
  {
    hide Pow2, FloorIndex, Mult, Cexp;
    GridCoarser(x, Cexp(x), g);
  }

  // --------------------------------------------------------------- roundings

  function NearestInt(y: real): int {
    var n := y.Floor;
    var d := y - n as real;
    if d < 0.5 then n
    else if d > 0.5 then n + 1
    else if n % 2 == 0 then n else n + 1
  }

  /** roundTiesToEven */
  function RN(x: real): real {
    Mult(NearestInt(Scaled(x, Cexp(x))), Cexp(x))
  }

  /** roundTowardNegative */
  function RD(x: real): real {
    Mult(FloorIndex(x, Cexp(x)), Cexp(x))
  }

  /** roundTowardPositive */
  function RU(x: real): real {
    -RD(-x)
  }

  /** roundTowardZero */
  function RZ(x: real): real {
    if x >= 0.0 then RD(x) else RU(x)
  }

  lemma Unscale(x: real, c: int)
    ensures Scaled(x, c) * Pow2(c) == x
  {
    hide Pow2;
    Pow2Inverse(c);
    Regroup(x, Pow2(-c), Pow2(c));
  }

  lemma BracketScaled(x: real, y: real, m: real, p: real)
    requires p > 0.0 && m <= y < m + 1.0 && y * p == x
    ensures m * p <= x < m * p + p
  {
    var d := y - m;
    Distribute(y, m, d, p);
    assert x - m * p == d * p;
    MulLt(d, 1.0, p);
    assert d * p < p;
    MulLe(0.0, d, p);
  }

  lemma FloorBracket(x: real, c: int)
    ensures Mult(FloorIndex(x, c), c) <= x < Mult(FloorIndex(x, c), c) + Pow2(c)
  {
    hide Pow2, Scaled;
    Unscale(x, c);
    var y := Scaled(x, c);
    BracketScaled(x, y, y.Floor as real, Pow2(c));
  }

  lemma NearestIntClose(y: real)
    ensures -0.5 <= NearestInt(y) as real - y <= 0.5
  {
  }

  lemma HalfScaled(x: real, y: real, m: real, p: real)
    requires p > 0.0 && -0.5 <= m - y <= 0.5 && y * p == x
    ensures -0.5 * p <= m * p - x <= 0.5 * p
  {
    var d := m - y;
    Distribute(m, d, y, p);
    assert m * p - x == d * p;
    MulLe(d, 0.5, p);
    assert d * p <= 0.5 * p;
    MulLe(-0.5, d, p);
  }

  lemma RNError(x: real)
    ensures Abs(RN(x) - x) <= Pow2(Cexp(x) - 1)
  {
    hide Pow2, Cexp, NearestInt, Scaled;
    var c := Cexp(x);
    Unscale(x, c);
    var y := Scaled(x, c);
    NearestIntClose(y);
    HalfScaled(x, y, NearestInt(y) as real, Pow2(c));
    Pow2Succ(c - 1);
  }

  /** Rounding stays within the closed binade of x. */
  lemma WithinBinade(x: real, n: int)
    requires Mult(n, Cexp(x)) - Pow2(Cexp(x)) < x < Mult(n, Cexp(x)) + Pow2(Cexp(x))
    ensures Rep(Mult(n, Cexp(x)))
    ensures Abs(Mult(n, Cexp(x))) <= Pow2(Cexp(x) + 53)
  {
    hide Pow2, FloorIndex, Mult, Cexp;
    var c := Cexp(x);
    var r := Mult(n, c);
    var top := Pow2(c + 53);
    GridOf(r, n, c);
    GridPow2(c + 53, c);
    GridNeg(top, c);
    if r > top { GridApart(top, r, c); }
    if r < -top { GridApart(r, -top, c); }
    RepIntro(r, c);
  }

  lemma RNRep(x: real)
    ensures Rep(RN(x)) && Grid(RN(x), Cexp(x))
    ensures Abs(RN(x)) <= Pow2(Cexp(x) + 53)
  {
    hide Pow2, FloorIndex, Mult, Cexp, NearestInt, Scaled;
    var c := Cexp(x);
    var n := NearestInt(Scaled(x, c));
    RNError(x);
    Pow2Succ(c - 1);
    assert RN(x) == Mult(n, c);
    WithinBinade(x, n);
    GridOf(Mult(n, c), n, c);
  }

  lemma RDRep(x: real)
    ensures Rep(RD(x)) && Grid(RD(x), Cexp(x)) && RD(x) <= x < RD(x) + Pow2(Cexp(x))
  {
    hide Pow2, FloorIndex, Mult, Cexp;
    var c := Cexp(x);
    FloorBracket(x, c);
    WithinBinade(x, FloorIndex(x, c));
    GridOf(RD(x), FloorIndex(x, c), c);
  }

  /** No double lies strictly between two neighbouring points of the grid of x. */
  lemma NoRepBetween(x: real, lo: real, g: real)
    requires Grid(lo, Cexp(x)) && lo < x < lo + Pow2(Cexp(x))
    requires Rep(g) && lo < g
    ensures g >= lo + Pow2(Cexp(x))
  {
    hide Pow2, FloorIndex, Mult, Cexp;
    var c := Cexp(x);
    if Cexp(g) >= c {
      RepGrid(g, c);
      GridApart(lo, g, c);
    } else {
      var b := Pow2(c + 53 - 1);
      if Abs(g) >= b { CexpGe(g, c); }
      GridPow2(c + 53 - 1, c);
      GridNeg(b, c);
      if x >= 0.0 {
        if b > lo { GridApart(lo, b, c); }
      } else {
        if lo < -b { GridApart(lo, -b, c); }
      }
    }
  }

  // ------------------------------------------- what the roundings promise

  /** RD(x) is the greatest double not above x. */
  lemma RDGreatest(x: real, g: real)
    requires Rep(g) && g <= x
    ensures g <= RD(x) <= x
  {
    hide Pow2, FloorIndex, Mult, Cexp, RD;
    RDRep(x);
    if RD(x) < g {
      NoRepBetween(x, RD(x), g);
    }
  }

  /** RU(x) is the least double not below x. */
  lemma RULeast(x: real, g: real)
    requires Rep(g) && x <= g
    ensures x <= RU(x) <= g
  {
    hide Pow2, FloorIndex, Mult, Cexp, RD;
    RepNeg(g);
    RDGreatest(-x, -g);
  }

  lemma RURep(x: real)
    ensures Rep(RU(x)) && RU(x) >= x
  {
    hide Pow2, FloorIndex, Mult, Cexp, RD;
    RDRep(-x);
    RepNeg(RD(-x));
  }

  /** No double is nearer to x than RN(x). */
  lemma RNNearest(x: real, g: real)
    requires Rep(g)
    ensures Abs(RN(x) - x) <= Abs(g - x)
  {
    hide Pow2, FloorIndex, Mult, Cexp, RD, RN;
    var c := Cexp(x);
    RNError(x);
    RNRep(x);
    RDRep(x);
    Pow2Succ(c - 1);
    var lo, u := RD(x), Pow2(c);
    if lo == x {
      NearestOnGrid(x);
    } else {
      GridPow2(c, c);
      GridSum(lo, u, c);
      NearestOfTwo(x);
      if g > lo { NoRepBetween(x, lo, g); }
    }
  }

  /** RN(x) is one of the two grid points around x, the nearer one. */
  lemma NearestOfTwo(x: real)
    ensures RN(x) == RD(x) || RN(x) == RD(x) + Pow2(Cexp(x))
    ensures Abs(RN(x) - x) <= x - RD(x)
    ensures Abs(RN(x) - x) <= RD(x) + Pow2(Cexp(x)) - x
  {
    hide Pow2, FloorIndex, Mult, Cexp, RD, RN;
    var c := Cexp(x);
    RNError(x);
    RNRep(x);
    RDRep(x);
    Pow2Succ(c - 1);
    var lo, u := RD(x), Pow2(c);
    GridPow2(c, c);
    GridSum(lo, u, c);
    if RN(x) < lo { GridApart(RN(x), lo, c); }
    if RN(x) > lo { GridApart(lo, RN(x), c); }
    if RN(x) > lo + u { GridApart(lo + u, RN(x), c); }
  }

  /** Off the grid, rounding up is one step above rounding down. */
  lemma UpperNeighbour(x: real)
    requires RD(x) < x
    ensures RU(x) == RD(x) + Pow2(Cexp(x))
  {
    hide Pow2, FloorIndex, Mult, Cexp, RD, Rep;
    var c := Cexp(x);
    RDRep(x);
    RURep(x);
    NoRepBetween(x, RD(x), RU(x));
    GridPow2(c, c);
    GridSum(RD(x), Pow2(c), c);
    UpperRep(x);
    RULeast(x, RD(x) + Pow2(c));
  }

  lemma UpperRep(x: real)
    ensures Rep(RD(x) + Pow2(Cexp(x)))
  {
    hide Pow2, FloorIndex, Cexp;
    var c := Cexp(x);
    var n := FloorIndex(x, c);
    FloorBracket(x, c);
    MultSum(n, 1, c);
    assert Mult(1, c) == Pow2(c);
    if RD(x) == x {
      RDRep(x);
      NextOnGrid(x, c);
    } else {
      WithinBinade(x, n + 1);
    }
  }

  lemma NextOnGrid(x: real, c: int)
    requires Grid(x, c) && c == Cexp(x)
    ensures Rep(x + Pow2(c))
  {
    hide Pow2, FloorIndex, Mult, Cexp;
    BelowTop(x, c);
    GridPow2(c, c);
    GridSum(x, Pow2(c), c);
    RepIntro(x + Pow2(c), c);
  }

  /** x lies half way between two neighbouring doubles. */
  predicate Midpoint(x: real) {
    RD(x) < x && 2.0 * x == RD(x) + RU(x)
  }

  lemma HalfAbove(x: real, y: real, m: real, p: real, q: real)
    requires x == m * p + p / 2.0 && p * q == 1.0 && y == x * q
    ensures y == m + 0.5
  {
    var mp := m * p;
    Distribute(x, mp, p / 2.0, q);
    Regroup(m, p, q);
  }

  /** x = n * 2^c + half a step: its floor on the grid 2^c is n. */
  lemma FloorOfHalf(x: real, n: int, c: int)
    requires x == Mult(n, c) + Pow2(c - 1)
    ensures FloorIndex(x, c) == n
  {
    hide Pow2;
    Pow2Succ(c - 1);
    Pow2Inverse(c);
    HalfAbove(x, Scaled(x, c), n as real, Pow2(c), Pow2(-c));
  }

  lemma FloorIsDown(x: real, n: int, c: int)
    requires Cexp(x) == c && FloorIndex(x, c) == n
    ensures RD(x) == Mult(n, c)
  {
    hide Pow2, FloorIndex, Cexp, Mult;
  }

  /** Ties go to the neighbour with the even significand. */
  lemma MidpointParity(x: real)
    requires Midpoint(x)
    ensures RN(x) == if FloorIndex(x, Cexp(x)) % 2 == 0 then RD(x) else RU(x)
  {
    hide Pow2, Cexp, RU;
    var c := Cexp(x);
    var n := FloorIndex(x, c);
    UpperNeighbour(x);
    Pow2Inverse(c);
    HalfAbove(x, Scaled(x, c), n as real, Pow2(c), Pow2(-c));
    MultSum(n, 1, c);
  }

  lemma NearestOnGrid(x: real)
    requires RD(x) == x
    ensures RN(x) == x
  {
    hide Pow2, FloorIndex, Mult, Cexp, RD, RN;
    var c := Cexp(x);
    RNError(x);
    RNRep(x);
    RDRep(x);
    Pow2Succ(c - 1);
    if RN(x) < x { GridApart(RN(x), x, c); }
    if RN(x) > x { GridApart(x, RN(x), c); }
  }

  lemma RNExact(x: real)
    requires Rep(x)
    ensures RN(x) == x
  {
    hide *;
    RNNearest(x, x);
    AbsZero(RN(x) - x);
  }

  lemma AbsZero(d: real)
    requires Abs(d) <= Abs(0.0)
    ensures d == 0.0
  {
  }

  lemma RNMono(x: real, y: real)
    requires x <= y
    ensures RN(x) <= RN(y)
  {
    hide Pow2, FloorIndex, Mult, Cexp, RD, RN;
    RNRep(x);
    RNRep(y);
    RNNearest(x, RN(y));
    RNNearest(y, RN(x));
  }

  /** Rounding does not cross a double. */
  lemma RNAbove(x: real, g: real)
    requires Rep(g) && g <= x
    ensures g <= RN(x)
  {
    hide *;
    RNMono(g, x);
    RNExact(g);
  }

  lemma RNBelow(x: real, g: real)
    requires Rep(g) && x <= g
    ensures RN(x) <= g
  {
    hide *;
    RNMono(x, g);
    RNExact(g);
  }

  /** Rounding a magnitude does not cross a double either. */
  lemma RNMagnitude(x: real, g: real)
    requires Rep(g) && g >= 0.0
    ensures g <= Abs(x) ==> g <= Abs(RN(x))
    ensures Abs(x) <= g ==> Abs(RN(x)) <= g
  {
    hide Pow2, FloorIndex, Mult, Cexp, RN, Rep;
    RepNeg(g);
    if g <= x { RNAbove(x, g); }
    if x <= -g { RNBelow(x, -g); }
    if Abs(x) <= g {
      RNAbove(x, -g);
      RNBelow(x, g);
    }
  }

  lemma NearestIntOdd(y: real)
    ensures NearestInt(-y) == -NearestInt(y)
  {
    var n := y.Floor;
    var m := (-y).Floor;
    if y == n as real {
      assert m == -n;
    } else {
      assert m == -n - 1;
    }
  }

  lemma RNNeg(x: real)
    ensures RN(-x) == -RN(x)
  {
    hide Pow2, FloorIndex, Cexp, NearestInt;
    var c := Cexp(x);
    CexpNeg(x);
    var y := Scaled(x, c);
    assert Scaled(-x, c) == -y;
    NearestIntOdd(y);
  }

  /** A double below 2^(c+53) on the grid 2^c stays a full step below it. */
  lemma BelowTop(b: real, c: int)
    requires Grid(b, c) && Abs(b) < Pow2(c + 53)
    ensures Abs(b) + Pow2(c) <= Pow2(c + 53)
  {
    hide Pow2, FloorIndex, Mult;
    GridPow2(c + 53, c);
    GridNeg(b, c);
    GridApart(Abs(b), Pow2(c + 53), c);
  }

  // ------------------------------------------------------- leading exponents

  /** The w with 2^(w+52) <= |x| < 2^(w+53), below EMIN when x is subnormal. */
  function Lead(x: real): (w: int)
    requires Rep(x) && x != 0.0
    ensures Pow2(w + 52) <= Abs(x) < Pow2(w + 53)
    ensures w <= Cexp(x) && (w == Cexp(x) || Cexp(x) == EMIN)
  {
    RepGrid(x, EMIN);
    if Abs(x) < Pow2(EMIN) then GridSmall(x, EMIN); 0
    else
      var w := CexpFrom(Abs(x), EMIN - 52);
      LeadBelow(x, w);
      w
  }

  lemma LeadBelow(x: real, w: int)
    requires Abs(x) < Pow2(w + 53) && (w > EMIN - 52 ==> Abs(x) >= Pow2(w + 52))
    ensures w <= Cexp(x) && (w == Cexp(x) || Cexp(x) == EMIN)
  {
    hide Pow2, CexpFrom, Cexp;
    if w > Cexp(x) {
      Pow2Mono(Cexp(x) + 53, w + 52);
    }
    if w < Cexp(x) {
      Pow2Mono(w + 53, Cexp(x) + 52);
    }
  }

  /** The rounding of a number given by its 53-bit scaled value y. */
  lemma RNScaled(x: real, y: real, c: int)
    requires c >= EMIN && x == y * Pow2(c) && 4503599627370496.0 <= Abs(y) < 9007199254740992.0
    ensures RN(x) == Mult(NearestInt(y), c)
  {
    hide Pow2, Cexp, NearestInt, Abs;
    var p := Pow2(c);
    UnitRoundoff();
    Pow2Succ(52);
    AbsTimes(x, p, y);
    AbsNonneg(y);
    Pow2Add(52, c);
    Pow2Add(53, c);
    ProductLe(Pow2(c + 52), Abs(x), Pow2(52), p, Abs(y), p);
    ProductLt(Abs(x), Pow2(c + 53), Abs(y), p, Pow2(53), p);
    CexpIs(x, c);
    Pow2Inverse(c);
    Regroup(y, p, Pow2(-c));
    assert Scaled(x, c) == y;
  }

  // ----------------------------------------------------------- error bounds

  /** 2^-53 times x: the unit roundoff of x. */
  function Eps(x: real): real {
    x / 9007199254740992.0
  }

  lemma SmallPowers()
    ensures Pow2(2) == 4.0 && Pow2(4) == 16.0 && Pow2(8) == 256.0 && Pow2(16) == 65536.0
    ensures Pow2(26) == 67108864.0 && Pow2(27) == 134217728.0
  {
    hide Pow2;
    Pow2Zero();
    Pow2Succ(0);
    Pow2Succ(1);
    Pow2Add(2, 2);
    Pow2Add(4, 4);
    Pow2Add(8, 8);
    Pow2Add(16, 8);
    Pow2Add(24, 2);
    Pow2Succ(26);
  }

  lemma UnitRoundoff()
    ensures Pow2(53) == 9007199254740992.0 && Pow2(-53) == Eps(1.0)
  {
    hide Pow2;
    SmallPowers();
    Pow2Add(27, 26);
    Pow2Inverse(53);
  }

  lemma HalfUlp(c: int)
    ensures Pow2(c - 1) == Eps(Pow2(c + 52))
  {
    hide Pow2;
    UnitRoundoff();
    Pow2Add(c + 52, -53);
  }

  /** Rounding has a relative error of 2^-53 on normal results, and on every
      result that lies on the subnormal grid, where small values are exact. */
  lemma RNRelative(x: real)
    requires Pow2(EMIN + 52) <= Abs(x) || Grid(x, EMIN)
    ensures Abs(RN(x) - x) <= Eps(Abs(x))
  {
    hide Pow2, FloorIndex, Mult, Cexp, RN, Rep;
    var c := Cexp(x);
    if Abs(x) < Pow2(c + 52) {
      assert c == EMIN;
      RepIntro(x, EMIN);
      RNExact(x);
    } else {
      RNError(x);
      HalfUlp(c);
    }
  }

  /** In general an absolute error of half the least subnormal is added. */
  lemma RNBound(x: real)
    ensures Abs(RN(x) - x) <= Eps(Abs(x)) + Pow2(EMIN - 1)
  {
    hide Pow2, FloorIndex, Mult, Cexp, RN, Rep;
    var c := Cexp(x);
    RNError(x);
    if c > EMIN {
      HalfUlp(c);
    }
  }

  /** Sums of doubles never underflow. */
  lemma RNSum(a: real, b: real)
    requires Rep(a) && Rep(b)
    ensures Abs(RN(a + b) - (a + b)) <= Eps(Abs(a + b))
  {
    hide Pow2, FloorIndex, Mult, Cexp, RN, Rep;
    RepGrid(a, EMIN);
    RepGrid(b, EMIN);
    GridSum(a, b, EMIN);
    RNRelative(a + b);
  }
}
