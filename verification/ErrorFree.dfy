/**
 Error-free transformations: sums and products as unevaluated pairs.

 Every right-hand side below is one machine operation, RN applied to the exact
 result of a single addition or multiplication, in the order the macros of
 crlibm_private.h perform them.
 */
module ErrorFree {
  import opened Dyadic
  import opened Rounding

  datatype Pair = Pair(h: real, l: real)

  /** Fast two-sum; meant for |a| >= |b|. */
  function Add12(a: real, b: real): Pair {
    var s := RN(a + b);
    var z := RN(s - a);
    var r := RN(b - z);
    Pair(s, r)
  }

  /** The branch-free two-sum. */
  function Add12Cond(a: real, b: real): Pair {
    var s := RN(a + b);
    var u1 := RN(s - a);
    var u2 := RN(s - u1);
    var u3 := RN(b - u1);
    var u4 := RN(a - u2);
    var r := RN(u4 + u3);
    Pair(s, r)
  }

  /** The two-sum selected when branches are not avoided. */
  function Add12CondBranching(a: real, b: real): Pair {
    var s := RN(a + b);
    if Abs(a) > Abs(b) then
      var z := RN(s - a);
      Pair(s, RN(b - z))
    else
      var z := RN(s - b);
      Pair(s, RN(a - z))
  }

  // ----------------------------------------------------- the error of a sum

  /** The sum of two doubles lies on the finer of their two grids. */
  lemma SumGrid(a: real, b: real)
    requires Rep(a) && Rep(b) && Abs(b) <= Abs(a)
    ensures Grid(a, Cexp(b)) && Grid(b, Cexp(b)) && Grid(a + b, Cexp(b))
  {
    hide Pow2, FloorIndex, Mult, Cexp;
    CexpMono(b, a);
    RepGrid(a, Cexp(b));
    RepGrid(b, Cexp(b));
    GridSum(a, b, Cexp(b));
  }

  /** The rounding error of a sum is itself a double. */
  lemma SumErrorRep(a: real, b: real)
    requires Rep(a) && Rep(b) && Abs(b) <= Abs(a)
    ensures Abs(RN(a + b) - (a + b)) <= Abs(b)
    ensures Rep(a + b - RN(a + b)) && Grid(RN(a + b), Cexp(b))
  {
    hide Pow2, FloorIndex, Mult, Cexp, Rep, RN;
    var s, c := RN(a + b), Cexp(b);
    SumGrid(a, b);
    RNNearest(a + b, a);
    RNRep(a + b);
    RNGridKept(a + b, c);
    GridSum(a + b, s, c);
    RepIntro(a + b - s, c);
  }

  /** Rounding never leaves a grid the exact value was on. */
  lemma RNGridKept(x: real, g: int)
    requires Grid(x, g) && g >= EMIN
    ensures Grid(RN(x), g)
  {
    hide Pow2, FloorIndex, Mult, Cexp, Rep, RN;
    if Cexp(x) >= g {
      RNRep(x);
      GridCoarser(RN(x), Cexp(x), g);
    } else {
      Pow2Mono(Cexp(x) + 53, g + 53);
      RepIntro(x, g);
      RNExact(x);
    }
  }

  /** The first subtraction of the fast two-sum is exact. */
  lemma FastStep(a: real, b: real)
    requires Rep(a) && Rep(b) && Abs(b) <= Abs(a)
    ensures Rep(RN(a + b) - a)
  {
    hide Pow2, FloorIndex, Mult, Cexp, Rep, RN;
    var s, c := RN(a + b), Cexp(b);
    SumGrid(a, b);
    SumErrorRep(a, b);
    GridSum(s, a, c);
    Pow2Succ(c + 53);
    Pow2Succ(c);
    if Cexp(a + b) <= c {
      Pow2Mono(Cexp(a + b) + 53, c + 53);
      RepIntro(a + b, c);
      RNExact(a + b);
    } else if Cexp(a) > c {
      RNRep(a + b);
      GridCoarser(s, Cexp(a + b), c + 1);
      RepGrid(a, c + 1);
      GridSum(s, a, c + 1);
      RepIntro(s - a, c + 1);
    } else {
      CexpMono(b, a);
      assert Abs(a + b) < Pow2(c + 1 + 53);
      CexpLe(a + b, c + 1);
      RNError(a + b);
      GridPow2(c + 53, c);
      BelowTop(b, c);
      RepIntro(s - a, c);
    }
  }

  /** s + r = a + b with s = RN(a + b), for |a| >= |b|. */
  lemma Add12Exact(a: real, b: real)
    requires Rep(a) && Rep(b) && Abs(b) <= Abs(a)
    ensures Add12(a, b).h == RN(a + b)
    ensures Add12(a, b).h + Add12(a, b).l == a + b
  {
    hide Pow2, FloorIndex, Mult, Cexp, Rep, RN;
    var s := RN(a + b);
    FastStep(a, b);
    RNExact(s - a);
    SumErrorRep(a, b);
    assert b - (s - a) == a + b - s;
    RNExact(a + b - s);
  }

  /** 2^53 + 1 is a midpoint; it rounds to the even neighbour 2^53. */
  lemma TieExample()
    ensures RN(-9007199254740993.0) == -9007199254740992.0
    ensures Rep(-9007199254740994.0) && Rep(1.0) && Rep(-2.0)
  {
    hide Pow2, FloorIndex, Cexp, Rep;
    UnitRoundoff();
    Pow2Zero();
    Pow2Succ(0);
    Pow2Succ(-1);
    Pow2Succ(53);
    CexpIs(-9007199254740993.0, 1);
    assert Scaled(-9007199254740993.0, 1) == -4503599627370496.5;
    assert (-4503599627370496.5).Floor == -4503599627370497;
    GridOf(-9007199254740994.0, -4503599627370497, 1);
    RepIntro(-9007199254740994.0, 1);
    RepPow2(0);
    RepPow2(1);
    RepNeg(2.0);
  }

  /** The comment beside Add12 asks for a >= b. Without absolute values that is
      not enough: here a >= b and the pair does not sum to a + b. */
  lemma SignedOrderFails()
    ensures var a, b := 1.0, -9007199254740994.0;
      && Rep(a) && Rep(b) && a >= b
      && Add12(a, b).h + Add12(a, b).l != a + b
  {
    hide RN, Rep;
    TieExample();
    var a, b := 1.0, -9007199254740994.0;
    assert a + b == -9007199254740993.0;
    assert -9007199254740992.0 - a == -9007199254740993.0;
    assert b - -9007199254740992.0 == -2.0;
    RNExact(-2.0);
  }

  /** Sterbenz: the difference of two doubles within a factor two is a double. */
  lemma Sterbenz(x: real, y: real)
    requires Rep(x) && Rep(y) && Abs(x - y) <= Abs(x) && Abs(x - y) <= Abs(y)
    ensures Rep(x - y)
  {
    hide Pow2, FloorIndex, Mult, Cexp, RN;
    if Abs(y) <= Abs(x) {
      SumGrid(x, y);
      GridSum(x, y, Cexp(y));
      RepIntro(x - y, Cexp(y));
    } else {
      SumGrid(y, x);
      GridSum(x, y, Cexp(x));
      RepIntro(x - y, Cexp(x));
    }
  }

  /** An inexact sum is rounded to a coarser grid than either summand's. */
  lemma InexactSum(a: real, b: real)
    requires Rep(a) && Rep(b) && Abs(a) < Abs(b) && RN(a + b) != a + b
    ensures Cexp(a) < Cexp(a + b) && Abs(a) < Pow2(Cexp(a + b) + 52) <= Abs(RN(a + b))
  {
    hide Pow2, FloorIndex, Mult, Cexp, Rep, RN;
    var x := a + b;
    var e := Cexp(x);
    SumGrid(b, a);
    if e <= Cexp(a) {
      Pow2Mono(e + 53, Cexp(a) + 53);
      RepIntro(x, Cexp(a));
      RNExact(x);
    }
    Pow2Mono(Cexp(a) + 53, e + 52);
    RepPow2(e + 52);
    RNMagnitude(x, Pow2(e + 52));
  }

  /** Then b and RN(s - a) are so close that their difference is exact. */
  lemma CondStep(a: real, b: real)
    requires Rep(a) && Rep(b) && Abs(a) < Abs(b) && RN(a + b) != a + b
    ensures Rep(b - RN(RN(a + b) - a))
  {
    hide Pow2, FloorIndex, Mult, Cexp, Rep, RN;
    var e := Cexp(a + b);
    var s := RN(a + b);
    var d := s - (a + b);
    InexactSum(a, b);
    RNError(a + b);
    Pow2Succ(e - 1);
    Pow2Mono(e + 2, e + 52);
    Pow2Succ(e + 1);
    Pow2Succ(e);
    RNNearest(s - a, b);
    RNRep(s - a);
    CloseToLarge(b, RN(s - a), d, Pow2(e - 1));
  }

  // ------------------------------------------ when the fast two-sum is exact

  /** The fast two-sum is exact if and only if its first subtraction is. */
  lemma Add12ExactIff(a: real, b: real)
    requires Rep(a) && Rep(b)
    ensures Add12(a, b).h + Add12(a, b).l == a + b <==> Rep(RN(a + b) - a)
  {
    hide Pow2, FloorIndex, Mult, Cexp, Rep, RN;
    var s := RN(a + b);
    if Abs(b) <= Abs(a) {
      FastStep(a, b);
      Add12Exact(a, b);
    } else if s == a + b {
      assert s - a == b;
      RNExact(b);
      RepZero();
      RNExact(0.0);
    } else {
      CondStep(a, b);
      RNRep(s - a);
      RNExact(b - RN(s - a));
      if Rep(s - a) { RNExact(s - a); }
    }
  }

  predicate SameSign(a: real, b: real) {
    (a > 0.0 && b > 0.0) || (a < 0.0 && b < 0.0)
  }

  /**
   The condition in terms of the operands: the larger one comes first, or the
   sum is a double, or a is a multiple of the last place of b. One boundary case
   is left: b is a power of two, a of the same sign and an odd multiple of half
   the last place of b, so that the sum is a midpoint, and one of those midpoints
   whose even neighbour is the one towards zero.
   */
  predicate Aligned(a: real, b: real) {
    || Abs(b) <= Abs(a) || Rep(a + b) || Grid(a, Cexp(b)) || AtBinade(a, b)
  }

  predicate AtBinade(a: real, b: real) {
    var c := Cexp(b);
    Abs(b) == Pow2(c + 52) && SameSign(a, b) && Grid(a, c - 1) && FloorIndex(Abs(a), c - 1) % 4 == 1
  }

  lemma IndexQuarters(n: int)
    ensures n % 2 != 0 ==> n == 2 * (n / 2) + 1
    ensures n % 2 != 0 ==> ((n / 2) % 2 == 0 <==> n % 4 == 1)
    ensures n % 4 == 1 ==> n % 2 != 0
  {
  }

  lemma MultHalf(n: int, c: int)
    ensures Mult(2 * n, c - 1) == Mult(n, c) && Mult(2 * n + 1, c - 1) == Mult(n, c) + Pow2(c - 1)
  {
    hide Pow2;
    MultDouble(n, c - 1);
    MultSum(2 * n, 1, c - 1);
    assert Mult(1, c - 1) == Pow2(c - 1);
  }

  /** (2^52 + m) is even exactly when m is. */
  lemma ShiftedParity(m: int)
    ensures (4503599627370496 + m) % 2 == m % 2
  {
  }

  /** Half a step above the multiple k of 2^c. */
  lemma HalfStepAbove(x: real, k: int, c: int)
    requires Cexp(x) == c && x == Mult(k, c) + Pow2(c - 1)
    ensures RN(x) < x <==> k % 2 == 0
  {
    hide Pow2, FloorIndex, Mult, Cexp, RN, RD, RU;
    FloorOfHalf(x, k, c);
    FloorIsDown(x, k, c);
    UpperNeighbour(x);
    Pow2Succ(c - 1);
    MidpointParity(x);
  }

  /** The sum of a power of two and an odd number of half steps is a midpoint. */
  lemma SumAtBinade(a: real, b: real, c: int, n: int)
    requires c >= EMIN && 0.0 < a < b == Pow2(c + 52) && a == Mult(n, c - 1) && n % 2 != 0
    ensures Cexp(a + b) == c && (RN(a + b) < a + b <==> n % 4 == 1) && RN(a + b) > 0.0
  {
    hide Pow2, FloorIndex, Mult, Grid, Cexp, RN, Rep;
    var x, m := a + b, n / 2;
    Pow2Succ(c + 52);
    CexpIs(x, c);
    IndexQuarters(n);
    MultHalf(m, c);
    PowerMult(c);
    MultSum(4503599627370496, m, c);
    HalfStepAbove(x, 4503599627370496 + m, c);
    ShiftedParity(m);
    RepPow2(c + 52);
    RNAbove(x, b);
  }

  lemma PowerMult(c: int)
    ensures Pow2(c + 52) == Mult(4503599627370496, c)
  {
    hide Pow2;
    UnitRoundoff();
    Pow2Succ(52);
    Pow2Add(52, c);
  }

  /** The same for operands of either sign. */
  lemma BoundarySum(a: real, b: real)
    requires Abs(b) == Pow2(Cexp(b) + 52) && SameSign(a, b) && Abs(a) < Abs(b)
    requires Grid(a, Cexp(b) - 1) && FloorIndex(Abs(a), Cexp(b) - 1) % 2 != 0
    ensures Abs(RN(a + b)) < Abs(a + b) <==> FloorIndex(Abs(a), Cexp(b) - 1) % 4 == 1
  {
    hide Pow2, FloorIndex, Mult, Cexp, RN, Rep;
    var c := Cexp(b);
    AbsGridOf(a, c - 1);
    SumAtBinade(Abs(a), Abs(b), c, FloorIndex(Abs(a), c - 1));
    if b < 0.0 {
      RNNeg(a + b);
      assert -(a + b) == Abs(a) + Abs(b);
    }
  }

  lemma AbsGridOf(x: real, e: int)
    requires Grid(x, e)
    ensures Abs(x) == Mult(FloorIndex(Abs(x), e), e)
  {
    hide Pow2, FloorIndex, Mult;
    GridNeg(x, e);
  }

  /** The sizes met when the smaller summand comes first and the sum is inexact:
      c is the last place of b, e that of the sum, u the exact value of s - a. */
  lemma Disordered(a: real, b: real, c: int, e: int, u: real)
    requires Rep(a) && Rep(b) && Abs(a) < Abs(b) && RN(a + b) != a + b
    requires c == Cexp(b) && e == Cexp(a + b) && u == RN(a + b) - a
    ensures e <= c + 1 && Grid(RN(a + b), e) && Grid(b, c) && Abs(u - b) <= Pow2(e - 1)
    ensures Pow2(e + 52) <= Abs(a + b) && Abs(a) < Pow2(e + 52) <= Abs(RN(a + b)) && !Rep(a + b)
    ensures c > EMIN ==> Abs(b) >= Pow2(c + 52)
    ensures Abs(b) == Pow2(c + 52) ==> e <= c
  {
    hide Pow2, FloorIndex, Mult, Grid, Cexp, Rep, RN, Abs;
    InexactSum(a, b);
    RNError(a + b);
    RNRep(a + b);
    RepGrid(b, c);
    if Rep(a + b) { RNExact(a + b); }
    Triangle(a, b, a + b);
    Pow2Succ(c + 52);
    Pow2Succ(c + 53);
    CexpLe(a + b, c + 1);
    if Abs(b) == Pow2(c + 52) { CexpLe(a + b, c); }
    assert u - b == RN(a + b) - (a + b);
  }

  lemma AlignedSuffices(a: real, b: real)
    requires Rep(a) && Rep(b) && Abs(a) < Abs(b) && RN(a + b) != a + b && Aligned(a, b)
    ensures Rep(RN(a + b) - a)
  {
    hide Pow2, FloorIndex, Mult, Cexp, Rep, RN, Grid;
    var c, e, u := Cexp(b), Cexp(a + b), RN(a + b) - a;
    Disordered(a, b, c, e, u);
    if Grid(a, c) {
      GridSum(a, b, c);
      if e <= c {
        Pow2Mono(e + 53, c + 53);
        RepIntro(a + b, c);
      }
      GridCoarser(RN(a + b), e, c);
      GridSum(RN(a + b), a, c);
      BelowTop(b, c);
      RepIntro(u, c);
    } else {
      HalfStep(a, b, c, e, u);
    }
  }

  /** The boundary case: s - a lies just below the power of two b. */
  lemma HalfStep(a: real, b: real, c: int, e: int, u: real)
    requires Rep(a) && Rep(b) && Abs(a) < Abs(b) && RN(a + b) != a + b && !Grid(a, c)
    requires c == Cexp(b) && e == Cexp(a + b) && u == RN(a + b) - a && AtBinade(a, b)
    ensures Rep(u)
  {
    hide Pow2, FloorIndex, Mult, Cexp, Rep, RN, Grid, Abs, SameSign;
    IndexQuarters(FloorIndex(Abs(a), c - 1));
    BoundarySum(a, b);
    Disordered(a, b, c, e, u);
    if c == EMIN { RepGrid(a, c); }
    GridCoarser(b, c, c - 1);
    GridSum(a, b, c - 1);
    if e < c {
      Pow2Mono(e + 53, c + 52);
      RepIntro(a + b, c - 1);
    }
    GridCoarser(RN(a + b), e, c - 1);
    GridSum(RN(a + b), a, c - 1);
    Pow2Mono(c - 1, c + 52);
    Shrinks(a, b, RN(a + b), u, Pow2(c + 52));
    RepIntro(u, c - 1);
  }

  /** A sum rounded towards zero: s - a is no larger than b. */
  lemma Shrinks(a: real, b: real, s: real, u: real, top: real)
    requires Abs(a) < Abs(b) == top && top <= Abs(a + b) && top <= Abs(s) < Abs(a + b)
    requires u == s - a && Abs(u - b) <= top
    ensures Abs(u) <= top
  {
  }

  lemma AlignedNeeded(a: real, b: real)
    requires Rep(a) && Rep(b) && Abs(a) < Abs(b) && RN(a + b) != a + b && Rep(RN(a + b) - a)
    ensures Aligned(a, b)
  {
    hide Pow2, FloorIndex, Mult, Cexp, Rep, RN, Grid;
    var c, e, s := Cexp(b), Cexp(a + b), RN(a + b);
    var u := s - a;
    var f := Cexp(u);
    Disordered(a, b, c, e, u);
    if c <= f && c <= e {
      RepGrid(u, c);
      GridCoarser(s, e, c);
      GridSum(s, u, c);
      assert s - u == a;
    } else {
      BelowBinade(a, b, c, e, u);
      OddIndex(a, b, c);
      IndexQuarters(FloorIndex(Abs(a), c - 1));
      BoundarySum(a, b);
    }
  }

  /** If s or s - a has a finer last place than b, it is the boundary case. */
  lemma BelowBinade(a: real, b: real, c: int, e: int, u: real)
    requires Rep(a) && Rep(b) && Abs(a) < Abs(b) && RN(a + b) != a + b && Rep(u)
    requires c == Cexp(b) && e == Cexp(a + b) && u == RN(a + b) - a && (Cexp(u) < c || e < c)
    ensures Abs(b) == Pow2(c + 52) && Grid(a, c - 1) && Abs(RN(a + b)) < Abs(a + b) && SameSign(a, b)
  {
    hide Pow2, FloorIndex, Mult, Cexp, Rep, RN, Grid;
    Disordered(a, b, c, e, u);
    Pow2Mono(e - 1, c);
    Pow2Mono(c, c + 50);
    Pow2Succ(c + 50);
    Pow2Succ(c + 51);
    Pow2Succ(c - 1);
    CexpGe(u, c - 1);
    RepGrid(u, c - 1);
    GridCoarser(b, c, c - 1);
    GridSum(u, b, c - 1);
    if e < c {
      Pow2Mono(e - 1, c - 2);
      Pow2Succ(c - 2);
      GridSmall(u - b, c - 1);
    }
    BinadeBottom(b, u, c);
    GridCoarser(RN(a + b), e, c - 1);
    GridSum(RN(a + b), u, c - 1);
    assert RN(a + b) - u == a;
  }

  /** An even number of half steps would make the sum exact. */
  lemma OddIndex(a: real, b: real, c: int)
    requires Rep(b) && c == Cexp(b) && Abs(b) == Pow2(c + 52) && Abs(a) < Abs(b) && Grid(a, c - 1) && !Rep(a + b)
    ensures FloorIndex(Abs(a), c - 1) % 2 != 0
  {
    hide Pow2, FloorIndex, Mult, Cexp, Rep;
    var n := FloorIndex(Abs(a), c - 1);
    AbsGridOf(a, c - 1);
    if n % 2 == 0 {
      MultHalf(n / 2, c);
      GridOf(Abs(a), n / 2, c);
      GridNeg(Abs(a), c);
      RepGrid(b, c);
      GridSum(a, b, c);
      Pow2Succ(c + 52);
      RepIntro(a + b, c);
    }
  }

  /** A double within one step of b, but below the binade of b. */
  lemma BinadeBottom(b: real, u: real, c: int)
    requires Grid(b, c) && Pow2(c + 52) <= Abs(b) && Abs(u) < Pow2(c + 52) && Abs(u - b) <= Pow2(c)
    ensures Abs(b) == Pow2(c + 52)
  {
    hide Pow2, FloorIndex, Mult;
    GridPow2(c + 52, c);
    GridNeg(b, c);
    if Abs(b) > Pow2(c + 52) { GridApart(Pow2(c + 52), Abs(b), c); }
  }

  /** The fast two-sum is exact on these pairs and on no others. */
  lemma Add12Condition(a: real, b: real)
    requires Rep(a) && Rep(b)
    ensures Add12(a, b).h + Add12(a, b).l == a + b <==> Aligned(a, b)
  {
    hide Pow2, FloorIndex, Mult, Cexp, Rep, RN, Grid;
    Add12ExactIff(a, b);
    if Abs(b) <= Abs(a) {
      Add12Exact(a, b);
    } else if RN(a + b) == a + b {
      RNRep(a + b);
      assert RN(a + b) - a == b;
    } else if Aligned(a, b) {
      AlignedSuffices(a, b);
    } else if Rep(RN(a + b) - a) {
      AlignedNeeded(a, b);
    }
  }

  lemma CloseToLarge(b: real, u1: real, d: real, h: real)
    requires Rep(b) && Rep(u1)
    requires Abs(u1 - (b + d)) <= Abs(b - (b + d)) && Abs(d) <= h && Abs(b) >= 4.0 * h
    ensures Rep(b - u1)
  {
    hide Cexp, Rep;
    Sterbenz(b, u1);
  }

  /** s + r = a + b with s = RN(a + b), for any two doubles. */
  lemma Add12CondExact(a: real, b: real)
    requires Rep(a) && Rep(b)
    ensures Add12Cond(a, b).h == RN(a + b)
    ensures Add12Cond(a, b).h + Add12Cond(a, b).l == a + b
  {
    hide Pow2, FloorIndex, Mult, Cexp, Rep, RN;
    var s := RN(a + b);
    if Abs(b) <= Abs(a) || s == a + b {
      CondEasy(a, b);
    } else {
      CondHard(a, b);
    }
  }

  lemma CondEasy(a: real, b: real)
    requires Rep(a) && Rep(b)
    requires Abs(b) <= Abs(a) || RN(a + b) == a + b
    ensures Add12Cond(a, b) == Pair(RN(a + b), a + b - RN(a + b))
  {
    hide Pow2, FloorIndex, Mult, Cexp, Rep, RN;
    var s := RN(a + b);
    RepZero();
    RNExact(0.0);
    if Abs(b) <= Abs(a) {
      FastStep(a, b);
      SumErrorRep(a, b);
    } else {
      assert s - a == b;
      assert a + b - s == 0.0;
    }
    RNExact(s - a);
    assert s - (s - a) == a;
    RNExact(a);
    assert b - (s - a) == a + b - s;
    RNExact(a + b - s);
  }

  lemma CondHard(a: real, b: real)
    requires Rep(a) && Rep(b) && Abs(a) < Abs(b) && RN(a + b) != a + b
    ensures Add12Cond(a, b) == Pair(RN(a + b), a + b - RN(a + b))
  {
    hide Pow2, FloorIndex, Mult, Cexp, Rep, RN;
    var s := RN(a + b);
    var u1 := RN(s - a);
    RNRep(a + b);
    CondStep(a, b);
    InexactSum(a, b);
    RNExact(b - u1);
    // s - a is a sum of doubles with the larger one first: its error is a double.
    RepNeg(a);
    assert s + -a == s - a;
    FastStep(s, -a);
    RepNeg(u1 - s);
    RNExact(s - u1);
    SumErrorRep(s, -a);
    RepNeg(s - a - u1);
    assert a - (s - u1) == -(s - a - u1);
    RNExact(a - (s - u1));
    SumErrorRep(b, a);
    assert b + a == a + b;
    assert a - (s - u1) + (b - u1) == a + b - s;
    RNExact(a + b - s);
  }

  /** The branch-free and the branching two-sum return the same pair, always. */
  lemma BranchingAgrees(a: real, b: real)
    requires Rep(a) && Rep(b)
    ensures Add12Cond(a, b) == Add12CondBranching(a, b)
    ensures Abs(b) <= Abs(a) ==> Add12Cond(a, b) == Add12(a, b)
  {
    hide Pow2, FloorIndex, Mult, Cexp, Rep, RN;
    Add12CondExact(a, b);
    if Abs(b) <= Abs(a) {
      Add12Exact(a, b);
    }
    if Abs(a) <= Abs(b) {
      Add12Exact(b, a);
      assert b + a == a + b;
    }
  }
}
