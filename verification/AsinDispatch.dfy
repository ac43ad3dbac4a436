/**
 The dispatch of asin on 1 + x^2: a four-bit index read from the high word
 selects one of three evaluation paths and a row of the coefficient tables.
 */
module AsinDispatch {
  import opened Dyadic
  import opened Rounding
  import opened ErrorFree
  import opened Product
  import opened BitPattern

  datatype Path = Small | Middle(row: nat) | Near1

  /** zdb.d = 1.0 + x * x */
  function Shifted(x: real): real {
    RN(1.0 + FMul(x, x))
  }

  /** (0x000f0000 & i[HI]) >> 16 */
  function Index(hi: nat): nat {
    hi / 0x1_0000 % 16
  }

  /** The index of x, on the values. */
  function IndexOf(x: real): int {
    (16.0 * (Shifted(x) - 1.0)).Floor
  }

  // ------------------------------------------------- the range of 1 + x^2

  /** |x| < 1 means |x| <= 1 - 2^-53, hence x^2 rounds to at most 1 - 2^-52. */
  lemma SquareBelowOne(x: real, xx: real)
    requires Rep(x) && Abs(x) < 1.0 && xx == x * x
    ensures 0.0 <= RN(xx) <= 1.0 - Pow2(-52)
  {
    hide Pow2, FloorIndex, Mult, Cexp, RN, Rep;
    Pow2Zero();
    CexpLe(x, -53);
    LargestBelowOne(x);
    var u := Pow2(-53);
    UnitRoundoff();
    var b := 1.0 - u;
    MulBound(x, x, b, b);
    var bb := b * b;
    assert bb == 1.0 - 2.0 * u + u * u;
    Pow2Add(-53, -53);
    Pow2Mono(-106, -54);
    Pow2Succ(-54);
    Pow2Succ(-53);
    RoundedSquare(xx);
  }

  lemma LargestBelowOne(x: real)
    requires Rep(x) && Abs(x) < 1.0
    ensures Abs(x) <= 1.0 - Pow2(-53)
  {
    hide Pow2, FloorIndex, Mult, Cexp, Rep;
    Pow2Zero();
    if Abs(x) >= 0.5 {
      Pow2Succ(-1);
      CexpGe(x, -53);
      RepGrid(x, -53);
      BelowTop(x, -53);
    } else {
      Pow2Mono(-53, -1);
      Pow2Succ(-1);
    }
  }

  lemma RoundedSquare(xx: real)
    requires 0.0 <= xx < 1.0 - Pow2(-52) + Pow2(-54)
    ensures 0.0 <= RN(xx) <= 1.0 - Pow2(-52)
  {
    hide Pow2, FloorIndex, Mult, Cexp, RN, Rep;
    Pow2Zero();
    Pow2Succ(-54);
    Pow2Succ(-53);
    Pow2Mono(-52, -1);
    Pow2Succ(-1);
    RepZero();
    RNAbove(xx, 0.0);
    var b := 1.0 - Pow2(-52);
    GridPow2(0, -53);
    GridPow2(-52, -53);
    GridSum(1.0, Pow2(-52), -53);
    RepIntro(b, -53);
    if xx <= b {
      RNBelow(xx, b);
    } else {
      RNNearest(xx, b);
      RNRep(xx);
      RNAbove(xx, b);
      CexpGe(RN(xx), -53);
      RepGrid(RN(xx), -53);
      if RN(xx) > b { GridApart(b, RN(xx), -53); }
    }
  }

  /** RN(1 + RN(x^2)) stays in [1, 2), and is within 2^-52 of 1 + x^2. */
  lemma ShiftedRange(x: real)
    requires Rep(x) && Abs(x) < 1.0
    ensures 1.0 <= Shifted(x) <= 2.0 - Pow2(-52) && Rep(Shifted(x)) && Cexp(Shifted(x)) == -52
    ensures var xx := x * x; Abs(Shifted(x) - 1.0 - xx) <= Pow2(-52)
  {
    hide Pow2, FloorIndex, Mult, Cexp, RN, Rep;
    var xx := x * x;
    FMulIs(x, x, xx);
    SquareBelowOne(x, xx);
    var s := 1.0 + RN(xx);
    Pow2Zero();
    Pow2Succ(0);
    Pow2Succ(-53);
    RepPow2(0);
    GridPow2(1, -52);
    GridPow2(-52, -52);
    GridSum(2.0, Pow2(-52), -52);
    RepIntro(2.0 - Pow2(-52), -52);
    RNAbove(s, 1.0);
    RNBelow(s, 2.0 - Pow2(-52));
    RNRep(s);
    CexpIs(RN(s), -52);
    CexpIs(s, -52);
    RNError(s);
    SquareRange(x);
    CexpLe(xx, -52);
    RNError(xx);
    Pow2Mono(Cexp(xx) - 1, -53);
  }

  lemma SquareRange(x: real)
    requires Abs(x) < 1.0
    ensures 0.0 <= x * x < 1.0
  {
    AbsMul(x, x);
    MulLe(Abs(x), 1.0, Abs(x));
  }

  /** The four bits below the exponent of a double in [1, 2). */
  lemma IndexBits(z: real)
    requires Rep(z) && 1.0 <= z < 2.0 && Cexp(z) == -52
    ensures 0.0 <= z < Pow2(1024)
    ensures Index(Encode(false, z) / WORD) == (16.0 * (z - 1.0)).Floor
    ensures 0 <= (16.0 * (z - 1.0)).Floor < 16
  {
    hide Pow2, FloorIndex, Cexp, Rep;
    Pow2Zero();
    Pow2Succ(0);
    Pow2Mono(1, 1024);
    EncodeMagFinite(z);
    var n := FloorIndex(z, -52);
    Powers();
    Pow2Inverse(52);
    var p := Pow2(-52);
    RepGrid(z, -52);
    assert z == Mult(n, -52);
    UnitScale(z, n, p);
    var l := Encode(false, z);
    assert l == (-52 - EMIN) * FRAC + n;
    FieldIndex(l, n);
  }

  lemma UnitScale(z: real, n: int, p: real)
    requires z == n as real * p && FRAC as real * p == 1.0 && 1.0 <= z < 2.0
    ensures FRAC <= n < 2 * FRAC && (16.0 * (z - 1.0)).Floor == (n - FRAC) / 0x1_0000_0000_0000
  {
    var x, y := n as real, FRAC as real;
    assert p == 1.0 / 4503599627370496.0;
    assert 16.0 * (z - 1.0) == (n - FRAC) as real / 281474976710656.0;
    FloorOfQuotient(n - FRAC);
  }

  lemma FloorOfQuotient(n: int)
    ensures (n as real / 281474976710656.0).Floor == n / 0x1_0000_0000_0000
  {
    var q, r := n / 0x1_0000_0000_0000, n % 0x1_0000_0000_0000;
    assert n == 0x1_0000_0000_0000 * q + r;
    assert n as real == 281474976710656.0 * q as real + r as real;
  }

  lemma FieldIndex(l: nat, n: nat)
    requires FRAC <= n < 2 * FRAC && l == 1022 * FRAC + n
    ensures Index(l / WORD) == (n - FRAC) / 0x1_0000_0000_0000
  {
    var f := n - FRAC;
    var q, r := f / 0x1_0000_0000_0000, f % 0x1_0000_0000_0000;
    assert l == (1023 * 16 + q) * 0x1_0000_0000_0000 + r;
    assert l / WORD / 0x1_0000 == l / 0x1_0000_0000_0000;
  }

  /** A larger |x| never gets a smaller index. */
  lemma IndexMonotone(x: real, y: real)
    requires Abs(x) <= Abs(y)
    ensures IndexOf(x) <= IndexOf(y)
  {
    hide RN;
    var xx, yy := x * x, y * y;
    FMulIs(x, x, xx);
    FMulIs(y, y, yy);
    AbsMul(x, x);
    AbsMul(y, y);
    MulLe(Abs(x), Abs(y), Abs(x));
    MulLe(Abs(x), Abs(y), Abs(y));
    SquareAbs(x);
    SquareAbs(y);
    RNMono(xx, yy);
    RNMono(1.0 + RN(xx), 1.0 + RN(yy));
    FloorMono(16.0 * (Shifted(x) - 1.0), 16.0 * (Shifted(y) - 1.0));
  }

  lemma SquareAbs(x: real)
    ensures x * x == Abs(x) * Abs(x)
  {
  }

  lemma FloorMono(x: real, y: real)
    requires x <= y
    ensures x.Floor <= y.Floor
  {
  }

  /** What the index says about x^2. */
  lemma IndexMeaning(x: real, xx: real, i: int)
    requires Rep(x) && Abs(x) < 1.0 && i == IndexOf(x) && xx == x * x
    ensures 0 <= i < 16
    ensures i as real / 16.0 - Pow2(-52) <= xx < (i + 1) as real / 16.0 + Pow2(-52)
  {
    hide Pow2, Cexp, RN, Rep, Shifted;
    ShiftedRange(x);
    Pow2Zero();
    IndexBits(Shifted(x));
  }

  /** What the path says about the square of the argument. */
  ghost predicate OnPath(p: Path, xx: real) {
    match p
    case Small => xx < 1.0 / 16.0 + Pow2(-52)
    case Middle(row) =>
      row < 8 && (row + 1) as real / 16.0 - Pow2(-52) <= xx < (row + 2) as real / 16.0 + Pow2(-52)
    case Near1 => xx >= 9.0 / 16.0 - Pow2(-52)
  }

  /** The path of the index i. */
  function PathOf(i: nat): Path {
    if i == 0 then Small else if i <= 8 then Middle(i - 1) else Near1
  }

  lemma PathMeaning(x: real, xx: real, i: nat)
    requires Rep(x) && Abs(x) < 1.0 && i == IndexOf(x) && xx == x * x
    ensures OnPath(PathOf(i), xx)
  {
    hide Pow2, Cexp, RN, Rep, IndexOf;
    IndexMeaning(x, xx, i);
  }

  /**
   The dispatch: index 0 takes the first path, 1 to 8 the second with a row of
   the tables of 128 and 258 entries, 9 to 15 the third. Up to 2^-52 the first
   path has x^2 below 1/16, the third x^2 above 9/16.
   */
  method Dispatch(x: Bits64) returns (p: Path)
    requires Finite(x) && Abs(Decode(x)) < 1.0
    ensures 0 <= IndexOf(Decode(x)) < 16
    ensures p == PathOf(IndexOf(Decode(x)))
    ensures OnPath(p, Decode(x) * Decode(x))
    ensures p.Middle? ==> 16 * p.row + 15 < 128 && 32 * p.row + 31 < 258
  {
    hide Pow2, Cexp, RN, Rep, FMul, Decode, Encode, Shifted, OnPath;
    hide IndexOf, Index, PathOf;
    DecodeRep(x);
    IndexRead(Decode(x));
    var zdb := new DbNumber(Encode(false, RN(1.0 + FMul(Decode(x), Decode(x)))));
    var index := Index(zdb.Hi());
    PathMeaning(Decode(x), Decode(x) * Decode(x), index);
    PathFields(index);
    if index == 0 {
      return Small;
    }
    index := index - 1;
    if index / 8 % 2 != 0 {
      return Near1;
    }
    return Middle(index);
  }

  /** The four bits read from the high word are the index. */
  lemma IndexRead(x: real)
    requires Rep(x) && Abs(x) < 1.0
    ensures 0.0 <= RN(1.0 + FMul(x, x)) < Pow2(1024) && Rep(RN(1.0 + FMul(x, x)))
    ensures Index(Encode(false, RN(1.0 + FMul(x, x))) / WORD) == IndexOf(x) && 0 <= IndexOf(x) < 16
  {
    hide Pow2, Cexp, RN, Rep, FMul, Encode, Shifted, Index, Abs;
    ShiftedRange(x);
    PowerPositive();
    IndexBits(Shifted(x));
    ShiftedIs(x);
  }

  /** The bit that the second test of the dispatch looks at. */
  lemma PathFields(i: nat)
    requires i < 16
    ensures PathOf(i) == if i == 0 then Small else if (i - 1) / 8 % 2 != 0 then Near1 else Middle(i - 1)
  {
  }

  lemma PowerPositive()
    ensures Pow2(-52) > 0.0
  {
  }

  lemma ShiftedIs(x: real)
    ensures Shifted(x) == RN(1.0 + FMul(x, x))
  {
  }

  // ------------------------------------------------- the reduction of path 3

  /** MI_9 */
  const MI_9: real := 7881299347905415.0 / 9007199254740992.0

  lemma MidpointRep()
    ensures Rep(MI_9)
  {
    hide Pow2, FloorIndex, Cexp, Rep;
    UnitRoundoff();
    Pow2Zero();
    GridOf(MI_9, 7881299347905415, -53);
    RepIntro(MI_9, -53);
  }

  lemma AtLeastThreeQuarters(x: real, xx: real)
    requires xx == x * x && xx >= 0.5624 && Abs(x) < 1.0
    ensures Abs(x) >= 0.7499
  {
    hide Abs;
    SquareAbs(x);
    var a := Abs(x);
    AbsNonneg(x);
    if a < 0.7499 {
      MulLe(a, 0.7499, a);
    }
  }

  /**
   z = |x| - MI_9 and zp = 2 (1 - |x|) are computed without error, and z lies
   in the interval around 0 that MI_9, the middle of 3/4 and 1, makes of it.
   */
  lemma Near1Exact(x: real)
    requires Rep(x) && Abs(x) < 1.0 && IndexOf(x) > 8
    ensures RN(Abs(x) - MI_9) == Abs(x) - MI_9 && -0.1252 <= Abs(x) - MI_9 <= 0.125
    ensures FMul(2.0, RN(1.0 - Abs(x))) == 2.0 * (1.0 - Abs(x))
  {
    hide Pow2, FloorIndex, Mult, Cexp, RN, Rep, IndexOf;
    var a := Abs(x);
    IndexMeaning(x, x * x, IndexOf(x));
    UnitRoundoff();
    Pow2Succ(-53);
    AtLeastThreeQuarters(x, x * x);
    RepNeg(x);
    MidpointRep();
    Sterbenz(a, MI_9);
    RNExact(a - MI_9);
    Pow2Zero();
    RepPow2(0);
    Sterbenz(1.0, a);
    RNExact(1.0 - a);
    DoubleExact(1.0 - a);
  }

  lemma DoubleExact(y: real)
    requires Rep(y)
    ensures FMul(2.0, y) == 2.0 * y
  {
    hide Pow2, FloorIndex, Mult, Cexp, RN, Rep;
    Pow2Zero();
    Pow2Succ(0);
    var z, c := 2.0 * y, Cexp(y);
    RepGrid(y, c);
    GridShift(z, y, c, 1);
    Pow2Succ(c + 53);
    RepIntro(z, c + 1);
    FMulIs(2.0, y, z);
    RNExact(z);
  }
}
