/**
 Dekker's product on Veltkamp's splitting: the macro Mul12 is exact.
 */
module Product {
  import opened Dyadic
  import opened Rounding
  import opened ErrorFree

  /** 2^27 + 1 */
  const SPLITTER: real := 134217729.0

  /** The machine product. */
  function FMul(x: real, y: real): real {
    RN(x * y)
  }

  lemma FMulIs(x: real, y: real, z: real)
    requires z == x * y
    ensures FMul(x, y) == RN(z)
  {
    hide RN;
  }

  /** Veltkamp's splitting of u into a 26-bit high part and the rest. */
  function Split(u: real): Pair {
    var up := FMul(u, SPLITTER);
    var u1 := RN(RN(u - up) + up);
    var u2 := RN(u - u1);
    Pair(u1, u2)
  }

  /** Dekker's recovery of the low part of a product from the split factors. */
  function LowPart(rh: real, u: Pair, v: Pair): real {
    RN(RN(RN(RN(FMul(u.h, v.h) - rh) + FMul(u.h, v.l)) + FMul(u.l, v.h)) + FMul(u.l, v.l))
  }

  /** rh + rl = u * v without a fused multiply-add. */
  function Mul12(u: real, v: real): Pair {
    var rh := FMul(u, v);
    Pair(rh, LowPart(rh, Split(u), Split(v)))
  }

  /** rh + rl = u * v with the fused multiply-subtract, one rounding of u*v - rh. */
  function Mul12Fma(u: real, v: real): Pair {
    var rh := FMul(u, v);
    Pair(rh, RN(u * v - rh))
  }

  // ---------------------------------------------------------------- splitting

  /** What the splitting delivers, for a number whose leading exponent is w. */
  ghost predicate IsSplit(u: real, w: int, p: Pair) {
    && p.h + p.l == u
    && Grid(p.h, if w + 27 < EMIN then EMIN else w + 27)
    && Grid(p.l, Cexp(u))
    && Abs(p.h) <= Pow2(w + 53)
    && Abs(p.l) <= Pow2(w + 26)
  }

  lemma SplitterTimes(u: real, x: real, y: real)
    requires x == u * SPLITTER && y == Pow2(27) * u
    ensures x == y + u
  {
    hide Pow2;
    SmallPowers();
    assert y == 134217728.0 * u;
  }

  lemma ShiftedMagnitude(y: real, u: real, k: int, e: int)
    requires y == Pow2(k) * u && Abs(u) <= Pow2(e)
    ensures Abs(y) <= Pow2(k + e)
  {
    hide Pow2, Abs;
    AbsScale(y, Pow2(k), u, Pow2(e));
    Pow2Add(k, e);
  }

  /** The sizes met when nothing is rounded. */
  lemma TinySizes(u: real, y: real, w: int)
    requires y == Pow2(27) * u && Abs(u) <= Pow2(w + 53) && w + 27 < EMIN
    ensures Abs(y) <= Pow2(EMIN + 53) && Abs(-y) <= Pow2(EMIN + 53) && Abs(y + u) <= Pow2(EMIN + 53)
  {
    hide Pow2, Abs;
    ShiftedMagnitude(y, u, 27, w + 53);
    Pow2Succ(w + 80);
    Pow2Mono(w + 53, w + 80);
    Pow2Mono(w + 81, EMIN + 53);
    Triangle(y, u, y + u);
    AbsNeg(y);
  }

  /** A number so far into the subnormals that nothing is rounded. */
  lemma SplitTiny(u: real)
    requires Rep(u) && u != 0.0 && Lead(u) + 27 < EMIN
    ensures Split(u) == Pair(u, 0.0) && IsSplit(u, Lead(u), Split(u))
  {
    hide Pow2, FloorIndex, Mult, Grid, Cexp, RN, Rep, Lead, FMul;
    var w := Lead(u);
    var x, y := u * SPLITTER, Pow2(27) * u;
    FMulIs(u, SPLITTER, x);
    SplitterTimes(u, x, y);
    RepGrid(u, EMIN);
    GridShift(y, u, EMIN, 27);
    GridCoarser(y, EMIN + 27, EMIN);
    GridSum(y, u, EMIN);
    GridNeg(y, EMIN);
    TinySizes(u, y, w);
    RepIntro(x, EMIN);
    RNExact(x);
    RepIntro(-y, EMIN);
    assert u - x == -y;
    RNExact(-y);
    assert -y + x == u;
    RNExact(u);
    RepZero();
    RNExact(0.0);
    GridZero(Cexp(u));
  }

  lemma ShiftedBounds(y: real, u: real, k: int, e: int)
    requires y == Pow2(k) * u && Pow2(e) <= Abs(u) < Pow2(e + 1)
    ensures Pow2(e + k) <= Abs(y) < Pow2(e + k + 1)
    ensures Abs(u) == Pow2(e) ==> Abs(y) == Pow2(e + k)
  {
    hide Pow2;
    AbsMul(Pow2(k), u);
    Pow2Add(e, k);
    Pow2Add(e + 1, k);
    MulLe(Pow2(e), Abs(u), Pow2(k));
    MulLt(Abs(u), Pow2(e + 1), Pow2(k));
  }

  lemma SplitRange(u: real, w: int)
    requires Rep(u) && u != 0.0 && w == Lead(u)
    ensures Pow2(w + 79) <= Abs(u * SPLITTER) < Pow2(w + 81)
  {
    hide Pow2, FloorIndex, Mult, Cexp, RN, Rep, Lead, FMul;
    var x := u * SPLITTER;
    FMulIs(u, SPLITTER, x);
    var y := Pow2(27) * u;
    SplitterTimes(u, x, y);
    ShiftedBounds(y, u, 27, w + 52);
    AddsUp(x, y, u, 27);
    Pow2Mono(w + 53, w + 80);
    Pow2Succ(w + 80);
  }

  /** The scaled copy u * (2^27+1) is rounded to the grid 2^(w+27). */
  lemma SplitProduct(u: real, w: int)
    requires Rep(u) && u != 0.0 && w == Lead(u) && w + 27 >= EMIN
    ensures Grid(FMul(u, SPLITTER), w + 27)
    ensures Abs(FMul(u, SPLITTER) - u * SPLITTER) <= Pow2(w + 27)
  {
    hide Pow2, FloorIndex, Mult, Cexp, RN, Rep, Lead, FMul;
    var x := u * SPLITTER;
    FMulIs(u, SPLITTER, x);
    SplitRange(u, w);
    CexpGe(x, w + 27);
    CexpLe(x, w + 28);
    RNError(x);
    Pow2Mono(Cexp(x) - 1, w + 27);
    RNRep(x);
    GridCoarser(RN(x), Cexp(x), w + 27);
  }

  /** A power of two is scaled without any rounding. */
  lemma SplitPowerOfTwo(u: real, w: int)
    requires Rep(u) && u != 0.0 && w == Lead(u) && w + 27 >= EMIN
    requires Abs(u) == Pow2(w + 52)
    ensures FMul(u, SPLITTER) == u * SPLITTER
  {
    hide Pow2, FloorIndex, Mult, Cexp, RN, Rep, Lead, FMul;
    var x := u * SPLITTER;
    FMulIs(u, SPLITTER, x);
    var y := Pow2(27) * u;
    SplitterTimes(u, x, y);
    SplitRange(u, w);
    GridPow2(w + 52, w + 28);
    GridNeg(Pow2(w + 52), w + 28);
    GridShift(y, u, w + 28, 27);
    GridCoarser(y, w + 55, w + 28);
    GridSum(y, u, w + 28);
    RepIntro(x, w + 28);
    RNExact(x);
  }

  lemma AddsUp(x: real, y: real, u: real, k: int)
    requires y == Pow2(k) * u && x == y + u
    ensures Abs(x) == Abs(y) + Abs(u)
  {
    hide Pow2;
    if u >= 0.0 {
      MulLe(0.0, u, Pow2(k));
    } else {
      MulLe(u, 0.0, Pow2(k));
    }
  }

  lemma ScaledGap(a: real, step: real, b: real, k: real, ka: real, kstep: real, kb: real)
    requires a + step <= b && k > 0.0 && ka == k * a && kstep == k * step && kb == k * b
    ensures ka + kstep <= kb
  {
    var t := a + step;
    Distribute(t, a, step, k);
    MulLe(t, b, k);
    assert t * k <= b * k;
  }

  lemma AbsGrid(u: real, w: int)
    requires Grid(u, w)
    ensures Grid(Abs(u), w)
  {
    hide Pow2, FloorIndex, Mult, Grid;
    GridNeg(u, w);
  }

  lemma SplitSpan(v: real, u: real, w: int)
    requires Rep(u) && u != 0.0 && w == Lead(u) && v == Pow2(27) * u
    ensures Abs(v) + Pow2(w + 27) <= Pow2(w + 80)
    ensures Abs(u) != Pow2(w + 52) ==> Abs(v) >= Pow2(w + 79) + Pow2(w + 27)
  {
    hide Pow2, FloorIndex, Mult, Cexp, RN, Rep, Lead, FMul;
    RepGrid(u, Cexp(u));
    GridCoarser(u, Cexp(u), w);
    GridNeg(u, w);
    BelowTop(u, w);
    hide Abs;
    AbsTimes(v, Pow2(27), u);
    Pow2Add(27, w);
    Pow2Add(27, w + 52);
    Pow2Add(27, w + 53);
    ScaledGap(Abs(u), Pow2(w), Pow2(w + 53), Pow2(27), Abs(v), Pow2(w + 27), Pow2(w + 80));
    if Abs(u) != Pow2(w + 52) {
      AbsGrid(u, w);
      GridPow2(w + 52, w);
      GridApart(Pow2(w + 52), Abs(u), w);
      ScaledGap(Pow2(w + 52), Pow2(w), Abs(u), Pow2(27), Pow2(w + 79), Pow2(w + 27), Abs(v));
    }
  }

  /** u - RN(u * (2^27+1)) is about -2^27 u, and is rounded on the grid 2^(w+27). */
  lemma SplitDifference(u: real, w: int)
    requires Rep(u) && u != 0.0 && w == Lead(u) && w + 27 >= EMIN
    ensures var y := u - FMul(u, SPLITTER);
      Pow2(w + 79) <= Abs(y) <= Pow2(w + 80) && Grid(y, Cexp(u))
  {
    hide Pow2, FloorIndex, Mult, Cexp, RN, Rep, Lead, FMul;
    var x := u * SPLITTER;
    FMulIs(u, SPLITTER, x);
    var v := Pow2(27) * u;
    var d := RN(x) - x;
    SplitterTimes(u, x, v);
    SplitProduct(u, w);
    assert u - RN(x) == -v - d;
    AbsMul(Pow2(27), u);
    RepGrid(u, Cexp(u));
    GridCoarser(RN(x), w + 27, Cexp(u));
    GridSum(u, RN(x), Cexp(u));
    SplitSpan(v, u, w);
    if Abs(u) == Pow2(w + 52) {
      SplitPowerOfTwo(u, w);
      ShiftedBounds(v, u, 27, w + 52);
    }
  }

  lemma SplitQuotient(u: real, w: int)
    requires Rep(u) && u != 0.0 && w == Lead(u) && w + 27 >= EMIN
    ensures var y := u - FMul(u, SPLITTER);
      Grid(RN(y), w + 27) && Abs(RN(y) - y) <= Pow2(w + 26)
  {
    hide Pow2, FloorIndex, Mult, Cexp, RN, Rep, Lead, FMul;
    var y := u - FMul(u, SPLITTER);
    SplitDifference(u, w);
    CexpGe(y, w + 27);
    RNRep(y);
    GridCoarser(RN(y), Cexp(y), w + 27);
    if Abs(y) < Pow2(w + 80) {
      CexpLe(y, w + 27);
      RNError(y);
      Pow2Mono(Cexp(y) - 1, w + 26);
    } else {
      RepPow2(w + 80);
      RepNeg(Pow2(w + 80));
      RNExact(y);
    }
  }

  lemma SplitLarge(u: real, w: int)
    requires Rep(u) && u != 0.0 && w == Lead(u) && w + 27 >= EMIN
    ensures IsSplit(u, w, Split(u))
  {
    hide Pow2, FloorIndex, Mult, Cexp, RN, Rep, Lead, FMul;
    var p := FMul(u, SPLITTER);
    var y := u - p;
    var q := RN(y);
    var t := q + p;
    SplitProduct(u, w);
    SplitQuotient(u, w);
    GridSum(q, p, w + 27);
    GridPow2(w + 53, w + 27);
    Pow2Succ(w + 26);
    GridNeg(t, w + 27);
    assert t == u + (q - y);
    if Abs(t) > Pow2(w + 53) { GridApart(Pow2(w + 53), Abs(t), w + 27); }
    Pow2Mono(w + 53, w + 80);
    RepIntro(t, w + 27);
    RNExact(t);
    var c := Cexp(u);
    RepGrid(u, c);
    GridCoarser(t, w + 27, c);
    GridSum(u, t, c);
    assert u - t == -(q - y);
    Pow2Mono(w + 26, c + 53);
    RepIntro(u - t, c);
    RNExact(u - t);
  }

  lemma SplitExact(u: real)
    requires Rep(u) && u != 0.0
    ensures IsSplit(u, Lead(u), Split(u))
  {
    hide *;
    if Lead(u) + 27 < EMIN {
      SplitTiny(u);
    } else {
      SplitLarge(u, Lead(u));
    }
  }

  lemma SplitZero()
    ensures Split(0.0) == Pair(0.0, 0.0)
  {
    hide Pow2, FloorIndex, Mult, Cexp, RN, Rep, FMul;
    FMulIs(0.0, SPLITTER, 0.0);
    RepZero();
    RNExact(0.0);
  }

  // ------------------------------------------------------- the four products

  /** The product of two multiples of powers of two, when it is a double. */
  lemma ProductRep(z: real, x: real, y: real, gx: int, gy: int, g: int, ex: int, ey: int)
    requires z == x * y
    requires Grid(x, gx) && Grid(y, gy) && Abs(x) <= Pow2(ex) && Abs(y) <= Pow2(ey)
    requires EMIN <= g <= gx + gy && ex + ey <= g + 53
    ensures Rep(z) && Grid(z, g) && Abs(z) <= Pow2(ex + ey)
  {
    hide Pow2, FloorIndex, Mult, Cexp, Rep;
    GridProduct(z, x, y, gx, gy);
    GridCoarser(z, gx + gy, g);
    MulBound(x, y, Pow2(ex), Pow2(ey));
    Pow2Add(ex, ey);
    Pow2Mono(ex + ey, g + 53);
    RepIntro(z, g);
  }

  /** The rounding of u * v: its error is a double of known size and grid. */
  lemma ProductError(u: real, v: real, z: real)
    requires z == u * v && Rep(u) && Rep(v) && u != 0.0 && v != 0.0
    requires Cexp(u) + Cexp(v) >= EMIN
    ensures var w, g, d := Lead(u) + Lead(v), Cexp(u) + Cexp(v), RN(z) - z;
      && Abs(d) <= Pow2(w + 52)
      && Grid(d, g) && Rep(d) && Rep(-d)
      && Grid(RN(z), g) && Grid(RN(z), w + 52)
  {
    hide Pow2, FloorIndex, Mult, Cexp, RN, Rep, Lead, FMul;
    var w, g := Lead(u) + Lead(v), Cexp(u) + Cexp(v);
    var d := RN(z) - z;
    RepGrid(u, Cexp(u));
    RepGrid(v, Cexp(v));
    GridProduct(z, u, v, Cexp(u), Cexp(v));
    RNGridKept(z, g);
    GridSum(RN(z), z, g);
    ProductRange(z, u, v, Lead(u), Lead(v));
    CexpGe(z, w + 52);
    RNRep(z);
    GridCoarser(RN(z), Cexp(z), w + 52);
    RNError(z);
    Pow2Mono(w + 52, g + 53);
    if Cexp(z) == EMIN {
      GridCoarser(z, g, EMIN);
      RepIntro(z, EMIN);
      RNExact(z);
    } else {
      Pow2Less(Cexp(z) + 52, w + 106);
      Pow2Mono(Cexp(z) - 1, w + 52);
    }
    RepIntro(d, g);
    RepNeg(d);
  }

  lemma ProductRange(z: real, u: real, v: real, a: int, b: int)
    requires z == u * v
    requires Pow2(a + 52) <= Abs(u) < Pow2(a + 53)
    requires Pow2(b + 52) <= Abs(v) < Pow2(b + 53)
    ensures Pow2(a + b + 104) <= Abs(z) < Pow2(a + b + 106)
  {
    hide Pow2, Abs;
    AbsProduct(z, u, v);
    Pow2Add(a + 52, b + 52);
    Pow2Add(a + 53, b + 53);
    ProductLe(Pow2(a + b + 104), Abs(z), Pow2(a + 52), Pow2(b + 52), Abs(u), Abs(v));
    ProductLt(Abs(z), Pow2(a + b + 106), Abs(u), Abs(v), Pow2(a + 53), Pow2(b + 53));
  }

  /** The exact value behind each of Dekker's partial sums. */
  lemma Expand(u1: real, u2: real, v1: real, v2: real, z: real)
    requires z == (u1 + u2) * (v1 + v2)
    ensures z == u1 * v1 + u1 * v2 + u2 * v1 + u2 * v2
  {
    var v := v1 + v2;
    Distribute(u1 + u2, u1, u2, v);
    Distribute(v, v1, v2, u1);
    Distribute(v, v1, v2, u2);
  }

  function Max(a: int, b: int): int {
    if a < b then b else a
  }

  /** The four partial products are doubles, so they are computed without error. */
  lemma PartialProducts(u: real, v: real, u1: real, u2: real, v1: real, v2: real)
      returns (p: real, q: real, r: real, t: real)
    requires Rep(u) && Rep(v) && u != 0.0 && v != 0.0
    requires Split(u) == Pair(u1, u2) && Split(v) == Pair(v1, v2)
    requires Cexp(u) + Cexp(v) >= EMIN
    ensures p == u1 * v1 && q == u1 * v2 && r == u2 * v1 && t == u2 * v2
    ensures Rep(p) && Rep(q) && Rep(r) && Rep(t)
    ensures var w, g := Lead(u) + Lead(v), Cexp(u) + Cexp(v);
      && Grid(p, Max(g, w + 54))
      && Grid(q, Max(g, w + 27)) && Abs(q) <= Pow2(w + 79)
      && Grid(r, Max(g, w + 27)) && Abs(r) <= Pow2(w + 79)
      && Grid(t, g) && Abs(t) <= Pow2(w + 52)
  {
    hide Pow2, FloorIndex, Grid, Mult, Cexp, RN, Rep, Lead, Split;
    p, q, r, t := u1 * v1, u1 * v2, u2 * v1, u2 * v2;
    SplitExact(u);
    SplitExact(v);
    ExactProducts(u1, u2, v1, v2, p, q, r, t, Lead(u), Lead(v), Cexp(u), Cexp(v));
  }

  lemma ExactProducts(u1: real, u2: real, v1: real, v2: real,
                      p: real, q: real, r: real, t: real,
                      a: int, b: int, cu: int, cv: int)
    requires p == u1 * v1 && q == u1 * v2 && r == u2 * v1 && t == u2 * v2
    requires a <= cu && b <= cv && EMIN <= cu + cv
    requires (cu == a && cu >= EMIN) || cu == EMIN
    requires (cv == b && cv >= EMIN) || cv == EMIN
    requires Grid(u1, Max(a + 27, EMIN)) && Grid(u2, cu) && Abs(u1) <= Pow2(a + 53) && Abs(u2) <= Pow2(a + 26)
    requires Grid(v1, Max(b + 27, EMIN)) && Grid(v2, cv) && Abs(v1) <= Pow2(b + 53) && Abs(v2) <= Pow2(b + 26)
    ensures Rep(p) && Rep(q) && Rep(r) && Rep(t)
    ensures var w, g := a + b, cu + cv;
      && Grid(p, Max(g, w + 54))
      && Grid(q, Max(g, w + 27)) && Abs(q) <= Pow2(w + 79)
      && Grid(r, Max(g, w + 27)) && Abs(r) <= Pow2(w + 79)
      && Grid(t, g) && Abs(t) <= Pow2(w + 52)
  {
    hide Pow2, FloorIndex, Grid, Mult, Cexp, Rep;
    var w, g := a + b, cu + cv;
    var gu, gv := Max(a + 27, EMIN), Max(b + 27, EMIN);
    ProductRep(p, u1, v1, gu, gv, Max(g, w + 54), a + 53, b + 53);
    ProductRep(q, u1, v2, gu, cv, Max(g, w + 27), a + 53, b + 26);
    ProductRep(r, u2, v1, cu, gv, Max(g, w + 27), a + 26, b + 53);
    ProductRep(t, u2, v2, cu, cv, g, a + 26, b + 26);
  }

  /** A partial sum of the product, small against the grid it lies on. */
  lemma PartialSum(x: real, y: real, g: int, b: int)
    requires Grid(x, g) && Grid(y, g) && g >= EMIN
    requires Abs(x + y) <= Pow2(b) && b <= g + 53
    ensures RN(x + y) == x + y && Grid(x + y, g)
  {
    hide Pow2, FloorIndex, Mult, Cexp, RN, Rep;
    GridSum(x, y, g);
    Pow2Mono(b, g + 53);
    RepIntro(x + y, g);
    RNExact(x + y);
  }

  lemma DekkerSizes(z: real, rh: real, p: real, q: real, r: real, t: real, w: int)
    requires z == p + q + r + t && Abs(q) <= Pow2(w + 79) && Abs(r) <= Pow2(w + 79)
    requires Abs(t) <= Pow2(w + 52) && Abs(rh - z) <= Pow2(w + 52)
    ensures Abs(p - rh) <= Pow2(w + 81) && Abs(p - rh + q) <= Pow2(w + 80) && Abs(p - rh + q + r) <= Pow2(w + 53)
  {
    hide Pow2;
    Pow2Mono(w + 52, w + 78);
    Pow2Succ(w + 78);
    Pow2Succ(w + 79);
    Pow2Succ(w + 80);
    Pow2Succ(w + 52);
  }

  /** The four additions, given the four products and the rounded result. */
  lemma DekkerSum(z: real, rh: real, p: real, q: real, r: real, t: real, w: int, g: int)
    requires z == p + q + r + t && g >= EMIN && g >= w
    requires Grid(p, Max(g, w + 54)) && Grid(q, Max(g, w + 27)) && Grid(r, Max(g, w + 27)) && Grid(t, g)
    requires Abs(q) <= Pow2(w + 79) && Abs(r) <= Pow2(w + 79) && Abs(t) <= Pow2(w + 52)
    requires Grid(rh, g) && Grid(rh, w + 52) && Abs(rh - z) <= Pow2(w + 52) && Rep(z - rh)
    ensures RN(RN(RN(RN(p - rh) + q) + r) + t) == z - rh
  {
    hide Pow2, FloorIndex, Mult, Grid, Cexp, RN, Rep, Abs;
    var g1, g2 := Max(g, w + 52), Max(g, w + 27);
    GridCoarser(p, Max(g, w + 54), g1);
    GridNeg(rh, g1);
    DekkerSizes(z, rh, p, q, r, t, w);
    assert p + -rh == p - rh;
    PartialSum(p, -rh, g1, w + 81);
    GridCoarser(p - rh, g1, g2);
    PartialSum(p - rh, q, g2, w + 80);
    PartialSum(p - rh + q, r, g2, w + 53);
    RNExact(z - rh);
    assert p - rh + q + r + t == z - rh;
  }

  lemma LowPartIs(rh: real, u1: real, u2: real, v1: real, v2: real,
                  p: real, q: real, r: real, t: real)
    requires p == u1 * v1 && q == u1 * v2 && r == u2 * v1 && t == u2 * v2
    requires Rep(p) && Rep(q) && Rep(r) && Rep(t)
    ensures LowPart(rh, Pair(u1, u2), Pair(v1, v2)) == RN(RN(RN(RN(p - rh) + q) + r) + t)
  {
    hide RN, Rep, FMul;
    FMulIs(u1, v1, p);
    FMulIs(u1, v2, q);
    FMulIs(u2, v1, r);
    FMulIs(u2, v2, t);
    RNExact(p);
    RNExact(q);
    RNExact(r);
    RNExact(t);
  }

  lemma ExpandSplit(u: real, v: real, u1: real, u2: real, v1: real, v2: real, z: real)
    requires u == u1 + u2 && v == v1 + v2 && z == u * v
    ensures z == u1 * v1 + u1 * v2 + u2 * v1 + u2 * v2
  {
    Distribute(u, u1, u2, v);
    Distribute(v, v1, v2, u1);
    Distribute(v, v1, v2, u2);
  }

  lemma Mul12Nonzero(u: real, v: real, z: real)
    requires Rep(u) && Rep(v) && u != 0.0 && v != 0.0 && Cexp(u) + Cexp(v) >= EMIN
    requires z == u * v
    ensures LowPart(RN(z), Split(u), Split(v)) == z - RN(z) && Rep(z - RN(z))
  {
    hide Pow2, FloorIndex, Grid, Mult, Cexp, RN, Rep, Lead, Split, Max, LowPart;
    var u1, u2, v1, v2 := Split(u).h, Split(u).l, Split(v).h, Split(v).l;
    var rh := RN(z);
    SplitExact(u);
    SplitExact(v);
    ExpandSplit(u, v, u1, u2, v1, v2, z);
    var p, q, r, t := PartialProducts(u, v, u1, u2, v1, v2);
    ProductError(u, v, z);
    assert -(rh - z) == z - rh;
    LowPartIs(rh, u1, u2, v1, v2, p, q, r, t);
    DekkerSum(z, rh, p, q, r, t, Lead(u) + Lead(v), Cexp(u) + Cexp(v));
  }

  /** Dekker: rh + rl = u * v and rh = RN(u * v), exactly as with an FMA. */
  lemma Mul12Exact(u: real, v: real, z: real)
    requires Rep(u) && Rep(v) && z == u * v
    requires z == 0.0 || Cexp(u) + Cexp(v) >= EMIN
    ensures Mul12(u, v) == Pair(RN(z), z - RN(z)) == Mul12Fma(u, v)
    ensures Rep(z - RN(z))
  {
    hide Pow2, Cexp, RN, Rep, LowPart, Split, FMul;
    FMulIs(u, v, z);
    RepZero();
    RNExact(0.0);
    if u == 0.0 || v == 0.0 {
      LowPartZero(u, v);
    } else {
      Mul12Nonzero(u, v, z);
      RNExact(z - RN(z));
    }
  }

  lemma LowPartZero(u: real, v: real)
    requires u == 0.0 || v == 0.0
    ensures LowPart(0.0, Split(u), Split(v)) == 0.0
  {
    hide RN, Rep, Split, FMul, Grid;
    RepZero();
    RNExact(0.0);
    SplitZero();
    var a, b := Split(u), Split(v);
    LowPartIs(0.0, a.h, a.l, b.h, b.l, 0.0, 0.0, 0.0, 0.0);
  }

  /** No underflow in the product of two doubles, in terms of values only. */
  lemma NoUnderflow(z: real, u: real, v: real)
    requires Rep(u) && Rep(v) && z == u * v && Abs(z) >= Pow2(EMIN + 105)
    ensures Cexp(u) + Cexp(v) >= EMIN
  {
    hide Pow2, Cexp, Rep, Abs;
    var a, b := Cexp(u) + 53, Cexp(v) + 53;
    Pow2Add(a, b);
    StrictProduct(u, v, Pow2(a), Pow2(b));
    Pow2Less(EMIN + 105, a + b);
  }

  lemma StrictProduct(u: real, v: real, p: real, q: real)
    requires Abs(u) < p && Abs(v) < q
    ensures Abs(u * v) < p * q
  {
    AbsMul(u, v);
    MulLe(Abs(u), p, Abs(v));
    MulLt(Abs(v), q, p);
  }
}
