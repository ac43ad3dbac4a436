/**
 sqrt12 on every positive double: the exponent and mantissa are taken apart
 in the bit pattern, the root of the mantissa is scaled back.
 */
module SquareRoot {
  import opened Dyadic
  import opened Rounding
  import opened ErrorFree
  import opened Product
  import opened DoubleDouble
  import opened BitPattern
  import opened ExpTail
  import opened ExpScaling
  import opened Sqrt12
  import opened InitialRoot

  // -------------------------------------------------- exponent and mantissa

  lemma HighFields(l: Bits64)
    requires l < SIGN
    ensures l / WORD / 0x10_0000 == l / FRAC
    ensures (l / WORD % 0x10_0000 + 0x3ff0_0000) * WORD + l % WORD == 1023 * FRAC + l % FRAC
    ensures l / WORD % 0x10_0000 + 0x3ff0_0000 < WORD
    ensures l / WORD < 0x10_0000 <==> l < FRAC
    ensures FRAC <= l < INFINITE ==> 1 <= l / FRAC <= 2046
  {
    var h, lo := l / WORD, l % WORD;
    var q, r := h / 0x10_0000, h % 0x10_0000;
    assert l == q * FRAC + (r * WORD + lo);
    assert 0 <= r * WORD + lo < FRAC;
    FieldQuotient(l, q, r * WORD + lo);
  }

  lemma FieldQuotient(l: int, q: int, r: int)
    requires l == q * FRAC + r && 0 <= r < FRAC
    ensures l / FRAC == q && l % FRAC == r
  {
  }

  /** A normal pattern is its mantissa in [1, 2) times a power of two. */
  lemma MantissaOf(l: Bits64)
    requires FRAC <= l < INFINITE
    ensures var m := Decode(1023 * FRAC + l % FRAC);
      Decode(l) == Ldexp(m, l / FRAC - 1023) && 1.0 <= m < 2.0 && Rep(m)
  {
    hide Pow2, DecodeMag, Ldexp, Cexp, Rep;
    var e, k := l / FRAC - 1023, 1023 * FRAC + l % FRAC;
    assert Magnitude(l) == l;
    assert k == l - e * FRAC && Magnitude(k) == k;
    assert k / FRAC == 1023;
    MagnitudeScaled(l, -e);
    LdexpLdexp(DecodeMag(l), -e, e);
    LdexpZero(DecodeMag(l));
    DecodeMagRep(k);
    Pow2Zero();
    Pow2Succ(0);
  }

  /** A subnormal becomes normal, without error, when multiplied by 2^52. */
  lemma SubnormalScaled(x: Bits64)
    requires 0 < x < FRAC
    ensures var y := FMul(Decode(x), Pow2(52));
      && y == Ldexp(Decode(x), 52) && Rep(y) && 0.0 <= y < Pow2(1024)
      && FRAC <= Encode(false, y) < INFINITE && Decode(Encode(false, y)) == y
  {
    hide Pow2, FloorIndex, Mult, Cexp, RN, Rep, FMul, Ldexp, DecodeMag, EncodeMag, LastPlace;
    DecodeMagRep(x);
    var v := DecodeMag(x);
    assert LastPlace(x) == EMIN by { SubnormalPlace(x); }
    RepGrid(v, EMIN);
    GridZero(EMIN);
    GridApart(0.0, v, EMIN);
    ExactScale(v, EMIN, 52);
    LdexpOrder(v, Pow2(EMIN), 52);
    LdexpPow2(EMIN, 52);
    LdexpPositive(v, 52);
    Pow2Mono(EMIN + 52 + 53, 1023);
    Pow2Mono(1023, 1024);
    EncodeMagFinite(Ldexp(v, 52));
    EncodeDecode(Ldexp(v, 52));
    SmallMagnitude(EncodeMag(Ldexp(v, 52)));
    EncodeBits(false, Ldexp(v, 52));
  }

  lemma SubnormalPlace(x: nat)
    requires x < FRAC
    ensures LastPlace(x) == EMIN
  {
  }

  lemma HalfMantissa(m: real, x: real, E: int)
    requires Rep(m) && 1.0 <= m < 2.0 && x == Ldexp(m, E)
    ensures FMul(m, 0.5) == m / 2.0 && Rep(m / 2.0) && x == Ldexp(m / 2.0, E + 1)
  {
    hide Pow2, FloorIndex, Mult, Cexp, RN, Rep;
    NormalRange();
    HalveExact(m);
    FMulIs(m, 0.5, m / 2.0);
    FMulIs(0.5, m, m / 2.0);
    Pow2Succ(E);
    var h, p := m / 2.0, Pow2(E);
    Regroup(h, 2.0, p);
  }

  /** The subnormal case: x is made a normal number. */
  method Normalise(x: Bits64) returns (l: Bits64, E: int)
    requires 0 < x < INFINITE
    ensures FRAC <= l < INFINITE && (E == 0 || E == -52) && Decode(x) == Ldexp(Decode(l), E)
    ensures x >= FRAC ==> l == x
  {
    hide Pow2, FloorIndex, Mult, Cexp, RN, Rep, FMul, Ldexp, Decode, Encode, DecodeMag, EncodeMag, Magnitude;
    E := 0;
    var xdb := new DbNumber(x);
    HighFields(x);
    if xdb.Hi() < 0x10_0000 {
      E := -52;
      SubnormalScaled(x);
      xdb.l := Encode(false, FMul(xdb.D(), Pow2(52)));
      LdexpLdexp(Decode(x), 52, -52);
    }
    LdexpZero(Decode(x));
    l := xdb.l;
  }

  /** xdb.i[HI] = (E/2 + 1023) << 20; xdb.i[LO] = 0; */
  method RootPattern(E: int) returns (root: Bits64)
    requires E % 2 == 0 && -1074 <= E <= 1024
    ensures Decode(root) == Pow2(E / 2)
  {
    hide Pow2, Decode;
    TwoPowerPattern(E / 2 + 1023);
    var xdb := new DbNumber(0);
    xdb.SetWords((E / 2 + 1023) * 0x10_0000, 0);
    root := xdb.l;
  }

  /**
   x = m * 2^E with m in [1/2, 2) and E even, for normal and subnormal x; root
   is the pattern of 2^(E/2), whose square scales m back to x.
   */
  method Decompose(x: Bits64) returns (m: real, E: int, root: Bits64)
    requires 0 < x < INFINITE
    ensures Rep(m) && 0.5 <= m < 2.0 && E % 2 == 0 && -1074 <= E <= 1024
    ensures Decode(x) == Ldexp(m, E) && Decode(root) == Pow2(E / 2)
  {
    hide Pow2, FloorIndex, Mult, Cexp, RN, Rep, FMul, Ldexp, Decode, Encode, DecodeMag, EncodeMag, Magnitude;
    var l, E0 := Normalise(x);
    var xdb := new DbNumber(l);
    HighFields(l);
    MantissaOf(l);
    var exponent := xdb.Hi() / 0x10_0000;
    E := E0 + exponent - 1023;
    xdb.SetHi(xdb.Hi() % 0x10_0000 + 0x3ff0_0000);
    m := xdb.D();
    LdexpLdexp(m, exponent - 1023, E0);
    if E % 2 == 1 {
      HalfMantissa(m, Decode(x), E);
      E := E + 1;
      m := FMul(m, 0.5);
    }
    root := RootPattern(E);
  }

  // -------------------------------------------------------- scaling back

  lemma RootRange(m: real, v: real)
    requires 0.5 <= m < 2.0 && RootOf(v, m, 55.1)
    ensures 0.6 <= v <= 1.6
  {
    var vv := v * v;
    assert 0.49 <= vv <= 2.01;
    if v > 1.6 { MulLe(1.6, v, v); }
    if v < 0.6 { MulLe(v, 0.6, v); }
  }

  lemma MantissaSizes(m: real, t: Pair)
    requires 0.5 <= m < 2.0 && IsDD(t) && RootOf(Value(t), m, 55.1)
    ensures Moderate(t)
  {
    hide Rep, RootOf;
    RootRange(m, Value(t));
  }

  ghost predicate Moderate(t: Pair) {
    Rep(t.h) && 0.6 <= Value(t) <= 1.6 && 0.5 <= t.h <= 1.7 && Abs(t.l) <= Eps(1.01 * Value(t))
  }

  /** Both words are scaled by the power of two p, the low one nearly exactly. */
  lemma ScaledBack(t: Pair, k: int, p: real, y: real)
    requires Moderate(t) && -537 <= k <= 512 && p == Pow2(k) && y == p * Value(t)
    ensures Abs(FMul(p, t.h) + FMul(p, t.l) - y) <= Ulp2(1.1) * y
  {
    hide Pow2, FloorIndex, Mult, Cexp, RN, Rep, FMul, Abs, Eps, Ulp2;
    ExactHighScale(t.h, k, p);
    var zl, zh := p * t.l, p * t.h;
    FMulError(p, t.l, zl);
    SmallestRoot(k);
    Distribute(Value(t), t.h, t.l, p);
    ScaledBudget(p, t.l, Value(t), y, zl, FMul(p, t.l), Eta());
    assert FMul(p, t.h) + FMul(p, t.l) - y == FMul(p, t.l) - zl;
  }

  lemma ExactHighScale(h: real, k: int, p: real)
    requires Rep(h) && 0.5 <= h <= 1.7 && -537 <= k && p == Pow2(k)
    ensures FMul(p, h) == p * h
  {
    hide Pow2, FloorIndex, Mult, Cexp, RN, Rep;
    Pow2Zero();
    Pow2Succ(-1);
    CexpGe(h, -53);
    var c := Cexp(h);
    RepGrid(h, c);
    ExactScale(h, c, k);
    FMulIs(p, h, p * h);
    FMulIs(h, p, p * h);
  }

  /** Underflow of the low word is negligible against the root. */
  lemma SmallestRoot(k: int)
    requires k >= -537
    ensures Eta() <= Ulp2(0.001 * Pow2(k))
  {
    hide Pow2;
    UnitRoundoff();
    SmallPowers();
    Pow2Inverse(16);
    Pow2Add(-53, -53);
    Pow2Add(-106, -16);
    Pow2Add(-122, k);
    Pow2Mono(EMIN - 1, k - 122);
  }

  lemma ScaledBudget(p: real, l: real, v: real, y: real, zl: real, fl: real, eta: real)
    requires p > 0.0 && 0.6 <= v && Abs(l) <= Eps(1.01 * v) && y == p * v && zl == p * l
    requires Abs(fl - zl) <= Eps(Abs(zl)) + eta && eta <= Ulp2(0.001 * p)
    ensures Abs(fl - zl) <= Ulp2(1.1) * y
  {
    hide Abs;
    AbsScale(zl, p, l, Eps(1.01 * v));
    assert p * Eps(1.01 * v) == Eps(1.01 * y);
    MulLe(0.6, v, p);
    assert Ulp2(1.1) * y == Ulp2(1.1 * y);
  }

  /** s = p * v * g squared, for x = m * p^2 and v^2 = m * f. */
  lemma SquareOfProduct(x: real, m: real, p: real, v: real, y: real, s: real, f: real, g: real, w: real)
    requires x == m * (p * p) && y == p * v && s == y * g && v * v == m * f && w == f * (g * g)
    ensures s * s == x * w
  {
    var pp, vv, gg := p * p, v * v, g * g;
    Regroup4(y, g, y, g);
    Regroup4(p, v, p, v);
    Regroup(pp, m, f);
    assert pp * vv == x * f;
    Regroup(x, f, gg);
  }

  /** A low word far below the last place of h does not change its rounding. */
  lemma NegligibleLow(h: real, d: real)
    requires Rep(h) && h >= Pow2(-600) && Abs(d) <= Pow2(EMIN + 52)
    ensures RN(h + d) == h
  {
    hide Pow2, FloorIndex, Mult, Cexp, RN, Rep;
    var c := Cexp(h);
    CexpGe(h, -652);
    Pow2Mono(EMIN + 52, c - 3);
    Pow2Succ(c - 3);
    Pow2Succ(c - 2);
    Pow2Succ(c - 1);
    RNNearest(h + d, h);
    RNRep(h + d);
    NearGrid(h, RN(h + d), d, c);
  }

  /** Two doubles closer than half a place of h agree. */
  lemma NearGrid(h: real, g: real, d: real, c: int)
    requires Rep(h) && Rep(g) && c == Cexp(h) && c > EMIN && Abs(g - (h + d)) <= Abs(d) && 8.0 * Abs(d) <= Pow2(c)
    ensures g == h
  {
    hide Pow2, FloorIndex, Mult, Cexp, Rep;
    Pow2Succ(c - 1);
    Pow2Succ(c - 2);
    Pow2Succ(c + 51);
    Pow2Mono(c, c + 51);
    CexpGe(g, c - 1);
    RepGrid(h, c - 1);
    RepGrid(g, c - 1);
    if g < h { GridApart(g, h, c - 1); }
    if g > h { GridApart(h, g, c - 1); }
  }

  /** Both scaled words still form a normalised pair. */
  lemma ScaledNormalised(t: Pair, k: int, p: real)
    requires Moderate(t) && Normalised(t) && -537 <= k <= 512 && p == Pow2(k)
    ensures Normalised(Pair(FMul(p, t.h), FMul(p, t.l)))
  {
    hide Pow2, FloorIndex, Mult, Cexp, RN, Rep, FMul, Abs, Eps;
    ExactHighScale(t.h, k, p);
    var h, l, z := p * t.h, FMul(p, t.l), p * t.l;
    FMulIs(p, t.l, z);
    MachineProducts(p, t.h);
    MachineProducts(p, t.l);
    if l == z {
      var v := t.h + t.l;
      Distribute(v, t.h, t.l, p);
      ScaledHigh(v, k, p, h + l);
    } else {
      ScaledHighSize(t.h, k, p, h);
      InexactIsTiny(t.l, k, p, z);
      NegligibleLow(h, l);
    }
  }

  /** Rounding commutes with the scaling of the high word. */
  lemma ScaledHigh(v: real, k: int, p: real, z: real)
    requires 0.6 <= v <= 1.6 && -537 <= k && p == Pow2(k) && z == p * v
    ensures RN(z) == p * RN(v)
  {
    hide Pow2, FloorIndex, Mult, Cexp, RN, RD, RU, Rep;
    Pow2Zero();
    Pow2Succ(-1);
    Pow2Mono(EMIN + 52, -1);
    var r := RN(v);
    LdexpDef(v, k);
    LdexpDef(r, k);
    assert Ldexp(v, k) == z && Ldexp(r, k) == p * r;
    LdexpOrder(v, Pow2(-1), k);
    LdexpPow2(-1, k);
    Pow2Mono(EMIN + 52, k - 1);
    RoundingsCommute(v, k);
  }

  lemma ScaledHighSize(h: real, k: int, p: real, z: real)
    requires 0.5 <= h && -537 <= k && p == Pow2(k) && z == p * h
    ensures z >= Pow2(-600)
  {
    hide Pow2;
    Pow2Succ(k - 1);
    Pow2Mono(-600, k - 1);
    MulLeAs(0.5 * p, z, 0.5, h, p);
  }

  /** A scaled low word that is not exact has underflowed. */
  lemma InexactIsTiny(l: real, k: int, p: real, z: real)
    requires Rep(l) && p == Pow2(k) && z == p * l && RN(z) != z
    ensures Abs(RN(z)) <= Pow2(EMIN + 52)
  {
    hide Pow2, FloorIndex, Mult, Cexp, RN, Rep;
    var c := Cexp(l);
    RepPow2(EMIN + 52);
    RNMagnitude(z, Pow2(EMIN + 52));
    if Abs(z) > Pow2(EMIN + 52) {
      RepGrid(l, c);
      GridShift(z, l, c, k);
      ShiftedMagnitude(z, l, k, c + 53);
      if c + k < EMIN { Pow2Mono(c + k + 53, EMIN + 52); }
      RepIntro(z, c + k);
      RNExact(z);
    }
  }

  lemma SquareDeviation(th: real, b: real, w: real)
    requires w == (1.0 + th) * ((1.0 + b) * (1.0 + b)) && Abs(th) <= Ulp2(55.1) && Abs(b) <= Ulp2(1.1)
    ensures Abs(w - 1.0) <= Ulp2(58.0)
  {
    var bb := b * b;
    MulBound(b, b, Ulp2(1.1), 0.000001);
    var x := 2.0 * b + bb;
    assert (1.0 + b) * (1.0 + b) == 1.0 + x;
    var tx := th * x;
    MulBound(th, x, Ulp2(55.1), 0.000001);
    Distribute(1.0 + th, 1.0, th, 1.0 + x);
    assert w == 1.0 + x + th + tx;
  }

  /**
   sqrt12: for every positive double, subnormals included, the square of the
   returned pair is within 58 * 2^-106 of x, relatively.
   */
  method Root(x: Bits64) returns (resh: real, resl: real)
    requires Finite(x) && !Negative(x)
    ensures Magnitude(x) == 0 ==> resh == 0.0 && resl == 0.0
    ensures Magnitude(x) > 0 ==> RootOf(resh + resl, Decode(x), 58.0)
    ensures Magnitude(x) > 0 ==> Normalised(Pair(resh, resl))
  {
    hide Pow2, FloorIndex, Mult, Cexp, RN, Rep, FMul, Ldexp, Decode, RootOfMantissa, Value, IsDD, Normalised,
      RootOf, Moderate, Abs, Ulp2;
    if x == 0 {
      return 0.0, 0.0;
    }
    var m, E, root := Decompose(x);
    var xdb := new DbNumber(root);
    var srtm := RootOfMantissa(m);
    RootOfMantissaError(m);
    MantissaSizes(m, srtm);
    var p := xdb.D();
    ScaledBack(srtm, E / 2, p, p * Value(srtm));
    ScaledNormalised(srtm, E / 2, p);
    Pow2Add(E / 2, E / 2);
    LdexpDef(m, E);
    resh := FMul(p, srtm.h);
    resl := FMul(p, srtm.l);
    ghost var v, y, s := Value(srtm), p * Value(srtm), resh + resl;
    RootIs(v, m, 55.1);
    MulLt(0.0, v, p);
    AbsOf(y);
    AbsOf(0.0);
    ScalingUlpSmall();
    ghost var b := Deviation(s, y, 1.0, Ulp2(1.1), y);
    StaysPositive(s, y, 0.0, b);
    ghost var th := Deviation(v * v, m, 1.0, Ulp2(55.1), m);
    ghost var f, g := 1.0 + th, 1.0 + b;
    ghost var w := f * (g * g);
    SquareDeviation(th, b, w);
    SquareOfProduct(Decode(x), m, p, v, y, s, f, g, w);
    CloseFactor(Decode(x), w, s, 58.0);
  }

  lemma RootIs(s: real, x: real, k: real)
    ensures RootOf(s, x, k) <==> s > 0.0 && Abs(s * s - x) <= Ulp2(k) * x
  {
  }

  lemma ScalingUlpSmall()
    ensures 0.0 < Ulp2(1.1) <= 0.1
  {
  }

  lemma LdexpDef(m: real, E: int)
    ensures Ldexp(m, E) == m * Pow2(E)
  {
  }

  /** The same bound against the real square root s of x: below 2^-100. */
  lemma RelativeToRoot(x: real, s: real, y: real)
    requires s > 0.0 && s * s == x && RootOf(y, x, 58.0)
    ensures Abs(y - s) <= Ulp2(58.0) * s
  {
    hide Abs;
    var d, t := y - s, y + s;
    var k, a, z := Ulp2(58.0), Abs(d), y * y - x;
    AbsMul(d, t);
    AbsOf(t);
    assert z == d * t;
    var b := k * s;
    if a > b {
      MulLt(b, a, t);
      MulLe(s, t, b);
      Regroup(k, s, s);
    }
  }
}
