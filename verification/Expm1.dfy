/**
 The direct interval of expm1: the argument is divided by a power of two in
 its exponent field, and the result is rebuilt by up to three doublings
 p -> (p + 2) * p.
 */
module Expm1 {
  import opened Dyadic
  import opened Rounding
  import opened ErrorFree
  import opened Product
  import opened DoubleDouble
  import opened BitPattern
  import opened DirectedTests
  import opened ExpTail
  import opened ExpScaling
  import opened ZivTest

  // ------------------------------------------------------ the exact doublings

  function Doubling(p: real): real {
    (p + 2.0) * p
  }

  function Doublings(p: real, n: nat): real {
    if n == 0 then p else Doubling(Doublings(p, n - 1))
  }

  /** b^k */
  function Power(b: real, k: nat): real {
    if k == 0 then 1.0 else b * Power(b, k - 1)
  }

  lemma {:induction false} PowerSum(b: real, j: nat, k: nat)
    ensures Power(b, j + k) == Power(b, j) * Power(b, k)
  {
    if j > 0 {
      PowerSum(b, j - 1, k);
      Regroup(b, Power(b, j - 1), Power(b, k));
    }
  }

  /** One doubling squares 1 + p. */
  lemma DoublingSquares(p: real, s: real)
    requires s == 1.0 + p
    ensures 1.0 + Doubling(p) == s * s
  {
  }

  /** n doublings of p give (1 + p)^(2^n) - 1, for every n. */
  lemma {:induction false} DoublingsArePowers(p: real, n: nat)
    ensures Doublings(p, n) == Power(1.0 + p, IPow2(n)) - 1.0
  {
    if n == 0 {
      assert Power(1.0 + p, 1) == (1.0 + p) * Power(1.0 + p, 0);
    } else {
      DoublingsArePowers(p, n - 1);
      var k := IPow2(n - 1);
      PowerSum(1.0 + p, k, k);
      DoublingSquares(Doublings(p, n - 1), Power(1.0 + p, k));
    }
  }

  /** So the doublings rebuild E(x) - 1 from E(x / 2^n) - 1 for any function E
      that satisfies E(2t) = E(t)^2, the exponential among them. */
  lemma {:induction false} RebuildsExponential(E: real -> real, x: real, n: nat)
    requires forall t :: E(2.0 * t) == E(t) * E(t)
    ensures Doublings(E(Ldexp(x, 0 - n)) - 1.0, n) == E(x) - 1.0
    decreases n
  {
    hide Pow2, Ldexp, Doubling;
    if n == 0 {
      LdexpZero(x);
    } else {
      var half := Ldexp(x, -1);
      HalfTwice(x);
      RebuildsExponential(E, half, n - 1);
      LdexpLdexp(x, -1, 1 - n);
      var e := E(half);
      assert E(2.0 * half) == E(half) * E(half);
      DoublingSquares(e - 1.0, e);
    }
  }

  lemma HalfTwice(x: real)
    ensures 2.0 * Ldexp(x, -1) == x
  {
    hide Pow2;
    Pow2Zero();
    Pow2Succ(-1);
    assert Pow2(-1) == 0.5;
  }

  // ------------------------------------------------ the reduced argument

  /** DIRECTINTERVALBOUND and RETURNXBOUND, high words of 1/4 and 2^-54. */
  const DIRECT_BOUND: nat := 0x3fd0_0000
  const RETURN_X_BOUND: nat := 0x3c90_0000

  /** The high word without its sign. */
  function AbsHi(x: Bits64): nat {
    Magnitude(x) / WORD
  }

  predicate Direct(x: Bits64) {
    RETURN_X_BOUND <= AbsHi(x) < DIRECT_BOUND
  }

  /** The direct interval is 2^-54 <= |x| < 1/4, on the patterns and the values. */
  lemma DirectFields(x: Bits64)
    requires Direct(x)
    ensures 969 <= Field(x) <= 1020 && Normal(x) && AbsHi(x) / 0x10_0000 == Field(x)
  {
    var m := Magnitude(x);
    assert m == AbsHi(x) * WORD + m % WORD;
  }

  /** On the values: no pattern outside 2^-54 <= |x| < 1/4 is direct, and all inside are. */
  lemma DirectIsRange(x: Bits64)
    ensures Direct(x) <==> Pow2(-54) <= Abs(Decode(x)) < Pow2(-2)
  {
    hide Pow2, DecodeMag;
    var m, lo, hi := Magnitude(x), 969 * FRAC, 1021 * FRAC;
    MagnitudeAbs(x);
    PowerPattern(969);
    PowerPattern(1021);
    assert Direct(x) <==> lo <= m < hi;
    if m < lo { DecodeMono(m, lo); }
    if lo < m { DecodeMono(lo, m); }
    if m < hi { DecodeMono(m, hi); }
    if hi < m { DecodeMono(hi, m); }
  }

  lemma PowerPattern(n: nat)
    requires 1 <= n
    ensures DecodeMag(n * FRAC) == Pow2(n - 1023)
  {
    hide Pow2;
    Powers();
    Pow2Add(52, EMIN - 1 + n);
    assert n * FRAC % FRAC == 0 && n * FRAC / FRAC == n;
  }

  lemma FieldMagnitude(x: Bits64)
    requires Normal(x)
    ensures Pow2(Field(x) - 1023) <= Abs(Decode(x)) < Pow2(Field(x) - 1022)
  {
    hide Pow2, DecodeMag, Cexp;
    DecodeMagRep(Magnitude(x));
  }

  /** The number of doublings that undo the reduction. */
  function Steps(expoX: int): nat {
    if expoX >= 0 then expoX + 1 else 0
  }

  /**
   The reduction: x is divided by exactly 2^(expoX+1), the quotient lies below
   1/32, and three doublings always suffice.
   */
  method ReduceDirect(x: Bits64) returns (y: Bits64, expoX: int)
    requires Direct(x)
    ensures expoX <= 2 && Abs(Decode(y)) < Pow2(-5) && Finite(y)
    ensures Decode(x) == Ldexp(Decode(y), Steps(expoX))
    ensures expoX >= 0 ==> Abs(Decode(y)) >= Pow2(-6)
  {
    hide Pow2, Decode, Ldexp, Normal, Field, AbsHi, Direct, ScaledBits, Finite;
    DirectFields(x);
    FieldMagnitude(x);
    var xdb := new DbNumber(x);
    var xIntHi: int := AbsHi(x);
    expoX := xIntHi / 0x10_0000 - (1023 - 5);
    if expoX >= 0 {
      Reduced(x, expoX);
      AddToHigh(x, -expoX - 1);
      xdb.SetHi((xdb.Hi() + (-expoX - 1) * 0x10_0000) % WORD);
    } else {
      Pow2Mono(Field(x) - 1022, -5);
      LdexpZero(Decode(x));
      NormalFinite(x);
    }
    y := xdb.l;
  }

  lemma NormalFinite(x: Bits64)
    requires Normal(x)
    ensures Finite(x)
  {
  }

  lemma AddToHigh(x: Bits64, M: int)
    ensures (x / WORD + M * 0x10_0000) % WORD * WORD + x % WORD == ScaledBits(x, M)
  {
  }

  lemma Reduced(x: Bits64, expoX: int)
    requires Normal(x) && expoX == Field(x) - 1018 && 0 <= expoX <= 2
    requires Pow2(Field(x) - 1023) <= Abs(Decode(x)) < Pow2(Field(x) - 1022)
    ensures var y := ScaledBits(x, -expoX - 1);
      && Finite(y) && Pow2(-6) <= Abs(Decode(y)) < Pow2(-5)
      && Decode(x) == Ldexp(Decode(y), expoX + 1)
  {
    hide Pow2, Decode, Ldexp, Normal, Field, ScaledBits, Finite;
    var n: int := expoX + 1;
    RangeOf(x, n);
    ScalingExact(x, -n);
    var v := Decode(x);
    LdexpLdexp(v, -n, n);
    LdexpZero(v);
    LdexpAbs(v, -n);
    LdexpOrder(Abs(v), Pow2(Field(x) - 1023), -n);
    LdexpOrder(Abs(v), Pow2(Field(x) - 1022), -n);
    LdexpPow2(Field(x) - 1023, -n);
    LdexpPow2(Field(x) - 1022, -n);
  }

  lemma RangeOf(x: Bits64, n: nat)
    requires Normal(x) && n < Field(x) <= 2046
    ensures InRange(x, 0 - n)
  {
  }

  // --------------------------------------------- the doublings on pairs

  /** One reconstruction step: Add12 with 2, an addition, Mul22. */
  function Step(p: Pair): Pair {
    var s := Add12(2.0, p.h);
    Mul22(Pair(s.h, RN(s.l + p.l)), p)
  }

  /** Mul22 when the low part of the first factor is up to 1.2 * 2^-53 of the
      high part, as after the unnormalised addition of 2. */
  lemma Mul22Loose(x: Pair, y: Pair, z: real)
    requires Rep(x.h) && Rep(x.l) && Abs(x.l) <= Eps(1.2 * Abs(x.h)) && IsDD(y) && Abs(x.h * y.h) >= Tiny()
    requires z == Value(x) * Value(y)
    ensures Near(Value(Mul22(x, y)), z, 9.0) && Normalised(Mul22(x, y))
  {
    hide RN, Rep, Tiny, Eta, Abs, Closed, Mul22;
    var a, b, c, d := x.h * y.h, x.h * y.l, x.l * y.h, x.l * y.l;
    EtaSmall();
    Expand(x.h, x.l, y.h, y.l, z);
    CrossTerm(b, x.h, y.l, y.h, a);
    LooseTerm(c, y.h, x.l, x.h, a);
    CrossTerm(d, x.l, y.l, y.h, c);
    var mh, ml0, b1, c1, t, ml := Mul22Trace(x, y, a, b, c);
    Mul22Budget(a, mh, ml0, b, b1, c, c1, d, t, ml, Abs(a), Eta());
    Triangle(mh, ml0, a);
    Closing(mh, ml);
    assert Value(Mul22(x, y)) == mh + ml;
    assert z == a + b + c + d;
  }

  lemma LooseTerm(z: real, x: real, y: real, h: real, a: real)
    requires z == x * y && a == x * h && Abs(y) <= Eps(1.2 * Abs(h))
    ensures Abs(z) <= Eps(1.2 * Abs(a))
  {
    AbsMul(x, h);
    AbsMul(x, y);
    var b, k := 1.2 * Abs(h), Abs(x);
    EpsTimes(Abs(y), b, k);
    assert k * b == 1.2 * (k * Abs(h));
  }

  /** The addition of 2 to a pair. */
  lemma AddTwo(p: Pair) returns (r: Pair)
    requires IsDD(p) && Abs(Value(p)) <= 0.31
    ensures Step(p) == Mul22(r, p) && Rep(r.h) && Rep(r.l)
    ensures Abs(Value(r) - (2.0 + Value(p))) <= Eps(Eps(2.7))
    ensures Abs(r.l) <= Eps(1.2 * Abs(r.h)) && 1.68 <= r.h <= 2.32
  {
    hide Pow2, FloorIndex, Mult, Cexp, RN, Rep, Add12, Mul22, Eps;
    TwoRep();
    HighSmall(p);
    hide Abs;
    TwoLarger(p.h);
    Add12Exact(2.0, p.h);
    Add12High(2.0, p.h);
    Add12Normalised(2.0, p.h);
    var s := Add12(2.0, p.h);
    r := Pair(s.h, RN(s.l + p.l));
    RNSum(s.l, p.l);
    RNRep(s.l + p.l);
    AddTwoBudget(p.h, p.l, s.h, s.l, r.l);
  }

  lemma TwoLarger(h: real)
    requires Abs(h) <= 0.3101
    ensures Abs(h) <= Abs(2.0)
  {
  }

  lemma TwoRep()
    ensures Rep(2.0)
  {
    hide Pow2, FloorIndex, Mult, Cexp, Rep;
    Pow2Zero();
    Pow2Succ(0);
    RepPow2(1);
  }

  lemma HighSmall(p: Pair)
    requires IsDD(p) && Abs(Value(p)) <= 0.31
    ensures Abs(p.h) <= 0.3101 && Abs(p.l) <= Eps(0.3101)
  {
    hide Rep;
  }

  lemma AddTwoBudget(ph: real, pl: real, sh: real, sl: real, rl: real)
    requires Abs(ph) <= 0.3101 && Abs(pl) <= Eps(0.3101) && sh + sl == 2.0 + ph && Abs(sl) <= Eps(Abs(2.0 + ph))
    requires Abs(rl - (sl + pl)) <= Eps(Abs(sl + pl))
    ensures Abs(sh + rl - (2.0 + ph + pl)) <= Eps(Eps(2.7))
    ensures Abs(rl) <= Eps(1.2 * Abs(sh)) && 1.68 <= sh <= 2.32
  {
  }

  /** The exact difference between the product of the pairs and (v + 2) v. */
  lemma Factor(r: real, V: real, v: real, s: real, z: real, exact: real, ds: real, eV: real)
    requires z == r * V && exact == (v + 2.0) * v && s == 2.0 + V + v
    requires ds == s * (V - v) && eV == V * (r - (2.0 + V))
    ensures z - exact == ds + eV
  {
  }

  lemma Sizes(V: real, v: real, a: real, ka: real)
    requires a == Abs(v) && a <= 0.3 && Abs(V - v) <= Eps(Eps(ka)) && ka <= 35184372088832.0 * a
    ensures Abs(V) <= 1.001 * a && Abs(V) <= 0.301 && 1.39 <= 2.0 + V + v <= 1.19 * (v + 2.0) && 1.7 <= v + 2.0
  {
  }

  /** The two parts of the deviation, relative to wa = |exact|. */
  lemma Deviations(V: real, v: real, e: real, a: real, k: real, ka: real, s: real, w: real, ds: real, eV: real,
                   wa: real, kw: real)
    requires 0.0 <= k && a >= 0.0 && ka == k * a && wa == w * a && kw == k * wa
    requires Abs(V - v) <= Eps(Eps(ka)) && Abs(e) <= Eps(Eps(2.7)) && Abs(V) <= 1.001 * a
    requires 0.0 <= s <= 1.19 * w && ds == s * (V - v) && eV == V * e
    ensures Abs(ds) <= Eps(Eps(1.19 * kw)) && Abs(eV) <= Eps(Eps(2.7027 * a))
  {
    hide Abs;
    var d, f := V - v, Eps(Eps(ka));
    var ska, wka := s * ka, w * ka;
    AbsScale(ds, s, d, f);
    assert s * f == Eps(Eps(ska));
    MulLeAs(0.0, ka, 0.0, k, a);
    MulLeAs(ska, 1.19 * wka, s, 1.19 * w, ka);
    Regroup(w, k, a);
    assert wka == kw;
    MulBound(V, e, 1.001 * a, Eps(Eps(2.7)));
    assert (1.001 * a) * Eps(Eps(2.7)) == Eps(Eps(2.7027 * a));
  }

  lemma StepLinear(t: real, z: real, exact: real, kw: real, wa: real, a: real)
    requires Abs(t - z) <= Eps(Eps(9.0 * Abs(z))) && Abs(exact) == wa
    requires a >= 0.0 && 1.7 * a <= wa && 0.0 <= kw <= 35184372088832.0 * wa
    requires Abs(z - exact) <= Eps(Eps(1.19 * kw + 2.7027 * a))
    ensures Abs(t - exact) <= Eps(Eps(1.2 * kw + 12.0 * wa))
  {
    hide Abs;
    Triangle(exact, z - exact, z);
    Triangle(t - z, z - exact, t - exact);
  }

  lemma NearFrom(t: real, exact: real, k: real, wa: real, kw: real)
    requires Abs(exact) == wa && kw == k * wa && Abs(t - exact) <= Eps(Eps(1.2 * kw + 12.0 * wa))
    ensures Near(t, exact, 1.2 * k + 12.0)
  {
    var m, x := 1.2 * k + 12.0, Abs(exact);
    Distribute(m, 1.2 * k, 12.0, x);
    assert m * x == 1.2 * (k * x) + 12.0 * x;
  }

  lemma ProductClear(r: real, ph: real)
    requires 1.68 <= r && Abs(ph) >= Tiny()
    ensures Abs(r * ph) >= Tiny()
  {
    hide Tiny;
    AbsMul(r, ph);
    MulLe(1.68, r, Abs(ph));
  }

  lemma HighLarge(p: Pair)
    requires IsDD(p)
    ensures Abs(p.h) >= 0.99 * Abs(Value(p))
  {
    hide Rep;
  }

  lemma SizesLinear(V: real, v: real, a: real, ka: real)
    requires a == Abs(v) && a <= 0.3 && Abs(V - v) <= Eps(Eps(ka)) && ka <= 35184372088832.0 * a
    ensures 0.99 * a <= Abs(V) <= 0.31
  {
  }

  lemma NearSizes(V: real, v: real, k: real)
    requires Near(V, v, k) && 0.0 <= k <= 35184372088832.0 && Abs(v) <= 0.3
    ensures 0.99 * Abs(v) <= Abs(V) <= 0.31
  {
    var a := Abs(v);
    hide Abs;
    AbsNonneg(v);
    MulLe(k, 35184372088832.0, a);
    SizesLinear(V, v, a, k * a);
  }

  lemma DoublingProduct(v: real, w: real, b: real, d: real)
    requires w == v + 2.0 && b == 2.0 + Abs(v) && Abs(v) <= 0.3 && d == w * v
    ensures 1.7 * Abs(v) <= Abs(d) <= b * Abs(v)
  {
    assert 1.7 <= w <= b;
    hide Abs;
    AbsTimes(d, w, v);
    AbsNonneg(v);
    var c, a := w - 1.7, Abs(v);
    MulLe(0.0, c, a);
    Distribute(w, c, 1.7, a);
    assert Abs(d) == w * a;
    assert c * a >= 0.0;
    assert w * a == c * a + 1.7 * a;
    MulLe(w, b, a);
  }

  lemma DoublingRange(v: real)
    requires Abs(v) <= 0.3
    ensures 1.7 * Abs(v) <= Abs(Doubling(v)) <= (2.0 + Abs(v)) * Abs(v)
  {
    hide Abs;
    DoublingProduct(v, v + 2.0, 2.0 + Abs(v), Doubling(v));
  }

  lemma NearBound(V: real, v: real, k: real, a: real, ka: real)
    requires Near(V, v, k) && a == Abs(v) && ka == k * a
    ensures Abs(V - v) <= Eps(Eps(ka)) && a >= 0.0
  {
    hide Near;
    NearIs(V, v, k, ka);
  }

  /** The products behind a relative error of k units. */
  lemma UnitsOf(k: real, x: real, kx: real)
    requires 0.0 <= k <= 35184372088832.0 && x >= 0.0 && kx == k * x
    ensures 0.0 <= kx <= 35184372088832.0 * x
  {
    MulLeAs(kx, 35184372088832.0 * x, k, 35184372088832.0, x);
    MulLeAs(0.0, kx, 0.0, k, x);
  }

  /** The product z of the pairs against the exact doubling of v. */
  lemma ProductDeviation(V: real, v: real, k: real, r: real, z: real, exact: real, a: real, wa: real, kw: real)
    requires Near(V, v, k) && 0.0 <= k <= 35184372088832.0 && a == Abs(v) && a <= 0.3
    requires Abs(r - (2.0 + V)) <= Eps(Eps(2.7)) && z == r * V && exact == (v + 2.0) * v
    requires wa == Abs(exact) && kw == k * wa
    ensures Abs(z - exact) <= Eps(Eps(1.19 * kw + 2.7027 * a))
    ensures 1.7 * a <= wa && 0.0 <= kw <= 35184372088832.0 * wa
  {
    hide Abs, Near;
    var w, sum, e := v + 2.0, 2.0 + V + v, r - (2.0 + V);
    var ka := k * a;
    NearBound(V, v, k, a, ka);
    UnitsOf(k, a, ka);
    Sizes(V, v, a, ka);
    AbsTimesAs(wa, exact, w, v, a);
    MulLeAs(1.7 * a, wa, 1.7, w, a);
    UnitsOf(k, wa, kw);
    var ds, eV := sum * (V - v), V * e;
    Factor(r, V, v, sum, z, exact, ds, eV);
    Deviations(V, v, e, a, k, ka, sum, w, ds, eV, wa, kw);
    Triangle(ds, eV, z - exact);
  }

  lemma ProductNear(t: real, z: real, exact: real, k: real, kw: real, wa: real, a: real)
    requires Near(t, z, 9.0) && wa == Abs(exact) && kw == k * wa
    requires a >= 0.0 && 1.7 * a <= wa && 0.0 <= kw <= 35184372088832.0 * wa
    requires Abs(z - exact) <= Eps(Eps(1.19 * kw + 2.7027 * a))
    ensures Near(t, exact, 1.2 * k + 12.0)
  {
    hide Abs, Near;
    NearIs(t, z, 9.0, 9.0 * Abs(z));
    StepLinear(t, z, exact, kw, wa, a);
    NearFrom(t, exact, k, wa, kw);
  }

  /** One machine step: the relative error grows from k to 1.2 k + 12 units of
      2^-106 and the result is normalised. */
  lemma StepError(p: Pair, v: real, k: real)
    requires IsDD(p) && Near(Value(p), v, k) && 0.0 <= k <= 35184372088832.0
    requires 2.0 * Tiny() <= Abs(v) <= 0.3
    ensures Near(Value(Step(p)), Doubling(v), 1.2 * k + 12.0)
    ensures Normalised(Step(p)) && IsDD(Step(p))
  {
    hide RN, Rep, Tiny, Abs, Eps, Step, Mul22, Near, Value, IsDD, Normalised;
    NearSizes(Value(p), v, k);
    var r := AddTwo(p);
    HighLarge(p);
    var z := Value(r) * Value(p);
    LooseProduct(r, p, z);
    NormalisedIsDD(Step(p));
    var exact, a := Doubling(v), Abs(v);
    var wa := Abs(exact);
    var kw := k * wa;
    AbsNonneg(v);
    ProductDeviation(Value(p), v, k, Value(r), z, exact, a, wa, kw);
    ProductNear(Value(Step(p)), z, exact, k, kw, wa, a);
  }

  lemma LooseProduct(r: Pair, p: Pair, z: real)
    requires Rep(r.h) && Rep(r.l) && Abs(r.l) <= Eps(1.2 * Abs(r.h)) && IsDD(p)
    requires 1.68 <= r.h && Abs(p.h) >= Tiny() && z == Value(r) * Value(p)
    ensures Near(Value(Mul22(r, p)), z, 9.0) && Normalised(Mul22(r, p))
  {
    hide RN, Rep, Tiny, IsDD, Normalised, Mul22, Near, Value;
    ProductClear(r.h, p.h);
    Mul22Loose(r, p, z);
  }

  /**
   The nested reconstruction: for every value v the pair stands for, with an
   error of k units of 2^-106, the result stands for the doublings of v with an
   error of at most 1.73 k + 44 units. It is normalised if the pair is.
   */
  method Reconstruct(p: Pair, expoX: int, ghost v: real, ghost k: real) returns (res: Pair)
    requires expoX <= 2 && IsDD(p) && Near(Value(p), v, k) && 0.0 <= k <= 8796093022208.0
    requires 2.0 * Tiny() <= Abs(v) <= 0.0323
    ensures IsDD(res) && Near(Value(res), Doublings(v, Steps(expoX)), 1.73 * k + 44.0)
    ensures (Normalised(p) ==> Normalised(res)) && Abs(v) <= Abs(Doublings(v, Steps(expoX)))
  {
    hide RN, Rep, Tiny, Abs, Step, Near, Value, IsDD, Normalised, Doubling;
    if expoX >= 0 {
      DoublingRange(v);
      StepError(p, v, k);
      var rr1 := Step(p);
      ghost var v1, k1 := Doubling(v), 1.2 * k + 12.0;
      FirstSize(v);
      assert Doublings(v, 1) == v1;
      if expoX >= 1 {
        DoublingRange(v1);
        StepError(rr1, v1, k1);
        var rr2 := Step(rr1);
        ghost var v2, k2 := Doubling(v1), 1.2 * k1 + 12.0;
        FirstSize(v1);
        assert Doublings(v, 2) == v2;
        if expoX >= 2 {
          DoublingRange(v2);
          DoublingGrows(v2);
          StepError(rr2, v2, k2);
          var rr3 := Step(rr2);
          assert Doublings(v, 3) == Doubling(v2);
          NearWeaken(Value(rr3), Doubling(v2), 1.2 * k2 + 12.0, 1.73 * k + 44.0);
          return rr3;
        } else {
          NearWeaken(Value(rr2), v2, k2, 1.73 * k + 44.0);
          return rr2;
        }
      } else {
        NearWeaken(Value(rr1), v1, k1, 1.73 * k + 44.0);
        return rr1;
      }
    } else {
      NearWeaken(Value(p), v, k, 1.73 * k + 44.0);
      return p;
    }
  }

  lemma SquareSize(a: real, b: real)
    requires 0.0 <= a && b == (2.0 + a) * a
    ensures a <= 0.0323 ==> b <= 0.0657
    ensures a <= 0.07 ==> b <= 0.145
  {
    var c := 2.0 + a;
    if a <= 0.0323 { MulLe(c, 2.0323, a); }
    if a <= 0.07 { MulLe(c, 2.07, a); }
  }

  /** The sizes of the doublings of a value below 1/31. */
  lemma FirstSize(v: real)
    requires Abs(v) <= 0.07
    ensures Abs(v) <= 0.0323 ==> Abs(Doubling(v)) <= 0.0657
    ensures Abs(v) <= Abs(Doubling(v)) <= 0.145
  {
    hide Abs, Doubling;
    DoublingRange(v);
    AbsNonneg(v);
    SquareSize(Abs(v), (2.0 + Abs(v)) * Abs(v));
  }

  lemma DoublingGrows(v: real)
    requires Abs(v) <= 0.3
    ensures Abs(v) <= Abs(Doubling(v))
  {
    hide Abs, Doubling;
    DoublingRange(v);
    AbsNonneg(v);
  }

  /** Any polynomial scheme for E(t) - 1 on |t| < 1/32, with an error of k units. */
  ghost predicate Approximates1(poly: real -> Pair, E: real -> real, k: real) {
    forall t {:trigger poly(t)} :: Rep(t) && Pow2(-54) <= Abs(t) < Pow2(-5) ==>
      && Normalised(poly(t)) && Near(Value(poly(t)), E(t) - 1.0, k)
      && 2.0 * Tiny() <= Abs(E(t) - 1.0) <= 0.0323
  }

  /**
   The direct path as a whole: reduction in the exponent field, polynomial,
   reconstruction. For every function E with E(2t) = E(t)^2 the result stands
   for E(x) - 1 on the whole interval.
   */
  method DirectPath(x: Bits64, poly: real -> Pair, ghost E: real -> real, ghost k: real) returns (res: Pair)
    requires Direct(x) && 0.0 <= k <= 8796093022208.0
    requires Approximates1(poly, E, k) && forall t :: E(2.0 * t) == E(t) * E(t)
    ensures Normalised(res) && Near(Value(res), E(Decode(x)) - 1.0, 1.73 * k + 44.0)
    ensures 2.0 * Tiny() <= Abs(E(Decode(x)) - 1.0)
  {
    hide Pow2, RN, Rep, Tiny, Abs, Near, Value, IsDD, Normalised, Decode, Ldexp, Doublings, Steps, Field, Normal, Finite, Direct;
    DirectFields(x);
    FieldMagnitude(x);
    Pow2Mono(-54, Field(x) - 1023);
    Pow2Mono(-54, -6);
    var y, expoX := ReduceDirect(x);
    ghost var t := Decode(y);
    DecodeRep(y);
    StepsNone(expoX, t);
    NormalisedIsDD(poly(t));
    res := Reconstruct(poly(Decode(y)), expoX, E(t) - 1.0, k);
    LdexpLdexp(t, Steps(expoX), 0 - Steps(expoX));
    LdexpZero(t);
    RebuildsExponential(E, Decode(x), Steps(expoX));
  }

  lemma StepsNone(expoX: int, t: real)
    ensures expoX < 0 ==> Ldexp(t, Steps(expoX)) == t
  {
    hide Pow2;
    LdexpZero(t);
  }

  // ------------------------------------------- the quick exit of expm1_rn

  /** ROUNDCSTDIRECTRN as a double. */
  const ROUND_DIRECT: real := RN(1.00392156862745109185069459291432461909707184007331)

  /** An error relative to the true value, as an error relative to the words. */
  lemma RelativeToWords(V: real, y: real, k: real)
    requires Near(V, y, k) && 0.0 <= k <= 17000000000000.0
    ensures Abs(y - V) <= Times(1.0 / 4611686018427387904.0, Abs(V)) && Abs(V) >= 0.99 * Abs(y)
  {
    hide Abs, Near, Times;
    var ky := k * Abs(y);
    NearIs(V, y, k, ky);
    AbsNonneg(y);
    MulLe(k, 17000000000000.0, Abs(y));
    WordsLinear(V, y, ky);
  }

  lemma WordsLinear(V: real, y: real, ky: real)
    requires Abs(V - y) <= Eps(Eps(ky)) && ky <= 17000000000000.0 * Abs(y)
    ensures Abs(y - V) <= Times(1.0 / 4611686018427387904.0, Abs(V)) && Abs(V) >= 0.99 * Abs(y)
  {
  }

  /** The high word is large enough for the rounding test. */
  lemma HighClear(p: Pair, y: real)
    requires IsDD(p) && Abs(Value(p)) >= 0.99 * Abs(y) && 2.0 * Tiny() <= Abs(y)
    ensures Abs(p.h) >= Pow2(EMIN + 106)
  {
    hide Pow2, Rep, Abs, Value;
    HighLarge(p);
    Pow2Mono(EMIN + 106, EMIN + 114);
  }

  /**
   expm1_rn on the direct interval, from the argument to the rounding test:
   whenever the quick phase returns, it returns the correctly rounded E(x) - 1,
   for every function E with E(2t) = E(t)^2 that the polynomial approximates
   with an error of at most 2^43 units, which is 2^-63.
   */
  method DirectQuick(x: Bits64, poly: real -> Pair, ghost E: real -> real, ghost k: real)
      returns (done: bool, res: Pair)
    requires Direct(x) && 0.0 <= k <= 8796093022208.0
    requires Approximates1(poly, E, k) && forall t :: E(2.0 * t) == E(t) * E(t)
    ensures done == Passes(res.h, res.l, ROUND_DIRECT)
    ensures done ==> res.h == RN(E(Decode(x)) - 1.0)
    ensures Near(Value(res), E(Decode(x)) - 1.0, 1.73 * k + 44.0)
  {
    hide Pow2, RN, Rep, Tiny, Abs, Near, FMul, IsDD, Decode, Direct, Passes, Absorbs, ROUND_DIRECT, Times, Approximates1;
    res := DirectPath(x, poly, E, k);
    done := Passes(res.h, res.l, ROUND_DIRECT);
    ghost var y := E(Decode(x)) - 1.0;
    RelativeToWords(Value(res), y, 1.73 * k + 44.0);
    NormalisedIsDD(res);
    HighClear(res, y);
    DirectConstant();
    if done {
      ZivSound(res.h, res.l, ROUND_DIRECT, 1.0 / 4611686018427387904.0, y);
    }
  }

  lemma DirectConstant()
    ensures Absorbs(ROUND_DIRECT, 1.0 / 4611686018427387904.0)
  {
    hide Absorbs, RN;
    Expm1Constant();
  }
}
