/**
 Horner chains of MulAdd212, the double-double part of the arcsine quick
 phases: a chain of any length has one and the same relative error bound.
 */
module Horner {
  import opened Dyadic
  import opened Rounding
  import opened ErrorFree
  import opened DoubleDouble

  /** MulAdd212 applied to the coefficients in turn, starting from t. */
  function Chain(cs: seq<Pair>, z: real, t: Pair): Pair {
    if |cs| == 0 then t
    else
      var last := |cs| - 1;
      MulAdd212(cs[last], z, Chain(cs[..last], z, t))
  }

  /** The polynomial the chain approximates, with tail value v. */
  function Poly(cs: seq<Pair>, z: real, v: real): real {
    if |cs| == 0 then v
    else
      var last := |cs| - 1;
      Value(cs[last]) + Times(z, Poly(cs[..last], z, v))
  }

  /** Every step meets the precondition stated with MulAdd212. */
  ghost predicate ChainOk(cs: seq<Pair>, z: real, t: Pair) {
    |cs| == 0 ||
    (var last := |cs| - 1;
     var b := Chain(cs[..last], z, t);
     && ChainOk(cs[..last], z, t)
     && StepOk(cs[last], z, b))
  }

  ghost predicate StepOk(c: Pair, z: real, b: Pair) {
    && IsDD(c) && Abs(c.h) >= Tiny()
    && Clear(Times(z, b.h))
    && Abs(Times(z, Value(b))) <= 0.25 * Abs(Value(c))
  }

  lemma ScaleNear(z: real, t: real, v: real, w: real, y: real)
    requires w == z * t && y == z * v && Near(t, v, 16.0)
    ensures Near(w, y, 16.0)
  {
    var d := t - v;
    Distribute(t, d, v, z);
    AbsMul(z, d);
    AbsMul(z, v);
    EpsTimes2(Abs(d), 16.0 * Abs(v), Abs(z));
    assert w - y == z * d;
    assert Abs(z) * (16.0 * Abs(v)) == 16.0 * (Abs(z) * Abs(v));
  }

  lemma EpsTimes2(d: real, v: real, z: real)
    requires d <= Eps(Eps(v)) && z >= 0.0
    ensures z * d <= Eps(Eps(z * v))
  {
    EpsTimes(d, Eps(v), z);
    var e := Eps(v);
    EpsTimes(e, v, z);
  }

  lemma ChainBudget(c: real, w: real, y: real, n: real)
    requires Abs(w) <= 0.25 * Abs(c) && Near(w, y, 16.0) && Near(n, c + w, 9.0)
    ensures Near(n, c + y, 16.0)
  {
    hide Abs;
    Triangle(y, w - y, w);
    assert Abs(y) <= 0.2501 * Abs(c);
    Triangle(c, y, c + y);
    Triangle(c + y, w - y, c + w);
    Triangle(n - (c + w), w - y, n - (c + y));
  }

  lemma {:induction false} ChainError(cs: seq<Pair>, z: real, t: Pair, v: real)
    requires Rep(z) && IsDD(t) && Near(Value(t), v, 16.0) && ChainOk(cs, z, t)
    ensures IsDD(Chain(cs, z, t))
    ensures Near(Value(Chain(cs, z, t)), Poly(cs, z, v), 16.0)
    ensures |cs| > 0 ==> Normalised(Chain(cs, z, t))
  {
    hide IsDD, Near, MulAdd212, Normalised, Value, StepOk, Rep;
    if |cs| > 0 {
      var last := |cs| - 1;
      ChainError(cs[..last], z, t, v);
      ChainStep(cs[last], z, Chain(cs[..last], z, t), Poly(cs[..last], z, v));
    }
  }

  lemma ChainStep(c: Pair, z: real, b: Pair, v: real)
    requires Rep(z) && IsDD(b) && Near(Value(b), v, 16.0) && StepOk(c, z, b)
    ensures Near(Value(MulAdd212(c, z, b)), Value(c) + Times(z, v), 16.0)
    ensures Normalised(MulAdd212(c, z, b)) && IsDD(MulAdd212(c, z, b))
  {
    hide RN, Rep, Tiny, Abs, Clear, MulAdd212, Eps;
    var p, w, y := Times(z, b.h), Times(z, Value(b)), Times(z, v);
    MulAdd212Error(c, z, b, p, w);
    ScaleNear(z, Value(b), v, w, y);
    ChainBudget(Value(c), w, y, Value(MulAdd212(c, z, b)));
    NormalisedIsDD(MulAdd212(c, z, b));
  }

  // -------------------------------------- a condition on the inputs alone

  /** The value the product of the next step is expected to be close to z times. */
  ghost function Leading(cs: seq<Pair>, t: Pair): real {
    if |cs| == 0 then Value(t) else Value(cs[|cs| - 1])
  }

  /** Each coefficient dominates z times the one before it. */
  ghost predicate CoefficientsOk(cs: seq<Pair>, z: real, t: Pair) {
    |cs| == 0 ||
    (var last := |cs| - 1;
     && CoefficientsOk(cs[..last], z, t)
     && Dominates(cs[last], z, Leading(cs[..last], t)))
  }

  ghost predicate Dominates(c: Pair, z: real, b: real) {
    && IsDD(c) && Abs(c.h) >= Tiny()
    && Abs(Times(z, b)) <= 0.19 * Abs(Value(c))
    && (z == 0.0 || Abs(Times(z, b)) >= 4.0 * Tiny())
  }

  /** b lies within a factor of about 5/4 of v. */
  ghost predicate Comparable(b: real, v: real) {
    0.74 * Abs(v) <= Abs(b) <= 1.26 * Abs(v)
  }

  lemma FactorLe(z: real, b: real, v: real, f: real)
    requires Abs(b) <= f * Abs(v)
    ensures Abs(Times(z, b)) <= f * Abs(Times(z, v))
  {
    hide Abs;
    var zv, zb := z * v, z * b;
    AbsProduct(zv, z, v);
    AbsProduct(zb, z, b);
    AbsNonneg(z);
    FactorLinear(Abs(z), Abs(b), Abs(v), f, Abs(zb), Abs(zv), f * Abs(v));
  }

  lemma FactorLinear(k: real, n: real, m: real, f: real, kn: real, km: real, fm: real)
    requires kn == k * n && km == k * m && fm == f * m && n <= fm && k >= 0.0
    ensures kn <= f * km
  {
    MulLe(n, fm, k);
    Regroup(k, f, m);
    assert k * fm == f * km;
  }

  /** The step precondition, from the size of the previous chain value. */
  lemma StepFromSizes(c: Pair, z: real, b: Pair, v: real)
    requires IsDD(b) && Comparable(Value(b), v) && Dominates(c, z, v)
    ensures StepOk(c, z, b)
  {
    hide Abs, Times, Tiny, Rep;
    FactorLe(z, Value(b), v, 1.26);
    HighComparable(b, v);
    FactorLe(z, v, b.h, 1.5);
    AbsNonneg(Value(c));
    if z == 0.0 { ZeroTimes(b.h); }
  }

  lemma ZeroTimes(x: real)
    ensures Times(0.0, x) == 0.0
  {
  }

  lemma HighComparable(b: Pair, v: real)
    requires IsDD(b) && Comparable(Value(b), v)
    ensures 0.73 * Abs(v) <= Abs(b.h) <= 1.27 * Abs(v)
  {
    hide Abs, Rep;
    Triangle(b.h, b.l, Value(b));
  }

  /** After a step the chain value is comparable to the coefficient just added. */
  lemma StepComparable(c: real, w: real, n: real)
    requires Abs(w) <= 0.25 * Abs(c) && Near(n, c + w, 9.0)
    ensures Comparable(n, c)
  {
    hide Abs;
    Triangle(c, w, c + w);
    Triangle(c + w, n - (c + w), n);
  }

  lemma {:induction false} CoefficientsSuffice(cs: seq<Pair>, z: real, t: Pair)
    requires Rep(z) && IsDD(t) && CoefficientsOk(cs, z, t)
    ensures ChainOk(cs, z, t) && IsDD(Chain(cs, z, t))
    ensures Comparable(Value(Chain(cs, z, t)), Leading(cs, t))
  {
    hide IsDD, Near, MulAdd212, Normalised, Value, StepOk, Rep, Dominates, Comparable;
    if |cs| > 0 {
      var last := |cs| - 1;
      CoefficientsSuffice(cs[..last], z, t);
      CoefficientStep(cs[last], z, Chain(cs[..last], z, t), Leading(cs[..last], t));
    } else {
      ComparableSelf(Value(t));
    }
  }

  lemma ComparableSelf(v: real)
    ensures Comparable(v, v)
  {
  }

  lemma CoefficientStep(c: Pair, z: real, b: Pair, v: real)
    requires Rep(z) && IsDD(b) && Comparable(Value(b), v) && Dominates(c, z, v)
    ensures StepOk(c, z, b) && IsDD(MulAdd212(c, z, b))
    ensures Comparable(Value(MulAdd212(c, z, b)), Value(c))
  {
    hide RN, Rep, Tiny, Abs, Clear, MulAdd212, Eps, Comparable, Dominates;
    StepFromSizes(c, z, b, v);
    var p, w := Times(z, b.h), Times(z, Value(b));
    MulAdd212Error(c, z, b, p, w);
    NormalisedIsDD(MulAdd212(c, z, b));
    StepComparable(Value(c), w, Value(MulAdd212(c, z, b)));
  }

  /**
   A Horner chain of any length, whose coefficients each dominate z times the
   previous one, has a relative error below 2^-99; the constant 16 * 2^-106
   does not depend on the length.
   */
  lemma HornerError(cs: seq<Pair>, z: real, t: Pair, v: real)
    requires Rep(z) && IsDD(t) && Near(Value(t), v, 16.0) && CoefficientsOk(cs, z, t)
    ensures Near(Value(Chain(cs, z, t)), Poly(cs, z, v), 16.0)
    ensures |cs| > 0 ==> Normalised(Chain(cs, z, t))
  {
    hide IsDD, Near, Normalised, Value, Rep;
    CoefficientsSuffice(cs, z, t);
    ChainError(cs, z, t, v);
  }
}
