/**
 The rounding tests on double-extended results, which look at the bits of the
 64-bit significand beyond the 53 that a double keeps.
 */
module MaskTests {
  import opened Dyadic
  import opened Rounding
  import opened BitPattern
  import opened Neighbours
  import opened DirectedTests

  /** A normal double-extended number whose double rounding is normal too:
      sign, 64-bit significand and exponent of the last place. */
  datatype Extended = Extended(neg: bool, mantissa: nat, e: int)

  predicate Valid(y: Extended) {
    0x8000_0000_0000_0000 <= y.mantissa < 0x1_0000_0000_0000_0000 && y.e + 11 >= EMIN
  }

  function Magnitude64(y: Extended): real {
    Mult(y.mantissa, y.e)
  }

  function Value64(y: Extended): real {
    if y.neg then -Magnitude64(y) else Magnitude64(y)
  }

  /** The number of low bits a mask does not trust: ACCURATE_TO_64_BITS to _59_BITS. */
  type Doubt = k: nat | k <= 5

  /** ACCURATE_TO_64_BITS down to ACCURATE_TO_59_BITS. */
  function Mask(k: Doubt): nat {
    match k
    case 0 => 0x7ff
    case 1 => 0x7fe
    case 2 => 0x7fc
    case 3 => 0x7f8
    case 4 => 0x7f0
    case _ => 0x7e0
  }

  /** The value of the lowest bit the mask keeps. */
  function Slack(k: Doubt): nat {
    0x800 - Mask(k)
  }

  /** x & mask: the low eleven bits with the lowest k cleared. */
  function Masked(x: nat, k: Doubt): nat {
    x % 0x800 / Slack(k) * Slack(k)
  }

  /** The true value lies within 2^k units of the computed one. */
  ghost predicate Within(y: Extended, k: Doubt, exact: real) {
    Valid(y) && Abs(exact - Value64(y)) < Pow2(k + y.e)
  }

  /** The mask ACCURATE_TO_(64-k)_BITS leaves out exactly the bits below 2^k. */
  lemma SlackIsPower(k: Doubt)
    ensures Slack(k) == IPow2(k)
  {
    Powers5();
  }

  lemma Powers5()
    ensures IPow2(0) == 1 && IPow2(1) == 2 && IPow2(2) == 4 && IPow2(3) == 8 && IPow2(4) == 16 && IPow2(5) == 32
  {
    assert IPow2(4) == 2 * IPow2(3);
  }

  /** Masking subtracts the bits below 2^k from the low eleven ones. */
  lemma MaskedBits(x: nat, k: Doubt)
    ensures Masked(x, k) == x % 0x800 - x % IPow2(k)
  {
    hide Slack, IPow2;
    SlackIsPower(k);
    var m := SlackDivides(k);
    SlackRange(k);
    NestedRemainder(x, Slack(k), 2 * m);
  }

  lemma Product3(a: nat, b: nat, c: nat)
    ensures (a * b) * c == a * (b * c)
  {
  }

  lemma Sum3(a: nat, b: nat, c: nat)
    ensures (a + b) * c == a * c + b * c
  {
  }

  lemma NestedRemainder(x: nat, s: nat, m: nat)
    requires s > 0 && m * s == 0x800
    ensures x % 0x800 / s * s == x % 0x800 - x % s
  {
    var q, r := x / 0x800, x % 0x800;
    var n, t := r / s, r % s;
    var qm, ns := q * m, n * s;
    assert r == ns + t;
    Product3(q, m, s);
    Sum3(qm, n, s);
    QuotientIs(x, s, qm + n);
    assert x == x / s * s + x % s;
  }

  // -------------------------------------------------------- reading the bits

  /** The pattern 0x3ff or 0x400 under the mask: the significand is too close to
      a midpoint. */
  predicate NearMidpoint(mantissa: nat, k: Doubt) {
    Masked(mantissa, k) == Masked(0x3ff, k) || Masked(mantissa, k) == Masked(0x400, k)
  }

  /** The pattern 0 or all ones under the mask: too close to a double. */
  predicate NearDouble(mantissa: nat, k: Doubt) {
    Masked(mantissa, k) == 0 || Masked(mantissa, k) == Mask(k)
  }

  lemma QuotientIs(r: nat, s: nat, n: nat)
    requires s > 0 && n * s <= r < n * s + s
    ensures r / s == n
  {
    var q := r / s;
    assert r == q * s + r % s;
    if q < n { Scale(q + 1, n, s); }
    if q > n { Scale(n + 1, q, s); }
  }

  lemma Scale(a: nat, b: nat, s: nat)
    requires a <= b
    ensures a * s <= b * s
  {
  }

  lemma FloorTo(r: nat, s: nat, v: nat, n: nat)
    requires s > 0 && v == n * s
    ensures r / s * s == v <==> v <= r < v + s
  {
    if v <= r < v + s { QuotientIs(r, s, n); }
    assert r == r / s * s + r % s;
  }

  /** The slack divides the half of the eleven bits. */
  lemma SlackDivides(k: Doubt) returns (m: nat)
    ensures m * Slack(k) == 0x400 && m >= 32 && (2 * m - 1) * Slack(k) == 0x800 - Slack(k)
    ensures (m - 1) * Slack(k) == 0x400 - Slack(k)
  {
    m := if k == 0 then 1024 else if k == 1 then 512 else if k == 2 then 256
      else if k == 3 then 128 else if k == 4 then 64 else 32;
  }

  lemma MidpointBits(mantissa: nat, k: Doubt)
    ensures NearMidpoint(mantissa, k) <==> 0x400 - Slack(k) <= mantissa % 0x800 < 0x400 + Slack(k)
  {
    hide Slack, Mask;
    var m := SlackDivides(k);
    var r, s := mantissa % 0x800, Slack(k);
    SlackRange(k);
    FloorTo(r, s, 0x400 - s, m - 1);
    FloorTo(r, s, 0x400, m);
    FloorTo(0x3ff, s, 0x400 - s, m - 1);
    FloorTo(0x400, s, 0x400, m);
  }

  lemma SlackRange(k: Doubt)
    ensures 1 <= Slack(k) <= 32 && Mask(k) == 0x800 - Slack(k)
  {
  }

  lemma DoubleBits(mantissa: nat, k: Doubt)
    ensures NearDouble(mantissa, k) <==> mantissa % 0x800 < Slack(k) || mantissa % 0x800 >= 0x800 - Slack(k)
  {
    hide Slack, Mask;
    var m := SlackDivides(k);
    var r, s := mantissa % 0x800, Slack(k);
    SlackRange(k);
    FloorTo(r, s, 0x800 - s, 2 * m - 1);
    FloorTo(r, s, 0, 0);
  }

  // ------------------------------------------------------ the two candidates

  lemma Pow2Eleven(e: int)
    ensures Pow2(e + 11) == 2048.0 * Pow2(e) && Pow2(e + 10) == 1024.0 * Pow2(e) && Pow2(e + 9) == 512.0 * Pow2(e)
  {
    hide Pow2;
    SmallPowers();
    Pow2Succ(8);
    Pow2Succ(9);
    Pow2Succ(10);
    Pow2Add(e, 9);
    Pow2Add(e, 10);
    Pow2Add(e, 11);
  }

  /** The magnitude is its 53-bit truncation plus its low eleven bits. */
  lemma Truncation(y: Extended) returns (xu: real)
    requires Valid(y)
    ensures var q, r, u := y.mantissa / 0x800, y.mantissa % 0x800, Pow2(y.e);
      && FRAC <= q < 2 * FRAC
      && xu == r as real * u && Magnitude64(y) == Mult(q, y.e + 11) + xu
      && Pow2(y.e + 11) == 2048.0 * u && Pow2(y.e + 10) == 1024.0 * u && Pow2(y.e + 9) == 512.0 * u
  {
    hide Pow2;
    var q, r, e := y.mantissa / 0x800, y.mantissa % 0x800, y.e;
    MultSum(q * 0x800, r, e);
    Pow2Eleven(e);
    var x, u := q as real, Pow2(e);
    assert (q * 0x800) as real == x * 2048.0;
    Regroup(x, 2048.0, u);
    xu := r as real * u;
  }

  /** A 53-bit significand: a double, its unit and its neighbours. */
  lemma Candidate(q: nat, c: int) returns (lo: real, hi: real)
    requires FRAC <= q <= 2 * FRAC && c >= EMIN
    ensures var f := Mult(q, c);
      && f > 0.0 && NextUp(lo, f) && NextUp(f, hi) && hi >= f + Pow2(c)
      && lo <= f - Pow2(c - 1) && (q > FRAC ==> lo <= f - Pow2(c))
      && (q < 2 * FRAC ==> hi == f + Pow2(c))
  {
    hide Pow2, FloorIndex, Mult, Cexp, Rep, NextUp;
    var f := Mult(q, c);
    Powers();
    CandidateRange(q, c);
    GridOf(f, q, c);
    RepIntro(f, c);
    if q < 2 * FRAC { CexpIs(f, c); } else { Pow2Mono(c + 53, c + 54); Pow2Succ(c + 53); CexpIs(f, c + 1); }
    var k;
    lo, hi, k := PositiveNeighbours(f);
    Pow2Mono(c, Cexp(f));
    Pow2Mono(c - 1, k);
    if q > FRAC { Pow2Mono(c, if k >= c then k else c); }
  }

  lemma CandidateRange(q: nat, c: int)
    requires FRAC <= q <= 2 * FRAC
    ensures Pow2(c + 52) <= Mult(q, c) <= Pow2(c + 53)
    ensures q > FRAC ==> Mult(q, c) > Pow2(c + 52)
    ensures q < 2 * FRAC ==> Mult(q, c) < Pow2(c + 53)
    ensures q == 2 * FRAC ==> Mult(q, c) == Pow2(c + 53)
  {
    hide Pow2;
    Powers();
    Pow2Add(52, c);
    Pow2Add(53, c);
    var p, v := Pow2(c), Mult(q, c);
    ScaledOrder(Pow2(52), Pow2(c + 52), q as real, v, p);
    ScaledOrder(q as real, v, Pow2(53), Pow2(c + 53), p);
  }

  // ------------------------------------------------------------- soundness

  lemma Units(y: Extended, k: Doubt, exact: real)
    requires Within(y, k, exact)
    ensures Abs(exact - Value64(y)) < Times(Slack(k) as real, Pow2(y.e))
    ensures 1.0 <= Slack(k) as real <= 32.0 && Valid(y)
  {
    hide Pow2, Slack, IPow2;
    SlackIsPower(k);
    SlackRange(k);
    IPow2IsPow2(k);
    Pow2Add(k, y.e);
  }

  /** The offset of the exact value from the truncation, in units u. */
  lemma Offset(x: real, s: real, u: real, d: real, lo: real, hi: real, xu: real)
    requires u > 0.0 && Abs(d) < Times(s, u) && lo <= x - s && x + s <= hi && xu == x * u
    ensures lo * u < xu + d < hi * u
  {
    var a, b := x - s, x + s;
    MulLe(lo, a, u);
    MulLe(b, hi, u);
    Distribute(b, x, s, u);
    Distribute(x, a, s, u);
    assert lo * u <= a * u && b * u <= hi * u;
  }

  /** Away from a midpoint, everything within the slack rounds like y. */
  lemma PositiveNearest(y: Extended, k: Doubt, exact: real)
    requires !y.neg && Within(y, k, exact) && !NearMidpoint(y.mantissa, k)
    ensures RN(exact) == if y.mantissa % 0x800 < 0x400 then Mult(y.mantissa / 0x800, y.e + 11)
                         else Mult(y.mantissa / 0x800 + 1, y.e + 11)
  {
    hide Pow2, RN, NextUp, NearMidpoint, Slack, Mult, Within, Abs, Magnitude64, Times;
    var q, r, u, d := y.mantissa / 0x800, y.mantissa % 0x800, Pow2(y.e), exact - Value64(y);
    MidpointBits(y.mantissa, k);
    Units(y, k, exact);
    var xu := Truncation(y);
    Pow2Succ(y.e + 10);
    Pow2Succ(y.e + 9);
    var s, x := Slack(k) as real, r as real;
    if r < 0x400 {
      Offset(x, s, u, d, -32.0, 1024.0, xu);
      var lo, hi := Candidate(q, y.e + 11);
      NearestNeighbour(lo, Mult(q, y.e + 11), hi, exact);
    } else {
      Offset(x, s, u, d, 1024.0, 2080.0, xu);
      var lo, hi := Candidate(q + 1, y.e + 11);
      NextCandidate(q, y.e + 11);
      NearestNeighbour(lo, Mult(q + 1, y.e + 11), hi, exact);
    }
  }

  lemma NextCandidate(q: nat, c: int)
    ensures Mult(q + 1, c) == Mult(q, c) + Pow2(c)
  {
    hide Pow2;
    MultSum(q, 1, c);
  }

  lemma SelfWithin(y: Extended, k: Doubt)
    requires Valid(y)
    ensures Within(y, k, Value64(y))
  {
    hide Pow2;
  }

  lemma Opposite(y: Extended, k: Doubt, exact: real)
    requires Within(y, k, exact)
    ensures Within(y.(neg := !y.neg), k, -exact) && Value64(y.(neg := !y.neg)) == -Value64(y)
  {
    hide Pow2;
  }

  lemma NearestSound(y: Extended, k: Doubt, exact: real)
    requires Within(y, k, exact) && !NearMidpoint(y.mantissa, k)
    ensures RN(exact) == RN(Value64(y))
  {
    hide RN, Within, NearMidpoint, Value64;
    SelfWithinOf(y, k, exact);
    if y.neg {
      Opposite(y, k, exact);
      Opposite(y, k, Value64(y));
      RNNeg(exact);
      RNNeg(Value64(y));
      PositiveNearest(y.(neg := false), k, -exact);
      PositiveNearest(y.(neg := false), k, -Value64(y));
    } else {
      PositiveNearest(y, k, exact);
      PositiveNearest(y, k, Value64(y));
    }
  }

  lemma SelfWithinOf(y: Extended, k: Doubt, exact: real)
    requires Within(y, k, exact)
    ensures Within(y, k, Value64(y))
  {
    SelfWithin(y, k);
  }

  /** Away from a double, everything within the slack has y's directed roundings. */
  lemma PositiveDirected(y: Extended, k: Doubt, exact: real)
    requires !y.neg && Within(y, k, exact) && !NearDouble(y.mantissa, k)
    ensures RD(exact) == Mult(y.mantissa / 0x800, y.e + 11)
    ensures RU(exact) == Mult(y.mantissa / 0x800, y.e + 11) + Pow2(y.e + 11)
  {
    hide Pow2, RD, RU, NextUp, NearDouble, Slack, Mult, Within, Abs, Magnitude64, Times;
    var q, r, u, d := y.mantissa / 0x800, y.mantissa % 0x800, Pow2(y.e), exact - Value64(y);
    DoubleBits(y.mantissa, k);
    Units(y, k, exact);
    var xu := Truncation(y);
    Offset(r as real, Slack(k) as real, u, d, 0.0, 2048.0, xu);
    var lo, hi := Candidate(q, y.e + 11);
    BetweenNeighbours(Mult(q, y.e + 11), hi, exact);
  }

  lemma DirectedSound(y: Extended, k: Doubt, exact: real)
    requires Within(y, k, exact) && !NearDouble(y.mantissa, k)
    ensures RD(exact) == RD(Value64(y)) && RU(exact) == RU(Value64(y))
  {
    hide RD, Within, NearDouble, Value64;
    SelfWithinOf(y, k, exact);
    if y.neg {
      Opposite(y, k, exact);
      Opposite(y, k, Value64(y));
      PositiveDirected(y.(neg := false), k, -exact);
      PositiveDirected(y.(neg := false), k, -Value64(y));
      assert - -exact == exact && - -Value64(y) == Value64(y);
    } else {
      PositiveDirected(y, k, exact);
      PositiveDirected(y, k, Value64(y));
    }
  }

  /** DE_TEST_AND_RETURN_RN: a returned double is the rounding to nearest of
      every value within the slack. */
  method TestRN(y: Extended, k: Doubt) returns (r: Option<real>)
    requires Valid(y)
    ensures r.Some? <==> !(0x400 - IPow2(k) <= y.mantissa % 0x800 < 0x400 + IPow2(k))
    ensures forall exact {:trigger Within(y, k, exact)} :: r.Some? && Within(y, k, exact) ==> r.value == RN(exact)
  {
    hide RN, Within, Value64, Slack, IPow2;
    SlackIsPower(k);
    MidpointBits(y.mantissa, k);
    var yd := RN(Value64(y));
    var lo := Masked(y.mantissa, k);
    r := None;
    if lo != Masked(0x3ff, k) && lo != Masked(0x400, k) {
      forall exact {:trigger Within(y, k, exact)} | Within(y, k, exact)
        ensures RN(exact) == yd
      {
        NearestSound(y, k, exact);
      }
      r := Some(yd);
    }
  }

  lemma AllOnes(k: Doubt)
    ensures Masked(0xfff, k) == Mask(k) && Masked(0, k) == 0
  {
    hide Slack, Mask;
    var m := SlackDivides(k);
    SlackRange(k);
    FloorTo(0x7ff, Slack(k), 0x800 - Slack(k), 2 * m - 1);
    FloorTo(0, Slack(k), 0, 0);
  }

  /** DE_TEST_AND_RETURN_RD, with the conversion in rounding-down mode. */
  method TestRD(y: Extended, k: Doubt) returns (r: Option<real>)
    requires Valid(y)
    ensures r.Some? <==> IPow2(k) <= y.mantissa % 0x800 < 0x800 - IPow2(k)
    ensures forall exact {:trigger Within(y, k, exact)} :: r.Some? && Within(y, k, exact) ==> r.value == RD(exact)
  {
    hide RD, Within, Value64, Slack, Masked, IPow2;
    SlackIsPower(k);
    DoubleBits(y.mantissa, k);
    AllOnes(k);
    var bits := Masked(y.mantissa, k);
    var result := RD(Value64(y));
    r := None;
    if bits != Masked(0xfff, k) && bits != Masked(0, k) {
      forall exact {:trigger Within(y, k, exact)} | Within(y, k, exact)
        ensures RD(exact) == result
      {
        DirectedSound(y, k, exact);
      }
      r := Some(result);
    }
  }

  /** DE_TEST_AND_RETURN_RU, with the conversion in rounding-up mode. */
  method TestRU(y: Extended, k: Doubt) returns (r: Option<real>)
    requires Valid(y)
    ensures r.Some? <==> IPow2(k) <= y.mantissa % 0x800 < 0x800 - IPow2(k)
    ensures forall exact {:trigger Within(y, k, exact)} :: r.Some? && Within(y, k, exact) ==> r.value == RU(exact)
  {
    hide RU, Within, Value64, Slack, Masked, IPow2;
    SlackIsPower(k);
    DoubleBits(y.mantissa, k);
    AllOnes(k);
    var bits := Masked(y.mantissa, k);
    var result := RU(Value64(y));
    r := None;
    if bits != Masked(0xfff, k) && bits != Masked(0, k) {
      forall exact {:trigger Within(y, k, exact)} | Within(y, k, exact)
        ensures RU(exact) == result
      {
        DirectedSound(y, k, exact);
      }
      r := Some(result);
    }
  }
}
