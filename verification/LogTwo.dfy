/**
 The logarithm of 2 as the limit of its series, and an enclosure of it by
 rationals 2^-114 apart.
 */
module LogTwo {

  /** 9^-n */
  function Power9(n: nat): real {
    if n == 0 then 1.0 else Power9(n - 1) / 9.0
  }

  /** The first n terms of ln 2 = 2 artanh(1/3), the sum of 2 / (3 (2k+1) 9^k). */
  function Partial(n: nat): real {
    if n == 0 then 0.0 else Partial(n - 1) + Power9(n - 1) * 2.0 / (3.0 * (2 * n - 1) as real)
  }

  /** v is ln 2: every remainder of the series lies between 0 and 9^-n. */
  ghost predicate IsLn2(v: real) {
    forall n: nat :: Partial(n) <= v <= Partial(n) + Power9(n)
  }

  /** 2^132 */
  const SCALE: real := 5444517870735015415413993718908291383296.0

  lemma Step(n: nat)
    requires n > 0
    ensures Partial(n) == Partial(n - 1) + Power9(n - 1) * 2.0 / (3.0 * (2 * n - 1) as real)
    ensures Power9(n) == Power9(n - 1) / 9.0
  {
  }

  lemma FirstTerms()
    ensures Partial(0) == 0.0 && Power9(0) == 1.0
  {
  }

  lemma Terms12()
    ensures Power9(12) == 1.0 / 282429536481.0
    ensures 3773852211607639647755261471565726110591.0 / SCALE <= Partial(12)
    ensures Partial(12) <= 3773852211607639647755261471565726110592.0 / SCALE
  {
    hide Partial, Power9;
    FirstTerms();
    Step(1); Step(2); Step(3); Step(4); Step(5); Step(6);
    Step(7); Step(8); Step(9); Step(10); Step(11); Step(12);
  }

  lemma Terms24()
    ensures Power9(24) == 1.0 / 79766443076872509863361.0
    ensures 3773852211608212706207105244569268659584.0 / SCALE <= Partial(24)
    ensures Partial(24) <= 3773852211608212706207105244569268659587.0 / SCALE
  {
    hide Partial, Power9;
    Terms12();
    Step(13); Step(14); Step(15); Step(16); Step(17); Step(18);
    Step(19); Step(20); Step(21); Step(22); Step(23); Step(24);
  }

  lemma Terms36()
    ensures Power9(36) == 1.0 / 22528399544939174411840147874772641.0
    ensures 3773852211608212706207106284226471747911.0 / SCALE <= Partial(36)
    ensures Partial(36) <= 3773852211608212706207106284226471747916.0 / SCALE
  {
    hide Partial, Power9;
    Terms24();
    Step(25); Step(26); Step(27); Step(28); Step(29); Step(30);
    Step(31); Step(32); Step(33); Step(34); Step(35); Step(36);
  }

  lemma Enclosure(v: real)
    requires IsLn2(v)
    ensures 3773852211608212706207106284226471747911.0 / SCALE <= v <= 3773852211608212706207106284226471989590.0 / SCALE
  {
    hide IsLn2;
    Terms36();
    AtTerm(v, 36);
  }

  lemma AtTerm(v: real, n: nat)
    requires IsLn2(v)
    ensures Partial(n) <= v <= Partial(n) + Power9(n)
  {
  }

  /** ln 2 to 20 decimals, for coarser use. */
  lemma Coarse(v: real)
    requires IsLn2(v)
    ensures 0.69314718055994530941 <= v <= 0.69314718055994530942
  {
    hide IsLn2;
    Enclosure(v);
  }
}
