/**
 Powers of two as reals, and the grids they generate.

 `Grid(x, e)` says that x is an integer multiple of 2^e. Every exactness
 argument about floating-point addition and multiplication is an argument
 about grids and magnitudes, and the rest of the project uses only the lemmas
 below, never the multiplication inside `Mult`.
 */
module Dyadic {

  function Abs(x: real): real {
    if x < 0.0 then -x else x
  }

  lemma AbsNonneg(x: real)
    ensures Abs(x) >= 0.0
  {
  }

  lemma Triangle(x: real, y: real, z: real)
    requires z == x + y
    ensures Abs(x) - Abs(y) <= Abs(z) <= Abs(x) + Abs(y)
  {
  }

  lemma AbsNeg(x: real)
    ensures Abs(-x) == Abs(x)
  {
  }

  lemma AbsSwap(x: real, y: real)
    ensures Abs(x - y) == Abs(y - x)
  {
  }

  // ------------------------------------------------------ powers of two

  function Doubled(n: nat): (r: real)
    ensures r > 0.0
  {
    if n == 0 then 1.0 else 2.0 * Doubled(n - 1)
  }

  function Halved(n: nat): (r: real)
    ensures r > 0.0
  {
    if n == 0 then 1.0 else 0.5 * Halved(n - 1)
  }

  /** 2^e, for positive and negative e. */
  function Pow2(e: int): (r: real)
    ensures r > 0.0
  {
    if e >= 0 then Doubled(e) else Halved(-e)
  }

  lemma Pow2Zero()
    ensures Pow2(0) == 1.0
  {
  }

  lemma Pow2Succ(e: int)
    ensures Pow2(e + 1) == 2.0 * Pow2(e)
  {
    if e < 0 {
      assert Halved(-e) == 0.5 * Halved(-e - 1);
    }
  }

  lemma Doubling(p: real, q: real, q2: real, r: real, r2: real)
    requires q2 == 2.0 * q && r2 == 2.0 * r
    ensures r == p * q <==> r2 == p * q2
  {
  }

  lemma Pow2AddStep(a: int, b: int)
    ensures Pow2(a + b) == Pow2(a) * Pow2(b) <==> Pow2(a + b + 1) == Pow2(a) * Pow2(b + 1)
  {
    hide *;
    Pow2Succ(a + b);
    Pow2Succ(b);
    Doubling(Pow2(a), Pow2(b), Pow2(b + 1), Pow2(a + b), Pow2(a + b + 1));
  }

  lemma {:induction false} Pow2Add(a: int, b: int)
    ensures Pow2(a + b) == Pow2(a) * Pow2(b)
    decreases if b < 0 then -b else b
  {
    hide *;
    if b == 0 {
      Pow2Zero();
    } else if b > 0 {
      Pow2Add(a, b - 1);
      Pow2AddStep(a, b - 1);
    } else if b < 0 {
      Pow2Add(a, b + 1);
      Pow2AddStep(a, b);
    }
  }

  lemma Pow2Inverse(e: int)
    ensures Pow2(e) * Pow2(-e) == 1.0
  {
    Pow2Add(e, -e);
  }

  lemma {:induction false} Pow2Mono(a: int, b: int)
    requires a <= b
    ensures Pow2(a) <= Pow2(b)
    ensures a < b ==> 2.0 * Pow2(a) <= Pow2(b)
    decreases b - a
  {
    if a < b {
      Pow2Mono(a, b - 1);
      Pow2Succ(b - 1);
    }
  }

  lemma Pow2Less(a: int, b: int)
    requires Pow2(a) < Pow2(b)
    ensures a < b
  {
    if b <= a { Pow2Mono(b, a); }
  }

  // ------------------------------------------------------ products of reals

  /** The exact product, named so that it can stand inside other terms. */
  function Times(x: real, y: real): real {
    x * y
  }

  // The factors of these products are plain variables throughout: the solver
  // multiplies variables reliably, sums much less so.

  lemma Distribute(s: real, x: real, y: real, z: real)
    requires s == x + y
    ensures s * z == x * z + y * z
  {
  }

  lemma MulLe(x: real, y: real, z: real)
    requires x <= y && z >= 0.0
    ensures x * z <= y * z
  {
    assert (y - x) * z >= 0.0;
  }

  /** MulLe with its products named. */
  lemma MulLeAs(xz: real, yz: real, x: real, y: real, z: real)
    requires xz == x * z && yz == y * z && x <= y && z >= 0.0
    ensures xz <= yz
  {
    MulLe(x, y, z);
  }

  lemma MulLt(x: real, y: real, z: real)
    requires x < y && z > 0.0
    ensures x * z < y * z
  {
    assert (y - x) * z > 0.0;
  }

  lemma AbsMul(x: real, y: real)
    ensures Abs(x * y) == Abs(x) * Abs(y)
  {
  }

  lemma AbsProduct(z: real, x: real, y: real)
    requires z == x * y
    ensures Abs(z) == Abs(x) * Abs(y)
  {
    AbsMul(x, y);
  }

  /** Products of non-negative factors, compared factor by factor. */
  lemma ProductLe(p: real, q: real, a: real, b: real, x: real, y: real)
    requires p == a * b && q == x * y && 0.0 <= a <= x && 0.0 <= b <= y
    ensures p <= q
  {
    MulLe(a, x, b);
    MulLe(b, y, x);
  }

  lemma ProductLt(p: real, q: real, a: real, b: real, x: real, y: real)
    requires p == a * b && q == x * y && 0.0 <= a < x && 0.0 <= b <= y && y > 0.0
    ensures p < q
  {
    MulLt(a, x, y);
    MulLe(b, y, a);
  }

  lemma MulBound(x: real, y: real, a: real, b: real)
    requires Abs(x) <= a && Abs(y) <= b
    ensures Abs(x * y) <= a * b
  {
    AbsMul(x, y);
    MulLe(Abs(x), a, Abs(y));
    MulLe(Abs(y), b, a);
  }

  /** |m * x| for a non-negative m. */
  lemma AbsScale(z: real, m: real, x: real, b: real)
    requires z == m * x && m >= 0.0 && Abs(x) <= b
    ensures Abs(z) <= m * b
  {
    AbsMul(m, x);
    MulLe(Abs(x), b, m);
  }

  /** A product with a non-negative factor. */
  lemma AbsTimes(z: real, m: real, x: real)
    requires z == m * x && m >= 0.0
    ensures Abs(z) == m * Abs(x)
  {
    AbsMul(m, x);
  }

  lemma AbsTimesAs(az: real, z: real, m: real, x: real, ax: real)
    requires z == m * x && m >= 0.0 && az == Abs(z) && ax == Abs(x)
    ensures az == m * ax
  {
    AbsTimes(z, m, x);
  }

  lemma Regroup(a: real, b: real, c: real)
    ensures a * (b * c) == (a * b) * c == b * (a * c)
  {
  }

  lemma Regroup4(a: real, p: real, b: real, q: real)
    ensures (a * p) * (b * q) == (a * b) * (p * q)
  {
    Regroup(a * p, b, q);
    Regroup(b, a, p);
    Regroup(a * b, p, q);
  }


  // ---------------------------------------------------------------- grids

  function Mult(n: int, e: int): real {
    n as real * Pow2(e)
  }

  /** x in units of 2^e. */
  function Scaled(x: real, e: int): real {
    x * Pow2(-e)
  }

  /** The largest integer n with n * 2^e <= x. */
  function FloorIndex(x: real, e: int): int {
    Scaled(x, e).Floor
  }

  predicate Grid(x: real, e: int) {
    x == Mult(FloorIndex(x, e), e)
  }

  lemma GridOf(x: real, n: int, e: int)
    requires x == Mult(n, e)
    ensures Grid(x, e) && FloorIndex(x, e) == n
  {
    hide Pow2;
    Pow2Inverse(e);
    Regroup(n as real, Pow2(e), Pow2(-e));
    assert Scaled(x, e) == n as real;
    assert (n as real).Floor == n;
  }

  lemma IntProduct(m: int, k: int)
    ensures (m * k) as real == m as real * k as real
  {
  }

  lemma MultMult(m: int, k: int, g: int)
    ensures m as real * Mult(k, g) == Mult(m * k, g)
  {
    hide Pow2;
    IntProduct(m, k);
    Regroup(m as real, k as real, Pow2(g));
  }

  lemma MultSum(m: int, n: int, e: int)
    ensures Mult(m + n, e) == Mult(m, e) + Mult(n, e)
    ensures Mult(m - n, e) == Mult(m, e) - Mult(n, e)
  {
  }

  lemma MultDouble(n: int, e: int)
    ensures Mult(2 * n, e) == Mult(n, e + 1)
  {
    hide Pow2;
    Pow2Succ(e);
    var x, p := n as real, Pow2(e);
    assert (2 * n) as real == 2.0 * x;
    Regroup(2.0, x, p);
    Regroup(x, 2.0, p);
  }

  function IPow2(n: nat): (r: int)
    ensures r > 0
  {
    if n == 0 then 1 else 2 * IPow2(n - 1)
  }

  lemma {:induction false} IPow2IsPow2(n: nat)
    ensures IPow2(n) as real == Pow2(n)
  {
    if n > 0 {
      IPow2IsPow2(n - 1);
    }
  }

  lemma GridPow2(e: int, g: int)
    requires g <= e
    ensures Grid(Pow2(e), g)
  {
    hide Pow2, IPow2;
    IPow2IsPow2(e - g);
    Pow2Add(e - g, g);
    GridOf(Pow2(e), IPow2(e - g), g);
  }

  lemma GridZero(e: int)
    ensures Grid(0.0, e)
  {
    GridOf(0.0, 0, e);
  }

  lemma GridSum(x: real, y: real, e: int)
    requires Grid(x, e) && Grid(y, e)
    ensures Grid(x + y, e) && Grid(x - y, e)
  {
    hide Pow2, FloorIndex, Mult;
    var m, n := FloorIndex(x, e), FloorIndex(y, e);
    MultSum(m, n, e);
    GridOf(x + y, m + n, e);
    GridOf(x - y, m - n, e);
  }

  lemma GridNeg(x: real, e: int)
    requires Grid(x, e)
    ensures Grid(-x, e)
  {
    GridZero(e);
    GridSum(0.0, x, e);
  }

  lemma GridCoarser(x: real, e: int, g: int)
    requires Grid(x, e) && g <= e
    ensures Grid(x, g)
  {
    hide Pow2, FloorIndex;
    GridPow2(e, g);
    var m, k := FloorIndex(x, e), FloorIndex(Pow2(e), g);
    MultMult(m, k, g);
    GridOf(x, m * k, g);
  }

  lemma MultProduct(m: int, a: int, n: int, b: int)
    ensures Mult(m, a) * Mult(n, b) == Mult(m * n, a + b)
  {
    hide Pow2;
    Pow2Add(a, b);
    IntProduct(m, n);
    Regroup4(m as real, Pow2(a), n as real, Pow2(b));
  }

  lemma GridProduct(z: real, x: real, y: real, a: int, b: int)
    requires z == x * y
    requires Grid(x, a) && Grid(y, b)
    ensures Grid(z, a + b)
  {
    hide Pow2, FloorIndex, Mult;
    var m, n := FloorIndex(x, a), FloorIndex(y, b);
    MultProduct(m, a, n, b);
    GridOf(z, m * n, a + b);
  }

  lemma GridShift(z: real, x: real, e: int, k: int)
    requires z == x * Pow2(k)
    requires Grid(x, e)
    ensures Grid(z, e + k)
  {
    hide Pow2, FloorIndex, Mult;
    GridPow2(k, k);
    GridProduct(z, x, Pow2(k), e, k);
  }

  lemma SmallMultiple(x: real, n: int, p: real)
    requires x == n as real * p && -p < x < p
    ensures n == 0
  {
    if n >= 1 {
      MulLe(1.0, n as real, p);
    } else if n <= -1 {
      MulLe(n as real, -1.0, p);
    }
  }

  /** A grid point smaller than one step is zero. */
  lemma GridSmall(x: real, e: int)
    requires Grid(x, e) && Abs(x) < Pow2(e)
    ensures x == 0.0
  {
    hide Pow2, FloorIndex;
    SmallMultiple(x, FloorIndex(x, e), Pow2(e));
  }

  /** Distinct grid points are at least one step apart. */
  lemma GridApart(x: real, y: real, e: int)
    requires Grid(x, e) && Grid(y, e) && x < y
    ensures x + Pow2(e) <= y
  {
    GridSum(y, x, e);
    if y - x < Pow2(e) { GridSmall(y - x, e); }
  }
}
