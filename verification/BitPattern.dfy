/**
 The 64-bit encoding of doubles (section 3.4 of IEEE 754-2008) and the union
 db_number through which the library steps from one double to the next.
 */
module BitPattern {
  import opened Dyadic
  import opened Rounding

  const FRAC: int := 0x10_0000_0000_0000            // 2^52
  const SIGN: int := 0x8000_0000_0000_0000          // 2^63
  const WORD: int := 0x1_0000_0000                  // 2^32
  const INFINITE: int := 0x7ff0_0000_0000_0000      // the pattern of +infinity

  type Bits64 = l: int | 0 <= l < 0x1_0000_0000_0000_0000

  // ------------------------------------------------------------- magnitudes

  /** The integer significand of the magnitude m. */
  function Significand(m: nat): nat {
    if m < FRAC then m else FRAC + m % FRAC
  }

  /** The exponent of the last place of the magnitude m. */
  function LastPlace(m: nat): int {
    if m < FRAC then EMIN else EMIN - 1 + m / FRAC
  }

  function DecodeMag(m: nat): real {
    Mult(Significand(m), LastPlace(m))
  }

  /** The magnitude of a non-negative double. */
  function EncodeMag(x: real): int {
    (Cexp(x) - EMIN) * FRAC + FloorIndex(x, Cexp(x))
  }

  function Magnitude(l: Bits64): nat {
    l % SIGN
  }

  predicate Negative(l: Bits64) {
    l >= SIGN
  }

  predicate Finite(l: Bits64) {
    Magnitude(l) < INFINITE
  }

  function Decode(l: Bits64): real {
    if Negative(l) then -DecodeMag(Magnitude(l)) else DecodeMag(Magnitude(l))
  }

  /** The pattern of the double of sign neg and absolute value x. */
  function Encode(neg: bool, x: real): Bits64
    requires Rep(x) && 0.0 <= x < Pow2(1024)
  {
    EncodeMagFinite(x);
    EncodeMag(x) + if neg then SIGN else 0
  }

  lemma Powers()
    ensures Pow2(52) == FRAC as real && Pow2(53) == (2 * FRAC) as real
  {
    hide Pow2;
    UnitRoundoff();
    Pow2Succ(52);
  }

  // ---------------------------------------------------------------- decoding

  lemma SignificandRange(m: nat)
    ensures Significand(m) < 2 * FRAC && LastPlace(m) >= EMIN
    ensures LastPlace(m) > EMIN ==> Significand(m) >= FRAC
  {
  }

  /** Comparison of the multiples x * p and y * p of a positive p. */
  lemma ScaledOrder(x: real, xp: real, y: real, yp: real, p: real)
    requires p > 0.0 && xp == x * p && yp == y * p
    ensures x <= y ==> xp <= yp
    ensures x < y ==> xp < yp
  {
    if x < y {
      MulLt(x, y, p);
      assert x * p < y * p;
      assert xp < yp;
    }
  }

  lemma MultRange(n: nat, e: int)
    requires n < 2 * FRAC
    ensures Mult(n, e) < Pow2(e + 53) && Mult(n, e) >= 0.0
    ensures n >= FRAC ==> Mult(n, e) >= Pow2(e + 52)
    ensures n > 0 ==> Mult(n, e) > 0.0
  {
    hide Pow2;
    var p, v := Pow2(e), Mult(n, e);
    Powers();
    Pow2Add(53, e);
    Pow2Add(52, e);
    ScaledOrder(n as real, v, Pow2(53), Pow2(e + 53), p);
    ScaledOrder(Pow2(52), Pow2(e + 52), n as real, v, p);
    ScaledOrder(0.0, 0.0, n as real, v, p);
  }

  /** A decoded magnitude is a double whose last place is LastPlace. */
  lemma DecodeMagRep(m: nat)
    ensures Rep(DecodeMag(m)) && Cexp(DecodeMag(m)) == LastPlace(m)
    ensures DecodeMag(m) >= 0.0 && (m > 0 ==> DecodeMag(m) > 0.0)
    ensures m >= FRAC ==> DecodeMag(m) >= Pow2(LastPlace(m) + 52)
    ensures DecodeMag(m) < Pow2(LastPlace(m) + 53)
  {
    hide Pow2, Mult, Cexp, FloorIndex, Significand, LastPlace;
    SignificandRange(m);
    SignificandPositive(m);
    var n, e := Significand(m), LastPlace(m);
    MultRange(n, e);
    GridOf(Mult(n, e), n, e);
    CexpLe(Mult(n, e), e);
    if e > EMIN { CexpGe(Mult(n, e), e); }
  }

  lemma SignificandPositive(m: nat)
    ensures m > 0 ==> Significand(m) > 0
    ensures m >= FRAC ==> Significand(m) >= FRAC
  {
  }

  /** The fields of the next pattern: the significand grows by one, or wraps
      round into the next binade. */
  lemma SuccFields(m: nat)
    ensures var n, e := Significand(m), LastPlace(m);
      && (n + 1 < 2 * FRAC ==> Significand(m + 1) == n + 1 && LastPlace(m + 1) == e)
      && (n + 1 >= 2 * FRAC ==> n + 1 == 2 * FRAC && Significand(m + 1) == FRAC && LastPlace(m + 1) == e + 1)
  {
    var q, r := m / FRAC, m % FRAC;
    assert m == q * FRAC + r;
    assert m + 1 == if r + 1 < FRAC then q * FRAC + (r + 1) else (q + 1) * FRAC;
  }

  /** Adding one to a pattern adds one unit in the last place, across binades too. */
  lemma DecodeSucc(m: nat)
    ensures DecodeMag(m + 1) == DecodeMag(m) + Pow2(LastPlace(m))
  {
    hide Pow2, Significand, LastPlace;
    var n, e := Significand(m), LastPlace(m);
    SuccFields(m);
    MultSum(n, 1, e);
    assert Mult(1, e) == Pow2(e);
    if n + 1 >= 2 * FRAC {
      Pow2Succ(e);
      MultDouble(FRAC, e);
    }
  }

  /** Patterns order magnitudes. */
  lemma {:induction false} DecodeMono(m: nat, k: nat)
    requires m < k
    ensures DecodeMag(m) < DecodeMag(k)
    decreases k - m
  {
    hide Pow2, DecodeMag, LastPlace;
    DecodeSucc(k - 1);
    if m < k - 1 { DecodeMono(m, k - 1); }
  }

  /** Between the values of consecutive patterns there is no double. */
  lemma NoneBetween(m: nat, g: real)
    requires Rep(g) && g > DecodeMag(m)
    ensures g >= DecodeMag(m + 1)
  {
    hide Pow2, FloorIndex, Mult, Cexp, DecodeMag, LastPlace;
    DecodeMagRep(m);
    DecodeSucc(m);
    CexpMono(DecodeMag(m), g);
    RepGrid(g, LastPlace(m));
    RepGrid(DecodeMag(m), LastPlace(m));
    GridApart(DecodeMag(m), g, LastPlace(m));
  }

  lemma DecodeRep(x: Bits64)
    ensures Rep(Decode(x))
  {
    hide DecodeMag, Rep;
    DecodeMagRep(Magnitude(x));
    RepNeg(DecodeMag(Magnitude(x)));
  }

  // ---------------------------------------------------------------- encoding

  lemma IndexRange(x: real)
    requires Rep(x) && x >= 0.0
    ensures 0 <= FloorIndex(x, Cexp(x)) < 2 * FRAC
    ensures Cexp(x) > EMIN ==> FloorIndex(x, Cexp(x)) >= FRAC
  {
    hide Pow2, FloorIndex, Cexp;
    var c := Cexp(x);
    Powers();
    Pow2Add(53, c);
    Pow2Add(52, c);
    IndexSize(x, FloorIndex(x, c), Pow2(c), 2 * FRAC, Pow2(c + 53));
    IndexSize(x, FloorIndex(x, c), Pow2(c), FRAC, Pow2(c + 52));
  }

  /** x = n * p against m * p, for non-negative x. */
  lemma IndexSize(x: real, n: int, p: real, m: int, mp: real)
    requires x == n as real * p && mp == m as real * p && p > 0.0 && x >= 0.0
    ensures n >= 0 && (x < mp ==> n < m) && (x >= mp ==> n >= m)
  {
    var r, s := n as real, m as real;
    if n < 0 { MulLt(r, 0.0, p); }
    if n >= m { MulLe(s, r, p); }
    if n < m { MulLt(r, s, p); }
  }

  lemma EncodeDecode(x: real)
    requires Rep(x) && x >= 0.0
    ensures EncodeMag(x) >= 0 && DecodeMag(EncodeMag(x)) == x
    ensures LastPlace(EncodeMag(x)) == Cexp(x)
  {
    hide Pow2, FloorIndex, Cexp, Mult;
    IndexRange(x);
    var c := Cexp(x);
    var n := FloorIndex(x, c);
    Fields(c - EMIN, n);
  }

  /** (e, n) is recovered from e * 2^52 + n. */
  lemma Fields(e: nat, n: nat)
    requires n < 2 * FRAC && (e > 0 ==> n >= FRAC)
    ensures Significand(e * FRAC + n) == n && LastPlace(e * FRAC + n) == EMIN + e
  {
    var m := e * FRAC + n;
    if m >= FRAC {
      if n >= FRAC {
        assert m == (e + 1) * FRAC + (n - FRAC);
      }
    }
  }

  lemma EncodeMagFinite(x: real)
    requires Rep(x) && 0.0 <= x < Pow2(1024)
    ensures 0 <= EncodeMag(x) < INFINITE
  {
    hide Pow2, FloorIndex, Cexp, Mult;
    IndexRange(x);
    CexpLe(x, 971);
  }

  lemma EncodeBits(neg: bool, x: real)
    requires Rep(x) && 0.0 <= x < Pow2(1024)
    ensures Finite(Encode(neg, x)) && Negative(Encode(neg, x)) == neg
    ensures Magnitude(Encode(neg, x)) == EncodeMag(x)
    ensures Decode(Encode(neg, x)) == if neg then -x else x
  {
    hide Pow2, DecodeMag, EncodeMag;
    EncodeMagFinite(x);
    EncodeDecode(x);
  }

  // ------------------------------------------------------- the union itself

  /** A 64-bit cell read and written as an integer or as a double. */
  class DbNumber {
    var l: Bits64

    constructor (d: Bits64)
      ensures l == d
    {
      l := d;
    }

    function D(): real
      reads this
    {
      Decode(l)
    }

    /** The word i[HI] as an unsigned integer. */
    function Hi(): nat
      reads this
    {
      l / WORD
    }

    /** The word i[LO] as an unsigned integer. */
    function Lo(): nat
      reads this
    {
      l % WORD
    }

    /** Clears the sign bit. */
    method StripSign()
      modifies this
      ensures l == Magnitude(old(l))
    {
      l := l % SIGN;
    }

    /** l++ on the unsigned 64-bit pattern. */
    method Increment()
      modifies this
      ensures l == (old(l) + 1) % 0x1_0000_0000_0000_0000
    {
      l := (l + 1) % 0x1_0000_0000_0000_0000;
    }

    /** l-- on the unsigned 64-bit pattern. */
    method Decrement()
      modifies this
      ensures l == (old(l) - 1) % 0x1_0000_0000_0000_0000
    {
      l := (l - 1) % 0x1_0000_0000_0000_0000;
    }

    /** i[HI] = hi; i[LO] = lo; */
    method SetWords(hi: nat, lo: nat)
      requires hi < WORD && lo < WORD
      modifies this
      ensures l == hi * WORD + lo
    {
      l := hi * WORD + lo;
    }

    /** i[HI] = hi with a 32-bit word. */
    method SetHi(hi: nat)
      requires hi < WORD
      modifies this
      ensures l == hi * WORD + old(l) % WORD
    {
      l := hi * WORD + l % WORD;
    }
  }
}
