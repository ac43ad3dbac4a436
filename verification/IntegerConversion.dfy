/**
 Doubles to integers through the shift constant: DOUBLE2INT, DOUBLE2LONGINT and
 the facts about the constant that the argument reduction of exp uses too.
 */
module IntegerConversion {
  import opened Dyadic
  import opened Rounding
  import opened BitPattern

  /** 2^52 + 2^51 */
  const SHIFT: int := 6755399441055744

  /** 2^51 */
  const HALF_FRAC: int := 2251799813685248

  /** A 32-bit word read as a C int. */
  function Signed(w: nat): int {
    if w < 0x8000_0000 then w else w - WORD
  }

  /** A 64-bit pattern read as a C long integer. */
  function SignedLong(l: Bits64): int {
    if l < SIGN then l else l - 0x1_0000_0000_0000_0000
  }

  lemma NearestIntShift(t: real)
    ensures NearestInt(t + SHIFT as real) == NearestInt(t) + SHIFT
  {
    var n := t.Floor;
    assert (t + SHIFT as real).Floor == n + SHIFT;
  }

  /** Adding the shift constant rounds to an integer, ties to even. */
  lemma ShiftRounds(t: real)
    requires Abs(t) <= 2251799813685247.0
    ensures RN(t + SHIFT as real) == (NearestInt(t) + SHIFT) as real
    ensures Cexp(t + SHIFT as real) == 0
  {
    hide Pow2, Cexp, NearestInt;
    var x := t + SHIFT as real;
    Powers();
    CexpIs(x, 0);
    Pow2Zero();
    NearestIntShift(t);
  }

  lemma NearestIntBounds(t: real)
    ensures -0.5 <= NearestInt(t) as real - t <= 0.5
    ensures Abs(t) <= 2147483647.0 ==> -0x8000_0000 <= NearestInt(t) < 0x8000_0000
    ensures Abs(t) <= 2251799813685247.0 ==> -HALF_FRAC < NearestInt(t) < HALF_FRAC
  {
  }

  lemma IntegerRep(n: int)
    requires -FRAC <= n <= 2 * FRAC
    ensures Rep(n as real) && Grid(n as real, 0) && FloorIndex(n as real, 0) == n
  {
    hide Pow2, FloorIndex, Cexp, Rep;
    Powers();
    Pow2Zero();
    GridOf(n as real, n, 0);
    RepIntro(n as real, 0);
  }

  /** The pattern of the shifted sum. */
  lemma ShiftedPattern(n: int)
    requires -HALF_FRAC <= n < HALF_FRAC
    ensures Rep((n + SHIFT) as real) && 0.0 <= (n + SHIFT) as real < Pow2(1024)
    ensures Encode(false, (n + SHIFT) as real) == (-EMIN) * FRAC + (n + SHIFT)
  {
    hide Pow2, FloorIndex, Cexp, Rep;
    var x := (n + SHIFT) as real;
    IntegerRep(n + SHIFT);
    Powers();
    CexpIs(x, 0);
    Pow2Mono(53, 1024);
  }

  lemma RemainderIs(l: int, q: int, d: int, r: int)
    requires d > 0 && l == q * d + r && 0 <= r < d
    ensures l % d == r
  {
    var p, s := l / d, l % d;
    assert l == p * d + s;
    if p < q { Steps(p, q, d); }
    if q < p { Steps(q, p, d); }
  }

  lemma Steps(a: int, b: int, d: int)
    requires a < b && d > 0
    ensures a * d + d <= b * d
  {
    var e := b - a - 1;
    NonNegative(e, d);
    assert b == a + 1 + e;
    assert b * d == a * d + d + e * d;
  }

  lemma NonNegative(x: int, y: int)
    requires x >= 0 && y >= 0
    ensures x * y >= 0
  {
  }

  /** The low word of the shifted sum is the integer modulo 2^32. */
  lemma LowWord(n: int)
    requires -0x8000_0000 <= n < 0x8000_0000
    ensures Rep((n + SHIFT) as real) && 0.0 <= (n + SHIFT) as real < Pow2(1024)
    ensures Signed(Encode(false, (n + SHIFT) as real) % WORD) == n
  {
    hide Pow2, Cexp, Rep, Encode;
    ShiftedPattern(n);
    var q := (-EMIN) * 0x10_0000 + 0x18_0000;
    if n >= 0 {
      RemainderIs(q * WORD + n, q, WORD, n);
    } else {
      RemainderIs(q * WORD + n, q - 1, WORD, n + WORD);
    }
  }

  /** The low 51 bits are the integer modulo 2^51. */
  lemma LowBits(n: int)
    requires -HALF_FRAC < n < HALF_FRAC
    ensures Rep((n + SHIFT) as real) && 0.0 <= (n + SHIFT) as real < Pow2(1024)
    ensures Encode(false, (n + SHIFT) as real) % HALF_FRAC == if n >= 0 then n else n + HALF_FRAC
  {
    hide Pow2, Cexp, Rep, Encode;
    ShiftedPattern(n);
    var q := 2 * (-EMIN) + 3;
    if n >= 0 {
      RemainderIs(q * HALF_FRAC + n, q, HALF_FRAC, n);
    } else {
      RemainderIs(q * HALF_FRAC + n, q - 1, HALF_FRAC, n + HALF_FRAC);
    }
  }

  /** DOUBLE2INT: the nearest integer, ties to even. */
  method DoubleToInt(d: real) returns (i: int)
    requires Abs(d) <= 2147483647.0
    ensures i == NearestInt(d)
  {
    hide Pow2, Cexp, Rep, RN, NearestInt, Encode;
    ShiftRounds(d);
    NearestIntBounds(d);
    LowWord(NearestInt(d));
    var t := new DbNumber(Encode(false, RN(d + SHIFT as real)));
    i := Signed(t.Lo());
  }

  lemma ZeroBelow(d: real)
    requires d < 0.0
    ensures NearestInt(d) <= 0 && (NearestInt(d) == 0 <==> d >= -0.5)
  {
  }

  lemma ZeroAbove(d: real)
    requires d >= 0.0
    ensures NearestInt(d) >= 0
  {
  }

  /**
   DOUBLE2LONGINT: the nearest integer exactly when d is not in [-1/2, 0). There
   the nearest integer is zero, but the sign extension still takes place and
   gives -2^51.
   */
  method DoubleToLongInt(d: real) returns (i: int)
    requires Abs(d) <= 2251799813685247.0
    ensures i == NearestInt(d) <==> !(-0.5 <= d < 0.0)
    ensures -0.5 <= d < 0.0 ==> i == -HALF_FRAC
  {
    hide Pow2, Cexp, Rep, RN, NearestInt, Encode;
    ShiftRounds(d);
    NearestIntBounds(d);
    LowBits(NearestInt(d));
    var t := new DbNumber(Encode(false, RN(d + SHIFT as real)));
    var low := t.l % HALF_FRAC;
    if d >= 0.0 {
      ZeroAbove(d);
      i := SignedLong(low);
    } else {
      ZeroBelow(d);
      i := SignedLong(low + 0xFFF8_0000_0000_0000);
    }
  }
}
