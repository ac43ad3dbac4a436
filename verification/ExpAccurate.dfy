/**
 The accurate exits of exp_rn, exp_ru and exp_rd for normal results: the triple
 is rounded first and multiplied by 2^M afterwards, in the exponent field.
 */
module ExpAccurate {
  import opened Dyadic
  import opened Rounding
  import opened BitPattern
  import opened ExpTail
  import opened ExpScaling
  import opened TripleRounding

  /** A positive rounded result, stored and scaled. */
  method Store(res: real, M: int) returns (r: Bits64)
    requires Rep(res) && 0.5 <= res <= 2.0
    ensures Pow2(EMIN + 52) <= Ldexp(res, M) < Pow2(1024) ==> Decode(r) == Ldexp(res, M)
  {
    hide Pow2, Cexp, Rep, Decode, Encode, Ldexp;
    SmallerThanTop();
    EncodeBits(false, res);
    var resdb := new DbNumber(Encode(false, res));
    ghost var l := resdb.l;
    resdb.SetHi((resdb.Hi() + M * 0x10_0000) % WORD);
    r := resdb.l;
    if Pow2(EMIN + 52) <= Ldexp(res, M) < Pow2(1024) {
      ScaledRounding(l, res, M, Ldexp(res, M));
    }
  }

  lemma SmallerThanTop()
    ensures Pow2(1024) > 2.0
  {
    hide Pow2;
    Pow2Zero();
    Pow2Succ(0);
    Pow2Mono(1, 1023);
    Pow2Succ(1023);
  }

  /** The value of the triple, with the range of the mantissa and of the result. */
  ghost predicate Exits(v: real, M: int) {
    Target(v, M) && RN(Ldexp(v, M)) < Pow2(1024) && RU(Ldexp(v, M)) < Pow2(1024)
  }

  /** The accurate exit of exp_rn: 2^M * (ph + pm + pl) rounded to nearest. */
  method AccurateRN(ph: Bits64, pm: real, pl: real, M: int) returns (r: Bits64)
    requires Renormalised(ph, pm, pl) && !Misrounded(ph, pm, pl) && Exits(Decode(ph) + pm + pl, M)
    ensures Decode(r) == RN(Ldexp(Decode(ph) + pm + pl, M))
  {
    hide Pow2, Cexp, RN, RU, RD, Rep, Decode, Ldexp, Renormalised, Misrounded;
    ghost var v := Decode(ph) + pm + pl;
    var res := RoundToNearest3(ph, pm, pl);
    RNRep(v);
    RoundingsInside(v);
    TargetRoundings(v, M);
    r := Store(res, M);
  }

  /** The accurate exit of exp_ru. */
  method AccurateRU(ph: Bits64, pm: real, pl: real, M: int) returns (r: Bits64)
    requires Renormalised(ph, pm, pl) && Abs(Decode(ph)) <= Pow2(1022) && Exits(Decode(ph) + pm + pl, M)
    ensures Decode(r) == RU(Ldexp(Decode(ph) + pm + pl, M))
  {
    hide Pow2, Cexp, RN, RU, RD, Rep, Decode, Ldexp, Renormalised;
    ghost var v := Decode(ph) + pm + pl;
    var res := RoundUpwards3(ph, pm, pl);
    RURep(v);
    RoundingsInside(v);
    TargetRoundings(v, M);
    r := Store(res, M);
  }

  /** The accurate exit of exp_rd. */
  method AccurateRD(ph: Bits64, pm: real, pl: real, M: int) returns (r: Bits64)
    requires Renormalised(ph, pm, pl) && Abs(Decode(ph)) <= Pow2(1022) && Exits(Decode(ph) + pm + pl, M)
    ensures Decode(r) == RD(Ldexp(Decode(ph) + pm + pl, M))
  {
    hide Pow2, Cexp, RN, RU, RD, Rep, Decode, Ldexp, Renormalised;
    ghost var v := Decode(ph) + pm + pl;
    var res := RoundDownwards3(ph, pm, pl);
    RDRep(v);
    RDRep(Ldexp(v, M));
    RURep(Ldexp(v, M));
    RoundingsInside(v);
    TargetRoundings(v, M);
    r := Store(res, M);
  }
}
