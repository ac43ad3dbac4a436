/**
 The table searches of the arctangent: the fast one with its guard on the last
 midpoint, the accurate one with its clamp.
 */
module ArctanSearch {
  import opened Dyadic
  import opened Rounding
  import opened BitPattern

  /** The column A of arctan_table: the limits of the 62 intervals, as patterns. */
  function Pattern(i: nat): Bits64
    requires i < 62
  {
    match i
    case 0 => 0x3F89_FDF8_BCCE_533D case 1 => 0x3FA3_809F_90CE_BC31
    case 2 => 0x3FB0_4419_68FB_A526 case 3 => 0x3FB6_CD46_ABCD_FA25
    case 4 => 0x3FBD_5E09_6D2E_A546 case 5 => 0x3FC1_FC4E_D691_E891
    case 6 => 0x3FC5_4FA6_531F_610B case 7 => 0x3FC8_AA38_0550_EAF1
    case 8 => 0x3FCC_0D3A_B897_5BD9 case 9 => 0x3FCF_79F0_FEE4_6885
    case 10 => 0x3FD1_78D5_9432_74CA case 11 => 0x3FD3_3AE4_B2CF_B5F7
    case 12 => 0x3FD5_03DF_0DD4_0A5B case 13 => 0x3FD6_D488_3998_DD14
    case 14 => 0x3FD8_ADAF_964A_BFA5 case 15 => 0x3FDA_9031_E241_114E
    case 16 => 0x3FDC_7CFA_FB78_B41D case 17 => 0x3FDE_7507_D82B_9DC6
    case 18 => 0x3FE0_3CB4_5FF4_B2AB case 19 => 0x3FE1_45A1_E826_E4EA
    case 20 => 0x3FE2_55EB_ED46_2BAC case 21 => 0x3FE3_6E3F_D4CD_D9AC
    case 22 => 0x3FE4_8F5A_E1FB_2991 case 23 => 0x3FE5_BA0C_5FE8_6E27
    case 24 => 0x3FE6_EF38_22C1_9A5D case 25 => 0x3FE8_2FD9_70F9_67BD
    case 26 => 0x3FE9_7D06_6935_1A0D case 27 => 0x3FEA_D7F3_FE73_0FCD
    case 28 => 0x3FEC_41FA_AA0A_733E case 29 => 0x3FED_BC9B_FAEE_EADF
    case 30 => 0x3FEF_4989_33AC_790A case 31 => 0x3FF0_7555_9AC9_22B4
    case 32 => 0x3FF1_5116_0440_E8D3 case 33 => 0x3FF2_3941_329D_3DD8
    case 34 => 0x3FF3_2F3F_E2DB_7094 case 35 => 0x3FF4_34B0_D38A_35D7
    case 36 => 0x3FF5_4B73_6F41_F96D case 37 => 0x3FF6_75B5_165C_A5E1
    case 38 => 0x3FF7_B601_D0DE_A3C6 case 39 => 0x3FF9_0F59_7950_6F51
    case 40 => 0x3FFA_854A_D74C_F791 case 41 => 0x3FFC_1C16_B397_2246
    case 42 => 0x3FFD_D8DD_C6DB_1831 case 43 => 0x3FFF_C1DD_A4F6_D032
    case 44 => 0x4000_EF61_56AE_FAF2 case 45 => 0x4002_1C8B_FD9A_80C1
    case 46 => 0x4003_6E71_7D67_269C case 47 => 0x4004_ECBF_F069_F1E4
    case 48 => 0x4006_A170_7801_69B7 case 49 => 0x4008_99B4_319C_3F02
    case 50 => 0x400A_E75E_05B0_834A case 51 => 0x400D_A31D_739B_D0E3
    case 52 => 0x4010_7813_1886_BC57 case 53 => 0x4012_813A_8BCE_2241
    case 54 => 0x4015_1516_4ACE_CE78 case 55 => 0x4018_74CE_9526_FAB9
    case 56 => 0x401D_11EB_E094_C913 case 57 => 0x4021_E2BC_220D_FA19
    case 58 => 0x4027_3463_D033_7C49 case 59 => 0x4030_7B8E_2635_0916
    case 60 => 0x403C_62CF_497B_F2F2 case _ => 0x4059_6CC3_FA9E_0EF4
  }

  /** b[61], the last midpoint; it lies below a[61]. */
  const LAST_MIDPOINT: Bits64 := 0x4054_B2C4_7BFF_8329

  /** The column B: the points the intervals are reduced to, as patterns. */
  function Midpoint(i: nat): Bits64
    requires i < 62
  {
    match i
    case 0 => 0x3F99_FF0B_2776_0007 case 1 => 0x3FAA_0355_E354_7CC2
    case 2 => 0x3FB3_87E0_ABF7_BFB9 case 3 => 0x3FBA_1491_E265_B8AB
    case 4 => 0x3FC0_54FA_9124_D46B case 5 => 0x3FC3_A526_51F5_7043
    case 6 => 0x3FC6_FBF4_B99F_2601 case 7 => 0x3FCA_5A97_61D9_D63D
    case 8 => 0x3FCD_C24A_BCBF_6ABC case 9 => 0x3FD0_9A2B_FCF6_6B85
    case 10 => 0x3FD2_590B_8943_E603 case 11 => 0x3FD4_1E78_81B0_D1DF
    case 12 => 0x3FD5_EB31_1EB6_A659 case 13 => 0x3FD7_BFFE_AAF8_65B1
    case 14 => 0x3FD9_9DB7_00A6_F44E case 15 => 0x3FDB_853E_327F_0E90
    case 16 => 0x3FDD_7788_67BE_333A case 17 => 0x3FDF_759B_F3B4_AACC
    case 18 => 0x3FE0_C049_D995_2BEF case 19 => 0x3FE1_CCD0_DDD9_6DE0
    case 20 => 0x3FE2_E109_35B0_819C case 21 => 0x3FE3_FDA7_F512_35D9
    case 22 => 0x3FE5_2373_18D0_CCB0 case 23 => 0x3FE6_5343_DA58_8D41
    case 24 => 0x3FE7_8E09_6290_02BC case 25 => 0x3FE8_D4CB_EE8B_9555
    case 26 => 0x3FEA_28B0_7D0D_616A case 27 => 0x3FEB_8AFD_2133_5E3D
    case 28 => 0x3FEC_FD1E_1D9A_7669 case 29 => 0x3FEE_80AB_F414_19E7
    case 30 => 0x3FF0_0BB9_50BB_2D02 case 31 => 0x3FF0_E1BD_25F4_BC57
    case 32 => 0x3FF1_C388_DEC8_DA1A case 33 => 0x3FF2_B26D_8F9C_F3AD
    case 34 => 0x3FF3_AFED_C485_093A case 35 => 0x3FF4_BDC7_16D8_9BC7
    case 36 => 0x3FF5_DDFE_11C5_3212 case 37 => 0x3FF7_12ED_1317_0C5B
    case 38 => 0x3FF8_5F57_11FB_EA40 case 39 => 0x3FF9_C67F_8AF4_60DF
    case 40 => 0x3FFB_4C49_4A69_6F14 case 41 => 0x3FFC_F55E_80F0_B83E
    case 42 => 0x3FFE_C765_927D_039C case 43 => 0x4000_64A3_CDEC_630C
    case 44 => 0x4001_81C8_02FA_3F97 case 45 => 0x4002_C078_1880_15C0
    case 46 => 0x4004_277C_17ED_BBF3 case 47 => 0x4005_BF8F_A991_13B9
    case 48 => 0x4007_9423_EECF_DE39 case 49 => 0x4009_B483_3449_1C9A
    case 50 => 0x400C_3595_6451_B6E9 case 51 => 0x400F_34B7_088B_2A13
    case 52 => 0x4011_6E3D_8D81_9944 case 53 => 0x4013_B685_9F0E_4EBF
    case 54 => 0x4016_A5E9_F3CD_0189 case 55 => 0x401A_9194_BA05_7809
    case 56 => 0x4020_0A31_A01E_FACA case 57 => 0x4024_3445_FBA7_2898
    case 58 => 0x402B_3DC7_4A4A_5A1D case 59 => 0x4034_DBD6_24D4_15BF
    case 60 => 0x4046_3208_6C3E_C43C case _ => LAST_MIDPOINT
  }

  /** MIN_REDUCTION_NEEDED is the double a[0]. */
  const MIN_REDUCTION: Bits64 := 0x3F89_FDF8_BCCE_533D

  function Limit(i: nat): real
    requires i < 62
  {
    Decode(Pattern(i))
  }

  // -------------------------------------------------- the limits increase

  lemma Adjacent(i: nat)
    requires i < 61
    ensures Pattern(i) < Pattern(i + 1) < SIGN
  {
  }

  lemma {:induction false} PatternsIncrease(i: nat, j: nat)
    requires i < j < 62
    ensures Pattern(i) < Pattern(j) < SIGN
  {
    hide Pattern;
    Adjacent(j - 1);
    if i < j - 1 { PatternsIncrease(i, j - 1); }
  }

  lemma LimitsIncrease(i: nat, j: nat)
    requires i < j < 62
    ensures Limit(i) < Limit(j)
  {
    hide Pattern, DecodeMag;
    PatternsIncrease(i, j);
    DecodeMono(Pattern(i), Pattern(j));
  }

  lemma Ends()
    ensures Limit(0) == Decode(MIN_REDUCTION) && Decode(LAST_MIDPOINT) < Limit(61)
  {
    hide DecodeMag;
    DecodeMono(LAST_MIDPOINT, Pattern(61));
  }

  // ----------------------------------------------------------- the intervals

  /** x lies in the interval i; the last interval is unbounded. */
  predicate Interval(x: real, i: nat) {
    i < 62 && Limit(i) <= x && (i < 61 ==> x < Limit(i + 1))
  }

  /** The interval of x is unique. */
  lemma Unique(x: real, i: nat, j: nat)
    requires Interval(x, i) && Interval(x, j)
    ensures i == j
  {
    hide Pattern, Limit;
    if i < j {
      if i + 1 < j { LimitsIncrease(i + 1, j); }
    } else if j < i {
      if j + 1 < i { LimitsIncrease(j + 1, i); }
    }
  }

  /** x is not below the limit j, nor above it; outside the table either holds. */
  predicate NotBelow(x: real, j: int) {
    j < 0 || (j < 62 && Limit(j) <= x)
  }

  predicate Below(x: real, j: int) {
    j >= 62 || (j >= 0 && x < Limit(j))
  }

  // ------------------------------------------------- the reduced argument

  /** The bound of the reduced argument, 2^-6.3: its tenth power is 2^-63. */
  const REDUCTION: real := 0.012691443693067

  lemma ReductionIsPower()
    ensures var square := REDUCTION * REDUCTION;
      1.0 <= square * square * square * square * square * 9223372036854775808.0 <= 1.000000000001
  {
  }

  /** (x - b) / (1 + x * b) is at most 2^-6.3 in magnitude. */
  ghost predicate Reduces(x: real, b: real) {
    Abs(x - b) <= REDUCTION * (1.0 + x * b)
  }

  /** 2^59, the unit in which the table is compared. */
  const UNIT: int := 0x800_0000_0000_0000

  function Shift(s: int): int {
    if s <= 3 then (if s <= 0 then 1 else if s == 1 then 2 else if s == 2 then 4 else 8)
    else if s <= 7 then (if s == 4 then 16 else if s == 5 then 32 else if s == 6 then 64 else 128)
    else if s <= 10 then (if s == 8 then 256 else if s == 9 then 512 else 1024)
    else if s == 11 then 2048 else if s == 12 then 4096 else 8192
  }

  /** The value of a pattern in units of 2^-59, for exponents from -7 to 6. */
  function Units(l: Bits64): int {
    (FRAC + l % FRAC) * Shift(l / FRAC - 0x3f8)
  }

  predicate InTable(l: Bits64) {
    0x3f8 * FRAC <= l < 0x406 * FRAC
  }

  /** Reduces for the larger number a against b, in units. */
  predicate CloseUnits(a: int, b: int) {
    1_000_000_000_000_000 * UNIT * (a - b) <= 12_691_443_693_067 * (UNIT * UNIT + a * b)
  }

  /** Row i: both ends of the interval reduce, and b[i] is below 64. */
  predicate Row(i: nat)
    requires i < 61
  {
    && InTable(Pattern(i)) && InTable(Pattern(i + 1)) && InTable(Midpoint(i))
    && CloseUnits(Units(Midpoint(i)), Units(Pattern(i)))
    && CloseUnits(Units(Pattern(i + 1)), Units(Midpoint(i)))
    && 0 <= Units(Midpoint(i)) <= 64 * UNIT
  }

  lemma Rows0(i: nat)
    requires 0 <= i < 4
    ensures Row(i)
  {
  }

  lemma Rows4(i: nat)
    requires 4 <= i < 8
    ensures Row(i)
  {
  }

  lemma Rows8(i: nat)
    requires 8 <= i < 12
    ensures Row(i)
  {
  }

  lemma Rows12(i: nat)
    requires 12 <= i < 16
    ensures Row(i)
  {
  }

  lemma Rows16(i: nat)
    requires 16 <= i < 20
    ensures Row(i)
  {
  }

  lemma Rows20(i: nat)
    requires 20 <= i < 24
    ensures Row(i)
  {
  }

  lemma Rows24(i: nat)
    requires 24 <= i < 28
    ensures Row(i)
  {
  }

  lemma Rows28(i: nat)
    requires 28 <= i < 32
    ensures Row(i)
  {
  }

  lemma Rows32(i: nat)
    requires 32 <= i < 36
    ensures Row(i)
  {
  }

  lemma Rows36(i: nat)
    requires 36 <= i < 40
    ensures Row(i)
  {
  }

  lemma Rows40(i: nat)
    requires 40 <= i < 44
    ensures Row(i)
  {
  }

  lemma Rows44(i: nat)
    requires 44 <= i < 48
    ensures Row(i)
  {
  }

  lemma Rows48(i: nat)
    requires 48 <= i < 52
    ensures Row(i)
  {
  }

  lemma Rows52(i: nat)
    requires 52 <= i < 56
    ensures Row(i)
  {
  }

  lemma Rows56(i: nat)
    requires 56 <= i < 59
    ensures Row(i)
  {
  }

  lemma Rows59(i: nat)
    requires 59 <= i < 61
    ensures Row(i)
  {
  }

  lemma Rows(i: nat)
    requires i < 61
    ensures Row(i)
  {
    hide Row;
    if i < 4 {
      Rows0(i);
    } else if i < 8 {
      Rows4(i);
    } else if i < 12 {
      Rows8(i);
    } else if i < 16 {
      Rows12(i);
    } else if i < 20 {
      Rows16(i);
    } else if i < 24 {
      Rows20(i);
    } else if i < 28 {
      Rows24(i);
    } else if i < 32 {
      Rows28(i);
    } else if i < 36 {
      Rows32(i);
    } else if i < 40 {
      Rows36(i);
    } else if i < 44 {
      Rows40(i);
    } else if i < 48 {
      Rows44(i);
    } else if i < 52 {
      Rows48(i);
    } else if i < 56 {
      Rows52(i);
    } else if i < 59 {
      Rows56(i);
    } else {
      Rows59(i);
    }
  }

  lemma ShiftIsPower(s: int)
    requires 0 <= s <= 13
    ensures Shift(s) as real == Pow2(s)
  {
    hide Pow2;
    SmallPowers();
    Pow2Zero();
    Pow2Succ(0);
    Pow2Succ(2);
    Pow2Succ(4);
    Pow2Succ(5);
    Pow2Succ(6);
    Pow2Succ(8);
    Pow2Succ(9);
    Pow2Succ(10);
    Pow2Succ(11);
    Pow2Succ(12);
  }

  lemma UnitsValue(l: Bits64)
    requires InTable(l)
    ensures Decode(l) == Units(l) as real * Pow2(-59)
  {
    hide Pow2, Shift;
    var n, s := FRAC + l % FRAC, l / FRAC - 0x3f8;
    assert 0 <= s <= 13;
    assert Magnitude(l) == l && Significand(l) == n && LastPlace(l) == s + -59;
    ShiftIsPower(s);
    Pow2Add(s, -59);
    IntProduct(n, Shift(s));
    Regroup(n as real, Pow2(s), Pow2(-59));
  }

  /** From the units back to the values. */
  lemma CloseValues(m: int, n: int, a: real, b: real)
    requires CloseUnits(m, n) && a == m as real * Pow2(-59) && b == n as real * Pow2(-59)
    ensures a - b <= REDUCTION * (1.0 + a * b)
  {
    hide Pow2;
    TableUnit();
    var u, x, y := 576460752303423488.0, m as real, n as real;
    assert x == u * a && y == u * b;
    CloseReals(m, n, x, y);
    var ab, xy := a * b, x * y;
    Regroup4(u, a, u, b);
    assert xy == (u * u) * ab;
    assert 1000000000000000.0 * (u * u) * (a - b) <= 12691443693067.0 * ((u * u) * (1.0 + ab));
  }

  lemma TableUnit()
    ensures Pow2(-59) == 1.0 / 576460752303423488.0
  {
    hide Pow2;
    UnitRoundoff();
    SmallPowers();
    Pow2Add(53, 4);
    Pow2Add(57, 2);
    Pow2Inverse(59);
  }

  lemma CloseReals(m: int, n: int, x: real, y: real)
    requires CloseUnits(m, n) && x == m as real && y == n as real
    ensures 1000000000000000.0 * 576460752303423488.0 * (x - y)
      <= 12691443693067.0 * (576460752303423488.0 * 576460752303423488.0 + x * y)
  {
    IntProduct(m, n);
    var d, p := m - n, m * n;
    assert d as real == x - y && p as real == x * y;
    LinearReals(d, p);
  }

  lemma LinearReals(d: int, p: int)
    requires 1_000_000_000_000_000 * UNIT * d <= 12_691_443_693_067 * (UNIT * UNIT + p)
    ensures 1000000000000000.0 * 576460752303423488.0 * d as real
      <= 12691443693067.0 * (576460752303423488.0 * 576460752303423488.0 + p as real)
  {
  }

  /** Between two ends that reduce, everything reduces. */
  lemma BetweenEnds(x: real, a: real, c: real, b: real)
    requires a <= x <= c && 0.0 <= b <= 64.0
    requires b - a <= REDUCTION * (1.0 + b * a) && c - b <= REDUCTION * (1.0 + c * b)
    ensures Reduces(x, b)
  {
    var ab, xb, cb := a * b, x * b, c * b;
    MulLe(a, x, b);
    var d := c - x;
    var db := d * b;
    Distribute(c, x, d, b);
    MulLe(b, 64.0, d);
  }

  /** Above b[61] everything reduces with b[61]. */
  lemma AboveLast(x: real, b: real)
    requires x >= b && 80.0 <= b
    ensures Reduces(x, b)
  {
    MulLe(80.0, b, x);
  }

  lemma LastSize()
    ensures Decode(LAST_MIDPOINT) >= 80.0
  {
    hide Pow2;
    UnitsValue(LAST_MIDPOINT);
    TableUnit();
  }

  /** In the interval i, or above b[61] for the last one, the argument reduces. */
  lemma ReducedArgument(x: real, i: nat)
    requires (i <= 60 && Interval(x, i)) || (i == 61 && x > Decode(LAST_MIDPOINT))
    ensures Reduces(x, Decode(Midpoint(i)))
  {
    hide Pow2, Pattern, Midpoint, Decode, Units, InTable, Reduces;
    if i == 61 {
      LastSize();
      LastRow();
      AboveLast(x, Decode(LAST_MIDPOINT));
    } else {
      RowValues(i);
      BetweenEnds(x, Limit(i), Limit(i + 1), Decode(Midpoint(i)));
    }
  }

  lemma LastRow()
    ensures Midpoint(61) == LAST_MIDPOINT
  {
  }

  lemma RowValues(i: nat)
    requires i < 61
    ensures var a, c, b := Limit(i), Limit(i + 1), Decode(Midpoint(i));
      0.0 <= b <= 64.0 && b - a <= REDUCTION * (1.0 + b * a) && c - b <= REDUCTION * (1.0 + c * b)
  {
    hide Pow2, Pattern, Midpoint, Decode, Units, InTable, CloseUnits;
    Rows(i);
    UnitsValue(Pattern(i));
    UnitsValue(Pattern(i + 1));
    UnitsValue(Midpoint(i));
    CloseValues(Units(Midpoint(i)), Units(Pattern(i)), Decode(Midpoint(i)), Limit(i));
    CloseValues(Units(Pattern(i + 1)), Units(Midpoint(i)), Limit(i + 1), Decode(Midpoint(i)));
    TableUnit();
  }

  /** The first four steps, which both searches take. */
  method Narrow(x: real) returns (i: int)
    requires x > Decode(MIN_REDUCTION)
    ensures 1 <= i <= 61 && i % 2 == 1 && NotBelow(x, i - 2) && Below(x, i + 2)
  {
    hide Pattern, Midpoint, Limit, Decode, Reduces;
    i := 31;
    if x < Limit(i) { i := i - 16; } else { i := i + 16; }
    assert NotBelow(x, i - 16) && Below(x, i + 16);
    if x < Limit(i) { i := i - 8; } else { i := i + 8; }
    assert NotBelow(x, i - 8) && Below(x, i + 8);
    if x < Limit(i) { i := i - 4; } else { i := i + 4; }
    assert NotBelow(x, i - 4) && Below(x, i + 4);
    if x < Limit(i) { i := i - 2; } else { i := i + 2; }
  }

  /**
   The search of atan_quick, for the arguments that are reduced: up to b[61] it
   finds the interval of x without leaving the table; above, the guard takes
   the last index.
   */
  method QuickIndex(x: real) returns (i: int)
    requires x > Decode(MIN_REDUCTION)
    ensures x <= Decode(LAST_MIDPOINT) ==> 0 <= i <= 60 && Interval(x, i)
    ensures x > Decode(LAST_MIDPOINT) ==> i == 61
    ensures Reduces(x, Decode(Midpoint(i)))
  {
    hide Pattern, Midpoint, Limit, Decode, Reduces;
    Ends();
    if x > Decode(LAST_MIDPOINT) {
      i := 61;
    } else {
      i := Narrow(x);
      if x < Limit(i) { i := i - 1; } else { i := i + 1; }
      if x < Limit(i) { i := i - 1; }
    }
    ReducedArgument(x, i);
  }

  /** The search of scs_atan, which has no guard but clamps the fifth step. */
  method AccurateIndex(x: real) returns (i: int)
    requires x > Decode(MIN_REDUCTION)
    ensures 0 <= i <= 61 && Interval(x, i)
    ensures Reduces(x, Decode(Midpoint(i)))
  {
    hide Pattern, Midpoint, Limit, Decode, Reduces;
    Ends();
    i := Narrow(x);
    if x < Limit(i) {
      i := i - 1;
    } else if i < 61 {
      i := i + 1;
    }
    if x < Limit(i) { i := i - 1; }
    ReducedArgument(x, i);
  }

  lemma MidpointInterval()
    ensures Limit(60) < Decode(LAST_MIDPOINT)
  {
    hide DecodeMag;
    DecodeMono(Pattern(60), LAST_MIDPOINT);
  }

  /**
   For every argument that is reduced, the two searches return the same index if
   and only if it does not lie between b[61] and a[61]; there the guard of the
   fast search takes the last interval, the accurate one finds the interval 60.
   */
  method BothIndices(x: real) returns (quick: int, accurate: int)
    requires x > Decode(MIN_REDUCTION)
    ensures quick == accurate <==> !(Decode(LAST_MIDPOINT) < x < Limit(61))
    ensures quick == accurate ==> 0 <= quick && Interval(x, quick)
    ensures quick != accurate ==> quick == 61 && accurate == 60
  {
    hide Pattern, Midpoint, Limit, Decode, Reduces;
    quick := QuickIndex(x);
    accurate := AccurateIndex(x);
    Ends();
    MidpointInterval();
    if x <= Decode(LAST_MIDPOINT) {
      Unique(x, quick, accurate);
    } else {
      Unique(x, if x < Limit(61) then 60 else 61, accurate);
    }
  }
}
