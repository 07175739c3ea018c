/**
 * The test whether a power of five divides a 64-bit number: one multiplication by the inverse modulo
 * 2^64 and one comparison.
 */
module Pow5 {
  import opened Base
  import opened Decimal

  const TWO64: nat := 0x1_0000_0000_0000_0000

  datatype MulCmp = MulCmp(mul: nat, cmp: nat)

  /** The table of inverses of the powers of five and of the largest quotients. */
  function Mod5(e5: nat): MulCmp
    requires e5 <= 24
  {
    match e5
    case 0 => MulCmp(0x0000_0000_0000_0001, 0xFFFF_FFFF_FFFF_FFFF)
    case 1 => MulCmp(0xCCCC_CCCC_CCCC_CCCD, 0x3333_3333_3333_3333)
    case 2 => MulCmp(0x8F5C_28F5_C28F_5C29, 0x0A3D_70A3_D70A_3D70)
    case 3 => MulCmp(0x1CAC_0831_26E9_78D5, 0x020C_49BA_5E35_3F7C)
    case 4 => MulCmp(0xD288_CE70_3AFB_7E91, 0x0068_DB8B_AC71_0CB2)
    case 5 => MulCmp(0x5D4E_8FB0_0BCB_E61D, 0x0014_F8B5_88E3_68F0)
    case 6 => MulCmp(0x790F_B656_68C2_6139, 0x0004_31BD_E82D_7B63)
    case 7 => MulCmp(0xE503_2477_AE8D_46A5, 0x0000_D6BF_94D5_E57A)
    case 8 => MulCmp(0xC767_074B_22E9_0E21, 0x0000_2AF3_1DC4_6118)
    case 9 => MulCmp(0x8E47_CE42_3A2E_9C6D, 0x0000_0897_05F4_136B)
    case 10 => MulCmp(0x4FA7_F60D_3ED6_1F49, 0x0000_01B7_CDFD_9D7B)
    case 11 => MulCmp(0x0FEE_6469_0C91_3975, 0x0000_0057_F5FF_85E5)
    case 12 => MulCmp(0x3662_E0E1_CF50_3EB1, 0x0000_0011_9799_812D)
    case 13 => MulCmp(0xA47A_2CF9_F643_3FBD, 0x0000_0003_84B8_4D09)
    case 14 => MulCmp(0x5418_6F65_3140_A659, 0x0000_0000_B424_DC35)
    case 15 => MulCmp(0x7738_1647_7040_2145, 0x0000_0000_2407_5F3D)
    case 16 => MulCmp(0xE4A4_D141_7CD9_A041, 0x0000_0000_0734_ACA5)
    case 17 => MulCmp(0xC754_29D9_E5C5_200D, 0x0000_0000_0170_EF54)
    case 18 => MulCmp(0xC177_3B91_FAC1_0669, 0x0000_0000_0049_C977)
    case 19 => MulCmp(0x26B1_7250_6559_CE15, 0x0000_0000_000E_C1E4)
    case 20 => MulCmp(0xD489_E3A9_ADDE_C2D1, 0x0000_0000_0002_F394)
    case 21 => MulCmp(0x90E8_60BB_892C_8D5D, 0x0000_0000_0000_971D)
    case 22 => MulCmp(0x502E_79BF_1B6F_4F79, 0x0000_0000_0000_1E39)
    case 23 => MulCmp(0xDCD6_1859_6BE3_0FE5, 0x0000_0000_0000_060B)
    case 24 => MulCmp(0x2C2A_D1AB_7BFA_3661, 0x0000_0000_0000_0135)
  }

  function PowerOf5(e: nat): (r: nat)
    ensures r >= 1
  {
    if e == 0 then 1 else 5 * PowerOf5(e - 1)
  }

  /** Multiplication wraps around. */
  predicate MultipleOfPow5(value: nat, e5: nat)
    requires value < TWO64 && e5 <= 24
  {
    value * Mod5(e5).mul % TWO64 <= Mod5(e5).cmp
  }

  /** An entry holds the inverse of d modulo 2^64, k times 2^64 too large, and the largest quotient. */
  predicate IsEntry(m: MulCmp, d: nat, k: nat) {
    d > 0 && m.mul * d == 1 + k * TWO64 && m.cmp * d <= TWO64 - 1 < (m.cmp + 1) * d
  }

  lemma PowersOf5()
    ensures PowerOf5(0) == 1 && PowerOf5(1) == 5 && PowerOf5(2) == 25
    ensures PowerOf5(3) == 125 && PowerOf5(4) == 625 && PowerOf5(5) == 3125
    ensures PowerOf5(6) == 15625 && PowerOf5(7) == 78125 && PowerOf5(8) == 390625
    ensures PowerOf5(9) == 1953125 && PowerOf5(10) == 9765625 && PowerOf5(11) == 48828125
    ensures PowerOf5(12) == 244140625 && PowerOf5(13) == 1220703125 && PowerOf5(14) == 6103515625
    ensures PowerOf5(15) == 30517578125 && PowerOf5(16) == 152587890625 && PowerOf5(17) == 762939453125
    ensures PowerOf5(18) == 3814697265625 && PowerOf5(19) == 19073486328125 && PowerOf5(20) == 95367431640625
    ensures PowerOf5(21) == 476837158203125 && PowerOf5(22) == 2384185791015625 && PowerOf5(23) == 11920928955078125
    ensures PowerOf5(24) == 59604644775390625
  {
  }

  /** Every entry of the table is what it should be. */
  lemma Entry(e5: nat) returns (k: nat)
    requires e5 <= 24
    ensures IsEntry(Mod5(e5), PowerOf5(e5), k)
  {
    PowersOf5();
    hide PowerOf5;
    match e5
    case 0 => k := 0;
    case 1 => k := 4;
    case 2 => k := 14;
    case 3 => k := 14;
    case 4 => k := 514;
    case 5 => k := 1139;
    case 6 => k := 7389;
    case 7 => k := 69889;
    case 8 => k := 304264;
    case 9 => k := 1085514;
    case 10 => k := 3038639;
    case 11 => k := 3038639;
    case 12 => k := 51866764;
    case 13 => k := 784288639;
    case 14 => k := 2004991764;
    case 15 => k := 14212023014;
    case 16 => k := 136282335514;
    case 17 => k := 594046007389;
    case 18 => k := 2882864366764;
    case 19 => k := 2882864366764;
    case 20 => k := 79176809679264;
    case 21 => k := 269911672960514;
    case 22 => k := 746748831163639;
    case 23 => k := 10283491995226139;
    case 24 => k := 10283491995226139;
  }

  /** The wrapped product is small exactly for the multiples. */
  lemma SmallIffMultiple(value: nat, m: MulCmp, d: nat, k: nat)
    requires value < TWO64 && IsEntry(m, d, k)
    ensures value * m.mul % TWO64 <= m.cmp <==> value % d == 0
  {
    var r, q := value * m.mul % TWO64, value * m.mul / TWO64;
    if r <= m.cmp {
      Unwrapped(value, m, d, k, q, r);
    }
    if value % d == 0 {
      Multiple(value, m, d, k, value / d);
    }
  }

  lemma Expand(v: nat, m: nat, d: nat, k: nat, q: nat, r: nat, n: nat)
    requires v * m == q * n + r && m * d == 1 + k * n
    ensures v * k * n + v == q * d * n + r * d
  {
    Product(v, m, d);
    TimesSum(v, k, n, m * d);
    SumTimes(q, n, r, d, v * m);
  }

  lemma Product(a: nat, b: nat, c: nat)
    ensures a * b * c == a * (b * c)
  {
  }

  lemma TimesSum(v: nat, k: nat, n: nat, x: nat)
    requires x == 1 + k * n
    ensures v * x == v * k * n + v
  {
  }

  lemma SumTimes(q: nat, n: nat, r: nat, d: nat, x: nat)
    requires x == q * n + r
    ensures x * d == q * d * n + r * d
  {
  }

  /** What is small is the quotient. */
  lemma Unwrapped(value: nat, m: MulCmp, d: nat, k: nat, q: nat, r: nat)
    requires value < TWO64 && IsEntry(m, d, k) && value * m.mul == q * TWO64 + r && r <= m.cmp
    ensures value == r * d && value % d == 0
  {
    MulLe(r, m.cmp, d);
    Expand(value, m.mul, d, k, q, r, TWO64);
    SameQuotient(TWO64, value * k, value, q * d, r * d);
    DivModUnique(value, d, r, 0);
  }

  /** A multiple times the inverse wraps to its quotient. */
  lemma Multiple(value: nat, m: MulCmp, d: nat, k: nat, q: nat)
    requires value < TWO64 && IsEntry(m, d, k) && value == q * d
    ensures value * m.mul % TWO64 == q <= m.cmp
  {
    assert q * d * m.mul == q * (m.mul * d);
    assert q * (1 + k * TWO64) == q * k * TWO64 + q;
    MulLe(1, d, q);
    DivModUnique(value * m.mul, TWO64, q * k, q);
    if q > m.cmp {
      MulLe(m.cmp + 1, q, d);
    }
  }

  /** The test says whether the power of five divides the number. */
  lemma MultipleIffDivides(value: nat, e5: nat)
    requires value < TWO64 && e5 <= 24
    ensures MultipleOfPow5(value, e5) <==> value % PowerOf5(e5) == 0
  {
    var k := Entry(e5);
    SmallIffMultiple(value, Mod5(e5), PowerOf5(e5), k);
  }
}
