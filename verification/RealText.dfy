/**
 * The text of a decimal significand and exponent, and which texts are numbers of RFC 8259 that denote
 * the same value.
 */
module RealText {
  import opened Base
  import opened Decimal
  import opened Number

  function Zeros(n: nat): (r: bytes)
    ensures |r| == n
  {
    seq(n, i => 0x30)
  }

  /** How many of the k low digits of n, from the last one on, are zeros. */
  function ZerosOf(n: nat, k: nat): (z: nat)
    ensures z <= k
  {
    if k == 0 || n % 10 != 0 then 0 else 1 + ZerosOf(n / 10, k - 1)
  }

  lemma {:induction false} ZerosSplit(n: nat, a: nat, b: nat)
    ensures ZerosOf(n, a + b) == if ZerosOf(n, b) == b then b + ZerosOf(Quotient(n, Pow10(b)), a) else ZerosOf(n, b)
  {
    if b > 0 && n % 10 == 0 {
      ZerosSplit(n / 10, a, b - 1);
      DivDiv(n, 10, Pow10(b - 1));
    }
  }

  lemma {:induction false} LowZeros(n: nat, k: nat)
    ensures ZerosOf(Remainder(n, Pow10(k)), k) == ZerosOf(n, k)
  {
    if k > 0 {
      ModTen(n, Pow10(k - 1));
      LowZeros(n / 10, k - 1);
      ZerosStep(n, k, Remainder(n, Pow10(k)), Remainder(n / 10, Pow10(k - 1)));
    }
  }

  lemma ZerosStep(n: nat, k: nat, low: nat, low': nat)
    requires k > 0 && low == 10 * low' + n % 10 && ZerosOf(low', k - 1) == ZerosOf(n / 10, k - 1)
    ensures ZerosOf(low, k) == ZerosOf(n, k)
  {
    assert low / 10 == low' && low % 10 == n % 10;
  }

  /** The number of trailing zeros of d. */
  function Cut(d: nat): (z: nat)
    ensures z <= NumDigits(d)
  {
    ZerosOf(d, NumDigits(d))
  }

  /** The digits of d without the trailing zeros. */
  function Core(d: nat): (r: bytes)
    ensures |r| + Cut(d) == NumDigits(d)
  {
    Digits(d)[..NumDigits(d) - Cut(d)]
  }

  lemma {:induction false} TrailingZeros(n: nat, k: nat)
    ensures Padded(n, k) == Padded(n, k)[..k - ZerosOf(n, k)] + Zeros(ZerosOf(n, k))
  {
    if k > 0 && n % 10 == 0 {
      TrailingZeros(n / 10, k - 1);
      var z := ZerosOf(n / 10, k - 1);
      assert Zeros(z + 1) == Zeros(z) + [0x30];
    }
  }

  /** The digits of an exponent, written as if it had at most three. */
  function ExponentDigits(k: nat): bytes
    requires k <= 20000
  {
    if k < 10 then [0x30 + k] else if k < 100 then Padded(k, 2) else [0x30 + k / 100] + Padded(k % 100, 2)
  }

  const MIN_FIXED: int := -6
  const MAX_FIXED: int := 17

  predicate IsFixed(point: int) {
    MIN_FIXED <= point <= MAX_FIXED
  }

  /** 0.[000]digits. */
  function FractionText(core: bytes, k: nat): bytes {
    [0x30, '.' as int] + Zeros(k) + core
  }

  /** dig.its. */
  function PointText(core: bytes, point: nat): bytes
    requires point <= |core|
  {
    core[..point] + ['.' as int] + core[point..]
  }

  /** digits[000] or digits[000].0. */
  function WholeText(core: bytes, k: nat, force: bool): bytes {
    core + Zeros(k) + if force then ['.' as int, 0x30] else []
  }

  function PlainText(core: bytes, point: int, force: bool): bytes {
    if point <= 0 then FractionText(core, 0 - point)
    else if point < |core| then PointText(core, point)
    else WholeText(core, point - |core|, force)
  }

  function ScientificText(core: bytes, exponent: int): bytes
    requires core != [] && -20000 <= exponent <= 20000
  {
    core[..1] + (if |core| == 1 then [] else ['.' as int] + core[1..])
    + (if exponent < 0 then ['e' as int, '-' as int] + ExponentDigits(0 - exponent)
       else ['e' as int, '+' as int] + ExponentDigits(exponent))
  }

  /** The text of digits * 10^exponent; force asks for a fraction even where the value is whole. */
  function DigitsText(digits: nat, exponent: int, force: bool): bytes
    requires 1 <= digits < 100000000000000000 && -999 <= exponent <= 999
  {
    CoreNotEmpty(digits);
    AtMost17(digits);
    var point := NumDigits(digits) + exponent;
    if IsFixed(point) then PlainText(Core(digits), point, force) else ScientificText(Core(digits), point - 1)
  }

  lemma {:induction false} LeadNotZero(n: nat, k: nat)
    requires n > 0 && k == NumDigits(n)
    ensures ZerosOf(n, k) < k
  {
    if n >= 10 && n % 10 == 0 {
      LeadNotZero(n / 10, k - 1);
    }
  }

  lemma CoreNotEmpty(d: nat)
    requires d > 0
    ensures |Core(d)| > 0 && Digits(d) == Core(d) + Zeros(Cut(d))
    ensures Core(d)[0] == Digits(d)[0] && AllDigits(Core(d))
  {
    LeadNotZero(d, NumDigits(d));
    TrailingZeros(d, NumDigits(d));
  }

  lemma AtMost17(d: nat)
    requires d < 100000000000000000
    ensures NumDigits(d) <= 17
  {
    NumDigitsBounds(d);
    if NumDigits(d) >= 18 {
      Pow10Of17();
      Pow10Monotone(17, NumDigits(d) - 1);
    }
  }

  lemma Pow10Of17()
    ensures Pow10(17) == 100000000000000000
  {
    Pow10Of19();
    assert Pow10(18) == 10 * Pow10(17);
  }

  /** What the shortest-decimal conversion may return. */
  predicate IsShortest(sig: nat, exp: int) {
    sig < 100000000000000000 && -999 <= exp <= 999
  }

  /** The text of (-1)^neg * sig * 10^exp. */
  function DoubleText(neg: bool, sig: nat, exp: int): bytes
    requires IsShortest(sig, exp)
  {
    (if neg then ['-' as int] else []) + if sig == 0 then [0x30, '.' as int, 0x30] else DigitsText(sig, exp, true)
  }

  // ----- What the text denotes -----

  function Scaled(c: nat, k: nat): nat {
    c * Pow10(k)
  }

  /** s * 10^e and s' * 10^e' are the same number. */
  predicate SameReal(s: nat, e: int, s': nat, e': int) {
    if e >= e' then s * Pow10(e - e') == s' else s == s' * Pow10(e' - e)
  }

  function FractionLiteral(neg: bool, core: bytes, k: nat): Literal {
    Literal(neg, [0x30], Zeros(k) + core, 'e' as int, [], [])
  }

  function PointLiteral(neg: bool, core: bytes, point: nat): Literal
    requires point <= |core|
  {
    Literal(neg, core[..point], core[point..], 'e' as int, [], [])
  }

  function WholeLiteral(neg: bool, core: bytes, k: nat): Literal {
    Literal(neg, core + Zeros(k), [0x30], 'e' as int, [], [])
  }

  function PlainLiteral(neg: bool, core: bytes, point: int): Literal {
    if point <= 0 then FractionLiteral(neg, core, 0 - point)
    else if point < |core| then PointLiteral(neg, core, point)
    else WholeLiteral(neg, core, point - |core|)
  }

  function ScientificLiteral(neg: bool, core: bytes, exponent: int): Literal
    requires core != [] && -1000 < exponent < 1000
  {
    if exponent < 0 then Literal(neg, core[..1], core[1..], 'e' as int, ['-' as int], ExponentDigits(0 - exponent))
    else Literal(neg, core[..1], core[1..], 'e' as int, ['+' as int], ExponentDigits(exponent))
  }

  lemma {:induction false} ZerosVal(n: nat)
    ensures AllDigits(Zeros(n)) && Val(Zeros(n)) == 0
  {
    if n > 0 {
      ZerosVal(n - 1);
      assert Zeros(n)[..n - 1] == Zeros(n - 1);
    }
  }

  lemma LeadingZeros(k: nat, ds: bytes)
    requires AllDigits(ds)
    ensures AllDigits(Zeros(k) + ds) && Val(Zeros(k) + ds) == Val(ds)
  {
    ZerosVal(k);
    ValConcat(Zeros(k), ds);
  }

  lemma DigitVal(d: nat)
    requires d < 10
    ensures AllDigits([0x30 + d]) && Val([0x30 + d]) == d
  {
    assert [0x30 + d] == [] + [0x30 + d];
    Append([], 0x30 + d);
  }

  lemma Hundred()
    ensures Pow10(2) == 100
  {
  }

  lemma TwoDigitsVal(b: nat)
    requires b < 100
    ensures AllDigits(Padded(b, 2)) && Val(Padded(b, 2)) == b
  {
    hide Val, Pow10, Padded;
    Hundred();
    PaddedVal(b, 2);
  }

  lemma ThreeDigitsVal(a: nat, b: nat)
    requires a < 10 && b < 100
    ensures AllDigits([0x30 + a] + Padded(b, 2)) && Val([0x30 + a] + Padded(b, 2)) == 100 * a + b
  {
    hide Val, Pow10, Padded, AllDigits;
    TwoDigitsVal(b);
    DigitVal(a);
    Hundred();
    ValConcat([0x30 + a], Padded(b, 2));
  }

  lemma ExponentVal(k: nat)
    requires k < 1000
    ensures AllDigits(ExponentDigits(k)) && ExponentDigits(k) != [] && Val(ExponentDigits(k)) == k
  {
    hide Val, Padded, Pow10, AllDigits;
    if k < 10 {
      DigitVal(k);
    } else if k < 100 {
      TwoDigitsVal(k);
    } else {
      ThreeDigitsVal(k / 100, k % 100);
    }
  }

  /** The literal has the text behind its sign, is no integer, and denotes c * 10^scale. */
  predicate Reads(l: Literal, neg: bool, text: bytes, c: nat, scale: int) {
    && WfLiteral(l) && l.neg == neg && Unparse(l) == Minus(l) + text
    && (l.frac != [] || l.exp != []) && Val(l.exp) < 1000
    && Coefficient(l) == c && Scale(l) == scale
  }

  lemma Assembled(l: Literal, text: bytes)
    requires WfLiteral(l) && l.exp == [] && l.frac != [] && text == l.whole + (['.' as int] + l.frac)
    ensures Reads(l, l.neg, text, Val(l.whole + l.frac), 0 - |l.frac|)
  {
    assert Val([]) == 0;
    assert Unparse(l) == Minus(l) + text;
  }

  lemma AssembledScientific(l: Literal, text: bytes)
    requires WfLiteral(l) && l.exp != [] && Val(l.exp) < 1000
    requires text == l.whole + FracText(l) + ([l.mark] + l.sign + l.exp)
    ensures Reads(l, l.neg, text, Val(l.whole + l.frac),
      (if l.sign == ['-' as int] then 0 - Val(l.exp) else Val(l.exp)) - |l.frac|)
  {
    hide Val, LiteralAcc;
    JoinParts(Minus(l), l.whole, FracText(l), [l.mark] + l.sign + l.exp);
  }

  lemma JoinParts(a: bytes, b: bytes, c: bytes, d: bytes)
    ensures a + b + c + d == a + (b + c + d)
  {
  }

  lemma SlicesOf(ds: bytes, i: nat)
    requires AllDigits(ds) && i <= |ds|
    ensures AllDigits(ds[..i]) && AllDigits(ds[i..]) && ds[..i] + ds[i..] == ds
  {
  }

  lemma TwoBytes(a: byte, b: byte)
    ensures [a] + [b] == [a, b]
  {
  }

  lemma Regrouped(a: bytes, b: bytes, c: bytes, d: bytes)
    ensures a + (b + (c + d)) == a + b + c + d
  {
  }

  lemma FractionParts(core: bytes, k: nat)
    ensures [0x30] + (['.' as int] + (Zeros(k) + core)) == FractionText(core, k)
    ensures [0x30] + (Zeros(k) + core) == Zeros(k + 1) + core
  {
    assert Zeros(k + 1) == [0x30] + Zeros(k);
    hide Zeros;
    TwoBytes(0x30, '.' as int);
    Regrouped([0x30], ['.' as int], Zeros(k), core);
    Regrouped([], [0x30], Zeros(k), core);
  }

  lemma ZeroDigit()
    ensures AllDigits([]) && AllDigits([0x30])
  {
  }

  /** 0.[000]digits denotes the digits behind so many zeros. */
  lemma FractionReads(neg: bool, core: bytes, k: nat)
    requires AllDigits(core) && core != []
    ensures Reads(FractionLiteral(neg, core, k), neg, FractionText(core, k), Val(core), 0 - k - |core|)
  {
    ZeroDigit();
    hide FractionText, Zeros, Val, Pow10, AllDigits, Reads;
    LeadingZeros(k, core);
    LeadingZeros(k + 1, core);
    FractionParts(core, k);
    var l := FractionLiteral(neg, core, k);
    assert WfLiteral(l);
    Assembled(l, FractionText(core, k));
  }

  lemma PointParts(core: bytes, point: nat)
    requires AllDigits(core) && point <= |core|
    ensures core[..point] + (['.' as int] + core[point..]) == PointText(core, point)
    ensures AllDigits(core[..point]) && AllDigits(core[point..]) && core[..point] + core[point..] == core
  {
  }

  /** dig.its denotes the digits with so many of them behind the point. */
  lemma PointReads(neg: bool, core: bytes, point: nat)
    requires AllDigits(core) && core != [] && core[0] != 0x30 && 0 < point < |core|
    ensures Reads(PointLiteral(neg, core, point), neg, PointText(core, point), Val(core), point - |core|)
  {
    assert AllDigits([]);
    hide PointText, Val, AllDigits, Reads;
    PointParts(core, point);
    var l := PointLiteral(neg, core, point);
    assert l.whole[0] == core[0];
    assert WfLiteral(l);
    Assembled(l, PointText(core, point));
  }

  lemma WholeParts(core: bytes, k: nat)
    requires AllDigits(core)
    ensures core + Zeros(k) + (['.' as int] + [0x30]) == WholeText(core, k, true)
    ensures AllDigits(core + Zeros(k) + [0x30]) && Val(core + Zeros(k) + [0x30]) == Scaled(Val(core), k + 1)
  {
    assert Zeros(k + 1) == Zeros(k) + [0x30];
    TrailingZerosVal(core, k + 1);
    hide Zeros;
    TwoBytes('.' as int, 0x30);
    assert core + Zeros(k) + [0x30] == core + Zeros(k + 1);
  }

  /** digits[000].0 denotes the digits, so many zeros and one more behind the point. */
  lemma WholeReads(neg: bool, core: bytes, k: nat)
    requires AllDigits(core) && core != [] && core[0] != 0x30
    ensures Reads(WholeLiteral(neg, core, k), neg, WholeText(core, k, true), Scaled(Val(core), k + 1), -1)
  {
    TrailingZerosVal(core, k);
    WholeParts(core, k);
    hide WholeText, Zeros, Scaled;
    Assembled(WholeLiteral(neg, core, k), WholeText(core, k, true));
  }

  lemma TrailingZerosVal(ds: bytes, k: nat)
    requires AllDigits(ds)
    ensures AllDigits(ds + Zeros(k)) && Val(ds + Zeros(k)) == Scaled(Val(ds), k)
  {
    ZerosVal(k);
    ValConcat(ds, Zeros(k));
  }

  lemma ScientificParts(neg: bool, core: bytes, exponent: int)
    requires core != [] && -1000 < exponent < 1000
    ensures var l := ScientificLiteral(neg, core, exponent);
      l.whole + FracText(l) + ([l.mark] + l.sign + l.exp) == ScientificText(core, exponent)
  {
    hide ExponentDigits;
    assert core[1..] == [] <==> |core| == 1;
    TwoBytes('e' as int, '-' as int);
    TwoBytes('e' as int, '+' as int);
  }

  lemma ScientificShape(neg: bool, core: bytes, exponent: int)
    requires AllDigits(core) && core != [] && core[0] != 0x30 && -1000 < exponent < 1000
    ensures var l := ScientificLiteral(neg, core, exponent);
      && WfLiteral(l) && l.neg == neg && l.whole + l.frac == core && |l.frac| == |core| - 1 && l.exp != []
      && Val(l.exp) == (if exponent < 0 then 0 - exponent else exponent) && (l.sign == ['-' as int] <==> exponent < 0)
  {
    hide Val, ExponentDigits, AllDigits;
    ExponentVal(if exponent < 0 then 0 - exponent else exponent);
    SlicesOf(core, 1);
    OneSlice(core);
  }

  lemma OneSlice(ds: bytes)
    requires ds != []
    ensures |ds[..1]| == 1 && ds[..1][0] == ds[0]
  {
  }

  /** d.igitse+123 denotes the digits with the exponent moved behind them. */
  lemma ScientificReads(neg: bool, core: bytes, exponent: int)
    requires AllDigits(core) && core != [] && core[0] != 0x30 && -1000 < exponent < 1000
    ensures Reads(ScientificLiteral(neg, core, exponent), neg, ScientificText(core, exponent), Val(core), exponent + 1 - |core|)
  {
    hide ScientificLiteral, WfLiteral, Val, AllDigits, ScientificText, Reads, FracText;
    ScientificShape(neg, core, exponent);
    ScientificParts(neg, core, exponent);
    AssembledScientific(ScientificLiteral(neg, core, exponent), ScientificText(core, exponent));
  }

  // ----- Reading back -----

  /** The digits and the exponent of a text make the same number as those it was made of. */
  lemma CoreValue(sig: nat) returns (z: nat)
    requires sig > 0
    ensures |Core(sig)| > 0 && AllDigits(Core(sig)) && Core(sig)[0] != 0x30
    ensures |Core(sig)| + z == NumDigits(sig) && Scaled(Val(Core(sig)), z) == sig
  {
    CoreNotEmpty(sig);
    DigitsLead(sig);
    DigitsValue(sig);
    hide Core, Cut, Digits, Val, Zeros, Scaled, AllDigits;
    z := Cut(sig);
    TrailingZerosVal(Core(sig), z);
  }

  /** The exponent has at most three digits. */
  predicate InRange(sig: nat, exp: int) {
    sig == 0 || NumDigits(sig) + exp <= 1000
  }

  /** The literal a double is printed as. */
  function DoubleLiteral(neg: bool, sig: nat, exp: int): Literal
    requires IsShortest(sig, exp) && InRange(sig, exp)
  {
    if sig == 0 then Literal(neg, [0x30], [0x30], 'e' as int, [], [])
    else
      CoreNotEmpty(sig);
      var point := NumDigits(sig) + exp;
      if IsFixed(point) then PlainLiteral(neg, Core(sig), point) else ScientificLiteral(neg, Core(sig), point - 1)
  }

  lemma CoreScales(c: nat, z: nat, sig: nat, exp: int)
    requires Scaled(c, z) == sig
    ensures SameReal(c, z + exp, sig, exp)
  {
  }

  lemma MulAssoc(a: nat, b: nat, c: nat)
    ensures a * b * c == a * (b * c)
  {
  }

  lemma WholeScales(c: nat, z: nat, sig: nat, exp: int)
    requires Scaled(c, z) == sig && z + exp >= 0
    ensures SameReal(Scaled(c, z + exp + 1), -1, sig, exp)
  {
    var m: nat := z + exp + 1;
    if exp <= -1 {
      Pow10Add(m, -1 - exp);
      MulAssoc(c, Pow10(m), Pow10(-1 - exp));
    } else {
      Pow10Add(z, exp + 1);
      MulAssoc(c, Pow10(z), Pow10(exp + 1));
    }
  }

  const SIGNIFICANT: nat := Pow10(MAX_SIG_DIGITS)

  lemma CoreBound(sig: nat)
    requires 0 < sig && NumDigits(sig) <= 17
    ensures |Core(sig)| <= 17 && AllDigits(Core(sig)) && Val(Core(sig)) < SIGNIFICANT
  {
    CoreNotEmpty(sig);
    ValBound(Core(sig));
    Pow10Monotone(|Core(sig)|, 19);
  }

  lemma LessScaled(a: nat, b: nat, m: nat)
    requires a < b && m > 0
    ensures a * m < b * m
  {
  }

  lemma ScaledBelow(c: nat, n: nat, k: nat)
    requires c < Pow10(n)
    ensures Scaled(c, k) < Pow10(n + k)
  {
    Pow10Add(n, k);
    LessScaled(c, Pow10(n), Pow10(k));
  }

  lemma WholeBound(core: bytes, point: int)
    requires AllDigits(core) && |core| <= point <= 17
    ensures Scaled(Val(core), point - |core| + 1) < SIGNIFICANT
  {
    hide Val, Pow10, Scaled;
    ValBound(core);
    BelowSignificant(Val(core), |core|, point - |core| + 1);
  }

  lemma BelowSignificant(c: nat, n: nat, k: nat)
    requires c < Pow10(n) && n + k <= MAX_SIG_DIGITS
    ensures Scaled(c, k) < SIGNIFICANT
  {
    hide Pow10, Scaled;
    ScaledBelow(c, n, k);
    Pow10Monotone(n + k, MAX_SIG_DIGITS);
  }

  /** The plain form of a number with digits core, of which the point stands behind so many. */
  lemma PlainReads(neg: bool, core: bytes, point: int) returns (c: nat, scale: int)
    requires AllDigits(core) && core != [] && core[0] != 0x30
    ensures Reads(PlainLiteral(neg, core, point), neg, PlainText(core, point, true), c, scale)
    ensures c == if point < |core| then Val(core) else Scaled(Val(core), point - |core| + 1)
    ensures scale == if point < |core| then point - |core| else -1
  {
    hide Val, FractionText, PointText, WholeText, Reads, Scaled;
    c, scale := Val(core), point - |core|;
    if point <= 0 {
      FractionReads(neg, core, 0 - point);
    } else if point < |core| {
      PointReads(neg, core, point);
    } else {
      WholeReads(neg, core, point - |core|);
      c, scale := Scaled(Val(core), point - |core| + 1), -1;
    }
  }

  lemma ScientificCase(neg: bool, sig: nat, exp: int, point: int)
    requires IsShortest(sig, exp) && InRange(sig, exp) && sig > 0 && point == NumDigits(sig) + exp && !IsFixed(point)
    ensures Reads(DoubleLiteral(neg, sig, exp), neg, DigitsText(sig, exp, true), Val(Core(sig)), point - |Core(sig)|)
  {
    CoreNotEmpty(sig);
    DigitsLead(sig);
    AtMost17(sig);
    hide Val, Core, Digits, ScientificText, ScientificLiteral, Reads;
    ScientificReads(neg, Core(sig), point - 1);
  }

  lemma PlainCase(neg: bool, sig: nat, exp: int, point: int) returns (c: nat, scale: int)
    requires IsShortest(sig, exp) && InRange(sig, exp) && sig > 0 && point == NumDigits(sig) + exp && IsFixed(point)
    ensures Reads(DoubleLiteral(neg, sig, exp), neg, DigitsText(sig, exp, true), c, scale)
    ensures c == if point < |Core(sig)| then Val(Core(sig)) else Scaled(Val(Core(sig)), point - |Core(sig)| + 1)
    ensures scale == if point < |Core(sig)| then point - |Core(sig)| else -1
  {
    CoreNotEmpty(sig);
    DigitsLead(sig);
    hide Val, Core, Digits, PlainText, PlainLiteral, Reads, Scaled;
    c, scale := PlainReads(neg, Core(sig), point);
  }

  lemma NonzeroReads(neg: bool, sig: nat, exp: int) returns (c: nat, scale: int)
    requires IsShortest(sig, exp) && InRange(sig, exp) && sig > 0
    ensures Reads(DoubleLiteral(neg, sig, exp), neg, DigitsText(sig, exp, true), c, scale)
    ensures SameReal(c, scale, sig, exp) && c < SIGNIFICANT
  {
    var z := CoreValue(sig);
    AtMost17(sig);
    CoreBound(sig);
    var core, point := Core(sig), NumDigits(sig) + exp;
    CoreScales(Val(core), z, sig, exp);
    hide Val, Core, NumDigits, Reads, SameReal, Pow10, DoubleLiteral, DigitsText, Scaled;
    if IsFixed(point) {
      c, scale := PlainCase(neg, sig, exp, point);
      if point >= |core| {
        WholeScales(Val(core), z, sig, exp);
        WholeBound(core, point);
      }
    } else {
      ScientificCase(neg, sig, exp, point);
      c, scale := Val(core), z + exp;
    }
  }

  lemma ZeroReads(neg: bool)
    ensures Reads(Literal(neg, [0x30], [0x30], 'e' as int, [], []), neg, [0x30, '.' as int, 0x30], 0, -1)
  {
    var l := Literal(neg, [0x30], [0x30], 'e' as int, [], []);
    TwoBytes(0x30, 0x30);
    assert Val([0x30]) == 0 by { DigitVal(0); }
    Append([0x30], 0x30);
    assert [0x30] + (['.' as int] + [0x30]) == [0x30, '.' as int, 0x30];
    Assembled(l, [0x30, '.' as int, 0x30]);
  }

  lemma EventOf(l: Literal, neg: bool, text: bytes, c: nat, scale: int)
    requires Reads(l, neg, text, c, scale) && c < SIGNIFICANT
    ensures LiteralEvent(l) == Real(neg, c, scale)
  {
    hide Unparse, Coefficient, Scale, LiteralAcc, Val, Pow10, AllDigits;
    var k := SignificandKept(l);
  }

  /**
   * The parser reads the text of a double as a real with no digit dropped, and it is the decimal that was
   * printed. The one condition is that the exponent has at most three digits.
   */
  lemma DoubleReadsBack(neg: bool, sig: nat, exp: int) returns (c: nat, scale: int)
    requires IsShortest(sig, exp) && InRange(sig, exp)
    ensures var l := DoubleLiteral(neg, sig, exp);
      && WfLiteral(l) && Unparse(l) == DoubleText(neg, sig, exp) && Val(l.exp) < 1000
      && LiteralEvent(l) == Real(neg, c, scale) && SameReal(c, scale, sig, exp)
  {
    var l := DoubleLiteral(neg, sig, exp);
    var text := if sig == 0 then [0x30, '.' as int, 0x30] else DigitsText(sig, exp, true);
    if sig == 0 {
      ZeroReads(neg);
      c, scale := 0, -1;
    } else {
      c, scale := NonzeroReads(neg, sig, exp);
    }
    hide SameReal, DigitsText, DoubleLiteral, LiteralEvent, Val;
    EventOf(l, neg, text, c, scale);
  }

  // ----- Which texts are numbers -----

  predicate IsNumberByte(b: byte) {
    IsDigit(b) || b in {'-' as int, '+' as int, '.' as int, 'e' as int, 'E' as int}
  }

  predicate NumberBytes(s: bytes) {
    forall i | 0 <= i < |s| :: IsNumberByte(s[i])
  }

  lemma LiteralBytes(l: Literal)
    requires WfLiteral(l)
    ensures NumberBytes(Unparse(l))
  {
    assert NumberBytes(Minus(l)) && NumberBytes(l.whole) && NumberBytes(FracText(l));
    assert NumberBytes(l.sign) && NumberBytes(ExpText(l));
  }

  ghost predicate IsNumber(s: bytes) {
    exists l :: WfLiteral(l) && Unparse(l) == s
  }

  /** The text is a number of the grammar exactly when its exponent has at most three digits. */
  lemma TextIsNumberIff(neg: bool, sig: nat, exp: int)
    requires IsShortest(sig, exp)
    ensures IsNumber(DoubleText(neg, sig, exp)) <==> InRange(sig, exp)
  {
    if InRange(sig, exp) {
      var c, scale := DoubleReadsBack(neg, sig, exp);
    } else {
      LongExponent(neg, sig, exp);
      forall l | WfLiteral(l) ensures Unparse(l) != DoubleText(neg, sig, exp) {
        LiteralBytes(l);
      }
    }
  }

  /** The first of two digits is written from a number above nine. */
  lemma LongExponent(neg: bool, sig: nat, exp: int)
    requires IsShortest(sig, exp) && !InRange(sig, exp)
    ensures !NumberBytes(DoubleText(neg, sig, exp))
  {
    var text := DoubleText(neg, sig, exp);
    AtMost17(sig);
    CoreNotEmpty(sig);
    var k := NumDigits(sig) + exp - 1;
    assert ExponentDigits(k)[0] == 0x30 + k / 100 >= 0x3A;
    assert text[|text| - 3] == ExponentDigits(k)[0];
  }
}
