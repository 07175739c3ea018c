/**
 * Which text a double is printed as: in digits with a point from 10^-7 up to 10^17, else with an exponent, and in
 * both forms without a digit that says nothing.
 */
module RealForm {
  import opened Base
  import opened Decimal
  import opened Number
  import opened RealText

  /** 10^-7 <= sig * 10^exp < 10^17, for a significand that is not 0. */
  predicate Between(sig: nat, exp: int) {
    if exp >= 0 then sig * Pow10(exp) < 100000000000000000
    else Pow10(0 - exp) <= sig * 10000000 && sig < 100000000000000000 * Pow10(0 - exp)
  }

  lemma Tens()
    ensures Pow10(7) == 10000000 && Pow10(17) == 100000000000000000
  {
    Pow10Of17();
    assert Pow10(4) == 10000;
    Pow10Add(4, 3);
  }

  /** A number of n digits with e more behind them. */
  lemma Large(sig: nat, n: nat, e: nat)
    requires n > 0 && Pow10(n - 1) <= sig < Pow10(n)
    ensures sig * Pow10(e) < 100000000000000000 <==> n + e <= 17
  {
    Tens();
    hide Pow10;
    if n + e <= 17 {
      Pow10Add(n, e);
      Pow10Monotone(n + e, 17);
      Below(sig, Pow10(n), Pow10(e));
    } else {
      Pow10Add(n - 1, e);
      Pow10Monotone(17, n - 1 + e);
      MulLe(Pow10(n - 1), sig, Pow10(e));
    }
  }

  lemma Below(a: nat, b: nat, d: nat)
    requires a < b && d > 0
    ensures a * d < b * d
  {
  }

  /** A number of n digits divided by 10^e. */
  lemma Small(sig: nat, n: nat, e: nat)
    requires n > 0 && Pow10(n - 1) <= sig < Pow10(n)
    ensures Pow10(e) <= sig * 10000000 <==> e <= n + 6
  {
    Tens();
    hide Pow10;
    if e <= n + 6 {
      Pow10Add(n - 1, 7);
      Pow10Monotone(e, n + 6);
      MulLe(Pow10(n - 1), sig, 10000000);
    } else {
      Pow10Add(n, 7);
      Pow10Monotone(n + 7, e);
      Below(sig, Pow10(n), 10000000);
    }
  }

  lemma Widened(sig: nat, e: nat)
    requires sig < 100000000000000000
    ensures sig < 100000000000000000 * Pow10(e)
  {
    MulLe(1, Pow10(e), 100000000000000000);
  }

  /** The position of the point says whether the value lies between the bounds. */
  lemma PointBetween(sig: nat, exp: int)
    requires IsShortest(sig, exp) && sig > 0
    ensures Between(sig, exp) <==> -6 <= NumDigits(sig) + exp <= 17
  {
    var n := NumDigits(sig);
    NumDigitsBounds(sig);
    AtMost17(sig);
    hide Pow10, NumDigits;
    if exp >= 0 {
      Large(sig, n, exp);
    } else {
      Small(sig, n, 0 - exp);
      Widened(sig, 0 - exp);
    }
  }

  // ----- The exponent -----

  predicate HasMark(text: bytes) {
    0x65 in text
  }

  lemma MarkConcat(a: bytes, b: bytes)
    ensures HasMark(a + b) <==> HasMark(a) || HasMark(b)
  {
  }

  lemma NoMark(ds: bytes)
    requires AllDigits(ds)
    ensures !HasMark(ds)
  {
  }

  lemma PlainHasNone(core: bytes, point: int)
    requires AllDigits(core)
    ensures !HasMark(PlainText(core, point, true))
  {
    NoMark(core);
    if 0 < point < |core| {
      NoMark(core[..point]);
      NoMark(core[point..]);
    }
  }

  lemma ScientificHasOne(core: bytes, exponent: int)
    requires core != [] && -20000 <= exponent <= 20000
    ensures HasMark(ScientificText(core, exponent))
  {
    var front := core[..1] + (if |core| == 1 then [] else ['.' as int] + core[1..]);
    assert ScientificText(core, exponent)[|front|] == 0x65;
  }

  /** A double is written with an exponent exactly when it is not 0 and does not lie between 10^-7 and 10^17. */
  lemma HasExponentIff(neg: bool, sig: nat, exp: int)
    requires IsShortest(sig, exp)
    ensures 0x65 in DoubleText(neg, sig, exp) <==> sig > 0 && !Between(sig, exp)
  {
    if sig > 0 {
      PointBetween(sig, exp);
      CoreNotEmpty(sig);
      AtMost17(sig);
      hide Between, NumDigits, PlainText, ScientificText, Core;
      var point := NumDigits(sig) + exp;
      if IsFixed(point) {
        PlainHasNone(Core(sig), point);
      } else {
        ScientificHasOne(Core(sig), point - 1);
      }
      MarkConcat(if neg then ['-' as int] else [], DigitsText(sig, exp, true));
    }
  }

  // ----- The digits -----

  lemma {:induction false} LastDigit(n: nat, k: nat)
    requires ZerosOf(n, k) < k
    ensures Padded(n, k)[k - 1 - ZerosOf(n, k)] != 0x30
  {
    if n % 10 == 0 {
      LastDigit(n / 10, k - 1);
    }
  }

  /** The digits that are written end with no zero. */
  lemma CoreEnds(d: nat)
    requires d > 0
    ensures Core(d) != [] && Core(d)[|Core(d)| - 1] != 0x30 && Core(d)[0] != 0x30
  {
    var n := NumDigits(d);
    LeadNotZero(d, n);
    LastDigit(d, n);
    CoreNotEmpty(d);
    DigitsLead(d);
  }

  predicate EndsWithZero(ds: bytes) {
    ds != [] && ds[|ds| - 1] == 0x30
  }

  lemma EndsIs(ds: bytes)
    ensures EndsWithZero(ds) <==> ds != [] && ds[|ds| - 1] == 0x30
  {
  }

  /** The form of a double: plain, or with an exponent. */
  predicate Shaped(l: Literal, neg: bool, plain: bool) {
    && l.neg == neg && (l.exp == [] <==> plain)
    && (plain ==> l.frac == [0x30] || (l.frac != [] && !EndsWithZero(l.frac)))
    && (!plain ==>
      && |l.whole| == 1 && l.whole != [0x30] && !EndsWithZero(l.frac)
      && l.mark == 0x65 && l.sign in {[0x2B], [0x2D]} && (|l.exp| > 1 ==> l.exp[0] != 0x30))
  }

  lemma ShapeOfLiteral(neg: bool, sig: nat, exp: int)
    requires IsShortest(sig, exp) && InRange(sig, exp)
    ensures Shaped(DoubleLiteral(neg, sig, exp), neg, sig == 0 || Between(sig, exp))
  {
    hide Between, NumDigits, Core, EndsWithZero, PlainLiteral, ScientificLiteral;
    if sig > 0 {
      hide Shaped;
      PointBetween(sig, exp);
      CoreEnds(sig);
      EndsIs(Core(sig));
      var point := NumDigits(sig) + exp;
      if IsFixed(point) {
        PlainShape(neg, Core(sig), point);
      } else {
        ScientificForm(neg, Core(sig), point - 1);
      }
    }
  }

  /**
   * A double as a number of the grammar: without an exponent it has a fraction, which is 0 or ends with no zero;
   * with one it has a single digit before the point, which is no zero, a fraction or none, and an exponent with a
   * sign and without leading zeros.
   */
  lemma DoubleShape(neg: bool, sig: nat, exp: int) returns (l: Literal)
    requires IsShortest(sig, exp) && InRange(sig, exp)
    ensures WfLiteral(l) && Unparse(l) == DoubleText(neg, sig, exp) && l.neg == neg
    ensures l.exp == [] <==> sig == 0 || Between(sig, exp)
    ensures l.exp == [] ==> l.frac == [0x30] || (l.frac != [] && !EndsWithZero(l.frac))
    ensures l.exp != [] ==> |l.whole| == 1 && l.whole != [0x30] && !EndsWithZero(l.frac)
    ensures l.exp != [] ==> l.mark == 0x65 && l.sign in {[0x2B], [0x2D]} && (|l.exp| > 1 ==> l.exp[0] != 0x30)
  {
    l := DoubleLiteral(neg, sig, exp);
    var c, scale := DoubleReadsBack(neg, sig, exp);
    ShapeOfLiteral(neg, sig, exp);
    hide DoubleLiteral, DoubleText, Between, LiteralEvent, WfLiteral, Unparse, SameReal, Val;
  }

  lemma PlainShape(neg: bool, core: bytes, point: int)
    requires core != [] && !EndsWithZero(core)
    ensures Shaped(PlainLiteral(neg, core, point), neg, true)
  {
  }

  lemma ScientificForm(neg: bool, core: bytes, exponent: int)
    requires core != [] && core[0] != 0x30 && !EndsWithZero(core) && -1000 < exponent < 1000
    ensures Shaped(ScientificLiteral(neg, core, exponent), neg, false)
  {
    var k := if exponent < 0 then 0 - exponent else exponent;
    ExponentLead(k);
    hide ExponentDigits;
  }

  lemma ExponentLead(k: nat)
    requires k < 1000
    ensures var ds := ExponentDigits(k); ds != [] && (|ds| > 1 ==> ds[0] != 0x30)
  {
    if 10 <= k < 100 {
      assert Padded(k, 2) == Padded(k / 10, 1) + [0x30 + k % 10];
      assert Padded(k / 10, 1) == Padded(k / 10 / 10, 0) + [0x30 + k / 10 % 10];
    }
  }
}
