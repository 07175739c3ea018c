/** parse_number, proved against the scan of the literal and what is kept of its digits. */
module NumberParser {
  import opened Base
  import opened Decimal
  import opened Number
  import opened Input
  import opened Parser

  /** The range of the unsigned 64-bit significand. */
  const WIDTH: nat := 0x1_0000_0000_0000_0000

  /** What is kept of the integer part t[i..r], which starts with no zero. */
  ghost predicate WholeOf(t: bytes, i: nat, r: nat, a: Acc) {
    i < r <= |t| && AllDigits(t[i..r]) && t[i] != 0x30 && a == IntAcc(t[i..r])
  }

  lemma WholeDigit(t: bytes, i: nat, r: nat, a: Acc)
    requires WholeOf(t, i, r, a) && r < |t| && IsDigit(t[r])
    ensures WholeOf(t, i, r + 1, IntStep(a, t[r]))
    ensures a.sig < MAX_SIG_DIGITS ==> 10 * a.sum + 9 < WIDTH
  {
    var ds := t[i..r];
    assert t[i..r + 1] == ds + [t[r]];
    assert t[i..r + 1][..|ds|] == ds;
    var k := IntKeeps(ds);
    if a.sig < MAX_SIG_DIGITS {
      NoWrap(a.sum, a.sig);
    }
  }

  lemma AllOfWhole(t: bytes, i: nat, r: nat, a: Acc)
    requires WholeOf(t, i, r, a)
    ensures i < r <= |t| && AllDigits(t[i..r]) && a == IntAcc(t[i..r])
  {
  }

  lemma FirstAcc(t: bytes, i: nat)
    requires i < |t| && IsDigit(t[i])
    ensures AllDigits(t[i..i + 1]) && IntAcc(t[i..i + 1]) == Acc(t[i] - 0x30, 0, if t[i] == 0x30 then 0 else 1)
  {
    assert t[i..i + 1] == [t[i]];
  }

  /** What is kept of the integer part and of the fraction digits t[j..r]. */
  ghost predicate KeptOf(whole: bytes, t: bytes, j: nat, r: nat, a: Acc) {
    && AllDigits(whole) && whole != [] && (whole[0] == 0x30 ==> |whole| == 1)
    && j <= r <= |t| && AllDigits(t[j..r]) && a == FracAcc(IntAcc(whole), t[j..r])
  }

  lemma NothingKept(a: Acc)
    ensures FracAcc(a, []) == a
  {
  }

  lemma NoFraction(whole: bytes, t: bytes, j: nat)
    requires AllDigits(whole) && whole != [] && (whole[0] == 0x30 ==> |whole| == 1)
    ensures j <= |t| ==> KeptOf(whole, t, j, j, IntAcc(whole))
  {
    assert j <= |t| ==> t[j..j] == [];
  }

  lemma FractionDigit(whole: bytes, t: bytes, j: nat, r: nat, a: Acc)
    requires KeptOf(whole, t, j, r, a) && r < |t| && IsDigit(t[r])
    ensures KeptOf(whole, t, j, r + 1, FracStep(a, t[r]))
    ensures a.sig < MAX_SIG_DIGITS ==> 10 * a.sum + 9 < WIDTH
  {
    var ds := t[j..r];
    assert t[j..r + 1] == ds + [t[r]];
    assert t[j..r + 1][..|ds|] == ds;
    var k := FracKeeps(whole, ds);
    if a.sig < MAX_SIG_DIGITS {
      NoWrap(a.sum, a.sig);
    }
  }

  lemma AllKept(whole: bytes, t: bytes, j: nat, r: nat, a: Acc)
    requires KeptOf(whole, t, j, r, a)
    ensures AllDigits(whole) && whole != [] && AllDigits(t[j..r]) && a == FracAcc(IntAcc(whole), t[j..r])
  {
  }

  /** The digits of the integer part behind a first one that is no zero. */
  method ParseWholeDigits(mis: InputStream, ghost i: nat, sum0: nat, exponent0: int, sig0: nat)
    returns (sum: nat, exponent: int, sig: nat)
    requires mis.Valid() && mis.read <= mis.count && sum0 < WIDTH
    requires WholeOf(mis.text, i, mis.read, Acc(sum0, exponent0, sig0))
    modifies mis`read
    ensures mis.Valid() && mis.read == DigitsEnd(mis.text, old(mis.read))
    ensures WholeOf(mis.text, i, mis.read, Acc(sum, exponent, sig)) && sum < WIDTH
  {
    hide IntAcc, WholeOf;
    ghost var j, t := mis.read, mis.text;
    sum, exponent, sig := sum0, exponent0, sig0;
    var c := mis.Peek();
    while IsDigit(c)
      invariant mis.Valid() && j <= mis.read <= mis.count && c == At(t, mis.read)
      invariant DigitsEnd(t, mis.read) == DigitsEnd(t, j)
      invariant WholeOf(t, i, mis.read, Acc(sum, exponent, sig))
      invariant sum < WIDTH
      decreases mis.count - mis.read
    {
      WholeDigit(t, i, mis.read, Acc(sum, exponent, sig));
      var _ := mis.Take();
      if sig < MAX_SIG_DIGITS {
        sum := 10 * sum + (c - 0x30);
      } else {
        exponent := exponent + 1;
      }
      sig := sig + 1;
      c := mis.Peek();
    }
  }

  /** The integer part, behind its first digit. */
  method ParseWhole(mis: InputStream, first: byte) returns (sum: nat, exponent: int, sig: nat)
    requires mis.Valid() && 0 < mis.read <= mis.count && IsDigit(first) && mis.text[mis.read - 1] == first
    modifies mis`read
    ensures mis.Valid() && mis.read == WholeEnd(mis.text, old(mis.read) - 1)
    ensures AllDigits(mis.text[old(mis.read) - 1..mis.read])
    ensures Acc(sum, exponent, sig) == IntAcc(mis.text[old(mis.read) - 1..mis.read])
    ensures sum < WIDTH
  {
    ghost var i, t := mis.read - 1, mis.text;
    FirstAcc(t, i);
    hide IntAcc;
    sum := first - 0x30;
    sig := if sum != 0 then 1 else 0;
    exponent := 0;
    if sum != 0 {
      sum, exponent, sig := ParseWholeDigits(mis, i, sum, exponent, sig);
      AllOfWhole(t, i, mis.read, Acc(sum, exponent, sig));
    }
  }

  /** The digits of a fraction. */
  method ParseFractionDigits(mis: InputStream, ghost whole: bytes, sum0: nat, exponent0: int, sig0: nat)
    returns (sum: nat, exponent: int, sig: nat)
    requires mis.Valid() && mis.read <= mis.count && sum0 < WIDTH
    requires KeptOf(whole, mis.text, mis.read, mis.read, Acc(sum0, exponent0, sig0))
    modifies mis`read
    ensures mis.Valid() && mis.read == DigitsEnd(mis.text, old(mis.read))
    ensures KeptOf(whole, mis.text, old(mis.read), mis.read, Acc(sum, exponent, sig)) && sum < WIDTH
  {
    hide IntAcc, FracAcc, KeptOf;
    ghost var j, t := mis.read, mis.text;
    sum, exponent, sig := sum0, exponent0, sig0;
    var c := mis.Peek();
    while IsDigit(c)
      invariant mis.Valid() && j <= mis.read <= mis.count && c == At(t, mis.read)
      invariant DigitsEnd(t, mis.read) == DigitsEnd(t, j)
      invariant KeptOf(whole, t, j, mis.read, Acc(sum, exponent, sig))
      invariant sum < WIDTH
      decreases mis.count - mis.read
    {
      FractionDigit(whole, t, j, mis.read, Acc(sum, exponent, sig));
      var _ := mis.Take();
      if sig < MAX_SIG_DIGITS {
        sum := 10 * sum + (c - 0x30);
        exponent := exponent - 1;
        if sum != 0 {
          sig := sig + 1;
        }
      }
      c := mis.Peek();
    }
  }

  /** The fraction, when there is one; seen tells. */
  method ParseFraction(mis: InputStream, ghost whole: bytes, sum0: nat, exponent0: int, sig0: nat)
    returns (err: Option<ErrorCode>, seen: bool, sum: nat, exponent: int, sig: nat)
    requires mis.Valid() && mis.read <= mis.count
    requires AllDigits(whole) && whole != [] && (whole[0] == 0x30 ==> |whole| == 1)
    requires Acc(sum0, exponent0, sig0) == IntAcc(whole) && sum0 < WIDTH
    modifies mis`read
    ensures mis.Valid() && mis.read <= mis.count
    ensures Agrees(FractionEnd(mis.text, old(mis.read)), err, mis.read)
    ensures err.None? ==> seen == (mis.read > old(mis.read))
    ensures err.None? && seen ==> AllDigits(mis.text[old(mis.read) + 1..mis.read])
    ensures err.None? && seen ==>
      Acc(sum, exponent, sig) == FracAcc(IntAcc(whole), mis.text[old(mis.read) + 1..mis.read])
    ensures err.None? && !seen ==> Acc(sum, exponent, sig) == IntAcc(whole)
    ensures sum < WIDTH
  {
    NoFraction(whole, mis.text, mis.read + 1);
    hide IntAcc, FracAcc, DigitsEnd, KeptOf;
    ghost var j := mis.read + 1;
    err, seen, sum, exponent, sig := None, false, sum0, exponent0, sig0;
    var c := mis.Peek();
    if c != '.' as int {
      return;
    }
    var _ := mis.Take();
    seen := true;
    c := mis.Peek();
    if !IsDigit(c) {
      err := Some(NumberError);
      return;
    }
    sum, exponent, sig := ParseFractionDigits(mis, whole, sum, exponent, sig);
    AllKept(whole, mis.text, j, mis.read, Acc(sum, exponent, sig));
  }

  /** The digits of an exponent. */
  method ParseExponentDigits(mis: InputStream) returns (err: Option<ErrorCode>, digits: nat)
    requires mis.Valid() && mis.read <= mis.count
    modifies mis`read
    ensures mis.Valid() && mis.read <= mis.count
    ensures Agrees(ExponentEnd(mis.text, old(mis.read), 0), err, mis.read)
    ensures err.None? ==> digits == ExponentEnd(mis.text, old(mis.read), 0).val
  {
    ghost var t, whole := mis.text, ExponentEnd(mis.text, mis.read, 0);
    err, digits := None, 0;
    var c := mis.Peek();
    while IsDigit(c)
      invariant mis.Valid() && mis.read <= mis.count && c == At(t, mis.read)
      invariant ExponentEnd(t, mis.read, digits) == whole
      decreases mis.count - mis.read
    {
      var _ := mis.Take();
      digits := 10 * digits + (c - 0x30);
      if digits > MAX_EXPONENT {
        err := Some(NumberError);
        return;
      }
      c := mis.Peek();
    }
  }

  /** The exponent, when there is one; seen tells. */
  method ParseExponent(mis: InputStream) returns (err: Option<ErrorCode>, seen: bool, exp: int)
    requires mis.Valid() && mis.read <= mis.count
    modifies mis`read
    ensures mis.Valid() && mis.read <= mis.count
    ensures Agrees(ScanExponent(mis.text, old(mis.read)), err, mis.read)
    ensures err.None? ==> seen == (ScanExponent(mis.text, old(mis.read)).val.exp != [])
    ensures err.None? ==> exp == SignedValue(ScanExponent(mis.text, old(mis.read)).val)
  {
    ghost var k, t := mis.read, mis.text;
    err, seen, exp := None, false, 0;
    var c := mis.Peek();
    if !IsMark(c) {
      return;
    }
    var _ := mis.Take();
    seen := true;
    var expSign: int := 1;
    c := mis.Peek();
    if c == '-' as int {
      var _ := mis.Take();
      expSign := -1;
      c := mis.Peek();
    } else if c == '+' as int {
      var _ := mis.Take();
      c := mis.Peek();
    }
    ghost var m := mis.read;
    SignText(t, k + 1);
    assert m == k + 1 + SignLength(At(t, k + 1));
    assert expSign == if t[k + 1..m] == ['-' as int] then -1 else 1;
    if !IsDigit(c) {
      err := Some(NumberError);
      return;
    }
    var digits;
    err, digits := ParseExponentDigits(mis);
    exp := expSign * digits;
    assert t[m..m] == [];
    ExponentEndValue(t, m, m, 0);
  }

  ghost function SignedValue(e: ExponentText): int
    requires AllDigits(e.exp)
  {
    if e.sign == ['-' as int] then 0 - Val(e.exp) else Val(e.exp)
  }

  /** The parts that were read make up the literal, and decide whether it is a real. */
  lemma Assemble(t: bytes, p: nat, i: nat, j: nat, k: nat, q: nat, a: Acc, isFraction: bool, isExponent: bool, exp: int)
    requires p <= i < j <= k <= q <= |t| && i == FirstDigitAt(t, p) && IsDigit(t[i]) && j == WholeEnd(t, i)
    requires FractionEnd(t, j) == Done((), k) && isFraction == (k > j)
    requires ScanExponent(t, k).Done? && ScanExponent(t, k).pos == q
    requires isExponent == (ScanExponent(t, k).val.exp != []) && exp == SignedValue(ScanExponent(t, k).val)
    requires a == FracAcc(IntAcc(t[i..j]), if k == j then [] else t[j + 1..k])
    ensures ScanNumber(t, p).Done? && ScanNumber(t, p).pos == q
    ensures var l := ScanNumber(t, p).val;
      && l.neg == (i > p) && LiteralAcc(l) == a && Exponent(l) == exp
      && (l.frac != [] <==> isFraction) && (l.exp != [] <==> isExponent)
  {
    hide IntAcc, FracAcc, Val, DigitsEnd, WholeEnd, FractionEnd, ScanExponent;
  }

  /** The digits of the literal under the cursor, and whether a fraction or an exponent makes it a real. */
  method ParseLiteral(mis: InputStream)
    returns (err: Option<ErrorCode>, negative: bool, sum: nat, exponent: int, sig: nat, point: bool)
    requires mis.Valid() && mis.read <= mis.count
    modifies mis`read
    ensures mis.Valid() && Agrees(ScanNumber(mis.text, old(mis.read)), err, mis.read)
    ensures err.None? ==> var l := ScanNumber(mis.text, old(mis.read)).val;
      && negative == l.neg && sum == LiteralAcc(l).sum && sig == LiteralAcc(l).sig
      && exponent == LiteralAcc(l).exponent + Exponent(l)
      && point == (l.frac != [] || l.exp != [])
    ensures err.None? ==> sum < WIDTH
  {
    hide ScanExponent, IntAcc, FracAcc, LiteralAcc, Val;
    ghost var p, t := mis.read, mis.text;
    negative, sum, exponent, sig, point := false, 0, 0, 0, false;
    var c := mis.Take();
    if c == '-' as int {
      negative := true;
      c := mis.Take();
    }
    if !IsDigit(c) {
      err := Some(NumberError);
      return;
    }
    ghost var i := mis.read - 1;
    sum, exponent, sig := ParseWhole(mis, c);
    ghost var j := mis.read;
    assert t[i] == 0x30 ==> j == i + 1;
    var isFraction, isExponent, exp;
    err, isFraction, sum, exponent, sig := ParseFraction(mis, t[i..j], sum, exponent, sig);
    if err.Some? {
      return;
    }
    ghost var k := mis.read;
    err, isExponent, exp := ParseExponent(mis);
    if err.Some? {
      return;
    }
    NothingKept(IntAcc(t[i..j]));
    Assemble(t, p, i, j, k, mis.read, Acc(sum, exponent, sig), isFraction, isExponent, exp);
    exponent := exponent + exp;
    point := isFraction || isExponent;
  }

  /**
   * The number under the cursor: an integer when it is one and fits, else a real. finite tells which
   * texts convert to a finite double. Only a minus sign at the end of the text lets the cursor pass
   * the NUL byte.
   */
  method ParseNumber(mis: InputStream, finite: bytes -> bool) returns (err: Option<ErrorCode>, ev: Event)
    requires mis.Valid() && mis.read <= mis.count
    modifies mis`read
    ensures mis.Valid() && Agrees(NumberAt(mis.text, old(mis.read), finite), err, mis.read)
    ensures err.None? ==> ev == NumberAt(mis.text, old(mis.read), finite).val && (ev.Integer? || ev.Real?)
    ensures err.None? && ev.Real? ==> exists l, k :: StandsAt(mis.text, old(mis.read), l, mis.read) && Keeping(l, ev, k)
  {
    hide ScanNumber, LiteralAcc, Val, Exponent, StandsAt, Keeping;
    var p := mis.read;
    ev := Null;
    var negative, sum, exponent, sig, forceDouble;
    err, negative, sum, exponent, sig, forceDouble := ParseLiteral(mis);
    if err.Some? {
      return;
    }
    forceDouble := forceDouble || sig > MAX_SIG_DIGITS
      || (if negative then sum > 1 + LONG_MAX else sum > LONG_MAX);
    if forceDouble {
      assert mis.buf[p..mis.read] == mis.text[p..mis.read];
      if !finite(mis.buf[p..mis.read]) {
        return Some(NumberError), ev;
      }
      ev := Real(negative, sum, exponent);
      ghost var l, k := NumberIsKept(mis.text, p, finite);
    } else {
      ev := Integer(if negative then 0 - sum else sum);
    }
  }
}
