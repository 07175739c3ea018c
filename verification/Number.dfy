/**
 * Number literals (section 6 of RFC 8259): their text, their scan, and the significand and
 * exponent that parse_number keeps of them.
 */
module Number {
  import opened Base
  import opened Decimal

  /** frac is empty when there is no fraction, exp when there is no exponent. */
  datatype Literal = Literal(neg: bool, whole: bytes, frac: bytes, mark: byte, sign: bytes, exp: bytes)

  predicate WfLiteral(l: Literal) {
    && AllDigits(l.whole) && AllDigits(l.frac) && AllDigits(l.exp)
    && l.whole != [] && (l.whole[0] == '0' as int ==> |l.whole| == 1)
    && l.mark in {'e' as int, 'E' as int}
    && l.sign in {[], ['-' as int], ['+' as int]}
    && (l.exp == [] ==> l.mark == 'e' as int && l.sign == [])
  }

  function Unparse(l: Literal): bytes {
    Minus(l) + l.whole + FracText(l) + ExpText(l)
  }

  function FracText(l: Literal): bytes {
    if l.frac == [] then [] else ['.' as int] + l.frac
  }

  function ExpText(l: Literal): bytes {
    if l.exp == [] then [] else [l.mark] + l.sign + l.exp
  }

  /** The literal denotes (-1)^neg * Coefficient * 10^Scale. */
  function Coefficient(l: Literal): nat
    requires WfLiteral(l)
  {
    Val(l.whole + l.frac)
  }

  function Exponent(l: Literal): int
    requires WfLiteral(l)
  {
    if l.sign == ['-' as int] then 0 - Val(l.exp) else Val(l.exp)
  }

  function Scale(l: Literal): int
    requires WfLiteral(l)
  {
    Exponent(l) - |l.frac|
  }

  // ----- What parse_number keeps -----

  const MAX_SIG_DIGITS: nat := 19
  const LONG_MAX: nat := 0x7FFF_FFFF_FFFF_FFFF
  const MAX_EXPONENT: nat := 1000

  datatype Acc = Acc(sum: nat, exponent: int, sig: nat)

  function IntStep(a: Acc, d: byte): Acc
    requires IsDigit(d)
  {
    if a.sig < MAX_SIG_DIGITS then Acc(10 * a.sum + (d - 0x30), a.exponent, a.sig + 1)
    else Acc(a.sum, a.exponent + 1, a.sig + 1)
  }

  function FracStep(a: Acc, d: byte): Acc
    requires IsDigit(d)
  {
    if a.sig < MAX_SIG_DIGITS then
      var sum := 10 * a.sum + (d - 0x30);
      Acc(sum, a.exponent - 1, if sum != 0 then a.sig + 1 else a.sig)
    else a
  }

  function IntAcc(ds: bytes): Acc
    requires AllDigits(ds) && ds != []
  {
    if |ds| == 1 then Acc(ds[0] - 0x30, 0, if ds[0] == 0x30 then 0 else 1)
    else IntStep(IntAcc(ds[..|ds| - 1]), ds[|ds| - 1])
  }

  function FracAcc(a: Acc, ds: bytes): Acc
    requires AllDigits(ds)
  {
    if ds == [] then a else FracStep(FracAcc(a, ds[..|ds| - 1]), ds[|ds| - 1])
  }

  function LiteralAcc(l: Literal): Acc
    requires WfLiteral(l)
  {
    FracAcc(IntAcc(l.whole), l.frac)
  }

  predicate ForceReal(l: Literal)
    requires WfLiteral(l)
  {
    var a := LiteralAcc(l);
    l.frac != [] || l.exp != [] || a.sig > MAX_SIG_DIGITS || a.sum > (if l.neg then LONG_MAX + 1 else LONG_MAX)
  }

  /** The event a literal is delivered as. */
  function LiteralEvent(l: Literal): Event
    requires WfLiteral(l)
  {
    var a := LiteralAcc(l);
    if ForceReal(l) then Real(l.neg, a.sum, a.exponent + Exponent(l))
    else Integer(if l.neg then 0 - a.sum else a.sum)
  }

  /** sum is n without its k low digits. */
  ghost predicate Truncates(sum: nat, n: nat, k: nat) {
    sum * Pow10(k) <= n < (sum + 1) * Pow10(k)
  }

  /** sum has sig digits, or MAX_SIG_DIGITS where more are significant. */
  ghost predicate HasDigits(sum: nat, sig: nat) {
    var s := if sig < MAX_SIG_DIGITS then sig else MAX_SIG_DIGITS;
    (s == 0 && sum == 0) || (s > 0 && Pow10(s - 1) <= sum < Pow10(s))
  }

  ghost predicate Keeps(a: Acc, n: nat, k: nat) {
    Truncates(a.sum, n, k) && HasDigits(a.sum, a.sig) && (k > 0 ==> a.sig >= MAX_SIG_DIGITS)
  }

  lemma Append(ds: bytes, d: byte)
    requires AllDigits(ds) && IsDigit(d)
    ensures AllDigits(ds + [d]) && Val(ds + [d]) == 10 * Val(ds) + (d - 0x30)
  {
    assert (ds + [d])[..|ds|] == ds;
  }

  lemma DropDigit(sum: nat, n: nat, k: nat, d: nat)
    requires Truncates(sum, n, k) && d <= 9
    ensures Truncates(sum, 10 * n + d, k + 1)
  {
    var m := Pow10(k);
    assert sum * (10 * m) == 10 * (sum * m);
    assert (sum + 1) * (10 * m) == 10 * ((sum + 1) * m);
  }

  lemma KeepDigit(sum: nat, n: nat, sig: nat, d: nat)
    requires Truncates(sum, n, 0) && HasDigits(sum, sig) && sig < MAX_SIG_DIGITS && d <= 9
    ensures Truncates(10 * sum + d, 10 * n + d, 0)
    ensures HasDigits(10 * sum + d, if 10 * sum + d == 0 then 0 else sig + 1)
  {
    if sig > 0 {
      assert Pow10(sig) == 10 * Pow10(sig - 1);
      assert Pow10(sig + 1) == 10 * Pow10(sig);
    } else {
      assert Pow10(1) == 10 * Pow10(0);
    }
  }

  lemma IntStepKeeps(a: Acc, n: nat, k: nat, d: byte)
    requires Keeps(a, n, k) && a.exponent == k && a.sum > 0 && IsDigit(d)
    requires k == if a.sig > MAX_SIG_DIGITS then a.sig - MAX_SIG_DIGITS else 0
    ensures Keeps(IntStep(a, d), 10 * n + (d - 0x30), if a.sig < MAX_SIG_DIGITS then k else k + 1)
  {
    if a.sig < MAX_SIG_DIGITS {
      KeepDigit(a.sum, n, a.sig, d - 0x30);
    } else {
      DropDigit(a.sum, n, k, d - 0x30);
    }
  }

  lemma FirstDigit(ds: bytes)
    requires AllDigits(ds) && |ds| == 1
    ensures Keeps(IntAcc(ds), Val(ds), 0)
  {
    assert ds == [] + [ds[0]];
    Append([], ds[0]);
    KeepDigit(0, 0, 0, ds[0] - 0x30);
  }

  lemma {:induction false} IntKeeps(ds: bytes) returns (k: nat)
    requires AllDigits(ds) && ds != [] && (ds[0] == 0x30 ==> |ds| == 1)
    ensures IntAcc(ds).exponent == k && Keeps(IntAcc(ds), Val(ds), k)
    ensures k == if IntAcc(ds).sig > MAX_SIG_DIGITS then IntAcc(ds).sig - MAX_SIG_DIGITS else 0
  {
    hide Keeps, Val, Pow10;
    if |ds| == 1 {
      k := 0;
      FirstDigit(ds);
    } else {
      var front, d := ds[..|ds| - 1], ds[|ds| - 1];
      k := IntKeeps(front);
      Append(front, d);
      assert ds == front + [d];
      FirstStaysLead(front);
      IntStepKeeps(IntAcc(front), Val(front), k, d);
      k := IntStep(IntAcc(front), d).exponent;
    }
  }

  lemma {:induction false} FirstStaysLead(ds: bytes)
    requires AllDigits(ds) && ds != [] && ds[0] != 0x30
    ensures IntAcc(ds).sum > 0 && IntAcc(ds).sig > 0
  {
    if |ds| > 1 {
      FirstStaysLead(ds[..|ds| - 1]);
    }
  }

  lemma FracStepKeeps(a: Acc, n: nat, k: nat, d: byte) returns (k': nat)
    requires Keeps(a, n, k) && IsDigit(d)
    ensures k' == if a.sig >= MAX_SIG_DIGITS then k + 1 else k
    ensures Keeps(FracStep(a, d), 10 * n + (d - 0x30), k')
  {
    if a.sig >= MAX_SIG_DIGITS {
      DropDigit(a.sum, n, k, d - 0x30);
      k' := k + 1;
    } else {
      KeepDigit(a.sum, n, a.sig, d - 0x30);
      k' := k;
    }
  }

  lemma {:induction false} FracKeeps(whole: bytes, ds: bytes) returns (k: nat)
    requires AllDigits(ds) && AllDigits(whole) && whole != [] && (whole[0] == 0x30 ==> |whole| == 1)
    ensures FracAcc(IntAcc(whole), ds).exponent == k - |ds|
    ensures AllDigits(whole + ds) && Keeps(FracAcc(IntAcc(whole), ds), Val(whole + ds), k)
  {
    if ds == [] {
      k := IntKeeps(whole);
      assert whole + ds == whole;
    } else {
      var front, d := ds[..|ds| - 1], ds[|ds| - 1];
      k := FracKeeps(whole, front);
      Append(whole + front, d);
      assert whole + ds == whole + front + [d];
      var a := FracAcc(IntAcc(whole), front);
      k := FracStepKeeps(a, Val(whole + front), k, d);
    }
  }

  /**
   * The significand kept never wraps around 64 bits, is the coefficient without its k low digits,
   * and loses a digit only when it is full.
   */
  lemma SignificandKept(l: Literal) returns (k: nat)
    requires WfLiteral(l)
    ensures var a := LiteralAcc(l);
      && a.sum < Pow10(MAX_SIG_DIGITS) < 0x1_0000_0000_0000_0000
      && a.exponent + Exponent(l) == Scale(l) + k
      && a.sum * Pow10(k) <= Coefficient(l) < (a.sum + 1) * Pow10(k)
      && (k > 0 ==> a.sum >= Pow10(MAX_SIG_DIGITS - 1))
      && (Coefficient(l) < Pow10(MAX_SIG_DIGITS) ==> k == 0 && a.sum == Coefficient(l))
  {
    k := FracKeeps(l.whole, l.frac);
    hide IntAcc, FracAcc, Val;
    var a := LiteralAcc(l);
    assert Pow10(MAX_SIG_DIGITS) == 10000000000000000000 by { Pow10Of19(); }
    Pow10Monotone(if a.sig < MAX_SIG_DIGITS then a.sig else MAX_SIG_DIGITS, MAX_SIG_DIGITS);
    if k > 0 {
      Pow10Add(MAX_SIG_DIGITS - 1, k);
      MulLe(Pow10(MAX_SIG_DIGITS - 1), a.sum, Pow10(k));
      Pow10Monotone(MAX_SIG_DIGITS, MAX_SIG_DIGITS - 1 + k);
    }
  }

  lemma Pow10Of19()
    ensures Pow10(18) == 1000000000000000000 && Pow10(19) == 10000000000000000000
  {
    assert Pow10(6) == 1000000;
    Pow10Add(6, 6);
    Pow10Add(12, 6);
  }

  /** What the literal has to be for its number to be delivered as an integer. */
  predicate FitsLong(l: Literal)
    requires WfLiteral(l)
  {
    && l.frac == [] && l.exp == []
    && Val(l.whole) <= (if l.neg then LONG_MAX + 1 else LONG_MAX)
  }

  /** A literal is an integer exactly when it has no fraction or exponent and fits, and then it is exact. */
  lemma IntegerIffFits(l: Literal)
    requires WfLiteral(l)
    ensures LiteralEvent(l).Integer? <==> FitsLong(l)
    ensures FitsLong(l) ==> LiteralEvent(l).n == if l.neg then -(Val(l.whole) as int) else Val(l.whole)
  {
    if l.frac == [] && l.exp == [] {
      hide Val, IntAcc, Pow10, Keeps;
      var k := IntKeeps(l.whole);
      DroppedIsLong(IntAcc(l.whole), Val(l.whole), k);
    }
  }

  /** What fits is kept whole, and where a digit was dropped the number does not fit. */
  lemma DroppedIsLong(a: Acc, n: nat, k: nat)
    requires Keeps(a, n, k) && k == if a.sig > MAX_SIG_DIGITS then a.sig - MAX_SIG_DIGITS else 0
    ensures if k == 0 then n == a.sum else n > LONG_MAX + 1
  {
    Pow10Of19();
    if k > 0 {
      assert Pow10(k) >= 10;
      hide Pow10;
      MulLe(Pow10(18), a.sum, Pow10(k));
      MulLe(10, Pow10(k), Pow10(18));
    }
  }

  /** While fewer than MAX_SIG_DIGITS digits are kept another one fits 64 bits. */
  lemma NoWrap(sum: nat, sig: nat)
    requires HasDigits(sum, sig) && sig < MAX_SIG_DIGITS
    ensures 10 * sum + 9 < 0x1_0000_0000_0000_0000
  {
    Pow10Of19();
    Pow10Monotone(sig, 18);
  }

  // ----- The scan -----

  /** Where the run of digits from p on ends. */
  function DigitsEnd(t: bytes, p: nat): (q: nat)
    requires p <= |t|
    ensures p <= q <= |t| && AllDigits(t[p..q]) && !IsDigit(At(t, q))
    decreases |t| - p
  {
    if IsDigit(At(t, p)) then
      var q := DigitsEnd(t, p + 1);
      assert t[p..q] == [t[p]] + t[p + 1..q];
      q
    else p
  }

  /** The value of the digits of an exponent from m on, v so far, up to where they exceed MAX_EXPONENT. */
  function ExponentEnd(t: bytes, m: nat, v: nat): (r: Token<nat>)
    requires m <= |t|
    ensures m <= r.pos <= |t|
    ensures r.Fail? ==> r.code == NumberError
    ensures IsDigit(At(t, m)) ==> m < r.pos
    ensures r.Done? ==> !IsDigit(At(t, r.pos))
    decreases |t| - m
  {
    if !IsDigit(At(t, m)) then Done(v, m)
    else
      var v' := 10 * v + (t[m] - 0x30);
      if v' > MAX_EXPONENT then Fail(NumberError, m + 1) else ExponentEnd(t, m + 1, v')
  }

  lemma {:induction false} ExponentEndValue(t: bytes, j: nat, m: nat, v: nat)
    requires j <= m <= |t| && AllDigits(t[j..m]) && v == Val(t[j..m]) && v <= MAX_EXPONENT
    ensures var r := ExponentEnd(t, m, v);
      r.Done? ==> AllDigits(t[j..r.pos]) && r.val == Val(t[j..r.pos]) && r.val <= MAX_EXPONENT
    decreases |t| - m
  {
    hide Val;
    if IsDigit(At(t, m)) {
      var v' := 10 * v + (t[m] - 0x30);
      assert t[j..m + 1] == t[j..m] + [t[m]];
      Append(t[j..m], t[m]);
      if v' <= MAX_EXPONENT {
        ExponentEndValue(t, j, m + 1, v');
      }
    }
  }

  /** The position behind the fraction part that may start at p. */
  function FractionEnd(t: bytes, p: nat): (r: Token<()>)
    requires p <= |t|
    ensures p <= r.pos <= |t| && (r.Fail? ==> r.code == NumberError)
    ensures r.Done? && r.pos > p ==> At(t, p) == '.' as int && p + 1 < r.pos && AllDigits(t[p + 1..r.pos])
    ensures r.Done? && r.pos > p ==> !IsDigit(At(t, r.pos))
  {
    if At(t, p) != '.' as int then Done((), p)
    else if !IsDigit(At(t, p + 1)) then Fail(NumberError, p + 1)
    else Done((), DigitsEnd(t, p + 1))
  }

  predicate IsMark(b: byte) {
    b == 'e' as int || b == 'E' as int
  }

  function SignLength(b: byte): nat {
    if b == '-' as int || b == '+' as int then 1 else 0
  }

  datatype ExponentText = ExponentText(mark: byte, sign: bytes, exp: bytes)

  /** The exponent part that may start at k. */
  function ScanExponent(t: bytes, k: nat): (r: Token<ExponentText>)
    requires k <= |t|
    ensures k <= r.pos <= |t| && (r.Fail? ==> r.code == NumberError)
    ensures r.Done? ==>
      && IsMark(r.val.mark) && r.val.sign in {[], ['-' as int], ['+' as int]}
      && AllDigits(r.val.exp) && Val(r.val.exp) <= MAX_EXPONENT
      && (r.val.exp == [] ==> r.val == ExponentText('e' as int, [], []) && r.pos == k)
      && (r.val.exp != [] ==> !IsDigit(At(t, r.pos)))
  {
    if !IsMark(At(t, k)) then Done(ExponentText('e' as int, [], []), k)
    else
      var m := k + 1 + SignLength(At(t, k + 1));
      if !IsDigit(At(t, m)) then Fail(NumberError, m)
      else
        var e := ExponentEnd(t, m, 0);
        if e.Fail? then Fail(NumberError, e.pos)
        else
          SignText(t, k + 1);
          assert t[m..m] == [];
          ExponentEndValue(t, m, m, 0);
          Done(ExponentText(t[k], t[k + 1..m], t[m..e.pos]), e.pos)
  }

  lemma SignText(t: bytes, p: nat)
    requires p <= |t|
    ensures p + SignLength(At(t, p)) <= |t|
    ensures t[p..p + SignLength(At(t, p))] in {[], ['-' as int], ['+' as int]}
  {
    if SignLength(At(t, p)) == 1 {
      assert t[p..p + 1] == [t[p]];
    } else {
      assert t[p..p] == [];
    }
  }

  /** The end of the integer part: a leading zero stands alone. */
  function WholeEnd(t: bytes, i: nat): (j: nat)
    requires i < |t| && IsDigit(t[i])
    ensures i < j <= |t| && AllDigits(t[i..j]) && (t[i] == '0' as int ==> j == i + 1)
    ensures t[i] != '0' as int ==> !IsDigit(At(t, j))
  {
    if t[i] == '0' as int then i + 1
    else
      assert DigitsEnd(t, i) == DigitsEnd(t, i + 1);
      DigitsEnd(t, i)
  }

  /** The position of the first digit of a literal at p. */
  function FirstDigitAt(t: bytes, p: nat): nat {
    if At(t, p) == '-' as int then p + 1 else p
  }

  /** The literal at p. Only a missing first digit lets the cursor pass the end of the text. */
  function ScanNumber(t: bytes, p: nat): (r: Token<Literal>)
    requires p <= |t|
    ensures r.Done? ==> p < r.pos <= |t| && WfLiteral(r.val) && Val(r.val.exp) <= MAX_EXPONENT
    ensures p < r.pos && (r.pos > |t| ==> r.Fail? && r.pos == |t| + 1 && FirstDigitAt(t, p) == |t|)
    ensures r.Fail? ==> r.code == NumberError
  {
    var i := FirstDigitAt(t, p);
    if !IsDigit(At(t, i)) then Fail(NumberError, i + 1)
    else
      var j := WholeEnd(t, i);
      var f := FractionEnd(t, j);
      if f.Fail? then Fail(NumberError, f.pos)
      else
        var e := ScanExponent(t, f.pos);
        if e.Fail? then Fail(NumberError, e.pos)
        else
          var frac := if f.pos == j then [] else t[j + 1..f.pos];
          Done(Literal(i > p, t[i..j], frac, e.val.mark, e.val.sign, e.val.exp), e.pos)
  }

  /** What is scanned is a literal of the grammar. */
  lemma ScanSound(t: bytes, p: nat)
    requires p <= |t| && ScanNumber(t, p).Done?
    ensures var r := ScanNumber(t, p); Occurs(t, p, Unparse(r.val)) && r.pos == p + |Unparse(r.val)|
  {
    hide Occurs, ScanNumber, ScanExponent, FractionEnd, Unparse;
    var i, j, k := ScanCut(t, p);
    var l := ScanNumber(t, p).val;
    FractionSound(t, j, l);
    ExponentSound(t, k, l);
    SliceOccurs(t, i, j);
    SliceOccurs(t, p, i);
    Parts(t, p, l);
  }

  lemma ScanCut(t: bytes, p: nat) returns (i: nat, j: nat, k: nat)
    requires p <= |t| && ScanNumber(t, p).Done?
    ensures var r := ScanNumber(t, p);
      && p <= i < j <= k <= |t| && t[p..i] == Minus(r.val) && t[i..j] == r.val.whole
      && FractionEnd(t, j).Done? && FractionEnd(t, j).pos == k && r.val.frac == (if k == j then [] else t[j + 1..k])
      && ScanExponent(t, k).Done? && ScanExponent(t, k).pos == r.pos
      && ScanExponent(t, k).val == ExponentText(r.val.mark, r.val.sign, r.val.exp)
  {
    hide ScanExponent, FractionEnd, WholeEnd;
    i := FirstDigitAt(t, p);
    j := WholeEnd(t, i);
    k := FractionEnd(t, j).pos;
    assert t[p..i] == Minus(ScanNumber(t, p).val);
  }

  lemma SliceOccurs(t: bytes, i: nat, j: nat)
    requires i <= j <= |t|
    ensures Occurs(t, i, t[i..j])
  {
  }

  function Minus(l: Literal): bytes {
    if l.neg then ['-' as int] else []
  }

  /** The four parts of a literal follow each other in the text. */
  lemma Parts(t: bytes, p: nat, l: Literal)
    ensures Occurs(t, p, Unparse(l)) <==>
      && Occurs(t, p, Minus(l))
      && Occurs(t, p + |Minus(l)|, l.whole)
      && Occurs(t, p + |Minus(l)| + |l.whole|, FracText(l))
      && Occurs(t, p + |Minus(l)| + |l.whole| + |FracText(l)|, ExpText(l))
    ensures |Unparse(l)| == |Minus(l)| + |l.whole| + |FracText(l)| + |ExpText(l)|
  {
    hide Occurs;
    OccursSplit(t, p, Minus(l), l.whole);
    OccursSplit(t, p, Minus(l) + l.whole, FracText(l));
    OccursSplit(t, p, Minus(l) + l.whole + FracText(l), ExpText(l));
  }

  lemma FractionSound(t: bytes, j: nat, l: Literal)
    requires j <= |t| && FractionEnd(t, j).Done?
    requires l.frac == if FractionEnd(t, j).pos == j then [] else t[j + 1..FractionEnd(t, j).pos]
    ensures Occurs(t, j, FracText(l)) && FractionEnd(t, j).pos == j + |FracText(l)|
  {
    var k := FractionEnd(t, j).pos;
    if k > j {
      assert t[j..k] == ['.' as int] + t[j + 1..k];
    }
  }

  lemma ExponentSound(t: bytes, k: nat, l: Literal)
    requires k <= |t| && ScanExponent(t, k).Done?
    requires ScanExponent(t, k).val == ExponentText(l.mark, l.sign, l.exp)
    ensures Occurs(t, k, ExpText(l)) && ScanExponent(t, k).pos == k + |ExpText(l)|
  {
    var q := ScanExponent(t, k).pos;
    if IsMark(At(t, k)) {
      var m := k + 1 + SignLength(At(t, k + 1));
      ExponentParts(t, k, m, q);
    }
  }

  lemma ExponentParts(t: bytes, k: nat, m: nat, q: nat)
    requires k < m <= q <= |t|
    ensures t[k..q] == [t[k]] + t[k + 1..m] + t[m..q]
  {
    Adjoin(t, k + 1, m, q);
    assert t[k..q] == [t[k]] + t[k + 1..q];
    assert [t[k]] + (t[k + 1..m] + t[m..q]) == [t[k]] + t[k + 1..m] + t[m..q];
  }

  /** No byte that could continue a literal. */
  predicate EndsNumber(b: byte) {
    !IsDigit(b) && b != '.' as int && !IsMark(b)
  }

  predicate IsZero(l: Literal) {
    l.whole == ['0' as int] && l.frac == [] && l.exp == []
  }

  /** The byte does not continue this literal: what may, depends on its last part, and a digit does not continue a zero. */
  predicate EndsLiteral(l: Literal, b: byte) {
    if l.exp != [] then !IsDigit(b)
    else if l.frac != [] then !IsDigit(b) && !IsMark(b)
    else b != '.' as int && !IsMark(b) && (l.whole == ['0' as int] || !IsDigit(b))
  }

  /** What is scanned is not continued. */
  lemma ScanEnds(t: bytes, p: nat)
    requires p <= |t| && ScanNumber(t, p).Done?
    ensures EndsLiteral(ScanNumber(t, p).val, At(t, ScanNumber(t, p).pos))
  {
    hide DigitsEnd, ExponentEnd, ScanExponent, FractionEnd, WholeEnd;
    var i := FirstDigitAt(t, p);
    var j := WholeEnd(t, i);
    var k := FractionEnd(t, j).pos;
    NoExponentThere(t, k);
    NoFractionThere(t, j);
    if t[i] == '0' as int {
      assert t[i..j] == ['0' as int];
    }
  }

  lemma NoExponentThere(t: bytes, k: nat)
    requires k <= |t| && ScanExponent(t, k).Done?
    ensures ScanExponent(t, k).val.exp == [] ==> !IsMark(At(t, k)) && ScanExponent(t, k).pos == k
  {
  }

  lemma NoFractionThere(t: bytes, j: nat)
    requires j <= |t| && FractionEnd(t, j).Done?
    ensures FractionEnd(t, j).pos == j ==> At(t, j) != '.' as int
  {
  }

  lemma ZeroComplete(t: bytes, p: nat, l: Literal)
    requires WfLiteral(l) && IsZero(l) && Occurs(t, p, Unparse(l)) && IsDigit(At(t, p + |Unparse(l)|))
    ensures p <= |t| && ScanNumber(t, p) == Done(l, p + |Unparse(l)|)
  {
    hide ScanNumber, ScanExponent, DigitsEnd;
    assert Unparse(l) == Minus(l) + ['0' as int];
    var i := p + |Minus(l)|;
    OccursSplit(t, p, Minus(l), ['0' as int]);
    ZeroWhole(t, p, i, l);
    NoExponent(t, i + 1, l);
    ScanParts(t, p, i, i + 1, i + 1, l);
  }

  lemma ZeroWhole(t: bytes, p: nat, i: nat, l: Literal)
    requires i == p + |Minus(l)| && Occurs(t, p, Minus(l)) && Occurs(t, i, ['0' as int])
    ensures i < |t| && l.neg == (i > p) && t[i..i + 1] == ['0' as int]
    ensures FirstDigitAt(t, p) == i && IsDigit(t[i]) && WholeEnd(t, i) == i + 1
  {
    OccursAt(t, i, ['0' as int], 0);
    if l.neg {
      OccursAt(t, p, Minus(l), 0);
    }
  }

  lemma {:induction false} DigitsEndComplete(t: bytes, p: nat, ds: bytes)
    requires Occurs(t, p, ds) && AllDigits(ds) && !IsDigit(At(t, p + |ds|))
    ensures DigitsEnd(t, p) == p + |ds|
    decreases |ds|
  {
    if ds != [] {
      assert t[p] == ds[0];
      assert t[p + 1..p + |ds|] == ds[1..];
      DigitsEndComplete(t, p + 1, ds[1..]);
    }
  }

  lemma {:induction false} ExponentEndComplete(t: bytes, j: nat, m: nat, ds: bytes)
    requires j <= m <= j + |ds| && Occurs(t, j, ds) && AllDigits(ds) && !IsDigit(At(t, j + |ds|))
    requires Val(ds) <= MAX_EXPONENT
    ensures AllDigits(ds[..m - j]) && ExponentEnd(t, m, Val(ds[..m - j])) == Done(Val(ds), j + |ds|)
    decreases |t| - m
  {
    hide Val;
    if m < j + |ds| {
      assert t[m] == ds[m - j];
      assert ds[..m + 1 - j] == ds[..m - j] + [ds[m - j]];
      Append(ds[..m - j], ds[m - j]);
      PrefixVal(ds, m + 1 - j);
      ExponentEndComplete(t, j, m + 1, ds);
    } else {
      assert ds[..m - j] == ds;
    }
  }

  lemma {:induction false} PrefixVal(ds: bytes, n: nat)
    requires n <= |ds| && AllDigits(ds)
    ensures AllDigits(ds[..n]) && Val(ds[..n]) <= Val(ds)
    decreases |ds|
  {
    if n < |ds| {
      var front := ds[..|ds| - 1];
      PrefixVal(front, n);
      assert front[..n] == ds[..n];
    } else {
      assert ds[..n] == ds;
    }
  }

  /** Every literal of the grammar is scanned as itself when nothing behind it continues it. */
  lemma ScanComplete(t: bytes, p: nat, l: Literal)
    requires WfLiteral(l) && Val(l.exp) <= MAX_EXPONENT
    requires Occurs(t, p, Unparse(l)) && EndsLiteral(l, At(t, p + |Unparse(l)|))
    ensures p <= |t| && ScanNumber(t, p) == Done(l, p + |Unparse(l)|)
  {
    hide Occurs, ScanNumber, ScanExponent, FractionEnd, Unparse;
    if IsDigit(At(t, p + |Unparse(l)|)) && l.exp == [] {
      ZeroComplete(t, p, l);
      return;
    }
    var i, j, k := Cut(t, p, l);
    ExponentComplete(t, k, l);
    FractionComplete(t, j, l);
    WholeComplete(t, p, i, j, l);
    ScanParts(t, p, i, j, k, l);
  }

  /** The byte behind a literal decides whether it is scanned as itself. */
  lemma ScanIff(t: bytes, p: nat, l: Literal)
    requires WfLiteral(l) && Val(l.exp) <= MAX_EXPONENT && Occurs(t, p, Unparse(l))
    ensures p <= |t|
    ensures ScanNumber(t, p) == Done(l, p + |Unparse(l)|) <==> EndsLiteral(l, At(t, p + |Unparse(l)|))
  {
    hide ScanNumber, EndsLiteral, Unparse;
    if EndsLiteral(l, At(t, p + |Unparse(l)|)) {
      ScanComplete(t, p, l);
    } else if ScanNumber(t, p) == Done(l, p + |Unparse(l)|) {
      ScanEnds(t, p);
    }
  }

  lemma Cut(t: bytes, p: nat, l: Literal) returns (i: nat, j: nat, k: nat)
    requires Occurs(t, p, Unparse(l))
    ensures i == p + |Minus(l)| && Occurs(t, p, Minus(l))
    ensures j == i + |l.whole| && Occurs(t, i, l.whole)
    ensures k == j + |FracText(l)| && Occurs(t, j, FracText(l))
    ensures p + |Unparse(l)| == k + |ExpText(l)| && Occurs(t, k, ExpText(l))
  {
    hide Occurs, Unparse;
    Parts(t, p, l);
    i := p + |Minus(l)|;
    j := i + |l.whole|;
    k := j + |FracText(l)|;
  }

  lemma ScanParts(t: bytes, p: nat, i: nat, j: nat, k: nat, l: Literal)
    requires p <= i < j <= k <= |t| && l.neg == (i > p)
    requires FirstDigitAt(t, p) == i && IsDigit(t[i]) && WholeEnd(t, i) == j && t[i..j] == l.whole
    requires FractionEnd(t, j) == Done((), k) && l.frac == if k == j then [] else t[j + 1..k]
    requires ScanExponent(t, k).Done? && ScanExponent(t, k).val == ExponentText(l.mark, l.sign, l.exp)
    ensures ScanNumber(t, p) == Done(l, ScanExponent(t, k).pos)
  {
  }

  lemma WholeComplete(t: bytes, p: nat, i: nat, j: nat, l: Literal)
    requires i == p + |Minus(l)| && j == i + |l.whole|
    requires WfLiteral(l) && Occurs(t, p, Minus(l)) && Occurs(t, i, l.whole) && !IsDigit(At(t, j))
    ensures p <= i < j <= |t| && l.neg == (i > p) && t[i..j] == l.whole
    ensures FirstDigitAt(t, p) == i && IsDigit(t[i]) && WholeEnd(t, i) == j
  {
    OccursAt(t, i, l.whole, 0);
    if l.neg {
      OccursAt(t, p, Minus(l), 0);
    }
    if l.whole[0] != '0' as int {
      DigitsEndComplete(t, i, l.whole);
    }
  }

  lemma FractionComplete(t: bytes, j: nat, l: Literal)
    requires WfLiteral(l) && Occurs(t, j, FracText(l)) && !IsDigit(At(t, j + |FracText(l)|))
    requires l.frac == [] ==> At(t, j) != '.' as int
    ensures FractionEnd(t, j) == Done((), j + |FracText(l)|)
    ensures l.frac == if |FracText(l)| == 0 then [] else t[j + 1..j + |FracText(l)|]
    ensures !IsDigit(At(t, j))
  {
    if l.frac != [] {
      OccursSplit(t, j, ['.' as int], l.frac);
      OccursAt(t, j, ['.' as int], 0);
      OccursAt(t, j + 1, l.frac, 0);
      DigitsEndComplete(t, j + 1, l.frac);
    }
  }

  lemma OccursSlice(t: bytes, p: nat, u: bytes)
    requires Occurs(t, p, u)
    ensures p + |u| <= |t| && t[p..p + |u|] == u
  {
  }

  lemma ExponentFrom(t: bytes, m: nat, ds: bytes)
    requires Occurs(t, m, ds) && AllDigits(ds) && !IsDigit(At(t, m + |ds|)) && Val(ds) <= MAX_EXPONENT
    ensures m <= |t| && ExponentEnd(t, m, 0) == Done(Val(ds), m + |ds|)
  {
    ExponentEndComplete(t, m, m, ds);
    assert ds[..0] == [];
  }

  lemma ExponentComplete(t: bytes, k: nat, l: Literal)
    requires WfLiteral(l) && Val(l.exp) <= MAX_EXPONENT
    requires Occurs(t, k, ExpText(l)) && !IsDigit(At(t, k + |ExpText(l)|))
    requires l.exp == [] ==> !IsMark(At(t, k))
    ensures ScanExponent(t, k) == Done(ExponentText(l.mark, l.sign, l.exp), k + |ExpText(l)|)
    ensures !IsDigit(At(t, k)) && (l.exp != [] ==> At(t, k) != '.' as int)
  {
    hide Occurs, Val, ScanExponent, AllDigits;
    OccursSlice(t, k, ExpText(l));
    if l.exp == [] {
      NoExponent(t, k, l);
    } else {
      assert ExpText(l) == [l.mark] + l.sign + l.exp;
      SomeExponent(t, k, l);
    }
  }

  lemma NoExponent(t: bytes, k: nat, l: Literal)
    requires WfLiteral(l) && l.exp == [] && k <= |t| && !IsMark(At(t, k))
    ensures ScanExponent(t, k) == Done(ExponentText(l.mark, l.sign, l.exp), k)
  {
  }

  lemma SomeExponent(t: bytes, k: nat, l: Literal)
    requires WfLiteral(l) && l.exp != [] && Val(l.exp) <= MAX_EXPONENT
    requires Occurs(t, k, [l.mark] + l.sign + l.exp) && !IsDigit(At(t, k + |[l.mark] + l.sign + l.exp|))
    ensures ScanExponent(t, k) == Done(ExponentText(l.mark, l.sign, l.exp), k + |[l.mark] + l.sign + l.exp|)
    ensures At(t, k) == l.mark
  {
    hide Occurs, Val, ExponentEnd, ScanExponent, AllDigits;
    OccursSplit(t, k, [l.mark] + l.sign, l.exp);
    OccursSplit(t, k, [l.mark], l.sign);
    OccursAt(t, k, [l.mark], 0);
    var m := k + 1 + |l.sign|;
    SignComplete(t, k + 1, l);
    ExponentFrom(t, m, l.exp);
    OccursSlice(t, k, [l.mark]);
    OccursSlice(t, k + 1, l.sign);
    OccursSlice(t, m, l.exp);
    ExponentJoins(t, k, m, l);
  }

  /** The sign of an exponent is as long as its first byte says, and a digit follows it. */
  lemma SignComplete(t: bytes, p: nat, l: Literal)
    requires WfLiteral(l) && l.exp != [] && Occurs(t, p, l.sign) && Occurs(t, p + |l.sign|, l.exp)
    ensures |l.sign| == SignLength(At(t, p)) && IsDigit(At(t, p + |l.sign|))
  {
    OccursAt(t, p + |l.sign|, l.exp, 0);
    if l.sign != [] {
      OccursAt(t, p, l.sign, 0);
    }
  }

  lemma ExponentJoins(t: bytes, k: nat, m: nat, l: Literal)
    requires WfLiteral(l) && k < |t| && t[k] == l.mark && m == k + 1 + SignLength(At(t, k + 1)) && IsDigit(At(t, m))
    requires m <= m + |l.exp| <= |t| && t[k + 1..m] == l.sign && t[m..m + |l.exp|] == l.exp
    requires ExponentEnd(t, m, 0) == Done(Val(l.exp), m + |l.exp|)
    ensures ScanExponent(t, k) == Done(ExponentText(l.mark, l.sign, l.exp), m + |l.exp|)
  {
    hide ExponentEnd, Val;
  }

  // ----- The token -----

  /** The number at p: finite tells which texts of reals convert to a finite double. */
  function NumberAt(t: bytes, p: nat, finite: bytes -> bool): (r: Token<Event>)
    requires p <= |t|
    ensures r.Done? ==> p < r.pos <= |t|
    ensures p < r.pos && (r.pos > |t| ==> r.Fail? && r.pos == |t| + 1 && FirstDigitAt(t, p) == |t|)
  {
    var s := ScanNumber(t, p);
    if s.Fail? then Fail(NumberError, s.pos)
    else if ForceReal(s.val) && !finite(t[p..s.pos]) then Fail(NumberError, s.pos)
    else Done(LiteralEvent(s.val), s.pos)
  }

  lemma NumberComplete(t: bytes, p: nat, q: nat, l: Literal, finite: bytes -> bool)
    requires WfLiteral(l) && Val(l.exp) <= MAX_EXPONENT && (ForceReal(l) ==> finite(Unparse(l)))
    requires Occurs(t, p, Unparse(l)) && q == p + |Unparse(l)| && EndsLiteral(l, At(t, q))
    ensures p <= |t| && NumberAt(t, p, finite) == Done(LiteralEvent(l), q)
  {
    hide ScanNumber;
    ScanComplete(t, p, l);
  }

  lemma NumberSound(t: bytes, p: nat, finite: bytes -> bool) returns (l: Literal)
    requires p <= |t| && NumberAt(t, p, finite).Done?
    ensures WfLiteral(l) && Val(l.exp) <= MAX_EXPONENT && (ForceReal(l) ==> finite(Unparse(l)))
    ensures Occurs(t, p, Unparse(l)) && NumberAt(t, p, finite) == Done(LiteralEvent(l), p + |Unparse(l)|)
    ensures EndsLiteral(l, At(t, p + |Unparse(l)|))
  {
    hide ScanNumber, Val, EndsLiteral, LiteralEvent, ForceReal;
    ScanSound(t, p);
    ScanEnds(t, p);
    l := ScanNumber(t, p).val;
  }

  // ----- What a real delivered is -----

  /**
   * Of the literal (-1)^neg * C * 10^S, where C are its digits and S its exponent less the digits behind the point,
   * the event keeps the sign, all but the k low digits of C, and S + k. Below 19 digits none are dropped.
   */
  ghost predicate Keeping(l: Literal, e: Event, k: nat)
    requires WfLiteral(l)
  {
    && e.Real? && e.neg == l.neg
    && e.exp == (if l.sign == [0x2D] then 0 - Val(l.exp) else Val(l.exp)) - |l.frac| + k
    && e.sig * Pow10(k) <= Val(l.whole + l.frac) < (e.sig + 1) * Pow10(k)
    && e.sig < 10000000000000000000 && (k > 0 ==> e.sig >= 1000000000000000000)
    && (Val(l.whole + l.frac) < 10000000000000000000 ==> k == 0)
  }

  /** What a literal that is no 64-bit integer is delivered as. */
  lemma RealIsKept(l: Literal) returns (k: nat)
    requires WfLiteral(l) && LiteralEvent(l).Real?
    ensures Keeping(l, LiteralEvent(l), k)
  {
    hide LiteralAcc, Val, Pow10;
    k := SignificandKept(l);
    Pow10Of19();
  }

  /** The literal stands in the text from p up to q. */
  ghost predicate StandsAt(t: bytes, p: nat, l: Literal, q: nat) {
    WfLiteral(l) && Occurs(t, p, Unparse(l)) && q == p + |Unparse(l)|
  }

  /** A number that is delivered as a real is the literal that stands there, with its value kept. */
  lemma NumberIsKept(t: bytes, p: nat, finite: bytes -> bool) returns (l: Literal, k: nat)
    requires p <= |t| && NumberAt(t, p, finite).Done? && NumberAt(t, p, finite).val.Real?
    ensures StandsAt(t, p, l, NumberAt(t, p, finite).pos) && Keeping(l, NumberAt(t, p, finite).val, k)
  {
    hide Keeping, LiteralEvent, Unparse, Val, NumberAt;
    l := NumberSound(t, p, finite);
    k := RealIsKept(l);
  }
}
