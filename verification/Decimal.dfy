/** Powers of ten and the values of strings of decimal digits. */
module Decimal {
  import opened Base

  function Pow10(n: nat): (r: nat)
    ensures r >= 1
  {
    if n == 0 then 1 else 10 * Pow10(n - 1)
  }

  lemma PowStep(n: nat)
    ensures Pow10(n + 1) == 10 * Pow10(n) && Pow10(0) == 1
  {
  }

  lemma Regrouped(x: nat, y: nat)
    ensures x * (10 * y) == 10 * (x * y) == (10 * x) * y
  {
  }

  lemma {:induction false} Pow10Add(a: nat, b: nat)
    ensures Pow10(a + b) == Pow10(a) * Pow10(b)
    decreases a
  {
    hide Pow10;
    if a == 0 {
      PowStep(0);
    } else {
      calc {
        Pow10(a + b);
      ==  { PowStep(a - 1 + b); }
        10 * Pow10(a - 1 + b);
      ==  { Pow10Add(a - 1, b); }
        10 * (Pow10(a - 1) * Pow10(b));
      ==  { Regrouped(Pow10(a - 1), Pow10(b)); }
        (10 * Pow10(a - 1)) * Pow10(b);
      ==  { PowStep(a - 1); }
        Pow10(a) * Pow10(b);
      }
    }
  }

  lemma {:induction false} Pow10Monotone(a: nat, b: nat)
    requires a <= b
    ensures Pow10(a) <= Pow10(b)
  {
    if a < b {
      Pow10Monotone(a, b - 1);
    }
  }

  predicate IsDigit(b: byte) {
    0x30 <= b <= 0x39
  }

  predicate AllDigits(ds: bytes) {
    forall i | 0 <= i < |ds| :: IsDigit(ds[i])
  }

  /** The number a string of digits denotes. */
  function Val(ds: bytes): nat
    requires AllDigits(ds)
  {
    if ds == [] then 0 else 10 * Val(ds[..|ds| - 1]) + (ds[|ds| - 1] - 0x30)
  }

  lemma ValStep(ds: bytes)
    requires AllDigits(ds)
    ensures ds == [] ==> Val(ds) == 0
    ensures ds != [] ==> Val(ds) == 10 * Val(ds[..|ds| - 1]) + (ds[|ds| - 1] - 0x30)
  {
  }

  lemma {:induction false} ValConcat(a: bytes, b: bytes)
    requires AllDigits(a) && AllDigits(b)
    ensures AllDigits(a + b)
    ensures Val(a + b) == Val(a) * Pow10(|b|) + Val(b)
    decreases |b|
  {
    hide Val, Pow10;
    ValStep(b);
    if b == [] {
      PowStep(0);
      assert a + b == a;
    } else {
      var b', d := b[..|b| - 1], b[|b| - 1] - 0x30;
      assert (a + b)[..|a + b| - 1] == a + b';
      calc {
        Val(a + b);
      ==  { ValStep(a + b); }
        10 * Val(a + b') + d;
      ==  { ValConcat(a, b'); }
        10 * (Val(a) * Pow10(|b'|) + Val(b')) + d;
      ==  { Regrouped(Val(a), Pow10(|b'|)); PowStep(|b'|); }
        Val(a) * Pow10(|b|) + Val(b);
      }
    }
  }

  lemma {:induction false} ValBound(ds: bytes)
    requires AllDigits(ds)
    ensures Val(ds) < Pow10(|ds|)
  {
    if ds != [] {
      ValBound(ds[..|ds| - 1]);
    }
  }

  /** The k low decimal digits of n, most significant first. */
  function Padded(n: nat, k: nat): (r: bytes)
    ensures |r| == k && AllDigits(r)
  {
    if k == 0 then [] else Padded(n / 10, k - 1) + [0x30 + n % 10]
  }

  lemma {:induction false} PaddedVal(n: nat, k: nat)
    ensures Val(Padded(n, k)) == n % Pow10(k)
  {
    if k > 0 {
      PaddedVal(n / 10, k - 1);
      assert Padded(n, k)[..k - 1] == Padded(n / 10, k - 1);
      ModTen(n, Pow10(k - 1));
    }
  }

  lemma ModTen(n: nat, m: nat)
    requires m > 0
    ensures n % (10 * m) == 10 * (n / 10 % m) + n % 10
  {
    var q, r := n / 10 / m, n / 10 % m;
    assert n == 10 * (q * m + r) + n % 10;
    assert n == q * (10 * m) + (10 * r + n % 10);
    DivModUnique(n, 10 * m, q, 10 * r + n % 10);
  }

  lemma MulLe(a: nat, b: nat, d: nat)
    requires a <= b
    ensures a * d <= b * d
  {
  }

  lemma SameQuotient(d: nat, q: nat, r: nat, q': nat, r': nat)
    requires r < d && r' < d && q * d + r == q' * d + r'
    ensures q == q' && r == r'
  {
    assert (q + 1) * d == q * d + d && (q' + 1) * d == q' * d + d;
    if q < q' {
      MulLe(q + 1, q', d);
    } else if q' < q {
      MulLe(q' + 1, q, d);
    }
  }

  lemma DivModUnique(n: nat, d: nat, q: nat, r: nat)
    requires r < d && n == q * d + r
    ensures n / d == q && n % d == r
  {
    SameQuotient(d, q, r, n / d, n % d);
  }

  function Quotient(n: nat, d: nat): (q: nat)
    requires d > 0
  {
    n / d
  }

  function Remainder(n: nat, d: nat): (r: nat)
    requires d > 0
    ensures r < d
  {
    n % d
  }

  lemma DivDiv(n: nat, a: nat, b: nat)
    requires a > 0 && b > 0
    ensures a * b > 0 && Quotient(n, a * b) == Quotient(Quotient(n, a), b)
  {
    DivMod(n, a);
    var m, s := Quotient(n, a), Remainder(n, a);
    DivMod(m, b);
    hide Quotient, Remainder;
    var q, r := Quotient(m, b), Remainder(m, b);
    Regroup(a, b, q, r, s);
    QuotientUnique(n, a * b, q, a * r + s);
  }

  lemma DivMod(n: nat, d: nat)
    requires d > 0
    ensures n == Quotient(n, d) * d + Remainder(n, d) && Remainder(n, d) < d
  {
  }

  lemma QuotientUnique(n: nat, d: nat, q: nat, r: nat)
    requires r < d && n == q * d + r
    ensures Quotient(n, d) == q
  {
    DivModUnique(n, d, q, r);
  }

  lemma Regroup(a: nat, b: nat, q: nat, r: nat, s: nat)
    requires r < b && s < a
    ensures (q * b + r) * a + s == q * (a * b) + (a * r + s)
    ensures a * r + s < a * b
  {
    assert (q * b) * a == q * (a * b);
    MulLe(r + 1, b, a);
    assert (r + 1) * a == r * a + a;
  }

  /** The last digit of a number and the high and low part of the number without it. */
  lemma DropLast(n: nat, b: nat)
    requires b > 0
    ensures Quotient(n, Pow10(b)) == Quotient(n / 10, Pow10(b - 1))
    ensures Remainder(n, Pow10(b)) == 10 * Remainder(n / 10, Pow10(b - 1)) + n % 10
  {
    var m := Pow10(b - 1);
    PowStep(b - 1);
    DivDiv(n, 10, m);
    ModTen(n, m);
  }

  lemma NothingLow(n: nat, a: nat)
    ensures Quotient(n, Pow10(0)) == n && Padded(Remainder(n, Pow10(0)), 0) == Padded(n, 0) == []
  {
  }

  /** The digits of a number are those of its high part followed by those of its low part. */
  lemma {:induction false} PaddedSplit(n: nat, a: nat, b: nat)
    ensures Padded(n, a + b) == Padded(Quotient(n, Pow10(b)), a) + Padded(Remainder(n, Pow10(b)), b)
    ensures Padded(Remainder(n, Pow10(b)), b) == Padded(n, b)
    decreases b
  {
    hide Padded, Quotient, Remainder, Pow10;
    if b == 0 {
      NothingLow(n, a);
      assert Padded(n, a) + [] == Padded(n, a);
    } else {
      PaddedSplit(n / 10, a, b - 1);
      DropLast(n, b);
      PaddedStep(n, a, b, Remainder(n, Pow10(b)), Remainder(n / 10, Pow10(b - 1)));
    }
  }

  lemma PaddedStep(n: nat, a: nat, b: nat, low: nat, low': nat)
    requires b > 0 && low == 10 * low' + n % 10
    requires Padded(low', b - 1) == Padded(n / 10, b - 1)
    ensures Padded(n, a + b) == Padded(n / 10, a + b - 1) + [0x30 + n % 10]
    ensures Padded(low, b) == Padded(low', b - 1) + [0x30 + n % 10] == Padded(n, b)
  {
    assert low / 10 == low' && low % 10 == n % 10;
  }

  /** The digits of any digit string are those of its value. */
  lemma {:induction false} PaddedOfVal(ds: bytes)
    requires AllDigits(ds)
    ensures Padded(Val(ds), |ds|) == ds
  {
    if ds != [] {
      PaddedOfVal(ds[..|ds| - 1]);
    }
  }

  /** The number of decimal digits of n, 1 for 0. */
  function NumDigits(n: nat): (k: nat)
    ensures k >= 1
  {
    if n < 10 then 1 else 1 + NumDigits(n / 10)
  }

  lemma {:induction false} NumDigitsBounds(n: nat)
    ensures n < Pow10(NumDigits(n))
    ensures n > 0 ==> Pow10(NumDigits(n) - 1) <= n
  {
    if n >= 10 {
      NumDigitsBounds(n / 10);
    }
  }

  lemma NumDigitsUnique(n: nat, k: nat)
    requires k >= 1 && n < Pow10(k) && (k == 1 || Pow10(k - 1) <= n)
    ensures NumDigits(n) == k
  {
    NumDigitsBounds(n);
    if NumDigits(n) < k {
      Pow10Monotone(NumDigits(n), k - 1);
    } else if NumDigits(n) > k {
      Pow10Monotone(k, NumDigits(n) - 1);
    }
  }

  /** The canonical decimal text of n: no leading zero, except for 0 itself. */
  function Digits(n: nat): (r: bytes)
    ensures |r| >= 1 && AllDigits(r)
  {
    Padded(n, NumDigits(n))
  }

  lemma DigitsValue(n: nat)
    ensures Val(Digits(n)) == n
  {
    NumDigitsBounds(n);
    PaddedVal(n, NumDigits(n));
    DivModUnique(n, Pow10(NumDigits(n)), 0, n);
  }

  lemma DigitsLead(n: nat)
    ensures n > 0 ==> Digits(n)[0] != 0x30
    ensures n == 0 ==> Digits(n) == [0x30]
  {
    var k := NumDigits(n);
    NumDigitsBounds(n);
    if n > 0 {
      assert 1 + (k - 1) == k;
      PaddedSplit(n, 1, k - 1);
      TopDigit(n, k);
    } else {
      assert Padded(0, 1) == Padded(0, 0) + [0x30];
    }
  }

  lemma TopDigit(n: nat, k: nat)
    requires k >= 1 && n < Pow10(k) && Pow10(k - 1) <= n
    ensures 1 <= Quotient(n, Pow10(k - 1)) <= 9
    ensures Padded(Quotient(n, Pow10(k - 1)), 1)[0] != 0x30
  {
    var d := Pow10(k - 1);
    var top := n / d;
    assert n == top * d + n % d;
    if top >= 10 {
      MulLe(10, top, d);
    }
  }
}
