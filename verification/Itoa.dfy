/**
 * Integers to text: digits are taken in pairs from a table and leading zeros are suppressed. What is
 * written is proved to be the canonical decimal text, which the parser reads as the same integer.
 */
module Itoa {
  import opened Base
  import opened Decimal
  import opened DigitPairs
  import opened Number

  // ----- Digits one after the other -----

  /** The digits of n, and none for 0: what has been written while only leading zeros were met. */
  function Lead(n: nat): (r: bytes)
    ensures |r| == if n == 0 then 0 else NumDigits(n)
  {
    if n == 0 then [] else Digits(n)
  }

  lemma NextDigit(n: nat, d: nat)
    requires d < 10
    ensures Digits(10 * n + d) == Lead(n) + [0x30 + d]
  {
    assert (10 * n + d) / 10 == n && (10 * n + d) % 10 == d;
    if n == 0 {
      assert Padded(d, 1) == Padded(0, 0) + [0x30 + d];
    }
  }

  /** c is the digit that leads from the number n to the number n'. */
  predicate Leads(n: nat, c: byte, n': nat) {
    IsDigit(c) && n' == 10 * n + (c - 0x30)
  }

  /** Appends a digit to what has been written from start on, unless it is a leading zero. */
  method PutLead(a: array<byte>, start: nat, off: nat, c: byte, write: bool, ghost n: nat, ghost n': nat)
    returns (end: nat)
    requires start <= off < a.Length && Leads(n, c, n') && write == (n' > 0) && a[start..off] == Lead(n)
    modifies a
    ensures off <= end <= off + 1 && a[start..end] == Lead(n') && a[..start] == old(a[..start])
  {
    end := off;
    if write {
      NextDigit(n, c - 0x30);
      a[end] := c;
      end := end + 1;
      assert a[..start] == old(a[..start]) && a[start..off] == old(a[start..off]);
      assert a[start..end] == a[start..off] + [c];
    }
  }

  /** Appends a digit, also a leading zero. */
  method PutDigit(a: array<byte>, start: nat, off: nat, c: byte, ghost n: nat, ghost n': nat) returns (end: nat)
    requires start <= off < a.Length && Leads(n, c, n') && a[start..off] == Lead(n)
    modifies a
    ensures end == off + 1 && a[start..end] == Digits(n') && a[..start] == old(a[..start])
    ensures n' > 0 ==> a[start..end] == Lead(n')
  {
    NextDigit(n, c - 0x30);
    a[off] := c;
    end := off + 1;
    assert a[..start] == old(a[..start]) && a[start..off] == old(a[start..off]);
    assert a[start..end] == a[start..off] + [c];
  }

  // ----- Four digits at a time -----

  /** n1 to n4 are the numbers met when four digits in two pairs follow n. */
  ghost predicate Steps(n: nat, high: nat, low: nat, n1: nat, n2: nat, n3: nat, n4: nat)
    requires high < 100 && low < 100
  {
    Leads(n, Tens(high), n1) && Leads(n1, Units(high), n2) && Leads(n2, Tens(low), n3) && Leads(n3, Units(low), n4)
  }

  lemma FourSteps(n: nat, b: nat) returns (n1: nat, n2: nat, n3: nat)
    requires b < 10000
    ensures b / 100 < 100 && Steps(n, b / 100, b % 100, n1, n2, n3, 10000 * n + b)
    ensures Climbs(n1, n2, n3, 10000 * n + b) && (n > 0 ==> n1 > 0 && n2 > 0 && n3 > 0)
  {
    hide Tens, Units;
    n1 := 10 * n + b / 100 / 10;
    n2 := 10 * n1 + b / 100 % 10;
    n3 := 10 * n2 + b % 100 / 10;
  }

  lemma Positive(n: nat)
    ensures n > 0 ==> Lead(n) == Digits(n)
    ensures Lead(0) == []
  {
  }

  /** Appends the four digits of b behind others. */
  method PutFour(a: array<byte>, start: nat, off: nat, b: nat, ghost n: nat) returns (end: nat)
    requires start <= off && off + 4 <= a.Length && b < 10000 && n > 0 && a[start..off] == Digits(n)
    modifies a
    ensures end == off + 4 && a[start..end] == Digits(10000 * n + b) && a[..start] == old(a[..start])
  {
    hide Lead, Digits, Steps, Climbs;
    ghost var n1, n2, n3 := FourSteps(n, b);
    Positive(n);
    end := PutPairs(a, start, off, b / 100, b % 100, n, n1, n2, n3, 10000 * n + b);
  }

  /** Appends two pairs of digits. */
  method PutPairs(a: array<byte>, start: nat, off: nat, high: nat, low: nat,
                  ghost n: nat, ghost n1: nat, ghost n2: nat, ghost n3: nat, ghost n4: nat) returns (end: nat)
    requires start <= off && off + 4 <= a.Length && high < 100 && low < 100 && a[start..off] == Lead(n)
    requires Steps(n, high, low, n1, n2, n3, n4) && n1 > 0 && n2 > 0 && n3 > 0
    modifies a
    ensures end == off + 4 && a[start..end] == Digits(n4) && a[..start] == old(a[..start])
  {
    hide Tens, Units, Lead, Digits, Leads;
    end := PutDigit(a, start, off, Tens(high), n, n1);
    end := PutDigit(a, start, end, Units(high), n1, n2);
    end := PutDigit(a, start, end, Tens(low), n2, n3);
    end := PutDigit(a, start, end, Units(low), n3, n4);
  }

  /**
   * Appends four digits of which the first ones may be leading zeros: they are below the bounds, which
   * are multiples of the unit of the last digit.
   */
  method PutFourLead(a: array<byte>, start: nat, off: nat, b: nat, value: nat, unit: nat, last: bool, ghost n: nat)
    returns (end: nat)
    requires start <= off && off + 4 <= a.Length && b < 10000 && a[start..off] == Lead(n)
    requires unit > 0 && Quotient(value, unit) == 10000 * n + b
    modifies a
    ensures off <= end <= off + 4 && a[..start] == old(a[..start]) && (last ==> end > off)
    ensures a[start..end] == if last then Digits(10000 * n + b) else Lead(10000 * n + b)
  {
    hide Quotient, Lead, Digits, Steps, Climbs;
    ghost var n1, n2, n3 := FourSteps(n, b);
    Bound(value, unit, n1, n2, n3, 10000 * n + b);
    end := PutPairsLead(a, start, off, b / 100, b % 100,
      value >= 1000 * unit, value >= 100 * unit, value >= 10 * unit, last || value >= unit, n, n1, n2, n3, 10000 * n + b);
    Positive(10000 * n + b);
  }

  /** Appends those of two pairs of digits that are asked for: none before the first that is not zero. */
  method PutPairsLead(a: array<byte>, start: nat, off: nat, high: nat, low: nat, w1: bool, w2: bool, w3: bool, w4: bool,
                      ghost n: nat, ghost n1: nat, ghost n2: nat, ghost n3: nat, ghost n4: nat) returns (end: nat)
    requires start <= off && off + 4 <= a.Length && high < 100 && low < 100 && a[start..off] == Lead(n)
    requires Steps(n, high, low, n1, n2, n3, n4) && w1 == (n1 > 0) && w2 == (n2 > 0) && w3 == (n3 > 0) && (n4 > 0 ==> w4)
    modifies a
    ensures off <= end <= off + 4 && a[..start] == old(a[..start]) && (w4 ==> end > off)
    ensures a[start..end] == if w4 then Digits(n4) else Lead(n4)
  {
    hide Tens, Units, Lead, Digits, Leads;
    end := PutLead(a, start, off, Tens(high), w1, n, n1);
    end := PutLead(a, start, end, Units(high), w2, n1, n2);
    end := PutLead(a, start, end, Tens(low), w3, n2, n3);
    if w4 {
      end := PutDigit(a, start, end, Units(low), n3, n4);
    } else {
      end := PutLead(a, start, end, Units(low), w4, n3, n4);
    }
  }

  /** Each number is the one before it with a digit behind it. */
  predicate Climbs(n1: nat, n2: nat, n3: nat, n4: nat) {
    10 * n3 <= n4 < 10 * n3 + 10 && 10 * n2 <= n3 < 10 * n2 + 10 && 10 * n1 <= n2 < 10 * n1 + 10
  }

  lemma Bound(value: nat, unit: nat, n1: nat, n2: nat, n3: nat, n4: nat)
    requires unit > 0 && Quotient(value, unit) == n4 && Climbs(n1, n2, n3, n4)
    ensures value >= unit <==> n4 > 0
    ensures value >= 10 * unit <==> n3 > 0
    ensures value >= 100 * unit <==> n2 > 0
    ensures value >= 1000 * unit <==> n1 > 0
  {
    hide Quotient;
    AtLeast(value, unit, 1);
    AtLeast(value, unit, 10);
    AtLeast(value, unit, 100);
    AtLeast(value, unit, 1000);
  }

  lemma AtLeast(value: nat, unit: nat, k: nat)
    requires unit > 0
    ensures value >= k * unit <==> Quotient(value, unit) >= k
  {
    var q, r := value / unit, value % unit;
    assert value == q * unit + r;
    if q >= k {
      MulLe(k, q, unit);
    } else {
      MulLe(q + 1, k, unit);
      assert (q + 1) * unit == q * unit + unit;
    }
  }

  // ----- Unsigned numbers -----

  const TWO64: nat := 0x1_0000_0000_0000_0000
  const TEN8: nat := 100000000
  const TEN16: nat := 10000000000000000

  /** The text of any unsigned 64-bit number, from off on. */
  method U64toa(value: nat, a: array<byte>, off: nat) returns (end: nat)
    requires value < TWO64 && off + 20 <= a.Length
    modifies a
    ensures off < end <= off + 20 && a[off..end] == Digits(value) && a[..off] == old(a[..off])
  {
    Positive(0);
    hide Digits, Lead;
    if value < TEN8 {
      if value < 10000 {
        end := PutFourLead(a, off, off, value, value, 1, true, 0);
      } else {
        var b, c := value / 10000, value % 10000;
        end := PutFourLead(a, off, off, b, value, 10000, true, 0);
        end := PutFour(a, off, end, c, b);
      }
    } else if value < TEN16 {
      var v0, v1 := value / TEN8, value % TEN8;
      var b0, c0 := v0 / 10000, v0 % 10000;
      Groups(value, v0, v1, b0);
      end := PutFourLead(a, off, off, b0, value, 10000 * TEN8, false, 0);
      end := PutFourLead(a, off, end, c0, value, TEN8, true, b0);
      end := PutEight(a, off, end, v1, v0);
    } else {
      var top, rest := value / TEN16, value % TEN16;
      var v0, v1 := rest / TEN8, rest % TEN8;
      Groups16(value, top, v0, v1);
      end := PutTop(a, off, top);
      end := PutEight(a, off, end, v0, top);
      end := PutEight(a, off, end, v1, TEN8 * top + v0);
    }
  }

  lemma Groups(value: nat, v0: nat, v1: nat, b0: nat)
    requires TEN8 <= value < TEN16 && v0 == value / TEN8 && v1 == value % TEN8 && b0 == v0 / 10000
    ensures Quotient(value, 10000 * TEN8) == b0 < 10000
    ensures 0 < v0 && TEN8 * v0 + v1 == value
  {
  }

  lemma Groups16(value: nat, top: nat, v0: nat, v1: nat)
    requires TEN16 <= value < TWO64
    requires top == value / TEN16 && v0 == value % TEN16 / TEN8 && v1 == value % TEN16 % TEN8
    ensures 1 <= top < 10000 && v0 < TEN8 && v1 < TEN8 && TEN8 * (TEN8 * top + v0) + v1 == value
  {
  }

  /** Appends the eight digits of v behind others. */
  method PutEight(a: array<byte>, start: nat, off: nat, v: nat, ghost n: nat) returns (end: nat)
    requires start <= off && off + 8 <= a.Length && v < TEN8 && n > 0 && a[start..off] == Digits(n)
    modifies a
    ensures end == off + 8 && a[start..end] == Digits(TEN8 * n + v) && a[..start] == old(a[..start])
  {
    hide Digits;
    end := PutFour(a, start, off, v / 10000, n);
    end := PutFour(a, start, end, v % 10000, 10000 * n + v / 10000);
    assert 10000 * (10000 * n + v / 10000) + v % 10000 == TEN8 * n + v;
  }

  lemma TopSteps(top: nat, n1: nat, n2: nat, n3: nat)
    requires top < 10000 && Steps(0, top / 100, top % 100, n1, n2, n3, top)
    ensures n1 == top / 1000 && n2 == top / 100 && n3 == top / 10
    ensures top < 1000 ==> n1 == 0 && Leads(0, 0x30 + top / 100, n2)
    ensures top < 100 ==> n2 == 0 && Leads(0, Tens(top), n3) && Leads(n3, Units(top), top)
    ensures top < 10 ==> n3 == 0 && Leads(0, 0x30 + top, top)
  {
    hide Tens, Units;
  }

  /** The digits above the lowest sixteen, of which there are at most four. */
  method PutTop(a: array<byte>, off: nat, top: nat) returns (end: nat)
    requires 1 <= top < 10000 && off + 4 <= a.Length
    modifies a
    ensures off < end <= off + 4 && a[off..end] == Digits(top) && a[..off] == old(a[..off])
  {
    ghost var n1, n2, n3 := FourSteps(0, top);
    TopSteps(top, n1, n2, n3);
    Positive(0);
    hide Tens, Units, Lead, Digits;
    if top < 10 {
      end := PutDigit(a, off, off, 0x30 + top, 0, top);
    } else if top < 100 {
      end := PutDigit(a, off, off, Tens(top), 0, n3);
      end := PutDigit(a, off, end, Units(top), n3, top);
    } else if top < 1000 {
      end := PutDigit(a, off, off, 0x30 + top / 100, 0, n2);
      end := PutDigit(a, off, end, Tens(top % 100), n2, n3);
      end := PutDigit(a, off, end, Units(top % 100), n3, top);
    } else {
      end := PutDigit(a, off, off, Tens(top / 100), 0, n1);
      end := PutDigit(a, off, end, Units(top / 100), n1, n2);
      end := PutDigit(a, off, end, Tens(top % 100), n2, n3);
      end := PutDigit(a, off, end, Units(top % 100), n3, top);
    }
  }

  // ----- Signed numbers -----

  predicate IsInt64(n: int) {
    -0x8000_0000_0000_0000 <= n <= 0x7FFF_FFFF_FFFF_FFFF
  }

  function Magnitude(n: int): nat {
    if n < 0 then 0 - n else n
  }

  /** The canonical decimal text of an integer. */
  function IntegerText(n: int): bytes {
    if n < 0 then ['-' as int] + Digits(Magnitude(n)) else Digits(Magnitude(n))
  }

  /** The conversion to an unsigned 64-bit number. */
  function Unsigned(n: int): (u: nat)
    ensures u < TWO64
  {
    n % TWO64
  }

  /** Complement and increment negate the unsigned image of a negative number. */
  lemma Negated(n: int)
    requires IsInt64(n)
    ensures n >= 0 ==> Unsigned(n) == n
    ensures n < 0 ==> Unsigned((TWO64 - 1 - Unsigned(n)) + 1) == Magnitude(n)
  {
    if n < 0 {
      DivModUnique(n + TWO64, TWO64, 0, n + TWO64);
      assert n % TWO64 == (n + TWO64) % TWO64;
    }
  }

  /** The text of any signed 64-bit number. */
  method I64toa(n: int, a: array<byte>, off: nat) returns (end: nat)
    requires IsInt64(n) && off + 21 <= a.Length
    modifies a
    ensures off < end <= off + 21 && a[off..end] == IntegerText(n) && a[..off] == old(a[..off])
  {
    hide Digits, Unsigned;
    Negated(n);
    var u := Unsigned(n);
    if n < 0 {
      a[off] := '-' as int;
      u := Unsigned((TWO64 - 1 - u) + 1);
      ghost var before := a[..off + 1];
      end := U64toa(u, a, off + 1);
      assert a[..off] == a[..off + 1][..off] == before[..off];
      assert a[off..end] == [a[..off + 1][off]] + a[off + 1..end];
    } else {
      end := U64toa(u, a, off);
    }
  }

  // ----- Reading back -----

  function IntegerLiteral(n: int): Literal {
    Literal(n < 0, Digits(Magnitude(n)), [], 'e' as int, [], [])
  }

  /** The parser reads the text of an integer, -2^63 included, as that integer. */
  lemma IntegerReadsBack(n: int)
    requires IsInt64(n)
    ensures WfLiteral(IntegerLiteral(n)) && Unparse(IntegerLiteral(n)) == IntegerText(n)
    ensures LiteralEvent(IntegerLiteral(n)) == Integer(n)
  {
    var m := Magnitude(n);
    var l := IntegerLiteral(n);
    DigitsLead(m);
    DigitsValue(m);
    IntegerIffFits(l);
    assert Unparse(l) == Minus(l) + Digits(m);
  }
}
