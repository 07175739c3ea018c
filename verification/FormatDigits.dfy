/**
 * Decimal significand and exponent to text, as the shortest-double printer formats them: digits are
 * written backwards into a buffer of zeros, trailing zeros are counted and cut off.
 */
module FormatDigits {
  import opened Base
  import opened Decimal
  import opened DigitPairs
  import opened RealText

  const BUFFER: nat := 32

  method Put2(a: array<byte>, p: nat, v: nat)
    requires v < 100 && p + 2 <= a.Length
    modifies a
    ensures a[p..p + 2] == Padded(v, 2)
    ensures a[..p] == old(a[..p]) && a[p + 2..] == old(a[p + 2..])
  {
    PairPadded(v);
    hide Tens, Units;
    a[p] := Tens(v);
    a[p + 1] := Units(v);
  }

  // ----- Stretches of the buffer -----

  lemma ZerosWithin(s: bytes, i: nat, j: nat, a: nat, b: nat)
    requires i <= a <= b <= j <= |s| && s[i..j] == Zeros(j - i)
    ensures s[a..b] == Zeros(b - a)
  {
    forall k | a <= k < b ensures s[k] == 0x30 {
      assert s[i..j][k - i] == Zeros(j - i)[k - i];
    }
  }

  /** What is appended leaves the rest as it is. */
  lemma Appended(s: seq<byte>, s': seq<byte>, off: nat, mark: nat, end: nat)
    requires off <= mark <= end <= |s| == |s'| && s'[..mark] == s[..mark]
    ensures s'[..off] == s[..off] && s'[off..end] == s[off..mark] + s'[mark..end]
  {
    SameWithin(s', s, 0, mark, 0, off);
    SameWithin(s', s, 0, mark, off, mark);
    TwoSlices(s', off, mark, end);
  }

  // ----- Digits backwards -----

  /** The low nd digits of value stand before end, tz of them are trailing zeros, and out is still to come. */
  ghost predicate Backed(s: seq<byte>, end: nat, value: nat, out: nat, nd: nat, tz: nat) {
    var n := NumDigits(value);
    && nd <= n <= end <= |s| && out == Quotient(value, Pow10(nd)) && tz == ZerosOf(value, nd)
    && s[end - nd..end] == Padded(value, nd)
    && s[end - n..end - nd] == Zeros(n - nd)
  }

  /** Bytes outside the digits of value are unchanged. */
  ghost predicate Outside(s: seq<byte>, s': seq<byte>, end: nat, value: nat)
    requires NumDigits(value) <= end <= |s| == |s'|
  {
    s[..end - NumDigits(value)] == s'[..end - NumDigits(value)] && s[end..] == s'[end..]
  }

  /** k more digits in front of the nd low ones. */
  lemma MoreDigits(s: seq<byte>, s': seq<byte>, end: nat, value: nat, out: nat, nd: nat, tz: nat, k: nat)
    requires Backed(s, end, value, out, nd, tz) && nd + k <= NumDigits(value) && |s'| == |s|
    requires s'[end - nd - k..end - nd] == Padded(out, k)
    requires s'[..end - nd - k] == s[..end - nd - k] && s'[end - nd..] == s[end - nd..]
    ensures Backed(s', end, value, Quotient(out, Pow10(k)), nd + k, if tz == nd then nd + ZerosOf(out, k) else tz)
    ensures Outside(s, s', end, value)
  {
    var n := NumDigits(value);
    hide NumDigits, Padded, ZerosOf, Quotient, Pow10;
    Pow10Add(nd, k);
    DivDiv(value, Pow10(nd), Pow10(k));
    PaddedSplit(value, k, nd);
    ZerosSplit(value, k, nd);
    hide Zeros;
    SameWithin(s', s, end - nd, |s|, end - nd, end);
    TwoSlices(s', end - nd - k, end - nd, end);
    SameWithin(s', s, 0, end - nd - k, end - n, end - nd - k);
    ZerosWithin(s, end - n, end - nd, end - n, end - nd - k);
    SameWithin(s', s, 0, end - nd - k, 0, end - n);
    SameWithin(s', s, end - nd, |s|, end, |s|);
  }

  /** A number that is not yet used up has more digits. */
  lemma Room(value: nat, out: nat, nd: nat, k: nat)
    requires nd <= NumDigits(value) && out == Quotient(value, Pow10(nd)) && out >= Pow10(k)
    ensures nd + k < NumDigits(value)
  {
    NumDigitsBounds(value);
    Pow10Add(nd, k);
    QuotientBelow(value, Pow10(nd), Pow10(k));
    var m: nat, n: nat := nd + k, NumDigits(value);
    if n <= m {
      Pow10Monotone(n, m);
    }
  }

  lemma QuotientBelow(n: nat, d: nat, m: nat)
    requires d > 0 && Quotient(n, d) >= m
    ensures n >= d * m
  {
    var q := n / d;
    assert n == q * d + n % d;
    MulLe(m, q, d);
  }

  lemma LowDigits(out: nat, k: nat)
    ensures Padded(out, k) == Padded(Remainder(out, Pow10(k)), k)
    ensures ZerosOf(out, k) == ZerosOf(Remainder(out, Pow10(k)), k)
  {
    PaddedSplit(out, 0, k);
    LowZeros(out, k);
  }

  lemma BackedBounds(s: seq<byte>, end: nat, value: nat, out: nat, nd: nat, tz: nat)
    requires Backed(s, end, value, out, nd, tz)
    ensures nd <= NumDigits(value) <= end <= |s|
  {
  }

  /** Two more digits, the last two of out. */
  method PutPair(a: array<byte>, end: nat, out: nat, nd: nat, tz: nat, ghost value: nat) returns (tz': nat)
    requires Backed(a[..], end, value, out, nd, tz) && nd + 2 <= NumDigits(value)
    modifies a
    ensures Backed(a[..], end, value, Quotient(out, 100), nd + 2, tz')
    ensures Outside(old(a[..]), a[..], end, value)
  {
    hide Padded, ZerosOf, Quotient, Remainder, Pow10, NumDigits, Backed, Outside;
    var r := out % 100;
    Pow10Of2();
    LowBlock(out);
    ghost var before := a[..];
    BackedBounds(before, end, value, out, nd, tz);
    var p := end - nd - 2;
    Put2(a, p, r);
    tz' := tz;
    PairZeros(r);
    if tz == nd {
      tz' := tz + TrailingZerosPair(r);
    }
    ghost var after := a[..];
    assert after[p..p + 2] == a[p..p + 2] && after[p + 2..] == a[p + 2..] && after[..p] == a[..p];
    MoreDigits(before, after, end, value, out, nd, tz, 2);
  }

  lemma Pow10Of2()
    ensures Pow10(2) == 100 && Pow10(4) == 10000 && Pow10(8) == 100000000
  {
    Pow10Add(2, 2);
    Pow10Add(4, 4);
  }

  lemma LowBlock(out: nat)
    ensures Padded(out, 2) == Padded(out % 100, 2) && ZerosOf(out, 2) == ZerosOf(out % 100, 2)
    ensures Padded(out, 4) == Padded(out % 10000, 4) && ZerosOf(out, 4) == ZerosOf(out % 10000, 4)
    ensures Padded(out, 8) == Padded(out % 100000000, 8) && ZerosOf(out, 8) == ZerosOf(out % 100000000, 8)
  {
    hide Padded, ZerosOf, Pow10;
    Pow10Of2();
    LowDigits(out, 2);
    LowDigits(out, 4);
    LowDigits(out, 8);
  }

  lemma PairZeros(v: nat)
    requires v < 100
    ensures TrailingZerosPair(v) == ZerosOf(v, 2)
  {
    assert ZerosOf(v, 2) == if v % 10 != 0 then 0 else 1 + ZerosOf(v / 10, 1);
    assert ZerosOf(v / 10, 1) == if v / 10 % 10 != 0 then 0 else 1 + ZerosOf(v / 10 / 10, 0);
  }

  lemma FourDigits(r: nat)
    requires r < 10000
    ensures Padded(r, 4) == Padded(r / 100, 2) + Padded(r % 100, 2)
    ensures r % 100 == 0 ==> ZerosOf(r, 4) == 2 + TrailingZerosPair(r / 100)
    ensures r % 100 != 0 ==> ZerosOf(r, 4) == TrailingZerosPair(r % 100) < 2
    ensures ZerosOf(r, 4) == 4 <==> r == 0
  {
    Pow10Of2();
    PaddedSplit(r, 2, 2);
    ZerosSplit(r, 2, 2);
    LowDigits(r, 2);
    PairZeros(r / 100);
    PairZeros(r % 100);
  }

  lemma EightDigits(r: nat)
    requires r < 100000000
    ensures Padded(r, 8) == Padded(r / 10000, 4) + Padded(r % 10000, 4)
    ensures r % 10000 == 0 ==> ZerosOf(r, 8) == 4 + ZerosOf(r / 10000, 4)
    ensures r % 10000 != 0 ==> ZerosOf(r, 8) == ZerosOf(r % 10000, 4)
  {
    Pow10Of2();
    PaddedSplit(r, 4, 4);
    ZerosSplit(r, 4, 4);
    LowDigits(r, 4);
    FourDigits(r % 10000);
  }

  lemma {:induction false} NoDigits(k: nat)
    ensures Padded(0, k) == Zeros(k) && ZerosOf(0, k) == k
  {
    if k > 0 {
      NoDigits(k - 1);
    }
  }

  /** Two blocks of bytes written one after the other. */
  lemma Blocks(s: seq<byte>, s': seq<byte>, s'': seq<byte>, p: nat, m: nat, q: nat)
    requires p <= m <= q <= |s| == |s'| == |s''|
    requires s'[..p] == s[..p] && s'[m..] == s[m..] && s''[..m] == s'[..m] && s''[q..] == s'[q..]
    ensures s''[..p] == s[..p] && s''[q..] == s[q..] && s''[p..q] == s'[p..m] + s''[m..q]
  {
    SameWithin(s'', s', 0, m, 0, p);
    SameWithin(s'', s', 0, m, p, m);
    SameWithin(s', s, m, |s|, q, |s|);
    TwoSlices(s'', p, m, q);
  }

  /** Four digits and, unless all are zeros, the number of trailing zeros. */
  method Put4(a: array<byte>, p: nat, r: nat) returns (tz: nat)
    requires r < 10000 && p + 4 <= a.Length
    modifies a
    ensures a[p..p + 4] == Padded(r, 4) && (r != 0 ==> tz == ZerosOf(r, 4) < 4)
    ensures a[..p] == old(a[..p]) && a[p + 4..] == old(a[p + 4..])
  {
    hide Padded, ZerosOf;
    FourDigits(r);
    var rH, rL := r / 100, r % 100;
    ghost var before := a[..];
    Put2(a, p, rH);
    ghost var now := a[..];
    assert now[p..p + 2] == a[p..p + 2] && now[..p] == a[..p] && now[p + 2..] == a[p + 2..];
    Put2(a, p + 2, rL);
    tz := TrailingZerosPair(if rL == 0 then rH else rL) + if rL == 0 then 2 else 0;
    ghost var after := a[..];
    assert after[p + 2..p + 4] == a[p + 2..p + 4] && after[..p + 2] == a[..p + 2] && after[p + 4..] == a[p + 4..];
    Blocks(before, now, after, p, p + 2, p + 4);
    assert after[p..p + 4] == a[p..p + 4] && after[..p] == a[..p];
  }

  /** Eight digits into a buffer of zeros; the result counts the trailing zeros. */
  method Put8SkipZeros(a: array<byte>, p: nat, digits: nat) returns (tz: nat)
    requires 1 <= digits < 100000000 && p + 8 <= a.Length && a[p..p + 8] == Zeros(8)
    modifies a
    ensures a[p..p + 8] == Padded(digits, 8) && tz == ZerosOf(digits, 8)
    ensures a[..p] == old(a[..p]) && a[p + 8..] == old(a[p + 8..])
  {
    var q, r := digits / 10000, digits % 10000;
    EightDigits(digits);
    NoDigits(4);
    hide Padded, ZerosOf, Zeros;
    ghost var before := a[..];
    assert before[p..p + 8] == a[p..p + 8];
    ZerosWithin(before, p, p + 8, p + 4, p + 8);
    tz := Put4(a, p, q);
    SameWithin(a[..], before, p + 4, a.Length, p + 4, p + 8);
    if r == 0 {
      tz := tz + 4;
    } else {
      tz := Put4(a, p + 4, r);
    }
    TwoSlices(a[..], p, p + 4, p + 8);
    assert a[p..p + 8] == a[..][p..p + 8] && a[p..p + 4] == a[..][p..p + 4] && a[p + 4..p + 8] == a[..][p + 4..p + 8];
  }

  /** Four digits; nothing need be written for zeros where the buffer holds zeros. */
  method Put4SkipZeros(a: array<byte>, p: nat, r: nat, zeros: bool) returns (tz: nat)
    requires r < 10000 && p + 4 <= a.Length && (zeros ==> a[p..p + 4] == Zeros(4))
    modifies a
    ensures a[p..p + 4] == Padded(r, 4) && tz == ZerosOf(r, 4)
    ensures a[..p] == old(a[..p]) && a[p + 4..] == old(a[p + 4..])
  {
    NoDigits(4);
    hide Padded, ZerosOf;
    if r != 0 {
      tz := Put4(a, p, r);
    } else {
      tz := 4;
      if !zeros {
        forall i | p <= i < p + 4 {
          a[i] := 0x30;
        }
      }
    }
  }

  lemma ZerosBelow(s: seq<byte>, end: nat, value: nat, out: nat, nd: nat, tz: nat, k: nat)
    requires Backed(s, end, value, out, nd, tz) && nd + k <= NumDigits(value)
    ensures s[end - nd - k..end - nd] == Zeros(k)
  {
    hide Padded, ZerosOf, Quotient, Pow10;
    var n := NumDigits(value);
    hide NumDigits, Zeros;
    ZerosWithin(s, end - n, end - nd, end - nd - k, end - nd);
  }

  /** Four more digits. */
  method PutFour(a: array<byte>, end: nat, out: nat, nd: nat, tz: nat, ghost value: nat) returns (tz': nat)
    requires Backed(a[..], end, value, out, nd, tz) && nd + 4 <= NumDigits(value)
    modifies a
    ensures Backed(a[..], end, value, Quotient(out, 10000), nd + 4, tz')
    ensures Outside(old(a[..]), a[..], end, value)
  {
    hide Padded, ZerosOf, Quotient, Remainder, Pow10, NumDigits, Backed, Outside, Zeros;
    ghost var before := a[..];
    BackedBounds(before, end, value, out, nd, tz);
    ZerosBelow(before, end, value, out, nd, tz, 4);
    Pow10Of2();
    LowBlock(out);
    var p := end - nd - 4;
    assert a[p..p + 4] == before[p..p + 4];
    var z := Put4SkipZeros(a, p, out % 10000, tz == nd);
    tz' := if tz == nd then tz + z else tz;
    ghost var after := a[..];
    assert after[p..p + 4] == a[p..p + 4] && after[p + 4..] == a[p + 4..] && after[..p] == a[..p];
    MoreDigits(before, after, end, value, out, nd, tz, 4);
  }

  /** Once nothing is left to come, all digits stand in the buffer. */
  lemma Complete(s: seq<byte>, end: nat, value: nat, out: nat, nd: nat, tz: nat)
    requires Backed(s, end, value, out, nd, tz) && out == 0 && nd > 0
    ensures nd == NumDigits(value)
  {
    NumDigitsBounds(value);
    QuotientAbove(value, Pow10(nd));
    var n := NumDigits(value);
    if nd < n {
      Pow10Monotone(nd, n - 1);
    }
  }

  lemma QuotientAbove(n: nat, d: nat)
    requires d > 0 && Quotient(n, d) == 0
    ensures n < d
  {
    assert n == n / d * d + n % d;
  }

  lemma OneDigit(d: nat)
    requires d < 10
    ensures Padded(d, 1) == [0x30 + d] && Pow10(1) == 10
    ensures d != 0 ==> ZerosOf(d, 1) == 0
  {
    assert Padded(d, 1) == Padded(0, 0) + [0x30 + d];
  }

  /** The digit that is left when fewer than two are. */
  method PutLast(a: array<byte>, end: nat, out: nat, nd: nat, ghost tz: nat, ghost value: nat)
    requires Backed(a[..], end, value, out, nd, tz) && nd + 1 <= NumDigits(value) && 1 <= out < 10
    modifies a
    ensures Backed(a[..], end, value, 0, nd + 1, tz)
    ensures Outside(old(a[..]), a[..], end, value)
  {
    OneDigit(out);
    ghost var before := a[..];
    a[end - nd - 1] := 0x30 + out;
    assert a[end - nd - 1..end - nd] == Padded(out, 1);
    assert a[..][..end - nd - 1] == before[..end - nd - 1];
    assert a[..][end - nd..] == before[end - nd..];
    MoreDigits(before, a[..], end, value, out, nd, tz, 1);
  }

  /** The lowest eight digits, if there are more than eight. */
  method PutLowEight(a: array<byte>, end: nat, value: nat) returns (tz: nat)
    requires Backed(a[..], end, value, value, 0, 0) && 8 <= NumDigits(value)
    modifies a
    ensures Backed(a[..], end, value, Quotient(value, 100000000), 8, tz)
    ensures Outside(old(a[..]), a[..], end, value)
  {
    hide Padded, ZerosOf, Quotient, Remainder, Pow10, NumDigits;
    var r := value % 100000000;
    ghost var n := NumDigits(value);
    Pow10Of2();
    LowBlock(value);
    NoDigits(8);
    ghost var before := a[..];
    Backing(before, end, value);
    ZerosWithin(before, end - n, end, end - 8, end);
    hide Zeros;
    assert a[end - 8..end] == before[end - 8..end];
    if r != 0 {
      tz := Put8SkipZeros(a, end - 8, r);
    } else {
      tz := 8;
    }
    ghost var after := a[..];
    assert after[end - 8..end] == a[end - 8..end];
    assert after[..end - 8] == a[..end - 8];
    assert after[end..] == a[end..];
    MoreDigits(before, after, end, value, value, 0, 0, 8);
  }

  lemma Backing(s: seq<byte>, end: nat, value: nat)
    requires Backed(s, end, value, value, 0, 0)
    ensures NumDigits(value) <= end <= |s| && s[end - NumDigits(value)..end] == Zeros(NumDigits(value))
  {
  }

  /** Writes the digits of value before end and returns the number of trailing zeros among them. */
  method PrintDecimalDigitsBackwards(a: array<byte>, end: nat, value: nat) returns (tz: nat)
    requires 1 <= value < 100000000000000000
    requires NumDigits(value) <= end <= a.Length && a[end - NumDigits(value)..end] == Zeros(NumDigits(value))
    modifies a
    ensures a[end - NumDigits(value)..end] == Digits(value) && tz == ZerosOf(value, NumDigits(value))
    ensures Outside(old(a[..]), a[..], end, value)
  {
    var out, nd: nat := value, 0;
    tz := 0;
    Pow10Of2();
    assert Pow10(1) == 10 * Pow10(0);
    hide NumDigits, Padded, ZerosOf, Pow10;
    assert Backed(a[..], end, value, value, 0, 0) by { Start(a[..], end, value); }
    if out >= 100000000 {
      Room(value, out, nd, 8);
      tz := PutLowEight(a, end, value);
      out, nd := out / 100000000, 8;
    }
    if out >= 10000 {
      Room(value, out, nd, 4);
      tz := PutFour(a, end, out, nd, tz, value);
      out, nd := out / 10000, nd + 4;
    }
    tz := PutRest(a, end, out, nd, tz, value);
  }

  lemma Start(s: seq<byte>, end: nat, value: nat)
    requires NumDigits(value) <= end <= |s| && s[end - NumDigits(value)..end] == Zeros(NumDigits(value))
    ensures Backed(s, end, value, value, 0, 0)
  {
    assert s[end..end] == Padded(value, 0);
  }

  /** At most five digits are left. */
  method PutRest(a: array<byte>, end: nat, o: nat, n: nat, z: nat, ghost value: nat) returns (tz: nat)
    requires Backed(a[..], end, value, o, n, z) && 1 <= o < 100000
    modifies a
    ensures a[end - NumDigits(value)..end] == Digits(value) && tz == ZerosOf(value, NumDigits(value))
    ensures Outside(old(a[..]), a[..], end, value)
  {
    var out, nd := o, n;
    tz := z;
    Pow10Of2();
    assert Pow10(1) == 10 * Pow10(0);
    hide NumDigits, Padded, ZerosOf, Pow10;
    if out >= 100 {
      Room(value, out, nd, 2);
      tz := PutPair(a, end, out, nd, tz, value);
      out, nd := out / 100, nd + 2;
      if out >= 100 {
        Room(value, out, nd, 2);
        tz := PutPair(a, end, out, nd, tz, value);
        out, nd := out / 100, nd + 2;
      }
    }
    if out >= 10 {
      Room(value, out, nd, 1);
      tz := PutPair(a, end, out, nd, tz, value);
      nd := nd + 2;
    } else {
      Room(value, out, nd, 0);
      PutLast(a, end, out, nd, tz, value);
      nd := nd + 1;
    }
    Complete(a[..], end, value, 0, nd, tz);
  }

  // ----- The number of digits -----

  function DecimalLength(v: nat): nat
    requires 1 <= v < 100000000000000000
  {
    if v / 0x1_0000_0000 != 0 then
      if v >= 10000000000000000 then 17
      else if v >= 1000000000000000 then 16
      else if v >= 100000000000000 then 15
      else if v >= 10000000000000 then 14
      else if v >= 1000000000000 then 13
      else if v >= 100000000000 then 12
      else if v >= 10000000000 then 11
      else 10
    else if v >= 1000000000 then 10
    else if v >= 100000000 then 9
    else if v >= 10000000 then 8
    else if v >= 1000000 then 7
    else if v >= 100000 then 6
    else if v >= 10000 then 5
    else if v >= 1000 then 4
    else if v >= 100 then 3
    else if v >= 10 then 2
    else 1
  }

  lemma DecimalLengthIsExact(v: nat)
    requires 1 <= v < 100000000000000000
    ensures DecimalLength(v) == NumDigits(v)
  {
    assert Pow10(1) == 10 && Pow10(2) == 100 && Pow10(3) == 1000 && Pow10(4) == 10000;
    assert Pow10(5) == 100000 && Pow10(6) == 1000000 && Pow10(7) == 10000000 && Pow10(8) == 100000000;
    assert Pow10(9) == 1000000000 && Pow10(10) == 10000000000 && Pow10(11) == 100000000000;
    assert Pow10(12) == 1000000000000 && Pow10(13) == 10000000000000 && Pow10(14) == 100000000000000;
    assert Pow10(15) == 1000000000000000 && Pow10(16) == 10000000000000000 && Pow10(17) == 100000000000000000;
    NumDigitsUnique(v, DecimalLength(v));
  }

  // ----- The text -----

  /** The buffer holds core at pos and zeros around it. */
  ghost predicate Shaped(w: seq<byte>, pos: nat, core: bytes) {
    pos + |core| <= BUFFER && w == Zeros(pos) + core + Zeros(BUFFER - pos - |core|)
  }

  /** Fills the buffer with zeros and puts the digits at pos; n of them are not trailing zeros. */
  method Prepare(a: array<byte>, off: nat, pos: nat, digits: nat, length: nat) returns (n: nat)
    requires 1 <= digits < 100000000000000000 && length == NumDigits(digits)
    requires off + BUFFER <= a.Length && pos + length <= BUFFER
    modifies a
    ensures n == |Core(digits)| && Shaped(a[off..off + BUFFER], pos, Core(digits))
    ensures a[..off] == old(a[..off])
  {
    hide Zeros, Shaped;
    FillZeros(a, off, BUFFER);
    ghost var before := a[..];
    assert before[off..off + BUFFER] == a[off..off + BUFFER] && before[..off] == a[..off];
    var end := off + pos + length;
    ZerosWithin(before, off, off + BUFFER, end - length, end);
    assert a[end - length..end] == before[end - length..end];
    var tz := PrintDecimalDigitsBackwards(a, end, digits);
    ghost var after := a[..];
    assert after[end - length..end] == a[end - length..end];
    n := length - tz;
    CoreNotEmpty(digits);
    Filled(before, after, off, pos, digits, length);
    assert a[off..off + BUFFER] == after[off..off + BUFFER] && a[..off] == after[..off];
  }

  method FillZeros(a: array<byte>, off: nat, n: nat)
    requires off + n <= a.Length
    modifies a
    ensures a[off..off + n] == Zeros(n) && a[..off] == old(a[..off])
  {
    forall i | off <= i < off + n {
      a[i] := 0x30;
    }
  }

  lemma Filled(before: seq<byte>, s: seq<byte>, off: nat, pos: nat, digits: nat, length: nat)
    requires length == NumDigits(digits) && |s| == |before| && off + BUFFER <= |s| && pos + length <= BUFFER
    requires before[off..off + BUFFER] == Zeros(BUFFER)
    requires Outside(before, s, off + pos + length, digits)
    requires s[off + pos..off + pos + length] == Digits(digits) == Core(digits) + Zeros(Cut(digits))
    ensures Shaped(s[off..off + BUFFER], pos, Core(digits)) && s[..off] == before[..off]
  {
    hide NumDigits, Core, Digits, Zeros;
    var start, end, stop := off + pos, off + pos + length, off + BUFFER;
    SameWithin(s, before, 0, start, off, start);
    ZerosWithin(before, off, stop, off, start);
    SameWithin(s, before, end, |s|, end, stop);
    ZerosWithin(before, off, stop, end, stop);
    ThreeSlices(s, off, start, end, stop);
    assert Core(digits) + Zeros(Cut(digits)) + Zeros(stop - end) == Core(digits) + (Zeros(Cut(digits)) + Zeros(stop - end));
    MoreZeros(Cut(digits), stop - end);
    JoinZeros(Zeros(pos), Core(digits), Zeros(Cut(digits)), Zeros(stop - end));
    SameWithin(s, before, 0, start, 0, off);
  }

  lemma JoinZeros(a: bytes, b: bytes, c: bytes, d: bytes)
    ensures a + (b + c) + d == a + b + (c + d)
  {
  }

  lemma MoreZeros(m: nat, n: nat)
    ensures Zeros(m) + Zeros(n) == Zeros(m + n)
  {
    forall i | 0 <= i < m ensures Zeros(m)[i] == Zeros(m + n)[i] {
    }
  }

  /** Where the buffer holds the first digit. */
  function DigitsAt(point: int): nat {
    if !IsFixed(point) then 1 else if point <= 0 then 2 - point else 0
  }

  lemma Shapes(w: seq<byte>, pos: nat, core: bytes)
    requires |w| == BUFFER && Shaped(w, pos, core)
    ensures pos + |core| <= BUFFER && w[pos..pos + |core|] == core
    ensures forall i | 0 <= i < pos || pos + |core| <= i < BUFFER :: w[i] == 0x30
  {
  }

  lemma FractionShape(s: seq<byte>, s': seq<byte>, off: nat, k: nat, core: bytes)
    requires off + BUFFER <= |s| == |s'| && Shaped(s[off..off + BUFFER], k + 2, core)
    requires s'[off + 1] == '.' as int && forall i | 0 <= i < |s| && i != off + 1 :: s'[i] == s[i]
    ensures k + 2 + |core| <= BUFFER && s'[off..off + (k + 2 + |core|)] == FractionText(core, k)
    ensures s'[..off] == s[..off]
  {
    var w := s[off..off + BUFFER];
    Shapes(w, k + 2, core);
    hide Shaped;
    var n, u := |core|, s'[off..off + (k + 2 + |core|)];
    assert u[0] == w[0] == 0x30 && u[1] == '.' as int;
    forall i | 0 <= i < k ensures u[2 + i] == Zeros(k)[i] {
      assert s'[off + 2 + i] == w[2 + i];
    }
    forall i | 0 <= i < n ensures u[k + 2 + i] == core[i] {
      assert s'[off + k + 2 + i] == w[k + 2 + i] == w[k + 2..k + 2 + n][i];
    }
    ThreeParts(u, k, core);
  }

  lemma ThreeParts(u: bytes, k: nat, core: bytes)
    requires |u| == k + 2 + |core| && u[0] == 0x30 && u[1] == '.' as int
    requires forall i | 0 <= i < k :: u[2 + i] == Zeros(k)[i]
    requires forall i | 0 <= i < |core| :: u[k + 2 + i] == core[i]
    ensures u == FractionText(core, k)
  {
    hide Zeros;
    assert u[2..k + 2] == Zeros(k);
    assert u[k + 2..] == core;
    assert u == [u[0], u[1]] + u[2..k + 2] + u[k + 2..];
  }

  /** 0.[000]digits. */
  method PutFraction(a: array<byte>, off: nat, point: int, n: nat, ghost core: bytes) returns (end: nat)
    requires off + BUFFER + 1 <= a.Length && MIN_FIXED <= point <= 0 && 1 <= |core| == n <= 17
    requires Shaped(a[off..off + BUFFER], 2 - point, core)
    modifies a
    ensures off < end <= off + BUFFER && a[off..end] == FractionText(core, 0 - point)
    ensures a[..off] == old(a[..off])
  {
    hide Shaped, FractionText;
    ghost var before := a[..];
    assert before[off..off + BUFFER] == a[off..off + BUFFER];
    a[off + 1] := '.' as int;
    end := off + (2 - point + n);
    FractionShape(before, a[..], off, 0 - point, core);
    assert a[off..end] == a[..][off..end];
    assert a[..off] == a[..][..off];
  }

  lemma PlainShape(s: seq<byte>, off: nat, core: bytes)
    requires off + BUFFER <= |s| && Shaped(s[off..off + BUFFER], 0, core)
    ensures |core| <= BUFFER && s[off..off + |core|] == core
    ensures forall i | off + |core| <= i < off + BUFFER :: s[i] == 0x30
  {
    var w := s[off..off + BUFFER];
    Shapes(w, 0, core);
    hide Shaped;
    assert s[off..off + |core|] == w[..|core|];
    assert forall i | |core| <= i < BUFFER :: s[off + i] == w[i];
  }

  /** Moves sixteen bytes up by one. */
  method Move16(a: array<byte>, p: nat)
    requires p + 17 <= a.Length
    modifies a
    ensures a[..p + 1] == old(a[..p + 1]) && a[p + 17..] == old(a[p + 17..])
    ensures a[p + 1..p + 17] == old(a[p..p + 16])
  {
    ghost var before := a[..];
    forall i | 0 <= i < 16 {
      a[p + 1 + i] := a[p + i];
    }
    ghost var after := a[..];
    assert forall k | p + 1 <= k < p + 17 :: after[k] == before[k - 1] by {
      forall k | p + 1 <= k < p + 17 ensures after[k] == before[k - 1] {
        assert a[p + 1 + (k - p - 1)] == before[p + (k - p - 1)];
      }
    }
    UpByOne(before, after, p);
    assert a[..p + 1] == after[..p + 1] && a[p + 17..] == after[p + 17..] && a[p + 1..p + 17] == after[p + 1..p + 17];
  }

  lemma UpByOne(before: seq<byte>, after: seq<byte>, p: nat)
    requires p + 17 <= |before| == |after| && forall k | p + 1 <= k < p + 17 :: after[k] == before[k - 1]
    requires forall k | 0 <= k < |before| && !(p + 1 <= k < p + 17) :: after[k] == before[k]
    ensures after[..p + 1] == before[..p + 1] && after[p + 17..] == before[p + 17..]
    ensures after[p + 1..p + 17] == before[p..p + 16]
  {
    var up, from := after[p + 1..p + 17], before[p..p + 16];
    forall i | 0 <= i < 16 ensures up[i] == from[i] {
      assert up[i] == after[p + 1 + i];
    }
  }

  /** dig.its: the digits behind the point move up by one. */
  method PutPoint(a: array<byte>, off: nat, point: int, n: nat, ghost core: bytes) returns (end: nat)
    requires off + BUFFER + 1 <= a.Length && 0 < point < |core| == n <= 17
    requires Shaped(a[off..off + BUFFER], 0, core)
    modifies a
    ensures off < end <= off + BUFFER && a[off..end] == PointText(core, point)
    ensures a[..off] == old(a[..off])
  {
    var p := off + point;
    ghost var before := a[..];
    PlainShape(before, off, core);
    hide Shaped;
    Move16(a, p);
    ghost var moved := a[..];
    assert moved[..p + 1] == a[..p + 1] && before[..p + 1] == old(a[..p + 1]);
    SameWithin(moved, before, 0, p + 1, 0, p);
    a[p] := '.' as int;
    end := off + n + 1;
    ghost var after := a[..];
    assert after[..p] == moved[..p] && after[p + 1..p + 17] == moved[p + 1..p + 17] == before[p..p + 16];
    PointMoved(before, after, off, p, n, core);
    assert a[off..end] == after[off..end] && a[..off] == after[..off];
  }

  lemma PointMoved(s: seq<byte>, s': seq<byte>, off: nat, p: nat, n: nat, core: bytes)
    requires off < p < off + n <= p + 16 && p + 17 <= |s| == |s'| && |core| == n && s[off..off + n] == core
    requires s'[..p] == s[..p] && s'[p] == '.' as int && s'[p + 1..p + 17] == s[p..p + 16]
    ensures s'[off..off + n + 1] == core[..p - off] + ['.' as int] + core[p - off..]
    ensures s'[..off] == s[..off]
  {
    SameWithin(s', s, 0, p, off, p);
    SameWithin(s', s, 0, p, 0, off);
    SliceOf(s, off, off + n, 0, p - off);
    SliceOf(s, off, off + n, p - off, n);
    Shortened(s, p, s', p + 1, 16, off + n - p);
    ThreeSlices(s', off, p, p + 1, off + n + 1);
  }

  /** Stretches that are equal have equal beginnings. */
  lemma Shortened(s: seq<byte>, i: nat, s': seq<byte>, j: nat, n: nat, m: nat)
    requires m <= n && i + n <= |s| && j + n <= |s'| && s[i..i + n] == s'[j..j + n]
    ensures s[i..i + m] == s'[j..j + m]
  {
    SliceOf(s, i, i + n, 0, m);
    SliceOf(s', j, j + n, 0, m);
  }

  lemma WholeShape(s: seq<byte>, s': seq<byte>, off: nat, k: nat, core: bytes, force: bool)
    requires off + BUFFER <= |s| == |s'| && Shaped(s[off..off + BUFFER], 0, core) && |core| + k + 2 <= BUFFER
    requires forall i | 0 <= i < off + |core| + k :: s'[i] == s[i]
    requires force ==> s'[off + |core| + k] == '.' as int && s'[off + |core| + k + 1] == 0x30
    ensures s'[off..off + |core| + k + if force then 2 else 0] == WholeText(core, k, force)
    ensures s'[..off] == s[..off]
  {
    PlainShape(s, off, core);
    hide Shaped;
    var p := off + |core|;
    assert s'[off..p] == s[off..p];
    assert s'[p..p + k] == Zeros(k);
    assert s'[off..p + k] == s'[off..p] + s'[p..p + k];
    if force {
      assert s'[off..p + k + 2] == s'[off..p + k] + [s'[p + k], s'[p + k + 1]];
    } else {
      assert core + Zeros(k) + [] == core + Zeros(k);
    }
  }

  /** digits[000].0 or digits[000]. */
  method PutWhole(a: array<byte>, off: nat, point: int, n: nat, force: bool, ghost core: bytes) returns (end: nat)
    requires off + BUFFER + 1 <= a.Length && |core| == n <= point <= MAX_FIXED && n >= 1
    requires Shaped(a[off..off + BUFFER], 0, core)
    modifies a
    ensures off < end <= off + BUFFER && a[off..end] == WholeText(core, point - n, force)
    ensures a[..off] == old(a[..off])
  {
    hide Shaped, WholeText;
    ghost var before := a[..];
    assert before[off..off + BUFFER] == a[off..off + BUFFER];
    end := off + point;
    if force {
      a[end] := '.' as int;
      a[end + 1] := 0x30;
      end := end + 2;
    }
    WholeShape(before, a[..], off, point - n, core, force);
    assert a[off..end] == a[..][off..end];
    assert a[..off] == a[..][..off];
  }

  /** dig.its, digits[000].0 or 0.[000]digits. */
  method PutPlain(a: array<byte>, off: nat, point: int, n: nat, force: bool, ghost core: bytes) returns (end: nat)
    requires off + BUFFER + 1 <= a.Length && IsFixed(point) && 1 <= |core| == n <= 17
    requires Shaped(a[off..off + BUFFER], DigitsAt(point), core)
    modifies a
    ensures off < end <= off + BUFFER && a[off..end] == PlainText(core, point, force)
    ensures a[..off] == old(a[..off])
  {
    hide Shaped;
    if point <= 0 {
      end := PutFraction(a, off, point, n, core);
    } else if point < n {
      end := PutPoint(a, off, point, n, core);
    } else {
      end := PutWhole(a, off, point, n, force, core);
    }
  }

  /** The digits of an exponent. */
  method PutExponent(a: array<byte>, off: nat, k: nat) returns (end: nat)
    requires k <= 20000 && off + 3 <= a.Length
    modifies a
    ensures off < end <= off + 3 && a[off..end] == ExponentDigits(k)
    ensures a[..off] == old(a[..off])
  {
    if k < 10 {
      a[off] := 0x30 + k;
      end := off + 1;
    } else if k < 100 {
      Put2(a, off, k);
      end := off + 2;
    } else {
      end := PutThree(a, off, k);
    }
  }

  method PutThree(a: array<byte>, off: nat, k: nat) returns (end: nat)
    requires k <= 20000 && off + 3 <= a.Length
    modifies a
    ensures end == off + 3 && a[off..end] == [0x30 + k / 100] + Padded(k % 100, 2) && a[..off] == old(a[..off])
  {
    hide Padded;
    a[off] := 0x30 + k / 100;
    ghost var now := a[..];
    assert now[off..off + 1] == [0x30 + k / 100] && now[..off] == old(a[..off]);
    Put2(a, off + 1, k % 100);
    end := off + 3;
    assert a[..][..off + 1] == a[..off + 1] == now[..off + 1];
    Appended(now, a[..], off, off + 1, end);
    assert a[off..end] == a[..][off..end] && a[off + 1..end] == a[..][off + 1..end] && a[..off] == a[..][..off];
  }

  lemma MantissaShape(s: seq<byte>, s': seq<byte>, off: nat, n: nat, core: bytes)
    requires off + BUFFER <= |s| == |s'| && Shaped(s[off..off + BUFFER], 1, core) && |core| == n >= 1
    requires s'[off] == s[off + 1] && (n != 1 ==> s'[off + 1] == '.' as int)
    requires forall i | 0 <= i < off || off + 2 <= i < |s| :: s'[i] == s[i]
    ensures n == 1 ==> s'[off..off + 1] == core[..1] + []
    ensures n != 1 ==> s'[off..off + 1 + n] == core[..1] + (['.' as int] + core[1..])
    ensures s'[..off] == s[..off]
  {
    var w := s[off..off + BUFFER];
    Shapes(w, 1, core);
    hide Shaped;
    assert forall i | 0 <= i < n :: s[off + 1 + i] == w[1 + i] == core[i];
    hide Zeros;
  }

  /** d or d.igits. */
  method PutMantissa(a: array<byte>, off: nat, n: nat, ghost core: bytes) returns (end: nat)
    requires off + BUFFER <= a.Length && 1 <= |core| == n <= 17 && Shaped(a[off..off + BUFFER], 1, core)
    modifies a
    ensures off < end <= off + 18 && a[off..end] == core[..1] + if n == 1 then [] else ['.' as int] + core[1..]
    ensures a[..off] == old(a[..off])
  {
    hide Shaped;
    ghost var before := a[..];
    assert before[off..off + BUFFER] == a[off..off + BUFFER];
    a[off] := a[off + 1];
    end := off + 1;
    if n != 1 {
      a[off + 1] := '.' as int;
      end := off + 1 + n;
    }
    MantissaShape(before, a[..], off, n, core);
    assert a[off..end] == a[..][off..end];
    assert a[..off] == a[..][..off];
  }

  /** The mark of an exponent, its sign and its digits. */
  method PutMark(a: array<byte>, off: nat, exponent: int) returns (end: nat)
    requires off + 5 <= a.Length && -20000 <= exponent <= 20000
    modifies a
    ensures off < end <= off + 5 && a[..off] == old(a[..off])
    ensures a[off..end] == if exponent < 0 then ['e' as int, '-' as int] + ExponentDigits(0 - exponent)
      else ['e' as int, '+' as int] + ExponentDigits(exponent)
  {
    hide ExponentDigits;
    ghost var now := a[..];
    var sign: byte := if exponent < 0 then '-' as int else '+' as int;
    a[off], a[off + 1] := 'e' as int, sign;
    ghost var marked := a[..];
    assert marked[off..off + 2] == ['e' as int, sign];
    assert marked[..off] == now[..off];
    end := PutExponent(a, off + 2, if exponent < 0 then 0 - exponent else exponent);
    assert a[..][..off + 2] == a[..off + 2] == marked[..off + 2];
    Appended(marked, a[..], off, off + 2, end);
    assert a[off..end] == a[..][off..end] && a[off + 2..end] == a[..][off + 2..end] && a[..off] == a[..][..off];
  }

  /** dE+123 or d.igitsE+123. */
  method PutScientific(a: array<byte>, off: nat, exponent: int, n: nat, ghost core: bytes) returns (end: nat)
    requires off + BUFFER <= a.Length && 1 <= |core| == n <= 17 && -20000 <= exponent <= 20000
    requires Shaped(a[off..off + BUFFER], 1, core)
    modifies a
    ensures off < end <= off + BUFFER && a[off..end] == ScientificText(core, exponent)
    ensures a[..off] == old(a[..off])
  {
    hide ExponentDigits, Shaped;
    var mark := PutMantissa(a, off, n, core);
    ghost var now := a[..];
    assert now[off..mark] == a[off..mark] && now[..off] == a[..off];
    end := PutMark(a, mark, exponent);
    assert a[..][..mark] == a[..mark] == now[..mark];
    Appended(now, a[..], off, mark, end);
    assert a[off..end] == a[..][off..end] && a[mark..end] == a[..][mark..end] && a[..off] == a[..][..off];
  }

  /** The text of digits * 10^exponent, from off on. */
  method FormatDigits(a: array<byte>, off: nat, digits: nat, exponent: int, force: bool) returns (end: nat)
    requires 1 <= digits < 100000000000000000 && -999 <= exponent <= 999 && off + BUFFER + 1 <= a.Length
    modifies a
    ensures off < end <= off + BUFFER && a[off..end] == DigitsText(digits, exponent, force)
    ensures a[..off] == old(a[..off])
  {
    var length := DecimalLength(digits);
    DecimalLengthIsExact(digits);
    AtMost17(digits);
    CoreNotEmpty(digits);
    hide DecimalLength, Core, NumDigits, PlainText, ScientificText;
    var point := length + exponent;
    var n := Prepare(a, off, DigitsAt(point), digits, length);
    if IsFixed(point) {
      end := PutPlain(a, off, point, n, force, Core(digits));
    } else {
      end := PutScientific(a, off, point - 1, n, Core(digits));
    }
  }

  /** The text of a finite double, given as the shortest decimal that denotes it; 0 has the significand 0. */
  method Dtoa(a: array<byte>, off: nat, neg: bool, sig: nat, exp: int) returns (end: nat)
    requires IsShortest(sig, exp) && off + BUFFER + 2 <= a.Length
    modifies a
    ensures off < end <= off + 1 + BUFFER && a[off..end] == DoubleText(neg, sig, exp)
    ensures a[..off] == old(a[..off])
  {
    hide DigitsText;
    a[off] := '-' as int;
    var start := if neg then off + 1 else off;
    ghost var now := a[..];
    assert now[off..start] == if neg then ['-' as int] else [];
    if sig != 0 {
      end := FormatDigits(a, start, sig, exp, true);
    } else {
      end := PutZero(a, start);
    }
    assert a[..][..start] == a[..start] == now[..start];
    Appended(now, a[..], off, start, end);
    assert a[off..end] == a[..][off..end] && a[start..end] == a[..][start..end] && a[..off] == a[..][..off];
    assert now[..off] == old(a[..off]);
  }

  /** 0.0 */
  method PutZero(a: array<byte>, off: nat) returns (end: nat)
    requires off + 3 <= a.Length
    modifies a
    ensures end == off + 3 && a[off..end] == [0x30, '.' as int, 0x30] && a[..off] == old(a[..off])
  {
    a[off] := 0x30;
    a[off + 1] := '.' as int;
    a[off + 2] := 0x30;
    end := off + 3;
  }
}
