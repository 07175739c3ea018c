/** The tables of the digits of the numbers below 100, which the printers of numbers share. */
module DigitPairs {
  import opened Base
  import opened Decimal

  /** Row r of the table holds the pairs of digits from 10 * r to 10 * r + 9. */
  function PairsRow(r: nat): string
    requires r < 10
  {
    match r
    case 0 => "00010203040506070809"
    case 1 => "10111213141516171819"
    case 2 => "20212223242526272829"
    case 3 => "30313233343536373839"
    case 4 => "40414243444546474849"
    case 5 => "50515253545556575859"
    case 6 => "60616263646566676869"
    case 7 => "70717273747576777879"
    case 8 => "80818283848586878889"
    case 9 => "90919293949596979899"
  }

  lemma LowRow(r: nat, j: nat)
    requires r < 5 && j < 10
    ensures |PairsRow(r)| == 20
    ensures PairsRow(r)[2 * j] as int == 0x30 + r && PairsRow(r)[2 * j + 1] as int == 0x30 + j
  {
    match r
    case 0 => RowShape("00010203040506070809", r, j);
    case 1 => RowShape("10111213141516171819", r, j);
    case 2 => RowShape("20212223242526272829", r, j);
    case 3 => RowShape("30313233343536373839", r, j);
    case 4 => RowShape("40414243444546474849", r, j);
  }

  lemma HighRow(r: nat, j: nat)
    requires 5 <= r < 10 && j < 10
    ensures |PairsRow(r)| == 20
    ensures PairsRow(r)[2 * j] as int == 0x30 + r && PairsRow(r)[2 * j + 1] as int == 0x30 + j
  {
    match r
    case 5 => RowShape("50515253545556575859", r, j);
    case 6 => RowShape("60616263646566676869", r, j);
    case 7 => RowShape("70717273747576777879", r, j);
    case 8 => RowShape("80818283848586878889", r, j);
    case 9 => RowShape("90919293949596979899", r, j);
  }

  lemma RowShape(s: string, r: nat, j: nat)
    requires j < 10 && |s| == 20
    requires s[0] == s[2] == s[4] == s[6] == s[8] == s[10] == s[12] == s[14] == s[16] == s[18]
    requires s[0] as int == 0x30 + r
    requires s[1] == '0' && s[3] == '1' && s[5] == '2' && s[7] == '3' && s[9] == '4'
    requires s[11] == '5' && s[13] == '6' && s[15] == '7' && s[17] == '8' && s[19] == '9'
    ensures s[2 * j] as int == 0x30 + r && s[2 * j + 1] as int == 0x30 + j
  {
  }

  /** The table entry at twice v. */
  function Tens(v: nat): (b: byte)
    requires v < 100
    ensures b == 0x30 + v / 10
  {
    if v < 50 then LowRow(v / 10, v % 10); PairsRow(v / 10)[2 * (v % 10)] as int
    else HighRow(v / 10, v % 10); PairsRow(v / 10)[2 * (v % 10)] as int
  }

  /** The table entry behind it. */
  function Units(v: nat): (b: byte)
    requires v < 100
    ensures b == 0x30 + v % 10
  {
    if v < 50 then LowRow(v / 10, v % 10); PairsRow(v / 10)[2 * (v % 10) + 1] as int
    else HighRow(v / 10, v % 10); PairsRow(v / 10)[2 * (v % 10) + 1] as int
  }

  /** The table of the numbers of trailing zeros of two digits. */
  function TrailingZerosPair(v: nat): nat
    requires v < 100
  {
    if v == 0 then 2 else if v % 10 == 0 then 1 else 0
  }

  lemma TwoPadded(v: nat)
    ensures Padded(v, 2) == [0x30 + v / 10 % 10, 0x30 + v % 10]
  {
    assert Padded(v, 2) == Padded(v / 10, 1) + [0x30 + v % 10];
    assert Padded(v / 10, 1) == Padded(v / 10 / 10, 0) + [0x30 + v / 10 % 10];
  }

  lemma PairPadded(v: nat)
    requires v < 100
    ensures Padded(v, 2) == [Tens(v), Units(v)]
  {
    hide Tens, Units;
    TwoPadded(v);
  }
}
