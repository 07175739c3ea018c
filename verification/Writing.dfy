/** What the printer writes for each event, with the bytes and the bounds spelled out. */
module Writing {
  import opened Base
  import opened Utf8
  import opened Escape
  import opened Printing
  import Itoa
  import RealText

  /** The names of null and the two booleans. */
  lemma NamesAreWritten(f: Flags, indent: nat, validate: bool)
    ensures Print(f, Null, indent, validate).text == PrefixText(f, indent) + [0x6E, 0x75, 0x6C, 0x6C]
    ensures Print(f, Boolean(true), indent, validate).text == PrefixText(f, indent) + [0x74, 0x72, 0x75, 0x65]
    ensures Print(f, Boolean(false), indent, validate).text == PrefixText(f, indent) + [0x66, 0x61, 0x6C, 0x73, 0x65]
  {
    hide PrefixText;
  }

  /** The brackets; before a closing one comes a line, where anything was written behind the opening one. */
  lemma BracketsAreWritten(f: Flags, indent: nat, validate: bool)
    ensures Print(f, StartArray, indent, validate).text == PrefixText(f, indent) + [0x5B]
    ensures Print(f, StartObject, indent, validate).text == PrefixText(f, indent) + [0x7B]
    ensures Print(f, EndArray, indent, validate).text == EndPrefixText(f, indent) + [0x5D]
    ensures Print(f, EndObject, indent, validate).text == EndPrefixText(f, indent) + [0x7D]
  {
    hide PrefixText, EndPrefixText;
  }

  /** Without indentation nothing but a comma comes before a value or a key, and nothing before a closing bracket. */
  lemma CompactPrefixes(f: Flags)
    ensures PrefixText(f, 0) == if f.comma && !f.key then [0x2C] else []
    ensures !f.key ==> EndPrefixText(f, 0) == []
  {
  }

  /** A string stands between quotes; behind a key comes a colon, and a space where there is indentation. */
  lemma StringsAreWritten(f: Flags, s: bytes, indent: nat, validate: bool)
    requires EscapeFrom(s, 0, validate).ok
    ensures var quoted := [0x22] + EscapeFrom(s, 0, validate).text + [0x22];
      && Print(f, Str(s), indent, validate).text == PrefixText(f, indent) + quoted
      && Print(f, Key(s), indent, validate).text
         == PrefixText(f, indent) + quoted + if indent > 0 then [0x3A, 0x20] else [0x3A]
  {
    hide PrefixText, EscapeFrom;
    var p, e := PrefixText(f, indent), EscapeFrom(s, 0, validate).text;
    JoinQuoted(p, e, []);
    JoinQuoted(p, e, ColonText(indent));
    assert [0x22] + e + [0x22] + [] == [0x22] + e + [0x22];
    Assoc(p, [0x22] + e + [0x22], ColonText(indent));
  }

  /** Every 64-bit integer is printed. */
  lemma IntegersArePrintable(n: int)
    ensures Printable(Integer(n)) <==> -9223372036854775808 <= n <= 9223372036854775807
  {
  }

  /** Upper case digits are written. */
  function Hex(v: nat): byte
    requires v < 16
  {
    if v < 10 then 0x30 + v else 0x41 + (v - 10)
  }

  /**
   * What is written for a byte that no longer sequence starts with: the quote, the backslash and five control bytes
   * have an escape of two characters, the other control bytes are written with four digits, and all else is copied.
   */
  lemma BytesAreWritten(s: bytes, p: nat, validate: bool)
    requires p < |s| && (validate ==> s[p] < 0x80)
    ensures var b := s[p];
      EscapeFrom(s, p, validate) == Prefixed(
        if b == 0x22 then [0x5C, 0x22]
        else if b == 0x5C then [0x5C, 0x5C]
        else if b == 0x08 then [0x5C, 0x62]
        else if b == 0x09 then [0x5C, 0x74]
        else if b == 0x0A then [0x5C, 0x6E]
        else if b == 0x0C then [0x5C, 0x66]
        else if b == 0x0D then [0x5C, 0x72]
        else if b < 0x20 then [0x5C, 0x75, 0x30, 0x30, Hex(b / 16), Hex(b % 16)]
        else [b],
        EscapeFrom(s, p + 1, validate))
  {
  }

  /** A byte above 0x7F that is validated: its sequence is copied, or ends what is written. */
  lemma SequencesAreWritten(s: bytes, p: nat)
    requires p < |s| && s[p] >= 0x80
    ensures SequenceLength(s, p) == -1 ==> EscapeFrom(s, p, true) == Escaped([], false)
    ensures SequenceLength(s, p) != -1 ==>
      && p + SequenceLength(s, p) <= |s|
      && EscapeFrom(s, p, true) == Prefixed(s[p..p + SequenceLength(s, p)], EscapeFrom(s, p + SequenceLength(s, p), true))
  {
    hide SequenceLength;
    if SequenceLength(s, p) != -1 {
      SequenceFits(s, p);
    }
  }

  /** A string that is not valid is written up to what is wrong with it. */
  lemma BrokenStrings(f: Flags, s: bytes, indent: nat)
    requires !EscapeFrom(s, 0, true).ok
    ensures Print(f, Str(s), indent, true).text == PrefixText(f, indent) + [0x22] + EscapeFrom(s, 0, true).text
    ensures !Print(f, Str(s), indent, true).ok && !Print(f, Key(s), indent, true).ok
  {
    hide PrefixText, EscapeFrom;
  }

  /** The level is a 32-bit number: it wraps around below 0 and above. */
  lemma LevelsWrap(f: Flags, indent: nat, validate: bool)
    requires f.level <= 0xFFFF_FFFF
    ensures Print(f, StartArray, indent, validate).next.level == if f.level == 0xFFFF_FFFF then 0 else f.level + 1
    ensures Print(f, StartObject, indent, validate).next.level == if f.level == 0xFFFF_FFFF then 0 else f.level + 1
    ensures Print(f, EndArray, indent, validate).next.level == if f.level == 0 then 0xFFFF_FFFF else f.level - 1
    ensures Print(f, EndObject, indent, validate).next.level == if f.level == 0 then 0xFFFF_FFFF else f.level - 1
  {
  }

  lemma FirstPrinted(f: Flags, e: Event, rest: seq<Event>, indent: nat, validate: bool)
    requires AllPrintable([e] + rest)
    ensures Printable(e) && AllPrintable(rest)
    ensures var p := Print(f, e, indent, validate);
      PrintAll(f, [e] + rest, indent, validate) == Then(p, PrintAll(p.next, rest, indent, validate))
  {
    hide Print, Printable;
    assert ([e] + rest)[1..] == rest && ([e] + rest)[0] == e;
    assert forall i | 0 <= i < |rest| :: rest[i] == ([e] + rest)[i + 1];
  }

  /** A scalar leaves a comma for what follows, a container at the top level does not. */
  lemma FlagsBehind(f: Flags, validate: bool)
    requires !f.key && f.level == 0 && !f.comma
    ensures Print(f, Null, 0, validate) == Printed([0x6E, 0x75, 0x6C, 0x6C], f.(comma := true), true)
    ensures Print(f.(comma := true), Null, 0, validate) == Printed([0x2C, 0x6E, 0x75, 0x6C, 0x6C], f.(comma := true), true)
    ensures Print(f, StartArray, 0, validate) == Printed([0x5B], f.(level := 1), true)
    ensures Print(f.(level := 1), EndArray, 0, validate) == Printed([0x5D], f, true)
  {
  }

  lemma TwoScalars(validate: bool)
    ensures AllPrintable([Null] + [Null])
    ensures PrintAll(START, [Null] + [Null], 0, validate).text == [0x6E, 0x75, 0x6C, 0x6C, 0x2C, 0x6E, 0x75, 0x6C, 0x6C]
  {
    hide Print, PrintAll;
    FlagsBehind(START, validate);
    PrintOne(START.(comma := true), Null, 0, validate);
    FirstPrinted(START, Null, [Null], 0, validate);
  }

  lemma ContainerAndScalar(validate: bool)
    ensures AllPrintable([StartArray] + ([EndArray] + [Null]))
    ensures PrintAll(START, [StartArray] + ([EndArray] + [Null]), 0, validate).text == [0x5B, 0x5D, 0x6E, 0x75, 0x6C, 0x6C]
  {
    hide Print, PrintAll;
    FlagsBehind(START, validate);
    PrintOne(START, Null, 0, validate);
    FirstPrinted(START.(level := 1), EndArray, [Null], 0, validate);
    FirstPrinted(START, StartArray, [EndArray] + [Null], 0, validate);
  }

  /** A second value at the top level has a comma before it where the first is a scalar, and none behind a container. */
  lemma TopLevelCommas(validate: bool)
    ensures AllPrintable([Null] + [Null]) && AllPrintable([StartArray] + ([EndArray] + [Null]))
    ensures PrintAll(START, [Null] + [Null], 0, validate).text == [0x6E, 0x75, 0x6C, 0x6C, 0x2C, 0x6E, 0x75, 0x6C, 0x6C]
    ensures PrintAll(START, [StartArray] + ([EndArray] + [Null]), 0, validate).text == [0x5B, 0x5D, 0x6E, 0x75, 0x6C, 0x6C]
  {
    hide PrintAll;
    TwoScalars(validate);
    ContainerAndScalar(validate);
  }
}
