/**
 * The escaping of strings for output (section 7 of RFC 8259), as a function, and that the parser's
 * decoding is its inverse.
 */
module Escape {
  import opened Base
  import opened Text
  import opened Utf8
  import opened Grammar

  /** The letter of the two-character escape of b, 0 if it has none that is used. */
  function ShortEscape(b: byte): byte {
    if b == 0x08 then 'b' as int
    else if b == 0x09 then 't' as int
    else if b == 0x0A then 'n' as int
    else if b == 0x0C then 'f' as int
    else if b == 0x0D then 'r' as int
    else if b == QUOTE || b == BACKSLASH then b
    else 0
  }

  function HexDigit(v: nat): byte
    requires v < 16
  {
    if v < 10 then 0x30 + v else 'A' as int + (v - 10)
  }

  /** The bytes that are never copied as they are. */
  predicate MustEscape(b: byte) {
    b < 0x20 || b == QUOTE || b == BACKSLASH
  }

  predicate IsSpecial(b: byte, validate: bool) {
    MustEscape(b) || (validate && b >= 0x80)
  }

  /** What is written for one byte. */
  function ByteText(b: byte): bytes {
    if !MustEscape(b) then [b]
    else if ShortEscape(b) != 0 then [BACKSLASH, ShortEscape(b)]
    else [BACKSLASH, 'u' as int, 0x30, 0x30, HexDigit(b / 16 % 16), HexDigit(b % 16)]
  }

  /** What has been written of a string, and whether that is all of it. */
  datatype Escaped = Escaped(text: bytes, ok: bool)

  function Prefixed(a: bytes, e: Escaped): Escaped {
    e.(text := a + e.text)
  }

  lemma PrefixedTwice(a: bytes, b: bytes, e: Escaped)
    ensures Prefixed(a, Prefixed(b, e)) == Prefixed(a + b, e)
    ensures Prefixed([], e) == e
  {
    assert a + (b + e.text) == a + b + e.text;
    assert [] + e.text == e.text;
  }

  /** The string from p on; with validation it ends at the first byte that starts no valid UTF-8 sequence. */
  function EscapeFrom(s: bytes, p: nat, validate: bool): Escaped
    requires p <= |s|
    decreases |s| - p
  {
    if p == |s| then Escaped([], true)
    else if validate && s[p] >= 0x80 then
      var n := SequenceLength(s, p);
      if n == -1 then Escaped([], false)
      else
        SequenceFits(s, p);
        Prefixed(s[p..p + n], EscapeFrom(s, p + n, validate))
    else Prefixed(ByteText(s[p]), EscapeFrom(s, p + 1, validate))
  }

  // ----- Escaping and decoding -----

  /** The piece of the grammar that a byte is written as. */
  function PieceOf(b: byte): Piece {
    if !MustEscape(b) then Raw(b)
    else if ShortEscape(b) != 0 then Short(ShortEscape(b))
    else Unicode([0x30, 0x30, HexDigit(b / 16 % 16), HexDigit(b % 16)])
  }

  lemma PieceOfByte(b: byte, validate: bool)
    requires validate ==> b < 0x80
    ensures WfPiece(PieceOf(b), validate)
    ensures PieceText(PieceOf(b), validate) == ByteText(b) && PieceBytes(PieceOf(b), validate) == [b]
  {
    if MustEscape(b) && ShortEscape(b) == 0 {
      assert b == b / 16 % 16 * 16 + b % 16;
      var h := PieceOf(b).hex;
      assert Hex4(h) == b;
      assert [BACKSLASH, 'u' as int] + h == ByteText(b);
    }
  }

  /** What is written for a string is a string of the grammar that stands for its bytes. */
  lemma {:induction false} EscapedIsString(s: bytes, p: nat, validate: bool) returns (cs: seq<Piece>)
    requires p <= |s| && EscapeFrom(s, p, validate).ok
    ensures WfPieces(cs, validate)
    ensures PiecesText(cs, validate) == EscapeFrom(s, p, validate).text && PiecesBytes(cs, validate) == s[p..]
    decreases |s| - p
  {
    if p == |s| {
      cs := [];
    } else if validate && s[p] >= 0x80 {
      var c, q := SequencePiece(s, p);
      cs := EscapedIsString(s, q, validate);
      PieceBefore(s, p, q, c, cs, validate);
      cs := [c] + cs;
    } else {
      PieceOfByte(s[p], validate);
      cs := EscapedIsString(s, p + 1, validate);
      PieceBefore(s, p, p + 1, PieceOf(s[p]), cs, validate);
      cs := [PieceOf(s[p])] + cs;
    }
  }

  lemma SequencePiece(s: bytes, p: nat) returns (c: Piece, q: nat)
    requires p < |s| && s[p] >= 0x80 && SequenceLength(s, p) != -1
    ensures q == p + SequenceLength(s, p) <= |s|
    ensures WfPiece(c, true) && PieceText(c, true) == PieceBytes(c, true) == s[p..q]
  {
    SequenceFits(s, p);
    var cp := ValidatedIsEncoding(s, p);
    MultiLead(cp);
    OccursAt(s, p, Encode(cp), 0);
    c, q := Multi(cp), p + SequenceLength(s, p);
  }

  lemma PieceBefore(s: bytes, p: nat, q: nat, c: Piece, cs: seq<Piece>, validate: bool)
    requires p <= q <= |s| && WfPiece(c, validate) && WfPieces(cs, validate)
    requires PieceBytes(c, validate) == s[p..q] && PiecesBytes(cs, validate) == s[q..]
    ensures WfPieces([c] + cs, validate) && PiecesBytes([c] + cs, validate) == s[p..]
    ensures PiecesText([c] + cs, validate) == PieceText(c, validate) + PiecesText(cs, validate)
  {
    hide WfPiece, PieceText, PieceBytes, PiecesText, PiecesBytes;
    Cons(c, cs, validate);
    Rejoin(s, p, q);
  }

  lemma Rejoin(s: bytes, p: nat, q: nat)
    requires p <= q <= |s|
    ensures s[p..q] + s[q..] == s[p..]
  {
  }

  lemma BetweenQuotes(text: bytes)
    ensures Occurs([QUOTE] + text + [QUOTE], 1, text + [QUOTE])
  {
    assert [QUOTE] + text + [QUOTE] == [QUOTE] + (text + [QUOTE]);
  }

  /** Decoding the escaped string between quotes returns the string and ends behind the closing quote. */
  lemma EscapeRoundTrip(s: bytes, validate: bool)
    requires EscapeFrom(s, 0, validate).ok
    ensures var text := EscapeFrom(s, 0, validate).text;
      StringAt([QUOTE] + text + [QUOTE], 1, validate) == Done(s, |text| + 2)
  {
    var cs := EscapedIsString(s, 0, validate);
    hide EscapeFrom, StringAt, Occurs, WfPieces, PiecesText, PiecesBytes;
    var text := EscapeFrom(s, 0, validate).text;
    BetweenQuotes(text);
    StringComplete([QUOTE] + text + [QUOTE], 1, cs, validate);
    assert s[0..] == s;
  }

  predicate NoControl(s: bytes) {
    forall i | 0 <= i < |s| :: s[i] >= 0x20
  }

  lemma EncodeHigh(cp: nat)
    requires IsValidCodepoint(cp) && cp >= 0x80
    ensures forall i | 0 <= i < |Encode(cp)| :: Encode(cp)[i] >= 0x80
  {
  }

  /** No byte of a longer sequence is a control byte, a quote or a backslash. */
  lemma SequenceHigh(s: bytes, p: nat)
    requires p < |s| && s[p] >= 0x80 && SequenceLength(s, p) != -1
    ensures p + SequenceLength(s, p) <= |s|
    ensures forall i | p <= i < p + SequenceLength(s, p) :: s[i] >= 0x80
  {
    SequenceFits(s, p);
    var cp := ValidatedIsEncoding(s, p);
    OccursAt(s, p, Encode(cp), 0);
    MultiLead(cp);
    EncodeHigh(cp);
    forall i | p <= i < p + SequenceLength(s, p) ensures s[i] >= 0x80 {
      OccursAt(s, p, Encode(cp), i - p);
    }
  }

  lemma NoControlConcat(a: bytes, b: bytes)
    requires NoControl(a) && NoControl(b)
    ensures NoControl(a + b)
  {
  }

  /** No control byte is ever written, whether or not the string is valid. */
  lemma {:induction false} NoControlWritten(s: bytes, p: nat, validate: bool)
    requires p <= |s|
    ensures NoControl(EscapeFrom(s, p, validate).text)
    decreases |s| - p
  {
    if p == |s| {
    } else if validate && s[p] >= 0x80 {
      if SequenceLength(s, p) != -1 {
        SequenceHigh(s, p);
        var q := p + SequenceLength(s, p);
        NoControlWritten(s, q, validate);
        NoControlConcat(s[p..q], EscapeFrom(s, q, validate).text);
      }
    } else {
      NoControlWritten(s, p + 1, validate);
      NoControlConcat(ByteText(s[p]), EscapeFrom(s, p + 1, validate).text);
    }
  }

  /** A run of bytes that are not special is copied. */
  lemma {:induction false} RunIsCopied(s: bytes, p: nat, q: nat, validate: bool)
    requires p <= q <= |s| && forall i | p <= i < q :: !IsSpecial(s[i], validate)
    ensures EscapeFrom(s, p, validate) == Prefixed(s[p..q], EscapeFrom(s, q, validate))
    decreases q - p
  {
    if p == q {
      PrefixedTwice([], [], EscapeFrom(s, q, validate));
    } else {
      RunIsCopied(s, p + 1, q, validate);
      PrefixedTwice([s[p]], s[p + 1..q], EscapeFrom(s, q, validate));
      assert s[p..q] == [s[p]] + s[p + 1..q];
    }
  }

  /** A string that validates is written the same without validation. */
  lemma {:induction false} ValidationOnlyRejects(s: bytes, p: nat)
    requires p <= |s| && EscapeFrom(s, p, true).ok
    ensures EscapeFrom(s, p, false) == EscapeFrom(s, p, true)
    decreases |s| - p
  {
    if p < |s| {
      if s[p] >= 0x80 {
        SequenceHigh(s, p);
        var q := p + SequenceLength(s, p);
        ValidationOnlyRejects(s, q);
        RunIsCopied(s, p, q, false);
      } else {
        ValidationOnlyRejects(s, p + 1);
      }
    }
  }

  // ----- Which strings are written -----

  ghost predicate IsUtf8(s: bytes) {
    exists cps :: AllValid(cps) && EncodeAll(cps) == s
  }

  lemma ConsEncode(cp: nat, cps: seq<nat>)
    requires IsValidCodepoint(cp) && AllValid(cps)
    ensures AllValid([cp] + cps) && EncodeAll([cp] + cps) == Encode(cp) + EncodeAll(cps)
  {
    assert ([cp] + cps)[1..] == cps;
  }

  /** The first code point of a string that is written, and where it ends. */
  lemma FirstWritten(s: bytes, p: nat) returns (cp: nat, q: nat)
    requires p < |s| && EscapeFrom(s, p, true).ok
    ensures p < q <= |s| && IsValidCodepoint(cp) && Encode(cp) == s[p..q] && EscapeFrom(s, q, true).ok
  {
    FirstIsSequence(s, p);
    hide EscapeFrom, Encode, IsValidCodepoint;
    SequenceFits(s, p);
    cp := ValidatedIsEncoding(s, p);
    q := p + SequenceLength(s, p);
  }

  lemma FirstIsSequence(s: bytes, p: nat)
    requires p < |s| && EscapeFrom(s, p, true).ok
    ensures SequenceLength(s, p) != -1 && p + SequenceLength(s, p) <= |s|
    ensures EscapeFrom(s, p + SequenceLength(s, p), true).ok
  {
    SequenceFits(s, p);
  }

  lemma {:induction false} WrittenIsUtf8(s: bytes, p: nat) returns (cps: seq<nat>)
    requires p <= |s| && EscapeFrom(s, p, true).ok
    ensures AllValid(cps) && EncodeAll(cps) == s[p..]
    decreases |s| - p
  {
    if p == |s| {
      cps := [];
    } else {
      var cp, q := FirstWritten(s, p);
      hide EscapeFrom, Encode, IsValidCodepoint;
      cps := WrittenIsUtf8(s, q);
      ConsEncode(cp, cps);
      cps := [cp] + cps;
      Rejoin(s, p, q);
    }
  }

  lemma SequenceIsWritten(s: bytes, p: nat, cp: nat)
    requires IsValidCodepoint(cp) && Occurs(s, p, Encode(cp))
    ensures EscapeFrom(s, p, true).ok <==> EscapeFrom(s, p + |Encode(cp)|, true).ok
  {
    EncodingValidates(cp, s, p);
  }

  lemma Peel(s: bytes, p: nat, a: bytes, b: bytes)
    requires p <= |s| && s[p..] == a + b
    ensures Occurs(s, p, a) && s[p + |a|..] == b
  {
    assert s[p..p + |a|] == s[p..][..|a|];
    assert s[p + |a|..] == s[p..][|a|..];
  }

  lemma {:induction false} Utf8IsWritten(s: bytes, p: nat, cps: seq<nat>)
    requires p <= |s| && AllValid(cps) && EncodeAll(cps) == s[p..]
    ensures EscapeFrom(s, p, true).ok
    decreases |s| - p
  {
    hide Encode, Occurs, SequenceLength;
    if p < |s| {
      Peel(s, p, Encode(cps[0]), EncodeAll(cps[1..]));
      SequenceIsWritten(s, p, cps[0]);
      Utf8IsWritten(s, p + |Encode(cps[0])|, cps[1..]);
    }
  }

  lemma {:induction false} WrittenWithoutValidation(s: bytes, p: nat)
    requires p <= |s|
    ensures EscapeFrom(s, p, false).ok
    decreases |s| - p
  {
    if p < |s| {
      WrittenWithoutValidation(s, p + 1);
    }
  }

  /** With validation exactly the UTF-8 strings are written, without it all are. */
  lemma EscapeOkIff(s: bytes, validate: bool)
    ensures EscapeFrom(s, 0, validate).ok <==> !validate || IsUtf8(s)
  {
    assert s[0..] == s;
    if !validate {
      WrittenWithoutValidation(s, 0);
    } else {
      if EscapeFrom(s, 0, true).ok {
        var cps := WrittenIsUtf8(s, 0);
      }
      if IsUtf8(s) {
        var cps :| AllValid(cps) && EncodeAll(cps) == s;
        Utf8IsWritten(s, 0, cps);
      }
    }
  }
}
