/**
 * What the parsers read, with the bytes and the bounds spelled out: white space, comments, the literal names,
 * brackets and separators, escapes, UTF-8 and numbers.
 */
module Spelling {
  import opened Base
  import opened Text
  import opened Gap
  import opened Utf8
  import opened Decimal
  import opened Descent
  import opened Conformance
  import Number
  import Grammar

  // ----- White space and comments -----

  /** Space, tab, line feed and carriage return are skipped, and nothing else is where comments are not allowed. */
  lemma BlankBytes(t: bytes, p: nat, comments: bool)
    requires p < |t|
    ensures t[p] in {0x20, 0x09, 0x0A, 0x0D} ==> SpaceEnd(t, p, comments) == SpaceEnd(t, p + 1, comments)
    ensures t[p] !in {0x20, 0x09, 0x0A, 0x0D} && (comments ==> t[p] != 0x2F) ==> SpaceEnd(t, p, comments) == Done((), p)
  {
    if t[p] in {0x20, 0x09, 0x0A, 0x0D} {
      BlankSkip(t, p, comments);
    }
  }

  /** A block comment ends at the first star with a slash behind it, if no NUL byte comes before. */
  lemma BlockBytes(t: bytes, p: nat, q: nat)
    requires p + 2 <= q && q + 2 <= |t| && t[p] == 0x2F && t[p + 1] == 0x2A && t[q] == 0x2A && t[q + 1] == 0x2F
    requires forall k | p + 2 <= k < q :: t[k] != 0 && !(t[k] == 0x2A && t[k + 1] == 0x2F)
    ensures SpaceEnd(t, p, true) == SpaceEnd(t, q + 2, true)
  {
    hide SpaceEnd;
    BlockSkip(t, p + 2, q);
    CommentStep(t, p);
  }

  /** A line comment ends at the first line feed, if no NUL byte comes before. */
  lemma LineBytes(t: bytes, p: nat, q: nat)
    requires p + 2 <= q < |t| && t[p] == t[p + 1] == 0x2F && t[q] == 0x0A
    requires forall k | p + 2 <= k < q :: t[k] != 0 && t[k] != 0x0A
    ensures SpaceEnd(t, p, true) == SpaceEnd(t, q + 1, true)
  {
    hide SpaceEnd;
    LineSkip(t, p + 2, q);
    CommentStep(t, p);
    BlankSkip(t, q, true);
  }

  /** A comment that a NUL byte or the end of the text comes in takes the rest of the text. */
  lemma NulInComment(t: bytes, p: nat, q: nat)
    requires p + 2 <= q <= |t| && t[p] == 0x2F && t[p + 1] in {0x2A, 0x2F} && At(t, q) == 0
    requires forall k | p + 2 <= k < q :: t[k] != 0
    requires t[p + 1] == 0x2A ==> forall k | p + 2 <= k < q :: !(t[k] == 0x2A && At(t, k + 1) == 0x2F)
    requires t[p + 1] == 0x2F ==> forall k | p + 2 <= k < q :: t[k] != 0x0A
    ensures SpaceEnd(t, p, true) == Done((), |t|)
  {
    SpaceEndIdempotent(t, |t|, true);
    hide SpaceEnd;
    CommentStep(t, p);
    if t[p + 1] == 0x2A {
      BlockRuns(t, p + 2, q);
    } else {
      LineRuns(t, p + 2, q);
    }
  }

  lemma {:induction false} BlockRuns(t: bytes, p: nat, q: nat)
    requires p <= q <= |t| && At(t, q) == 0
    requires forall k | p <= k < q :: t[k] != 0 && !(t[k] == 0x2A && At(t, k + 1) == 0x2F)
    ensures BlockEnd(t, p) == |t|
    decreases q - p
  {
    if p < q {
      BlockStep(t, p);
      BlockRuns(t, p + 1, q);
    }
  }

  lemma {:induction false} LineRuns(t: bytes, p: nat, q: nat)
    requires p <= q <= |t| && At(t, q) == 0 && forall k | p <= k < q :: t[k] != 0 && t[k] != 0x0A
    ensures Find(t, p, 0x0A) == |t|
    decreases q - p
  {
    if p < q {
      LineRuns(t, p + 1, q);
    }
  }

  /** A slash with anything else behind it is an error. */
  lemma LoneSlash(t: bytes, p: nat)
    requires p < |t| && t[p] == 0x2F && At(t, p + 1) != 0x2A && At(t, p + 1) != 0x2F
    ensures SpaceEnd(t, p, true) == Fail(Unexpected, p + 1)
  {
  }

  // ----- Literal names -----

  lemma WordAtIff(t: bytes, p: nat, word: bytes, e: Event)
    requires p <= |t| && 0 !in word && word != []
    ensures WordAt(t, p, word, e) == Ok([e], p + |word|) <==> Occurs(t, p, word)
    ensures WordAt(t, p, word, e).Ok? ==> WordAt(t, p, word, e) == Ok([e], p + |word|)
  {
    if WordAt(t, p, word, e).Ok? {
      WordSound(t, p, word);
    }
    if Occurs(t, p, word) {
      WordComplete(t, p, word);
    }
  }

  /** The names null, true and false are what is read as null and the two booleans. */
  lemma NamesAreRead(t: bytes, p: nat, r: Rules)
    requires p <= |t|
    ensures ScalarAt(t, p, r) == Ok([Null], p + 4) <==> Occurs(t, p, [0x6E, 0x75, 0x6C, 0x6C])
    ensures ScalarAt(t, p, r) == Ok([Boolean(true)], p + 4) <==> Occurs(t, p, [0x74, 0x72, 0x75, 0x65])
    ensures ScalarAt(t, p, r) == Ok([Boolean(false)], p + 5) <==> Occurs(t, p, [0x66, 0x61, 0x6C, 0x73, 0x65])
  {
    NameIsRead(t, p, [0x6E, 0x75, 0x6C, 0x6C], Null, r);
    NameIsRead(t, p, [0x74, 0x72, 0x75, 0x65], Boolean(true), r);
    NameIsRead(t, p, [0x66, 0x61, 0x6C, 0x73, 0x65], Boolean(false), r);
  }

  lemma NameIsRead(t: bytes, p: nat, word: bytes, e: Event, r: Rules)
    requires p <= |t|
    requires (word == [0x6E, 0x75, 0x6C, 0x6C] && e == Null) || (word == [0x74, 0x72, 0x75, 0x65] && e == Boolean(true))
      || (word == [0x66, 0x61, 0x6C, 0x73, 0x65] && e == Boolean(false))
    ensures ScalarAt(t, p, r) == Ok([e], p + |word|) <==> Occurs(t, p, word)
  {
    hide StringAt, Number.NumberAt, WordAt, Occurs;
    WordAtIff(t, p, NULL, Null);
    WordAtIff(t, p, TRUE, Boolean(true));
    WordAtIff(t, p, FALSE, Boolean(false));
    if Occurs(t, p, word) {
      OccursAt(t, p, word, 0);
    }
    NumbersAreNoNames(t, p, r);
  }

  lemma NumbersAreNoNames(t: bytes, p: nat, r: Rules)
    requires p <= |t|
    ensures Number.NumberAt(t, p, r.finite).Done? ==>
      Number.NumberAt(t, p, r.finite).val.Integer? || Number.NumberAt(t, p, r.finite).val.Real?
  {
    hide Number.ScanNumber, Number.LiteralAcc;
  }

  // ----- Brackets, commas, colons -----

  /** [ and { start a container; the matching ] and } behind space end an empty one. */
  lemma BracketsAreRead(t: bytes, p: nat, depth: nat, r: Rules)
    requires p < |t| && depth < r.size
    ensures t[p] == 0x5B ==> ValueAt(t, p, depth, r) == Emit([StartArray], BodyAt(t, p + 1, depth + 1, true, r))
    ensures t[p] == 0x7B ==> ValueAt(t, p, depth, r) == Emit([StartObject], BodyAt(t, p + 1, depth + 1, false, r))
    ensures t[p] == 0x5D ==> BodyAt(t, p, depth, true, r) == Ok([EndArray], p + 1)
    ensures t[p] == 0x7D ==> BodyAt(t, p, depth, false, r) == Ok([EndObject], p + 1)
  {
    hide BodyAt;
    if t[p] == 0x5D || t[p] == 0x7D {
      EmptyBody(t, p, depth, t[p] == 0x5D, r);
    }
  }

  lemma EmptyBody(t: bytes, p: nat, depth: nat, isArray: bool, r: Rules)
    requires p < |t| && t[p] == if isArray then 0x5D else 0x7D
    ensures BodyAt(t, p, depth, isArray, r) == Ok([if isArray then EndArray else EndObject], p + 1)
  {
    SpaceStays(t, p, r);
  }

  /** Behind an element a comma leads to the next one, and the matching bracket ends the container. */
  lemma SeparatorsAreRead(t: bytes, p: nat, depth: nat, r: Rules)
    requires p < |t|
    ensures t[p] == 0x2C && Space(t, p + 1, r).Done? && !r.trailingCommas ==>
      forall isArray :: MoreAt(t, p, depth, isArray, r) == ElementsAt(t, Space(t, p + 1, r).pos, depth, isArray, r)
    ensures t[p] == 0x5D ==> MoreAt(t, p, depth, true, r) == Ok([EndArray], p + 1)
    ensures t[p] == 0x7D ==> MoreAt(t, p, depth, false, r) == Ok([EndObject], p + 1)
  {
    hide ElementsAt;
    if t[p] in {0x2C, 0x5D, 0x7D} {
      SpaceStays(t, p, r);
      hide SpaceEnd;
    }
  }

  /** With trailing commas allowed a comma before a closing bracket is dropped. */
  lemma TrailingIsRead(t: bytes, p: nat, depth: nat, r: Rules)
    requires p + 1 < |t| && t[p] == 0x2C && r.trailingCommas
    ensures t[p + 1] == 0x5D ==> MoreAt(t, p, depth, true, r) == Ok([EndArray], p + 2)
    ensures t[p + 1] == 0x7D ==> MoreAt(t, p, depth, false, r) == Ok([EndObject], p + 2)
  {
    if t[p + 1] in {0x5D, 0x7D} {
      SpaceStays(t, p, r);
      SpaceStays(t, p + 1, r);
      hide SpaceEnd;
    }
  }

  /** A key is a string with a colon behind it. */
  lemma ColonIsRead(t: bytes, p: nat, r: Rules)
    requires p < |t| && t[p] == 0x22 && StringAt(t, p + 1, r.validate).Done?
    ensures var s := StringAt(t, p + 1, r.validate);
      s.pos < |t| && t[s.pos] == 0x3A ==> KeyColon(t, p, r) == Done(s.val, s.pos + 1)
  {
    hide StringAt;
    var s := StringAt(t, p + 1, r.validate);
    if s.pos < |t| && t[s.pos] == 0x3A {
      SpaceStays(t, s.pos, r);
    }
  }

  // ----- Strings -----

  /** The byte is a hexadecimal digit, in either case, with the value v. */
  predicate IsHexDigit(b: byte, v: nat) {
    || (v < 10 && b == 0x30 + v)
    || (10 <= v < 16 && (b == 0x41 + (v - 10) || b == 0x61 + (v - 10)))
  }

  /** At p stands backslash, u and the four hexadecimal digits of n. */
  predicate UnicodeEscape(t: bytes, p: nat, n: nat) {
    && p + 6 <= |t| && n < 0x10000 && t[p] == 0x5C && t[p + 1] == 0x75
    && IsHexDigit(t[p + 2], n / 0x1000) && IsHexDigit(t[p + 3], n / 0x100 % 16)
    && IsHexDigit(t[p + 4], n / 0x10 % 16) && IsHexDigit(t[p + 5], n % 16)
  }

  lemma DigitValue(b: byte, v: nat)
    requires IsHexDigit(b, v)
    ensures HexValue(b) == v
  {
  }

  lemma HexIsRead(t: bytes, p: nat, n: nat)
    requires UnicodeEscape(t, p, n)
    ensures HexAt(t, p + 2, 4, 0) == Done(n, p + 6)
  {
    DigitValue(t[p + 2], n / 0x1000);
    DigitValue(t[p + 3], n / 0x100 % 16);
    DigitValue(t[p + 4], n / 0x10 % 16);
    DigitValue(t[p + 5], n % 16);
    hide IsHexDigit, HexValue;
    Grammar.FourSteps(t, p + 2);
    Nibbles(n);
  }

  lemma Nibbles(n: nat)
    ensures n < 0x10000 ==> n == 16 * (16 * (16 * (n / 0x1000) + n / 0x100 % 16) + n / 0x10 % 16) + n % 16
  {
    assert n / 0x10 / 0x10 == n / 0x100 && n / 0x100 / 0x10 == n / 0x1000;
  }

  /** The eight escapes of two characters; behind a backslash no other byte but u is allowed. */
  lemma ShortEscapes(t: bytes, p: nat)
    requires p + 1 < |t| && t[p] == 0x5C
    ensures var e, at := t[p + 1], EscapeAt(t, p);
      && (e == 0x22 ==> at == Done(0x22, p + 2)) && (e == 0x5C ==> at == Done(0x5C, p + 2))
      && (e == 0x2F ==> at == Done(0x2F, p + 2)) && (e == 0x62 ==> at == Done(0x08, p + 2))
      && (e == 0x66 ==> at == Done(0x0C, p + 2)) && (e == 0x6E ==> at == Done(0x0A, p + 2))
      && (e == 0x72 ==> at == Done(0x0D, p + 2)) && (e == 0x74 ==> at == Done(0x09, p + 2))
      && (e !in {0x22, 0x5C, 0x2F, 0x62, 0x66, 0x6E, 0x72, 0x74, 0x75} ==> at == Fail(EscapeError, p + 1))
  {
  }

  /** Four hexadecimal digits stand for their code point, but for surrogates. */
  lemma UnicodeIsRead(t: bytes, p: nat, cp: nat)
    requires UnicodeEscape(t, p, cp) && !(0xD800 <= cp <= 0xDFFF)
    ensures EscapeAt(t, p) == Done(cp, p + 6)
  {
    hide UnicodeEscape;
    HexIsRead(t, p, cp);
    EscapeStart(t, p, cp);
    hide HexAt;
  }

  lemma EscapeStart(t: bytes, p: nat, n: nat)
    requires UnicodeEscape(t, p, n)
    ensures p + 6 <= |t| && t[p] == 0x5C && t[p + 1] == 0x75 && Unescape(t[p + 1]) == 0
  {
  }

  /** A pair of surrogates stands for the code point whose high and low ten bits above 0x10000 they hold. */
  lemma PairIsRead(t: bytes, p: nat, cp: nat)
    requires 0x10000 <= cp <= 0x10FFFF
    requires UnicodeEscape(t, p, 0xD800 + (cp - 0x10000) / 0x400) && UnicodeEscape(t, p + 6, 0xDC00 + (cp - 0x10000) % 0x400)
    ensures EscapeAt(t, p) == Done(cp, p + 12)
  {
    var v := cp - 0x10000;
    HexIsRead(t, p, 0xD800 + v / 0x400);
    HexIsRead(t, p + 6, 0xDC00 + v % 0x400);
    EscapeStart(t, p, 0xD800 + v / 0x400);
    EscapeStart(t, p + 6, 0xDC00 + v % 0x400);
    hide UnicodeEscape, HexAt;
    assert v == v / 0x400 * 0x400 + v % 0x400;
    assert LowAt(t, p + 6, 0xD800 + v / 0x400) == Done(cp, p + 12);
  }

  /** An escape in a string adds the bytes of its code point. */
  lemma EscapeIsDecoded(t: bytes, p: nat, cp: nat, q: nat, validate: bool)
    requires p < |t| && t[p] == 0x5C && EscapeAt(t, p) == Done(cp, q)
    ensures StringAt(t, p, validate) == Prepend(Encode(cp), StringAt(t, q, validate))
  {
    hide EscapeAt, Encode;
  }

  /** The bytes of a code point carry its bits, six in each byte behind the first (section 3 of RFC 3629). */
  lemma EncodingBytes(cp: nat)
    requires IsValidCodepoint(cp)
    ensures var e := Encode(cp);
      if cp < 0x80 then e == [cp]
      else if cp < 0x800 then
        |e| == 2 && 0xC2 <= e[0] < 0xE0 && 0x80 <= e[1] < 0xC0 && cp == (e[0] as int - 0xC0) * 0x40 + (e[1] as int - 0x80)
      else if cp < 0x10000 then
        && |e| == 3 && 0xE0 <= e[0] < 0xF0 && 0x80 <= e[1] < 0xC0 && 0x80 <= e[2] < 0xC0
        && cp == (e[0] as int - 0xE0) * 0x1000 + (e[1] as int - 0x80) * 0x40 + (e[2] as int - 0x80)
      else
        && |e| == 4 && 0xF0 <= e[0] <= 0xF4 && 0x80 <= e[1] < 0xC0 && 0x80 <= e[2] < 0xC0 && 0x80 <= e[3] < 0xC0
        && cp == (e[0] as int - 0xF0) * 0x40000 + (e[1] as int - 0x80) * 0x1000 + (e[2] as int - 0x80) * 0x40 + (e[3] as int - 0x80)
  {
    if cp >= 0x10000 {
      Split4(cp);
    } else if cp >= 0x800 {
      Split3(cp);
    }
  }

  predicate IsTail(b: byte) {
    0x80 <= b <= 0xBF
  }

  /** Which sequences of bytes are valid (section 4 of RFC 3629). */
  lemma Utf8Table(t: bytes, p: nat)
    ensures var n, b0, b1, b2, b3 := SequenceLength(t, p), At(t, p), At(t, p + 1), At(t, p + 2), At(t, p + 3);
      && (n == 1 <==> b0 <= 0x7F)
      && (n == 2 <==> 0xC2 <= b0 <= 0xDF && IsTail(b1))
      && (n == 3 <==>
            0xE0 <= b0 <= 0xEF && IsTail(b1) && IsTail(b2) && (b0 == 0xE0 ==> b1 >= 0xA0) && (b0 == 0xED ==> b1 <= 0x9F))
      && (n == 4 <==>
            && 0xF0 <= b0 <= 0xF4 && IsTail(b1) && IsTail(b2) && IsTail(b3)
            && (b0 == 0xF0 ==> b1 >= 0x90) && (b0 == 0xF4 ==> b1 <= 0x8F))
  {
  }

  /** What a byte that starts no escape does in a string: the end of the text is an invalid byte, too. */
  lemma StringBytes(t: bytes, p: nat, validate: bool)
    requires p <= |t| && At(t, p) != 0x5C
    ensures var b, at := At(t, p), StringAt(t, p, validate);
      && (b == 0x22 ==> at == Done([], p + 1))
      && (b < 0x20 ==> at == Fail(Invalid, p))
      && (b >= 0x20 && b != 0x22 && (b < 0x80 || !validate) ==> at == Prepend([b], StringAt(t, p + 1, validate)))
      && (b >= 0x80 && validate && SequenceLength(t, p) == -1 ==> at == Fail(Utf8Error, p))
      && (b >= 0x80 && validate && SequenceLength(t, p) != -1 ==>
        p + SequenceLength(t, p) <= |t|
        && at == Prepend(t[p..p + SequenceLength(t, p)], StringAt(t, p + SequenceLength(t, p), validate)))
  {
    hide SequenceLength;
    if At(t, p) >= 0x80 && SequenceLength(t, p) != -1 {
      SequenceFits(t, p);
    }
    if At(t, p) >= 0x20 {
      assert t[p..p + 1] == [t[p]];
    }
  }

  // ----- Errors in strings and names -----

  predicate IsHexByte(b: byte) {
    0x30 <= b <= 0x39 || 0x41 <= b <= 0x46 || 0x61 <= b <= 0x66
  }

  /** The first byte that is no hexadecimal digit is an error where it stands. */
  lemma BrokenHex(t: bytes, p: nat, q: nat)
    requires p + 1 < |t| && t[p] == 0x5C && t[p + 1] == 0x75 && p + 2 <= q < p + 6
    requires !IsHexByte(At(t, q)) && forall k | p + 2 <= k < q :: IsHexByte(At(t, k))
    ensures EscapeAt(t, p) == Fail(EscapeError, q)
  {
    HexFails(t, p + 2, 4, 0, q);
    hide HexAt;
  }

  lemma {:induction false} HexFails(t: bytes, p: nat, n: nat, cp: nat, q: nat)
    requires p <= |t| && p <= q < p + n && !IsHexByte(At(t, q)) && forall k | p <= k < q :: IsHexByte(At(t, k))
    ensures HexAt(t, p, n, cp) == Fail(EscapeError, q)
    decreases n
  {
    if p < q {
      assert IsHexByte(At(t, p));
      HexFails(t, p + 1, n - 1, 16 * cp + HexValue(At(t, p)), q);
    }
  }

  /** A low surrogate on its own, and a high one without a low one behind it. */
  lemma LoneSurrogates(t: bytes, p: nat, n: nat)
    requires UnicodeEscape(t, p, n) && 0xD800 <= n <= 0xDFFF
    ensures n >= 0xDC00 ==> EscapeAt(t, p) == Fail(SurrogateError, p + 6)
    ensures n < 0xDC00 && At(t, p + 6) != 0x5C ==> EscapeAt(t, p) == Fail(SurrogateError, p + 6)
    ensures n < 0xDC00 && At(t, p + 6) == 0x5C && At(t, p + 7) != 0x75 ==> EscapeAt(t, p) == Fail(SurrogateError, p + 7)
  {
    HexIsRead(t, p, n);
    EscapeStart(t, p, n);
    hide UnicodeEscape, HexAt;
  }

  /** A high surrogate and an escape that is no low one. */
  lemma BrokenPair(t: bytes, p: nat, n: nat, m: nat)
    requires UnicodeEscape(t, p, n) && 0xD800 <= n < 0xDC00 && UnicodeEscape(t, p + 6, m) && !(0xDC00 <= m <= 0xDFFF)
    ensures EscapeAt(t, p) == Fail(SurrogateError, p + 12)
  {
    HexIsRead(t, p, n);
    HexIsRead(t, p + 6, m);
    EscapeStart(t, p, n);
    EscapeStart(t, p + 6, m);
    hide UnicodeEscape, HexAt;
  }

  /** A name is an error where the text departs from it. */
  lemma BrokenName(t: bytes, p: nat, word: bytes, k: nat, r: Rules)
    requires word in {[0x6E, 0x75, 0x6C, 0x6C], [0x74, 0x72, 0x75, 0x65], [0x66, 0x61, 0x6C, 0x73, 0x65]}
    requires 0 < k < |word| && Occurs(t, p, word[..k]) && At(t, p + k) != word[k]
    ensures p <= |t| && ScalarAt(t, p, r) == Err([], p + k, Unexpected)
  {
    hide StringAt, Number.NumberAt;
    OccursAt(t, p, word[..k], 0);
    WordBreaks(t, p, word, k);
  }

  lemma {:induction false} WordBreaks(t: bytes, p: nat, word: bytes, k: nat)
    requires 0 !in word && k < |word| && Occurs(t, p, word[..k]) && At(t, p + k) != word[k]
    ensures WordEnd(t, p, word) == Fail(Unexpected, p + k)
    decreases k
  {
    if k > 0 {
      OccursAt(t, p, word[..k], 0);
      assert word[..k] == [word[0]] + word[1..][..k - 1];
      OccursSplit(t, p, [word[0]], word[1..][..k - 1]);
      WordBreaks(t, p + 1, word[1..], k - 1);
    }
  }

  /** A value starts with one of these bytes; another one is an error where it stands. */
  lemma FirstBytes(t: bytes, p: nat, depth: nat, r: Rules)
    requires p <= |t|
    requires At(t, p) !in {0x22, 0x2D, 0x5B, 0x66, 0x6E, 0x74, 0x7B} && !(0x30 <= At(t, p) <= 0x39)
    ensures ValueAt(t, p, depth, r) == Err([], p, Unexpected)
  {
    hide StringAt, Number.NumberAt;
  }

  // ----- Numbers -----

  /** A literal: a minus sign, digits, a point and digits, e or E with a sign and digits. */
  lemma NumberBytes(l: Number.Literal)
    requires Number.WfLiteral(l)
    ensures Number.Unparse(l) ==
      (if l.neg then [0x2D] else []) + l.whole + (if l.frac == [] then [] else [0x2E] + l.frac)
      + (if l.exp == [] then [] else [l.mark] + l.sign + l.exp)
    ensures l.mark in {0x65, 0x45} && l.sign in {[], [0x2D], [0x2B]}
    ensures l.whole != [] && (|l.whole| > 1 ==> l.whole[0] != 0x30)
    ensures forall i | 0 <= i < |l.whole| :: 0x30 <= l.whole[i] <= 0x39
  {
  }

  /** Integers are what 64 bits can hold; everything else is a real. */
  lemma IntegerRange(l: Number.Literal)
    requires Number.WfLiteral(l)
    ensures Number.LiteralEvent(l).Integer? <==>
      l.frac == [] && l.exp == [] && Val(l.whole) <= if l.neg then 9223372036854775808 else 9223372036854775807
    ensures Number.LiteralEvent(l).Integer? ==>
      Number.LiteralEvent(l).n == if l.neg then 0 - Val(l.whole) else Val(l.whole)
  {
    hide Number.LiteralEvent, Val;
    Number.IntegerIffFits(l);
  }

  /** The digits of an exponent up to the first at which they exceed 1000 are an error there. */
  lemma {:induction false} ExponentTooLarge(t: bytes, j: nat, m: nat, q: nat)
    requires j <= m <= q < |t| && AllDigits(t[j..q + 1]) && AllDigits(t[j..m]) && Val(t[j..m]) <= 1000
    requires forall k | m < k <= q :: AllDigits(t[j..k]) && Val(t[j..k]) <= 1000
    requires Val(t[j..q + 1]) > 1000
    ensures Number.ExponentEnd(t, m, Val(t[j..m])) == Fail(NumberError, q + 1)
    decreases q - m
  {
    hide Val;
    assert t[j..q + 1][m - j] == t[m];
    assert t[j..m + 1] == t[j..m] + [t[m]];
    Number.Append(t[j..m], t[m]);
    if m < q {
      ExponentTooLarge(t, j, m + 1, q);
    }
  }

  /** An exponent of at most 1000 is read, and what follows its digits ends it. */
  lemma ExponentFits(t: bytes, j: nat, ds: bytes)
    requires AllDigits(ds) && Occurs(t, j, ds) && !IsDigit(At(t, j + |ds|)) && Val(ds) <= 1000
    ensures j <= |t| && Number.ExponentEnd(t, j, 0) == Done(Val(ds), j + |ds|)
  {
    Number.ExponentFrom(t, j, ds);
  }

  /** What starts like a number and is none: no digit behind the sign, the point or the exponent mark. */
  lemma BrokenNumbers(t: bytes, p: nat, r: Rules)
    requires p < |t|
    ensures t[p] == 0x2D && !IsDigit(At(t, p + 1)) ==> ScalarAt(t, p, r) == Err([], p + 2, NumberError)
    ensures t[p] == 0x30 && At(t, p + 1) == 0x2E && !IsDigit(At(t, p + 2)) ==> ScalarAt(t, p, r) == Err([], p + 2, NumberError)
    ensures t[p] == 0x30 && At(t, p + 1) in {0x65, 0x45} && At(t, p + 2) !in {0x2B, 0x2D} && !IsDigit(At(t, p + 2)) ==>
      ScalarAt(t, p, r) == Err([], p + 2, NumberError)
  {
    hide StringAt;
  }

  /** A real whose text converts to no finite double is an error behind it. */
  lemma NotFinite(t: bytes, p: nat, r: Rules)
    requires p < |t| && Number.ScanNumber(t, p).Done? && (t[p] == 0x2D || 0x30 <= t[p] <= 0x39)
    ensures var s := Number.ScanNumber(t, p);
      Number.LiteralEvent(s.val).Real? && !r.finite(t[p..s.pos]) ==> ScalarAt(t, p, r) == Err([], s.pos, NumberError)
  {
    hide StringAt, Number.ScanNumber, Number.LiteralAcc;
  }
}
