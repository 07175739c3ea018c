/**
 * The lexical level below values: white space, comments and strings (sections 2 and 7 of RFC 8259),
 * as functions from a position of the text to the position reached.
 */
module Text {
  import opened Base
  import opened Utf8

  // ----- White space and comments -----

  predicate IsBlank(b: byte) {
    b == ' ' as int || b == '\n' as int || b == '\r' as int || b == '\t' as int
  }

  function BlanksEnd(t: bytes, p: nat): (q: nat)
    requires p <= |t|
    ensures p <= q <= |t| && !IsBlank(At(t, q))
    decreases |t| - p
  {
    if IsBlank(At(t, p)) then BlanksEnd(t, p + 1) else p
  }

  /** The first c from p on, or the end of the text when a NUL byte or the end comes first. */
  function Find(t: bytes, p: nat, c: byte): (q: nat)
    requires p <= |t| && c != 0
    ensures p <= q <= |t|
    ensures q == |t| || t[q] == c
    decreases |t| - p
  {
    if At(t, p) == c then p else if At(t, p) == 0 then |t| else Find(t, p + 1, c)
  }

  /** The position behind the block comment whose text starts at p, or the end of the text. */
  function BlockEnd(t: bytes, p: nat): (q: nat)
    requires p <= |t|
    ensures p <= q <= |t|
    decreases |t| - p
  {
    var q := Find(t, p, '*' as int);
    if q == |t| then q
    else if At(t, q + 1) == '/' as int then q + 2
    else BlockEnd(t, q + 1)
  }

  /** The end of the comment whose slash is at p. A line comment ends before its newline. */
  function CommentEnd(t: bytes, p: nat): (r: Token<()>)
    requires p < |t|
    ensures p < r.pos <= |t|
  {
    if At(t, p + 1) == '*' as int then Done((), BlockEnd(t, p + 2))
    else if At(t, p + 1) == '/' as int then Done((), Find(t, p + 1, '\n' as int))
    else Fail(Unexpected, p + 1)
  }

  /** White space and, when they are allowed, comments. */
  function SpaceEnd(t: bytes, p: nat, comments: bool): (r: Token<()>)
    requires p <= |t|
    ensures p <= r.pos <= |t|
    ensures r.Done? ==> !IsBlank(At(t, r.pos)) && (comments ==> At(t, r.pos) != '/' as int)
    decreases |t| - p
  {
    var q := BlanksEnd(t, p);
    if !comments || At(t, q) != '/' as int then Done((), q)
    else
      var c := CommentEnd(t, q);
      if c.Fail? then c else SpaceEnd(t, c.pos, comments)
  }

  /** There is nothing left to skip where white space has been skipped. */
  lemma SpaceEndIdempotent(t: bytes, p: nat, comments: bool)
    requires p <= |t| && !IsBlank(At(t, p)) && (comments ==> At(t, p) != '/' as int)
    ensures SpaceEnd(t, p, comments) == Done((), p)
  {
  }

  predicate AllBlank(ws: bytes) {
    forall i | 0 <= i < |ws| :: IsBlank(ws[i])
  }

  lemma {:induction false} BlanksEndSound(t: bytes, p: nat)
    requires p <= |t|
    ensures AllBlank(t[p..BlanksEnd(t, p)])
    decreases |t| - p
  {
    if IsBlank(At(t, p)) {
      BlanksEndSound(t, p + 1);
      assert t[p..BlanksEnd(t, p)] == [t[p]] + t[p + 1..BlanksEnd(t, p)];
    }
  }

  lemma {:induction false} BlanksEndComplete(t: bytes, p: nat, ws: bytes)
    requires AllBlank(ws) && Occurs(t, p, ws) && !IsBlank(At(t, p + |ws|))
    ensures BlanksEnd(t, p) == p + |ws|
    decreases |ws|
  {
    if ws != [] {
      assert t[p] == ws[0];
      assert t[p + 1..p + |ws|] == ws[1..];
      BlanksEndComplete(t, p + 1, ws[1..]);
    }
  }

  // ----- Escapes -----

  const QUOTE: byte := 0x22
  const BACKSLASH: byte := 0x5C

  /** The byte that a two-character escape stands for, 0 if e follows no backslash. */
  function Unescape(e: byte): byte {
    if e == QUOTE || e == '/' as int || e == BACKSLASH then e
    else if e == 'b' as int then 0x08
    else if e == 'f' as int then 0x0C
    else if e == 'n' as int then 0x0A
    else if e == 'r' as int then 0x0D
    else if e == 't' as int then 0x09
    else 0
  }

  /** The value of a hexadecimal digit, or -1. */
  function HexValue(b: byte): (v: int)
    ensures -1 <= v < 16
  {
    if 0x30 <= b <= 0x39 then b - 0x30
    else if 'A' as int <= b <= 'F' as int then 10 + b - 'A' as int
    else if 'a' as int <= b <= 'f' as int then 10 + b - 'a' as int
    else -1
  }

  /** Four hexadecimal digits, n of them still to come and cp the value so far. */
  function HexAt(t: bytes, p: nat, n: nat, cp: nat): (r: Token<nat>)
    requires p <= |t|
    ensures p <= r.pos <= |t|
    ensures r.Done? ==> r.pos == p + n
    decreases n
  {
    if n == 0 then Done(cp, p)
    else if HexValue(At(t, p)) == -1 then Fail(EscapeError, p)
    else HexAt(t, p + 1, n - 1, 16 * cp + HexValue(At(t, p)))
  }

  predicate IsHigh(cp: nat) {
    0xD800 <= cp <= 0xDBFF
  }

  predicate IsLow(cp: nat) {
    0xDC00 <= cp <= 0xDFFF
  }

  function Combine(high: nat, low: nat): (cp: nat)
    requires IsHigh(high) && IsLow(low)
    ensures 0x10000 <= cp <= 0x10FFFF
  {
    (high - 0xD800) * 0x400 + (low - 0xDC00) + 0x10000
  }

  lemma {:induction false} HexBound(t: bytes, p: nat, n: nat, cp: nat, bound: nat)
    requires p <= |t| && HexAt(t, p, n, cp).Done? && cp < bound
    ensures n == 0 ==> HexAt(t, p, n, cp).val < bound
    ensures n == 1 ==> HexAt(t, p, n, cp).val < 16 * bound
    ensures n == 2 ==> HexAt(t, p, n, cp).val < 256 * bound
    ensures n == 3 ==> HexAt(t, p, n, cp).val < 4096 * bound
    ensures n == 4 ==> HexAt(t, p, n, cp).val < 65536 * bound
    decreases n
  {
    if n > 0 {
      HexBound(t, p + 1, n - 1, 16 * cp + HexValue(At(t, p)), 16 * bound);
    }
  }

  /** The code point of a surrogate pair whose high half ends at p. */
  function LowAt(t: bytes, p: nat, high: nat): (r: Token<nat>)
    requires p <= |t| && IsHigh(high)
    ensures p <= r.pos <= |t|
    ensures r.Done? ==> r.pos == p + 6 && IsValidCodepoint(r.val)
  {
    if At(t, p) != BACKSLASH then Fail(SurrogateError, p)
    else if At(t, p + 1) != 'u' as int then Fail(SurrogateError, p + 1)
    else
      var l := HexAt(t, p + 2, 4, 0);
      if l.Fail? then Fail(EscapeError, l.pos)
      else if !IsLow(l.val) then Fail(SurrogateError, l.pos)
      else Done(Combine(high, l.val), l.pos)
  }

  /** The code point of the escape whose backslash is at p. */
  function EscapeAt(t: bytes, p: nat): (r: Token<nat>)
    requires p < |t|
    ensures p < r.pos <= |t|
    ensures r.Done? ==> IsValidCodepoint(r.val) && |Encode(r.val)| < r.pos - p
  {
    var e := At(t, p + 1);
    if Unescape(e) != 0 then Done(Unescape(e), p + 2)
    else if e != 'u' as int then Fail(EscapeError, p + 1)
    else
      var h := HexAt(t, p + 2, 4, 0);
      if h.Fail? then Fail(EscapeError, h.pos)
      else
        HexBound(t, p + 2, 4, 0, 1);
        if !IsSurrogate(h.val) then Done(h.val, h.pos)
        else if !IsHigh(h.val) then Fail(SurrogateError, h.pos)
        else LowAt(t, h.pos, h.val)
  }

  // ----- Strings -----

  /** Prepends decoded bytes to the outcome of decoding the rest of a string. */
  function Prepend(b: bytes, r: Token<bytes>): Token<bytes> {
    match r
    case Done(bs, pos) => Done(b + bs, pos)
    case Fail(code, pos) => r
  }

  lemma PrependPrepend(a: bytes, b: bytes, r: Token<bytes>)
    ensures Prepend(a, Prepend(b, r)) == Prepend(a + b, r)
  {
    if r.Done? {
      assert a + (b + r.val) == a + b + r.val;
    }
  }

  lemma PrependNothing(r: Token<bytes>)
    ensures Prepend([], r) == r
  {
    if r.Done? {
      assert [] + r.val == r.val;
    }
  }

  /** The end of one character that stands for itself. */
  function RawEnd(t: bytes, p: nat, validate: bool): (r: Token<()>)
    requires p <= |t|
    ensures p <= r.pos <= |t| && (r.Done? ==> p < r.pos)
  {
    var c := At(t, p);
    if validate && c >= 0x80 then
      var n := SequenceLength(t, p);
      if n == -1 then Fail(Utf8Error, p)
      else
        SequenceFits(t, p);
        Done((), p + n)
    else if c < 0x20 then Fail(Invalid, p)
    else Done((), p + 1)
  }

  /** The decoded string whose remaining text starts at p, and the position behind its closing quote. */
  function StringAt(t: bytes, p: nat, validate: bool): (r: Token<bytes>)
    requires p <= |t|
    ensures p <= r.pos <= |t|
    ensures r.Done? ==> p < r.pos
    decreases |t| - p
  {
    var c := At(t, p);
    if c == QUOTE then Done([], p + 1)
    else if c == BACKSLASH then
      var e := EscapeAt(t, p);
      if e.Fail? then Fail(e.code, e.pos) else Prepend(Encode(e.val), StringAt(t, e.pos, validate))
    else
      var u := RawEnd(t, p, validate);
      if u.Fail? then Fail(u.code, u.pos) else Prepend(t[p..u.pos], StringAt(t, u.pos, validate))
  }
}
