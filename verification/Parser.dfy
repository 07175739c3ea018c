/**
 * The token parsers over the input stream. A call that throws in the C code returns an error code;
 * the cursor then stands where the error is reported.
 */
module Parser {
  import opened Base
  import opened Decimal
  import opened Text
  import opened Utf8
  import opened Number
  import opened Descent
  import opened Input

  /** The cursor and the error code are those of the token. */
  ghost predicate Agrees<T>(k: Token<T>, err: Option<ErrorCode>, pos: nat) {
    pos == k.pos && err == if k.Done? then None else Some(k.code)
  }

  method ConsumeBlanks(mis: InputStream) returns (c: byte)
    requires mis.Valid() && mis.read <= mis.count
    modifies mis`read
    ensures mis.Valid() && mis.read == BlanksEnd(mis.text, old(mis.read)) && c == At(mis.text, mis.read)
  {
    c := mis.Peek();
    while c == ' ' as int || c == '\n' as int || c == '\r' as int || c == '\t' as int
      invariant mis.Valid() && mis.read <= mis.count && c == At(mis.text, mis.read)
      invariant BlanksEnd(mis.text, mis.read) == BlanksEnd(mis.text, old(mis.read))
      decreases mis.count - mis.read
    {
      c := mis.Take();
      c := mis.Peek();
    }
  }

  /** Behind the opening of a block comment. */
  method SkipBlock(mis: InputStream)
    requires mis.Valid() && mis.read <= mis.count
    modifies mis`read
    ensures mis.Valid() && mis.read == BlockEnd(mis.text, old(mis.read))
  {
    while true
      invariant mis.Valid() && mis.read <= mis.count
      invariant BlockEnd(mis.text, mis.read) == BlockEnd(mis.text, old(mis.read))
      decreases mis.count - mis.read
    {
      var c := mis.FindByte('*' as int);
      if c == '*' as int {
        c := mis.Take();
        var closed := mis.Consume('/' as int);
        if closed {
          return;
        }
      }
      var eof := mis.Eof();
      if eof {
        return;
      }
    }
  }

  /** A comment whose slash is under the cursor. */
  method SkipComment(mis: InputStream) returns (err: Option<ErrorCode>)
    requires mis.Valid() && mis.read <= mis.count && At(mis.text, mis.read) == '/' as int
    modifies mis`read
    ensures mis.Valid() && mis.read <= mis.count
    ensures Agrees(CommentEnd(mis.text, old(mis.read)), err, mis.read)
  {
    err := None;
    var c := mis.Take();
    c := mis.Peek();
    if c == '*' as int {
      c := mis.Take();
      SkipBlock(mis);
    } else if c == '/' as int {
      c := mis.FindByte('\n' as int);
    } else {
      err := Some(Unexpected);
    }
  }

  method ConsumeWhitespace(mis: InputStream, comments: bool) returns (err: Option<ErrorCode>, c: byte)
    requires mis.Valid() && mis.read <= mis.count
    modifies mis`read
    ensures mis.Valid() && mis.read <= mis.count
    ensures Agrees(SpaceEnd(mis.text, old(mis.read), comments), err, mis.read)
    ensures err.None? ==> c == At(mis.text, mis.read)
  {
    err := None;
    if !comments {
      c := ConsumeBlanks(mis);
      return;
    }
    ghost var whole := SpaceEnd(mis.text, mis.read, true);
    while true
      invariant mis.Valid() && mis.read <= mis.count && err.None?
      invariant SpaceEnd(mis.text, mis.read, true) == whole
      decreases mis.count - mis.read
    {
      c := ConsumeBlanks(mis);
      if c != '/' as int {
        return;
      }
      err := SkipComment(mis);
      if err.Some? {
        return;
      }
      var eof := mis.Eof();
      if eof {
        SpaceEndIdempotent(mis.text, mis.read, true);
        return None, 0;
      }
    }
  }

  method ParseWord(mis: InputStream, word: bytes) returns (err: Option<ErrorCode>)
    requires mis.Valid() && mis.read <= mis.count && 0 !in word
    requires word != [] && At(mis.text, mis.read) == word[0]
    modifies mis`read
    ensures mis.Valid() && mis.read <= mis.count
    ensures Agrees(WordEnd(mis.text, old(mis.read), word), err, mis.read)
  {
    var c := mis.Take();
    var i := 1;
    while i < |word|
      invariant 1 <= i <= |word| && mis.Valid() && mis.read <= mis.count
      invariant WordEnd(mis.text, mis.read, word[i..]) == WordEnd(mis.text, old(mis.read), word)
    {
      var ok := mis.Consume(word[i]);
      if !ok {
        return Some(Unexpected);
      }
      i := i + 1;
    }
    err := None;
  }

  method ParseHex4(mis: InputStream) returns (err: Option<ErrorCode>, codepoint: nat)
    requires mis.Valid() && mis.read <= mis.count
    modifies mis`read
    ensures mis.Valid() && mis.read <= mis.count
    ensures Agrees(HexAt(mis.text, old(mis.read), 4, 0), err, mis.read)
    ensures err.None? ==> codepoint == HexAt(mis.text, old(mis.read), 4, 0).val
  {
    hide HexAt;
    codepoint := 0;
    HexStep(mis.text, mis.read, 0, 0);
    var i := 0;
    while i < 4
      invariant 0 <= i <= 4 && mis.Valid() && mis.read <= mis.count
      invariant HexAt(mis.text, mis.read, 4 - i, codepoint) == HexAt(mis.text, old(mis.read), 4, 0)
    {
      ghost var p, before := mis.read, codepoint;
      var c: nat := mis.Peek();
      HexStep(mis.text, p, 4 - i, before);
      codepoint := codepoint * 16;
      if 0x30 <= c <= 0x39 {
        codepoint := codepoint + (c - 0x30);
      } else if 'A' as int <= c <= 'F' as int {
        codepoint := codepoint + 10 + (c - 'A' as int);
      } else if 'a' as int <= c <= 'f' as int {
        codepoint := codepoint + 10 + (c - 'a' as int);
      } else {
        return Some(EscapeError), 0;
      }
      assert codepoint == 16 * before + HexValue(c);
      var _ := mis.Take();
      i := i + 1;
    }
    HexStep(mis.text, mis.read, 0, codepoint);
    err := None;
  }

  lemma HexStep(t: bytes, p: nat, n: nat, cp: nat)
    requires p <= |t|
    ensures HexAt(t, p, 0, cp) == Done(cp, p)
    ensures var v := HexValue(At(t, p));
      n > 0 ==> HexAt(t, p, n, cp) == if v == -1 then Fail(EscapeError, p) else HexAt(t, p + 1, n - 1, 16 * cp + v)
  {
  }

  method ParseEscape(mis: InputStream) returns (err: Option<ErrorCode>, codepoint: nat)
    requires mis.Valid() && mis.read < mis.count
    modifies mis`read
    ensures mis.Valid() && mis.read <= mis.count
    ensures Agrees(EscapeAt(mis.text, old(mis.read)), err, mis.read)
    ensures err.None? ==> codepoint == EscapeAt(mis.text, old(mis.read)).val
  {
    codepoint := 0;
    var _ := mis.Take();
    var e := mis.Peek();
    if Unescape(e) != 0 {
      var _ := mis.Take();
      return None, Unescape(e);
    }
    if e != 'u' as int {
      return Some(EscapeError), 0;
    }
    var _ := mis.Take();
    err, codepoint := ParseHex4(mis);
    if err.Some? {
      return;
    }
    if 0xD800 <= codepoint <= 0xDFFF {
      if codepoint > 0xDBFF {
        return Some(SurrogateError), 0;
      }
      err, codepoint := ParseLow(mis, codepoint);
    }
  }

  /** The second half of a surrogate pair. */
  method ParseLow(mis: InputStream, high: nat) returns (err: Option<ErrorCode>, codepoint: nat)
    requires mis.Valid() && mis.read <= mis.count && IsHigh(high)
    modifies mis`read
    ensures mis.Valid() && mis.read <= mis.count
    ensures Agrees(LowAt(mis.text, old(mis.read), high), err, mis.read)
    ensures err.None? ==> codepoint == LowAt(mis.text, old(mis.read), high).val
  {
    var ok := mis.Consume(BACKSLASH);
    if ok {
      ok := mis.Consume('u' as int);
    }
    if !ok {
      return Some(SurrogateError), 0;
    }
    var low;
    err, low := ParseHex4(mis);
    if err.Some? {
      return err, 0;
    }
    if low < 0xDC00 || low > 0xDFFF {
      return Some(SurrogateError), 0;
    }
    codepoint := (high - 0xD800) * 0x400 + (low - 0xDC00) + 0x10000;
  }

  /** An escape inside an open string, its code point encoded behind what has been decoded. */
  method ParseEscapeInString(mis: InputStream) returns (err: Option<ErrorCode>)
    requires mis.Open() && mis.read < mis.count
    modifies mis`read, mis`write, mis`mark, mis.buf
    ensures mis.Valid() && mis.read <= mis.count
    ensures Agrees(EscapeAt(mis.text, old(mis.read)), err, mis.read)
    ensures err.None? ==> mis.Open() && mis.str < mis.mark
    ensures err.None? ==> mis.Pending() == old(mis.Pending()) + Encode(EscapeAt(mis.text, old(mis.read)).val)
    ensures mis.buf[..mis.str] == old(mis.buf[..mis.str])
  {
    mis.StringUpdate();
    var codepoint;
    err, codepoint := ParseEscape(mis);
    if err.None? {
      mis.PutCodepoint(codepoint);
    }
  }

  /** A character that stands for itself, inside an open string. */
  method PassRaw(mis: InputStream, validate: bool) returns (err: Option<ErrorCode>)
    requires mis.Open() && At(mis.text, mis.read) != QUOTE && At(mis.text, mis.read) != BACKSLASH
    modifies mis`read
    ensures mis.Open() && Agrees(RawEnd(mis.text, old(mis.read), validate), err, mis.read)
    ensures mis.Pending() == old(mis.Pending()) + mis.text[old(mis.read)..mis.read]
  {
    ghost var p := mis.read;
    var c := mis.Peek();
    err := None;
    if validate && c >= 0x80 {
      var ok := mis.ValidateUtf8();
      if !ok {
        err := Some(Utf8Error);
      }
    } else if c < 0x20 {
      err := Some(Invalid);
    } else {
      var _ := mis.Take();
    }
    KeepRaw(mis.buf[..], mis.text, mis.str, mis.write, mis.mark, p, mis.read);
  }

  /** A string whose opening quote has been taken, decoded in place. */
  method ParseStringInStream(mis: InputStream, validate: bool)
    returns (err: Option<ErrorCode>, off: nat, len: nat)
    requires mis.Valid() && mis.read <= mis.count
    modifies mis, mis.buf
    ensures mis.Valid() && mis.read <= mis.count
    ensures Agrees(StringAt(mis.text, old(mis.read), validate), err, mis.read)
    ensures err.None? ==> off == old(mis.read) && off + len <= mis.read
    ensures err.None? ==> mis.buf[off..off + len] == StringAt(mis.text, old(mis.read), validate).val
    ensures mis.buf[..old(mis.read)] == old(mis.buf[..mis.read])
  {
    hide StringAt, Prepend, EscapeAt, RawEnd, Encode, InputStream.Pending;
    off, len, err := 0, 0, None;
    ghost var start, whole := mis.read, StringAt(mis.text, mis.read, validate);
    mis.StringStart();
    PrependNothing(whole);
    while true
      invariant mis.Open() && mis.str == start && err.None?
      invariant whole == Prepend(mis.Pending(), StringAt(mis.text, mis.read, validate))
      invariant mis.buf[..start] == old(mis.buf[..start])
      decreases mis.count - mis.read
    {
      ghost var p, done := mis.read, mis.Pending();
      var c := mis.Peek();
      StringStep(mis.text, p, validate, done, whole);
      if c == QUOTE {
        off, len := mis.StringComplete();
        assert mis.buf[off..off + len] == done;
        return;
      } else if c == BACKSLASH {
        err := ParseEscapeInString(mis);
      } else {
        err := PassRaw(mis, validate);
      }
      if err.Some? {
        return;
      }
    }
  }

  /** What one round of the string loop adds to the bytes decoded before it. */
  lemma StringStep(t: bytes, p: nat, validate: bool, done: bytes, whole: Token<bytes>)
    requires p <= |t| && whole == Prepend(done, StringAt(t, p, validate))
    ensures var c := At(t, p);
      if c == QUOTE then whole == Done(done, p + 1)
      else if c == BACKSLASH then
        var e := EscapeAt(t, p);
        if e.Fail? then whole == Fail(e.code, e.pos)
        else whole == Prepend(done + Encode(e.val), StringAt(t, e.pos, validate))
      else
        var u := RawEnd(t, p, validate);
        if u.Fail? then whole == Fail(u.code, u.pos)
        else whole == Prepend(done + t[p..u.pos], StringAt(t, u.pos, validate))
  {
    var c := At(t, p);
    if c == QUOTE {
      assert done + [] == done;
    } else if c == BACKSLASH {
      var e := EscapeAt(t, p);
      if e.Done? {
        PrependPrepend(done, Encode(e.val), StringAt(t, e.pos, validate));
      }
    } else {
      var u := RawEnd(t, p, validate);
      if u.Done? {
        PrependPrepend(done, t[p..u.pos], StringAt(t, u.pos, validate));
      }
    }
  }
}
