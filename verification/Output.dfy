/** The growable output buffer, and strings escaped into it. */
module Output {
  import opened Base
  import opened Text
  import opened Utf8
  import opened Escape

  const DEFAULT_CAPACITY: nat := 4096

  class OutputStream {
    const initial: nat
    var capacity: nat
    var count: nat
    var buffer: array<byte>

    constructor (initial: nat)
      ensures Valid() && Contents() == [] && fresh(buffer)
    {
      this.initial := if initial > 0 then initial else DEFAULT_CAPACITY;
      capacity, count := 0, 0;
      buffer := new byte[0];
    }

    ghost predicate Valid()
      reads this
    {
      initial > 0 && count <= capacity == buffer.Length
    }

    /** What has been written. */
    ghost function Contents(): (s: bytes)
      requires Valid()
      reads this, buffer
      ensures |s| == count
    {
      buffer[..count]
    }

    /** Reallocates: the capacity is doubled until incr more bytes fit, and what was written is kept. */
    method Grow(incr: nat)
      requires Valid()
      modifies this`capacity, this`buffer
      ensures Valid() && fresh(buffer) && Contents() == old(Contents())
      ensures count + incr <= capacity && old(capacity) <= capacity
    {
      var size := if capacity > 0 then capacity * 2 else initial;
      var required := count + incr;
      while size < required
        invariant size > 0 && old(capacity) <= size
        decreases required - size
      {
        size := size * 2;
      }
      var bigger := new byte[size](i => 0);
      forall i | 0 <= i < count {
        bigger[i] := buffer[i];
      }
      buffer := bigger;
      capacity := size;
    }

    /**
     * Room for n bytes behind what has been written; the caller fills it. Reserving nothing before anything
     * has been reserved yields no buffer, which callers take for a failure.
     */
    method Reserve(n: nat) returns (off: Option<nat>)
      requires Valid()
      modifies this`capacity, this`count, this`buffer
      ensures off == if n == 0 && old(capacity) == 0 then None else Some(old(count))
      ensures Valid() && count == old(count) + n && old(capacity) <= capacity && (off.Some? ==> capacity > 0)
      ensures buffer[..old(count)] == old(Contents()) && (buffer == old(buffer) || fresh(buffer))
    {
      if n > capacity - count {
        Grow(n);
      }
      if capacity == 0 {
        return None;
      }
      off := Some(count);
      count := count + n;
    }

    method Put(b: byte)
      requires Valid()
      modifies this, buffer
      ensures Valid() && capacity > 0 && Contents() == old(Contents()) + [b]
      ensures buffer == old(buffer) || fresh(buffer)
    {
      var off := Reserve(1);
      buffer[off.value] := b;
    }

    method PutN(b: byte, n: nat)
      requires Valid()
      modifies this, buffer
      ensures Valid() && old(capacity) <= capacity && Contents() == old(Contents()) + Repeat(b, n)
      ensures buffer == old(buffer) || fresh(buffer)
    {
      if n > 0 {
        var off := Reserve(n);
        forall i | off.value <= i < off.value + n {
          buffer[i] := b;
        }
      }
    }

    /** Appends the bytes; there is no buffer only when nothing is appended to nothing. */
    method Puts(s: bytes) returns (ok: bool)
      requires Valid()
      modifies this, buffer
      ensures ok == (s != [] || old(capacity) > 0)
      ensures Valid() && (ok ==> capacity > 0) && Contents() == old(Contents()) + s
      ensures buffer == old(buffer) || fresh(buffer)
    {
      var off := Reserve(|s|);
      ok := off.Some?;
      if ok {
        forall i | 0 <= i < |s| {
          buffer[off.value + i] := s[i];
        }
      }
    }

    /** Gives back what was reserved and not used. */
    method Adjust(amount: int)
      requires Valid() && 0 <= count + amount <= count
      modifies this`count
      ensures Valid() && count == old(count) + amount && Contents() == old(Contents())[..count]
    {
      count := count + amount;
    }

    /** Two or six bytes for one that cannot be copied. */
    method PutEscape(chr: byte)
      requires Valid() && MustEscape(chr)
      modifies this, buffer
      ensures Valid() && capacity > 0 && Contents() == old(Contents()) + ByteText(chr)
      ensures buffer == old(buffer) || fresh(buffer)
    {
      var e := ShortEscape(chr);
      if e != 0 {
        var room := Reserve(2);
        var off := room.value;
        buffer[off], buffer[off + 1] := BACKSLASH, e;
      } else {
        var room := Reserve(6);
        var off := room.value;
        var high, low := HexDigit(chr / 16 % 16), HexDigit(chr % 16);
        hide HexDigit;
        ghost var before := buffer[..];
        buffer[off], buffer[off + 1], buffer[off + 2], buffer[off + 3] := BACKSLASH, 'u' as int, 0x30, 0x30;
        buffer[off + 4], buffer[off + 5] := high, low;
        SixBytes(before, buffer[..], off, high, low);
        assert Contents() == buffer[..][..off + 6];
        assert before[..off] == old(Contents());
      }
    }

    /** A byte that cannot be copied, or the UTF-8 sequence it starts. */
    method PutSpecial(s: bytes, p: nat, validate: bool) returns (ok: bool, next: nat, ghost piece: bytes)
      requires Valid() && capacity > 0 && p < |s| && IsSpecial(s[p], validate)
      modifies this, buffer
      ensures Valid() && capacity > 0 && Contents() == old(Contents()) + piece
      ensures buffer == old(buffer) || fresh(buffer)
      ensures !ok ==> piece == [] && EscapeFrom(s, p, validate) == Escaped([], false)
      ensures ok ==> p < next <= |s| && EscapeFrom(s, p, validate) == Prefixed(piece, EscapeFrom(s, next, validate))
    {
      hide SequenceLength, ByteText;
      var chr := s[p];
      if validate && chr >= 0x80 {
        var len := ValidateSequence(s[p..], |s| - p);
        Suffix(s, p);
        if len == -1 {
          assert Contents() == old(Contents()) + [];
          return false, p, [];
        }
        SequenceFits(s, p);
        next := p + len;
        piece := s[p..next];
        var _ := Puts(s[p..next]);
      } else {
        next := p + 1;
        piece := ByteText(chr);
        PutEscape(chr);
      }
      ok := true;
    }

    /** Escapes a string; where it stops at invalid UTF-8, what precedes it has been written. */
    method ScanEscape(s: bytes, validate: bool) returns (ok: bool)
      requires Valid() && capacity > 0
      modifies this, buffer
      ensures Valid() && capacity > 0 && ok == EscapeFrom(s, 0, validate).ok
      ensures Contents() == old(Contents()) + EscapeFrom(s, 0, validate).text
      ensures buffer == old(buffer) || fresh(buffer)
    {
      hide EscapeFrom, IsSpecial, Prefixed, OutputStream.Contents;
      ghost var whole, start := EscapeFrom(s, 0, validate), Contents();
      ghost var done: bytes := [];
      PrefixedTwice([], [], whole);
      var pos1 := 0;
      var pos2 := FindNextSpecial(s, pos1, validate);
      while pos2 < |s|
        invariant Valid() && capacity > 0 && (buffer == old(buffer) || fresh(buffer))
        invariant pos1 <= pos2 <= |s| && forall k | pos1 <= k < pos2 :: !IsSpecial(s[k], validate)
        invariant pos2 < |s| ==> IsSpecial(s[pos2], validate)
        invariant Contents() == start + done && whole == Prefixed(done, EscapeFrom(s, pos1, validate))
        decreases |s| - pos1
      {
        Copied(s, pos1, pos2, validate, done, whole);
        var _ := Puts(s[pos1..pos2]);
        Concat3(start, done, s[pos1..pos2]);
        done := done + s[pos1..pos2];
        ghost var piece;
        ok, pos1, piece := PutSpecial(s, pos2, validate);
        if !ok {
          Stopped(done, whole);
          Concat3(start, done, []);
          return;
        }
        PrefixedTwice(done, piece, EscapeFrom(s, pos1, validate));
        Concat3(start, done, piece);
        done := done + piece;
        pos2 := FindNextSpecial(s, pos1, validate);
      }
      Copied(s, pos1, pos2, validate, done, whole);
      var _ := Puts(s[pos1..pos2]);
      Concat3(start, done, s[pos1..pos2]);
      Ended(s, validate, done + s[pos1..pos2], whole);
      ok := true;
    }
  }

  /** The position of the next byte that cannot be copied as it is, from start on. */
  method FindNextSpecial(s: bytes, start: nat, validate: bool) returns (i: nat)
    requires start <= |s|
    ensures start <= i <= |s| && forall k | start <= k < i :: !IsSpecial(s[k], validate)
    ensures i < |s| ==> IsSpecial(s[i], validate)
  {
    i := start;
    while i < |s|
      invariant start <= i <= |s| && forall k | start <= k < i :: !IsSpecial(s[k], validate)
    {
      var chr := s[i];
      if chr == QUOTE || chr == BACKSLASH || chr < 0x20 || (validate && chr >= 0x80) {
        return;
      }
      i := i + 1;
    }
  }

  /** A run that is copied adds to what was written before it. */
  lemma Copied(s: bytes, p: nat, q: nat, validate: bool, done: bytes, whole: Escaped)
    requires p <= q <= |s| && forall i | p <= i < q :: !IsSpecial(s[i], validate)
    requires whole == Prefixed(done, EscapeFrom(s, p, validate))
    ensures whole == Prefixed(done + s[p..q], EscapeFrom(s, q, validate))
  {
    RunIsCopied(s, p, q, validate);
    PrefixedTwice(done, s[p..q], EscapeFrom(s, q, validate));
  }

  lemma Ended(s: bytes, validate: bool, done: bytes, whole: Escaped)
    requires whole == Prefixed(done, EscapeFrom(s, |s|, validate))
    ensures whole == Escaped(done, true)
  {
  }

  lemma Stopped(done: bytes, whole: Escaped)
    requires whole == Prefixed(done, Escaped([], false))
    ensures whole == Escaped(done, false) && done + [] == done
  {
  }

  lemma SixBytes(before: bytes, after: bytes, off: nat, high: byte, low: byte)
    requires off + 6 <= |before| == |after| && after[..off] == before[..off]
    requires after[off] == BACKSLASH && after[off + 1] == 'u' as int && after[off + 2] == after[off + 3] == 0x30
    requires after[off + 4] == high && after[off + 5] == low
    ensures after[..off + 6] == before[..off] + [BACKSLASH, 'u' as int, 0x30, 0x30, high, low]
  {
    assert after[off..off + 6] == [BACKSLASH, 'u' as int, 0x30, 0x30, high, low];
    assert after[..off + 6] == after[..off] + after[off..off + 6];
  }

  lemma Concat3(a: bytes, b: bytes, c: bytes)
    ensures a + b + c == a + (b + c)
  {
  }

  function Repeat(b: byte, n: nat): (r: bytes)
    ensures |r| == n
  {
    seq(n, i => b)
  }

  lemma Suffix(s: bytes, p: nat)
    requires p < |s|
    ensures var w := s[p..]; SequenceLength(w[..|w|], 0) == SequenceLength(s, p)
  {
    var w := s[p..];
    assert w[..|w|] == w;
    assert At(w, 0) == At(s, p) && At(w, 1) == At(s, p + 1) && At(w, 2) == At(s, p + 2) && At(w, 3) == At(s, p + 3);
  }
}
