/**
 * The input: a byte array with a NUL byte behind the text, and a cursor. Strings are decoded in place,
 * so bytes before the cursor change; the bytes from the cursor on are always those of the text.
 */
module Input {
  import opened Base
  import opened Text
  import opened Utf8

  /** Bytes that are passed unchanged join the decoded ones. */
  lemma KeepRaw(b: bytes, t: bytes, str: nat, write: nat, mark: nat, p: nat, q: nat)
    requires p <= q <= |b| && q <= |t|
    requires forall i | p <= i < q :: b[i] == t[i]
    ensures q == p + 1 ==> t[p..q] == [t[p]]
    ensures str <= write <= mark <= p ==> b[str..write] + b[mark..q] == b[str..write] + b[mark..p] + t[p..q]
  {
    if str <= write <= mark <= p {
      assert b[p..q] == t[p..q];
      assert b[mark..q] == b[mark..p] + b[p..q];
      assert b[str..write] + (b[mark..p] + t[p..q]) == b[str..write] + b[mark..p] + t[p..q];
    }
  }

  class InputStream {
    ghost const text: bytes
    const buf: array<byte>
    const count: nat
    var str: nat
    var read: nat
    var write: nat
    var mark: nat

    constructor (bs: bytes)
      ensures Valid() && fresh(buf)
      ensures text == bs && read == 0
    {
      text := bs;
      count := |bs|;
      var b := new byte[|bs| + 1](i => 0);
      buf := b;
      str, read, write, mark := 0, 0, 0, 0;
      new;
      forall i | 0 <= i < |bs| {
        buf[i] := bs[i];
      }
    }

    /** Unread bytes are intact. The cursor passes the NUL byte only where an error follows. */
    ghost predicate Valid()
      reads this, buf
    {
      && count == |text| && buf.Length == count + 1
      && read <= count + 1
      && forall i | read <= i <= count :: buf[i] == At(text, i)
    }

    method Tell() returns (p: nat)
      ensures p == read
    {
      p := read;
    }

    method Eof() returns (e: bool)
      requires Valid() && read <= count
      ensures e <==> read == |text|
    {
      e := read == count;
    }

    method Peek() returns (b: byte)
      requires Valid() && read <= count
      ensures b == At(text, read)
    {
      b := buf[read];
    }

    method Take() returns (b: byte)
      requires Valid() && read <= count
      modifies this`read
      ensures Valid() && read == old(read) + 1
      ensures b == At(text, old(read))
    {
      b := buf[read];
      read := read + 1;
    }

    method Consume(b: byte) returns (ok: bool)
      requires Valid() && read <= count && b != 0
      modifies this`read
      ensures Valid() && ok == (At(text, old(read)) == b)
      ensures read == if ok then old(read) + 1 else old(read)
      ensures read <= count
    {
      if buf[read] != b {
        return false;
      }
      read := read + 1;
      ok := true;
    }

    /** strchr from the cursor on: the search stops at the first NUL byte of the text. */
    method FindByte(c: byte) returns (b: byte)
      requires Valid() && read <= count && c != 0
      modifies this`read
      ensures Valid() && read == Find(text, old(read), c)
      ensures b == At(text, read)
    {
      var p := read;
      while buf[p] != c && buf[p] != 0
        invariant read <= p <= count
        invariant Find(text, p, c) == Find(text, read, c)
        decreases count - p
      {
        p := p + 1;
      }
      if buf[p] != c {
        read := count;
        return 0;
      }
      read := p;
      b := buf[p];
    }

    method ValidateUtf8() returns (ok: bool)
      requires Valid() && read < count
      modifies this`read
      ensures Valid() && read <= count
      ensures ok <==> SequenceLength(text, old(read)) != -1
      ensures read == if ok then old(read) + SequenceLength(text, old(read)) else old(read)
    {
      var len := ValidateSequence(buf[read..], 4);
      Probe(read);
      if len == -1 {
        return false;
      }
      SequenceFits(text, read);
      read := read + len;
      ok := true;
    }

    /** The probe of four bytes, or of those up to the NUL byte, decides as the whole text does. */
    lemma Probe(p: nat)
      requires Valid() && read <= p < count
      ensures var s := buf[p..];
        SequenceLength(s[..if |s| < 4 then |s| else 4], 0) == SequenceLength(text, p)
    {
      var s := buf[p..];
      var w := s[..if |s| < 4 then |s| else 4];
      assert At(w, 0) == At(text, p);
      assert At(w, 1) == At(text, p + 1);
      assert At(w, 2) == At(text, p + 2);
      assert At(w, 3) == At(text, p + 3);
    }

    // ----- The string that is being decoded -----

    /** The cursors of an open string; mark and write meet exactly as long as no escape was seen. */
    ghost predicate Open()
      reads this, buf
    {
      Valid() && str <= write <= mark <= read <= count && (mark == write <==> mark == str)
    }

    /** What has been decoded so far. */
    ghost function Pending(): bytes
      requires Open()
      reads this, buf
    {
      buf[str..write] + buf[mark..read]
    }

    method StringStart()
      requires Valid() && read <= count
      modifies this`str, this`write, this`mark
      ensures Open() && Pending() == [] && str == read && mark == str
    {
      str := read;
      write := read;
      mark := read;
    }

    /** memmove: amt bytes go down from one place to another. */
    method MoveDown(to: nat, from: nat, amt: nat)
      requires to <= from && from + amt <= buf.Length
      modifies buf
      ensures buf[..] == old(buf[..to] + buf[from..from + amt] + buf[to + amt..])
    {
      ghost var before := buf[..];
      forall j | to <= j < to + amt {
        buf[j] := buf[j + (from - to)];
      }
      ghost var after := buf[..];
      assert forall j | to <= j < to + amt :: after[j] == before[j + (from - to)];
      SlicesMoved(before, after, to, from, amt);
    }

    static lemma SlicesMoved(before: bytes, after: bytes, to: nat, from: nat, amt: nat)
      requires to <= from && from + amt <= |before| == |after|
      requires forall j | to <= j < to + amt :: after[j] == before[j + (from - to)]
      requires forall j | 0 <= j < |before| && !(to <= j < to + amt) :: after[j] == before[j]
      ensures after == before[..to] + before[from..from + amt] + before[to + amt..]
    {
      var moved := before[..to] + before[from..from + amt] + before[to + amt..];
      forall j | 0 <= j < |before| ensures after[j] == moved[j] {
        if to <= j < to + amt {
          assert moved[j] == before[from..from + amt][j - to];
        }
      }
    }

    /** Moves the bytes since the last escape down to the others. */
    method StringUpdate()
      requires Open()
      modifies this`write, buf
      ensures Valid() && str <= write <= read
      ensures buf[str..write] == old(Pending())
      ensures buf[..str] == old(buf[..str])
      ensures mark != str ==> write < read
    {
      if mark != write {
        var amt := read - mark;
        if amt > 0 {
          MovePending(amt);
        }
      } else {
        write := read;
      }
    }

    /** The bytes between mark and read go behind those decoded; nothing before or behind them is lost. */
    method MovePending(amt: nat)
      requires str <= write <= mark && mark + amt == read <= buf.Length
      modifies this`write, buf
      ensures write == old(write) + amt && buf[str..write] == old(buf[str..write] + buf[mark..read])
      ensures buf[..str] == old(buf[..str]) && forall j | read <= j < buf.Length :: buf[j] == old(buf[j])
    {
      ghost var before := buf[..];
      MoveDown(write, mark, amt);
      ghost var after := buf[..];
      Moved(before, after, str, write, mark, amt);
      write := write + amt;
      assert buf[str..write] == after[str..write] && buf[..str] == after[..str];
      assert forall j | read <= j < buf.Length :: buf[j] == after[j];
    }

    static lemma Moved(before: bytes, after: bytes, str: nat, write: nat, mark: nat, amt: nat)
      requires str <= write <= mark && mark + amt <= |before|
      requires after == before[..write] + before[mark..mark + amt] + before[write + amt..]
      ensures after[str..write + amt] == before[str..write] + before[mark..mark + amt] && after[..str] == before[..str]
      ensures |after| == |before| && forall j | mark + amt <= j < |after| :: after[j] == before[j]
    {
      assert forall j | mark + amt <= j < |after| :: after[j] == before[write + amt..][j - (write + amt)];
    }

    /** Writes a code point behind what has been decoded and starts the next stretch at the cursor. */
    method PutCodepoint(cp: nat)
      requires Valid() && IsValidCodepoint(cp) && str <= write && write + |Encode(cp)| < read <= count
      modifies this`write, this`mark, buf
      ensures Open() && mark == read && str < mark
      ensures Pending() == old(buf[str..write]) + Encode(cp)
      ensures buf[..str] == old(buf[..str])
    {
      hide Encode;
      ghost var before, w := buf[..], write;
      write := EncodeInto(cp, buf, write);
      mark := read;
      ghost var after := buf[..];
      assert after[..w] == before[..w] && after[write..] == before[write..] && after[w..write] == Encode(cp);
      SameWithin(after, before, 0, w, 0, str);
      SameWithin(after, before, 0, w, str, w);
      TwoSlices(after, str, w, write);
      assert buf[str..write] == after[str..write] && buf[..str] == after[..str] && buf[mark..read] == [];
    }

    /** Passes the closing quote and returns where the decoded string lies. */
    method StringComplete() returns (off: nat, len: nat)
      requires Open() && read < count
      modifies this`read, this`write, buf
      ensures Valid() && read == old(read) + 1
      ensures off == str && off + len <= old(read)
      ensures buf[off..off + len] == old(Pending())
      ensures buf[..str] == old(buf[..str])
    {
      off := str;
      if mark == str {
        len := read - str;
      } else {
        StringUpdate();
        len := write - str;
      }
      read := read + 1;
    }
  }
}
