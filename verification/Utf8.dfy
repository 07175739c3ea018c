/**
 * UTF-8 encoding and validation (sections 3 and 4 of RFC 3629). Bit masks and shifts on byte
 * values are written as the divisions and remainders by powers of two that they are.
 */
module Utf8 {
  import opened Base

  predicate IsSurrogate(cp: nat) {
    0xD800 <= cp <= 0xDFFF
  }

  predicate IsValidCodepoint(cp: nat) {
    cp <= 0x10FFFF && !IsSurrogate(cp)
  }

  /** The bytes RFC 3629 assigns to a code point. */
  function Encode(cp: nat): (r: bytes)
    requires IsValidCodepoint(cp)
    ensures 1 <= |r| <= 4
  {
    if cp < 0x80 then [cp]
    else if cp < 0x800 then [0xC0 + cp / 64, 0x80 + cp % 64]
    else if cp < 0x10000 then [0xE0 + cp / 4096, 0x80 + cp / 64 % 64, 0x80 + cp % 64]
    else [0xF0 + cp / 262144, 0x80 + cp / 4096 % 64, 0x80 + cp / 64 % 64, 0x80 + cp % 64]
  }

  function Shr(cp: nat, shift: nat): nat
    requires shift in {0, 6, 12, 18}
  {
    if shift == 0 then cp else if shift == 6 then cp / 64 else if shift == 12 then cp / 4096 else cp / 262144
  }

  lemma LeadByte(cp: nat)
    requires IsValidCodepoint(cp)
    ensures cp <= 0x7F ==> |Encode(cp)| == 1 && Encode(cp)[0] == cp
    ensures 0x80 <= cp <= 0x7FF ==> |Encode(cp)| == 2 && Encode(cp)[0] == 0xC0 + Shr(cp, 6) % 32
    ensures 0x7FF < cp <= 0xFFFF ==> |Encode(cp)| == 3 && Encode(cp)[0] == 0xE0 + Shr(cp, 12) % 16
    ensures 0xFFFF < cp ==> |Encode(cp)| == 4 && Encode(cp)[0] == 0xF0 + Shr(cp, 18) % 8
  {
  }

  /** Behind the lead byte every byte carries the next six bits of the code point. */
  lemma EncodeByte(cp: nat, i: nat)
    requires IsValidCodepoint(cp) && 0 < i < |Encode(cp)|
    ensures Encode(cp)[i] == 0x80 + Shr(cp, 6 * (|Encode(cp)| - 1 - i)) % 64
  {
  }

  /** Writes the encoding of cp at w and returns the position behind it. */
  method EncodeInto(cp: nat, buf: array<byte>, w: nat) returns (w': nat)
    requires IsValidCodepoint(cp)
    requires w + |Encode(cp)| <= buf.Length
    modifies buf
    ensures w' == w + |Encode(cp)|
    ensures buf[w..w'] == Encode(cp)
    ensures buf[..w] == old(buf[..w]) && buf[w'..] == old(buf[w'..])
  {
    LeadByte(cp);
    hide Encode, Shr, Written;
    var shift := 0;
    var lead: byte;
    if cp <= 0x7F {
      lead := cp;
    } else if cp <= 0x7FF {
      shift := 6;
      lead := 0xC0 + Shr(cp, shift) % 32;
    } else if cp <= 0xFFFF {
      shift := 12;
      lead := 0xE0 + Shr(cp, shift) % 16;
    } else {
      shift := 18;
      lead := 0xF0 + Shr(cp, shift) % 8;
    }
    ghost var before := buf[..];
    WrittenStep(before, before, w, 0, Encode(cp));
    buf[w] := lead;
    PutContinuations(cp, buf, w, shift, before);
    w' := w + 1 + shift / 6;
    WrittenAll(buf[..], before, w, Encode(cp));
    assert buf[w..w'] == buf[..][w..w'] && buf[..w] == buf[..][..w] && buf[w'..] == buf[..][w'..];
  }

  /** The bytes behind the lead byte: six bits each, the highest first. */
  method PutContinuations(cp: nat, buf: array<byte>, w: nat, shift0: nat, ghost before: bytes)
    requires IsValidCodepoint(cp) && shift0 in {0, 6, 12, 18} && |Encode(cp)| == 1 + shift0 / 6
    requires Written(buf[..], before, w, 1, Encode(cp))
    modifies buf
    ensures Written(buf[..], before, w, |Encode(cp)|, Encode(cp))
  {
    WrittenFits(buf[..], before, w, 1, Encode(cp));
    hide Encode, Shr, Written;
    var shift, n := shift0, 1;
    while shift > 0
      invariant shift in {0, 6, 12, 18} && n + shift / 6 == |Encode(cp)|
      invariant Written(buf[..], before, w, n, Encode(cp))
      decreases shift
    {
      shift := shift - 6;
      EncodeByte(cp, n);
      ghost var now := buf[..];
      WrittenStep(now, before, w, n, Encode(cp));
      buf[w + n] := 0x80 + Shr(cp, shift) % 64;
      assert buf[..] == now[w + n := Encode(cp)[n]];
      n := n + 1;
    }
  }

  /** The first n bytes of e stand at w, and before w and behind e everything is as before. */
  ghost predicate Written(s: bytes, before: bytes, w: nat, n: nat, e: bytes) {
    && |s| == |before| && n <= |e| && w + |e| <= |s|
    && s[w..w + n] == e[..n] && s[..w] == before[..w] && s[w + |e|..] == before[w + |e|..]
  }

  lemma WrittenStep(s: bytes, before: bytes, w: nat, n: nat, e: bytes)
    requires w + |e| <= |s| && n < |e| && (if n == 0 then s == before else Written(s, before, w, n, e))
    ensures Written(s[w + n := e[n]], before, w, n + 1, e)
  {
    var after := s[w + n := e[n]];
    assert after[w..w + n + 1] == s[w..w + n] + [e[n]];
    assert s[w..w + n] == e[..n];
  }

  lemma WrittenFits(s: bytes, before: bytes, w: nat, n: nat, e: bytes)
    requires Written(s, before, w, n, e)
    ensures |s| == |before| && w + |e| <= |s|
  {
  }

  lemma WrittenAll(s: bytes, before: bytes, w: nat, e: bytes)
    requires Written(s, before, w, |e|, e)
    ensures |s| == |before| && w + |e| <= |s| && s[w..w + |e|] == e && s[..w] == before[..w] && s[w + |e|..] == before[w + |e|..]
  {
  }

  predicate IsContinuation(b: byte) {
    b / 64 == 2
  }

  /**
   * The number of bytes of the code point encoded at position p of the text, or -1. Decoded from the
   * lead byte; IsEncoding below is what it means.
   */
  function SequenceLength(t: bytes, p: nat): (n: int)
    ensures n == -1 || 1 <= n <= 4
  {
    var b0, b1, b2, b3 := At(t, p), At(t, p + 1), At(t, p + 2), At(t, p + 3);
    if b0 <= 0x7F then 1
    else if b0 / 32 == 6 then
      if IsContinuation(b1) && b0 % 32 * 64 + b1 % 64 >= 0x80 then 2 else -1
    else if b0 / 16 == 14 then
      var cp := b0 % 16 * 4096 + b1 % 64 * 64 + b2 % 64;
      if IsContinuation(b1) && IsContinuation(b2) && cp >= 0x800 && !IsSurrogate(cp) then 3 else -1
    else if b0 / 8 == 30 then
      var cp := b0 % 8 * 262144 + b1 % 64 * 4096 + b2 % 64 * 64 + b3 % 64;
      if IsContinuation(b1) && IsContinuation(b2) && IsContinuation(b3) && 0x10000 <= cp <= 0x10FFFF then 4 else -1
    else -1
  }

  /** The first n bytes at p are the encoding of some valid code point. */
  ghost predicate IsEncoding(t: bytes, p: nat, n: nat) {
    exists cp: nat :: IsValidCodepoint(cp) && n == |Encode(cp)| && Occurs(t, p, Encode(cp))
  }

  /**
   * Validation of one sequence. The bytes are those from the cursor on; a NUL byte may stand in for
   * the bytes that are missing when fewer than count follow.
   */
  method ValidateSequence(s: bytes, count: nat) returns (n: int)
    requires count >= 1 && |s| >= 1
    requires |s| >= count || s[|s| - 1] == 0
    ensures n == SequenceLength(s[..if |s| < count then |s| else count], 0)
  {
    var b := s[0];
    var codepoint: nat, bar: nat, cont: nat;
    if b / 32 == 6 {
      codepoint, bar, cont := b % 32, 0x80, 1;
    } else if b / 16 == 14 {
      codepoint, bar, cont := b % 16, 0x800, 2;
    } else if b / 8 == 30 {
      codepoint, bar, cont := b % 8, 0x10000, 3;
    } else if b <= 0x7F {
      codepoint, bar, cont := b, 0, 0;
    } else {
      return -1;
    }
    if count < 1 + cont {
      return -1;
    }
    ghost var lead := codepoint;
    var length := 1;
    while length <= cont
      invariant 1 <= length <= cont + 1 && length <= |s|
      invariant length > 1 ==> IsContinuation(s[1])
      invariant length > 2 ==> IsContinuation(s[2])
      invariant length > 3 ==> IsContinuation(s[3])
      invariant length <= cont ==> length < |s|
      invariant codepoint ==
        if length == 1 then lead
        else if length == 2 then lead * 64 + s[1] % 64
        else if length == 3 then lead * 4096 + s[1] % 64 * 64 + s[2] % 64
        else lead * 262144 + s[1] % 64 * 4096 + s[2] % 64 * 64 + s[3] % 64
    {
      b := s[length];
      if b / 64 != 2 {
        return -1;
      }
      codepoint := codepoint * 64 + b % 64;
      length := length + 1;
    }
    if codepoint < bar || !IsValidCodepoint(codepoint) {
      return -1;
    }
    n := length;
  }

  lemma Group2(a: nat, x: nat)
    requires a < 32 && x < 64
    ensures (a * 64 + x) / 64 == a && (a * 64 + x) % 64 == x
    ensures (0xC0 + a) / 32 == 6 && (0xC0 + a) % 32 == a
    ensures a >= 2 ==> Encode(a * 64 + x) == [0xC0 + a, 0x80 + x]
    ensures (0x80 + x) / 64 == 2 && (0x80 + x) % 64 == x
  {
  }

  lemma Group3(a: nat, x: nat, y: nat)
    requires a < 16 && x < 64 && y < 64
    ensures var cp := a * 4096 + x * 64 + y; cp / 4096 == a && cp / 64 % 64 == x && cp % 64 == y
    ensures (0xE0 + a) / 16 == 14 && (0xE0 + a) % 16 == a
    ensures a * 4096 + x * 64 + y >= 0x800 && IsValidCodepoint(a * 4096 + x * 64 + y) ==>
      Encode(a * 4096 + x * 64 + y) == [0xE0 + a, 0x80 + x, 0x80 + y]
  {
    assert (a * 4096 + x * 64 + y) / 64 == a * 64 + x;
  }

  lemma Group4(a: nat, x: nat, y: nat, z: nat)
    requires a < 8 && x < 64 && y < 64 && z < 64
    ensures var cp := a * 262144 + x * 4096 + y * 64 + z;
      cp / 262144 == a && cp / 4096 % 64 == x && cp / 64 % 64 == y && cp % 64 == z
    ensures (0xF0 + a) / 8 == 30 && (0xF0 + a) % 8 == a
    ensures var cp := a * 262144 + x * 4096 + y * 64 + z; 0x10000 <= cp && IsValidCodepoint(cp) ==>
      Encode(cp) == [0xF0 + a, 0x80 + x, 0x80 + y, 0x80 + z]
  {
    var cp := a * 262144 + x * 4096 + y * 64 + z;
    assert cp / 64 == a * 4096 + x * 64 + y;
    assert cp / 4096 == a * 64 + x;
  }

  /** An encoding validates, as a sequence of its own length. */
  lemma EncodingValidates(cp: nat, t: bytes, p: nat)
    requires IsValidCodepoint(cp) && Occurs(t, p, Encode(cp))
    ensures SequenceLength(t, p) == |Encode(cp)|
  {
    var e := Encode(cp);
    forall i | 0 <= i < |e| ensures At(t, p + i) == e[i] { OccursAt(t, p, e, i); }
    assert At(t, p) == e[0];
    if cp < 0x80 {
    } else if cp < 0x800 {
      Group2(cp / 64, cp % 64);
      assert At(t, p + 1) == e[1];
    } else if cp < 0x10000 {
      Split3(cp);
      assert At(t, p + 1) == e[1] && At(t, p + 2) == e[2];
    } else {
      Split4(cp);
      assert At(t, p + 1) == e[1] && At(t, p + 2) == e[2] && At(t, p + 3) == e[3];
    }
  }

  /** Dividing by 64 again and again. */
  lemma Sextets(cp: nat)
    ensures cp / 4096 == cp / 64 / 64 && cp / 262144 == cp / 4096 / 64
    ensures cp == cp / 262144 * 262144 + cp / 4096 % 64 * 4096 + cp / 64 % 64 * 64 + cp % 64
  {
    var q := cp / 64;
    var s := q / 64;
    assert cp == 64 * q + cp % 64 && q == 64 * s + q % 64 && s == 64 * (s / 64) + s % 64;
  }

  lemma Split3(cp: nat)
    requires cp < 0x10000
    ensures var a, x, y := cp / 4096, cp / 64 % 64, cp % 64;
      && a < 16 && cp == a * 4096 + x * 64 + y
      && (0xE0 + a) / 16 == 14 && (0xE0 + a) % 16 == a
      && (0x80 + x) / 64 == 2 && (0x80 + x) % 64 == x
      && (0x80 + y) / 64 == 2 && (0x80 + y) % 64 == y
  {
    Sextets(cp);
    Group3(cp / 4096, cp / 64 % 64, cp % 64);
  }

  lemma Split4(cp: nat)
    requires cp < 0x200000
    ensures var a, x, y, z := cp / 262144, cp / 4096 % 64, cp / 64 % 64, cp % 64;
      && a < 8 && cp == a * 262144 + x * 4096 + y * 64 + z
      && (0xF0 + a) / 8 == 30 && (0xF0 + a) % 8 == a
      && (0x80 + x) / 64 == 2 && (0x80 + x) % 64 == x
      && (0x80 + y) / 64 == 2 && (0x80 + y) % 64 == y
      && (0x80 + z) / 64 == 2 && (0x80 + z) % 64 == z
  {
    Sextets(cp);
    Group4(cp / 262144, cp / 4096 % 64, cp / 64 % 64, cp % 64);
    Group2(0, cp / 4096 % 64);
    Group2(0, cp / 64 % 64);
    Group2(0, cp % 64);
  }

  lemma Decode2(t: bytes, p: nat) returns (cp: nat)
    requires SequenceLength(t, p) == 2
    ensures IsValidCodepoint(cp) && Encode(cp) == [At(t, p), At(t, p + 1)]
  {
    cp := At(t, p) as int % 32 * 64 + At(t, p + 1) as int % 64;
    Group2(At(t, p) % 32, At(t, p + 1) % 64);
  }

  lemma Decode3(t: bytes, p: nat) returns (cp: nat)
    requires SequenceLength(t, p) == 3
    ensures IsValidCodepoint(cp) && Encode(cp) == [At(t, p), At(t, p + 1), At(t, p + 2)]
  {
    cp := At(t, p) as int % 16 * 4096 + At(t, p + 1) as int % 64 * 64 + At(t, p + 2) as int % 64;
    Group3(At(t, p) % 16, At(t, p + 1) % 64, At(t, p + 2) % 64);
  }

  lemma Decode4(t: bytes, p: nat) returns (cp: nat)
    requires SequenceLength(t, p) == 4
    ensures IsValidCodepoint(cp) && Encode(cp) == [At(t, p), At(t, p + 1), At(t, p + 2), At(t, p + 3)]
  {
    cp := At(t, p) as int % 8 * 262144 + At(t, p + 1) as int % 64 * 4096 + At(t, p + 2) as int % 64 * 64
          + At(t, p + 3) as int % 64;
    Group4(At(t, p) % 8, At(t, p + 1) % 64, At(t, p + 2) % 64, At(t, p + 3) % 64);
  }

  /** The code point of a sequence that validates. */
  lemma ValidatedIsEncoding(t: bytes, p: nat) returns (cp: nat)
    requires p < |t| && SequenceLength(t, p) != -1
    ensures IsValidCodepoint(cp) && |Encode(cp)| == SequenceLength(t, p) && Occurs(t, p, Encode(cp))
  {
    var n := SequenceLength(t, p);
    if n == 1 {
      cp := At(t, p);
    } else if n == 2 {
      cp := Decode2(t, p);
    } else if n == 3 {
      cp := Decode3(t, p);
    } else {
      cp := Decode4(t, p);
    }
    SequenceFits(t, p);
    assert Encode(cp) == t[p..p + n];
  }

  /** Missing bytes read as NUL, which continues nothing. */
  lemma SequenceFits(t: bytes, p: nat)
    requires p < |t| && SequenceLength(t, p) != -1
    ensures p + SequenceLength(t, p) <= |t|
  {
  }

  /** A sequence validates with length n exactly when its n bytes encode a valid code point. */
  lemma ValidIffEncoding(t: bytes, p: nat, n: nat)
    requires p < |t|
    ensures SequenceLength(t, p) == n <==> IsEncoding(t, p, n)
  {
    if SequenceLength(t, p) == n {
      var cp := ValidatedIsEncoding(t, p);
    }
    if IsEncoding(t, p, n) {
      var cp: nat :| IsValidCodepoint(cp) && n == |Encode(cp)| && Occurs(t, p, Encode(cp));
      EncodingValidates(cp, t, p);
    }
  }

  lemma EncodeInjective(cp: nat, cp': nat)
    requires IsValidCodepoint(cp) && IsValidCodepoint(cp') && Encode(cp) == Encode(cp')
    ensures cp == cp'
  {
    if cp < 0x80 {
    } else if cp < 0x800 {
    } else if cp < 0x10000 {
      Split3(cp); Split3(cp');
    } else {
      Split4(cp); Split4(cp');
    }
  }

  predicate AllValid(cps: seq<nat>) {
    forall i | 0 <= i < |cps| :: IsValidCodepoint(cps[i])
  }

  function EncodeAll(cps: seq<nat>): bytes
    requires AllValid(cps)
  {
    if cps == [] then [] else Encode(cps[0]) + EncodeAll(cps[1..])
  }

  /** Encoding is uniquely decodable over whole strings. */
  lemma {:induction false} EncodeAllInjective(cps: seq<nat>, cps': seq<nat>)
    requires AllValid(cps) && AllValid(cps') && EncodeAll(cps) == EncodeAll(cps')
    ensures cps == cps'
  {
    if cps != [] && cps' != [] {
      var t := EncodeAll(cps);
      var e, e' := Encode(cps[0]), Encode(cps'[0]);
      assert t == e + EncodeAll(cps[1..]) == e' + EncodeAll(cps'[1..]);
      assert t[..|e|] == e && t[..|e'|] == e';
      EncodingValidates(cps[0], t, 0);
      EncodingValidates(cps'[0], t, 0);
      EncodeInjective(cps[0], cps'[0]);
      assert EncodeAll(cps[1..]) == t[|e|..] == EncodeAll(cps'[1..]);
      EncodeAllInjective(cps[1..], cps'[1..]);
      assert cps == [cps[0]] + cps[1..] && cps' == [cps'[0]] + cps'[1..];
    }
  }
}
