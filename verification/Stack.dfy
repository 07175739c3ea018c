/**
 * The bit stack of open containers: a 1 bit is an array, a 0 bit an object.
 * It is proved to behave as a sequence of booleans (true for an array) up to depth 2048.
 */
module Stack {
  import opened Base

  datatype Frame = Underflow | InObject | InArray | InNone

  function FrameOf(isArray: bool): Frame {
    if isArray then InArray else InObject
  }

  function Mask(j: nat): bv8
    requires j < 8
  {
    1 << j
  }

  predicate BitAt(b: bv8, j: nat)
    requires j < 8
  {
    b & Mask(j) != 0
  }

  function SetBit(b: bv8, j: nat, v: bool): bv8
    requires j < 8
  {
    if v then b | Mask(j) else b & !Mask(j)
  }

  lemma MaskCases(j: nat)
    requires j < 8
    ensures Mask(j) == if j == 0 then 1 else if j == 1 then 2 else if j == 2 then 4 else if j == 3 then 8
                       else if j == 4 then 16 else if j == 5 then 32 else if j == 6 then 64 else 128
  {
    if j < 4 {
      assert j == 0 || j == 1 || j == 2 || j == 3;
    }
  }

  lemma SetBitAt(b: bv8, j: nat, v: bool, k: nat)
    requires j < 8 && k < 8
    ensures BitAt(SetBit(b, j, v), k) == if j == k then v else BitAt(b, k)
  {
    MaskCases(j);
    MaskCases(k);
  }

  lemma PeekIsBitAt(b: bv8, j: nat)
    requires j < 8
    ensures (b >> j) & 1 == 1 <==> BitAt(b, j)
    ensures (b >> j) & 1 == 0 <==> !BitAt(b, j)
  {
    MaskCases(j);
  }

  /** The bits of the bytes d, least significant bit first. */
  ghost function Bits(d: seq<bv8>): (r: seq<bool>)
    ensures |r| == 8 * |d|
    ensures forall i {:trigger r[i]} :: 0 <= i < |r| ==> r[i] == BitAt(d[i / 8], i % 8)
  {
    seq(8 * |d|, i requires 0 <= i < 8 * |d| => BitAt(d[i / 8], i % 8))
  }

  lemma BitsUpdate(d: seq<bv8>, k: nat, j: nat, v: bool)
    requires k < |d| && j < 8
    ensures Bits(d[k := SetBit(d[k], j, v)]) == Bits(d)[8 * k + j := v]
  {
    var d' := d[k := SetBit(d[k], j, v)];
    forall i | 0 <= i < 8 * |d| ensures Bits(d')[i] == Bits(d)[8 * k + j := v][i] {
      SetBitAt(d[k], j, v, i % 8);
    }
  }

  /** Depths above this share the bits of lower depths, because the byte offset is cast to eight bits. */
  const WRAP: nat := 2048

  lemma OffsetWraps(sp: nat)
    ensures 8 * ((sp / 8) % 256) + sp % 8 == sp % WRAP && (sp / 8) % 256 <= sp / 8
  {
    var k, j := sp / 8, sp % 8;
    var q, o := k / 256, k % 256;
    assert sp == 8 * k + j && k == 256 * q + o;
    assert sp == WRAP * q + (8 * o + j);
  }

  /** What writing through the eight-bit byte offset does to the stored bits. */
  lemma StoreUpdates(d: seq<bv8>, sp: nat, v: bool)
    requires sp < 8 * |d|
    ensures (sp / 8) % 256 < |d|
    ensures Bits(d[(sp / 8) % 256 := SetBit(d[(sp / 8) % 256], sp % 8, v)]) == Bits(d)[sp % WRAP := v]
  {
    hide Bits, SetBit;
    OffsetWraps(sp);
    BitsUpdate(d, (sp / 8) % 256, sp % 8, v);
  }

  /**
   * Storing a bit at depth sp pushes it, whatever was stored before, exactly for depths below WRAP:
   * from there on a lower entry, or the bit that should have been written, decides.
   */
  lemma PushIsExact(raw: seq<bool>, sp: nat, v: bool)
    requires sp < |raw|
    ensures raw[sp % WRAP := v][..sp + 1] == raw[..sp] + [v]
      <==> sp < WRAP || (raw[sp % WRAP] == v && raw[sp] == v)
  {
    var after, pushed := raw[sp % WRAP := v][..sp + 1], raw[..sp] + [v];
    if sp < WRAP {
      assert after == pushed;
    } else {
      assert after[sp % WRAP] == v && pushed[sp % WRAP] == raw[sp % WRAP];
      assert after[sp] == raw[sp] && pushed[sp] == v;
      if raw[sp % WRAP] == v && raw[sp] == v {
        assert after == pushed;
      }
    }
  }

  /** The bytes a parser allocates for a stack. */
  function ParserBytes(size: nat): nat {
    (size + 7) / 8
  }

  /** The bytes a generator allocates for a stack: the last ones are missing when the size is no multiple of eight. */
  function GeneratorBytes(size: nat): nat {
    size / 8
  }

  /** The push at depth sp writes inside the memory of that many bytes. */
  predicate WritesInside(sp: nat, room: nat) {
    (sp / 8) % 256 < room
  }

  /** Every push on a parser's stack writes inside its memory. */
  lemma ParserWritesInside(size: nat, sp: nat)
    requires sp < size
    ensures WritesInside(sp, ParserBytes(size))
  {
  }

  /** A push on a generator's stack writes inside its memory exactly below the last multiple of eight. */
  lemma GeneratorWritesInsideIff(size: nat, sp: nat)
    requires sp < size <= WRAP
    ensures WritesInside(sp, GeneratorBytes(size)) <==> sp < size - size % 8
  {
  }

  /** All pushes that the size allows write inside exactly when the size is a multiple of eight. */
  lemma GeneratorFitsIff(size: nat)
    requires size <= WRAP
    ensures (forall sp | 0 <= sp < size :: WritesInside(sp, GeneratorBytes(size))) <==> size % 8 == 0
  {
    if size % 8 != 0 {
      assert !WritesInside(size - 1, GeneratorBytes(size));
    }
    forall sp | 0 <= sp < size && size % 8 == 0 ensures WritesInside(sp, GeneratorBytes(size)) {
      GeneratorWritesInsideIff(size, sp);
    }
  }

  class BitStack {
    const size: nat
    const data: array<bv8>
    var ptr: nat

    constructor (size: nat, room: nat)
      ensures Valid() && Contents() == [] && this.size == size && data.Length == room && fresh(data)
    {
      this.size := size;
      data := new bv8[room];
      ptr := 0;
    }

    ghost predicate Valid()
      reads this
    {
      ptr <= size && ptr <= 8 * data.Length
    }

    /** The next push, if the size allows it, writes inside the memory. */
    ghost predicate Writable()
      reads this
    {
      ptr < size ==> ptr < 8 * data.Length && WritesInside(ptr, data.Length)
    }

    /** Every stored bit, whether or not it is on the stack. */
    ghost function Raw(): seq<bool>
      reads data
    {
      Bits(data[..])
    }

    /** The open containers, outermost first. */
    ghost function Contents(): (s: seq<bool>)
      requires Valid()
      reads this, data
      ensures |s| == ptr
    {
      Raw()[..ptr]
    }

    method Peek() returns (f: Frame)
      requires Valid()
      ensures f == if Contents() == [] then Underflow else FrameOf(Contents()[|Contents()| - 1])
    {
      if ptr == 0 {
        return Underflow;
      }
      var sp := ptr - 1;
      PeekIsBitAt(data[sp / 8], sp % 8);
      f := FrameOf((data[sp / 8] >> (sp % 8)) & 1 == 1);
    }

    method Pop() returns (f: Frame)
      requires Valid()
      modifies this
      ensures Valid()
      ensures old(Contents()) == [] ==> f == Underflow && Contents() == []
      ensures old(Contents()) != [] ==>
        && Contents() == old(Contents())[..|old(Contents())| - 1]
        && f == if Contents() == [] then InNone else FrameOf(Contents()[|Contents()| - 1])
    {
      if ptr == 0 {
        return Underflow;
      } else if ptr == 1 {
        ptr := 0;
        return InNone;
      } else {
        ptr := ptr - 1;
        var sp := ptr - 1;
        PeekIsBitAt(data[sp / 8], sp % 8);
        f := FrameOf((data[sp / 8] >> (sp % 8)) & 1 == 1);
      }
    }

    /** The bit written is that of the depth modulo WRAP; PushIsExact says when that is a push. */
    method Push(isArray: bool) returns (ok: bool)
      requires Valid() && Writable()
      modifies this, data
      ensures Valid()
      ensures ok <==> old(ptr) < size
      ensures !ok ==> ptr == old(ptr) && Raw() == old(Raw())
      ensures ok ==> ptr == old(ptr) + 1 && Raw() == old(Raw())[old(ptr) % WRAP := isArray]
      ensures ok && size <= WRAP ==> Contents() == old(Contents()) + [isArray]
      ensures !ok ==> Contents() == old(Contents())
    {
      var sp := ptr;
      if sp >= size {
        return false;
      }
      ghost var before := data[..];
      var offset := (sp / 8) % 256;
      StoreUpdates(before, sp, isArray);
      PushIsExact(Bits(before), sp, isArray);
      data[offset] := SetBit(data[offset], sp % 8, isArray);
      ptr := ptr + 1;
      ok := true;
      assert data[..] == before[offset := SetBit(before[offset], sp % 8, isArray)];
    }
  }
}
