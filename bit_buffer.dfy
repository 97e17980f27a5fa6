/** The append-only bit buffer of the QR encoder (`QRBitBuffer`):
    bits are packed most significant first into a growing array of bytes. */
module QrBits {
  import opened Js

  /** A byte of the buffer: a JavaScript number from 0 to 255. */
  type Byte = b: int | 0 <= b < 256

  /** Bit k of a byte, counting from the most significant bit (k = 0):
      `((b >>> (7 - k)) & 1) === 1`. */
  function ByteBit(b: int, k: nat): bool
    requires k < 8
  {
    UShrBit(b, 7 - k)
  }

  /** Bit i of a packed byte sequence, most significant bit of each byte first. */
  function BufferBit(buf: seq<Byte>, i: nat): bool
    requires i < 8 * |buf|
  {
    ByteBit(buf[i / 8], i % 8)
  }

  /** The `len` bits that `put(num, len)` appends, in order:
      bit `len - 1 - i` of `num` (after `>>>`'s coercions) comes i-th. */
  function BitsOf(num: int, len: nat): (r: seq<bool>)
    ensures |r| == len
  {
    seq(len, i requires 0 <= i < len => UShrBit(num, len - i - 1))
  }

  /** `0x80 >>> m` for m below 8 is 2^(7 - m). */
  lemma ShrMask(m: nat)
    requires m < 8
    ensures 0x80 / Pow2(m) == Pow2(7 - m)
  {
    if m == 0 { assert Pow2(7) == 128; }
    else if m == 1 { assert Pow2(1) == 2 && Pow2(6) == 64; }
    else if m == 2 { assert Pow2(2) == 4 && Pow2(5) == 32; }
    else if m == 3 { assert Pow2(3) == 8 && Pow2(4) == 16; }
    else if m == 4 { assert Pow2(4) == 16 && Pow2(3) == 8; }
    else if m == 5 { assert Pow2(5) == 32 && Pow2(2) == 4; }
    else if m == 6 { assert Pow2(6) == 64 && Pow2(1) == 2; }
    else { assert Pow2(7) == 128 && Pow2(0) == 1; }
  }

  /** `0x80 >>> m`: the byte with only bit m (from the top) set. */
  function Mask(m: nat): (r: Byte)
    requires m < 8
    ensures r == Pow2(7 - m)
  {
    ShrMask(m);
    assert Pow2(7 - m) <= Pow2(7) == 128 by {
      if m > 0 { Pow2Mono(7 - m, 7); }
    }
    0x80 / Pow2(m)
  }

  /** A byte's bits are the low bits of the number. */
  lemma ByteBitOf(b: Byte, k: nat)
    requires k < 8
    ensures ByteBit(b, k) == BitOf(b, 7 - k)
  {
    assert ToUint32(b) == b;
    assert (7 - k) % 32 == 7 - k;
  }

  /** Setting bit m of a byte with `|= 0x80 >>> m` changes exactly bit m and
      keeps the value a byte. */
  lemma OrBit(b: Byte, m: nat, k: nat)
    requires m < 8 && k < 8
    ensures Or(b, Mask(m)) < 256
    ensures ByteBit(Or(b, Mask(m)), k) == (k == m || ByteBit(b, k))
  {
    var mask := Mask(m);
    assert Pow2(8) == 256;
    OrBound(b, mask, 8);
    var r: Byte := Or(b, mask);
    ByteBitOf(r, k);
    ByteBitOf(b, k);
    OrBits(b, mask, 7 - k);
    BitOfPow2(7 - m, 7 - k);
  }

  /** Byte idx with bit m set. */
  function SetByte(buf: seq<Byte>, idx: nat, m: nat): (r: seq<Byte>)
    requires idx < |buf| && m < 8
    ensures |r| == |buf|
  {
    OrBit(buf[idx], m, 0);
    buf[idx := Or(buf[idx], Mask(m))]
  }

  /** Setting bit m of byte idx changes exactly packed bit 8 * idx + m. */
  lemma SetBit(buf: seq<Byte>, idx: nat, m: nat, i: nat)
    requires idx < |buf| && m < 8 && i < 8 * |buf|
    ensures BufferBit(SetByte(buf, idx, m), i) == (i == 8 * idx + m || BufferBit(buf, i))
  {
    if i / 8 == idx {
      OrBit(buf[idx], m, i % 8);
    }
  }

  lemma ZeroByte(k: nat)
    requires k < 8
    ensures !ByteBit(0, k)
  {
    BitOfZero(7 - k);
  }

  /** The packed bytes hold the bits `bits` first and zero bits after them. */
  ghost predicate Holds(buffer: seq<Byte>, bits: seq<bool>) {
    && |bits| <= 8 * |buffer|
    && (forall i :: 0 <= i < |bits| ==> BufferBit(buffer, i) == bits[i])
    && (forall i :: |bits| <= i < 8 * |buffer| ==> !BufferBit(buffer, i))
  }

  /** Pushing a zero byte keeps the bits and adds eight zero bits. */
  lemma GrowHolds(buffer: seq<Byte>, bits: seq<bool>)
    requires Holds(buffer, bits)
    ensures Holds(buffer + [0], bits)
  {
    var grown := buffer + [0];
    forall i | 0 <= i < 8 * |grown|
      ensures BufferBit(grown, i) == (i < |bits| && bits[i])
    {
      if i / 8 < |buffer| {
        assert grown[i / 8] == buffer[i / 8];
        assert BufferBit(grown, i) == BufferBit(buffer, i);
      } else {
        ZeroByte(i % 8);
      }
    }
  }

  /** Appending a zero bit leaves the bytes as they are: that bit is zero already. */
  lemma KeepHolds(buffer: seq<Byte>, bits: seq<bool>)
    requires Holds(buffer, bits) && |bits| < 8 * |buffer|
    ensures Holds(buffer, bits + [false])
  {
    var bits' := bits + [false];
    forall i | 0 <= i < |bits'|
      ensures BufferBit(buffer, i) == bits'[i]
    {
      if i < |bits| {
        assert bits'[i] == bits[i];
      }
    }
  }

  /** Setting bit n = |bits| appends a one bit. */
  lemma SetHolds(buffer: seq<Byte>, bits: seq<bool>)
    requires Holds(buffer, bits) && |bits| < 8 * |buffer|
    ensures var n := |bits|; Holds(SetByte(buffer, n / 8, n % 8), bits + [true])
  {
    var n := |bits|;
    var next := SetByte(buffer, n / 8, n % 8);
    var bits' := bits + [true];
    assert 8 * (n / 8) + n % 8 == n;
    forall i | 0 <= i < 8 * |next|
      ensures BufferBit(next, i) == (i == n || BufferBit(buffer, i))
    {
      SetBit(buffer, n / 8, n % 8, i);
    }
    forall i | 0 <= i < |bits'|
      ensures BufferBit(next, i) == bits'[i]
    {
      if i < n {
        assert bits'[i] == bits[i];
      }
    }
  }

  class BitBuffer {
    /** The backing bytes (a JavaScript array of numbers, grown by `push`). */
    var buffer: seq<Byte>
    /** The number of bits written so far. */
    var length: nat
    /** The bits written so far, in order. */
    ghost var Contents: seq<bool>

    ghost predicate Valid()
      reads this
    {
      && |Contents| == length
      && |buffer| == (length + 7) / 8
      && Holds(buffer, Contents)
    }

    constructor ()
      ensures Valid() && Contents == [] && buffer == []
    {
      buffer := [];
      length := 0;
      Contents := [];
    }

    /** `get(i)`: bit i; an index past the end reads the missing byte as 0. */
    function Get(i: nat): (b: bool)
      reads this
      requires Valid()
      ensures i < length ==> b == Contents[i]
      ensures length <= i ==> !b
    {
      if i / 8 < |buffer| then BufferBit(buffer, i) else false
    }

    /** `putBit(bit)`: appends one bit, pushing a zero byte first when the
        new bit starts a byte. */
    method PutBit(bit: bool)
      requires Valid()
      modifies this
      ensures Valid()
      ensures Contents == old(Contents) + [bit]
    {
      var bufIndex := length / 8;
      if |buffer| <= bufIndex {
        GrowHolds(buffer, Contents);
        buffer := buffer + [0];
      }
      if bit {
        SetHolds(buffer, Contents);
      } else {
        KeepHolds(buffer, Contents);
      }
      if bit {
        OrBit(buffer[bufIndex], length % 8, 0);
        buffer := buffer[bufIndex := Or(buffer[bufIndex], Mask(length % 8))];
      }
      length := length + 1;
      Contents := Contents + [bit];
    }

    /** `put(num, len)`: appends the low `len` bits of `num`, most significant first. */
    method Put(num: int, len: nat)
      requires Valid()
      modifies this
      ensures Valid()
      ensures Contents == old(Contents) + BitsOf(num, len)
    {
      var i := 0;
      while i < len
        invariant 0 <= i <= len
        invariant Valid()
        invariant Contents == old(Contents) + BitsOf(num, len)[..i]
      {
        PutBit(UShrBit(num, len - i - 1));
        assert BitsOf(num, len)[..i + 1] == BitsOf(num, len)[..i] + [BitsOf(num, len)[i]];
        i := i + 1;
      }
    }
  }
}
