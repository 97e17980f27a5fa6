/** The data-codeword stage of `createQRCode`: one byte-mode segment
    (`QR8bitByte`), the conditional terminator, zero bits up to a byte
    boundary, and the 0xEC/0x11 pad bytes, cut to the block's data count. */
module Payload {
  import opened Js
  import opened QrBits

  /** `QRRSBlock`: one error-correction block's codeword counts. */
  datatype RSBlock = RSBlock(totalCount: int, dataCount: int)

  /** `QRRSBlock.getRSBlocks`: always one block of 28 codewords, 22 of them
      data, whatever version and level the caller names, which leaves six
      codewords for error correction. */
  function GetRSBlocks(): (r: seq<RSBlock>)
    ensures |r| == 1
    ensures r[0].dataCount == 22 && r[0].totalCount - r[0].dataCount == 6
  {
    [RSBlock(28, 22)]
  }

  /** `rsBlocks.reduce((a, b) => a + b.dataCount, 0)`. */
  function TotalDataCount(blocks: seq<RSBlock>): int {
    if blocks == [] then 0 else TotalDataCount(blocks[..|blocks| - 1]) + blocks[|blocks| - 1].dataCount
  }

  /** The reduction is a sum: the blocks of a concatenation contribute the
      totals of both parts. */
  lemma {:induction false} TotalDataCountAppend(a: seq<RSBlock>, b: seq<RSBlock>)
    ensures TotalDataCount(a + b) == TotalDataCount(a) + TotalDataCount(b)
    decreases |b|
  {
    if b == [] {
      assert a + b == a;
    } else {
      var b' := b[..|b| - 1];
      assert (a + b)[..|a + b| - 1] == a + b';
      TotalDataCountAppend(a, b');
    }
  }

  /** The data capacity in codewords. */
  const DataCount: nat := 22

  /** The one block gives the encoder 22 data codewords, 176 bits. */
  lemma DataCapacity()
    ensures TotalDataCount(GetRSBlocks()) == DataCount
  {
    assert GetRSBlocks()[..0] == [];
  }

  /** The bits `QR8bitByte.write` puts: 8 bits per code unit, in order. */
  function UnitBits(text: JsString): (r: seq<bool>)
    ensures |r| == 8 * |text|
  {
    if text == [] then [] else UnitBits(text[..|text| - 1]) + BitsOf(text[|text| - 1], 8)
  }

  /** The segment: mode 4 in 4 bits, the length in 8 bits, then the units. */
  function Stream(text: JsString): seq<bool> {
    BitsOf(4, 4) + BitsOf(|text|, 8) + UnitBits(text)
  }

  function Zeros(n: nat): (r: seq<bool>)
    ensures |r| == n && forall i :: 0 <= i < n ==> !r[i]
  {
    seq(n, _ => false)
  }

  lemma ZerosSnoc(n: nat)
    ensures Zeros(n + 1) == Zeros(n) + [false]
  {
  }

  /** The number of zero bits that bring n bits to a byte boundary. */
  function AlignGap(n: nat): (r: nat)
    ensures r < 8 && (n + r) % 8 == 0
  {
    if n % 8 == 0 then 0 else 8 - n % 8
  }

  /** Within the gap, the first byte boundary is at its end. */
  lemma GapFirst(n: nat, z: nat)
    requires z <= AlignGap(n)
    ensures (n + z) % 8 == 0 <==> z == AlignGap(n)
  {
  }

  /** The terminator test of line 32: four zero bits, only if they still fit. */
  function Terminate(s: seq<bool>): seq<bool> {
    if |s| + 4 <= DataCount * 8 then s + BitsOf(0, 4) else s
  }

  /** Line 33: zero bits up to the next byte boundary. */
  function Align(s: seq<bool>): seq<bool> {
    s + Zeros(AlignGap(|s|))
  }

  /** The j-th pad byte: 0xEC, 0x11, 0xEC, ... */
  function PadByte(j: nat): int {
    if j % 2 == 0 then 0xEC else 0x11
  }

  /** The bits of the first `count` pad bytes. */
  function PadBits(count: nat): (r: seq<bool>)
    ensures |r| == 8 * count
  {
    if count == 0 then [] else PadBits(count - 1) + BitsOf(PadByte(count - 1), 8)
  }

  /** How many pad bytes line 34 writes after n bits: enough to reach 22
      bytes, none once that many are full. */
  function PadFor(n: nat): nat {
    if n / 8 < DataCount then DataCount - n / 8 else 0
  }

  /** Line 34 applied to the bits s. */
  function Pad(s: seq<bool>): seq<bool> {
    s + PadBits(PadFor(|s|))
  }

  function Terminated(text: JsString): seq<bool> {
    Terminate(Stream(text))
  }

  function Aligned(text: JsString): seq<bool> {
    Align(Terminated(text))
  }

  function PadCount(text: JsString): nat {
    PadFor(|Aligned(text)|)
  }

  /** The whole bit buffer once padding stops. */
  function Padded(text: JsString): seq<bool> {
    Pad(Aligned(text))
  }

  /** Bit j of x's low byte. */
  lemma LowByteBit(x: int, j: nat)
    requires j < 8
    ensures UShrBit(x, j) == BitOf(x % 256, j)
  {
    LowBits(x, j);
  }

  /** `put(x, 8)` writes x's low byte, most significant bit first. */
  lemma ByteBits(x: int, k: nat)
    requires k < 8
    ensures BitsOf(x, 8)[k] == BitOf(x % 256, 7 - k)
  {
    LowByteBit(x, 7 - k);
  }

  /** Unit i of the text occupies bits 8i..8i+7 of the unit bits. */
  lemma {:induction false} UnitBitsAt(text: JsString, i: nat, k: nat)
    requires i < |text| && k < 8
    ensures UnitBits(text)[8 * i + k] == BitsOf(text[i], 8)[k]
    decreases |text|
  {
    var last := |text| - 1;
    assert UnitBits(text) == UnitBits(text[..last]) + BitsOf(text[last], 8);
    if i < last {
      assert text[..last][i] == text[i];
      UnitBitsAt(text[..last], i, k);
    }
  }

  /** What bit b of the data codewords is, read off the encoder's steps:
      the mode 0100, the length byte, each unit's low byte, four zero bits,
      then pad bytes 0xEC, 0x11, ... (each most significant bit first). */
  function ExpectedBit(text: JsString, b: nat): bool {
    var n := |text|;
    if b < 4 then b == 1
    else if b < 12 then BitOf(n % 256, 11 - b)
    else if b < 12 + 8 * n then BitOf(text[(b - 12) / 8] % 256, 7 - (b - 12) % 8)
    else if b < 16 + 8 * n then false
    else BitOf(PadByte((b - 16 - 8 * n) / 8), 7 - (b - 16 - 8 * n) % 8)
  }

  lemma ZeroBits(n: nat)
    ensures BitsOf(0, n) == Zeros(n)
  {
    forall i | 0 <= i < n
      ensures !BitsOf(0, n)[i]
    {
      assert ToUint32(0) == 0;
      assert BitsOf(0, n)[i] == UShrBit(0, n - i - 1);
      BitOfZero((n - i - 1) % 32);
    }
  }

  /** The stream is always 4 bits short of a byte boundary, so the terminator
      and the alignment bits together always add exactly 4 zero bits; the
      terminator itself is written only for texts of at most 20 units. */
  lemma AlignedLayout(text: JsString)
    ensures |Stream(text)| == 12 + 8 * |text|
    ensures Aligned(text) == Stream(text) + Zeros(4)
    ensures (Terminated(text) != Stream(text)) <==> |text| <= 20
  {
    var s := Stream(text);
    assert |s| == 12 + 8 * |text|;
    ZeroBits(4);
    if |s| + 4 <= DataCount * 8 {
      assert Terminated(text) == s + Zeros(4);
      assert |Terminated(text)| % 8 == 0;
    } else {
      assert |s| % 8 == 4;
    }
  }

  /** A text of at most 20 units is followed by exactly 20 - |text| pad bytes,
      filling the buffer to 176 bits; a longer text gets none, and its buffer
      runs past 176 bits. */
  lemma PaddedLayout(text: JsString)
    ensures |text| <= 20 ==> PadCount(text) == 20 - |text| && |Padded(text)| == 8 * DataCount
    ensures |text| > 20 ==> PadCount(text) == 0 && |Padded(text)| > 8 * DataCount
  {
    AlignedLayout(text);
  }

  /** From an even pad index the loop writes 0xEC, then 0x11. */
  lemma PadParity(j: nat)
    requires j % 2 == 0
    ensures PadByte(j) == 0xEC && PadByte(j + 1) == 0x11 && (j + 2) % 2 == 0
  {
  }

  /** Pad byte j occupies bits 8j..8j+7 of the pad bits. */
  lemma {:induction false} PadBitsAt(count: nat, j: nat, k: nat)
    requires j < count && k < 8
    ensures PadBits(count)[8 * j + k] == BitsOf(PadByte(j), 8)[k]
    decreases count
  {
    if j < count - 1 {
      PadBitsAt(count - 1, j, k);
    }
  }

  /** The first bits of the stream: 0, 1, 0, 0 (mode 4 in four bits). */
  lemma ModeBits(b: nat)
    requires b < 4
    ensures BitsOf(4, 4)[b] == (b == 1)
  {
    assert BitsOf(4, 4)[b] == BitOf(4, 3 - b);
    if b == 0 { assert !BitOf(4, 3); }
    else if b == 1 { assert BitOf(4, 2); }
    else if b == 2 { assert !BitOf(4, 1); }
    else { assert !BitOf(4, 0); }
  }

  /** The stream's bits are the reference layout's first 12 + 8|text| bits. */
  lemma StreamBit(text: JsString, b: nat)
    requires b < 12 + 8 * |text|
    ensures |Stream(text)| == 12 + 8 * |text|
    ensures Stream(text)[b] == ExpectedBit(text, b)
  {
    var n := |text|;
    var s := Stream(text);
    if b < 4 {
      assert s[b] == BitsOf(4, 4)[b];
      ModeBits(b);
    } else if b < 12 {
      assert s[b] == BitsOf(n, 8)[b - 4];
      ByteBits(n, b - 4);
    } else {
      var i, k := (b - 12) / 8, (b - 12) % 8;
      assert b == 12 + 8 * i + k;
      assert s[b] == UnitBits(text)[8 * i + k];
      UnitBitsAt(text, i, k);
      ByteBits(text[i], k);
    }
  }

  /** Bit k of pad byte j follows the s it pads, once s ends on a byte boundary. */
  lemma PadAt(s: seq<bool>, j: nat, k: nat)
    requires |s| % 8 == 0 && j < PadFor(|s|) && k < 8
    ensures |s| + 8 * j + k < |Pad(s)| && Pad(s)[|s| + 8 * j + k] == BitOf(PadByte(j), 7 - k)
  {
    PadBitsAt(PadFor(|s|), j, k);
    ByteBits(PadByte(j), k);
  }

  /** The aligned buffer always ends 16 + 8|text| bits in. */
  lemma AlignedLength(text: JsString)
    ensures |Aligned(text)| == 16 + 8 * |text|
  {
    AlignedLayout(text);
  }

  /** The pad bytes' bits are the reference layout's bits from 16 + 8|text| on. */
  lemma PadBit(text: JsString, b: nat)
    requires 16 + 8 * |text| <= b < 8 * DataCount
    ensures b < |Padded(text)| && Padded(text)[b] == ExpectedBit(text, b)
  {
    var n := |text|;
    AlignedLength(text);
    var j, k := (b - 16 - 8 * n) / 8, (b - 16 - 8 * n) % 8;
    assert b == |Aligned(text)| + 8 * j + k;
    PadAt(Aligned(text), j, k);
  }

  /** Every one of the 176 data bits is the bit the reference layout names. */
  lemma PaddedBit(text: JsString, b: nat)
    requires b < 8 * DataCount
    ensures b < |Padded(text)| && Padded(text)[b] == ExpectedBit(text, b)
  {
    AlignedLayout(text);
    PaddedLayout(text);
    if b < 12 + 8 * |text| {
      StreamBit(text, b);
    } else if 16 + 8 * |text| <= b {
      PadBit(text, b);
    }
  }

  /** Beyond the 21st unit nothing of the text reaches the 22 codewords: two
      texts of the same length that agree on their first 21 units have the
      same first 176 bits, however their tails differ. */
  lemma TailIgnored(t1: JsString, t2: JsString)
    requires |t1| == |t2| >= 21 && t1[..21] == t2[..21]
    ensures Padded(t1)[..8 * DataCount] == Padded(t2)[..8 * DataCount]
  {
    forall b | 0 <= b < 8 * DataCount
      ensures Padded(t1)[b] == Padded(t2)[b]
    {
      PaddedBit(t1, b);
      PaddedBit(t2, b);
      if 12 <= b {
        var i := (b - 12) / 8;
        assert t1[i] == t1[..21][i] == t2[..21][i] == t2[i];
      }
    }
  }

  /** The same statement bit by bit: texts of one length that agree on
      their first 21 units encode to the same bits. */
  lemma TailIgnoredBit(t1: JsString, t2: JsString, b: nat)
    requires |t1| == |t2| >= 21 && t1[..21] == t2[..21]
    ensures b < 8 * DataCount ==> ExpectedBit(t1, b) == ExpectedBit(t2, b)
  {
    if 12 <= b < 8 * DataCount {
      var i := (b - 12) / 8;
      assert t1[i] == t1[..21][i] == t2[..21][i] == t2[i];
    }
  }

  /** Line 30 of `createQRCode`: the segment header and the text's units. */
  method PutSegment(buffer: BitBuffer, text: JsString)
    requires buffer.Valid() && buffer.Contents == []
    modifies buffer
    ensures buffer.Valid() && buffer.Contents == Stream(text)
  {
    buffer.Put(4, 4);
    buffer.Put(|text|, 8);
    for i := 0 to |text|
      invariant buffer.Valid()
      invariant buffer.Contents == BitsOf(4, 4) + BitsOf(|text|, 8) + UnitBits(text[..i])
    {
      buffer.Put(text[i], 8);
      assert text[..i + 1][..i] == text[..i];
    }
    assert text[..|text|] == text;
  }

  /** Line 32: the four-bit terminator, if it still fits. */
  method PutTerminator(buffer: BitBuffer, totalDataCount: int)
    requires buffer.Valid() && totalDataCount == DataCount
    modifies buffer
    ensures buffer.Valid() && buffer.Contents == Terminate(old(buffer.Contents))
  {
    if buffer.length + 4 <= totalDataCount * 8 {
      buffer.Put(0, 4);
    }
  }

  /** Line 33: zero bits up to the next byte boundary. */
  method AlignToByte(buffer: BitBuffer)
    requires buffer.Valid()
    modifies buffer
    ensures buffer.Valid() && buffer.Contents == Align(old(buffer.Contents))
  {
    ghost var t := buffer.Contents;
    ghost var gap := AlignGap(|t|);
    ghost var z := 0;
    while buffer.length % 8 != 0
      invariant buffer.Valid() && buffer.Contents == t + Zeros(z) && buffer.length == |t| + z
      invariant z <= gap
      decreases gap - z
    {
      GapFirst(|t|, z);
      buffer.PutBit(false);
      ZerosSnoc(z);
      z := z + 1;
    }
    GapFirst(|t|, z);
  }

  /** One `put(pad, 8)` of line 34: pad byte j is appended after the j before it. */
  method PutPadByte(buffer: BitBuffer, ghost a: seq<bool>, ghost j: nat, pad: int)
    requires buffer.Valid() && buffer.Contents == a + PadBits(j) && pad == PadByte(j)
    modifies buffer
    ensures buffer.Valid() && buffer.Contents == a + PadBits(j + 1)
  {
    buffer.Put(pad, 8);
    assert PadBits(j + 1) == PadBits(j) + BitsOf(pad, 8);
  }

  /** One pass of the loop of line 34: 0xEC, then 0x11 if a byte is still
      missing. The pass starts on an even pad index with room for a byte. */
  method PadRound(buffer: BitBuffer, ghost a: seq<bool>, ghost j: nat, totalDataCount: int) returns (ghost j': nat)
    requires buffer.Valid() && buffer.Contents == a + PadBits(j) && totalDataCount == DataCount
    requires |a| % 8 == 0 && j % 2 == 0 && |a| / 8 + j < DataCount
    modifies buffer
    ensures buffer.Valid() && buffer.Contents == a + PadBits(j')
    ensures (j' == j + 2 && |a| / 8 + j' <= DataCount) || (j' == j + 1 && |a| / 8 + j' == DataCount)
  {
    PadParity(j);
    PutPadByte(buffer, a, j, 0xEC);
    j' := j + 1;
    if buffer.length / 8 < totalDataCount {
      PutPadByte(buffer, a, j', 0x11);
      j' := j' + 1;
    }
  }

  /** Line 34: pad bytes 0xEC and 0x11 in turn until 22 bytes are full. */
  method PutPadding(buffer: BitBuffer, totalDataCount: int)
    requires buffer.Valid() && buffer.length % 8 == 0 && totalDataCount == DataCount
    modifies buffer
    ensures buffer.Valid() && buffer.Contents == Pad(old(buffer.Contents))
  {
    ghost var a := buffer.Contents;
    ghost var j := 0;
    while buffer.length / 8 < totalDataCount
      invariant buffer.Valid() && buffer.Contents == a + PadBits(j)
      invariant j == 0 || |a| / 8 + j <= DataCount
      invariant |a| / 8 + j < DataCount ==> j % 2 == 0
      decreases totalDataCount - buffer.length / 8
    {
      j := PadRound(buffer, a, j, totalDataCount);
    }
    assert j == PadFor(|a|);
  }

  /** `buffer[i] || 0`: a byte the buffer never received reads as 0. */
  function ByteOrZero(bytes: seq<Byte>, i: nat): Byte {
    if i < |bytes| then bytes[i] else 0
  }

  /** Bit k of the data codewords, most significant bit of each byte first,
      as the placement loop reads it (lines 48-49); past the last codeword
      the bit is 0 (light). */
  function DataBit(data: seq<Byte>, k: nat): bool {
    k / 8 < |data| && ByteBit(data[k / 8], k % 8)
  }

  /** Bit k of what the encoder places for text: the reference layout cut
      to the 176 data bits, then light. */
  function TextBit(text: JsString, k: nat): bool {
    k < 8 * DataCount && ExpectedBit(text, k)
  }

  /** Lines 29-35 of `createQRCode`: builds the bit buffer and reads the first
      22 bytes of it, a missing byte reading as 0. The bits the placement
      reads from the result are the reference layout's first 176 bits. */
  method EncodeData(text: JsString) returns (data: seq<Byte>)
    ensures |data| == DataCount
    ensures forall k: nat :: DataBit(data, k) == TextBit(text, k)
  {
    var buffer := new BitBuffer();
    PutSegment(buffer, text);
    DataCapacity();
    var totalDataCount := TotalDataCount(GetRSBlocks());
    PutTerminator(buffer, totalDataCount);
    AlignToByte(buffer);
    PutPadding(buffer, totalDataCount);
    PaddedLayout(text);
    var bytes := buffer.buffer;
    data := seq(totalDataCount, i requires 0 <= i < totalDataCount => ByteOrZero(bytes, i));
    forall k: nat
      ensures DataBit(data, k) == TextBit(text, k)
    {
      if k < 8 * DataCount {
        assert BufferBit(bytes, k) == buffer.Contents[k];
        PaddedBit(text, k);
      }
    }
  }
}
