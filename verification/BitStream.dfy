/** BitStream (tnl/bitStream.cpp, tnl/tnlBitStream.h): a byte buffer written and read bit by bit. */
module BitStreamObject {
  import opened BitFields
  import opened ByteBits

  /** Bit k of a run of bytes. */
  ghost function BitAt(bytes: seq<bv8>, k: nat): bool
    requires k < 8 * |bytes|
  {
    BitOf(bytes[k / 8], k % 8)
  }

  ghost function BitsOf(bytes: seq<bv8>): (bits: seq<bool>)
    ensures |bits| == 8 * |bytes|
  {
    seq(8 * |bytes|, k requires 0 <= k < 8 * |bytes| => BitAt(bytes, k))
  }

  lemma BitInByte(bytes: seq<bv8>, s: nat, r: nat)
    requires s < |bytes| && r < 8
    ensures BitAt(bytes, 8 * s + r) == BitOf(bytes[s], r)
  {
  }

  /** Bit i of byte j is the source's where the write lies, and kept elsewhere. */
  ghost predicate BitWritten(before: bv8, after: bv8, j: nat, i: nat, from: nat, count: nat, source: seq<bv8>)
    requires count <= 8 * |source| && i < 8
  {
    var k := 8 * j + i;
    BitOf(after, i) <==> if from <= k < from + count then BitAt(source, k - from) else BitOf(before, i)
  }

  ghost predicate ByteWritten(before: bv8, after: bv8, j: nat, from: nat, count: nat, source: seq<bv8>)
    requires count <= 8 * |source|
  {
    forall i :: 0 <= i < 8 ==> BitWritten(before, after, j, i, from, count, source)
  }

  // ----- bytes of a write -----

  lemma OneByteBit(dest: bv8, src: bv8, up: nat, count: nat, i: nat, mask: bv8, after: bv8)
    requires up < 8 && up + count <= 8 && i < 8
    requires mask == Shl(LowMask(count), up) && after == (dest & !mask) | (Shl(src, up) & mask)
    ensures BitOf(after, i) <==> if up <= i < up + count then BitOf(src, i - up) else BitOf(dest, i)
  {
    hide *;
    ShlBit(LowMask(count), up, i);
    ShlBit(src, up, i);
    if i >= up { LowMaskBit(count, i - up); }
    SelectInto(dest, Shl(src, up), mask, i, after);
  }

  lemma SelectInto(dest: bv8, src: bv8, mask: bv8, i: nat, after: bv8)
    requires i < 8 && after == (dest & !mask) | (src & mask)
    ensures BitOf(after, i) <==> if BitOf(mask, i) then BitOf(src, i) else BitOf(dest, i)
  {
    hide *;
    SelectBit(dest, src, mask, i);
  }

  /** A write within one byte: mask = ((1 << count) - 1) << up. */
  lemma OneByte(dest: bv8, src: bv8, up: nat, count: nat, j: nat, from: nat, source: seq<bv8>, mask: bv8, after: bv8)
    requires up < 8 && 0 < count && up + count <= 8 && |source| > 0 && source[0] == src && from == 8 * j + up
    requires mask == Shl(LowMask(count), up) && after == (dest & !mask) | (Shl(src, up) & mask)
    ensures ByteWritten(dest, after, j, from, count, source)
  {
    hide *;
    forall i: nat | i < 8 ensures BitWritten(dest, after, j, i, from, count, source) {
      OneByteBit(dest, src, up, count, i, mask, after);
      FromBit(dest, after, j, i, from, count, source, 0);
    }
    ByteFromBits(dest, after, j, from, count, source);
  }

  lemma ByteFromBits(before: bv8, after: bv8, j: nat, from: nat, count: nat, source: seq<bv8>)
    requires count <= 8 * |source| && forall i: nat :: i < 8 ==> BitWritten(before, after, j, i, from, count, source)
    ensures ByteWritten(before, after, j, from, count, source)
  {
  }

  /** A bit that comes from byte s of the source, or is kept. */
  lemma FromBit(before: bv8, after: bv8, j: nat, i: nat, from: nat, count: nat, source: seq<bv8>, s: nat)
    requires i < 8 && s < |source| && count <= 8 * |source| && from + 8 * s <= 8 * j + 7 && 8 * j < from + 8 * s + 8
    requires from <= 8 * j + i < from + count ==> from + 8 * s <= 8 * j + i < from + 8 * s + 8
    requires BitOf(after, i) <==>
      if from <= 8 * j + i < from + count then BitOf(source[s], 8 * j + i - from - 8 * s) else BitOf(before, i)
    ensures BitWritten(before, after, j, i, from, count, source)
  {
    if from <= 8 * j + i < from + count { BitInByte(source, s, 8 * j + i - from - 8 * s); }
  }

  lemma LastAlignedBit(dest: bv8, src: bv8, count: nat, i: nat, mask: bv8, after: bv8)
    requires count < 8 && i < 8 && mask == LowMask(count) && after == (src & mask) | (dest & !mask)
    ensures BitOf(after, i) <==> if i < count then BitOf(src, i) else BitOf(dest, i)
  {
    hide *;
    LowMaskBit(count, i);
    SelectBitSwapped(dest, src, mask, i);
  }

  /** The last byte of an aligned write. */
  lemma LastAligned(dest: bv8, src: bv8, count: nat, j: nat, from: nat, total: nat, source: seq<bv8>, s: nat, mask: bv8,
                    after: bv8)
    requires count < 8 && s < |source| && source[s] == src && from + 8 * s == 8 * j && total == 8 * s + count
    requires total <= 8 * |source|
    requires mask == LowMask(count) && after == (src & mask) | (dest & !mask)
    ensures ByteWritten(dest, after, j, from, total, source)
  {
    hide *;
    forall i: nat | i < 8 ensures BitWritten(dest, after, j, i, from, total, source) {
      LastAlignedBit(dest, src, count, i, mask, after);
      FromBit(dest, after, j, i, from, total, source, s);
    }
    ByteFromBits(dest, after, j, from, total, source);
  }

  /** A whole byte of an aligned write. */
  lemma WholeByte(dest: bv8, j: nat, from: nat, total: nat, source: seq<bv8>, s: nat)
    requires s < |source| && from + 8 * s == 8 * j && 8 * s + 8 <= total <= 8 * |source|
    ensures ByteWritten(dest, source[s], j, from, total, source)
  {
    hide BitOf;
    var after := source[s];
    forall i: nat | i < 8 ensures BitWritten(dest, after, j, i, from, total, source) {
      BitInByte(source, s, i);
    }
  }

  /** What is carried from one byte of an unaligned write to the next: its `up` low bits, nothing else. */
  ghost predicate BitCarried(carry: bv8, dest: bv8, up: nat, i: nat, source: seq<bv8>, s: nat)
    requires 0 < up < 8 && s <= |source| && i < 8
  {
    BitOf(carry, i) <==> i < up && if s > 0 then BitOf(source[s - 1], i + 8 - up) else BitOf(dest, i)
  }

  ghost predicate Carried(carry: bv8, dest: bv8, up: nat, source: seq<bv8>, s: nat)
    requires 0 < up < 8 && s <= |source|
  {
    forall i :: 0 <= i < 8 ==> BitCarried(carry, dest, up, i, source, s)
  }

  lemma FirstCarry(dest: bv8, up: nat, source: seq<bv8>)
    requires 0 < up < 8
    ensures Carried(dest & LowMask(up), dest, up, source, 0)
  {
    hide BitOf;
    hide LowMask;
    var carry := dest & LowMask(up);
    forall i: nat | i < 8 ensures BitCarried(carry, dest, up, i, source, 0) {
      LowMaskBit(up, i);
      AndBit(dest, LowMask(up), i);
    }
  }

  lemma NextCarry(next: bv8, up: nat, source: seq<bv8>, s: nat)
    requires 0 < up < 8 && s < |source|
    ensures Carried(Shr(source[s], 8 - up), next, up, source, s + 1)
  {
    hide BitOf;
    hide Shr;
    var carry, s' := Shr(source[s], 8 - up), s + 1;
    forall i: nat | i < 8 ensures BitCarried(carry, next, up, i, source, s') {
      ShrBit(source[s], 8 - up, i);
    }
  }

  /** One bit of a byte of an unaligned write. */
  lemma UnalignedBit(carry: bv8, dest: bv8, byte: bv8, up: nat, j: nat, i: nat, from: nat, source: seq<bv8>, s: nat,
                     total: nat)
    requires 0 < up < 8 && i < 8 && s <= |source| && from + 8 * s == 8 * j + up && Carried(carry, dest, up, source, s)
    requires total <= 8 * |source| && 8 * j + i < from + total
    requires (byte == carry && total <= 8 * s) || (s < |source| && byte == carry | Shl(source[s], up))
    ensures BitOf(byte, i) <==> if from <= 8 * j + i then BitAt(source, 8 * j + i - from) else BitOf(dest, i)
  {
    hide BitOf;
    hide Shl;
    assert BitCarried(carry, dest, up, i, source, s);
    if s < |source| {
      ShlBit(source[s], up, i);
      OrBit(carry, Shl(source[s], up), i);
      if i >= up { BitInByte(source, s, i - up); }
    }
    if i < up && s > 0 { BitInByte(source, s - 1, i + 8 - up); }
  }

  /** A whole byte of an unaligned write. */
  lemma FullByte(carry: bv8, dest: bv8, up: nat, j: nat, from: nat, source: seq<bv8>, s: nat, total: nat)
    requires 0 < up < 8 && s < |source| && from + 8 * s == 8 * j + up && Carried(carry, dest, up, source, s)
    requires 8 * s + 8 - up <= total <= 8 * |source|
    ensures ByteWritten(dest, carry | Shl(source[s], up), j, from, total, source)
  {
    hide BitOf;
    hide Shl;
    hide Carried;
    var after := carry | Shl(source[s], up);
    forall i: nat | i < 8 ensures BitWritten(dest, after, j, i, from, total, source) {
      UnalignedBit(carry, dest, after, up, j, i, from, source, s, total);
    }
  }

  /** The last byte of an unaligned write: what is carried and, if needed, more bits of the source. */
  lemma LastByte(carry: bv8, dest: bv8, up: nat, j: nat, from: nat, source: seq<bv8>, s: nat, total: nat, last: bv8,
                 mask: bv8, after: bv8)
    requires 0 < up < 8 && s <= |source| && from + 8 * s == 8 * j + up && Carried(carry, dest, up, source, s)
    requires total <= 8 * |source| && 8 * j < from + total <= 8 * j + 8
    requires (last == carry && total <= 8 * s) || (s < |source| && last == carry | Shl(source[s], up))
    requires mask == LowMask(from + total - 8 * j) && after == (dest & !mask) | (last & mask)
    ensures ByteWritten(dest, after, j, from, total, source)
  {
    hide BitOf;
    hide Shl;
    hide LowMask;
    hide Carried;
    var n: nat := from + total - 8 * j;
    forall i: nat | i < 8 ensures BitWritten(dest, after, j, i, from, total, source) {
      LowMaskBit(n, i);
      SelectBit(dest, last, mask, i);
      if i < n { UnalignedBit(carry, dest, last, up, j, i, from, source, s, total); }
    }
  }

  // ----- the stream -----

  /** The bits of a write are the source's, all others are kept. */
  ghost predicate BufferWritten(before: seq<bv8>, after: seq<bv8>, from: nat, count: nat, source: seq<bv8>)
    requires count <= 8 * |source|
  {
    |after| == |before| && forall j :: 0 <= j < |before| ==> ByteWritten(before[j], after[j], j, from, count, source)
  }

  lemma Untouched(b: bv8, j: nat, from: nat, count: nat, source: seq<bv8>)
    requires count <= 8 * |source| && (8 * j + 8 <= from || from + count <= 8 * j)
    ensures ByteWritten(b, b, j, from, count, source)
  {
  }

  /** The buffer as bits: a write replaces just its own. */
  lemma WrittenBits(before: seq<bv8>, after: seq<bv8>, from: nat, count: nat, source: seq<bv8>)
    requires count <= 8 * |source| && from + count <= 8 * |before| && BufferWritten(before, after, from, count, source)
    ensures BitsOf(after) == BitsOf(before)[..from] + BitsOf(source)[..count] + BitsOf(before)[from + count..]
  {
    hide BitOf;
    forall k | 0 <= k < 8 * |before|
      ensures BitAt(after, k) == if from <= k < from + count then BitAt(source, k - from) else BitAt(before, k)
    {
      assert ByteWritten(before[k / 8], after[k / 8], k / 8, from, count, source);
      assert BitWritten(before[k / 8], after[k / 8], k / 8, k % 8, from, count, source);
    }
    hide BitAt;
  }

  // ----- bytes of a read -----

  /** The n low bits of byte j of a read are the buffer's. */
  ghost predicate ByteRead(buf: seq<bv8>, from: nat, j: nat, b: bv8, n: nat)
    requires n <= 8 && from + 8 * j + n <= 8 * |buf|
  {
    forall i :: 0 <= i < n ==> BitOf(b, i) == BitAt(buf, from + 8 * j + i)
  }

  lemma ReadWhole(buf: seq<bv8>, from: nat, j: nat, n: nat)
    requires n <= 8 && from % 8 == 0 && from / 8 + j < |buf|
    ensures ByteRead(buf, from, j, buf[from / 8 + j], n)
  {
    hide BitOf;
    var b := buf[from / 8 + j];
    forall i: nat | i < n ensures BitOf(b, i) == BitAt(buf, from + 8 * j + i) { BitInByte(buf, from / 8 + j, i); }
  }

  /** The rest of one byte below the beginning of the next. */
  lemma ReadSplit(buf: seq<bv8>, from: nat, j: nat, down: nat, n: nat, b: bv8)
    requires 0 < n <= 8 && down == from % 8 && 0 < down && from + 8 * j + n <= 8 * |buf|
    requires n <= 8 - down ==>
      b == Shr(buf[from / 8 + j], down)
        || (from / 8 + j + 1 < |buf| && b == Shr(buf[from / 8 + j], down) | Shl(buf[from / 8 + j + 1], 8 - down))
    requires n > 8 - down ==>
      from / 8 + j + 1 < |buf| && b == Shr(buf[from / 8 + j], down) | Shl(buf[from / 8 + j + 1], 8 - down)
    ensures ByteRead(buf, from, j, b, n)
  {
    hide BitOf;
    hide Shl;
    hide Shr;
    var s := from / 8 + j;
    forall i: nat | i < n ensures BitOf(b, i) == BitAt(buf, from + 8 * j + i) {
      ShrBit(buf[s], down, i);
      if s + 1 < |buf| {
        ShlBit(buf[s + 1], 8 - down, i);
        OrBit(Shr(buf[s], down), Shl(buf[s + 1], 8 - down), i);
        if i + down >= 8 { BitInByte(buf, s + 1, i + down - 8); }
      }
      if i + down < 8 { BitInByte(buf, s, i + down); }
    }
  }

  function Part(j: nat, count: nat): int { if 8 * j + 8 <= count then 8 else count - 8 * j }

  lemma ReadBitIs(buf: seq<bv8>, from: nat, count: nat, out: seq<bv8>, j: nat, i: nat)
    requires from + count <= 8 * |buf| && |out| == (count + 7) / 8 && i < 8 && 8 * j + i < count
    requires ByteRead(buf, from, j, out[j], Part(j, count))
    ensures BitAt(out, 8 * j + i) == BitAt(buf, from + (8 * j + i))
  {
    hide BitOf;
    BitInByte(out, j, i);
  }

  lemma ReadBitsAre(buf: seq<bv8>, from: nat, count: nat, out: seq<bv8>)
    requires from + count <= 8 * |buf| && |out| == (count + 7) / 8
    requires forall j :: 0 <= j < |out| ==> ByteRead(buf, from, j, out[j], Part(j, count))
    ensures BitsOf(out)[..count] == BitsOf(buf)[from..from + count]
  {
    hide BitOf;
    hide BitAt;
    hide ByteRead;
    forall k: nat | k < count ensures BitAt(out, k) == BitAt(buf, from + k) {
      ReadBitIs(buf, from, count, out, k / 8, k % 8);
    }
  }

  // ----- numbers -----

  /** The four bytes of a 32-bit number, the least significant first. */
  function IntBytes(value: nat): (bytes: seq<bv8>)
    ensures |bytes| == 4
  {
    var f := Field(value, 32);
    [Pack(f[0..8]), Pack(f[8..16]), Pack(f[16..24]), Pack(f[24..32])]
  }

  lemma {:induction false} FieldPrefix(value: nat, width: nat, n: nat)
    requires n <= width
    ensures Field(value, width)[..n] == Field(value, n)
  {
    if n > 0 { FieldPrefix(value / 2, width - 1, n - 1); }
  }

  lemma PackedBit(bytes: seq<bv8>, f: seq<bool>, j: nat, k: nat)
    requires j < |bytes| && 8 * j + 8 <= |f| && bytes[j] == Pack(f[8 * j..8 * j + 8]) && 8 * j <= k < 8 * j + 8
    ensures BitAt(bytes, k) == f[k]
  {
    hide Pack;
    hide BitOf;
    PackBit(f[8 * j..8 * j + 8], k - 8 * j);
    BitInByte(bytes, j, k - 8 * j);
  }

  lemma IntBits(value: nat, n: nat)
    requires n <= 32
    ensures BitsOf(IntBytes(value))[..n] == Field(value, n)
  {
    hide Field;
    hide Pack;
    hide BitAt;
    FieldPrefix(value, 32, n);
    var f, bytes := Field(value, 32), IntBytes(value);
    forall k: nat | k < 32 ensures BitAt(bytes, k) == f[k] {
      PackedBit(bytes, f, if k < 8 then 0 else if k < 16 then 1 else if k < 24 then 2 else 3, k);
    }
    assert BitsOf(bytes)[..n] == f[..n];
  }

  /** The number that some bytes are, cut to n bits. */
  function IntOf(bytes: seq<bv8>, n: nat): nat
    requires n <= 8 * |bytes|
  {
    ValueOf(seq(n, k requires 0 <= k < n => BitOf(bytes[k / 8], k % 8)))
  }

  lemma IntOfBits(bytes: seq<bv8>, n: nat)
    requires n <= 8 * |bytes|
    ensures IntOf(bytes, n) == ValueOf(BitsOf(bytes)[..n])
  {
    hide BitOf;
    assert BitsOf(bytes)[..n] == seq(n, k requires 0 <= k < n => BitOf(bytes[k / 8], k % 8));
  }

  const RESIZE_PAD := 1500

  /** Some bits went in at `from`; nothing else that was there has changed. */
  ghost predicate Spliced(before: seq<bool>, from: nat, bits: seq<bool>, after: seq<bool>) {
    && |before| <= |after| && from + |bits| <= |after| && after[from..from + |bits|] == bits
    && forall k :: 0 <= k < |before| && !(from <= k < from + |bits|) ==> after[k] == before[k]
  }

  /** The bits written before and these ones. */
  lemma SplicedPrefix(before: seq<bool>, from: nat, bits: seq<bool>, after: seq<bool>)
    requires Spliced(before, from, bits, after) && from <= |before|
    ensures after[..from + |bits|] == before[..from] + bits
  {
    assert after[..from + |bits|] == after[..from] + after[from..from + |bits|];
  }

  lemma SplicedTwice(before: seq<bool>, from: nat, bits: seq<bool>, between: seq<bool>, more: seq<bool>,
                     after: seq<bool>)
    requires Spliced(before, from, bits, between) && Spliced(between, from + |bits|, more, after)
    ensures Spliced(before, from, bits + more, after)
  {
    forall k | 0 <= k < |bits + more| ensures after[from + k] == (bits + more)[k] {
      if k < |bits| { assert between[from..from + |bits|][k] == bits[k]; }
      else { assert after[from + |bits|..from + |bits| + |more|][k - |bits|] == more[k - |bits|]; }
    }
    assert after[from..from + |bits + more|] == bits + more;
  }

  class BitStream {
    /** Memory that the stream owns is replaced by more when it is full. */
    const ownsMemory: bool
    var buffer: array<bv8>
    var bitNum: nat
    var maxReadBitNum: nat
    var maxWriteBitNum: nat
    var mError: bool

    ghost predicate Valid()
      reads this
    {
      && maxReadBitNum <= 8 * buffer.Length && maxWriteBitNum <= 8 * buffer.Length
      && (ownsMemory ==> maxWriteBitNum == 8 * buffer.Length)
    }

    constructor (bufSize: nat, owned: bool)
      ensures Valid() && fresh(buffer) && buffer.Length == bufSize && ownsMemory == owned
      ensures bitNum == 0 && maxReadBitNum == maxWriteBitNum == 8 * bufSize && !mError
    {
      ownsMemory := owned;
      buffer := new bv8[bufSize](_ => 0);
      bitNum, mError := 0, false;
      maxReadBitNum, maxWriteBitNum := 8 * bufSize, 8 * bufSize;
    }

    /** A stream over given memory, of which the first so many bytes may be read and written. */
    constructor Over(bufPtr: array<bv8>, bufSize: nat, maxWriteSize: nat)
      requires bufSize <= bufPtr.Length && maxWriteSize <= bufPtr.Length
      ensures Valid() && buffer == bufPtr && !ownsMemory && bitNum == 0 && !mError
      ensures maxReadBitNum == 8 * bufSize && maxWriteBitNum == 8 * maxWriteSize
    {
      ownsMemory := false;
      buffer := bufPtr;
      bitNum, mError := 0, false;
      maxReadBitNum, maxWriteBitNum := 8 * bufSize, 8 * maxWriteSize;
    }

    /** The bits of a byte-aligned write. */
    method WriteAligned(bitCount: nat, source: seq<bv8>)
      requires bitNum % 8 == 0 && 0 < bitCount <= 8 * |source| && bitNum + bitCount <= 8 * buffer.Length
      modifies buffer
      ensures BufferWritten(old(buffer[..]), buffer[..], bitNum, bitCount, source)
    {
      hide ByteWritten;
      hide Carried;
      hide LowMask;
      hide Shl;
      hide Shr;
      ghost var was := buffer[..];
      var dest, s, left := bitNum / 8, 0, bitCount;
      forall j: nat | j < dest ensures ByteWritten(was[j], buffer[j], j, bitNum, bitCount, source) {
        Untouched(was[j], j, bitNum, bitCount, source);
      }
      while left >= 8
        invariant 0 <= left && left + 8 * s == bitCount && dest == bitNum / 8 + s && s <= |source| && dest <= |was|
        invariant forall j :: dest <= j < |was| ==> buffer[j] == was[j]
        invariant forall j :: 0 <= j < dest ==> ByteWritten(was[j], buffer[j], j, bitNum, bitCount, source)
      {
        buffer[dest] := source[s];
        WholeByte(was[dest], dest, bitNum, bitCount, source, s);
        dest, s, left := dest + 1, s + 1, left - 8;
      }
      if left > 0 {
        var mask := LowMask(left);
        var after := (source[s] & mask) | (buffer[dest] & !mask);
        LastAligned(was[dest], source[s], left, dest, bitNum, bitCount, source, s, mask, after);
        PutByte(dest, after, was, bitCount, source);
      } else {
        forall j | dest <= j < |was| ensures ByteWritten(was[j], buffer[j], j, bitNum, bitCount, source) {
          Untouched(was[j], j, bitNum, bitCount, source);
        }
      }
    }

    /** The bits of a write that starts within a byte and goes beyond it: each source byte is split over
        two bytes. */
    method WriteUnaligned(bitCount: nat, source: seq<bv8>)
      requires bitNum % 8 != 0 && 8 - bitNum % 8 < bitCount <= 8 * |source| && bitNum + bitCount <= 8 * buffer.Length
      modifies buffer
      ensures BufferWritten(old(buffer[..]), buffer[..], bitNum, bitCount, source)
    {
      hide ByteWritten;
      hide Carried;
      hide LowMask;
      hide Shl;
      hide Shr;
      ghost var was := buffer[..];
      var upShift := bitNum % 8;
      var downShift := 8 - upShift;
      var dest, s, left := bitNum / 8, 0, bitCount;
      var destByte := buffer[dest] & LowMask(upShift);
      FirstCarry(was[dest], upShift, source);
      var lastBits := (bitNum + bitCount - 1) % 8 + 1;
      forall j: nat | j < dest ensures ByteWritten(was[j], buffer[j], j, bitNum, bitCount, source) {
        Untouched(was[j], j, bitNum, bitCount, source);
      }
      while left >= 8
        invariant 0 <= left && left + 8 * s == bitCount && dest == bitNum / 8 + s && s <= |source| && dest < |was|
        invariant forall j :: dest <= j < |was| ==> buffer[j] == was[j]
        invariant forall j :: 0 <= j < dest ==> ByteWritten(was[j], buffer[j], j, bitNum, bitCount, source)
        invariant Carried(destByte, was[dest], upShift, source, s)
      {
        destByte := PassByte(dest, destByte, s, bitCount, source, was);
        dest, s, left := dest + 1, s + 1, left - 8;
      }
      if left > downShift {
        destByte := PassByte(dest, destByte, s, bitCount, source, was);
        dest, s, left := dest + 1, s + 1, left - 8;
      }
      LastPlace(bitNum + bitCount, dest, upShift + left);
      FinishUnaligned(dest, destByte, s, left, lastBits, bitCount, source, was);
    }

    /** The next source byte fills up one byte of the buffer; the rest of it is carried to the next. */
    method PassByte(dest: nat, destByte: bv8, s: nat, ghost bitCount: nat, source: seq<bv8>, ghost was: seq<bv8>)
      returns (carry: bv8)
      requires dest + 1 < buffer.Length == |was| && bitNum % 8 != 0 && s < |source| && dest == bitNum / 8 + s
      requires 8 * s + 8 - bitNum % 8 <= bitCount <= 8 * |source|
      requires Carried(destByte, was[dest], bitNum % 8, source, s)
      requires forall j :: 0 <= j < dest ==> ByteWritten(was[j], buffer[j], j, bitNum, bitCount, source)
      requires forall j :: dest <= j < |was| ==> buffer[j] == was[j]
      modifies buffer
      ensures Carried(carry, was[dest + 1], bitNum % 8, source, s + 1)
      ensures forall j :: 0 <= j <= dest ==> ByteWritten(was[j], buffer[j], j, bitNum, bitCount, source)
      ensures forall j :: dest < j < |was| ==> buffer[j] == was[j]
    {
      hide ByteWritten;
      hide Carried;
      hide LowMask;
      hide Shl;
      hide Shr;
      var upShift := bitNum % 8;
      FullByte(destByte, was[dest], upShift, dest, bitNum, source, s, bitCount);
      NextCarry(was[dest + 1], upShift, source, s);
      buffer[dest] := destByte | Shl(source[s], upShift);
      carry := Shr(source[s], 8 - upShift);
    }

    /** The last bits of an unaligned write, which all go into one byte. */
    method FinishUnaligned(dest: nat, destByte: bv8, s: nat, left: int, lastBits: nat, bitCount: nat, source: seq<bv8>,
                           ghost was: seq<bv8>)
      requires dest < buffer.Length == |was| && bitNum % 8 != 0 && s <= |source| && bitCount <= 8 * |source|
      requires left + 8 * s == bitCount
      requires dest == bitNum / 8 + s && left <= 8 - bitNum % 8 && 0 < lastBits <= 8
      requires 8 * dest + lastBits == bitNum + bitCount
      requires Carried(destByte, was[dest], bitNum % 8, source, s)
      requires forall j :: 0 <= j < dest ==> ByteWritten(was[j], buffer[j], j, bitNum, bitCount, source)
      requires forall j :: dest <= j < |was| ==> buffer[j] == was[j]
      modifies buffer
      ensures BufferWritten(was, buffer[..], bitNum, bitCount, source)
    {
      hide ByteWritten;
      hide Carried;
      hide LowMask;
      hide Shl;
      var upShift := bitNum % 8;
      var d := buffer[dest];
      var last := if left > 0 then destByte | Shl(source[s], upShift) else destByte;
      var lastMask := LowMask(lastBits);
      var after := (d & !lastMask) | (last & lastMask);
      LastByte(destByte, d, upShift, dest, bitNum, source, s, bitCount, last, lastMask, after);
      PutByte(dest, after, was, bitCount, source);
    }

    /** The last byte of a write goes in. */
    method PutByte(dest: nat, b: bv8, ghost was: seq<bv8>, ghost bitCount: nat, ghost source: seq<bv8>)
      requires dest < buffer.Length == |was| && bitCount <= 8 * |source| && bitNum + bitCount <= 8 * dest + 8
      requires forall j :: 0 <= j < dest ==> ByteWritten(was[j], buffer[j], j, bitNum, bitCount, source)
      requires forall j :: dest < j < |was| ==> buffer[j] == was[j]
      requires ByteWritten(was[dest], b, dest, bitNum, bitCount, source)
      modifies buffer
      ensures BufferWritten(was, buffer[..], bitNum, bitCount, source)
    {
      hide ByteWritten;
      buffer[dest] := b;
      forall j | dest < j < |was| ensures ByteWritten(was[j], buffer[j], j, bitNum, bitCount, source) {
        Untouched(was[j], j, bitNum, bitCount, source);
      }
    }

    ghost function Bits(): (bits: seq<bool>)
      ensures |bits| == 8 * buffer.Length
      reads `buffer, buffer
    {
      BitsOf(buffer[..])
    }

    /** So many more bits can be written. */
    ghost predicate CanTake(bitCount: nat)
      reads this
    {
      bitNum + bitCount <= maxWriteBitNum || ownsMemory
    }

    /** Makes room for more bits, if the memory is the stream's own. */
    method ResizeBits(newBits: nat) returns (ok: bool)
      requires Valid()
      modifies this
      ensures Valid() && ok == ownsMemory && bitNum == old(bitNum)
      ensures ok ==> fresh(buffer) && mError == old(mError) && maxWriteBitNum >= old(maxWriteBitNum) + newBits
      ensures ok ==> |Bits()| >= |old(Bits())| && Bits()[..|old(Bits())|] == old(Bits())
      ensures !ok ==>
        mError && buffer == old(buffer) && maxReadBitNum == old(maxReadBitNum) && maxWriteBitNum == old(maxWriteBitNum)
    {
      hide BitAt;
      if !ownsMemory { mError := true; return false; }
      var newSize := (maxWriteBitNum + newBits + 7) / 8 + RESIZE_PAD;
      ghost var was := buffer[..];
      var before := buffer;
      buffer := new bv8[newSize](i requires i >= 0 reads before => if i < before.Length then before[i] else 0);
      assert buffer[..|was|] == was;
      BitsPart(buffer[..], |was|);
      maxReadBitNum, maxWriteBitNum := 8 * newSize, 8 * newSize;
      ok := true;
    }

    /** Writes bits at the current position and nowhere else; fails when there is no room for them. */
    method WriteBits(bitCount: nat, source: seq<bv8>) returns (ok: bool)
      requires Valid() && bitCount <= 8 * |source|
      modifies this, buffer
      ensures Valid() && (buffer == old(buffer) || fresh(buffer)) && (ok <==> bitCount == 0 || old(CanTake(bitCount)))
      ensures if ownsMemory then maxWriteBitNum >= old(maxWriteBitNum) else maxWriteBitNum == old(maxWriteBitNum)
      ensures ok ==> bitNum == old(bitNum) + bitCount && mError == old(mError)
      ensures ok && bitCount > 0 ==>
        bitNum <= maxWriteBitNum && Spliced(old(Bits()), old(bitNum), BitsOf(source)[..bitCount], Bits())
      ensures !ok || bitCount == 0 ==>
        buffer == old(buffer) && Bits() == old(Bits()) && maxWriteBitNum == old(maxWriteBitNum)
      ensures !ok ==> bitNum == maxWriteBitNum && mError
    {
      hide BitsOf;
      if bitCount == 0 { return true; }
      ghost var before := Bits();
      if bitCount + bitNum > maxWriteBitNum {
        ok := ResizeBits(bitCount + bitNum - maxWriteBitNum);
        if !ok {
          bitNum := maxWriteBitNum;
          return;
        }
      }
      ghost var room := Bits();
      PutBits(bitCount, source);
      SplicedInRoom(before, room, bitNum, BitsOf(source)[..bitCount], Bits());
      bitNum := bitNum + bitCount;
      ok := true;
    }

    /** The bits go in where there is room for them. */
    method PutBits(bitCount: nat, source: seq<bv8>)
      requires Valid() && 0 < bitCount <= 8 * |source| && bitNum + bitCount <= maxWriteBitNum
      modifies buffer
      ensures Bits() == old(Bits()[..bitNum]) + BitsOf(source)[..bitCount] + old(Bits()[bitNum + bitCount..])
    {
      hide BufferWritten;
      hide BitAt;
      ghost var was := buffer[..];
      var upShift := bitNum % 8;
      if 8 - upShift >= bitCount { WriteInByte(bitCount, source); }
      else if upShift == 0 { WriteAligned(bitCount, source); }
      else { WriteUnaligned(bitCount, source); }
      WrittenBits(was, buffer[..], bitNum, bitCount, source);
    }

    method WriteInByte(bitCount: nat, source: seq<bv8>)
      requires 0 < bitCount <= 8 * |source| && bitNum % 8 + bitCount <= 8 && bitNum + bitCount <= 8 * buffer.Length
      modifies buffer
      ensures BufferWritten(old(buffer[..]), buffer[..], bitNum, bitCount, source)
    {
      hide ByteWritten;
      hide LowMask;
      hide Shl;
      ghost var was := buffer[..];
      var upShift, dest := bitNum % 8, bitNum / 8;
      var mask := Shl(LowMask(bitCount), upShift);
      var d := buffer[dest];
      var after := (d & !mask) | (Shl(source[0], upShift) & mask);
      OneByte(d, source[0], upShift, bitCount, dest, bitNum, source, mask, after);
      forall j: nat | j < dest ensures ByteWritten(was[j], buffer[j], j, bitNum, bitCount, source) {
        Untouched(was[j], j, bitNum, bitCount, source);
      }
      PutByte(dest, after, was, bitCount, source);
    }

    /** The next bits, as bytes; what the last byte has beyond them is unspecified. */
    method ReadBits(bitCount: nat) returns (ok: bool, out: seq<bv8>)
      requires Valid()
      modifies `bitNum, `mError
      ensures ok <==> bitCount == 0 || old(bitNum) + bitCount <= maxReadBitNum
      ensures ok ==> bitNum == old(bitNum) + bitCount && mError == old(mError) && |out| == (bitCount + 7) / 8
      ensures ok && bitCount > 0 ==> BitsOf(out)[..bitCount] == Bits()[old(bitNum)..bitNum]
      ensures !ok ==> bitNum == old(bitNum) && mError && out == []
    {
      out := [];
      if bitCount == 0 { return true, []; }
      if bitCount + bitNum > maxReadBitNum {
        mError := true;
        return false, [];
      }
      ghost var from := bitNum;
      if bitNum % 8 == 0 { out := ReadAligned(bitCount); } else { out := ReadUnaligned(bitCount); }
      ReadBitsAre(buffer[..], from, bitCount, out);
      bitNum := bitNum + bitCount;
      ok := true;
    }

    method ReadAligned(bitCount: nat) returns (out: seq<bv8>)
      requires 0 < bitCount && bitNum + bitCount <= 8 * buffer.Length && bitNum % 8 == 0
      ensures |out| == (bitCount + 7) / 8
      ensures forall j :: 0 <= j < |out| ==> ByteRead(buffer[..], bitNum, j, out[j], Part(j, bitCount))
    {
      hide ByteRead;
      out := [];
      var byteCount := (bitCount + 7) / 8;
      while |out| < byteCount
        invariant |out| <= byteCount
        invariant forall j :: 0 <= j < |out| ==> ByteRead(buffer[..], bitNum, j, out[j], Part(j, bitCount))
      {
        ReadWhole(buffer[..], bitNum, |out|, Part(|out|, bitCount));
        out := out + [buffer[bitNum / 8 + |out|]];
      }
    }

    method ReadUnaligned(bitCount: nat) returns (out: seq<bv8>)
      requires 0 < bitCount && bitNum + bitCount <= 8 * buffer.Length && bitNum % 8 != 0
      ensures |out| == (bitCount + 7) / 8
      ensures forall j :: 0 <= j < |out| ==> ByteRead(buffer[..], bitNum, j, out[j], Part(j, bitCount))
    {
      hide ByteRead;
      hide Shl;
      hide Shr;
      var downShift := bitNum % 8;
      var upShift := 8 - downShift;
      out := [];
      var left, at := bitCount, bitNum / 8;
      var sourceByte := Shr(buffer[at], downShift);
      while left >= 8
        invariant 0 <= left && left + 8 * |out| == bitCount && at == bitNum / 8 + |out| && at < buffer.Length
        invariant sourceByte == Shr(buffer[at], downShift)
        invariant forall j :: 0 <= j < |out| ==> ByteRead(buffer[..], bitNum, j, out[j], 8)
      {
        var nextByte := buffer[at + 1];
        ReadSplit(buffer[..], bitNum, |out|, downShift, 8, sourceByte | Shl(nextByte, upShift));
        out := out + [sourceByte | Shl(nextByte, upShift)];
        sourceByte := Shr(nextByte, downShift);
        at, left := at + 1, left - 8;
      }
      if left > 0 {
        if left > upShift { sourceByte := sourceByte | Shl(buffer[at + 1], upShift); }
        ReadSplit(buffer[..], bitNum, |out|, downShift, left, sourceByte);
        out := out + [sourceByte];
      }
    }

    /** The bits written so far. */
    ghost function Written(): seq<bool>
      requires Valid() && bitNum <= maxWriteBitNum
      reads this, buffer
    {
      Bits()[..bitNum]
    }

    /** Returns the flag, or false if it does not fit. */
    method WriteFlag(val: bool) returns (r: bool)
      requires Valid() && bitNum <= maxWriteBitNum
      modifies this, buffer
      ensures Valid() && bitNum <= maxWriteBitNum && (buffer == old(buffer) || fresh(buffer))
      ensures if ownsMemory then maxWriteBitNum >= old(maxWriteBitNum) else maxWriteBitNum == old(maxWriteBitNum)
      ensures old(CanTake(1)) ==>
        r == val && mError == old(mError) && bitNum == old(bitNum) + 1
          && Spliced(old(Bits()), old(bitNum), [val], Bits())
      ensures !old(CanTake(1)) ==> !r && mError && Bits() == old(Bits()) && bitNum == old(bitNum) == maxWriteBitNum
    {
      hide BitsOf;
      ghost var before := Bits();
      if bitNum + 1 > maxWriteBitNum {
        var ok := ResizeBits(1);
        if !ok { return false; }
      }
      ghost var room := Bits();
      PutFlag(val);
      SplicedInRoom(before, room, bitNum, [val], Bits());
      bitNum := bitNum + 1;
      r := val;
    }

    method PutFlag(val: bool)
      requires Valid() && bitNum + 1 <= maxWriteBitNum
      modifies buffer
      ensures Bits() == old(Bits()[..bitNum]) + [val] + old(Bits()[bitNum + 1..])
    {
      hide ByteWritten;
      hide BitOf;
      hide Mask;
      ghost var was := buffer[..];
      ghost var source: seq<bv8> := [if val then 1 else 0];
      var m := Mask(bitNum % 8);
      var d := buffer[bitNum / 8];
      var after := if val then d | m else d & !m;
      FlagByte(d, bitNum % 8, bitNum / 8, bitNum, val, m, after);
      forall j: nat | j < bitNum / 8 ensures ByteWritten(was[j], buffer[j], j, bitNum, 1, source) {
        Untouched(was[j], j, bitNum, 1, source);
      }
      PutByte(bitNum / 8, after, was, 1, source);
      hide BitAt;
      hide BufferWritten;
      FlagBits(val);
      WrittenBits(was, buffer[..], bitNum, 1, source);
    }

    /** The flag at the current position; false, with an error, beyond the end.  The test lets the end
        itself pass, and then the bit read is none of the stream's: behind a full buffer it is `behind`,
        whatever the memory there holds. */
    method ReadFlag(behind: bool) returns (r: bool)
      requires Valid()
      modifies `bitNum, `mError
      ensures old(bitNum) > maxReadBitNum ==> bitNum == old(bitNum) && mError && !r
      ensures old(bitNum) <= maxReadBitNum ==>
        && bitNum == old(bitNum) + 1 && mError == old(mError)
        && r == if old(bitNum) < 8 * buffer.Length then Bits()[old(bitNum)] else behind
    {
      if bitNum > maxReadBitNum { mError := true; return false; }
      if bitNum / 8 < buffer.Length {
        var mask := Mask(bitNum % 8);
        r := buffer[bitNum / 8] & mask != 0;
      } else {
        r := behind;
      }
      bitNum := bitNum + 1;
    }

    method WriteInt(value: nat, bitCount: nat)
      requires Valid() && bitNum <= maxWriteBitNum && bitCount <= 32
      modifies this, buffer
      ensures Valid() && bitNum <= maxWriteBitNum && (buffer == old(buffer) || fresh(buffer))
      ensures if ownsMemory then maxWriteBitNum >= old(maxWriteBitNum) else maxWriteBitNum == old(maxWriteBitNum)
      ensures old(CanTake(bitCount)) ==>
        mError == old(mError) && bitNum == old(bitNum) + bitCount
          && Spliced(old(Bits()), old(bitNum), Field(value, bitCount), Bits())
      ensures !old(CanTake(bitCount)) ==> mError && Bits() == old(Bits()) && bitNum == maxWriteBitNum
    {
      IntBits(value, bitCount);
      hide Field;
      hide BitsOf;
      var ok := WriteBits(bitCount, IntBytes(value));
    }

    method ReadInt(bitCount: nat) returns (r: nat)
      requires Valid() && bitCount <= 32
      modifies `bitNum, `mError
      ensures old(bitNum) + bitCount <= maxReadBitNum ==>
        bitNum == old(bitNum) + bitCount && mError == old(mError) && r == ValueOf(Bits()[old(bitNum)..bitNum])
      ensures bitCount > 0 && old(bitNum) + bitCount > maxReadBitNum ==> r == 0 && mError && bitNum == old(bitNum)
      ensures bitCount == 0 ==> r == 0 && mError == old(mError) && bitNum == old(bitNum)
    {
      hide ValueOf;
      var ok, out := ReadBits(bitCount);
      if !ok { return 0; }
      if bitCount == 0 { NoBits(); return 0; }
      IntOfBits(out, bitCount);
      r := IntOf(out, bitCount);
    }

    /** A sign flag and the magnitude. */
    method WriteSignedInt(value: int, bitCount: nat)
      requires Valid() && bitNum <= maxWriteBitNum && 0 < bitCount <= 32
      modifies this, buffer
      ensures Valid() && bitNum <= maxWriteBitNum && (buffer == old(buffer) || fresh(buffer))
      ensures if ownsMemory then maxWriteBitNum >= old(maxWriteBitNum) else maxWriteBitNum == old(maxWriteBitNum)
      ensures old(CanTake(bitCount)) ==>
        mError == old(mError) && bitNum == old(bitNum) + bitCount
          && Spliced(old(Bits()), old(bitNum), SignedField(value, bitCount), Bits())
      ensures !old(CanTake(bitCount)) ==> mError
    {
      hide Field;
      hide BitsOf;
      ghost var before, from := Bits(), bitNum;
      var negative := WriteFlag(value < 0);
      ghost var between := Bits();
      if negative { WriteInt(-value, bitCount - 1); }
      else if value >= 0 { WriteInt(value, bitCount - 1); }
      else { WriteInt(value % TWO32, bitCount - 1); }
      if old(CanTake(bitCount)) {
        SplicedTwice(before, from, [value < 0], between, Field(Magnitude(value), bitCount - 1), Bits());
      }
    }

    /** Its value; 0 if the stream has fewer bits, an error except for a lone sign flag at the end. */
    method ReadSignedInt(bitCount: nat, behind: bool) returns (r: int)
      requires Valid() && 0 < bitCount <= 32
      modifies `bitNum, `mError
      ensures old(bitNum) + bitCount <= maxReadBitNum ==>
        bitNum == old(bitNum) + bitCount && mError == old(mError) && r == SignedValue(Bits()[old(bitNum)..bitNum])
      ensures old(bitNum) + bitCount > maxReadBitNum ==>
        && r == 0 && bitNum == old(bitNum) + (if old(bitNum) <= maxReadBitNum then 1 else 0)
        && mError == (old(mError) || bitCount > 1 || old(bitNum) > maxReadBitNum)
    {
      hide ValueOf;
      ghost var from := bitNum;
      var negative := ReadFlag(behind);
      var v := ReadInt(bitCount - 1);
      assert from + bitCount <= maxReadBitNum ==>
        Bits()[from..from + bitCount][1..] == Bits()[from + 1..from + bitCount];
      r := v;
      if negative { r := -r; }
    }

    /** A number from a range, in as many bits as the range needs. */
    method WriteRangedU32(value: nat, rangeStart: nat, rangeEnd: nat)
      requires Valid() && bitNum <= maxWriteBitNum && rangeStart <= value <= rangeEnd
      requires rangeEnd - rangeStart < 0x1000000
      modifies this, buffer
      ensures Valid() && bitNum <= maxWriteBitNum && (buffer == old(buffer) || fresh(buffer))
      ensures if ownsMemory then maxWriteBitNum >= old(maxWriteBitNum) else maxWriteBitNum == old(maxWriteBitNum)
      ensures var bits := RangeBits(rangeEnd - rangeStart + 1);
        old(CanTake(bits)) ==>
          mError == old(mError) && bitNum == old(bitNum) + bits
          && Spliced(old(Bits()), old(bitNum), Field(value - rangeStart, bits), Bits())
    {
      RangeBitsSmall(rangeEnd - rangeStart + 1);
      WriteInt(value - rangeStart, RangeBits(rangeEnd - rangeStart + 1));
    }

    /** A number out of the range, or one that the stream does not have, is an error and read as the
        start of the range. */
    method ReadRangedU32(rangeStart: nat, rangeEnd: nat) returns (r: nat)
      requires Valid() && rangeStart <= rangeEnd && rangeEnd - rangeStart < 0x1000000
      modifies `bitNum, `mError
      ensures var bits := RangeBits(rangeEnd - rangeStart + 1);
        if bits == 0 then r == rangeStart && bitNum == old(bitNum) && mError == old(mError)
        else if old(bitNum) + bits > maxReadBitNum then r == rangeStart && bitNum == old(bitNum) && mError
        else
          && bitNum == old(bitNum) + bits
          && var v := ValueOf(Bits()[old(bitNum)..bitNum]) + rangeStart;
             if v > rangeEnd then mError && r == rangeStart else mError == old(mError) && r == v
    {
      hide ValueOf;
      var rangeBits := RangeBits(rangeEnd - rangeStart + 1);
      RangeBitsSmall(rangeEnd - rangeStart + 1);
      var v := ReadInt(rangeBits);
      if v + rangeStart > rangeEnd { mError := true; return rangeStart; }
      r := v + rangeStart;
    }
  }

  const TWO32 := 0x1_0000_0000

  lemma BitsPart(bytes: seq<bv8>, n: nat)
    requires n <= |bytes|
    ensures BitsOf(bytes)[..8 * n] == BitsOf(bytes[..n])
  {
    hide BitOf;
  }

  /** Room behind the bits changes nothing of what went in. */
  lemma SplicedInRoom(before: seq<bool>, room: seq<bool>, from: nat, bits: seq<bool>, after: seq<bool>)
    requires |before| <= |room| && room[..|before|] == before && from + |bits| <= |room|
    requires after == room[..from] + bits + room[from + |bits|..]
    ensures Spliced(before, from, bits, after)
  {
    assert forall k :: 0 <= k < |before| ==> room[..|before|][k] == room[k];
  }

  /** A stream of one byte, all of it read: the next flag is read without an error, from behind it. */
  method FlagBehindEnd(behind: bool) returns (s: BitStream, r: bool)
    ensures r == behind && !s.mError && s.maxReadBitNum == 8 * s.buffer.Length && s.bitNum == s.maxReadBitNum + 1
  {
    s := new BitStream(1, false);
    var ok, out := s.ReadBits(8);
    r := s.ReadFlag(behind);
  }

  function Magnitude(value: int): nat { if value < 0 then -value else value }

  function SignedField(value: int, bitCount: nat): seq<bool>
    requires bitCount > 0
  {
    [value < 0] + Field(Magnitude(value), bitCount - 1)
  }

  /** The sign comes first, and then the magnitude, its bits worth 1, 2, 4 and so on. */
  lemma SignAndMagnitude(value: int, bitCount: nat, k: nat)
    requires bitCount > 0 && k < bitCount - 1
    ensures SignedField(value, bitCount)[0] <==> value < 0
    ensures SignedField(value, bitCount)[1 + k] <==> (if value < 0 then -value else value) / Pow2(k) % 2 == 1
  {
    FieldBit(if value < 0 then -value else value, bitCount - 1, k);
  }

  function SignedValue(bits: seq<bool>): int
    requires |bits| > 0
  {
    if bits[0] then 0 - ValueOf(bits[1..]) else ValueOf(bits[1..])
  }

  /** getNextBinLog2: the fewest bits for numbers below n. */
  function RangeBits(n: nat): nat { if n <= 1 then 0 else 1 + RangeBits((n + 1) / 2) }

  lemma {:induction false} RangeBitsExact(n: nat)
    requires n > 0
    ensures n <= Pow2(RangeBits(n)) && (RangeBits(n) > 0 ==> Pow2(RangeBits(n) - 1) < n)
  {
    if n > 1 { RangeBitsExact((n + 1) / 2); }
  }

  lemma {:induction false} Pow2Plus(a: nat, b: nat)
    ensures Pow2(a + b) == Pow2(a) * Pow2(b)
  {
    if a > 0 { Pow2Plus(a - 1, b); }
  }

  lemma RangeBitsSmall(n: nat)
    requires 0 < n <= 0x1000000
    ensures RangeBits(n) <= 24
  {
    RangeBitsExact(n);
    Pow2Plus(12, 12);
    assert Pow2(12) == 0x1000;
    if RangeBits(n) > 24 { Pow2Grows(24, RangeBits(n) - 1); }
  }

  // ----- any sequence of fields -----

  /** A value with the shape it is written in, which the reader knows too. */
  datatype Item = Flag(b: bool) | Int(v: nat, bits: nat) | Signed(s: int, bits: nat)
    | Ranged(r: nat, from: nat, to: nat)

  ghost predicate Fits(i: Item) {
    match i
    case Flag(_) => true
    case Int(v, n) => v < Pow2(n)
    case Signed(s, n) => n > 0 && Magnitude(s) < Pow2(n - 1)
    case Ranged(r, from, to) => from <= r <= to
  }

  ghost function Encode(i: Item): seq<bool>
    requires Fits(i)
  {
    match i
    case Flag(b) => [b]
    case Int(v, n) => Field(v, n)
    case Signed(s, n) => SignedField(s, n)
    case Ranged(r, from, to) => Field(r - from, RangeBits(to - from + 1))
  }

  ghost function Width(i: Item): nat
    requires Fits(i)
  {
    match i
    case Flag(b) => 1
    case Int(_, n) => n
    case Signed(_, n) => n
    case Ranged(_, from, to) => RangeBits(to - from + 1)
  }

  /** What is read from some bits for an item of the same shape. */
  ghost function Decode(shape: Item, bits: seq<bool>): Item
    requires Fits(shape) && |bits| == Width(shape)
  {
    match shape
    case Flag(_) => Flag(bits[0])
    case Int(_, n) => Int(ValueOf(bits), n)
    case Signed(_, n) => Signed(SignedValue(bits), n)
    case Ranged(_, from, to) => Ranged(if ValueOf(bits) + from > to then from else ValueOf(bits) + from, from, to)
  }

  lemma FieldBack(v: nat, n: nat)
    requires v < Pow2(n)
    ensures ValueOf(Field(v, n)) == v
  {
    FieldValue(v, n);
  }

  lemma SignedBack(s: int, n: nat)
    requires n > 0 && Magnitude(s) < Pow2(n - 1)
    ensures SignedValue(SignedField(s, n)) == s
  {
    hide Field;
    hide ValueOf;
    FieldBack(Magnitude(s), n - 1);
    assert SignedField(s, n)[1..] == Field(Magnitude(s), n - 1);
  }

  lemma ItemRoundTrip(i: Item)
    requires Fits(i)
    ensures |Encode(i)| == Width(i) && Decode(i, Encode(i)) == i
  {
    hide Field;
    hide ValueOf;
    hide Pow2;
    hide SignedValue;
    match i
    case Flag(_) =>
    case Int(v, n) => FieldBack(v, n);
    case Signed(s, n) => SignedBack(s, n);
    case Ranged(r, from, to) =>
      RangeBitsExact(to - from + 1);
      FieldBack(r - from, RangeBits(to - from + 1));
  }

  ghost predicate AllFit(items: seq<Item>) { forall k :: 0 <= k < |items| ==> Fits(items[k]) }

  ghost function EncodeAll(items: seq<Item>): seq<bool>
    requires AllFit(items)
  {
    if items == [] then [] else Encode(items[0]) + EncodeAll(items[1..])
  }

  ghost function DecodeAll(shapes: seq<Item>, bits: seq<bool>): seq<Item>
    requires AllFit(shapes)
  {
    if shapes == [] || |bits| < Width(shapes[0]) then []
    else [Decode(shapes[0], bits[..Width(shapes[0])])] + DecodeAll(shapes[1..], bits[Width(shapes[0])..])
  }

  /** Any sequence of flags, ints, signed ints and ranged ints reads back unchanged. */
  lemma {:induction false} FieldsRoundTrip(items: seq<Item>, rest: seq<bool>)
    requires AllFit(items)
    ensures DecodeAll(items, EncodeAll(items) + rest) == items
    decreases |items|
  {
    hide Encode;
    hide Decode;
    hide Width;
    hide Fits;
    if items != [] {
      ItemRoundTrip(items[0]);
      FieldsRoundTrip(items[1..], rest);
      var bits, w := EncodeAll(items) + rest, Width(items[0]);
      assert bits == Encode(items[0]) + (EncodeAll(items[1..]) + rest);
      assert bits[..w] == Encode(items[0]) && bits[w..] == EncodeAll(items[1..]) + rest;
    }
  }

  lemma NoBits()
    ensures forall s: seq<bool> :: s == [] ==> ValueOf(s) == 0
  {
  }

  lemma FlagByte(d: bv8, i: nat, j: nat, from: nat, val: bool, m: bv8, after: bv8)
    requires i < 8 && from == 8 * j + i && m == Mask(i) && after == if val then d | m else d & !m
    ensures ByteWritten(d, after, j, from, 1, [if val then 1 else 0])
  {
    hide *;
    var source: seq<bv8> := [if val then 1 else 0];
    FlagBits(val);
    forall k: nat | k < 8 ensures BitWritten(d, after, j, k, from, 1, source) {
      MaskBit(i, k);
      if val { OrBit(d, m, k); } else { CutBit(d, m, k); }
      FromBit(d, after, j, k, from, 1, source, 0);
    }
    ByteFromBits(d, after, j, from, 1, source);
  }

  lemma LastPlace(total: nat, dest: nat, r: int)
    requires 0 < r <= 8 && total == 8 * dest + r
    ensures (total - 1) % 8 + 1 == r
  {
  }

  lemma CutBit(d: bv8, m: bv8, k: nat)
    requires k < 8
    ensures BitOf(d & !m, k) <==> BitOf(d, k) && !BitOf(m, k)
  {
    hide *;
    NotBit(m, k);
    AndBit(d, !m, k);
  }

  lemma MaskBit(i: nat, k: nat)
    requires i < 8 && k < 8
    ensures BitOf(Mask(i), k) <==> i == k
  {
  }

  lemma FlagBits(val: bool)
    ensures BitsOf([if val then 1 else 0])[..1] == [val] && BitOf(if val then 1 else 0, 0) == val
  {
  }
}
