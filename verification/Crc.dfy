/** calculateCRC (tnl/byteBuffer.cpp): the table-driven CRC and the bit-at-a-time division it stands
    for.  The polynomial is that of the sample code in section 8 of RFC 1952, reflected. */
module Crc {
  const POLYNOMIAL: bv32 := 0xedb88320

  function Xor(a: bv32, b: bv32): bv32 { a ^ b }

  function Half(a: bv32): bv32 { a >> 1 }

  predicate Odd(a: bv32) { a & 1 != 0 }

  function Word(b: bv8): bv32 { b as bv32 }

  // ----- the reference: one message bit at a time -----

  /** One step of the division: the bit that leaves decides whether the polynomial is subtracted. */
  function Shift(crc: bv32): bv32 { if Odd(crc) then Xor(POLYNOMIAL, Half(crc)) else Half(crc) }

  function BitStep(crc: bv32, bit: bool): bv32 { Shift(Xor(crc, if bit then 1 else 0)) }

  function BitCrc(crc: bv32, bits: seq<bool>): bv32
    decreases |bits|
  {
    if bits == [] then crc else BitCrc(BitStep(crc, bits[0]), bits[1..])
  }

  /** The bits of a byte in the order they are divided, the least significant first. */
  function ByteBits(b: bv8): seq<bool> {
    [b & 1 != 0, b & 2 != 0, b & 4 != 0, b & 8 != 0, b & 16 != 0, b & 32 != 0, b & 64 != 0, b & 128 != 0]
  }

  function MessageBits(bytes: seq<bv8>): seq<bool> {
    if bytes == [] then [] else ByteBits(bytes[0]) + MessageBits(bytes[1..])
  }

  // ----- a byte at a time -----

  function Shift4(crc: bv32): bv32 { Shift(Shift(Shift(Shift(crc)))) }

  function Shift8(crc: bv32): bv32 { Shift4(Shift4(crc)) }

  function ByteStep(crc: bv32, b: bv8): bv32 { Shift8(Xor(crc, Word(b))) }

  function ByteCrc(crc: bv32, bytes: seq<bv8>): bv32
    decreases |bytes|
  {
    if bytes == [] then crc else ByteCrc(ByteStep(crc, bytes[0]), bytes[1..])
  }

  lemma XorFacts(a: bv32, b: bv32)
    ensures Half(Xor(a, b)) == Xor(Half(a), Half(b))
    ensures Odd(Xor(a, b)) <==> Odd(a) != Odd(b)
  {
  }

  lemma XorAssociates(a: bv32, b: bv32, c: bv32)
    ensures Xor(Xor(a, b), c) == Xor(a, Xor(b, c))
  {
  }

  lemma XorCommutes(a: bv32, b: bv32)
    ensures Xor(a, b) == Xor(b, a) && Xor(a, a) == 0 && Xor(0, b) == b
  {
  }

  lemma XorMoves(p: bv32, x: bv32, y: bv32)
    ensures Xor(Xor(p, x), Xor(p, y)) == Xor(x, y) && Xor(Xor(p, x), y) == Xor(p, Xor(x, y))
    ensures Xor(x, Xor(p, y)) == Xor(p, Xor(x, y))
  {
    hide Xor;
    XorAssociates(p, x, y);
    XorAssociates(x, p, y);
    XorCommutes(x, p);
    XorAssociates(Xor(p, x), p, y);
    XorAssociates(x, p, p);
    XorCommutes(p, p);
    XorCommutes(p, x);
    XorCommutes(x, 0);
  }

  /** Division distributes over exclusive or. */
  lemma Linear(a: bv32, b: bv32)
    ensures Shift(Xor(a, b)) == Xor(Shift(a), Shift(b))
  {
    hide Xor;
    hide Half;
    hide Odd;
    XorFacts(a, b);
    XorMoves(POLYNOMIAL, Half(a), Half(b));
  }

  function LowBit(x: bv32): bv32 { if Odd(x) then 1 else 0 }

  function Even(x: bv32): bv32 { x & 0xfffffffe }

  lemma EvenShifts(x: bv32)
    ensures Shift(Even(x)) == Half(x)
  {
  }

  lemma LowAndEven(x: bv32)
    ensures Xor(LowBit(x), Even(x)) == x
  {
  }

  lemma Parts(crc: bv32, x: bv32)
    ensures Xor(crc, x) == Xor(Xor(crc, LowBit(x)), Even(x)) && Shift(Even(x)) == Half(x)
  {
    hide Xor;
    hide Even;
    hide LowBit;
    LowAndEven(x);
    EvenShifts(x);
    XorAssociates(crc, LowBit(x), Even(x));
  }

  /** The low bit of x goes in now, the others move down to wait. */
  lemma Down(crc: bv32, x: bv32)
    ensures Shift(Xor(crc, x)) == Xor(BitStep(crc, Odd(x)), Half(x))
  {
    hide Xor;
    hide Half;
    hide Odd;
    hide Even;
    Parts(crc, x);
    Linear(Xor(crc, LowBit(x)), Even(x));
  }

  lemma Down4(crc: bv32, x: bv32)
    ensures var x1 := Half(x); var x2 := Half(x1); var x3 := Half(x2);
      Shift4(Xor(crc, x)) == Xor(BitStep(BitStep(BitStep(BitStep(crc, Odd(x)), Odd(x1)), Odd(x2)), Odd(x3)), Half(x3))
  {
    hide Xor;
    hide Half;
    hide Odd;
    hide Shift;
    hide BitStep;
    Down(crc, x);
    Down(BitStep(crc, Odd(x)), Half(x));
    Down(BitStep(BitStep(crc, Odd(x)), Odd(Half(x))), Half(Half(x)));
    Down(BitStep(BitStep(BitStep(crc, Odd(x)), Odd(Half(x))), Odd(Half(Half(x)))), Half(Half(Half(x))));
  }

  lemma BitCrc4(crc: bv32, s: seq<bool>)
    requires |s| >= 4
    ensures BitCrc(crc, s) == BitCrc(BitStep(BitStep(BitStep(BitStep(crc, s[0]), s[1]), s[2]), s[3]), s[4..])
  {
    hide BitStep;
    var c1 := BitStep(crc, s[0]);
    var c2 := BitStep(c1, s[1]);
    var c3 := BitStep(c2, s[2]);
    assert BitCrc(c1, s[1..]) == BitCrc(c2, s[2..]) by { assert s[1..][1..] == s[2..]; }
    assert BitCrc(c2, s[2..]) == BitCrc(c3, s[3..]) by { assert s[2..][1..] == s[3..]; }
    assert s[3..][1..] == s[4..];
  }

  lemma ByteWaits(b: bv8)
    ensures var x := Word(b); var x1 := Half(x); var x2 := Half(x1); var x3 := Half(x2); var x4 := Half(x3);
      var s := ByteBits(b);
      s[0] == Odd(x) && s[1] == Odd(x1) && s[2] == Odd(x2) && s[3] == Odd(x3)
  {
  }

  lemma ByteWaitsMore(b: bv8)
    ensures var x4 := Half(Half(Half(Half(Word(b))))); var x5 := Half(x4); var x6 := Half(x5); var x7 := Half(x6);
      var s := ByteBits(b);
      s[4] == Odd(x4) && s[5] == Odd(x5) && s[6] == Odd(x6) && s[7] == Odd(x7) && Half(x7) == 0
  {
  }

  lemma XorZero(x: bv32)
    ensures Xor(x, 0) == x
  {
  }

  /** Eight message bits and one message byte do the same. */
  lemma ByteStepIsBits(crc: bv32, b: bv8)
    ensures BitCrc(crc, ByteBits(b)) == ByteStep(crc, b)
  {
    ByteWaits(b);
    ByteWaitsMore(b);
    EightBits(crc, Word(b), ByteBits(b));
  }

  lemma EightBits(crc: bv32, x: bv32, s: seq<bool>)
    requires var x1 := Half(x); var x2 := Half(x1); var x3 := Half(x2); var x4 := Half(x3); var x5 := Half(x4);
      var x6 := Half(x5); var x7 := Half(x6);
      && |s| == 8 && s[0] == Odd(x) && s[1] == Odd(x1) && s[2] == Odd(x2) && s[3] == Odd(x3)
      && s[4] == Odd(x4) && s[5] == Odd(x5) && s[6] == Odd(x6) && s[7] == Odd(x7) && Half(x7) == 0
    ensures BitCrc(crc, s) == Shift8(Xor(crc, x))
  {
    hide Xor;
    hide Half;
    hide Odd;
    hide Shift4;
    hide BitStep;
    var x4 := Half(Half(Half(Half(x))));
    Down4(crc, x);
    BitCrc4(crc, s);
    var c := BitStep(BitStep(BitStep(BitStep(crc, s[0]), s[1]), s[2]), s[3]);
    Down4(c, x4);
    BitCrc4(c, s[4..]);
    assert s[4..][4..] == [];
    var d := BitStep(BitStep(BitStep(BitStep(c, s[4]), s[5]), s[6]), s[7]);
    XorZero(d);
  }

  lemma {:induction false} BitCrcAppend(crc: bv32, a: seq<bool>, b: seq<bool>)
    ensures BitCrc(crc, a + b) == BitCrc(BitCrc(crc, a), b)
    decreases |a|
  {
    hide BitStep;
    if a == [] { assert a + b == b; }
    else {
      assert (a + b)[1..] == a[1..] + b;
      BitCrcAppend(BitStep(crc, a[0]), a[1..], b);
    }
  }

  /** A byte at a time is the same as a bit at a time. */
  lemma {:induction false} ByteCrcIsBits(crc: bv32, bytes: seq<bv8>)
    ensures ByteCrc(crc, bytes) == BitCrc(crc, MessageBits(bytes))
    decreases |bytes|
  {
    hide ByteStep;
    hide BitStep;
    hide ByteBits;
    if bytes != [] {
      ByteStepIsBits(crc, bytes[0]);
      BitCrcAppend(crc, ByteBits(bytes[0]), MessageBits(bytes[1..]));
      ByteCrcIsBits(ByteStep(crc, bytes[0]), bytes[1..]);
    }
  }

  lemma {:induction false} ByteCrcAppend(crc: bv32, a: seq<bv8>, b: seq<bv8>)
    ensures ByteCrc(crc, a + b) == ByteCrc(ByteCrc(crc, a), b)
    decreases |a|
  {
    hide ByteStep;
    if a == [] { assert a + b == b; }
    else {
      assert (a + b)[1..] == a[1..] + b;
      ByteCrcAppend(ByteStep(crc, a[0]), a[1..], b);
    }
  }

  /** Splitting a range and chaining gives the CRC of the whole range. */
  lemma Chained(crc: bv32, bytes: seq<bv8>, m: nat)
    requires m <= |bytes|
    ensures BitCrc(crc, MessageBits(bytes)) == BitCrc(BitCrc(crc, MessageBits(bytes[..m])), MessageBits(bytes[m..]))
  {
    hide BitCrc;
    hide MessageBits;
    hide ByteCrc;
    assert bytes == bytes[..m] + bytes[m..];
    ByteCrcAppend(crc, bytes[..m], bytes[m..]);
    ByteCrcIsBits(crc, bytes);
    ByteCrcIsBits(crc, bytes[..m]);
    ByteCrcIsBits(BitCrc(crc, MessageBits(bytes[..m])), bytes[m..]);
  }

  // ----- ranges of a buffer -----

  /** The CRC of the bytes from start to end as calculateCRC defines it: a range that starts beyond
      the last byte gives 0, and one that ends beyond it is cut. */
  ghost function RangeCrc(buffer: seq<bv8>, start: nat, end: nat, crcVal: bv32): bv32 {
    var to := if end > |buffer| then |buffer| else end;
    if start >= |buffer| then 0
    else if start <= to then BitCrc(crcVal, MessageBits(buffer[start..to]))
    else crcVal
  }

  /** Splitting a range at m and chaining gives the CRC of the whole exactly if the second part
      starts within the buffer, or the whole is 0 anyway. */
  lemma ChainedExactly(buffer: seq<bv8>, start: nat, m: nat, end: nat, crcVal: bv32)
    requires start <= m <= end
    ensures RangeCrc(buffer, m, end, RangeCrc(buffer, start, m, crcVal)) == RangeCrc(buffer, start, end, crcVal)
       <==> m < |buffer| || start >= |buffer| || RangeCrc(buffer, start, end, crcVal) == 0
  {
    hide BitCrc;
    hide MessageBits;
    if m < |buffer| {
      var to := if end > |buffer| then |buffer| else end;
      var range := buffer[start..to];
      Chained(crcVal, range, m - start);
      assert range[..m - start] == buffer[start..m] && range[m - start..] == buffer[m..to];
    }
  }

  /** The first byte continued by the empty rest of the buffer: 0 instead of the CRC. */
  lemma ChainedFails()
    ensures RangeCrc([0], 1, 1, RangeCrc([0], 0, 1, 1)) == 0
    ensures RangeCrc([0], 0, 1, 1) == 0x77073096
  {
    var bytes: seq<bv8> := [0];
    assert bytes[0..1] == bytes;
    ByteStepIsBits(1, 0);
    assert MessageBits(bytes) == ByteBits(0) + MessageBits(bytes[1..]) && bytes[1..] == [];
    assert ByteBits(0) + [] == ByteBits(0);
    hide BitCrc;
    hide BitStep;
    OneShifted();
  }

  lemma OneShifted()
    ensures ByteStep(1, 0) == 0x77073096
  {
  }

  // ----- the table -----

  function LowByte(x: bv32): bv32 { x & 0xff }

  function Above(x: bv32): bv32 { x >> 8 }

  lemma Linear4(a: bv32, b: bv32)
    ensures Shift4(Xor(a, b)) == Xor(Shift4(a), Shift4(b))
  {
    hide Shift;
    hide Xor;
    Linear(a, b);
    Linear(Shift(a), Shift(b));
    Linear(Shift(Shift(a)), Shift(Shift(b)));
    Linear(Shift(Shift(Shift(a))), Shift(Shift(Shift(b))));
  }

  lemma HighShift(x: bv32)
    ensures Shift8(x & 0xffffff00) == Above(x) && Xor(LowByte(x), x & 0xffffff00) == x
  {
  }

  /** The low byte is looked up, the rest moves down. */
  lemma HighByte(x: bv32)
    ensures Shift8(x) == Xor(Shift8(LowByte(x)), Above(x))
  {
    HighShift(x);
    hide Shift4;
    hide Xor;
    hide LowByte;
    var hi := x & 0xffffff00;
    Linear4(LowByte(x), hi);
    Linear4(Shift4(LowByte(x)), Shift4(hi));
  }

  lemma AboveByte(crc: bv32, b: bv8)
    ensures Above(Xor(crc, Word(b))) == Above(crc)
  {
  }

  lemma TableStep(crc: bv32, b: bv8)
    ensures ByteStep(crc, b) == Xor(Shift8(LowByte(Xor(crc, Word(b)))), Above(crc))
  {
    hide Shift8;
    hide Xor;
    hide LowByte;
    hide Above;
    HighByte(Xor(crc, Word(b)));
    AboveByte(crc, b);
  }

  class ByteBuffer {
    const buffer: array<bv8>
    var crcTable: seq<bv32>

    ghost predicate TableValid()
      reads this
    {
      crcTable == [] || (|crcTable| == 256 && forall k: nat :: k < 256 ==> crcTable[k] == Shift8(k as bv32))
    }

    method BuildTable()
      modifies `crcTable
      ensures TableValid() && |crcTable| == 256
    {
      hide Shift;
      crcTable := [];
      var i := 0;
      while i < 256
        invariant 0 <= i <= 256 && |crcTable| == i
        invariant forall k: nat :: k < i ==> crcTable[k] == Shift8(k as bv32)
      {
        var val := i as bv32;
        var j := 0;
        while j < 8
          invariant 0 <= j <= 8 && val == Times(i as bv32, j)
        {
          val := Shift(val);
          j := j + 1;
        }
        EightTimes(i as bv32);
        crcTable := crcTable + [val];
        i := i + 1;
      }
    }

    /** The CRC of the bytes from start to end, continued from crcVal. */
    method CalculateCRC(start: nat, end: nat, crcVal: bv32) returns (crc: bv32)
      requires TableValid()
      modifies `crcTable
      ensures TableValid()
      ensures crc == RangeCrc(buffer[..], start, end, crcVal)
    {
      hide ByteStep;
      hide Xor;
      hide LowByte;
      hide Above;
      hide Shift8;
      hide MessageBits;
      hide BitCrc;
      if crcTable == [] { BuildTable(); }
      if start >= buffer.Length { return 0; }
      var to := if end > buffer.Length then buffer.Length else end;
      crc := crcVal;
      var i := start;
      while i < to
        invariant start <= i && (i <= to || i == start)
        invariant TableValid() && |crcTable| == 256
        invariant start <= to ==> crc == ByteCrc(crcVal, buffer[start..i])
        invariant start > to ==> crc == crcVal
      {
        assert buffer[start..i + 1] == buffer[start..i] + [buffer[i]];
        ByteCrcAppend(crcVal, buffer[start..i], [buffer[i]]);
        TableStep(crc, buffer[i]);
        var index := LowByte(Xor(crc, Word(buffer[i])));
        Indexed(Xor(crc, Word(buffer[i])));
        crc := Xor(crcTable[index as int], Above(crc));
        i := i + 1;
      }
      if start <= to {
        ByteCrcIsBits(crcVal, buffer[start..to]);
        assert buffer[..][start..to] == buffer[start..to];
      }
    }
  }

  lemma Indexed(x: bv32)
    ensures (LowByte(x) as int) < 256 && (LowByte(x) as int) as bv32 == LowByte(x)
  {
    assert LowByte(x) <= 0xff;
  }

  /** n steps of the division without message bits. */
  function Times(crc: bv32, n: nat): bv32
    decreases n
  {
    if n == 0 then crc else Shift(Times(crc, n - 1))
  }

  lemma EightTimes(crc: bv32)
    ensures Times(crc, 8) == Shift8(crc)
  {
    hide Shift;
    assert Times(crc, 4) == Shift4(crc);
    assert Times(crc, 8) == Shift(Shift(Shift(Shift(Times(crc, 4)))));
  }

  lemma Divides(crc: bv32, a: bv8, b: bv8, c: bv8, rest: seq<bv8>, crc': bv32)
    requires ByteStep(ByteStep(ByteStep(crc, a), b), c) == crc'
    ensures ByteCrc(crc, [a, b, c] + rest) == ByteCrc(crc', rest)
  {
    hide ByteStep;
    var bytes := [a, b, c] + rest;
    assert bytes[1..] == [b, c] + rest && bytes[1..][1..] == [c] + rest && bytes[1..][1..][1..] == rest;
    assert ByteCrc(crc, bytes) == ByteCrc(ByteStep(crc, a), [b, c] + rest);
    assert ByteCrc(ByteStep(crc, a), [b, c] + rest) == ByteCrc(ByteStep(ByteStep(crc, a), b), [c] + rest);
  }

  /** The nine bytes "123456789": the complement of their CRC-32, 0xcbf43926. */
  lemma CheckValue()
    ensures var message: seq<bv8> := [0x31, 0x32, 0x33, 0x34, 0x35, 0x36, 0x37, 0x38, 0x39];
      BitCrc(0xffffffff, MessageBits(message)) == !0xcbf43926
  {
    hide ByteCrc;
    hide ByteStep;
    hide MessageBits;
    hide BitCrc;
    CheckSteps();
    var last: seq<bv8> := [0x37, 0x38, 0x39];
    Divides(0xffffffff, 0x31, 0x32, 0x33, [0x34, 0x35, 0x36] + (last + []), 0x77b79c2d);
    Divides(0x77b79c2d, 0x34, 0x35, 0x36, last + [], 0xf68d2c9e);
    Divides(0xf68d2c9e, 0x37, 0x38, 0x39, [], 0x340bc6d9);
    ByteCrcNone(0x340bc6d9);
    var message: seq<bv8> := [0x31, 0x32, 0x33, 0x34, 0x35, 0x36, 0x37, 0x38, 0x39];
    assert message == [0x31, 0x32, 0x33] + ([0x34, 0x35, 0x36] + (last + []));
    ByteCrcIsBits(0xffffffff, message);
  }

  lemma ByteCrcNone(crc: bv32)
    ensures ByteCrc(crc, []) == crc
  {
  }

  lemma CheckSteps()
    ensures ByteStep(ByteStep(ByteStep(0xffffffff, 0x31), 0x32), 0x33) == 0x77b79c2d
    ensures ByteStep(ByteStep(ByteStep(0x77b79c2d, 0x34), 0x35), 0x36) == 0xf68d2c9e
    ensures ByteStep(ByteStep(ByteStep(0xf68d2c9e, 0x37), 0x38), 0x39) == 0x340bc6d9
  {
  }
}
