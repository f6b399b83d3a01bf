/** Items written to one bit stream and read from another (tnl/bitStream.cpp, tnl/tnlBitStream.h): the
    reader knows the shapes of the items, and gets their values back. */
module BitStreamItems {
  import opened BitFields
  import opened BitStreamObject

  /** The widths and ranges that the stream's methods take. */
  predicate Taken(i: Item) {
    match i
    case Flag(_) => true
    case Int(_, n) => n <= 32
    case Signed(_, n) => 0 < n <= 32
    case Ranged(_, from, to) => from <= to && to - from < 0x1000000
  }

  ghost predicate Sendable(items: seq<Item>) { AllFit(items) && forall k :: 0 <= k < |items| ==> Taken(items[k]) }

  /** An item without its value. */
  function Shape(i: Item): (shape: Item)
    requires Taken(i)
    ensures Fits(shape) && Taken(shape)
  {
    match i
    case Flag(_) => Flag(false)
    case Int(_, n) => Int(0, n)
    case Signed(_, n) => Signed(0, n)
    case Ranged(_, from, to) => Ranged(from, from, to)
  }

  function Shapes(items: seq<Item>): (shapes: seq<Item>)
    requires forall k :: 0 <= k < |items| ==> Taken(items[k])
    ensures |shapes| == |items| && Sendable(shapes)
  {
    seq(|items|, k requires 0 <= k < |items| => Shape(items[k]))
  }

  ghost function TotalWidth(items: seq<Item>): nat
    requires AllFit(items)
  {
    if items == [] then 0 else Width(items[0]) + TotalWidth(items[1..])
  }

  /** A ranged item is read with an error if the bits are of a number beyond the range. */
  ghost predicate BeyondRange(shape: Item, bits: seq<bool>) {
    shape.Ranged? && ValueOf(bits) + shape.from > shape.to
  }

  ghost predicate InRange(shapes: seq<Item>, bits: seq<bool>)
    requires AllFit(shapes)
  {
    shapes == [] || |bits| < Width(shapes[0])
    || (!BeyondRange(shapes[0], bits[..Width(shapes[0])]) && InRange(shapes[1..], bits[Width(shapes[0])..]))
  }

  // ----- writing -----

  method WriteItem(s: BitStream, i: Item)
    requires s.Valid() && s.bitNum <= s.maxWriteBitNum && Fits(i) && Taken(i) && s.CanTake(Width(i))
    modifies s, s.buffer
    ensures s.Valid() && s.bitNum <= s.maxWriteBitNum && (s.buffer == old(s.buffer) || fresh(s.buffer))
    ensures if s.ownsMemory then true else s.maxWriteBitNum == old(s.maxWriteBitNum)
    ensures s.mError == old(s.mError) && s.bitNum == old(s.bitNum) + Width(i)
    ensures Spliced(old(s.Bits()), old(s.bitNum), Encode(i), s.Bits())
  {
    hide Field;
    hide BitsOf;
    match i
    case Flag(b) => var _ := s.WriteFlag(b);
    case Int(v, n) => s.WriteInt(v, n);
    case Signed(v, n) => s.WriteSignedInt(v, n);
    case Ranged(r, from, to) => s.WriteRangedU32(r, from, to);
  }

  /** The items go behind what was written. */
  method WriteItems(s: BitStream, items: seq<Item>)
    requires s.Valid() && s.bitNum <= s.maxWriteBitNum && Sendable(items) && s.CanTake(TotalWidth(items))
    modifies s, s.buffer
    ensures s.Valid() && s.bitNum <= s.maxWriteBitNum && (s.buffer == old(s.buffer) || fresh(s.buffer))
    ensures s.mError == old(s.mError) && s.bitNum == old(s.bitNum) + TotalWidth(items)
    ensures s.Written() == old(s.Written()) + EncodeAll(items)
  {
    hide Fits;
    hide Width;
    hide Encode;
    hide EncodeAll;
    hide TotalWidth;
    hide BitsOf;
    hide Spliced;
    ghost var start, before := s.bitNum, s.Written();
    NoItems(before, items);
    var k := 0;
    while k < |items|
      invariant 0 <= k <= |items| && s.Valid() && s.bitNum <= s.maxWriteBitNum
      invariant s.buffer == old(s.buffer) || fresh(s.buffer)
      invariant s.ownsMemory || s.maxWriteBitNum == old(s.maxWriteBitNum)
      invariant s.mError == old(s.mError) && s.bitNum + TotalWidth(items[k..]) == start + TotalWidth(items)
      invariant s.Written() == before + EncodeAll(items[..k])
    {
      ItemNext(items, k);
      ghost var bits, at := s.Bits(), s.bitNum;
      WriteItem(s, items[k]);
      SplicedPrefix(bits, at, Encode(items[k]), s.Bits());
      ItemRoundTrip(items[k]);
      assert s.Written() == before + EncodeAll(items[..k]) + Encode(items[k]);
      assert s.Written() == before + (EncodeAll(items[..k]) + Encode(items[k]));
      k := k + 1;
    }
    assert items[..k] == items && items[k..] == [];
  }

  lemma NoItems(before: seq<bool>, items: seq<Item>)
    requires AllFit(items)
    ensures items[..0] == [] && items[0..] == items && items[|items|..] == []
    ensures before + EncodeAll([]) == before && TotalWidth([]) == 0
  {
  }

  /** Taking one more item. */
  lemma ItemNext(items: seq<Item>, k: nat)
    requires AllFit(items) && k < |items|
    ensures EncodeAll(items[..k + 1]) == EncodeAll(items[..k]) + Encode(items[k])
    ensures TotalWidth(items[k..]) == Width(items[k]) + TotalWidth(items[k + 1..])
  {
    EncodedLast(items[..k], items[k]);
    assert items[..k + 1] == items[..k] + [items[k]] && items[k..][1..] == items[k + 1..];
  }

  lemma {:induction false} EncodedLast(items: seq<Item>, i: Item)
    requires AllFit(items) && Fits(i)
    ensures EncodeAll(items + [i]) == EncodeAll(items) + Encode(i)
    decreases |items|
  {
    hide Encode;
    hide Fits;
    if items == [] {
      assert [i][1..] == [];
    } else {
      EncodedLast(items[1..], i);
      assert (items + [i])[1..] == items[1..] + [i];
    }
  }

  // ----- reading -----

  method ReadItem(s: BitStream, shape: Item) returns (i: Item)
    requires s.Valid() && Fits(shape) && Taken(shape) && s.bitNum + Width(shape) <= s.maxReadBitNum
    modifies s`bitNum, s`mError
    ensures s.bitNum == old(s.bitNum) + Width(shape)
    ensures var bits := s.Bits()[old(s.bitNum)..s.bitNum];
      i == Decode(shape, bits) && s.mError == (old(s.mError) || BeyondRange(shape, bits))
  {
    hide ValueOf;
    hide BitsOf;
    match shape
    case Flag(_) =>
      var b := s.ReadFlag(false);
      i := Flag(b);
    case Int(_, n) =>
      var v := s.ReadInt(n);
      i := Int(v, n);
    case Signed(_, n) =>
      var v := s.ReadSignedInt(n, false);
      i := Signed(v, n);
    case Ranged(_, from, to) =>
      ghost var start := s.bitNum;
      var r := s.ReadRangedU32(from, to);
      NoWidth(s.Bits()[start..s.bitNum], to - from + 1);
      i := Ranged(r, from, to);
  }

  /** A range of one number takes no bits. */
  lemma NoWidth(bits: seq<bool>, n: nat)
    requires n > 0
    ensures bits == [] ==> ValueOf(bits) == 0
    ensures RangeBits(n) == 0 ==> n == 1
  {
    RangeBitsExact(n);
  }

  method ReadItems(s: BitStream, shapes: seq<Item>) returns (items: seq<Item>)
    requires s.Valid() && Sendable(shapes) && s.bitNum + TotalWidth(shapes) <= s.maxReadBitNum
    modifies s`bitNum, s`mError
    ensures s.bitNum == old(s.bitNum) + TotalWidth(shapes)
    ensures var bits := s.Bits()[old(s.bitNum)..s.bitNum];
      items == DecodeAll(shapes, bits) && s.mError == (old(s.mError) || !InRange(shapes, bits))
  {
    hide Fits;
    hide Width;
    hide Decode;
    hide BitsOf;
    hide BeyondRange;
    hide Reading;
    ghost var start, end, bits, was := s.bitNum, s.bitNum + TotalWidth(shapes), s.Bits(), s.mError;
    items := [];
    ReadNone(shapes, bits, start, end, was);
    var k := 0;
    while k < |shapes|
      invariant 0 <= k <= |shapes| && s.bitNum + TotalWidth(shapes[k..]) == end
      invariant Reading(shapes, k, bits, s.bitNum, end, items, s.mError, start, was)
    {
      ghost var from, error := s.bitNum, s.mError;
      ReadNext(shapes, k, bits, from, end);
      var item := ReadItem(s, shapes[k]);
      ReadOne(shapes, k, bits, from, end, items, error, start, was, item, s.mError);
      items := items + [item];
      k := k + 1;
    }
    ReadAll(shapes, bits, s.bitNum, end, items, s.mError, start, was);
  }

  /** What was read of the bits from `start` to `end`, and what is left from `from` on. */
  ghost predicate Reading(shapes: seq<Item>, k: nat, bits: seq<bool>, from: nat, end: nat, items: seq<Item>,
                          error: bool, start: nat, was: bool)
    requires AllFit(shapes) && k <= |shapes|
  {
    && start <= from <= end <= |bits|
    && items + DecodeAll(shapes[k..], bits[from..end]) == DecodeAll(shapes, bits[start..end])
    && (error || !InRange(shapes[k..], bits[from..end]) <==> was || !InRange(shapes, bits[start..end]))
  }

  lemma ReadNone(shapes: seq<Item>, bits: seq<bool>, start: nat, end: nat, was: bool)
    requires AllFit(shapes) && start <= end <= |bits|
    ensures shapes[0..] == shapes && Reading(shapes, 0, bits, start, end, [], was, start, was)
  {
    var all := DecodeAll(shapes, bits[start..end]);
    assert shapes[0..] == shapes && [] + all == all;
  }

  /** The first item of those left. */
  lemma ReadNext(shapes: seq<Item>, k: nat, bits: seq<bool>, from: nat, end: nat)
    requires AllFit(shapes) && k < |shapes| && from <= end <= |bits| && end - from == TotalWidth(shapes[k..])
    ensures var to := from + Width(shapes[k]);
      && to <= end && end - to == TotalWidth(shapes[k + 1..])
      && DecodeAll(shapes[k..], bits[from..end])
         == [Decode(shapes[k], bits[from..to])] + DecodeAll(shapes[k + 1..], bits[to..end])
      && (InRange(shapes[k..], bits[from..end]) <==>
           !BeyondRange(shapes[k], bits[from..to]) && InRange(shapes[k + 1..], bits[to..end]))
  {
    hide Width;
    hide Fits;
    hide Decode;
    hide BeyondRange;
    var w, rest := Width(shapes[k]), bits[from..end];
    assert shapes[k..][1..] == shapes[k + 1..];
    assert rest[..w] == bits[from..from + w] && rest[w..] == bits[from + w..end];
  }

  lemma ReadOne(shapes: seq<Item>, k: nat, bits: seq<bool>, from: nat, end: nat, items: seq<Item>, error: bool,
                start: nat, was: bool, item: Item, error': bool)
    requires AllFit(shapes) && k < |shapes| && Reading(shapes, k, bits, from, end, items, error, start, was)
    requires end - from == TotalWidth(shapes[k..]) && from + Width(shapes[k]) <= end
    requires var read := bits[from..from + Width(shapes[k])];
      item == Decode(shapes[k], read) && error' == (error || BeyondRange(shapes[k], read))
    ensures Reading(shapes, k + 1, bits, from + Width(shapes[k]), end, items + [item], error', start, was)
  {
    ReadNext(shapes, k, bits, from, end);
    hide Width;
    hide Fits;
    hide Decode;
    hide DecodeAll;
    hide InRange;
    hide TotalWidth;
    var rest := DecodeAll(shapes[k + 1..], bits[from + Width(shapes[k])..end]);
    assert items + ([item] + rest) == items + [item] + rest;
  }

  lemma ReadAll(shapes: seq<Item>, bits: seq<bool>, from: nat, end: nat, items: seq<Item>, error: bool, start: nat,
                was: bool)
    requires AllFit(shapes) && Reading(shapes, |shapes|, bits, from, end, items, error, start, was)
    requires from + TotalWidth(shapes[|shapes|..]) == end
    ensures from == end && items == DecodeAll(shapes, bits[start..end])
    ensures error <==> was || !InRange(shapes, bits[start..end])
  {
    assert shapes[|shapes|..] == [] && items + [] == items;
  }

  // ----- through two streams -----

  /** Reading by shape reads the items. */
  lemma {:induction false} ShapesRead(items: seq<Item>, bits: seq<bool>)
    requires Sendable(items)
    ensures AllFit(Shapes(items)) && TotalWidth(Shapes(items)) == TotalWidth(items)
    ensures DecodeAll(Shapes(items), bits) == DecodeAll(items, bits)
    ensures InRange(Shapes(items), bits) <==> InRange(items, bits)
    decreases |items|
  {
    hide Width;
    hide Fits;
    hide Decode;
    hide Shape;
    hide BeyondRange;
    if items != [] {
      var w := Width(items[0]);
      assert Shapes(items)[0] == Shape(items[0]) && Shapes(items)[1..] == Shapes(items[1..]);
      ShapeReads(items[0], if |bits| < w then seq(w, _ => false) else bits[..w]);
      ShapesRead(items[1..], if |bits| < w then bits else bits[w..]);
    }
  }

  lemma ShapeReads(i: Item, bits: seq<bool>)
    requires Fits(i) && Taken(i) && |bits| == Width(i)
    ensures Width(Shape(i)) == Width(i) && Decode(Shape(i), bits) == Decode(i, bits)
    ensures BeyondRange(Shape(i), bits) <==> BeyondRange(i, bits)
  {
    hide ValueOf;
    hide SignedValue;
    hide RangeBits;
  }

  /** What was written of a ranged item is within the range. */
  lemma {:induction false} WrittenInRange(items: seq<Item>)
    requires AllFit(items)
    ensures |EncodeAll(items)| == TotalWidth(items) && InRange(items, EncodeAll(items))
    decreases |items|
  {
    hide Field;
    hide ValueOf;
    if items != [] {
      var i, rest := items[0], EncodeAll(items[1..]);
      ItemRoundTrip(i);
      WrittenInRange(items[1..]);
      assert EncodeAll(items)[..Width(i)] == Encode(i) && EncodeAll(items)[Width(i)..] == rest;
      if i.Ranged? {
        RangeBitsExact(i.to - i.from + 1);
        FieldBack(i.r - i.from, RangeBits(i.to - i.from + 1));
      }
    }
  }

  /** Any sequence of flags, ints, signed ints and ranged ints, written to a stream that grows, comes back
      from another stream over the same memory to a reader who knows only their shapes, without an error. */
  method WriteThenRead(items: seq<Item>) returns (copy: seq<Item>, reader: BitStream)
    requires Sendable(items)
    ensures copy == items && !reader.mError && reader.bitNum == TotalWidth(items)
  {
    hide Fits;
    hide Width;
    hide BitsOf;
    hide TotalWidth;
    hide EncodeAll;
    hide DecodeAll;
    hide InRange;
    var writer := new BitStream(0, true);
    assert writer.Written() == [];
    WriteItems(writer, items);
    reader := new BitStream.Over(writer.buffer, writer.buffer.Length, writer.buffer.Length);
    var shapes := Shapes(items);
    ghost var bits := EncodeAll(items);
    ShapesRead(items, bits);
    WrittenInRange(items);
    assert [] + bits == bits;
    copy := ReadItems(reader, shapes);
    FieldsRoundTrip(items, []);
    assert bits + [] == bits;
  }
}
