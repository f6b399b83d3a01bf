/** writeString and readString (tnl/bitStream.cpp): a string is sent as the length of the prefix it
    shares with the string before it, and the rest. */
module SharedPrefixStrings {
  import opened HuffmanTree
  import opened HuffmanStringProcessorObject
  import opened BitFields

  // ----- what is written, given the string before -----

  /** Characters of a C string. */
  ghost predicate Text(s: seq<nat>) { forall k :: 0 <= k < |s| ==> 0 < s[k] < SYMBOLS }

  function Cut(s: seq<nat>, maxLen: nat): seq<nat> { if |s| < maxLen then s else s[..maxLen] }

  /** The C string that some characters hold: those before the first zero. */
  ghost function CString(s: seq<nat>): (c: seq<nat>)
    ensures |c| <= |s| && c == s[..|c|] && (|c| < |s| ==> s[|c|] == 0)
    ensures forall k :: 0 <= k < |c| ==> c[k] != 0
  {
    if s == [] || s[0] == 0 then []
    else
      var rest := CString(s[1..]);
      assert s[..1 + |rest|] == [s[0]] + s[1..][..|rest|];
      [s[0]] + rest
  }

  lemma WholeCString(s: seq<nat>)
    requires Text(s)
    ensures CString(s) == s
  {
  }

  /** How many characters the strings have in common at the beginning, at most maxLen. */
  ghost function Shared(last: seq<nat>, s: seq<nat>, maxLen: nat): (j: nat)
    ensures j <= |last| && j <= |s| && j <= maxLen && last[..j] == s[..j]
  {
    if last == [] || s == [] || maxLen == 0 || last[0] != s[0] then 0
    else
      var j := Shared(last[1..], s[1..], maxLen - 1);
      assert last[..1 + j] == [last[0]] + last[1..][..j] && s[..1 + j] == [s[0]] + s[1..][..j];
      1 + j
  }

  /** That is as many as they have. */
  lemma {:induction false} SharedLongest(last: seq<nat>, s: seq<nat>, maxLen: nat)
    ensures var j := Shared(last, s, maxLen);
      && j <= |last| && j <= |s| && j <= maxLen && last[..j] == s[..j]
      && (j == |last| || j == |s| || j == maxLen || last[j] != s[j])
  {
    if last != [] && s != [] && maxLen > 0 && last[0] == s[0] { SharedLongest(last[1..], s[1..], maxLen - 1); }
  }

  ghost function Wire(t: Tree, last: seq<nat>, s: seq<nat>, maxLen: nat): seq<bool>
    requires Complete(t) && Bytes(s)
  {
    var j := Shared(last, s, maxLen);
    if j > 2 then [true] + Field(j, 8) + Encoded(t, Cut(s[j..], maxLen - j)) else [false] + Encoded(t, Cut(s, maxLen))
  }

  /** The prefix is made use of exactly if the strings share their first three characters, and then
      as much of it as they share goes unsent. */
  lemma PrefixUsed(t: Tree, last: seq<nat>, s: seq<nat>, maxLen: nat)
    requires Complete(t) && Bytes(s)
    ensures Wire(t, last, s, maxLen)[0] <==> 3 <= |last| && 3 <= |s| && 3 <= maxLen && last[..3] == s[..3]
    ensures Wire(t, last, s, maxLen)[0] ==> exists j: nat ::
      && 3 <= j <= |last| && j <= |s| && j <= maxLen && last[..j] == s[..j]
      && (j == |last| || j == |s| || j == maxLen || last[j] != s[j])
      && |Wire(t, last, s, maxLen)| == 9 + |Encoded(t, Cut(s[j..], maxLen - j))|
    ensures !Wire(t, last, s, maxLen)[0] ==> |Wire(t, last, s, maxLen)| == 1 + |Encoded(t, Cut(s, maxLen))|
  {
    hide Encoded;
    hide Field;
    var j := Shared(last, s, maxLen);
    SharedLongest(last, s, maxLen);
    hide Shared;
    assert j >= 3 ==> last[..j][..3] == last[..3] && s[..j][..3] == s[..3];
    if 3 <= |last| && 3 <= |s| && last[..3] == s[..3] {
      assert last[0] == last[..3][0] && last[1] == last[..3][1] && last[2] == last[..3][2];
    }
    if j > 2 { assert |Wire(t, last, s, maxLen)| == 9 + |Encoded(t, Cut(s[j..], maxLen - j))|; }
  }

  /** The string read, given the string before.  The characters read go behind the prefix; behind the
      end of the string before, they change nothing. */
  ghost function StringRead(t: Tree, last: seq<nat>, bits: seq<bool>): Reading {
    if bits == [] then Short
    else if !bits[0] then Held([], 0, Decoded(t, bits[1..]))
    else if |bits| < 9 then Short
    else Held(last, ValueOf(bits[1..9]), Decoded(t, bits[9..]))
  }

  ghost function Held(last: seq<nat>, offset: nat, r: Reading): Reading {
    match r
    case Short => Short
    case Read(s, rest) => Read(Placed(last, offset, s), rest)
  }

  /** The C string once s stands at the offset of a buffer that held the C string `last`. */
  ghost function Placed(last: seq<nat>, offset: nat, s: seq<nat>): seq<nat> {
    if offset <= |last| then CString(last[..offset] + s) else last
  }

  lemma PrefixRoundTrip(t: Tree, last: seq<nat>, s: seq<nat>, maxLen: nat, rest: seq<bool>, j: nat)
    requires Complete(t) && Text(s) && maxLen <= 255 && j <= |last| && j <= |s| && j <= maxLen && last[..j] == s[..j]
    ensures StringRead(t, last, [true] + Field(j, 8) + Encoded(t, Cut(s[j..], maxLen - j)) + rest)
         == Read(Cut(s, maxLen), rest)
  {
    hide Encoded;
    hide Decoded;
    hide Field;
    hide ValueOf;
    hide CString;
    var tail := Cut(s[j..], maxLen - j);
    ByteField(j);
    RoundTrip(t, tail, rest);
    HeadAndBody(true, Field(j, 8), Encoded(t, tail), rest);
    CutApart(s, maxLen, j);
    WholeCString(Cut(s, maxLen));
  }

  lemma CutApart(s: seq<nat>, maxLen: nat, j: nat)
    requires j <= |s| && j <= maxLen
    ensures s[..j] + Cut(s[j..], maxLen - j) == Cut(s, maxLen)
  {
    if |s| <= maxLen { assert Cut(s[j..], maxLen - j) == s[j..] && s[..j] + s[j..] == s == Cut(s, maxLen); }
    else { assert s[..j] + s[j..][..maxLen - j] == s[..maxLen]; }
  }

  /** A string that shares nothing. */
  lemma WholeRoundTrip(t: Tree, last: seq<nat>, s: seq<nat>, rest: seq<bool>)
    requires Complete(t) && Text(s) && |s| <= 255
    ensures StringRead(t, last, [false] + Encoded(t, s) + rest) == Read(s, rest)
  {
    hide Encoded;
    hide Decoded;
    hide CString;
    RoundTrip(t, s, rest);
    var bits := [false] + Encoded(t, s) + rest;
    assert bits[1..] == Encoded(t, s) + rest;
    assert [] + s == s;
    WholeCString(s);
  }

  /** A string comes back cut to maxLen, whatever follows it. */
  lemma StringRoundTrip(t: Tree, last: seq<nat>, s: seq<nat>, maxLen: nat, rest: seq<bool>)
    requires Complete(t) && Text(s) && maxLen <= 255
    ensures StringRead(t, last, Wire(t, last, s, maxLen) + rest) == Read(Cut(s, maxLen), rest)
  {
    hide Encoded;
    hide Decoded;
    hide Field;
    hide CString;
    var j := Shared(last, s, maxLen);
    hide Shared;
    if j > 2 { PrefixRoundTrip(t, last, s, maxLen, rest, j); }
    else { WholeRoundTrip(t, last, Cut(s, maxLen), rest); }
  }

  // ----- a stream of strings -----

  datatype Item = Item(text: seq<nat>, maxLen: nat)

  ghost predicate Sendable(items: seq<Item>) {
    forall k :: 0 <= k < |items| ==> Text(items[k].text) && items[k].maxLen <= 255
  }

  ghost function Stream(t: Tree, last: seq<nat>, items: seq<Item>): seq<bool>
    requires Complete(t) && Sendable(items)
    decreases |items|
  {
    if items == [] then []
    else Wire(t, last, items[0].text, items[0].maxLen) + Stream(t, Cut(items[0].text, items[0].maxLen), items[1..])
  }

  ghost function ReadStream(t: Tree, last: seq<nat>, n: nat, bits: seq<bool>): seq<seq<nat>>
    decreases n
  {
    if n == 0 then []
    else
      match StringRead(t, last, bits)
      case Short => []
      case Read(s, rest) => [s] + ReadStream(t, s, n - 1, rest)
  }

  ghost function CutAll(items: seq<Item>): seq<seq<nat>> {
    if items == [] then [] else [Cut(items[0].text, items[0].maxLen)] + CutAll(items[1..])
  }

  /** Every string of a stream comes back, cut to its maxLen. */
  lemma {:induction false} StreamRoundTrip(t: Tree, last: seq<nat>, items: seq<Item>)
    requires Complete(t) && Sendable(items)
    ensures ReadStream(t, last, |items|, Stream(t, last, items)) == CutAll(items)
    decreases |items|
  {
    hide Wire;
    hide StringRead;
    hide Complete;
    if items != [] {
      var s := Cut(items[0].text, items[0].maxLen);
      StringRoundTrip(t, last, items[0].text, items[0].maxLen, Stream(t, s, items[1..]));
      StreamRoundTrip(t, s, items[1..]);
    }
  }

  // ----- in place -----

  /** The C string in the buffer is s. */
  ghost predicate Holds(buffer: seq<nat>, s: seq<nat>) {
    |buffer| == 256 && |s| <= 255 && buffer[..|s|] == s && buffer[|s|] == 0 && forall k :: 0 <= k < |s| ==> s[k] != 0
  }

  /** Characters that fit behind the offset leave the C string `Placed` says. */
  lemma PlacedHolds(was: seq<nat>, last: seq<nat>, offset: nat, s: seq<nat>, buffer: seq<nat>)
    requires Holds(was, last) && |buffer| == 256 && offset + |s| <= 255
    requires buffer[..offset + |s|] == was[..offset] + s && buffer[offset + |s|] == 0
    ensures Holds(buffer, Placed(last, offset, s))
  {
    if offset <= |last| {
      var all := last[..offset] + s;
      assert was[..offset] == was[..|last|][..offset] && buffer[..|all|] == all;
      var c := CString(all);
      assert buffer[..|c|] == buffer[..|all|][..|c|];
      assert |c| < |all| ==> buffer[|c|] == buffer[..|all|][|c|];
    } else {
      assert buffer[..offset + |s|][..|last|] == was[..|last|] && buffer[..offset + |s|][|last|] == was[|last|];
      assert buffer[..|last|] == buffer[..offset + |s|][..|last|];
    }
  }

  class StringCoder {
    const mStringBuffer: array<nat>
    const huff: HuffmanStringProcessor

    constructor ()
      ensures mStringBuffer.Length == 256 && Holds(mStringBuffer[..], []) && huff.Valid()
      ensures fresh(mStringBuffer) && fresh(huff) && fresh(huff.mHuffLeaves)
    {
      mStringBuffer := new nat[256](_ => 0);
      huff := new HuffmanStringProcessor();
    }

    /** The characters of the string from j on, zeros after its end, and a final zero. */
    method CopyRest(text: seq<nat>, j: nat, maxLen: nat)
      requires mStringBuffer.Length == 256 && j <= maxLen <= 255 && j <= |text| && Text(text)
      requires mStringBuffer[..j] == text[..j]
      modifies mStringBuffer
      ensures Holds(mStringBuffer[..], Cut(text, maxLen))
    {
      var k := j;
      while k < maxLen
        invariant j <= k <= maxLen
        invariant forall i :: 0 <= i < k ==> mStringBuffer[i] == if i < |text| then text[i] else 0
      {
        mStringBuffer[k] := if k < |text| then text[k] else 0;
        k := k + 1;
      }
      mStringBuffer[maxLen] := 0;
    }

    method SharedPrefix(text: seq<nat>, maxLen: nat, ghost last: seq<nat>) returns (j: nat)
      requires mStringBuffer.Length == 256 && Holds(mStringBuffer[..], last) && Text(text) && maxLen <= 255
      ensures j == Shared(last, text, maxLen)
    {
      j := 0;
      while j < maxLen && mStringBuffer[j] == (if j < |text| then text[j] else 0) && j < |text|
        invariant j <= maxLen && j <= |text| && j <= |last| && last[..j] == text[..j]
        invariant Shared(last, text, maxLen) == j + Shared(last[j..], text[j..], maxLen - j)
      {
        assert mStringBuffer[j] == (mStringBuffer[..|last|] + [0])[j];
        j := j + 1;
      }
      assert j < |last| ==> mStringBuffer[..|last|][j] == last[j];
    }

    method WriteString(text: seq<nat>, maxLen: nat, ghost last: seq<nat>) returns (bits: seq<bool>)
      requires mStringBuffer.Length == 256 && Holds(mStringBuffer[..], last) && Text(text) && maxLen <= 255
      requires huff.Valid()
      modifies mStringBuffer, huff, huff.mHuffLeaves
      ensures huff.Valid() && Holds(mStringBuffer[..], Cut(text, maxLen))
      ensures bits == Wire(CodeTree(), last, text, maxLen)
    {
      hide Encoded;
      hide Shared;
      hide CodeTree;
      hide Field;
      var j := SharedPrefix(text, maxLen, last);
      assert mStringBuffer[..j] == text[..j] by { assert mStringBuffer[..j] == mStringBuffer[..|last|][..j]; }
      CopyRest(text, j, maxLen);
      if j > 2 {
        var rest := huff.WriteHuffBuffer(text[j..], maxLen - j);
        bits := [true] + Field(j, 8) + rest;
        assert text[j..][..if |text[j..]| < maxLen - j then |text[j..]| else maxLen - j] == Cut(text[j..], maxLen - j);
      } else {
        var rest := huff.WriteHuffBuffer(text, maxLen);
        bits := [false] + rest;
        assert text[..if |text| < maxLen then |text| else maxLen] == Cut(text, maxLen);
      }
    }

    /** Puts the string read behind the prefix. */
    method PutAt(offset: nat, text: seq<nat>)
      requires mStringBuffer.Length == 256 && offset + |text| <= 255
      modifies mStringBuffer
      ensures mStringBuffer[..offset + |text|] == old(mStringBuffer[..offset]) + text
      ensures mStringBuffer[offset + |text|] == 0
    {
      var k := 0;
      while k < |text|
        invariant 0 <= k <= |text| && mStringBuffer[..offset + k] == old(mStringBuffer[..offset]) + text[..k]
      {
        mStringBuffer[offset + k] := text[k];
        assert mStringBuffer[..offset + k + 1] == mStringBuffer[..offset + k] + [text[k]];
        k := k + 1;
      }
      mStringBuffer[offset + |text|] := 0;
    }

    /** The C string in the buffer. */
    method CopyOut(ghost s: seq<nat>) returns (text: seq<nat>)
      requires mStringBuffer.Length == 256 && Holds(mStringBuffer[..], s)
      ensures text == s
    {
      text := [];
      while mStringBuffer[|text|] != 0
        invariant |text| <= |s| && text == s[..|text|]
        decreases |s| - |text|
      {
        assert |text| < |s| && mStringBuffer[..|s|][|text|] == s[|text|];
        text := text + [mStringBuffer[|text|]];
      }
    }

    /** Reads a string, of which the buffer must have room for all characters. */
    method ReadString(bits: seq<bool>, ghost last: seq<nat>) returns (ok: bool, text: seq<nat>, pos: nat)
      requires mStringBuffer.Length == 256 && Holds(mStringBuffer[..], last) && huff.Valid()
      requires FitsBuffer(bits)
      modifies mStringBuffer, huff, huff.mHuffLeaves
      ensures huff.Valid() && pos <= |bits|
      ensures match StringRead(CodeTree(), last, bits)
        case Short => !ok
        case Read(s, rest) => ok && text == s && rest == bits[pos..] && Holds(mStringBuffer[..], s)
    {
      hide Decoded;
      hide ValueOf;
      hide CodeTree;
      if |bits| == 0 || (bits[0] && |bits| < 9) { return false, [], 0; }
      var offset, start := 0, 1;
      if bits[0] { offset, start := ValueOf(bits[1..9]), 9; }
      var rest;
      ok, rest, pos := huff.ReadHuffBuffer(bits[start..]);
      text := [];
      if ok {
        DecodedLength(CodeTree(), bits[start..]);
        text := PutBehind(bits[0], offset, rest, last);
      }
      assert bits[start..][pos..] == bits[start + pos..];
      pos := pos + start;
    }

    /** The characters read go into the buffer, which is then read as a C string. */
    method PutBehind(prefixed: bool, offset: nat, rest: seq<nat>, ghost last: seq<nat>) returns (text: seq<nat>)
      requires mStringBuffer.Length == 256 && Holds(mStringBuffer[..], last) && offset + |rest| <= 255
      requires (!prefixed ==> offset == 0)
      modifies mStringBuffer
      ensures text == Placed(if prefixed then last else [], offset, rest) && Holds(mStringBuffer[..], text)
    {
      hide Placed;
      ghost var was := mStringBuffer[..];
      PutAt(offset, rest);
      if prefixed { PlacedHolds(was, last, offset, rest, mStringBuffer[..]); }
      else { FromStart(was, last, rest, mStringBuffer[..]); }
      text := CopyOut(Placed(if prefixed then last else [], offset, rest));
    }
  }

  lemma {:induction false} CodesLength(t: Tree, n: nat, bits: seq<bool>)
    requires ReadCodes(t, n, bits).Read?
    ensures |ReadCodes(t, n, bits).text| == n
  {
    if n > 0 { CodesLength(t, n - 1, Descend(t, bits).rest); }
  }

  lemma {:induction false} RawLength(n: nat, bits: seq<bool>)
    requires ReadRaw(n, bits).Read?
    ensures |ReadRaw(n, bits).text| == n
  {
    if n > 0 { RawLength(n - 1, bits[8..]); }
  }

  lemma DecodedLength(t: Tree, bits: seq<bool>)
    requires Decoded(t, bits).Read?
    ensures |Decoded(t, bits).text| <= 255
  {
    hide ReadCodes;
    hide ReadRaw;
    var length := bits[1..9];
    ValueBelow(length);
    if bits[0] { CodesLength(t, ValueOf(length), bits[9..]); } else { RawLength(ValueOf(length), bits[9..]); }
  }

  lemma {:induction false} ValueBelow(bits: seq<bool>)
    ensures ValueOf(bits) < Pow2(|bits|) && Pow2(8) == 256
  {
    if bits != [] { ValueBelow(bits[1..]); }
  }

  /** The prefix and the characters read fit the buffer of 256. */
  ghost predicate FitsBuffer(bits: seq<bool>) {
    |bits| >= 9 && bits[0] ==>
      match Decoded(CodeTree(), bits[9..])
      case Short => true
      case Read(s, _) => ValueOf(bits[1..9]) + |s| <= 255
  }

  lemma FromStart(was: seq<nat>, last: seq<nat>, s: seq<nat>, buffer: seq<nat>)
    requires Holds(was, last) && |buffer| == 256 && |s| <= 255 && buffer[..|s|] == was[..0] + s && buffer[|s|] == 0
    ensures Holds(buffer, Placed([], 0, s))
  {
    assert [] + s == s && was[..0] == [];
    var c := CString(s);
    assert buffer[..|c|] == buffer[..|s|][..|c|];
    assert |c| < |s| ==> buffer[|c|] == buffer[..|s|][|c|];
  }

  /** What one side writes the other reads: the string cut to maxLen, which is then the string before
      on both sides. */
  method WriteThenRead(writer: StringCoder, reader: StringCoder, text: seq<nat>, maxLen: nat, ghost last: seq<nat>)
    returns (ok: bool, copy: seq<nat>)
    requires {writer.mStringBuffer, writer.huff, writer.huff.mHuffLeaves} !! {reader.mStringBuffer, reader.huff,
                                                                              reader.huff.mHuffLeaves}
    requires writer.mStringBuffer.Length == reader.mStringBuffer.Length == 256 && writer.huff.Valid()
    requires reader.huff.Valid()
    requires Holds(writer.mStringBuffer[..], last) && Holds(reader.mStringBuffer[..], last) && Text(text)
    requires maxLen <= 255
    modifies writer.mStringBuffer, writer.huff, writer.huff.mHuffLeaves, reader.mStringBuffer, reader.huff,
             reader.huff.mHuffLeaves
    ensures writer.huff.Valid() && reader.huff.Valid() && ok && copy == Cut(text, maxLen)
    ensures Holds(writer.mStringBuffer[..], copy) && Holds(reader.mStringBuffer[..], copy)
  {
    hide StringRead;
    hide Wire;
    hide CodeTree;
    var bits := writer.WriteString(text, maxLen, last);
    StringRoundTrip(CodeTree(), last, text, maxLen, []);
    assert bits + [] == bits;
    WireFits(last, text, maxLen);
    var pos;
    ok, copy, pos := reader.ReadString(bits, last);
  }

  lemma WireFits(last: seq<nat>, s: seq<nat>, maxLen: nat)
    requires Text(s) && maxLen <= 255
    ensures FitsBuffer(Wire(CodeTree(), last, s, maxLen))
  {
    hide CodeTree;
    hide Encoded;
    hide Decoded;
    hide Field;
    hide ValueOf;
    var j := Shared(last, s, maxLen);
    hide Shared;
    if j > 2 {
      var tail := Cut(s[j..], maxLen - j);
      ByteField(j);
      RoundTrip(CodeTree(), tail, []);
      HeadAndBody(true, Field(j, 8), Encoded(CodeTree(), tail), []);
      assert Encoded(CodeTree(), tail) + [] == Encoded(CodeTree(), tail);
      assert [true] + Field(j, 8) + Encoded(CodeTree(), tail) + [] == Wire(CodeTree(), last, s, maxLen);
    }
  }
}
