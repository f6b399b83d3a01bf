/** The journal file (tnl/journal.cpp): everything recorded is one continuous bit stream in a file, of
    which only the part not yet written out is kept in memory. */
module Journal {
  import opened BitFields
  import opened ByteBits
  import opened BitStreamObject

  /** fwrite at a position of the file. */
  function WriteAt(file: seq<bv8>, pos: nat, bytes: seq<bv8>): seq<bv8>
    requires pos <= |file|
  {
    file[..pos] + bytes + if pos + |bytes| <= |file| then file[pos + |bytes|..] else []
  }

  lemma BitsAppend(a: seq<bv8>, b: seq<bv8>)
    ensures BitsOf(a + b) == BitsOf(a) + BitsOf(b)
  {
    hide BitOf;
    forall k | 0 <= k < 8 * |a + b|
      ensures BitAt(a + b, k) == if k < 8 * |a| then BitAt(a, k) else BitAt(b, k - 8 * |a|)
    {
    }
    hide BitAt;
  }

  lemma BitsPrefix(a: seq<bv8>, n: nat)
    requires n <= |a|
    ensures BitsOf(a[..n]) == BitsOf(a)[..8 * n] && BitsOf(a[n..]) == BitsOf(a)[8 * n..]
  {
    assert a == a[..n] + a[n..];
    BitsAppend(a[..n], a[n..]);
    hide BitAt;
    assert BitsOf(a)[..8 * n] == BitsOf(a[..n]);
  }

  /** What of the stream is in the file for good, before the write position. */
  ghost function Body(file: seq<bv8>, pos: nat): seq<bv8>
    requires 4 <= pos
  {
    if |file| < pos then [] else file[4..pos]
  }

  /** That and the bits in memory are everything recorded. */
  ghost predicate Continues(file: seq<bv8>, pos: nat, memory: seq<bool>, history: seq<bool>)
    requires 4 <= pos
  {
    BitsOf(Body(file, pos)) + memory == history
  }

  /** The file once the header and the bytes in memory are written. */
  lemma FileWritten(file: seq<bv8>, pos: nat, header: seq<bv8>, bytes: seq<bv8>)
    requires 4 <= pos && |header| == 4 && |file| <= pos + |bytes| && (if file == [] then pos == 4 else pos <= |file|)
    ensures |WriteAt(file, 0, header)| >= pos
    ensures WriteAt(WriteAt(file, 0, header), pos, bytes) == header + Body(file, pos) + bytes
  {
  }

  /** The first bits of some bytes: whole bytes and part of one more. */
  lemma SplitBits(bytes: seq<bv8>, n: nat)
    requires n % 8 != 0 && n <= 8 * |bytes|
    ensures BitsOf(bytes)[..n] == BitsOf(bytes[..n / 8]) + BitsOf([bytes[n / 8]])[..n % 8]
  {
    hide BitAt;
    BitsPrefix(bytes, n / 8);
    var rest := bytes[n / 8..];
    assert rest == [rest[0]] + rest[1..];
    BitsAppend([rest[0]], rest[1..]);
    assert BitsOf(bytes)[8 * (n / 8)..n] == BitsOf(rest)[..n % 8] == BitsOf([bytes[n / 8]])[..n % 8];
  }

  /** A partial byte moved to the front. */
  lemma MovedByte(buffer: seq<bv8>, m: nat, k: nat)
    requires m < |buffer| && 0 < k < 8
    ensures BitsOf(buffer[0 := buffer[m]])[..k] == BitsOf([buffer[m]])[..k]
  {
    hide BitAt;
    var moved := buffer[0 := buffer[m]];
    SplitBits(moved, k);
    assert moved[..0] == [];
  }

  /** After a sync that leaves a partial byte. */
  lemma PartLeft(header: seq<bv8>, body: seq<bv8>, buffer: seq<bv8>, n: nat, history: seq<bool>)
    requires |header| == 4 && n % 8 != 0 && n <= 8 * |buffer| && BitsOf(body) + BitsOf(buffer)[..n] == history
    ensures var m := n / 8; var file := header + body + buffer[..m + 1];
      Continues(file, 4 + |body| + m, BitsOf(buffer[0 := buffer[m]])[..n % 8], history)
  {
    var m := n / 8;
    MovedByte(buffer, m, n % 8);
    SplitBits(buffer, n);
    hide BitsOf;
    var file := header + body + buffer[..m + 1];
    assert Body(file, 4 + |body| + m) == body + buffer[..m];
    BitsAppend(body, buffer[..m]);
  }

  lemma FileBits(header: seq<bv8>, body: seq<bv8>, buffer: seq<bv8>, n: nat, m: nat, history: seq<bool>)
    requires |header| == 4 && m == (n + 7) / 8 && m <= |buffer| && BitsOf(body) + BitsOf(buffer)[..n] == history
    ensures BitsOf((header + body + buffer[..m])[4..])[..|history|] == history
  {
    hide BitAt;
    assert (header + body + buffer[..m])[4..] == body + buffer[..m];
    BitsAppend(body, buffer[..m]);
    BitsPrefix(buffer, m);
  }

  /** After a sync that leaves nothing. */
  lemma NoneLeft(header: seq<bv8>, body: seq<bv8>, buffer: seq<bv8>, n: nat, history: seq<bool>)
    requires |header| == 4 && n % 8 == 0 && n <= 8 * |buffer| && BitsOf(body) + BitsOf(buffer)[..n] == history
    ensures var m := n / 8; var file := header + body + buffer[..m];
      Continues(file, 4 + |body| + m, [], history)
  {
    hide BitAt;
    var m := n / 8;
    var file := header + body + buffer[..m];
    BitsPrefix(buffer, m);
    assert Body(file, 4 + |body| + m) == body + buffer[..m];
    BitsAppend(body, buffer[..m]);
  }

  /** The header holds the number of bits. */
  lemma HeaderValue(total: nat, header: seq<bv8>)
    requires total < 0x1_0000_0000 && header == IntBytes(total)
    ensures ValueOf(BitsOf(header)) == total
  {
    hide Field;
    hide ValueOf;
    hide BitAt;
    hide Pow2;
    IntBits(total, 32);
    assert BitsOf(header)[..32] == BitsOf(header);
    FieldValue(total, 32);
    Pow32();
  }

  lemma Pow32()
    ensures Pow2(32) == 0x1_0000_0000
  {
    Pow2Plus(16, 16);
    Pow2Plus(8, 8);
    assert Pow2(8) == 256;
  }

  lemma WholeBytes(pos: nat, n: nat)
    ensures (pos * 8 + n) % 8 == n % 8
  {
  }

  class Journal {
    const mWriteStream: BitStream
    var mWritePosition: nat
    var mFile: seq<bv8>
    /** All bits recorded, and how many of them are in the file. */
    ghost var History: seq<bool>
    ghost var Synced: nat

    ghost predicate Valid()
      reads this, mWriteStream, mWriteStream.buffer
    {
      && mWriteStream.Valid() && mWriteStream.ownsMemory && mWriteStream.bitNum <= mWriteStream.maxWriteBitNum
      && mWritePosition == 4 + Synced / 8 && Synced % 8 <= mWriteStream.bitNum
      && (if Synced == 0 then mFile == [] else |mFile| == 4 + (Synced + 7) / 8)
      && Continues(mFile, mWritePosition, mWriteStream.Written(), History)
    }

    constructor ()
      ensures Valid() && History == [] && fresh(mWriteStream) && fresh(mWriteStream.buffer)
    {
      mWriteStream := new BitStream(1500, true);
      mWritePosition, mFile := 4, [];
      History, Synced := [], 0;
    }

    /** Some bits are recorded; the memory of the write stream grows as needed. */
    method Record(bitCount: nat, source: seq<bv8>)
      requires Valid() && bitCount <= 8 * |source|
      modifies this, mWriteStream, mWriteStream.buffer
      ensures Valid() && History == old(History) + BitsOf(source)[..bitCount] && mFile == old(mFile)
      ensures mWriteStream.buffer == old(mWriteStream.buffer) || fresh(mWriteStream.buffer)
    {
      hide BitsOf;
      ghost var before, from, more := mWriteStream.Bits(), mWriteStream.bitNum, BitsOf(source)[..bitCount];
      var ok := mWriteStream.WriteBits(bitCount, source);
      if bitCount > 0 { SplicedPrefix(before, from, more, mWriteStream.Bits()); }
      assert mWriteStream.Written() == before[..from] + more;
      ghost var body := BitsOf(Body(mFile, mWritePosition));
      assert body + (before[..from] + more) == (body + before[..from]) + more;
      History := History + more;
    }

    /** The header and the bytes in memory go to the file. */
    method WriteOut(totalBits: nat, bytesToWrite: nat)
      requires Valid() && bytesToWrite == (mWriteStream.bitNum + 7) / 8 && mWriteStream.bitNum > 0
      modifies `mFile
      ensures mFile == IntBytes(totalBits) + old(Body(mFile, mWritePosition)) + mWriteStream.buffer[..bytesToWrite]
      ensures old(|Body(mFile, mWritePosition)|) == mWritePosition - 4
      ensures |History| == 8 * (mWritePosition - 4) + mWriteStream.bitNum
    {
      hide BitsOf;
      var bytes := mWriteStream.buffer[..bytesToWrite];
      FileWritten(mFile, mWritePosition, IntBytes(totalBits), bytes);
      mFile := WriteAt(mFile, 0, IntBytes(totalBits));
      mFile := WriteAt(mFile, mWritePosition, bytes);
    }

    /** The bits of the last, partial byte stay in memory. */
    method KeepPart(bytesToWrite: nat, ghost header: seq<bv8>, ghost body: seq<bv8>)
      requires |header| == 4 && mWriteStream.Valid() && mWriteStream.ownsMemory
      requires 0 < mWriteStream.bitNum <= mWriteStream.maxWriteBitNum
      requires mWriteStream.bitNum % 8 != 0 && bytesToWrite == (mWriteStream.bitNum + 7) / 8
      requires 4 + |body| == mWritePosition && |History| == 8 * |body| + mWriteStream.bitNum
      requires mFile == header + body + mWriteStream.buffer[..bytesToWrite]
      requires BitsOf(body) + mWriteStream.Written() == History
      modifies `mWritePosition, `Synced, mWriteStream`bitNum, mWriteStream.buffer
      ensures Valid() && mWriteStream.bitNum < 8
    {
      ghost var buf, n := mWriteStream.buffer[..], mWriteStream.bitNum;
      assert mWriteStream.buffer[..bytesToWrite] == buf[..n / 8 + 1];
      hide BitsOf;
      hide Continues;
      PartLeft(header, body, buf, n, History);
      mWriteStream.buffer[0] := mWriteStream.buffer[bytesToWrite - 1];
      mWriteStream.bitNum := mWriteStream.bitNum % 8;
      mWritePosition := mWritePosition + bytesToWrite - 1;
      Synced := |History|;
      assert mWriteStream.buffer[..] == buf[0 := buf[n / 8]];
    }

    method KeepNone(bytesToWrite: nat, ghost header: seq<bv8>, ghost body: seq<bv8>)
      requires |header| == 4 && mWriteStream.Valid() && mWriteStream.ownsMemory
      requires 0 < mWriteStream.bitNum <= mWriteStream.maxWriteBitNum
      requires mWriteStream.bitNum % 8 == 0 && bytesToWrite == (mWriteStream.bitNum + 7) / 8
      requires 4 + |body| == mWritePosition && |History| == 8 * |body| + mWriteStream.bitNum
      requires mFile == header + body + mWriteStream.buffer[..bytesToWrite]
      requires BitsOf(body) + mWriteStream.Written() == History
      modifies `mWritePosition, `Synced, mWriteStream`bitNum
      ensures Valid() && mWriteStream.bitNum < 8
    {
      ghost var buf, n := mWriteStream.buffer[..], mWriteStream.bitNum;
      assert mWriteStream.buffer[..bytesToWrite] == buf[..n / 8];
      hide BitsOf;
      hide Continues;
      NoneLeft(header, body, buf, n, History);
      mWritePosition := mWritePosition + bytesToWrite;
      mWriteStream.bitNum := 0;
      Synced := |History|;
    }

    /** What the file then holds. */
    method Flush(totalBits: nat, bytesToWrite: nat)
      requires Valid() && bytesToWrite == (mWriteStream.bitNum + 7) / 8 && mWriteStream.bitNum > 0
      requires totalBits == 8 * mWritePosition + mWriteStream.bitNum < 0x1_0000_0000
      modifies `mFile
      ensures mFile == IntBytes(totalBits) + old(Body(mFile, mWritePosition)) + mWriteStream.buffer[..bytesToWrite]
      ensures old(|Body(mFile, mWritePosition)|) == mWritePosition - 4 && totalBits == 32 + |History|
      ensures |History| == 8 * (mWritePosition - 4) + mWriteStream.bitNum
      ensures ValueOf(BitsOf(mFile[..4])) == totalBits && BitsOf(mFile[4..])[..|History|] == History
    {
      ghost var body := Body(mFile, mWritePosition);
      assert BitsOf(body) + mWriteStream.Written() == History;
      hide Body;
      hide BitAt;
      hide IntBytes;
      hide ValueOf;
      WriteOut(totalBits, bytesToWrite);
      HeaderValue(totalBits, IntBytes(totalBits));
      FileBits(IntBytes(totalBits), body, mWriteStream.buffer[..], mWriteStream.bitNum, bytesToWrite, History);
      assert mFile[..4] == IntBytes(totalBits);
      assert mWriteStream.buffer[..][..bytesToWrite] == mWriteStream.buffer[..bytesToWrite];
    }

    /** The unwritten bytes go to the file. */
    method SyncWriteStream()
      requires Valid() && 32 + |History| < 0x1_0000_0000
      modifies this, mWriteStream, mWriteStream.buffer
      ensures Valid() && History == old(History)
      ensures old(mWriteStream.bitNum) == 0 ==> mFile == old(mFile)
      ensures old(mWriteStream.bitNum) > 0 ==>
        && |mFile| == 4 + (|History| + 7) / 8
        && ValueOf(BitsOf(mFile[..4])) == 32 + |History|
        && BitsOf(mFile[4..])[..|History|] == History
        && mWriteStream.bitNum < 8
    {
      if mWriteStream.bitNum == 0 { return; }
      ghost var body := Body(mFile, mWritePosition);
      Whole();
      hide *;
      var totalBits := mWritePosition * 8 + mWriteStream.bitNum;
      var bytesToWrite := (mWriteStream.bitNum + 7) / 8;
      Flush(totalBits, bytesToWrite);
      WholeBytes(mWritePosition, mWriteStream.bitNum);
      if totalBits % 8 != 0 { KeepPart(bytesToWrite, IntBytes(totalBits), body); }
      else { KeepNone(bytesToWrite, IntBytes(totalBits), body); }
    }

    lemma Whole()
      requires Valid()
      ensures mWriteStream.Valid() && mWriteStream.ownsMemory && mWriteStream.bitNum <= mWriteStream.maxWriteBitNum
      ensures mWritePosition >= 4
      ensures |History| == 8 * (mWritePosition - 4) + mWriteStream.bitNum
      ensures BitsOf(Body(mFile, mWritePosition)) + mWriteStream.Written() == History
    {
    }
  }
}
