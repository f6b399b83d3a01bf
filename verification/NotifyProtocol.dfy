/** The notify protocol of one connection endpoint (tnl/netConnection.cpp), as functions on
    the value of its state.  `NetConnection` proves its methods against these functions and
    `NotifySystem` proves what two endpoints achieve together. */
module NotifyProtocol {
  /** MaxPacketWindowSize: also the number of bits in the one acknowledgement word. */
  const WINDOW_SIZE := 32
  const SEQUENCE_WINDOW := 2048
  const ACK_WINDOW := 1024
  const MAX_ACK_BYTES := 4
  const TWO32 := 0x1_0000_0000

  type u32 = x: int | 0 <= x < TWO32
  /** A 32-bit mask, lowest bit first. */
  type Word = w: seq<bool> | |w| == WINDOW_SIZE witness seq(WINDOW_SIZE, i => false)

  const ZERO_WORD: Word := seq(WINDOW_SIZE, i => false)

  datatype PacketType = DataPacket | PingPacket | AckPacket | InvalidPacketType

  /** What travels in a packet header: only the low bits of the two sequence numbers, and only
      the low `8 * |bytes|` bits of the acknowledgement mask. */
  datatype Header = Header(ptype: PacketType, seqBits: nat, ackBits: nat, ackFlags: seq<bool>)

  ghost predicate ValidHeader(h: Header) {
    h.seqBits < SEQUENCE_WINDOW && h.ackBits < ACK_WINDOW &&
    |h.ackFlags| % 8 == 0 && |h.ackFlags| <= 8 * MAX_ACK_BYTES
  }

  /** The fields of NetConnection that the protocol uses.  `notifyQueue` is the linked list of
      PacketNotify records, oldest first. */
  datatype Endpoint<P> = Endpoint(
    lastSeqRecvd: u32,
    highestAckedSeq: u32,
    lastSendSeq: u32,
    ackMask: Word,
    lastRecvAckAck: u32,
    lastSeqRecvdAtSend: seq<u32>,
    notifyQueue: seq<P>)

  function Sub32(x: u32, y: u32): u32 { (x - y) % TWO32 }

  // ----- sequence number reconstruction -----

  /** Extends `bits`, the low bits of a sequence number, to the first number at or after `base`
      that ends in them, in 32-bit arithmetic. */
  function Reconstruct(base: u32, bits: nat, window: nat): (r: u32)
    requires 0 < window && bits < window
    requires window == SEQUENCE_WINDOW || window == ACK_WINDOW
  {
    var r := base - base % window + bits;
    if r < base then (r + window) % TWO32 else r
  }

  /** For every 32-bit base, even next to the wrap, a number at most window - 1 ahead of the base
      is recovered exactly from its low bits. */
  lemma ReconstructExact(base: u32, ahead: nat, window: nat)
    requires window == SEQUENCE_WINDOW || window == ACK_WINDOW
    requires ahead < window
    ensures Reconstruct(base, (base + ahead) % TWO32 % window, window) == (base + ahead) % TWO32
  {
    LowBits(base, ahead, window);
    BlockFits(base, window);
    OnceWrapped(base + ahead);
  }

  lemma LowBits(base: u32, ahead: nat, w: nat)
    requires w == SEQUENCE_WINDOW || w == ACK_WINDOW
    requires ahead < w
    ensures var m := base % w + ahead; (base + ahead) % TWO32 % w == if m < w then m else m - w
  {
    ModModTwo32(base + ahead, w);
    var q, m := base / w, base % w + ahead;
    if m < w { Remainder(base + ahead, q, m, w); } else { Remainder(base + ahead, q + 1, m - w, w); }
  }

  lemma Remainder(x: nat, q: nat, r: nat, w: nat)
    requires w == SEQUENCE_WINDOW || w == ACK_WINDOW
    requires r < w && x == q * w + r
    ensures x % w == r
  {
    if w == SEQUENCE_WINDOW {
      assert x == q * SEQUENCE_WINDOW + r;
    } else {
      assert x == q * ACK_WINDOW + r;
    }
  }

  lemma BlockFits(base: u32, w: nat)
    requires w == SEQUENCE_WINDOW || w == ACK_WINDOW
    ensures base - base % w + w <= TWO32
  {
  }

  lemma OnceWrapped(x: nat)
    requires x < 2 * TWO32
    ensures x % TWO32 == if x < TWO32 then x else x - TWO32
  {
  }

  lemma ModSplit(q: nat, r: nat, w: nat)
    requires w == SEQUENCE_WINDOW || w == ACK_WINDOW
    ensures (q * w + r) % w == r % w
  {
  }

  lemma ModModTwo32(x: nat, w: nat)
    requires w == SEQUENCE_WINDOW || w == ACK_WINDOW
    ensures x % TWO32 % w == x % w
  {
  }

  /** A number behind the base is taken for one that is ahead of it by a multiple of the window. */
  lemma ReconstructStale(base: u32, x: u32, window: nat)
    requires window == SEQUENCE_WINDOW || window == ACK_WINDOW
    requires base + window < TWO32 && x < base
    ensures base <= Reconstruct(base, x % window, window) < base + window
    ensures Reconstruct(base, x % window, window) >= x + window
  {
  }

  // ----- sending -----

  /** The condition under which no data packet may be sent; an adaptive connection narrows the
      window further by `adaptiveFull`. */
  predicate WindowFull<P>(e: Endpoint<P>, adaptiveFull: bool) {
    Sub32(e.lastSendSeq, e.highestAckedSeq) >= WINDOW_SIZE - 2 || adaptiveFull
  }

  function AckByteCount<P>(e: Endpoint<P>): nat {
    (Sub32(e.lastSeqRecvd, e.lastRecvAckAck) + 7) / 8
  }

  /** What every operation keeps: the unacknowledged window holds at most 30 packets, the queue
      has one record for each, and the acknowledgement flags fit one word. */
  ghost predicate ValidEndpoint<P>(e: Endpoint<P>) {
    && Sub32(e.lastSendSeq, e.highestAckedSeq) <= WINDOW_SIZE - 2
    && |e.notifyQueue| == Sub32(e.lastSendSeq, e.highestAckedSeq)
    && |e.lastSeqRecvdAtSend| == WINDOW_SIZE
    && Sub32(e.lastSeqRecvd, e.lastRecvAckAck) <= WINDOW_SIZE
  }

  /** A valid endpoint whose own sequence numbers have not come near the wrap. */
  ghost predicate Unwrapped<P>(e: Endpoint<P>) {
    ValidEndpoint(e) && e.highestAckedSeq <= e.lastSendSeq && e.lastSendSeq + SEQUENCE_WINDOW < TWO32
  }

  function Initial<P>(sendSeq: u32, recvSeq: u32): Endpoint<P> {
    Endpoint(recvSeq, sendSeq, sendSeq, ZERO_WORD, recvSeq, seq(WINDOW_SIZE, i => 0), [])
  }

  function MakeHeader<P>(e: Endpoint<P>, t: PacketType): Header
    requires AckByteCount(e) <= MAX_ACK_BYTES
  {
    Header(t, e.lastSendSeq % SEQUENCE_WINDOW, e.lastSeqRecvd % ACK_WINDOW,
           e.ackMask[..8 * AckByteCount(e)])
  }

  /** The state in which a data packet's header is written: its own sequence number is taken. */
  function Advance<P>(e: Endpoint<P>): Endpoint<P>
    requires |e.lastSeqRecvdAtSend| == WINDOW_SIZE
  {
    var s := (e.lastSendSeq + 1) % TWO32;
    e.(lastSendSeq := s, lastSeqRecvdAtSend := e.lastSeqRecvdAtSend[s % WINDOW_SIZE := e.lastSeqRecvd])
  }

  function SendData<P>(e: Endpoint<P>, note: P): Endpoint<P>
    requires |e.lastSeqRecvdAtSend| == WINDOW_SIZE
  {
    var e' := Advance(e);
    e'.(notifyQueue := e'.notifyQueue + [note])
  }

  // ----- receiving -----

  function ReadSeq<P>(e: Endpoint<P>, h: Header): u32
    requires h.seqBits < SEQUENCE_WINDOW
  {
    Reconstruct(e.lastSeqRecvd, h.seqBits, SEQUENCE_WINDOW)
  }

  function ReadAck<P>(e: Endpoint<P>, h: Header): u32
    requires h.ackBits < ACK_WINDOW
  {
    Reconstruct(e.highestAckedSeq, h.ackBits, ACK_WINDOW)
  }

  predicate Accepts<P>(e: Endpoint<P>, h: Header)
    requires h.seqBits < SEQUENCE_WINDOW && h.ackBits < ACK_WINDOW
  {
    && Sub32(ReadSeq(e, h), e.lastSeqRecvd) <= WINDOW_SIZE - 1
    && ReadAck(e, h) <= e.lastSendSeq
    && h.ptype != InvalidPacketType
  }

  /** There is a record for each packet that the header acknowledges. */
  ghost predicate Recorded<P>(e: Endpoint<P>, h: Header)
    requires h.ackBits < ACK_WINDOW
  {
    Sub32(ReadAck(e, h), e.highestAckedSeq) <= |e.notifyQueue|
  }

  /** (mask << shift) | low, in 32 bits. */
  function ShiftIn(mask: Word, shift: nat, low: bool): Word {
    seq(WINDOW_SIZE, i requires 0 <= i < WINDOW_SIZE => (i == 0 && low) || (i >= shift && mask[i - shift]))
  }

  /** The acknowledgement word as read: flags that were not transmitted read as zero, except that
      with no flag byte at all the word is left uninitialised (`junk`). */
  function AckWord(h: Header, junk: Word): Word
    requires |h.ackFlags| <= WINDOW_SIZE
  {
    if h.ackFlags == [] then junk
    else seq(WINDOW_SIZE, i requires 0 <= i < WINDOW_SIZE => i < |h.ackFlags| && h.ackFlags[i])
  }

  /** The delivery flags for packets highestAcked + 1 up to ack, in that order. */
  function Notices(word: Word, highestAcked: u32, ack: u32): (r: seq<bool>) {
    var count := Sub32(ack, highestAcked);
    seq(count, i requires 0 <= i < count => word[(count - 1 - i) % WINDOW_SIZE])
  }

  /** mLastRecvAckAck after the notices: the value recorded for the last packet that arrived. */
  function AckAckAfter(atSend: seq<u32>, ackAck: u32, highestAcked: u32, notices: seq<bool>): u32
    requires |atSend| == WINDOW_SIZE
  {
    if notices == [] then ackAck
    else if notices[|notices| - 1] then atSend[(highestAcked + |notices|) % WINDOW_SIZE]
    else AckAckAfter(atSend, ackAck, highestAcked, notices[..|notices| - 1])
  }

  function Clamp(ackAck: u32, pkSeq: u32): u32 {
    if Sub32(pkSeq, ackAck) > WINDOW_SIZE then Sub32(pkSeq, WINDOW_SIZE) else ackAck
  }

  /** What an accepted header does to the endpoint. */
  function Receive<P>(e: Endpoint<P>, h: Header, junk: Word): Endpoint<P>
    requires ValidHeader(h) && ValidEndpoint(e) && Recorded(e, h)
  {
    var s, a := ReadSeq(e, h), ReadAck(e, h);
    var notices := Notices(AckWord(h, junk), e.highestAckedSeq, a);
    Endpoint(s, a, e.lastSendSeq,
             ShiftIn(e.ackMask, Sub32(s, e.lastSeqRecvd), h.ptype.DataPacket?),
             Clamp(AckAckAfter(e.lastSeqRecvdAtSend, e.lastRecvAckAck, e.highestAckedSeq, notices), s),
             e.lastSeqRecvdAtSend,
             e.notifyQueue[|notices|..])
  }

  /** The notifications an accepted header gives: each record with whether its packet arrived. */
  function Notified<P>(e: Endpoint<P>, h: Header, junk: Word): (r: seq<(P, bool)>)
    requires ValidHeader(h) && ValidEndpoint(e) && Recorded(e, h)
  {
    Zip(e.notifyQueue, Notices(AckWord(h, junk), e.highestAckedSeq, ReadAck(e, h)))
  }

  function Zip<P>(queue: seq<P>, notices: seq<bool>): seq<(P, bool)>
    requires |notices| <= |queue|
  {
    seq(|notices|, i requires 0 <= i < |notices| => (queue[i], notices[i]))
  }

  /** Whether the packet's body is then read. */
  predicate Processes<P>(e: Endpoint<P>, h: Header)
    requires h.seqBits < SEQUENCE_WINDOW && h.ackBits < ACK_WINDOW
  {
    Accepts(e, h) && ReadSeq(e, h) != e.lastSeqRecvd && h.ptype.DataPacket?
  }

  /** Whether an acknowledgement packet is sent back, judged after the header was accepted. */
  predicate AcksBack<P>(e': Endpoint<P>, h: Header) {
    h.ptype.PingPacket? || Sub32(e'.lastSeqRecvd, e'.lastRecvAckAck) > WINDOW_SIZE / 2
  }

  /** An accepted header acknowledges a packet that has no record exactly if its acknowledgement is
      taken for a number beyond the wrap, and the packets sent do not go so far. */
  lemma RecordedExactly<P>(e: Endpoint<P>, h: Header)
    requires ValidEndpoint(e) && h.seqBits < SEQUENCE_WINDOW && h.ackBits < ACK_WINDOW && Accepts(e, h)
    ensures !Recorded(e, h) <==> ReadAck(e, h) < e.highestAckedSeq <= e.lastSendSeq
  {
    hide Reconstruct;
    SubOf(ReadAck(e, h), e.highestAckedSeq);
    SubOf(e.lastSendSeq, e.highestAckedSeq);
    hide Sub32;
  }

  lemma SubOf(a: u32, b: u32)
    ensures Sub32(a, b) == if b <= a then a - b else a - b + TWO32
  {
  }

  lemma RecordedBelowWrap<P>(e: Endpoint<P>, h: Header)
    requires Unwrapped(e) && h.seqBits < SEQUENCE_WINDOW && h.ackBits < ACK_WINDOW && Accepts(e, h)
    ensures e.highestAckedSeq <= ReadAck(e, h) <= e.lastSendSeq && Recorded(e, h)
  {
    ReconstructAhead(e.highestAckedSeq, h.ackBits);
    hide Reconstruct;
    RecordedExactly(e, h);
    hide Sub32;
  }

  lemma ReconstructAhead(base: u32, bits: nat)
    requires base + ACK_WINDOW <= TWO32 && bits < ACK_WINDOW
    ensures base <= Reconstruct(base, bits, ACK_WINDOW)
  {
  }

  lemma ClampBound(ackAck: u32, pkSeq: u32)
    ensures Sub32(pkSeq, Clamp(ackAck, pkSeq)) <= WINDOW_SIZE
  {
  }

  /** Sending keeps the endpoint valid, and the flags of every header fit one mask word. */
  lemma SendKeepsValid<P>(e: Endpoint<P>, note: P)
    requires ValidEndpoint(e) && !WindowFull(e, false)
    ensures ValidEndpoint(SendData(e, note))
    ensures Unwrapped(e) && e.lastSendSeq + 1 + SEQUENCE_WINDOW < TWO32 ==> Unwrapped(SendData(e, note))
    ensures AckByteCount(Advance(e)) <= MAX_ACK_BYTES
  {
    SubNext(e.lastSendSeq, e.highestAckedSeq);
    hide Sub32;
  }

  lemma SubNext(s: u32, a: u32)
    requires Sub32(s, a) < WINDOW_SIZE
    ensures Sub32((s + 1) % TWO32, a) == Sub32(s, a) + 1
  {
  }

  /** Receiving keeps it valid: there is a record for every notification. */
  lemma ReceiveKeepsValid<P>(e: Endpoint<P>, h: Header, junk: Word)
    requires ValidEndpoint(e) && ValidHeader(h) && Accepts(e, h) && Recorded(e, h)
    ensures ValidEndpoint(Receive(e, h, junk))
    ensures Unwrapped(e) ==> Unwrapped(Receive(e, h, junk))
  {
    if Unwrapped(e) { RecordedBelowWrap(e, h); }
    var s, a := ReadSeq(e, h), ReadAck(e, h);
    var notices := Notices(AckWord(h, junk), e.highestAckedSeq, a);
    ClampBound(AckAckAfter(e.lastSeqRecvdAtSend, e.lastRecvAckAck, e.highestAckedSeq, notices), s);
    WindowMoves(e.highestAckedSeq, a, e.lastSendSeq);
    hide Clamp;
    hide AckAckAfter;
    hide Sub32;
    hide ShiftIn;
    hide Reconstruct;
  }

  lemma WindowMoves(from: u32, to: u32, last: u32)
    requires Sub32(to, from) <= Sub32(last, from)
    ensures Sub32(last, to) == Sub32(last, from) - Sub32(to, from)
  {
  }

  /** The number of the packet that notice i is about, and its distance from the acknowledgement. */
  lemma NoticeIndex(highestAcked: u32, ack: u32, i: nat)
    requires i < Sub32(ack, highestAcked)
    ensures var n := (highestAcked + i + 1) % TWO32;
      Sub32(ack, n) == Sub32(ack, highestAcked) - 1 - i && n % WINDOW_SIZE == (highestAcked + i + 1) % WINDOW_SIZE
  {
  }

  lemma SubNoWrap(a: u32, b: u32)
    requires b <= a
    ensures Sub32(a, b) == a - b
  {
  }

  /** When no more packets are reported than there are transmitted flags, every bit consulted is
      a transmitted one: an uninitialised word is never looked at. */
  lemma NoticeBit(h: Header, junk: Word, acked: u32, ack: u32, i: nat)
    requires |h.ackFlags| <= WINDOW_SIZE && acked <= ack <= acked + |h.ackFlags| && i < ack - acked
    ensures |Notices(AckWord(h, junk), acked, ack)| == ack - acked
    ensures Notices(AckWord(h, junk), acked, ack)[i] == h.ackFlags[ack - (acked + 1 + i)]
  {
    var k := ack - (acked + 1 + i);
    assert k % WINDOW_SIZE == k;
    assert AckWord(h, junk)[k] == h.ackFlags[k];
  }

  lemma {:induction false} AckAckSource(atSend: seq<u32>, ackAck: u32, h: u32, notices: seq<bool>, lo: int, hi: int)
    requires |atSend| == WINDOW_SIZE && lo <= ackAck <= hi
    requires forall i :: 0 <= i < |notices| && notices[i] ==> lo <= atSend[(h + 1 + i) % WINDOW_SIZE] <= hi
    ensures lo <= AckAckAfter(atSend, ackAck, h, notices) <= hi
  {
    if notices != [] {
      var k := |notices| - 1;
      if notices[k] {
        assert (h + 1 + k) % WINDOW_SIZE == (h + |notices|) % WINDOW_SIZE;
      } else {
        AckAckSource(atSend, ackAck, h, notices[..k], lo, hi);
      }
    }
  }

  /** The value taken over is the one recorded for the newest packet that arrived. */
  lemma {:induction false} AckAckNewest(atSend: seq<u32>, ackAck: u32, h: u32, notices: seq<bool>, k: nat)
    requires |atSend| == WINDOW_SIZE
    requires k < |notices| && notices[k] && forall i :: k < i < |notices| ==> !notices[i]
    ensures AckAckAfter(atSend, ackAck, h, notices) == atSend[(h + 1 + k) % WINDOW_SIZE]
  {
    var last := |notices| - 1;
    if k < last {
      AckAckNewest(atSend, ackAck, h, notices[..last], k);
    } else {
      assert h + |notices| == h + 1 + k;
    }
  }

  /** It stays as it is if none did. */
  lemma {:induction false} AckAckSame(atSend: seq<u32>, ackAck: u32, h: u32, notices: seq<bool>)
    requires |atSend| == WINDOW_SIZE && forall i :: 0 <= i < |notices| ==> !notices[i]
    ensures AckAckAfter(atSend, ackAck, h, notices) == ackAck
  {
    if notices != [] { AckAckSame(atSend, ackAck, h, notices[..|notices| - 1]); }
  }

  lemma ClampRange(ackAck: u32, s: u32, lo: int, hi: int)
    requires lo <= ackAck <= hi <= s && s <= hi + WINDOW_SIZE
    ensures lo <= Clamp(ackAck, s) <= hi
  {
  }

  /** The fields after an accepted header whose numbers are `s` and `a` in full, across the wrap too;
      below it the differences are plain ones. */
  lemma ReceiveFields<P>(e: Endpoint<P>, h: Header, junk: Word, s: u32, a: u32)
    requires ValidEndpoint(e) && ValidHeader(h) && Accepts(e, h) && Recorded(e, h)
    requires ReadSeq(e, h) == s && ReadAck(e, h) == a
    ensures |Notices(AckWord(h, junk), e.highestAckedSeq, a)| == Sub32(a, e.highestAckedSeq) <= |e.notifyQueue|
    ensures var e' := Receive(e, h, junk);
            var notices := Notices(AckWord(h, junk), e.highestAckedSeq, a);
      && ValidEndpoint(e')
      && e'.lastSeqRecvd == s && e'.highestAckedSeq == a && e'.lastSendSeq == e.lastSendSeq
      && e'.lastSeqRecvdAtSend == e.lastSeqRecvdAtSend
      && e'.ackMask == ShiftIn(e.ackMask, Sub32(s, e.lastSeqRecvd), h.ptype.DataPacket?)
      && e'.lastRecvAckAck == Clamp(AckAckAfter(e.lastSeqRecvdAtSend, e.lastRecvAckAck, e.highestAckedSeq, notices), s)
      && e'.notifyQueue == e.notifyQueue[Sub32(a, e.highestAckedSeq)..]
      && Notified(e, h, junk) == Zip(e.notifyQueue, notices)
    ensures Unwrapped(e) ==>
      && Unwrapped(Receive(e, h, junk))
      && e.highestAckedSeq <= a && Sub32(a, e.highestAckedSeq) == a - e.highestAckedSeq
      && (e.lastSeqRecvd <= s ==> Sub32(s, e.lastSeqRecvd) == s - e.lastSeqRecvd)
  {
    hide Sub32;
    hide Reconstruct;
    hide Clamp;
    hide ShiftIn;
    hide AckWord;
    hide AckAckAfter;
    ReceiveKeepsValid(e, h, junk);
    if e.lastSeqRecvd <= s { SubNoWrap(s, e.lastSeqRecvd); }
    if Unwrapped(e) {
      RecordedBelowWrap(e, h);
      SubNoWrap(a, e.highestAckedSeq);
    }
  }

  // ----- next to the wrap -----

  /** What a header's sequence number must be for it to be looked at. */
  predicate InSequence<P>(e: Endpoint<P>, h: Header)
    requires h.seqBits < SEQUENCE_WINDOW
  {
    Sub32(ReadSeq(e, h), e.lastSeqRecvd) <= WINDOW_SIZE - 1 && h.ptype != InvalidPacketType
  }

  /** With `sent` packets outstanding, an acknowledgement of the first `acked` of them is discarded
      exactly when lastSendSeq has wrapped and that acknowledgement has not. */
  lemma AckNearWrap<P>(e: Endpoint<P>, h: Header, acked: nat, sent: nat)
    requires acked <= sent <= WINDOW_SIZE
    requires e.lastSendSeq == (e.highestAckedSeq + sent) % TWO32
    requires ValidHeader(h) && InSequence(e, h)
    requires h.ackBits == (e.highestAckedSeq + acked) % TWO32 % ACK_WINDOW
    ensures !Accepts(e, h) <==> e.highestAckedSeq + acked < TWO32 <= e.highestAckedSeq + sent
  {
    hide Sub32;
    hide Reconstruct;
    ReconstructExact(e.highestAckedSeq, acked, ACK_WINDOW);
    OnceWrapped(e.highestAckedSeq + acked);
    OnceWrapped(e.highestAckedSeq + sent);
  }

  /** An acknowledgement of packets already reported, `behind` of them before highestAckedSeq, is
      accepted exactly when its reconstruction passes the wrap and lastSendSeq does not. */
  lemma StaleAckNearWrap<P>(e: Endpoint<P>, h: Header, behind: nat, sent: nat)
    requires 0 < behind < ACK_WINDOW - WINDOW_SIZE && behind <= e.highestAckedSeq && sent <= WINDOW_SIZE
    requires e.lastSendSeq == (e.highestAckedSeq + sent) % TWO32
    requires ValidHeader(h) && InSequence(e, h)
    requires h.ackBits == (e.highestAckedSeq - behind) % ACK_WINDOW
    ensures Accepts(e, h) <==>
      e.highestAckedSeq + sent < TWO32 <= e.highestAckedSeq - behind + ACK_WINDOW
  {
    hide Sub32;
    hide Reconstruct;
    var x := e.highestAckedSeq - behind;
    assert ReadAck(e, h) == if x + ACK_WINDOW < TWO32 then x + ACK_WINDOW else x + ACK_WINDOW - TWO32 by {
      ModModTwo32(x + ACK_WINDOW, ACK_WINDOW);
      ModSplit(1, x, ACK_WINDOW);
      ReconstructExact(e.highestAckedSeq, ACK_WINDOW - behind, ACK_WINDOW);
      OnceWrapped(x + ACK_WINDOW);
    }
    OnceWrapped(e.highestAckedSeq + sent);
  }

  /** An endpoint with two packets outstanding, the second of them numbered 0. */
  const AT_WRAP: Endpoint<int> := Endpoint(7, TWO32 - 2, 0, ZERO_WORD, 7, seq(WINDOW_SIZE, i => 0), [1, 2])

  /** Its first packet is acknowledged, and the acknowledgement is discarded. */
  lemma AckRefusedAtWrap()
    ensures ValidEndpoint(AT_WRAP)
    ensures var h := Header(AckPacket, 7, (TWO32 - 1) % ACK_WINDOW,
                            [true, false, false, false, false, false, false, false]);
      ValidHeader(h) && InSequence(AT_WRAP, h) && !Accepts(AT_WRAP, h)
  {
    var h := Header(AckPacket, 7, (TWO32 - 1) % ACK_WINDOW, [true, false, false, false, false, false, false, false]);
    AckNearWrap(AT_WRAP, h, 1, 2);
  }

  /** An endpoint with nothing outstanding, ten packets before the wrap. */
  const BEFORE_WRAP: Endpoint<int> := Endpoint(7, TWO32 - 10, TWO32 - 10, ZERO_WORD, 7, seq(WINDOW_SIZE, i => 0), [])

  /** An old acknowledgement of the packet before its last one is accepted, for packets it has no record of. */
  lemma StaleAckAccepted()
    ensures ValidEndpoint(BEFORE_WRAP)
    ensures var h := Header(AckPacket, 7, (TWO32 - 11) % ACK_WINDOW, []);
      ValidHeader(h) && InSequence(BEFORE_WRAP, h) && Accepts(BEFORE_WRAP, h) && !Recorded(BEFORE_WRAP, h)
  {
    var h := Header(AckPacket, 7, (TWO32 - 11) % ACK_WINDOW, []);
    StaleAckNearWrap(BEFORE_WRAP, h, 1, 0);
  }
}
