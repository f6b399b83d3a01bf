/** Two endpoints of the notify protocol and the network between them.  The network may lose,
    duplicate, reorder and delay packets: every packet ever sent stays available for delivery,
    any number of times or never. */
module NotifySystem {
  import opened NotifyProtocol

  /** A packet with the full numbers its header abbreviates.  The receiver sees only the header
      and the body. */
  datatype Packet<P> = Packet(header: Header, sequence: int, ack: int, body: seq<P>)

  /** One endpoint and the history of what it did: the bodies it sent, the reports it gave on
      them, and on its receiving side the data sequence numbers whose header it accepted and
      whose body it read, with those bodies in the order of reading. */
  datatype Side<P(==)> = Side(
    ep: Endpoint<P>,
    init: u32,
    sent: seq<P>,
    notified: seq<(P, bool)>,
    accepted: set<int>,
    processed: set<int>,
    delivered: seq<(int, P)>,
    out: set<Packet<P>>)

  datatype Action<P(==)> =
    | SendBody(body: P)
    | SendControl(ptype: PacketType)
    | Deliver(packet: Packet<P>, junk: Word)

  /** The network delivers no packet so old that its abbreviated numbers have come round again. */
  ghost predicate Fresh<P>(e: Endpoint<P>, p: Packet<P>) {
    && e.lastSeqRecvd + WINDOW_SIZE <= p.sequence + SEQUENCE_WINDOW
    && e.lastSendSeq < p.ack + ACK_WINDOW
  }

  ghost predicate Enabled<P>(x: Side<P>, y: Side<P>, act: Action<P>) {
    match act
    case SendBody(_) => !WindowFull(x.ep, false) && x.ep.lastSendSeq + 1 + SEQUENCE_WINDOW < TWO32
    case SendControl(t) => t.PingPacket? || t.AckPacket?
    case Deliver(p, _) => p in y.out && Fresh(x.ep, p)
  }

  ghost function SendBodyAt<P>(x: Side<P>, body: P): Side<P>
    requires Unwrapped(x.ep)
  {
    var p := Packet(MakeHeader(Advance(x.ep), DataPacket), x.ep.lastSendSeq + 1, x.ep.lastSeqRecvd, [body]);
    x.(ep := NotifyProtocol.SendData(x.ep, body), sent := x.sent + [body], out := x.out + {p})
  }

  ghost function SendControlAt<P>(x: Side<P>, t: PacketType): Side<P>
    requires Unwrapped(x.ep)
  {
    x.(out := x.out + {Packet(MakeHeader(x.ep, t), x.ep.lastSendSeq, x.ep.lastSeqRecvd, [])})
  }

  ghost function AcceptAt<P>(x: Side<P>, p: Packet<P>, junk: Word): Side<P>
    requires Unwrapped(x.ep) && ValidHeader(p.header) && Accepts(x.ep, p.header) && Recorded(x.ep, p.header)
  {
    var s := ReadSeq(x.ep, p.header);
    x.(ep := Receive(x.ep, p.header, junk),
       notified := x.notified + Notified(x.ep, p.header, junk),
       accepted := if p.header.ptype.DataPacket? then x.accepted + {s} else x.accepted,
       processed := if Processes(x.ep, p.header) then x.processed + {s} else x.processed,
       delivered := if Processes(x.ep, p.header) && p.body != [] then x.delivered + [(s, p.body[0])] else x.delivered)
  }

  ghost function DeliverAt<P>(x: Side<P>, p: Packet<P>, junk: Word): Side<P>
    requires Unwrapped(x.ep) && ValidHeader(p.header)
  {
    if !Accepts(x.ep, p.header) then x
    else
      RecordedBelowWrap(x.ep, p.header);
      ReceiveKeepsValid(x.ep, p.header, junk);
      var x' := AcceptAt(x, p, junk);
      if AcksBack(x'.ep, p.header) then SendControlAt(x', AckPacket) else x'
  }

  /** The acting side after an action; the other side does not change. */
  ghost function Act<P>(x: Side<P>, y: Side<P>, act: Action<P>): Side<P>
    requires Inv(x, y) && Enabled(x, y, act)
  {
    match act
    case SendBody(body) => SendBodyAt(x, body)
    case SendControl(t) => SendControlAt(x, t)
    case Deliver(p, junk) => DeliverAt(x, p, junk)
  }

  // ----- the invariant; x sends to y -----

  /** Each side knows of the other's progress no more than is true. */
  ghost predicate WindowInv<P>(x: Side<P>, y: Side<P>) {
    && x.init <= y.ep.lastRecvAckAck <= x.ep.highestAckedSeq
    && x.ep.highestAckedSeq <= y.ep.lastSeqRecvd <= x.ep.lastSendSeq
  }

  ghost predicate QueueInv<P>(x: Side<P>) {
    && x.ep.lastSendSeq == x.init + |x.sent|
    && |x.notified| == x.ep.highestAckedSeq - x.init <= |x.sent|
    && x.ep.notifyQueue == x.sent[|x.notified|..]
    && (forall i :: 0 <= i < |x.notified| ==> x.notified[i].0 == x.sent[i])
  }

  ghost predicate MaskInv<P>(x: Side<P>, y: Side<P>) {
    && (forall n :: n in y.accepted ==> x.init < n <= y.ep.lastSeqRecvd)
    && (forall i :: 0 <= i < WINDOW_SIZE ==> (y.ep.ackMask[i] <==> y.ep.lastSeqRecvd - i in y.accepted))
  }

  ghost function Numbers<P>(delivered: seq<(int, P)>): set<int> {
    if delivered == [] then {}
    else Numbers(delivered[..|delivered| - 1]) + {delivered[|delivered| - 1].0}
  }

  ghost predicate InSendOrder<P>(delivered: seq<(int, P)>) {
    forall i, j :: 0 <= i < j < |delivered| ==> delivered[i].0 < delivered[j].0
  }

  /** Every body read is the one sent under its number. */
  ghost predicate AsSent<P>(init: int, sent: seq<P>, delivered: seq<(int, P)>) {
    forall i :: 0 <= i < |delivered| ==>
      init < delivered[i].0 <= init + |sent| && delivered[i].1 == sent[delivered[i].0 - init - 1]
  }

  ghost predicate ProcessedInv<P>(x: Side<P>, y: Side<P>) {
    && y.processed <= y.accepted
    && y.processed == Numbers(y.delivered)
    && InSendOrder(y.delivered)
    && AsSent(x.init, x.sent, y.delivered)
  }

  ghost predicate AtSendInv<P>(x: Side<P>, y: Side<P>)
    requires |x.ep.lastSeqRecvdAtSend| == WINDOW_SIZE
  {
    && (forall p :: p in x.out && p.header.ptype.DataPacket? && p.sequence > x.ep.highestAckedSeq ==>
          x.ep.lastSeqRecvdAtSend[p.sequence % WINDOW_SIZE] == p.ack)
    && (forall n :: n in y.accepted && n > x.ep.highestAckedSeq ==>
          y.init <= x.ep.lastSeqRecvdAtSend[n % WINDOW_SIZE] <= y.ep.highestAckedSeq)
  }

  ghost predicate PacketInv<P>(x: Side<P>, y: Side<P>, p: Packet<P>) {
    var h := p.header;
    && ValidHeader(h) && !h.ptype.InvalidPacketType?
    && x.init <= p.sequence <= x.ep.lastSendSeq && y.init <= p.ack <= x.ep.lastSeqRecvd
    && h.seqBits == p.sequence % SEQUENCE_WINDOW && h.ackBits == p.ack % ACK_WINDOW
    && (if h.ptype.DataPacket? then
          x.init < p.sequence <= x.init + |x.sent| && p.body == [x.sent[p.sequence - x.init - 1]]
        else p.body == [])
    && p.ack - |h.ackFlags| <= y.ep.highestAckedSeq
    && (forall i :: 0 <= i < |h.ackFlags| ==> Truthful(x, p.ack - i, h.ackFlags[i]))
  }

  /** A packet reported as arrived had its header accepted; one whose body was read is reported
      as arrived. */
  ghost predicate Truthful<P>(y: Side<P>, n: int, arrived: bool) {
    (arrived ==> n in y.accepted) && (n in y.processed ==> arrived)
  }

  ghost predicate NoticeInv<P>(x: Side<P>, y: Side<P>) {
    forall i :: 0 <= i < |x.notified| ==> Truthful(y, x.init + 1 + i, x.notified[i].1)
  }

  ghost predicate Half<P>(x: Side<P>, y: Side<P>) {
    && Unwrapped(x.ep)
    && WindowInv(x, y)
    && QueueInv(x)
    && MaskInv(x, y)
    && ProcessedInv(x, y)
    && AtSendInv(x, y)
    && (forall p :: p in x.out ==> PacketInv(x, y, p))
    && NoticeInv(x, y)
  }

  ghost predicate Inv<P>(x: Side<P>, y: Side<P>) {
    Half(x, y) && Half(y, x)
  }

  // ----- the start -----

  ghost function InitialSide<P>(sendSeq: u32, recvSeq: u32): Side<P> {
    Side(Initial(sendSeq, recvSeq), sendSeq, [], [], {}, {}, [], {})
  }

  /** Both sides once each has been told the other's initial sequence number. */
  ghost function Start<P>(a: u32, b: u32): (r: (Side<P>, Side<P>))
    requires a + SEQUENCE_WINDOW < TWO32 && b + SEQUENCE_WINDOW < TWO32
    ensures Inv(r.0, r.1)
  {
    (InitialSide(a, b), InitialSide(b, a))
  }

  // ----- sending -----

  lemma NewPacketInv<P>(x: Side<P>, y: Side<P>, x': Side<P>, p: Packet<P>)
    requires Inv(x, y) && Unwrapped(x'.ep)
    requires x'.init == x.init && x'.accepted == x.accepted && x'.processed == x.processed
    requires x'.ep.ackMask == x.ep.ackMask && x'.ep.lastSeqRecvd == x.ep.lastSeqRecvd
    requires x'.ep.lastRecvAckAck == x.ep.lastRecvAckAck
    requires x.init <= x'.ep.lastSendSeq
    requires (p.header.ptype.DataPacket? ==> x.init < x'.ep.lastSendSeq == x.init + |x'.sent|)
    requires !p.header.ptype.InvalidPacketType?
    requires AckByteCount(x'.ep) <= MAX_ACK_BYTES && p.header == MakeHeader(x'.ep, p.header.ptype)
    requires p.sequence == x'.ep.lastSendSeq && p.ack == x.ep.lastSeqRecvd
    requires p.body == if p.header.ptype.DataPacket? then [x'.sent[|x'.sent| - 1]] else []
    ensures PacketInv(x', y, p)
  {
    hide Sub32;
    hide Truthful;
    hide AtSendInv;
    hide QueueInv;
    hide NoticeInv;
    assert p.sequence % SEQUENCE_WINDOW < SEQUENCE_WINDOW && p.ack % ACK_WINDOW < ACK_WINDOW;
    FlagsCover(x'.ep);
    FlagsTruthful(x, y, x', p);
  }

  /** The flags of a header go back to what the other side has seen acknowledged. */
  lemma FlagsCover<P>(e: Endpoint<P>)
    requires AckByteCount(e) <= MAX_ACK_BYTES && e.lastRecvAckAck <= e.lastSeqRecvd
    ensures 8 * AckByteCount(e) >= e.lastSeqRecvd - e.lastRecvAckAck
  {
    SubNoWrap(e.lastSeqRecvd, e.lastRecvAckAck);
  }

  lemma FlagsTruthful<P>(x: Side<P>, y: Side<P>, x': Side<P>, p: Packet<P>)
    requires MaskInv(y, x) && x.processed <= x.accepted
    requires x'.accepted == x.accepted && x'.processed == x.processed && p.ack == x.ep.lastSeqRecvd
    requires p.header.ackFlags <= x.ep.ackMask
    ensures forall i :: 0 <= i < |p.header.ackFlags| ==> Truthful(x', p.ack - i, p.header.ackFlags[i])
  {
  }

  /** A packet already sent stays well described while both sides go on. */
  lemma PacketInvLater<P>(x: Side<P>, y: Side<P>, x': Side<P>, y': Side<P>, p: Packet<P>)
    requires PacketInv(x, y, p)
    requires x'.init == x.init && y'.init == y.init
    requires x.ep.lastSendSeq <= x'.ep.lastSendSeq && x.ep.lastSeqRecvd <= x'.ep.lastSeqRecvd
    requires x.sent <= x'.sent && y.ep.highestAckedSeq <= y'.ep.highestAckedSeq
    requires x.accepted <= x'.accepted
    requires forall n :: n in x'.processed && n <= x.ep.lastSeqRecvd ==> n in x.processed
    ensures PacketInv(x', y', p)
  {
  }

  lemma ProcessedInvLater<P>(x: Side<P>, y: Side<P>, x': Side<P>)
    requires ProcessedInv(x, y) && x'.init == x.init && x.sent <= x'.sent
    ensures ProcessedInv(x', y)
  {
  }

  lemma SendControlSender<P>(x: Side<P>, y: Side<P>, t: PacketType)
    requires Inv(x, y) && (t.PingPacket? || t.AckPacket?)
    ensures Half(SendControlAt(x, t), y)
  {
    hide PacketInv;
    hide AtSendInv;
    hide Truthful;
    hide MakeHeader;
    hide ValidEndpoint;
    ControlPackets(x, y, t);
    ProcessedInvLater(x, y, SendControlAt(x, t));
    ControlAtSend(x, y, t);
  }

  lemma ControlAtSend<P>(x: Side<P>, y: Side<P>, t: PacketType)
    requires Unwrapped(x.ep) && AtSendInv(x, y) && (t.PingPacket? || t.AckPacket?)
    ensures AtSendInv(SendControlAt(x, t), y)
  {
  }

  lemma ControlPackets<P>(x: Side<P>, y: Side<P>, t: PacketType)
    requires Inv(x, y) && (t.PingPacket? || t.AckPacket?)
    ensures forall q :: q in SendControlAt(x, t).out ==> PacketInv(SendControlAt(x, t), y, q)
  {
    hide PacketInv;
    hide AtSendInv;
    hide Truthful;
    var x' := SendControlAt(x, t);
    var p := Packet(MakeHeader(x.ep, t), x.ep.lastSendSeq, x.ep.lastSeqRecvd, []);
    NewPacketInv(x, y, x', p);
    forall q | q in x'.out ensures PacketInv(x', y, q) {
      if q != p { PacketInvLater(x, y, x', y, q); }
    }
  }

  lemma SequencesSent<P>(x: Side<P>, y: Side<P>)
    requires Half(x, y)
    ensures forall p :: p in x.out ==> p.sequence <= x.ep.lastSendSeq
    ensures forall n :: n in y.accepted ==> n <= x.ep.lastSendSeq
  {
    forall p | p in x.out ensures p.sequence <= x.ep.lastSendSeq {
      assert PacketInv(x, y, p);
    }
  }

  lemma SendBodyQueue<P>(x: Side<P>, body: P)
    requires Unwrapped(x.ep) && QueueInv(x) && !WindowFull(x.ep, false)
    requires x.ep.lastSendSeq + 1 + SEQUENCE_WINDOW < TWO32
    ensures Unwrapped(SendBodyAt(x, body).ep) && QueueInv(SendBodyAt(x, body))
  {
    SendKeepsValid(x.ep, body);
    hide Sub32;
  }

  lemma SendBodySender<P>(x: Side<P>, y: Side<P>, body: P)
    requires Inv(x, y) && Enabled(x, y, SendBody(body))
    ensures Half(SendBodyAt(x, body), y)
  {
    hide PacketInv;
    hide AtSendInv;
    hide QueueInv;
    hide ProcessedInv;
    hide Truthful;
    hide MakeHeader;
    hide WindowFull;
    hide ValidEndpoint;
    hide Sub32;
    SequencesSent(x, y);
    SendBodyQueue(x, body);
    SendBodyAtSend(x, y, body);
    SendBodyPackets(x, y, body);
    ProcessedInvLater(x, y, SendBodyAt(x, body));
  }

  lemma SendBodyPackets<P>(x: Side<P>, y: Side<P>, body: P)
    requires Inv(x, y) && Enabled(x, y, SendBody(body))
    ensures forall q :: q in SendBodyAt(x, body).out ==> PacketInv(SendBodyAt(x, body), y, q)
  {
    hide PacketInv;
    hide AtSendInv;
    hide Truthful;
    hide Sub32;
    var x' := SendBodyAt(x, body);
    SendKeepsValid(x.ep, body);
    var p := Packet(MakeHeader(Advance(x.ep), DataPacket), x.ep.lastSendSeq + 1, x.ep.lastSeqRecvd, [body]);
    NewPacketInv(x, y, x', p);
    forall q | q in x'.out ensures PacketInv(x', y, q) {
      if q != p { PacketInvLater(x, y, x', y, q); }
    }
  }

  /** The slot that a data packet takes in mLastSeqRecvdAtSend belongs to no packet still
      waiting for its notification. */
  lemma SendBodyAtSend<P>(x: Side<P>, y: Side<P>, body: P)
    requires Unwrapped(x.ep) && AtSendInv(x, y) && Enabled(x, y, SendBody(body))
    requires forall p :: p in x.out ==> p.sequence <= x.ep.lastSendSeq
    requires forall n :: n in y.accepted ==> n <= x.ep.lastSendSeq
    ensures AtSendInv(SendBodyAt(x, body), y)
  {
    SubNoWrap(x.ep.lastSendSeq, x.ep.highestAckedSeq);
    hide Sub32;
    hide WindowFull;
    hide MakeHeader;
    var s := x.ep.lastSendSeq + 1;
    var slots := x.ep.lastSeqRecvdAtSend;
    var slots' := SendBodyAt(x, body).ep.lastSeqRecvdAtSend;
    OnceWrapped(s);
    assert slots' == slots[s % WINDOW_SIZE := x.ep.lastSeqRecvd];
    forall p | p in SendBodyAt(x, body).out && p.header.ptype.DataPacket? && p.sequence > x.ep.highestAckedSeq
      ensures slots'[p.sequence % WINDOW_SIZE] == p.ack
    {
      if p in x.out { SlotsDiffer(p.sequence, s); }
    }
    forall n | n in y.accepted && n > x.ep.highestAckedSeq
      ensures slots'[n % WINDOW_SIZE] == slots[n % WINDOW_SIZE]
    {
      SlotsDiffer(n, s);
    }
  }

  /** Sending changes nothing on which the opposite direction depends. */
  lemma SendReceiver<P>(x: Side<P>, y: Side<P>, x': Side<P>)
    requires Half(y, x)
    requires x' == x.(ep := x'.ep, sent := x'.sent, out := x'.out)
    requires x'.ep
         == x.ep.(lastSendSeq := x'.ep.lastSendSeq, lastSeqRecvdAtSend := x'.ep.lastSeqRecvdAtSend,
                  notifyQueue := x'.ep.notifyQueue)
    ensures Half(y, x')
  {
    forall q | q in y.out ensures PacketInv(y, x', q) {
      PacketInvLater(y, x, y, x', q);
    }
  }

  lemma SlotsDiffer(m: int, n: int)
    requires m < n < m + WINDOW_SIZE
    ensures m % WINDOW_SIZE != n % WINDOW_SIZE
  {
  }

  // ----- receiving -----

  lemma SequenceRead(last: u32, s: u32)
    requires s < last + WINDOW_SIZE <= s + SEQUENCE_WINDOW && last + SEQUENCE_WINDOW < TWO32
    ensures var v := Reconstruct(last, s % SEQUENCE_WINDOW, SEQUENCE_WINDOW);
      if last <= s then v == s && Sub32(v, last) == s - last else Sub32(v, last) >= WINDOW_SIZE
  {
    hide Reconstruct;
    hide Sub32;
    if last <= s {
      OnceWrapped(s);
      ReconstructExact(last, s - last, SEQUENCE_WINDOW);
      SubNoWrap(s, last);
    } else {
      ReconstructStale(last, s, SEQUENCE_WINDOW);
      SubNoWrap(Reconstruct(last, s % SEQUENCE_WINDOW, SEQUENCE_WINDOW), last);
    }
  }

  lemma AckRead(acked: u32, lastSent: u32, a: u32)
    requires acked <= lastSent < acked + WINDOW_SIZE && a <= lastSent < a + ACK_WINDOW
    requires lastSent + SEQUENCE_WINDOW < TWO32
    ensures var v := Reconstruct(acked, a % ACK_WINDOW, ACK_WINDOW);
      if acked <= a then v == a else v > lastSent
  {
    if acked <= a {
      ReconstructExact(acked, a - acked, ACK_WINDOW);
    } else {
      ReconstructStale(acked, a, ACK_WINDOW);
    }
  }

  /** A packet that is not too old is accepted exactly when neither of its numbers is behind what
      the receiver already knows, and then both are recovered in full. */
  lemma HeaderReadExactly<P>(x: Side<P>, y: Side<P>, p: Packet<P>)
    requires Inv(x, y) && p in y.out && Fresh(x.ep, p)
    ensures ValidHeader(p.header)
    ensures Accepts(x.ep, p.header) <==> x.ep.lastSeqRecvd <= p.sequence && x.ep.highestAckedSeq <= p.ack
    ensures Accepts(x.ep, p.header) ==>
      && ReadSeq(x.ep, p.header) == p.sequence < x.ep.lastSeqRecvd + WINDOW_SIZE
      && ReadAck(x.ep, p.header) == p.ack <= x.ep.lastSendSeq
      && Recorded(x.ep, p.header)
  {
    hide Recorded;
    hide Reconstruct;
    hide Truthful;
    assert PacketInv(y, x, p);
    SubNoWrap(x.ep.lastSendSeq, x.ep.highestAckedSeq);
    hide Sub32;
    SequenceRead(x.ep.lastSeqRecvd, p.sequence);
    AckRead(x.ep.highestAckedSeq, x.ep.lastSendSeq, p.ack);
    if Accepts(x.ep, p.header) { RecordedBelowWrap(x.ep, p.header); }
  }

  ghost predicate Delivers<P>(x: Side<P>, y: Side<P>, p: Packet<P>) {
    && Inv(x, y) && p in y.out && Fresh(x.ep, p)
    && ValidHeader(p.header) && Accepts(x.ep, p.header) && Recorded(x.ep, p.header)
  }

  /** What an accepted packet changes, in terms of the full numbers and of the notices it brings. */
  ghost predicate Accepted<P>(x: Side<P>, p: Packet<P>, notices: seq<bool>, x': Side<P>) {
    var data := p.header.ptype.DataPacket?;
    var isNew := data && p.sequence > x.ep.lastSeqRecvd;
    && x'.init == x.init && x'.sent == x.sent && x'.out == x.out
    && x.ep.lastSeqRecvd <= p.sequence < x.ep.lastSeqRecvd + WINDOW_SIZE
    && x.ep.highestAckedSeq <= p.ack <= x.ep.lastSendSeq
    && |notices| == p.ack - x.ep.highestAckedSeq <= |x.ep.notifyQueue|
    && Unwrapped(x'.ep)
    && x'.ep.lastSeqRecvd == p.sequence && x'.ep.highestAckedSeq == p.ack
    && x'.ep.lastSendSeq == x.ep.lastSendSeq && x'.ep.lastSeqRecvdAtSend == x.ep.lastSeqRecvdAtSend
    && x'.ep.notifyQueue == x.ep.notifyQueue[|notices|..]
    && x'.notified == x.notified + Zip(x.ep.notifyQueue, notices)
    && x'.accepted == (if data then x.accepted + {p.sequence} else x.accepted)
    && x'.processed == (if isNew then x.processed + {p.sequence} else x.processed)
    && (data ==> |p.body| == 1)
    && x'.delivered == (if isNew then x.delivered + [(p.sequence, p.body[0])] else x.delivered)
  }

  ghost function NoticesOf<P>(x: Side<P>, p: Packet<P>, junk: Word): seq<bool>
    requires |p.header.ackFlags| <= WINDOW_SIZE && 0 <= x.ep.highestAckedSeq <= p.ack < TWO32
  {
    Notices(AckWord(p.header, junk), x.ep.highestAckedSeq, p.ack)
  }

  lemma AcceptInFull<P>(x: Side<P>, y: Side<P>, p: Packet<P>, junk: Word)
    requires Delivers(x, y, p)
    ensures PacketInv(y, x, p) && x.ep.highestAckedSeq <= p.ack < TWO32
    ensures Accepted(x, p, NoticesOf(x, p, junk), AcceptAt(x, p, junk))
  {
    hide Reconstruct;
    hide ShiftIn;
    hide Clamp;
    hide AckAckAfter;
    hide AckWord;
    hide Truthful;
    hide Receive;
    hide Recorded;
    hide Sub32;
    HeaderReadExactly(x, y, p);
    assert PacketInv(y, x, p);
    ReceiveFields(x.ep, p.header, junk, p.sequence, p.ack);
    SubNoWrap(p.ack, x.ep.highestAckedSeq);
    SubNoWrap(p.sequence, x.ep.lastSeqRecvd);
  }

  /** A new notice says "arrived" only of a packet whose header was accepted, and says it of
      every packet whose body was read. */
  lemma NoticesTrue<P>(x: Side<P>, y: Side<P>, p: Packet<P>, junk: Word)
    requires PacketInv(y, x, p) && x.ep.highestAckedSeq <= p.ack < TWO32
    ensures forall i :: 0 <= i < |NoticesOf(x, p, junk)| ==>
      Truthful(y, x.ep.highestAckedSeq + 1 + i, NoticesOf(x, p, junk)[i])
  {
    var notices := NoticesOf(x, p, junk);
    forall i | 0 <= i < |notices| ensures Truthful(y, x.ep.highestAckedSeq + 1 + i, notices[i]) {
      NoticeBit(p.header, junk, x.ep.highestAckedSeq, p.ack, i);
      assert Truthful(y, p.ack - (p.ack - (x.ep.highestAckedSeq + 1 + i)), notices[i]);
    }
  }

  /** mLastRecvAckAck never passes the acknowledgement that the other side has processed. */
  lemma AcceptAckAck<P>(x: Side<P>, y: Side<P>, p: Packet<P>, junk: Word)
    requires Delivers(x, y, p)
    ensures y.init <= Receive(x.ep, p.header, junk).lastRecvAckAck <= y.ep.highestAckedSeq
  {
    hide Sub32;
    hide Recorded;
    hide Reconstruct;
    hide Truthful;
    hide ShiftIn;
    hide Clamp;
    hide AckAckAfter;
    hide AckWord;
    hide Notices;
    HeaderReadExactly(x, y, p);
    assert PacketInv(y, x, p);
    ReceiveFields(x.ep, p.header, junk, p.sequence, p.ack);
    NoticesTrue(x, y, p, junk);
    var notices := NoticesOf(x, p, junk);
    AckAckBound(x, y, notices);
    ClampRange(AckAckAfter(x.ep.lastSeqRecvdAtSend, x.ep.lastRecvAckAck, x.ep.highestAckedSeq, notices),
               p.sequence, y.init, y.ep.highestAckedSeq);
  }

  lemma AckAckBound<P>(x: Side<P>, y: Side<P>, notices: seq<bool>)
    requires Unwrapped(x.ep) && AtSendInv(x, y) && WindowInv(y, x)
    requires forall i :: 0 <= i < |notices| ==> Truthful(y, x.ep.highestAckedSeq + 1 + i, notices[i])
    ensures y.init <= AckAckAfter(x.ep.lastSeqRecvdAtSend, x.ep.lastRecvAckAck, x.ep.highestAckedSeq, notices)
      <= y.ep.highestAckedSeq
  {
    var atSend, h := x.ep.lastSeqRecvdAtSend, x.ep.highestAckedSeq;
    forall i | 0 <= i < |notices| && notices[i]
      ensures y.init <= atSend[(h + 1 + i) % WINDOW_SIZE] <= y.ep.highestAckedSeq
    {
      assert Truthful(y, h + 1 + i, notices[i]);
    }
    AckAckSource(atSend, x.ep.lastRecvAckAck, h, notices, y.init, y.ep.highestAckedSeq);
  }

  lemma AcceptQueue<P>(x: Side<P>, p: Packet<P>, notices: seq<bool>, x': Side<P>)
    requires QueueInv(x) && Accepted(x, p, notices, x')
    ensures QueueInv(x')
    ensures |x'.notified| == |x.notified| + |notices|
    ensures forall i :: 0 <= i < |x'.notified| ==>
      x'.notified[i].1 == if i < |x.notified| then x.notified[i].1 else notices[i - |x.notified|]
  {
  }

  lemma AcceptNotices<P>(x: Side<P>, y: Side<P>, p: Packet<P>, notices: seq<bool>, x': Side<P>)
    requires QueueInv(x) && NoticeInv(x, y) && Accepted(x, p, notices, x')
    requires forall i :: 0 <= i < |notices| ==> Truthful(y, x.ep.highestAckedSeq + 1 + i, notices[i])
    ensures NoticeInv(x', y)
  {
    AcceptQueue(x, p, notices, x');
    forall i | 0 <= i < |x'.notified| ensures Truthful(y, x.init + 1 + i, x'.notified[i].1) {
      if i >= |x.notified| {
        assert Truthful(y, x.ep.highestAckedSeq + 1 + (i - |x.notified|), notices[i - |x.notified|]);
      }
    }
  }

  lemma AcceptSender<P>(x: Side<P>, y: Side<P>, p: Packet<P>, notices: seq<bool>, x': Side<P>)
    requires Inv(x, y) && PacketInv(y, x, p) && Accepted(x, p, notices, x')
    requires forall i :: 0 <= i < |notices| ==> Truthful(y, x.ep.highestAckedSeq + 1 + i, notices[i])
    ensures Half(x', y)
  {
    AcceptQueue(x, p, notices, x');
    AcceptNotices(x, y, p, notices, x');
    ProcessedInvLater(x, y, x');
    forall q | q in x'.out ensures PacketInv(x', y, q) {
      PacketInvLater(x, y, x', y, q);
    }
  }

  lemma MaskShifted(mask: Word, accepted: set<int>, last: int, s: int, data: bool, mask': Word, accepted': set<int>)
    requires last <= s < last + WINDOW_SIZE
    requires forall n :: n in accepted ==> n <= last
    requires forall i :: 0 <= i < WINDOW_SIZE ==> (mask[i] <==> last - i in accepted)
    requires mask' == ShiftIn(mask, s - last, data)
    requires accepted' == if data then accepted + {s} else accepted
    ensures forall i :: 0 <= i < WINDOW_SIZE ==> (mask'[i] <==> s - i in accepted')
  {
    forall i | 0 <= i < WINDOW_SIZE ensures mask'[i] <==> s - i in accepted' {
      if i >= s - last {
        assert last - (i - (s - last)) == s - i;
      }
    }
  }

  lemma AcceptMask<P>(x: Side<P>, y: Side<P>, p: Packet<P>, notices: seq<bool>, x': Side<P>)
    requires MaskInv(y, x) && PacketInv(y, x, p) && Accepted(x, p, notices, x')
    requires x'.ep.ackMask == ShiftIn(x.ep.ackMask, p.sequence - x.ep.lastSeqRecvd, p.header.ptype.DataPacket?)
    ensures MaskInv(y, x')
  {
    MaskShifted(x.ep.ackMask, x.accepted, x.ep.lastSeqRecvd, p.sequence, p.header.ptype.DataPacket?,
                x'.ep.ackMask, x'.accepted);
  }

  lemma {:induction false} NumbersHas<P>(delivered: seq<(int, P)>, n: int)
    ensures n in Numbers(delivered) <==> exists i :: 0 <= i < |delivered| && delivered[i].0 == n
  {
    if delivered != [] {
      var last := |delivered| - 1;
      NumbersHas(delivered[..last], n);
      if i :| 0 <= i < last && delivered[i].0 == n {
        assert delivered[..last][i].0 == n;
      }
    }
  }

  lemma DeliveredAppend<P>(x: Side<P>, y: Side<P>, y': Side<P>, n: int, body: P)
    requires ProcessedInv(x, y) && MaskInv(x, y) && n > y.ep.lastSeqRecvd
    requires x.init < n <= x.init + |x.sent| && body == x.sent[n - x.init - 1]
    requires y'.delivered == y.delivered + [(n, body)] && y'.processed == y.processed + {n}
    requires y'.accepted == y.accepted + {n}
    ensures ProcessedInv(x, y')
  {
    var before := |y.delivered|;
    assert Numbers(y'.delivered) == Numbers(y.delivered) + {n} by {
      assert y'.delivered[..before] == y.delivered && y'.delivered[before] == (n, body);
    }
    hide Numbers;
    forall i | 0 <= i < before ensures y.delivered[i].0 < n { NumbersHas(y.delivered, y.delivered[i].0); }
    assert forall i :: 0 <= i < before ==> y'.delivered[i] == y.delivered[i];
  }

  lemma AcceptProcessed<P>(x: Side<P>, y: Side<P>, p: Packet<P>, notices: seq<bool>, x': Side<P>)
    requires ProcessedInv(y, x) && MaskInv(y, x) && PacketInv(y, x, p) && Accepted(x, p, notices, x')
    ensures ProcessedInv(y, x')
  {
    hide ProcessedInv;
    hide MaskInv;
    hide Truthful;
    hide ValidEndpoint;
    if p.header.ptype.DataPacket? && p.sequence > x.ep.lastSeqRecvd {
      DeliveredAppend(y, x, x', p.sequence, p.body[0]);
    } else {
      NothingDelivered(y, x, x');
    }
  }

  lemma NothingDelivered<P>(x: Side<P>, y: Side<P>, y': Side<P>)
    requires ProcessedInv(x, y) && y'.delivered == y.delivered && y'.processed == y.processed
    requires y.accepted <= y'.accepted
    ensures ProcessedInv(x, y')
  {
  }

  lemma AcceptAtSend<P>(x: Side<P>, y: Side<P>, p: Packet<P>, notices: seq<bool>, x': Side<P>)
    requires Unwrapped(y.ep) && AtSendInv(y, x) && p in y.out && PacketInv(y, x, p) && Accepted(x, p, notices, x')
    ensures AtSendInv(y, x')
  {
  }

  lemma NoticeInvLater<P>(x: Side<P>, y: Side<P>, y': Side<P>)
    requires QueueInv(x) && WindowInv(x, y) && NoticeInv(x, y) && y.accepted <= y'.accepted
    requires forall n :: n in y'.processed && n <= y.ep.lastSeqRecvd ==> n in y.processed
    ensures NoticeInv(x, y')
  {
    forall i | 0 <= i < |x.notified| ensures Truthful(y', x.init + 1 + i, x.notified[i].1) {
      assert Truthful(y, x.init + 1 + i, x.notified[i].1);
    }
  }

  lemma AcceptReceiver<P>(x: Side<P>, y: Side<P>, p: Packet<P>, notices: seq<bool>, x': Side<P>)
    requires Inv(x, y) && p in y.out && PacketInv(y, x, p) && Accepted(x, p, notices, x')
    requires MaskInv(y, x') && y.init <= x'.ep.lastRecvAckAck <= y.ep.highestAckedSeq
    ensures Half(y, x')
  {
    AcceptProcessed(x, y, p, notices, x');
    AcceptAtSend(x, y, p, notices, x');
    NoticeInvLater(y, x, x');
    forall q | q in y.out ensures PacketInv(y, x', q) {
      PacketInvLater(y, x, y, x', q);
    }
  }

  lemma AcceptKeepsInv<P>(x: Side<P>, y: Side<P>, p: Packet<P>, junk: Word)
    requires Delivers(x, y, p)
    ensures Inv(AcceptAt(x, p, junk), y)
  {
    hide Sub32;
    hide Recorded;
    hide Reconstruct;
    hide Truthful;
    hide AckWord;
    hide Notices;
    hide Clamp;
    hide AckAckAfter;
    hide PacketInv;
    hide QueueInv;
    hide MaskInv;
    hide AtSendInv;
    hide ProcessedInv;
    hide NoticeInv;
    hide Receive;
    hide ValidEndpoint;
    var x' := AcceptAt(x, p, junk);
    AcceptInFull(x, y, p, junk);
    HeaderReadExactly(x, y, p);
    ReceiveFields(x.ep, p.header, junk, p.sequence, p.ack);
    AcceptAckAck(x, y, p, junk);
    NoticesTrue(x, y, p, junk);
    AcceptMask(x, y, p, NoticesOf(x, p, junk), x');
    AcceptSender(x, y, p, NoticesOf(x, p, junk), x');
    AcceptReceiver(x, y, p, NoticesOf(x, p, junk), x');
  }

  /** Every action of either side keeps the invariant. */
  lemma ActKeepsInv<P>(x: Side<P>, y: Side<P>, act: Action<P>)
    requires Inv(x, y) && Enabled(x, y, act)
    ensures Inv(Act(x, y, act), y)
  {
    hide PacketInv;
    hide AtSendInv;
    hide MaskInv;
    hide QueueInv;
    hide ProcessedInv;
    hide NoticeInv;
    hide ValidEndpoint;
    match act
    case SendBody(body) =>
      SendBodySender(x, y, body);
      SendReceiver(x, y, SendBodyAt(x, body));
    case SendControl(t) =>
      SendControlKeepsInv(x, y, t);
    case Deliver(p, junk) =>
      HeaderReadExactly(x, y, p);
      if Accepts(x.ep, p.header) {
        AcceptKeepsInv(x, y, p, junk);
        SendControlKeepsInv(AcceptAt(x, p, junk), y, AckPacket);
      }
  }

  lemma SendControlKeepsInv<P>(x: Side<P>, y: Side<P>, t: PacketType)
    requires Inv(x, y) && (t.PingPacket? || t.AckPacket?)
    ensures Inv(SendControlAt(x, t), y)
  {
    SendControlSender(x, y, t);
    SendReceiver(x, y, SendControlAt(x, t));
  }

  /** Delivering a packet changes nothing, or has the effect of an accepted packet and perhaps
      sends an acknowledgement. */
  lemma DeliverOutcome<P>(x: Side<P>, y: Side<P>, p: Packet<P>, junk: Word)
    requires Inv(x, y) && Enabled(x, y, Deliver(p, junk))
    ensures PacketInv(y, x, p)
    ensures var x' := Act(x, y, Deliver(p, junk));
      || x' == x
      || (&& 0 <= x.ep.highestAckedSeq <= p.ack < TWO32
          && Accepted(x, p, NoticesOf(x, p, junk), x'.(out := x.out)))
  {
    HeaderReadExactly(x, y, p);
    if Accepts(x.ep, p.header) {
      AcceptInFull(x, y, p, junk);
    }
  }

  // ----- whole runs -----

  /** A data packet arriving after a ping or acknowledgement packet with the same sequence number:
      its acknowledgement bit is set although its body is not read. */
  ghost predicate Overtaken<P>(x: Side<P>, y: Side<P>, act: Action<P>)
    requires Inv(x, y) && Enabled(x, y, act)
  {
    act.Deliver? && (
      HeaderReadExactly(x, y, act.packet);
      && Accepts(x.ep, act.packet.header)
      && act.packet.header.ptype.DataPacket?
      && ReadSeq(x.ep, act.packet.header) == x.ep.lastSeqRecvd
      && !x.ep.ackMask[0])
  }

  /** One action of a run: by the first side or by the second. */
  datatype Event<P(==)> = Event(first: bool, act: Action<P>)

  ghost predicate Possible<P>(a: Side<P>, b: Side<P>, events: seq<Event<P>>)
    requires Inv(a, b)
    decreases |events|
  {
    if events == [] then true
    else if events[0].first then
      Enabled(a, b, events[0].act) &&
      (ActKeepsInv(a, b, events[0].act); Possible(Act(a, b, events[0].act), b, events[1..]))
    else
      Enabled(b, a, events[0].act) &&
      (ActKeepsInv(b, a, events[0].act); Possible(a, Act(b, a, events[0].act), events[1..]))
  }

  /** Both sides after a run. */
  ghost function After<P>(a: Side<P>, b: Side<P>, events: seq<Event<P>>): (r: (Side<P>, Side<P>))
    requires Inv(a, b) && Possible(a, b, events)
    ensures Inv(r.0, r.1)
    decreases |events|
  {
    if events == [] then (a, b)
    else if events[0].first then
      ActKeepsInv(a, b, events[0].act);
      After(Act(a, b, events[0].act), b, events[1..])
    else
      ActKeepsInv(b, a, events[0].act);
      After(a, Act(b, a, events[0].act), events[1..])
  }

  /** The sequence numbers of the deliveries to b that were overtaken during a run. */
  ghost function OvertakenAtSecond<P>(a: Side<P>, b: Side<P>, events: seq<Event<P>>): set<int>
    requires Inv(a, b) && Possible(a, b, events)
    decreases |events|
  {
    if events == [] then {}
    else if events[0].first then
      ActKeepsInv(a, b, events[0].act);
      OvertakenAtSecond(Act(a, b, events[0].act), b, events[1..])
    else
      ActKeepsInv(b, a, events[0].act);
      (if Overtaken(b, a, events[0].act) then {b.ep.lastSeqRecvd} else {})
      + OvertakenAtSecond(a, Act(b, a, events[0].act), events[1..])
  }
}
