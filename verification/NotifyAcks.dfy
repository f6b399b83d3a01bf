/** What the notify protocol must do: a packet that is not behind takes effect, a ping is answered,
    the receiver's acknowledgements do not fall far behind, and each side learns how far the other
    knows them. */
module NotifyAcks {
  import opened NotifyProtocol
  import opened NotifySystem
  import opened NotifyReports

  // ----- one step -----

  /** A body can be sent exactly while fewer than 30 bodies are unreported and the numbers stay below
      the wrap; it is then on the network under the next number. */
  lemma SendTakesEffect<P>(x: Side<P>, y: Side<P>, body: P)
    requires Inv(x, y)
    ensures Enabled(x, y, SendBody(body)) <==>
      |x.sent| - |x.notified| < 30 && x.ep.lastSendSeq + 1 + SEQUENCE_WINDOW < TWO32
    ensures Enabled(x, y, SendBody(body)) ==>
      var x' := Act(x, y, SendBody(body));
      && x'.sent == x.sent + [body] && x'.notified == x.notified && x'.delivered == x.delivered
      && x.out <= x'.out
      && exists p :: p in x'.out && p.header.ptype.DataPacket? && p.sequence == x.init + |x'.sent|
           && p.ack == x.ep.lastSeqRecvd && p.body == [body]
  {
    hide PacketInv;
    hide AtSendInv;
    hide MaskInv;
    hide ProcessedInv;
    hide NoticeInv;
    hide MakeHeader;
    SubNoWrap(x.ep.lastSendSeq, x.ep.highestAckedSeq);
    hide Sub32;
    if Enabled(x, y, SendBody(body)) {
      var p := Packet(MakeHeader(Advance(x.ep), DataPacket), x.ep.lastSendSeq + 1, x.ep.lastSeqRecvd, [body]);
      assert p.header.ptype.DataPacket? by { HeaderType(Advance(x.ep), DataPacket); }
      assert p in Act(x, y, SendBody(body)).out;
    }
  }

  lemma HeaderType<P>(e: Endpoint<P>, t: PacketType)
    requires AckByteCount(e) <= MAX_ACK_BYTES
    ensures MakeHeader(e, t).ptype == t
  {
  }

  /** A packet delivered changes nothing if one of its numbers is behind; otherwise both become those
      of its receiver, a data packet counts as accepted, and its body is read if its number is new. */
  lemma DeliveryTakesEffect<P>(x: Side<P>, y: Side<P>, p: Packet<P>, junk: Word)
    requires Inv(x, y) && Enabled(x, y, Deliver(p, junk))
    ensures var x' := Act(x, y, Deliver(p, junk));
      if p.sequence < x.ep.lastSeqRecvd || p.ack < x.ep.highestAckedSeq then x' == x
      else
        && x'.ep.lastSeqRecvd == p.sequence && x'.ep.highestAckedSeq == p.ack
        && |x'.notified| == |x.notified| + p.ack - x.ep.highestAckedSeq
        && (p.header.ptype.DataPacket? ==> x'.accepted == x.accepted + {p.sequence})
        && (!p.header.ptype.DataPacket? ==> x'.accepted == x.accepted)
        && (if p.header.ptype.DataPacket? && p.sequence > x.ep.lastSeqRecvd then
              && |p.body| == 1 && x'.delivered == x.delivered + [(p.sequence, p.body[0])]
              && x'.processed == x.processed + {p.sequence}
            else x'.delivered == x.delivered && x'.processed == x.processed)
  {
    hide PacketInv;
    hide AtSendInv;
    hide MaskInv;
    hide ProcessedInv;
    hide NoticeInv;
    hide ValidEndpoint;
    hide Receive;
    hide Notified;
    hide MakeHeader;
    HeaderReadExactly(x, y, p);
    if Accepts(x.ep, p.header) { AcceptInFull(x, y, p, junk); }
  }

  lemma AckSent<P>(x: Side<P>, y: Side<P>)
    requires Inv(x, y)
    ensures var q: Packet<P> := Packet(MakeHeader(x.ep, AckPacket), x.ep.lastSendSeq, x.ep.lastSeqRecvd, []);
      && SendControlAt(x, AckPacket).out == x.out + {q} && q.header.ptype.AckPacket?
      && q.ack - |q.header.ackFlags| <= x.ep.lastRecvAckAck
      && forall i :: 0 <= i < |q.header.ackFlags| ==> (q.header.ackFlags[i] <==> q.ack - i in x.accepted)
  {
    hide PacketInv;
    hide AtSendInv;
    hide ProcessedInv;
    hide NoticeInv;
    var q: Packet<P> := Packet(MakeHeader(x.ep, AckPacket), x.ep.lastSendSeq, x.ep.lastSeqRecvd, []);
    FlagsCover(x.ep);
    forall i | 0 <= i < |q.header.ackFlags| ensures q.header.ackFlags[i] <==> q.ack - i in x.accepted {
      assert x.ep.ackMask[i] <==> x.ep.lastSeqRecvd - i in x.accepted;
    }
  }

  /** A ping that is accepted is answered, with the truth on every packet of which
      the other side may not know; after any accepted packet, either an acknowledgement has been sent
      or the other side knows of all but the last 16 numbers received; and nothing else is sent. */
  lemma AnswersGiven<P>(x: Side<P>, y: Side<P>, p: Packet<P>, junk: Word)
    requires Inv(x, y) && Enabled(x, y, Deliver(p, junk))
    requires x.ep.lastSeqRecvd <= p.sequence && x.ep.highestAckedSeq <= p.ack
    ensures var x' := Act(x, y, Deliver(p, junk));
      && x'.ep.lastSeqRecvd == p.sequence
      && (p.header.ptype.PingPacket? || x'.ep.lastSeqRecvd - x'.ep.lastRecvAckAck > 16 ==>
           exists q ::
             && q in x'.out && x'.out == x.out + {q}
             && q.header.ptype.AckPacket? && q.sequence == x.ep.lastSendSeq && q.ack == p.sequence
             && q.ack - |q.header.ackFlags| <= x'.ep.lastRecvAckAck
             && forall i :: 0 <= i < |q.header.ackFlags| ==> (q.header.ackFlags[i] <==> q.ack - i in x'.accepted))
      && (!p.header.ptype.PingPacket? && x'.ep.lastSeqRecvd - x'.ep.lastRecvAckAck <= 16 ==> x'.out == x.out)
  {
    hide PacketInv;
    hide AtSendInv;
    hide MaskInv;
    hide ProcessedInv;
    hide NoticeInv;
    hide QueueInv;
    hide ValidEndpoint;
    hide Receive;
    hide Notified;
    hide MakeHeader;
    hide Recorded;
    HeaderReadExactly(x, y, p);
    AcceptInFull(x, y, p, junk);
    AcceptKeepsInv(x, y, p, junk);
    var x' := AcceptAt(x, p, junk);
    SubNoWrap(x'.ep.lastSeqRecvd, x'.ep.lastRecvAckAck);
    hide Sub32;
    AckSent(x', y);
  }

  // ----- how far the other side knows -----

  /** What is recorded for a number yet unreported is no less than any acknowledgement sent under it
      or before. */
  ghost predicate RecordsGrow<P>(x: Side<P>)
    requires |x.ep.lastSeqRecvdAtSend| == WINDOW_SIZE
  {
    forall p, n ::
      p in x.out && p.header.ptype.DataPacket? && p.sequence <= n && x.ep.highestAckedSeq < n <= x.ep.lastSendSeq ==>
        p.ack <= x.ep.lastSeqRecvdAtSend[n % WINDOW_SIZE]
  }

  /** The packet is among those reported, as arrived. */
  ghost predicate ReportedReceived<P>(x: Side<P>, p: Packet<P>) {
    0 <= p.sequence - x.init - 1 < |x.notified| && x.notified[p.sequence - x.init - 1].1
  }

  ghost predicate AckedInv<P>(x: Side<P>) {
    forall p :: p in x.out && p.header.ptype.DataPacket? && ReportedReceived(x, p) ==> p.ack <= x.ep.lastRecvAckAck
  }

  ghost predicate Learns<P>(x: Side<P>) {
    |x.ep.lastSeqRecvdAtSend| == WINDOW_SIZE && RecordsGrow(x) && AckedInv(x)
  }

  lemma ControlLearns<P>(x: Side<P>, t: PacketType)
    requires Unwrapped(x.ep) && Learns(x) && (t.PingPacket? || t.AckPacket?)
    ensures Learns(SendControlAt(x, t))
  {
    hide Sub32;
    var x' := SendControlAt(x, t);
    forall p | p in x'.out && p.header.ptype.DataPacket? ensures p in x.out {}
    assert forall p :: ReportedReceived(x', p) <==> ReportedReceived(x, p);
  }

  lemma BodyLearns<P>(x: Side<P>, y: Side<P>, body: P)
    requires Inv(x, y) && Learns(x) && Enabled(x, y, SendBody(body))
    ensures Learns(SendBodyAt(x, body))
  {
    hide AtSendInv;
    hide MaskInv;
    hide ProcessedInv;
    hide NoticeInv;
    hide MakeHeader;
    SubNoWrap(x.ep.lastSendSeq, x.ep.highestAckedSeq);
    hide Sub32;
    var s := x.ep.lastSendSeq + 1;
    var x' := SendBodyAt(x, body);
    var slots, slots' := x.ep.lastSeqRecvdAtSend, x'.ep.lastSeqRecvdAtSend;
    OnceWrapped(s);
    assert slots' == slots[s % WINDOW_SIZE := x.ep.lastSeqRecvd];
    forall p, n | p in x'.out && p.header.ptype.DataPacket? && p.sequence <= n && x'.ep.highestAckedSeq < n <= s
      ensures p.ack <= slots'[n % WINDOW_SIZE]
    {
      if n < s { SlotsDiffer(n, s); assert p in x.out; }
      if p in x.out { assert PacketInv(x, y, p); }
    }
    forall p | p in x'.out && ReportedReceived(x', p) ensures p in x.out && ReportedReceived(x, p) {}
  }

  lemma AcceptLearns<P>(x: Side<P>, y: Side<P>, p: Packet<P>, junk: Word)
    requires Delivers(x, y, p) && Learns(x)
    ensures Learns(AcceptAt(x, p, junk))
  {
    hide AtSendInv;
    hide PacketInv;
    hide RecordsGrow;
    hide MaskInv;
    hide ProcessedInv;
    hide NoticeInv;
    hide Reconstruct;
    hide ShiftIn;
    hide AckWord;
    hide Notices;
    hide AckAckAfter;
    hide Truthful;
    hide Receive;
    hide Recorded;
    hide Clamp;
    hide Sub32;
    var x' := AcceptAt(x, p, junk);
    HeaderReadExactly(x, y, p);
    AcceptInFull(x, y, p, junk);
    var notices := NoticesOf(x, p, junk);
    AcceptKeepsInv(x, y, p, junk);
    AcceptQueue(x, p, notices, x');
    StillGrow(x, x');
    ReceiveFields(x.ep, p.header, junk, p.sequence, p.ack);
    var after := AckAckAfter(x.ep.lastSeqRecvdAtSend, x.ep.lastRecvAckAck, x.ep.highestAckedSeq, notices);
    NoticesTrue(x, y, p, junk);
    AckAckBound(x, y, notices);
    ClampRaises(after, p.sequence);
    forall q | q in x'.out && q.header.ptype.DataPacket? && ReportedReceived(x', q) ensures q.ack <= after {
      NoticesLearn(x, notices, q, x'.notified);
    }
  }

  lemma StillGrow<P>(x: Side<P>, x': Side<P>)
    requires |x.ep.lastSeqRecvdAtSend| == WINDOW_SIZE && RecordsGrow(x) && x'.out == x.out
    requires x'.ep.lastSeqRecvdAtSend == x.ep.lastSeqRecvdAtSend && x'.ep.lastSendSeq == x.ep.lastSendSeq
    requires x.ep.highestAckedSeq <= x'.ep.highestAckedSeq
    ensures RecordsGrow(x')
  {
  }

  lemma ClampRaises(ackAck: u32, s: u32)
    requires ackAck <= s
    ensures ackAck <= Clamp(ackAck, s)
  {
  }

  /** Each packet reported received, now or before, is covered by the value taken over. */
  lemma NoticesLearn<P>(x: Side<P>, notices: seq<bool>, q: Packet<P>, notified: seq<(P, bool)>)
    requires |x.ep.lastSeqRecvdAtSend| == WINDOW_SIZE && RecordsGrow(x) && AckedInv(x)
    requires |x.notified| == x.ep.highestAckedSeq - x.init && q in x.out && q.header.ptype.DataPacket?
    requires |notified| == |x.notified| + |notices| && x.ep.highestAckedSeq + |notices| <= x.ep.lastSendSeq
    requires forall i :: 0 <= i < |notified| ==>
      notified[i].1 == if i < |x.notified| then x.notified[i].1 else notices[i - |x.notified|]
    requires 0 <= q.sequence - x.init - 1 < |notified| && notified[q.sequence - x.init - 1].1
    ensures q.ack <= AckAckAfter(x.ep.lastSeqRecvdAtSend, x.ep.lastRecvAckAck, x.ep.highestAckedSeq, notices)
  {
    hide AckAckAfter;
    var h := x.ep.highestAckedSeq;
    if forall i :: 0 <= i < |notices| ==> !notices[i] {
      AckAckSame(x.ep.lastSeqRecvdAtSend, x.ep.lastRecvAckAck, h, notices);
      assert ReportedReceived(x, q);
    } else {
      var k := NewestTrue(notices);
      AckAckNewest(x.ep.lastSeqRecvdAtSend, x.ep.lastRecvAckAck, h, notices, k);
      assert h < h + 1 + k <= x.ep.lastSendSeq;
      if q.sequence > h { assert notices[q.sequence - h - 1]; }
      assert q.sequence <= h + 1 + k;
    }
  }

  lemma {:induction false} NewestTrue(notices: seq<bool>) returns (k: nat)
    requires exists i :: 0 <= i < |notices| && notices[i]
    ensures k < |notices| && notices[k] && forall i :: k < i < |notices| ==> !notices[i]
  {
    k := |notices| - 1;
    if !notices[k] { k := NewestTrue(notices[..k]); }
  }

  lemma ActLearns<P>(x: Side<P>, y: Side<P>, act: Action<P>)
    requires Inv(x, y) && Enabled(x, y, act) && Learns(x)
    ensures Learns(Act(x, y, act))
  {
    hide Learns;
    hide PacketInv;
    hide AtSendInv;
    hide MaskInv;
    hide QueueInv;
    hide ProcessedInv;
    hide NoticeInv;
    hide ValidEndpoint;
    match act
    case SendBody(body) => BodyLearns(x, y, body);
    case SendControl(t) => ControlLearns(x, t);
    case Deliver(p, junk) =>
      HeaderReadExactly(x, y, p);
      if Accepts(x.ep, p.header) {
        AcceptLearns(x, y, p, junk);
        AcceptKeepsInv(x, y, p, junk);
        ControlLearns(AcceptAt(x, p, junk), AckPacket);
      }
  }

  lemma {:induction false} RunLearns<P>(a: Side<P>, b: Side<P>, events: seq<Event<P>>)
    requires Inv(a, b) && Possible(a, b, events) && Learns(a) && Learns(b)
    ensures Learns(After(a, b, events).0) && Learns(After(a, b, events).1)
    decreases |events|
  {
    hide Half;
    hide Act;
    hide Enabled;
    hide Learns;
    if events != [] {
      if events[0].first {
        ActKeepsInv(a, b, events[0].act);
        ActLearns(a, b, events[0].act);
        RunLearns(Act(a, b, events[0].act), b, events[1..]);
      } else {
        ActKeepsInv(b, a, events[0].act);
        ActLearns(b, a, events[0].act);
        RunLearns(a, Act(b, a, events[0].act), events[1..]);
      }
    }
  }

  /** Over every run from the start: once a data packet is reported received, its sender takes the
      other side to know of everything that the packet acknowledged, so that later headers carry no
      flags for it. */
  lemma AcknowledgedIsKnown<P>(a: Side<P>, b: Side<P>, events: seq<Event<P>>, p: Packet<P>)
    requires a.init + SEQUENCE_WINDOW < TWO32 && b.init + SEQUENCE_WINDOW < TWO32
    requires (a, b) == Start(a.init, b.init) && Possible(a, b, events)
    requires var x := After(a, b, events).0;
      && p in x.out && p.header.ptype.DataPacket? && 0 <= p.sequence - x.init - 1 < |x.notified|
      && x.notified[p.sequence - x.init - 1].1
    ensures p.ack <= After(a, b, events).0.ep.lastRecvAckAck
  {
    hide After;
    hide Possible;
    hide Inv;
    StartLearns(a);
    StartLearns(b);
    RunLearns(a, b, events);
    var x := After(a, b, events).0;
    assert ReportedReceived(x, p) && AckedInv(x);
  }

  lemma StartLearns<P>(x: Side<P>)
    requires x.out == {} && |x.ep.lastSeqRecvdAtSend| == WINDOW_SIZE
    ensures Learns(x)
  {
  }
}
