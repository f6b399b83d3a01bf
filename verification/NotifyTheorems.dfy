/** What the notify protocol guarantees in every run of two endpoints. */
module NotifyTheorems {
  import opened NotifyProtocol
  import opened NotifySystem

  // ----- the windows -----

  /** In every reachable state: what y believes acknowledged is no more than x has learnt, which
      is no more than y has received, which is no more than x has sent, at most 30 beyond what x
      knows to be acknowledged.  Hence the acknowledgement flags fit in four bytes and every
      packet in flight is recovered in full or rejected. */
  lemma WindowTheorem<P>(a: Side<P>, b: Side<P>, events: seq<Event<P>>, p: Packet<P>)
    requires Inv(a, b) && Possible(a, b, events)
    ensures var (x, y) := After(a, b, events);
      && y.ep.lastRecvAckAck <= x.ep.highestAckedSeq <= y.ep.lastSeqRecvd <= x.ep.lastSendSeq
      && x.ep.lastSendSeq <= x.ep.highestAckedSeq + 30
      && AckByteCount(y.ep) <= MAX_ACK_BYTES
      && (p in x.out && Fresh(y.ep, p) ==>
            && ValidHeader(p.header)
            && (Accepts(y.ep, p.header) <==> y.ep.lastSeqRecvd <= p.sequence && y.ep.highestAckedSeq <= p.ack)
            && (Accepts(y.ep, p.header) ==> ReadSeq(y.ep, p.header) == p.sequence && ReadAck(y.ep, p.header) == p.ack))
  {
    var (x, y) := After(a, b, events);
    if p in x.out && Fresh(y.ep, p) {
      HeaderReadExactly(y, x, p);
    }
  }

  // ----- what is reported -----

  lemma StepOvertakes<P>(x: Side<P>, y: Side<P>, act: Action<P>)
    requires Inv(x, y) && Enabled(x, y, act)
    ensures Act(x, y, act).accepted - Act(x, y, act).processed
         == (x.accepted - x.processed) + (if Overtaken(x, y, act) then {x.ep.lastSeqRecvd} else {})
  {
    hide PacketInv;
    hide AtSendInv;
    hide Truthful;
    hide ValidEndpoint;
    hide Receive;
    hide Notified;
    hide MakeHeader;
    if act.Deliver? {
      var p := act.packet;
      HeaderReadExactly(x, y, p);
      if Accepts(x.ep, p.header) {
        AcceptInFull(x, y, p, act.junk);
        assert x.ep.ackMask[0] <==> x.ep.lastSeqRecvd - 0 in x.accepted;
      }
    }
  }

  /** Over any run, the packets whose header was accepted but whose body was never read are
      exactly those whose delivery was overtaken. */
  lemma {:induction false} RunOvertakes<P>(a: Side<P>, b: Side<P>, events: seq<Event<P>>)
    requires Inv(a, b) && Possible(a, b, events)
    ensures var y := After(a, b, events).1;
      y.accepted - y.processed == (b.accepted - b.processed) + OvertakenAtSecond(a, b, events)
    decreases |events|
  {
    hide Half;
    hide Act;
    hide Enabled;
    hide Overtaken;
    if events != [] {
      if events[0].first {
        ActKeepsInv(a, b, events[0].act);
        RunOvertakes(Act(a, b, events[0].act), b, events[1..]);
      } else {
        ActKeepsInv(b, a, events[0].act);
        StepOvertakes(b, a, events[0].act);
        RunOvertakes(a, Act(b, a, events[0].act), events[1..]);
      }
    }
  }

  /** In every run from the start, over a network that loses, duplicates, reorders and delays:
      each body is reported at most once and in send order, the queue holds exactly the bodies not
      yet reported, bodies are read in send order and as sent, a body that was read is never
      reported as dropped, and one reported as arrived was read unless its delivery was overtaken. */
  lemma NotifyTheorem<P>(a: Side<P>, b: Side<P>, events: seq<Event<P>>, i: nat)
    requires a.init + SEQUENCE_WINDOW < TWO32 && b.init + SEQUENCE_WINDOW < TWO32
    requires (a, b) == Start(a.init, b.init) && Possible(a, b, events)
    ensures var (x, y) := After(a, b, events);
      && x.ep.highestAckedSeq == x.init + |x.notified| && x.ep.lastSendSeq == x.init + |x.sent|
      && |x.notified| <= |x.sent| && x.ep.notifyQueue == x.sent[|x.notified|..]
      && InSendOrder(y.delivered) && AsSent(x.init, x.sent, y.delivered)
      && y.processed == Numbers(y.delivered)
      && (i < |x.notified| ==>
            && x.notified[i].0 == x.sent[i]
            && (x.init + 1 + i in y.processed ==> x.notified[i].1)
            && (x.notified[i].1 && x.init + 1 + i !in OvertakenAtSecond(a, b, events) ==>
                 x.init + 1 + i in y.processed))
  {
    hide Inv;
    hide After;
    hide Possible;
    hide OvertakenAtSecond;
    RunOvertakes(a, b, events);
    KeepsInit(a, b, events);
    var (x, y) := After(a, b, events);
    Guarantees(x, y, i);
  }

  lemma {:induction false} KeepsInit<P>(a: Side<P>, b: Side<P>, events: seq<Event<P>>)
    requires Inv(a, b) && Possible(a, b, events)
    ensures After(a, b, events).0.init == a.init
    decreases |events|
  {
    hide Half;
    hide Receive;
    hide Notified;
    if events != [] {
      if events[0].first {
        ActKeepsInv(a, b, events[0].act);
        KeepsInit(Act(a, b, events[0].act), b, events[1..]);
      } else {
        ActKeepsInv(b, a, events[0].act);
        KeepsInit(a, Act(b, a, events[0].act), events[1..]);
      }
    }
  }

  /** What the invariant says of reports and bodies. */
  lemma Guarantees<P>(x: Side<P>, y: Side<P>, i: nat)
    requires Inv(x, y)
    ensures QueueInv(x) && ProcessedInv(x, y)
    ensures i < |x.notified| ==> Truthful(y, x.init + 1 + i, x.notified[i].1)
  {
    hide PacketInv;
    hide AtSendInv;
    hide MaskInv;
    hide Truthful;
    hide ValidEndpoint;
  }

  // ----- the overtaking counterexample -----

  /** The effect of delivering a packet that is not too old and not behind. */
  lemma DeliverStep<P>(x: Side<P>, y: Side<P>, p: Packet<P>) returns (x': Side<P>)
    requires Inv(x, y) && p in y.out && Fresh(x.ep, p)
    requires x.ep.lastSeqRecvd <= p.sequence && x.ep.highestAckedSeq <= p.ack
    ensures Enabled(x, y, Deliver(p, ZERO_WORD)) && x' == Act(x, y, Deliver(p, ZERO_WORD))
    ensures Inv(x', y) && |p.header.ackFlags| <= WINDOW_SIZE && p.ack < TWO32
    ensures Accepted(x, p, NoticesOf(x, p, ZERO_WORD), x'.(out := x.out))
  {
    hide PacketInv;
    hide AtSendInv;
    hide MaskInv;
    hide ProcessedInv;
    hide NoticeInv;
    hide QueueInv;
    hide ValidEndpoint;
    hide Receive;
    hide Notified;
    hide MakeHeader;
    HeaderReadExactly(x, y, p);
    AcceptInFull(x, y, p, ZERO_WORD);
    ActKeepsInv(x, y, Deliver(p, ZERO_WORD));
    x' := Act(x, y, Deliver(p, ZERO_WORD));
  }

  lemma RunUnfolds<P>(a: Side<P>, b: Side<P>, events: seq<Event<P>>, a': Side<P>, b': Side<P>)
    requires events != [] && Inv(a, b)
    requires if events[0].first then Enabled(a, b, events[0].act) && a' == Act(a, b, events[0].act) && b' == b
             else Enabled(b, a, events[0].act) && b' == Act(b, a, events[0].act) && a' == a
    ensures Inv(a', b')
    ensures Possible(a, b, events) <==> Possible(a', b', events[1..])
    ensures Possible(a, b, events) ==> After(a, b, events) == After(a', b', events[1..])
  {
    if events[0].first {
      ActKeepsInv(a, b, events[0].act);
    } else {
      ActKeepsInv(b, a, events[0].act);
    }
  }

  lemma FirstNotice<P>(a: Side<P>, ack: Packet<P>)
    requires |ack.header.ackFlags| == 8 && ack.header.ackFlags[0] && ack.ack == 1 && a.ep.highestAckedSeq == 0
    ensures NoticesOf(a, ack, ZERO_WORD) == [true]
  {
    NoticeBit(ack.header, ZERO_WORD, 0, 1, 0);
  }

  /** The run is completed by the first side reading an acknowledgement of its only packet. */
  lemma ReportOvertaken<P>(a: Side<P>, b: Side<P>, ack: Packet<P>, body: P) returns (events: seq<Event<P>>)
    requires Inv(a, b) && ack in b.out && ack.sequence == 0 && ack.ack == 1
    requires |ack.header.ackFlags| == 8 && ack.header.ackFlags[0]
    requires a.ep.lastSendSeq == 1 && a.ep.highestAckedSeq == 0 && a.ep.lastSeqRecvd == 0
    requires a.ep.notifyQueue == [body] && a.notified == [] && b.delivered == []
    ensures Possible(a, b, events)
    ensures After(a, b, events).0.notified == [(body, true)] && After(a, b, events).1.delivered == []
  {
    hide Half;
    hide Act;
    var a' := DeliverStep(a, b, ack);
    FirstNotice(a, ack);
    assert Zip([body], [true]) == [(body, true)];
    events := [Event(true, Deliver(ack, ZERO_WORD))];
    RunUnfolds(a, b, events, a', b);
  }

  lemma AcknowledgeOvertaken<P>(a: Side<P>, b: Side<P>, body: P) returns (events: seq<Event<P>>)
    requires Inv(a, b) && a.init == 0 && b.accepted == {1} && b.delivered == []
    requires b.ep.lastSeqRecvd == 1 && b.ep.lastSendSeq == 0
    requires a.ep.lastSendSeq == 1 && a.ep.highestAckedSeq == 0 && a.ep.lastSeqRecvd == 0
    requires a.ep.notifyQueue == [body] && a.notified == []
    ensures Possible(a, b, events)
    ensures After(a, b, events).0.notified == [(body, true)] && After(a, b, events).1.delivered == []
  {
    ActKeepsInv(b, a, SendControl(AckPacket));
    var b' := Act(b, a, SendControl(AckPacket));
    var ack := Packet(MakeHeader(b.ep, AckPacket), 0, 1, []);
    assert ack in b'.out;
    assert b.ep.ackMask[0] <==> b.ep.lastSeqRecvd - 0 in b.accepted;
    var rest := ReportOvertaken(a, b', ack, body);
    events := [Event(false, SendControl(AckPacket))] + rest;
    RunUnfolds(a, b, events, a, b');
  }

  /** The body arrives when a ping with its sequence number has been received. */
  lemma ReceiveOvertaken<P>(a: Side<P>, b: Side<P>, data: Packet<P>, body: P) returns (events: seq<Event<P>>)
    requires Inv(a, b) && a.init == 0 && b.accepted == {} && b.delivered == []
    requires b.ep.lastSeqRecvd == 1 && b.ep.lastSendSeq == 0 && b.ep.highestAckedSeq == 0
    requires data in a.out && data.header.ptype.DataPacket? && data.sequence == 1 && data.ack == 0
    requires a.ep.lastSendSeq == 1 && a.ep.highestAckedSeq == 0 && a.ep.lastSeqRecvd == 0
    requires a.ep.notifyQueue == [body] && a.notified == []
    ensures Possible(a, b, events)
    ensures After(a, b, events).0.notified == [(body, true)] && After(a, b, events).1.delivered == []
  {
    hide Half;
    hide Act;
    var b' := DeliverStep(b, a, data);
    assert b'.accepted == {1};
    var rest := AcknowledgeOvertaken(a, b', body);
    events := [Event(false, Deliver(data, ZERO_WORD))] + rest;
    RunUnfolds(a, b, events, a, b');
  }

  lemma ReceivePing<P>(a: Side<P>, b: Side<P>, data: Packet<P>, ping: Packet<P>, body: P)
    returns (events: seq<Event<P>>)
    requires Inv(a, b) && b == InitialSide(0, 0) && a.init == 0
    requires data in a.out && data.header.ptype.DataPacket? && data.sequence == 1 && data.ack == 0
    requires ping in a.out && ping.header.ptype.PingPacket? && ping.sequence == 1 && ping.ack == 0
    requires a.ep.lastSendSeq == 1 && a.ep.highestAckedSeq == 0 && a.ep.lastSeqRecvd == 0
    requires a.ep.notifyQueue == [body] && a.notified == []
    ensures Possible(a, b, events)
    ensures After(a, b, events).0.notified == [(body, true)] && After(a, b, events).1.delivered == []
  {
    hide Half;
    hide Act;
    var b' := DeliverStep(b, a, ping);
    var rest := ReceiveOvertaken(a, b', data, body);
    events := [Event(false, Deliver(ping, ZERO_WORD))] + rest;
    RunUnfolds(a, b, events, a, b');
  }

  /** A body is sent and then a ping with its sequence number; the ping arrives first.  The
      receiver acknowledges the body, the sender reports it as arrived, and it is never read. */
  lemma OvertakenBodyMisreported<P>(body: P) returns (events: seq<Event<P>>)
    ensures var (a, b) := Start<P>(0, 0);
      && Possible(a, b, events)
      && After(a, b, events).0.notified == [(body, true)]
      && After(a, b, events).1.delivered == []
  {
    hide Half;
    var (a, b) := Start<P>(0, 0);
    ActKeepsInv(a, b, SendBody(body));
    var a1 := Act(a, b, SendBody(body));
    var data := Packet(MakeHeader(Advance(a.ep), DataPacket), 1, 0, [body]);
    ActKeepsInv(a1, b, SendControl(PingPacket));
    var a2 := Act(a1, b, SendControl(PingPacket));
    var ping := Packet(MakeHeader(a1.ep, PingPacket), 1, 0, []);
    var rest := ReceivePing(a2, b, data, ping, body);
    var last := [Event(true, SendControl(PingPacket))] + rest;
    RunUnfolds(a1, b, last, a2, b);
    events := [Event(true, SendBody(body))] + last;
    RunUnfolds(a, b, events, a1, b);
  }
}
