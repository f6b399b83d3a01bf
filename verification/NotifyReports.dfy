/** Which reports of the notify protocol are wrong: exactly those of packets whose delivery was
    overtaken before the header that reports them was written. */
module NotifyReports {
  import opened NotifyProtocol
  import opened NotifySystem
  import opened NotifyTheorems

  // ----- runs in two parts -----

  ghost predicate CanStep<P>(a: Side<P>, b: Side<P>, e: Event<P>) {
    if e.first then Enabled(a, b, e.act) else Enabled(b, a, e.act)
  }

  ghost function Step<P>(a: Side<P>, b: Side<P>, e: Event<P>): (r: (Side<P>, Side<P>))
    requires Inv(a, b) && CanStep(a, b, e)
    ensures Inv(r.0, r.1)
  {
    if e.first then
      ActKeepsInv(a, b, e.act);
      (Act(a, b, e.act), b)
    else
      ActKeepsInv(b, a, e.act);
      (a, Act(b, a, e.act))
  }

  lemma FirstStep<P>(a: Side<P>, b: Side<P>, events: seq<Event<P>>)
    requires Inv(a, b) && events != []
    ensures Possible(a, b, events) ==> CanStep(a, b, events[0])
    ensures CanStep(a, b, events[0]) ==> var (a', b') := Step(a, b, events[0]);
      && (Possible(a, b, events) <==> Possible(a', b', events[1..]))
      && (Possible(a, b, events) ==> After(a, b, events) == After(a', b', events[1..]))
  {
    hide Inv;
    hide Enabled;
    hide Act;
  }

  /** The last event of a run acts on what the events before it lead to. */
  lemma {:induction false} LastStep<P>(a: Side<P>, b: Side<P>, events: seq<Event<P>>)
    requires Inv(a, b) && events != [] && Possible(a, b, events)
    ensures var (most, last) := (events[..|events| - 1], events[|events| - 1]);
      && Possible(a, b, most)
      && (var (x, y) := After(a, b, most); CanStep(x, y, last) && After(a, b, events) == Step(x, y, last))
    decreases |events|
  {
    hide Inv;
    hide CanStep;
    hide Step;
    FirstStep(a, b, events);
    var (a', b') := Step(a, b, events[0]);
    var most := events[..|events| - 1];
    if |events| == 1 {
      assert events[1..] == [] && most == [];
    } else {
      LastStep(a', b', events[1..]);
      assert events[1..][..|events| - 2] == most[1..];
      FirstStep(a, b, most);
    }
  }

  // ----- one step -----

  /** What a header just written says: all that its writer has received so far. */
  ghost predicate Tells<P>(y: Side<P>, p: Packet<P>) {
    && p.ack == y.ep.lastSeqRecvd
    && forall i :: 0 <= i < |p.header.ackFlags| ==> (p.header.ackFlags[i] <==> p.ack - i in y.accepted)
  }

  lemma ControlTells<P>(x: Side<P>, y: Side<P>, t: PacketType, p: Packet<P>)
    requires Inv(x, y) && p in SendControlAt(x, t).out && p !in x.out
    ensures Tells(SendControlAt(x, t), p)
  {
    forall i | 0 <= i < |p.header.ackFlags| ensures p.header.ackFlags[i] <==> p.ack - i in x.accepted {
      assert x.ep.ackMask[i] <==> x.ep.lastSeqRecvd - i in x.accepted;
    }
  }

  lemma BodyTells<P>(x: Side<P>, y: Side<P>, body: P, p: Packet<P>)
    requires Inv(x, y) && Enabled(x, y, SendBody(body)) && p in SendBodyAt(x, body).out && p !in x.out
    ensures Tells(SendBodyAt(x, body), p)
  {
    forall i | 0 <= i < |p.header.ackFlags| ensures p.header.ackFlags[i] <==> p.ack - i in x.accepted {
      assert x.ep.ackMask[i] <==> x.ep.lastSeqRecvd - i in x.accepted;
    }
  }

  lemma WrittenTells<P>(x: Side<P>, y: Side<P>, act: Action<P>, p: Packet<P>)
    requires Inv(x, y) && Enabled(x, y, act) && p in Act(x, y, act).out && p !in x.out
    ensures Tells(Act(x, y, act), p)
  {
    hide Half;
    hide MakeHeader;
    hide Receive;
    hide Notified;
    match act
    case SendBody(body) => BodyTells(x, y, body, p);
    case SendControl(t) => ControlTells(x, y, t, p);
    case Deliver(q, junk) =>
      HeaderReadExactly(x, y, q);
      Basics(x, y);
      AcceptKeepsInv(x, y, q, junk);
      ControlTells(AcceptAt(x, q, junk), y, AckPacket, p);
  }

  lemma Basics<P>(x: Side<P>, y: Side<P>)
    requires Inv(x, y)
    ensures Unwrapped(x.ep) && QueueInv(x) && y.processed <= y.accepted
  {
  }

  /** What an action never takes back. */
  ghost predicate Onward<P>(x: Side<P>, x': Side<P>) {
    && x'.init == x.init && x.out <= x'.out && x.notified <= x'.notified
    && x.ep.lastSeqRecvd <= x'.ep.lastSeqRecvd && x.processed <= x'.processed
    && forall n :: n in x'.processed && n <= x.ep.lastSeqRecvd ==> n in x.processed
  }

  lemma ActOnward<P>(x: Side<P>, y: Side<P>, act: Action<P>)
    requires Inv(x, y) && Enabled(x, y, act)
    ensures Onward(x, Act(x, y, act))
  {
    hide Half;
    if act.Deliver? {
      HeaderReadExactly(x, y, act.packet);
      if Accepts(x.ep, act.packet.header) {
        AcceptInFull(x, y, act.packet, act.junk);
        hide Receive;
        hide Notified;
      }
    }
  }

  lemma StepOnward<P>(a: Side<P>, b: Side<P>, e: Event<P>)
    requires Inv(a, b) && CanStep(a, b, e)
    ensures var (a', b') := Step(a, b, e); Onward(a, a') && Onward(b, b')
  {
    hide Half;
    hide Act;
    hide Enabled;
    if e.first { ActOnward(a, b, e.act); } else { ActOnward(b, a, e.act); }
  }

  lemma OnwardTwice<P>(x: Side<P>, x': Side<P>, x'': Side<P>)
    requires Onward(x, x') && Onward(x', x'')
    ensures Onward(x, x'')
  {
  }

  lemma StepTells<P>(a: Side<P>, b: Side<P>, e: Event<P>, p: Packet<P>)
    requires Inv(a, b) && CanStep(a, b, e) && p in Step(a, b, e).1.out && p !in b.out
    ensures Tells(Step(a, b, e).1, p)
  {
    hide Half;
    hide Act;
    hide Enabled;
    WrittenTells(b, a, e.act, p);
  }

  lemma StepReports<P>(a: Side<P>, b: Side<P>, e: Event<P>, i: nat)
    requires Inv(a, b) && CanStep(a, b, e) && |a.notified| <= i < |Step(a, b, e).0.notified|
    ensures e.first && e.act.Deliver? && e.act.packet in b.out
    ensures Reports(a, e.act.packet, i, Step(a, b, e).0.notified[i].1)
  {
    hide Half;
    hide Act;
    hide Enabled;
    ReportGiven(a, b, e.act, i);
  }

  /** A report is the flag that the header just read carries for its packet. */
  ghost predicate Reports<P>(x: Side<P>, p: Packet<P>, i: nat, arrived: bool) {
    var n := x.init + 1 + i;
    0 <= p.ack - n < |p.header.ackFlags| && arrived == p.header.ackFlags[p.ack - n]
  }

  lemma ReportGiven<P>(x: Side<P>, y: Side<P>, act: Action<P>, i: nat)
    requires Inv(x, y) && Enabled(x, y, act) && |x.notified| <= i < |Act(x, y, act).notified|
    ensures act.Deliver? && act.packet in y.out && Reports(x, act.packet, i, Act(x, y, act).notified[i].1)
  {
    hide Half;
    hide Truthful;
    hide AckWord;
    hide Notices;
    hide MakeHeader;
    hide Receive;
    hide Accepts;
    hide ValidEndpoint;
    Basics(x, y);
    if act.Deliver? {
      var p := act.packet;
      DeliverOutcome(x, y, p, act.junk);
      var notices := NoticesOf(x, p, act.junk);
      NoticeBit(p.header, act.junk, x.ep.highestAckedSeq, p.ack, i - |x.notified|);
      assert Act(x, y, act).notified[i] == Zip(x.ep.notifyQueue, notices)[i - |x.notified|];
    }
  }

  // ----- whole runs -----

  lemma {:induction false} RunOnward<P>(a: Side<P>, b: Side<P>, events: seq<Event<P>>, k: nat)
    requires Inv(a, b) && Possible(a, b, events) && k <= |events|
    ensures Possible(a, b, events[..k])
    ensures var (x, y), (x', y') := After(a, b, events[..k]), After(a, b, events); Onward(x, x') && Onward(y, y')
    decreases |events|
  {
    hide Inv;
    hide Step;
    hide CanStep;
    hide Possible;
    hide After;
    if k == |events| {
      assert events[..k] == events;
    } else {
      LastStep(a, b, events);
      var most, last := events[..|events| - 1], events[|events| - 1];
      RunOnward(a, b, most, k);
      assert most[..k] == events[..k];
      var (x, y) := After(a, b, most);
      var (x', y') := After(a, b, events);
      var (x0, y0) := After(a, b, events[..k]);
      StepOnward(x, y, last);
      OnwardTwice(x0, x, x');
      OnwardTwice(y0, y, y');
    }
  }

  /** The event in which the second side wrote a packet. */
  lemma {:induction false} FindWritten<P>(a: Side<P>, b: Side<P>, events: seq<Event<P>>, p: Packet<P>)
    returns (written: nat)
    requires Inv(a, b) && Possible(a, b, events) && b.out == {} && p in After(a, b, events).1.out
    ensures written < |events| && Possible(a, b, events[..written]) && Possible(a, b, events[..written + 1])
    ensures p !in After(a, b, events[..written]).1.out && p in After(a, b, events[..written + 1]).1.out
    ensures Tells(After(a, b, events[..written + 1]).1, p)
    decreases |events|
  {
    hide Inv;
    hide Step;
    hide CanStep;
    hide Tells;
    hide Reports;
    if events == [] {
      assert false;
    } else {
      LastStep(a, b, events);
      var most, last := events[..|events| - 1], events[|events| - 1];
      var (x, y) := After(a, b, most);
      if p in y.out {
        written := FindWritten(a, b, most, p);
        assert most[..written] == events[..written] && most[..written + 1] == events[..written + 1];
      } else {
        written := |events| - 1;
        assert events[..written + 1] == events;
        StepTells(x, y, last, p);
      }
    }
  }

  /** The event in which the first side gave report i. */
  lemma {:induction false} FindReported<P>(a: Side<P>, b: Side<P>, events: seq<Event<P>>, i: nat)
    returns (reported: nat)
    requires Inv(a, b) && Possible(a, b, events) && a.notified == [] && i < |After(a, b, events).0.notified|
    ensures reported < |events| && Possible(a, b, events[..reported]) && Possible(a, b, events[..reported + 1])
    ensures var (x, y), x' := After(a, b, events[..reported]), After(a, b, events[..reported + 1]).0;
      && |x.notified| <= i < |x'.notified|
      && events[reported].first && events[reported].act.Deliver? && events[reported].act.packet in y.out
      && Reports(x, events[reported].act.packet, i, x'.notified[i].1)
    decreases |events|
  {
    hide Inv;
    hide Step;
    hide CanStep;
    hide Tells;
    hide Reports;
    if events == [] {
      assert false;
    } else {
      LastStep(a, b, events);
      var most, last := events[..|events| - 1], events[|events| - 1];
      var (x, y) := After(a, b, most);
      if i < |x.notified| {
        reported := FindReported(a, b, most, i);
        assert most[..reported] == events[..reported] && most[..reported + 1] == events[..reported + 1];
      } else {
        reported := |events| - 1;
        assert events[..reported + 1] == events;
        StepReports(x, y, last, i);
      }
    }
  }

  /** In every run from the start, report i is given when the first side reads a header that the
      second side wrote before; and the report is of a packet that was not read although it says
      so exactly if the delivery of that packet was overtaken by the time the header was written. */
  lemma MisreportedExactly<P>(a: Side<P>, b: Side<P>, events: seq<Event<P>>, i: nat)
    returns (written: nat, reported: nat)
    requires a.init + SEQUENCE_WINDOW < TWO32 && b.init + SEQUENCE_WINDOW < TWO32
    requires (a, b) == Start(a.init, b.init) && Possible(a, b, events) && i < |After(a, b, events).0.notified|
    ensures written < reported < |events| && Possible(a, b, events[..written]) && Possible(a, b, events[..written + 1])
    ensures Possible(a, b, events[..reported]) && Possible(a, b, events[..reported + 1])
    ensures events[reported].first && events[reported].act.Deliver?
    ensures |After(a, b, events[..reported]).0.notified| <= i < |After(a, b, events[..reported + 1]).0.notified|
    ensures var p := events[reported].act.packet;
      p !in After(a, b, events[..written]).1.out && p in After(a, b, events[..written + 1]).1.out
    ensures var (x, y), n := After(a, b, events), a.init + 1 + i;
      && (n in y.processed ==> x.notified[i].1)
      && (x.notified[i].1 && n !in y.processed <==> n in OvertakenAtSecond(a, b, events[..written + 1]))
  {
    hide Inv;
    hide After;
    hide Possible;
    hide OvertakenAtSecond;
    hide Onward;
    hide Tells;
    hide Reports;
    reported := FindReported(a, b, events, i);
    var before, p := events[..reported], events[reported].act.packet;
    written := FindWritten(a, b, before, p);
    assert before[..written] == events[..written] && before[..written + 1] == events[..written + 1];
    RunOnward(a, b, events, reported + 1);
    RunOnward(a, b, events, written + 1);
    RunOvertakes(a, b, events[..written + 1]);
    KeepsInit(a, b, before);
    var (x, y) := After(a, b, events[..written + 1]);
    Basics(x, y);
    ReportMeans(After(a, b, before).0, After(a, b, events[..reported + 1]).0, After(a, b, events).0,
                y, After(a, b, events).1, p, i, OvertakenAtSecond(a, b, events[..written + 1]));
  }

  /** A report is right unless the packet had been overtaken when the header that gives it was written. */
  lemma ReportMeans<P>(x: Side<P>, x': Side<P>, x'': Side<P>, y: Side<P>, y': Side<P>, p: Packet<P>, i: nat,
                       overtaken: set<int>)
    requires i < |x'.notified| && Reports(x, p, i, x'.notified[i].1) && Onward(x', x'')
    requires Tells(y, p) && Onward(y, y') && y.processed <= y.accepted && y.accepted - y.processed == overtaken
    ensures i < |x''.notified|
    ensures var n := x.init + 1 + i;
      && (n in y'.processed ==> x''.notified[i].1)
      && (x''.notified[i].1 && n !in y'.processed <==> n in overtaken)
  {
    var n := x.init + 1 + i;
    assert p.ack - (p.ack - n) == n;
    assert n in y.processed <==> n in y'.processed;
  }
}
