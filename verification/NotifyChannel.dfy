/** The notify protocol provides the channel: every action of either endpoint is, seen from above,
    a sequence of channel steps in each direction. */
module NotifyChannel {
  import opened NotifyProtocol
  import opened NotifySystem
  import C = Channel

  ghost function Indices(init: int, processed: set<int>): set<nat> {
    set n | n in processed && n > init :: n - init - 1
  }

  /** The channel from x to y. */
  ghost function View<P>(x: Side<P>, y: Side<P>): C.Channel<P>
    requires Inv(x, y)
  {
    C.Channel(x.sent, y.ep.lastSeqRecvd - x.init, Indices(x.init, y.processed), |x.notified|)
  }

  lemma ViewValid<P>(x: Side<P>, y: Side<P>)
    requires Inv(x, y)
    ensures C.Valid(View(x, y))
  {
  }

  /** c' is c after k reports. */
  ghost predicate Reports<P>(c: C.Channel<P>, k: nat, c': C.Channel<P>)
    decreases k
  {
    if k == 0 then c == c' else C.CanNotify(c) && Reports(C.Notify(c), k - 1, c')
  }

  lemma {:induction false} ReportsMany<P>(c: C.Channel<P>, k: nat)
    requires c.notified + k <= c.cursor
    decreases k
    ensures Reports(c, k, c.(notified := c.notified + k))
  {
    if k > 0 {
      ReportsMany(C.Notify(c), k - 1);
      assert C.Notify(c).(notified := C.Notify(c).notified + (k - 1)) == c.(notified := c.notified + k);
    }
  }

  lemma Facts<P>(x: Side<P>, y: Side<P>)
    requires Inv(x, y)
    ensures Unwrapped(x.ep) && WindowInv(x, y) && QueueInv(x)
    ensures forall n :: n in y.processed ==> x.init < n <= y.ep.lastSeqRecvd
  {
  }

  /** In the direction in which the acting side sends, an action sends one body, reports some,
      or does nothing. */
  lemma ActRefinesOutgoing<P>(x: Side<P>, y: Side<P>, act: Action<P>)
    requires Inv(x, y) && Enabled(x, y, act)
    ensures Inv(Act(x, y, act), y)
    ensures var c, c' := View(x, y), View(Act(x, y, act), y);
      match act
      case SendBody(body) => C.CanSend(c) && c' == C.Send(c, body)
      case SendControl(_) => c' == c
      case Deliver(_, _) =>
        |x.notified| <= |Act(x, y, act).notified| && Reports(c, |Act(x, y, act).notified| - |x.notified|, c')
  {
    hide Half;
    hide NoticesOf;
    hide AcceptAt;
    hide PacketInv;
    hide MakeHeader;
    hide Delivers;
    ActKeepsInv(x, y, act);
    var x' := Act(x, y, act);
    Facts(x, y);
    Facts(x', y);
    if act.Deliver? {
      DeliverOutcome(x, y, act.packet, act.junk);
      ReportsMany(View(x, y), |x'.notified| - |x.notified|);
    }
  }

  /** In the other direction it reads one body, passes over some, or does nothing. */
  lemma ActRefinesIncoming<P>(x: Side<P>, y: Side<P>, act: Action<P>)
    requires Inv(x, y) && Enabled(x, y, act)
    ensures Inv(Act(x, y, act), y)
    ensures var x' := Act(x, y, act); var c, c' := View(y, x), View(y, x');
      if act.Deliver? && x'.delivered != x.delivered then
        var i := act.packet.sequence - y.init - 1;
        && 0 <= i && C.CanRead(c, i) && c' == C.Read(c, i)
        && x'.delivered == x.delivered + [(act.packet.sequence, c.sent[i])]
      else
        C.CanSkip(c, c'.cursor) && c' == C.Skip(c, c'.cursor)
  {
    hide Half;
    hide NoticesOf;
    hide AcceptAt;
    hide PacketInv;
    hide MakeHeader;
    hide Delivers;
    ActKeepsInv(x, y, act);
    var x' := Act(x, y, act);
    Facts(y, x);
    Facts(y, x');
    if act.Deliver? {
      DeliverOutcome(x, y, act.packet, act.junk);
      IndicesAdd(y.init, x.processed, act.packet.sequence);
    }
  }

  lemma IndicesAdd(init: int, processed: set<int>, n: int)
    ensures n > init ==> Indices(init, processed + {n}) == Indices(init, processed) + {n - init - 1}
  {
    if n <= init { return; }
    forall k ensures k in Indices(init, processed + {n}) <==> k in Indices(init, processed) + {n - init - 1} {
      assert k == k + init + 1 - init - 1;
    }
  }

  /** The flags reported are those of the channel unless a delivery was overtaken. */
  lemma ReportsTellArrival<P>(x: Side<P>, y: Side<P>, i: nat)
    requires Inv(x, y) && i < |x.notified|
    ensures i in View(x, y).read ==> x.notified[i].1
    ensures y.accepted == y.processed ==> (x.notified[i].1 <==> i in View(x, y).read)
    ensures x.notified[i].0 == View(x, y).sent[i]
  {
    assert Truthful(y, x.init + 1 + i, x.notified[i].1);
    assert i in View(x, y).read <==> x.init + 1 + i in y.processed by {
      assert i == (x.init + 1 + i) - x.init - 1;
    }
  }
}
