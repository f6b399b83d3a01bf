/** Events without an order (tnl/eventConnection.cpp) over the channel: guaranteed ones are sent again
    when their packet is lost, the others are not.  An event is known by the number of its posting. */
module UnorderedEventSystem {
  import C = Channel

  datatype Kind = Guaranteed | Unguaranteed

  /** Where the sender has a posted event; `Reported` tells whether it was reported delivered. */
  datatype Place = Queued | InPacket(packet: nat) | Reported(arrived: bool)

  /** `queue` is mUnorderedSendEventQueue, `reports` the notifyDelivered calls, `place` is history. */
  datatype System = System(posted: seq<Kind>, queue: seq<nat>, c: C.Channel<seq<nat>>, processed: seq<nat>,
                           reports: seq<(nat, bool)>, place: seq<Place>)

  datatype Action =
    | PostEvent(kind: Kind)
    | SendPacket(count: nat)
    | ReadPacket(packet: nat)
    | PassOver(packet: nat)
    | NotifyOldest

  ghost predicate Enabled(y: System, act: Action) {
    match act
    case PostEvent(_) => true
    case SendPacket(count) => C.CanSend(y.c) && count <= |y.queue|
    case ReadPacket(i) => C.CanRead(y.c, i)
    case PassOver(i) => C.CanSkip(y.c, i)
    case NotifyOldest => C.CanNotify(y.c)
  }

  /** The guaranteed events of a lost packet go to the head of the queue, one after the other. */
  function PutBack(posted: seq<Kind>, queue: seq<nat>, events: seq<nat>): seq<nat>
    decreases |events|
  {
    if events == [] then queue
    else PutBack(posted, if Resent(posted, events[0]) then [events[0]] + queue else queue, events[1..])
  }

  /** So they stand before all that waits, the later ones first. */
  lemma {:induction false} PutBackAtHead(posted: seq<Kind>, queue: seq<nat>, events: seq<nat>) returns (front: seq<nat>)
    ensures PutBack(posted, queue, events) == front + queue
    ensures forall e :: e in front <==> e in events && e < |posted| && posted[e] == Guaranteed
    ensures forall i, j ::
      0 <= i < j < |events| && events[i] < |posted| && posted[events[i]] == Guaranteed
        && events[j] < |posted| && posted[events[j]] == Guaranteed ==>
        exists a, b :: 0 <= a < b < |front| && front[a] == events[j] && front[b] == events[i]
    decreases |events|
  {
    if events == [] {
      front := [];
    } else {
      var first := if Resent(posted, events[0]) then [events[0]] else [];
      var rest := PutBackAtHead(posted, first + queue, events[1..]);
      front := rest + first;
      assert rest + (first + queue) == front + queue;
      assert first + queue == if Resent(posted, events[0]) then [events[0]] + queue else queue;
      forall i, j | 0 <= i < j < |events| && Resent(posted, events[i]) && Resent(posted, events[j])
        ensures exists a, b :: 0 <= a < b < |front| && front[a] == events[j] && front[b] == events[i]
      {
        if i > 0 {
          assert events[1..][i - 1] == events[i] && events[1..][j - 1] == events[j];
          var a, b :| 0 <= a < b < |rest| && rest[a] == events[j] && rest[b] == events[i];
          assert front[a] == events[j] && front[b] == events[i];
        } else {
          assert events[j] in events[1..] && events[j] in rest;
          var a :| 0 <= a < |rest| && rest[a] == events[j];
          assert front[a] == events[j] && front[|rest|] == events[0];
        }
      }
    }
  }

  predicate Resent(posted: seq<Kind>, e: nat) { e < |posted| && posted[e].Guaranteed? }

  /** The others are reported lost. */
  function Losses(posted: seq<Kind>, events: seq<nat>): seq<(nat, bool)> {
    if events == [] then []
    else (if Resent(posted, events[0]) then [] else [(events[0], false)]) + Losses(posted, events[1..])
  }

  function Arrivals(events: seq<nat>): seq<(nat, bool)> {
    seq(|events|, i requires 0 <= i < |events| => (events[i], true))
  }

  ghost function Act(y: System, act: Action): System
    requires C.Valid(y.c) && Enabled(y, act)
  {
    match act
    case PostEvent(kind) =>
      y.(posted := y.posted + [kind], queue := y.queue + [|y.posted|], place := y.place + [Queued])
    case SendPacket(count) =>
      y.(queue := y.queue[count..], c := C.Send(y.c, y.queue[..count]),
         place := Moved(y.place, y.queue[..count], InPacket(|y.c.sent|)))
    case ReadPacket(i) => y.(processed := y.processed + y.c.sent[i], c := C.Read(y.c, i))
    case PassOver(i) => y.(c := C.Skip(y.c, i))
    case NotifyOldest =>
      var events := y.c.sent[y.c.notified];
      if C.Arrived(y.c) then
        y.(c := C.Notify(y.c), reports := y.reports + Arrivals(events), place := Moved(y.place, events, Reported(true)))
      else
        y.(c := C.Notify(y.c), queue := PutBack(y.posted, y.queue, events),
           reports := y.reports + Losses(y.posted, events),
           place := seq(|y.place|, e requires 0 <= e < |y.place| =>
             if e !in events then y.place[e] else if Resent(y.posted, e) then Queued else Reported(false)))
  }

  ghost function Moved(place: seq<Place>, events: seq<nat>, to: Place): seq<Place> {
    seq(|place|, e requires 0 <= e < |place| => if e in events then to else place[e])
  }

  // ----- the invariant -----

  ghost predicate Distinct(events: seq<nat>) { forall i, j :: 0 <= i < j < |events| ==> events[i] != events[j] }

  /** The list has just the events at this place, each once. */
  ghost predicate Holds(place: seq<Place>, events: seq<nat>, p: Place) {
    Distinct(events) && forall e: nat :: e in events <==> e < |place| && place[e] == p
  }

  /** The events that reports are about. */
  function Names(reports: seq<(nat, bool)>): seq<nat> {
    seq(|reports|, i requires 0 <= i < |reports| => reports[i].0)
  }

  lemma Named(reports: seq<(nat, bool)>, e: nat)
    ensures e in Names(reports) <==> exists b :: (e, b) in reports
  {
    if e in Names(reports) {
      var i :| 0 <= i < |reports| && Names(reports)[i] == e;
      assert (e, reports[i].1) in reports;
    }
    if exists b :: (e, b) in reports {
      var b :| (e, b) in reports;
      var i :| 0 <= i < |reports| && reports[i] == (e, b);
      assert Names(reports)[i] == e;
    }
  }

  lemma DistinctJoin(a: seq<nat>, b: seq<nat>)
    requires Distinct(a) && Distinct(b) && forall e :: !(e in a && e in b)
    ensures Distinct(a + b)
  {
    forall i, j | 0 <= i < j < |a + b| ensures (a + b)[i] != (a + b)[j] {
      if i < |a| <= j { assert a[i] in a && b[j - |a|] in b; }
    }
  }

  lemma DistinctSplit(a: seq<nat>, b: seq<nat>)
    requires Distinct(a + b)
    ensures Distinct(a) && Distinct(b) && forall e :: !(e in a && e in b)
  {
    var all := a + b;
    assert forall i :: 0 <= i < |a| ==> all[i] == a[i];
    assert forall j :: 0 <= j < |b| ==> all[|a| + j] == b[j];
    forall e ensures !(e in a && e in b) {
      forall i, j | 0 <= i < |a| && 0 <= j < |b| ensures a[i] != b[j] { assert all[i] != all[|a| + j]; }
    }
  }

  ghost predicate ReportsInv(place: seq<Place>, reports: seq<(nat, bool)>) {
    && Distinct(Names(reports))
    && (forall e: nat, b :: (e, b) in reports <==> e < |place| && place[e] == Reported(b))
  }

  ghost predicate Done(c: C.Channel<seq<nat>>, p: Place) {
    match p
    case Queued => false
    case InPacket(j) => j in c.read
    case Reported(arrived) => arrived
  }

  ghost predicate Inv(y: System) {
    && C.Valid(y.c) && |y.place| == |y.posted|
    && Holds(y.place, y.queue, Queued)
    && (forall j :: y.c.notified <= j < |y.c.sent| ==> Holds(y.place, y.c.sent[j], InPacket(j)))
    && (forall e :: 0 <= e < |y.place| && y.place[e].InPacket? ==> y.c.notified <= y.place[e].packet < |y.c.sent|)
    && ReportsInv(y.place, y.reports)
    && (forall e :: 0 <= e < |y.place| && y.place[e] == Reported(false) ==> y.posted[e].Unguaranteed?)
    && Distinct(y.processed)
    && (forall e: nat :: e in y.processed <==> e < |y.place| && Done(y.c, y.place[e]))
  }

  ghost function Initial(): (y: System)
    ensures Inv(y)
  {
    System([], [], C.Empty(), [], [], [])
  }

  // ----- every action keeps it -----

  lemma PostKeepsInv(y: System, kind: Kind)
    requires Inv(y)
    ensures Inv(Act(y, PostEvent(kind)))
  {
    var y' := Act(y, PostEvent(kind));
    var n := |y.posted|;
    DistinctJoin(y.queue, [n]);
    forall e: nat ensures e in y'.queue <==> e < |y'.place| && y'.place[e] == Queued {
      assert e in y'.queue <==> e in y.queue || e == n;
    }
  }

  lemma SendKeepsInv(y: System, count: nat)
    requires Inv(y) && Enabled(y, SendPacket(count))
    ensures Inv(Act(y, SendPacket(count)))
  {
    var front, back, y' := y.queue[..count], y.queue[count..], Act(y, SendPacket(count));
    assert y.queue == front + back;
    DistinctSplit(front, back);
    forall e: nat ensures e in y.queue <==> e in front || e in back { }
  }

  lemma ReadKeepsInv(y: System, i: nat)
    requires Inv(y) && Enabled(y, ReadPacket(i))
    ensures Inv(Act(y, ReadPacket(i)))
  {
    var y', events := Act(y, ReadPacket(i)), y.c.sent[i];
    assert Holds(y.place, events, InPacket(i));
    forall e: nat ensures e in y'.processed <==> e in y.processed || e in events { }
    forall e: nat ensures !(e in y.processed && e in events) { }
    DistinctJoin(y.processed, events);
  }

  lemma PassKeepsInv(y: System, i: nat)
    requires Inv(y) && Enabled(y, PassOver(i))
    ensures Inv(Act(y, PassOver(i)))
  {
  }

  lemma ReportsJoin(place: seq<Place>, reports: seq<(nat, bool)>, more: seq<(nat, bool)>, place': seq<Place>)
    requires ReportsInv(place, reports) && |place'| == |place| && Distinct(Names(more))
    requires forall e: nat, b :: (e, b) in more ==> e < |place| && !place[e].Reported?
    requires forall e: nat, b :: e < |place| ==>
      (place'[e] == Reported(b) <==> place[e] == Reported(b) || (e, b) in more)
    ensures ReportsInv(place', reports + more)
  {
    assert Names(reports + more) == Names(reports) + Names(more);
    forall e ensures !(e in Names(reports) && e in Names(more)) {
      if e in Names(reports) && e in Names(more) {
        Named(reports, e);
        Named(more, e);
      }
    }
    DistinctJoin(Names(reports), Names(more));
    forall e: nat, b ensures (e, b) in reports + more <==> e < |place'| && place'[e] == Reported(b) {
      assert (e, b) in reports + more <==> (e, b) in reports || (e, b) in more;
    }
  }

  lemma ArrivedKeepsInv(y: System)
    requires Inv(y) && Enabled(y, NotifyOldest) && C.Arrived(y.c)
    ensures Inv(Act(y, NotifyOldest))
  {
    var y', events := Act(y, NotifyOldest), y.c.sent[y.c.notified];
    assert Holds(y.place, events, InPacket(y.c.notified));
    var more := Arrivals(events);
    forall e: nat ensures e in events <==> (e, true) in more {
      if e in events { var i :| 0 <= i < |events| && events[i] == e; assert more[i] == (e, true); }
    }
    assert Names(more) == events;
    ReportsJoin(y.place, y.reports, more, y'.place);
  }

  /** What goes back into the queue, and what is reported lost. */
  lemma {:induction false} PutBackHas(posted: seq<Kind>, queue: seq<nat>, events: seq<nat>)
    requires Distinct(events) && Distinct(queue) && forall e :: e in events ==> e !in queue
    ensures Distinct(PutBack(posted, queue, events))
    ensures forall e :: e in PutBack(posted, queue, events) <==> e in queue || (e in events && Resent(posted, e))
    decreases |events|
  {
    if events != [] {
      var e0, rest := events[0], events[1..];
      var queue' := if Resent(posted, e0) then [e0] + queue else queue;
      assert events == [e0] + rest;
      forall e ensures e in queue' <==> e in queue || (e == e0 && Resent(posted, e0)) { }
      DistinctSplit([e0], rest);
      DistinctJoin([e0], queue);
      PutBackHas(posted, queue', rest);
    }
  }

  lemma {:induction false} LossesHas(posted: seq<Kind>, events: seq<nat>)
    ensures forall e: nat, b :: (e, b) in Losses(posted, events) <==> !b && e in events && !Resent(posted, e)
  {
    if events != [] {
      var e0, rest := events[0], events[1..];
      LossesHas(posted, rest);
      var first, last := if Resent(posted, e0) then [] else [(e0, false)], Losses(posted, rest);
      forall e: nat, b ensures (e, b) in first + last <==> (e, b) in first || (e, b) in last { }
      assert events == [e0] + rest;
    }
  }

  lemma OneMoreName(e: nat, reports: seq<(nat, bool)>)
    requires Distinct(Names(reports)) && forall b :: (e, b) !in reports
    ensures Distinct(Names([(e, false)] + reports))
  {
    Named(reports, e);
    assert Names([(e, false)] + reports) == [e] + Names(reports);
    hide Names;
    DistinctJoin([e], Names(reports));
  }

  lemma {:induction false} LossesDiffer(posted: seq<Kind>, events: seq<nat>)
    requires Distinct(events)
    ensures Distinct(Names(Losses(posted, events)))
  {
    if events != [] {
      var e0, rest := events[0], events[1..];
      assert events == [e0] + rest;
      DistinctSplit([e0], rest);
      LossesDiffer(posted, rest);
      if Resent(posted, e0) {
        assert Losses(posted, events) == Losses(posted, rest);
      } else {
        LossesHas(posted, rest);
        OneMoreName(e0, Losses(posted, rest));
      }
    }
  }

  lemma DroppedKeepsInv(y: System)
    requires Inv(y) && Enabled(y, NotifyOldest) && !C.Arrived(y.c)
    ensures Inv(Act(y, NotifyOldest))
  {
    var y', events := Act(y, NotifyOldest), y.c.sent[y.c.notified];
    assert Holds(y.place, events, InPacket(y.c.notified));
    PutBackHas(y.posted, y.queue, events);
    LossesHas(y.posted, events);
    LossesDiffer(y.posted, events);
    forall e: nat | e in events && !Resent(y.posted, e) ensures (e, false) in Losses(y.posted, events) { }
    ReportsJoin(y.place, y.reports, Losses(y.posted, events), y'.place);
  }

  lemma ActKeepsInv(y: System, act: Action)
    requires Inv(y) && Enabled(y, act)
    ensures Inv(Act(y, act))
  {
    match act
    case PostEvent(kind) => PostKeepsInv(y, kind);
    case SendPacket(count) => SendKeepsInv(y, count);
    case ReadPacket(i) => ReadKeepsInv(y, i);
    case PassOver(i) => PassKeepsInv(y, i);
    case NotifyOldest => if C.Arrived(y.c) { ArrivedKeepsInv(y); } else { DroppedKeepsInv(y); }
  }

  // ----- runs -----

  ghost predicate Possible(y: System, acts: seq<Action>)
    requires Inv(y)
    decreases |acts|
  {
    acts == [] || (Enabled(y, acts[0]) && (ActKeepsInv(y, acts[0]); Possible(Act(y, acts[0]), acts[1..])))
  }

  ghost function After(y: System, acts: seq<Action>): (y': System)
    requires Inv(y) && Possible(y, acts)
    ensures Inv(y')
    decreases |acts|
  {
    if acts == [] then y
    else
      ActKeepsInv(y, acts[0]);
      After(Act(y, acts[0]), acts[1..])
  }

  /** In every run: no event is processed twice; every posted event is in exactly one place, in the queue,
      in one packet not yet reported, or reported once; it is reported delivered exactly if it was
      processed; and a guaranteed event is never reported lost. */
  lemma AtMostOnce(acts: seq<Action>, e: nat)
    requires Possible(Initial(), acts)
    ensures var y := After(Initial(), acts);
      && Distinct(y.processed) && Distinct(y.queue)
      && (e < |y.posted| ==>
            && (y.place[e].InPacket? ==> y.c.notified <= y.place[e].packet < |y.c.sent|)
            && (e in y.queue <==> y.place[e] == Queued)
            && (forall j :: y.c.notified <= j < |y.c.sent| ==> (e in y.c.sent[j] <==> y.place[e] == InPacket(j)))
            && (forall b :: (e, b) in y.reports <==> y.place[e] == Reported(b))
            && ((e, true) in y.reports ==> e in y.processed)
            && ((e, false) in y.reports ==> e !in y.processed && y.posted[e].Unguaranteed?))
  {
    var y := After(Initial(), acts);
    hide After;
    forall j | y.c.notified <= j < |y.c.sent| ensures Holds(y.place, y.c.sent[j], InPacket(j)) { }
  }

  /** Once nothing is queued and every packet is reported, every guaranteed event has been processed, and
      every other one was processed or reported lost. */
  lemma AllSettledWhenQuiet(acts: seq<Action>, e: nat)
    requires Possible(Initial(), acts)
    requires var y := After(Initial(), acts); e < |y.posted| && y.queue == [] && y.c.notified == |y.c.sent|
    ensures var y := After(Initial(), acts);
      if y.posted[e].Guaranteed? then e in y.processed && (e, true) in y.reports
      else e in y.processed <==> (e, false) !in y.reports
  {
    var y := After(Initial(), acts);
    hide After;
    assert y.place[e].Reported?;
    assert (e, y.place[e].arrived) in y.reports;
  }
}
