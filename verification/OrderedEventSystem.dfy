/** One direction of an event connection over the channel: a sender posting GuaranteedOrdered
    events and a receiver processing them. */
module OrderedEventSystem {
  import opened OrderedEvents
  import C = Channel

  /** Where the sender holds a posted event. */
  datatype Place = Queued | InPacket(packet: nat) | Awaiting | Acked

  datatype System<E> = System(s: Sender<E>, r: Receiver<E>, c: C.Channel<EventPacket<E>>, place: seq<Place>)

  datatype Action<E> =
    | PostEvent(event: E)
    | SendPacket(count: nat)
    | ReadPacketAt(packet: nat)
    | PassOver(packet: nat)
    | NotifyOldest

  ghost function Initial<E>(): (y: System<E>)
    ensures Inv(y)
  {
    System(NewSender(), NewReceiver(), C.Empty(), [])
  }

  ghost predicate Enabled<E>(y: System<E>, act: Action<E>) {
    match act
    case PostEvent(_) => true
    case SendPacket(count) => C.CanSend(y.c) && CanWrite(y.s, count)
    case ReadPacketAt(i) => C.CanRead(y.c, i)
    case PassOver(i) => C.CanSkip(y.c, i)
    case NotifyOldest => C.CanNotify(y.c)
  }

  ghost function Act<E>(y: System<E>, act: Action<E>): System<E>
    requires C.Valid(y.c) && Enabled(y, act)
  {
    match act
    case PostEvent(e) => y.(s := Post(y.s, e), place := y.place + [Queued])
    case SendPacket(count) =>
      y.(s := Write(y.s, count), c := C.Send(y.c, Written(y.s, count)),
         place := Repack(y.place, y.s.sendQueue[..count], |y.c.sent|))
    case ReadPacketAt(i) => y.(r := ReadPacket(y.r, y.c.sent[i].wire), c := C.Read(y.c, i))
    case PassOver(i) => y.(c := C.Skip(y.c, i))
    case NotifyOldest =>
      var notes := y.c.sent[y.c.notified].notes;
      if C.Arrived(y.c) then
        var s' := PacketReceived(y.s, notes);
        y.(s := s', c := C.Notify(y.c), place := Settle(y.place, y.c.notified, Awaiting, s'.lastAcked))
      else
        y.(s := PacketDropped(y.s, notes), c := C.Notify(y.c),
           place := Settle(y.place, y.c.notified, Queued, y.s.lastAcked))
  }

  ghost predicate Has<E>(list: seq<Note<E>>, q: int) {
    exists i :: 0 <= i < |list| && list[i].seqCount == q
  }

  ghost function Repack<E>(place: seq<Place>, notes: seq<Note<E>>, j: nat): seq<Place> {
    seq(|place|, q requires 0 <= q < |place| => if Has(notes, q) then InPacket(j) else place[q])
  }

  ghost function Settle(place: seq<Place>, j: nat, to: Place, lastAcked: int): seq<Place> {
    seq(|place|, q requires 0 <= q < |place| =>
      var p := if place[q] == InPacket(j) then to else place[q];
      if p == Awaiting && q <= lastAcked then Acked else p)
  }

  // ----- the invariant -----

  ghost predicate Genuine<E>(posted: seq<E>, n: Note<E>) {
    0 <= n.seqCount < |posted| && n.event == posted[n.seqCount]
  }

  /** The list is strictly sorted and holds exactly the posted events at this place. */
  ghost predicate Holds<E>(s: Sender<E>, place: seq<Place>, list: seq<Note<E>>, p: Place) {
    && Increasing(list)
    && |place| == |s.posted|
    && (forall i :: 0 <= i < |list| ==> Genuine(s.posted, list[i]) && place[list[i].seqCount] == p)
    && (forall q :: 0 <= q < |place| && place[q] == p ==> Has(list, q))
  }

  ghost predicate PlacesInv<E>(y: System<E>) {
    && Holds(y.s, y.place, y.s.sendQueue, Queued)
    && Holds(y.s, y.place, y.s.notifyList, Awaiting)
    && (forall j :: y.c.notified <= j < |y.c.sent| ==> Holds(y.s, y.place, y.c.sent[j].notes, InPacket(j)))
    && (forall q :: 0 <= q < |y.place| && y.place[q].InPacket? ==> y.c.notified <= y.place[q].packet < |y.c.sent|)
    && (forall q :: 0 <= q < |y.place| ==> (y.place[q] == Acked <==> q <= y.s.lastAcked))
    && -1 <= y.s.lastAcked < |y.place|
  }

  ghost predicate WindowInv<E>(y: System<E>) {
    forall j, i :: y.c.notified <= j < |y.c.sent| && 0 <= i < |y.c.sent[j].notes| ==>
      y.c.sent[j].notes[i].seqCount <= y.s.lastAcked + WINDOW
  }

  ghost predicate Got<E>(r: Receiver<E>, q: int) {
    q < r.nextRecv || Has(r.waitList, q)
  }

  ghost predicate ReceiverInv<E>(posted: seq<E>, r: Receiver<E>) {
    && r.nextRecv <= |posted| && r.processed == posted[..r.nextRecv]
    && Increasing(r.waitList)
    && (forall i :: 0 <= i < |r.waitList| ==> Genuine(posted, r.waitList[i]) && r.nextRecv < r.waitList[i].seqCount)
  }

  ghost predicate GotInv<E>(y: System<E>) {
    forall q :: 0 <= q < |y.place| ==>
      (Got(y.r, q) <==>
         match y.place[q]
         case Queued => false
         case InPacket(j) => j in y.c.read
         case Awaiting => true
         case Acked => true)
  }

  ghost predicate WireInv<E>(c: C.Channel<EventPacket<E>>) {
    forall j :: 0 <= j < |c.sent| ==> c.sent[j].wire == Encode(-2, c.sent[j].notes)
  }

  ghost predicate Inv<E>(y: System<E>) {
    && C.Valid(y.c)
    && PlacesInv(y)
    && WindowInv(y)
    && ReceiverInv(y.s.posted, y.r)
    && GotInv(y)
    && WireInv(y.c)
  }

  // ----- posting and sending -----

  lemma HasAppend<E>(list: seq<Note<E>>, n: Note<E>, q: int)
    ensures Has(list + [n], q) <==> Has(list, q) || q == n.seqCount
  {
    var longer := list + [n];
    assert longer[|list|] == n;
    if i :| 0 <= i < |list| && list[i].seqCount == q { assert longer[i].seqCount == q; }
  }

  lemma PostPlaces<E>(y: System<E>, e: E)
    requires Inv(y)
    ensures PlacesInv(Act(y, PostEvent(e)))
  {
    var y' := Act(y, PostEvent(e));
    forall q ensures Has(y'.s.sendQueue, q) <==> Has(y.s.sendQueue, q) || q == |y.place| {
      HasAppend(y.s.sendQueue, Note(|y.s.posted|, e), q);
    }
    assert Holds(y'.s, y'.place, y'.s.sendQueue, Queued);
    assert Holds(y'.s, y'.place, y'.s.notifyList, Awaiting);
  }

  lemma PostKeepsInv<E>(y: System<E>, e: E)
    requires Inv(y)
    ensures Inv(Act(y, PostEvent(e)))
  {
    PostPlaces(y, e);
  }

  lemma HasSplit<E>(list: seq<Note<E>>, n: nat, q: int)
    requires n <= |list|
    ensures Has(list, q) <==> Has(list[..n], q) || Has(list[n..], q)
  {
    if i :| 0 <= i < |list| && list[i].seqCount == q {
      if i < n { assert list[..n][i].seqCount == q; } else { assert list[n..][i - n].seqCount == q; }
    }
    if i :| 0 <= i < n && list[..n][i].seqCount == q { assert list[i].seqCount == q; }
    if i :| 0 <= i < |list| - n && list[n..][i].seqCount == q { assert list[i + n].seqCount == q; }
  }

  lemma HasOnce<E>(list: seq<Note<E>>, n: nat, q: int)
    requires n <= |list| && Increasing(list)
    ensures !(Has(list[..n], q) && Has(list[n..], q))
  {
  }

  lemma HoldsSplit<E>(s: Sender<E>, place: seq<Place>, count: nat, j: nat)
    requires Holds(s, place, s.sendQueue, Queued) && count <= |s.sendQueue|
    requires forall q :: 0 <= q < |place| ==> place[q] != InPacket(j)
    ensures var place' := Repack(place, s.sendQueue[..count], j);
      && Holds(s, place', s.sendQueue[count..], Queued)
      && Holds(s, place', s.sendQueue[..count], InPacket(j))
      && (forall q :: 0 <= q < |place| && place[q] != Queued ==> place'[q] == place[q])
  {
    var queue := s.sendQueue;
    forall q ensures Has(queue, q) <==> Has(queue[..count], q) || Has(queue[count..], q)
            ensures !(Has(queue[..count], q) && Has(queue[count..], q)) {
      HasSplit(queue, count, q);
      HasOnce(queue, count, q);
    }
  }

  lemma HoldsSame<E>(s: Sender<E>, place: seq<Place>, s': Sender<E>, place': seq<Place>, list: seq<Note<E>>, p: Place)
    requires Holds(s, place, list, p) && s'.posted == s.posted && |place'| == |place|
    requires forall q :: 0 <= q < |place| ==> (place'[q] == p <==> place[q] == p)
    ensures Holds(s', place', list, p)
  {
  }

  lemma SendPlaces<E>(y: System<E>, count: nat)
    requires Inv(y) && Enabled(y, SendPacket(count))
    ensures PlacesInv(Act(y, SendPacket(count)))
  {
    hide GotInv;
    hide WindowInv;
    hide ReceiverInv;
    hide WireInv;
    var y' := Act(y, SendPacket(count));
    HoldsSplit(y.s, y.place, count, |y.c.sent|);
    forall q | 0 <= q < |y.place| ensures y'.place[q] != y.place[q] ==>
         y.place[q] == Queued && y'.place[q] == InPacket(|y.c.sent|) {
    }
    HoldsSame(y.s, y.place, y'.s, y'.place, y.s.notifyList, Awaiting);
    HoldsSame(y.s, y'.place, y'.s, y'.place, y.s.sendQueue[count..], Queued);
    HoldsSame(y.s, y'.place, y'.s, y'.place, y.s.sendQueue[..count], InPacket(|y.c.sent|));
    forall j | y.c.notified <= j < |y.c.sent| ensures Holds(y'.s, y'.place, y.c.sent[j].notes, InPacket(j)) {
      HoldsSame(y.s, y.place, y'.s, y'.place, y.c.sent[j].notes, InPacket(j));
    }
  }

  lemma SendGot<E>(y: System<E>, count: nat)
    requires C.Valid(y.c) && PlacesInv(y) && GotInv(y) && Enabled(y, SendPacket(count))
    ensures GotInv(Act(y, SendPacket(count)))
  {
    forall q | 0 <= q < |y.place| && Has(y.s.sendQueue[..count], q) ensures y.place[q] == Queued {
      var i :| 0 <= i < count && y.s.sendQueue[..count][i].seqCount == q;
      assert y.s.sendQueue[i].seqCount == q;
    }
  }

  lemma SendWindow<E>(y: System<E>, count: nat)
    requires C.Valid(y.c) && WindowInv(y) && WireInv(y.c) && Enabled(y, SendPacket(count))
    ensures WindowInv(Act(y, SendPacket(count))) && WireInv(Act(y, SendPacket(count)).c)
  {
  }

  lemma SendKeepsInv<E>(y: System<E>, count: nat)
    requires Inv(y) && Enabled(y, SendPacket(count))
    ensures Inv(Act(y, SendPacket(count)))
  {
    hide GotInv;
    hide WindowInv;
    hide WireInv;
    hide PlacesInv;
    SendPlaces(y, count);
    SendGot(y, count);
    SendWindow(y, count);
  }

  // ----- receiving -----

  /** The sender never takes an event for acknowledged that the receiver has not processed. */
  lemma AckedBehindReceiver<E>(y: System<E>)
    requires Inv(y)
    ensures y.s.lastAcked + 1 <= y.r.nextRecv
  {
    assert !Got(y.r, y.r.nextRecv);
  }

  /** A packet that may still be read holds only events the receiver does not have yet, all close
      enough to its next one to be recovered from 7 bits. */
  lemma PacketReadExactly<E>(y: System<E>, i: nat)
    requires Inv(y) && C.CanRead(y.c, i)
    ensures Decode(-2, y.c.sent[i].wire, y.r.nextRecv) == y.c.sent[i].notes
    ensures Holds(y.s, y.place, y.c.sent[i].notes, InPacket(i))
    ensures forall k :: 0 <= k < |y.c.sent[i].notes| ==> !Got(y.r, y.c.sent[i].notes[k].seqCount)
  {
    var notes := y.c.sent[i].notes;
    AckedBehindReceiver(y);
    assert i !in y.c.read;
    assert Holds(y.s, y.place, notes, InPacket(i));
    forall k | 0 <= k < |notes| ensures !Got(y.r, notes[k].seqCount) {
      assert y.place[notes[k].seqCount] == InPacket(i);
    }
    DecodeEncode(-2, -2, notes, y.r.nextRecv);
  }

  lemma MergeHas<E>(list: seq<Note<E>>, items: seq<Note<E>>, q: int)
    ensures Has(Merge(list, items), q) <==> Has(list, q) || Has(items, q)
  {
    MergeMembers(list, items);
    var merged := Merge(list, items);
    if i :| 0 <= i < |merged| && merged[i].seqCount == q {
      MergeElement(list, items, i);
    }
    if i :| 0 <= i < |list| && list[i].seqCount == q { assert list[i] in merged; }
    if i :| 0 <= i < |items| && items[i].seqCount == q { assert items[i] in merged; }
  }

  /** Merging lists of genuine notes without common numbers. */
  lemma MergeNotes<E>(posted: seq<E>, list: seq<Note<E>>, items: seq<Note<E>>)
    requires Increasing(list) && Increasing(items)
    requires forall i :: 0 <= i < |list| ==> Genuine(posted, list[i])
    requires forall i :: 0 <= i < |items| ==> Genuine(posted, items[i])
    requires forall i :: 0 <= i < |items| ==> !Has(list, items[i].seqCount)
    ensures Increasing(Merge(list, items))
    ensures forall i :: 0 <= i < |Merge(list, items)| ==> Genuine(posted, Merge(list, items)[i])
    ensures forall q :: Has(Merge(list, items), q) <==> Has(list, q) || Has(items, q)
  {
    MergeMembers(list, items);
    forall m, n | m in list && n in items ensures m.seqCount != n.seqCount {
      var i :| 0 <= i < |items| && items[i] == n;
      assert !Has(list, items[i].seqCount);
    }
    MergeIncreasing(list, items);
    var merged := Merge(list, items);
    forall i | 0 <= i < |merged| ensures Genuine(posted, merged[i]) {
      MergeElement(list, items, i);
    }
    forall q ensures Has(merged, q) <==> Has(list, q) || Has(items, q) {
      MergeHas(list, items, q);
    }
  }

  /** What is left of a merged list once the notes continuing the count are taken off. */
  lemma ReadyRest<E>(merged: seq<Note<E>>, next: int)
    requires Increasing(merged) && forall i :: 0 <= i < |merged| ==> next <= merged[i].seqCount
    ensures var n := Ready(merged, next);
      && Increasing(merged[n..])
      && (forall i :: 0 <= i < n ==> merged[i].seqCount == next + i)
      && (forall i :: 0 <= i < |merged| - n ==> next + n < merged[n..][i].seqCount)
      && (forall q :: Has(merged, q) <==> next <= q < next + n || Has(merged[n..], q))
  {
    ReadyPrefix(merged, next);
    var n := Ready(merged, next);
    forall q ensures Has(merged, q) <==> next <= q < next + n || Has(merged[n..], q) {
      HasSplit(merged, n, q);
      if next <= q < next + n {
        assert merged[..n][q - next].seqCount == q;
      }
    }
  }

  /** The receiver's list after a packet, for events it does not have yet. */
  lemma ReceiverMerge<E>(posted: seq<E>, r: Receiver<E>, notes: seq<Note<E>>, merged: seq<Note<E>>)
    requires ReceiverInv(posted, r) && Increasing(notes) && merged == Merge(r.waitList, notes)
    requires forall k :: 0 <= k < |notes| ==> Genuine(posted, notes[k]) && !Got(r, notes[k].seqCount)
    ensures Increasing(merged)
    ensures forall k :: 0 <= k < |merged| ==> Genuine(posted, merged[k]) && r.nextRecv <= merged[k].seqCount
    ensures forall q :: Has(merged, q) <==> Has(r.waitList, q) || Has(notes, q)
  {
    MergeNotes(posted, r.waitList, notes);
    forall k | 0 <= k < |merged| ensures Genuine(posted, merged[k]) && r.nextRecv <= merged[k].seqCount {
      MergeElement(r.waitList, notes, k);
    }
  }

  lemma EventsInOrder<E>(posted: seq<E>, notes: seq<Note<E>>, next: nat)
    requires next <= |posted|
    requires forall k :: 0 <= k < |notes| ==> Genuine(posted, notes[k]) && notes[k].seqCount == next + k
    ensures next + |notes| <= |posted|
    ensures posted[..next] + Events(notes) == posted[..next + |notes|]
  {
    if notes != [] { assert Genuine(posted, notes[|notes| - 1]); }
  }

  lemma ReceiverDrain<E>(posted: seq<E>, r: Receiver<E>, merged: seq<Note<E>>, n: nat, r': Receiver<E>)
    requires r.nextRecv <= |posted| && r.processed == posted[..r.nextRecv] && Increasing(merged)
    requires forall k :: 0 <= k < |merged| ==> Genuine(posted, merged[k]) && r.nextRecv <= merged[k].seqCount
    requires n == Ready(merged, r.nextRecv)
    requires r' == Receiver(r.nextRecv + n, merged[n..], r.processed + Events(merged[..n]))
    ensures ReceiverInv(posted, r')
    ensures forall q :: Got(r', q) <==> q < r.nextRecv || Has(merged, q)
  {
    ReadyRest(merged, r.nextRecv);
    EventsInOrder(posted, merged[..n], r.nextRecv);
    forall k | 0 <= k < |r'.waitList| ensures Genuine(posted, r'.waitList[k]) && r'.nextRecv < r'.waitList[k].seqCount {
      assert r'.waitList[k] == merged[n + k];
    }
  }

  lemma ReadReceiver<E>(y: System<E>, i: nat)
    requires Inv(y) && C.CanRead(y.c, i)
    ensures ReceiverInv(y.s.posted, ReadPacket(y.r, y.c.sent[i].wire))
    ensures forall q :: Got(ReadPacket(y.r, y.c.sent[i].wire), q) <==> Got(y.r, q) || Has(y.c.sent[i].notes, q)
  {
    PacketReadExactly(y, i);
    var merged := Merge(y.r.waitList, y.c.sent[i].notes);
    ReceiverMerge(y.s.posted, y.r, y.c.sent[i].notes, merged);
    ReceiverDrain(y.s.posted, y.r, merged, Ready(merged, y.r.nextRecv), ReadPacket(y.r, y.c.sent[i].wire));
  }

  lemma ReadKeepsInv<E>(y: System<E>, i: nat)
    requires Inv(y) && Enabled(y, ReadPacketAt(i))
    ensures Inv(Act(y, ReadPacketAt(i)))
  {
    var y' := Act(y, ReadPacketAt(i));
    C.StepsKeepValid(y.c, y.c.sent[i], i);
    ReadReceiver(y, i);
    PacketReadExactly(y, i);
    var notes := y.c.sent[i].notes;
    forall q | 0 <= q < |y.place|
      ensures Has(notes, q) <==> y.place[q] == InPacket(i)
    {
      if k :| 0 <= k < |notes| && notes[k].seqCount == q { assert y.place[notes[k].seqCount] == InPacket(i); }
    }
    assert GotInv(y');
  }

  lemma PassKeepsInv<E>(y: System<E>, i: nat)
    requires Inv(y) && Enabled(y, PassOver(i))
    ensures Inv(Act(y, PassOver(i)))
  {
  }

  // ----- notification -----

  /** Two lists merged hold what both held. */
  lemma HoldsMerge<E>(s: Sender<E>, place: seq<Place>, list: seq<Note<E>>, p: Place, items: seq<Note<E>>, p': Place,
                      s': Sender<E>, place': seq<Place>)
    requires Holds(s, place, list, p) && Holds(s, place, items, p') && p != p'
    requires s'.posted == s.posted && |place'| == |place|
    requires forall q :: 0 <= q < |place| ==> (place'[q] == p <==> place[q] == p || place[q] == p')
    ensures Holds(s', place', Merge(list, items), p)
  {
    var merged := Merge(list, items);
    forall i | 0 <= i < |items| ensures !Has(list, items[i].seqCount) {
      assert place[items[i].seqCount] == p';
    }
    MergeNotes(s.posted, list, items);
    forall i | 0 <= i < |merged| ensures place'[merged[i].seqCount] == p {
      assert Genuine(s.posted, merged[i]);
      MergeElement(list, items, i);
    }
  }

  lemma DropPlaces<E>(y: System<E>)
    requires Inv(y) && C.CanNotify(y.c) && !C.Arrived(y.c)
    ensures PlacesInv(Act(y, NotifyOldest))
  {
    hide GotInv;
    hide WindowInv;
    hide ReceiverInv;
    hide WireInv;
    var y' := Act(y, NotifyOldest);
    var j := y.c.notified;
    HoldsMerge(y.s, y.place, y.s.sendQueue, Queued, y.c.sent[j].notes, InPacket(j), y'.s, y'.place);
    HoldsSame(y.s, y.place, y'.s, y'.place, y.s.notifyList, Awaiting);
    forall k | j < k < |y.c.sent| ensures Holds(y'.s, y'.place, y.c.sent[k].notes, InPacket(k)) {
      HoldsSame(y.s, y.place, y'.s, y'.place, y.c.sent[k].notes, InPacket(k));
    }
  }

  /** The acknowledged events, those of the packet just reported among them. */
  lemma MergedAwaiting<E>(y: System<E>, merged: seq<Note<E>>, all: seq<Place>)
    requires C.CanNotify(y.c) && y.c.notified < |y.c.sent|
    requires Holds(y.s, y.place, y.s.notifyList, Awaiting)
    requires Holds(y.s, y.place, y.c.sent[y.c.notified].notes, InPacket(y.c.notified))
    requires forall q :: 0 <= q < |y.place| ==> (y.place[q] == Acked <==> q <= y.s.lastAcked)
    requires merged == Merge(y.s.notifyList, y.c.sent[y.c.notified].notes)
    requires all == Settle(y.place, y.c.notified, Awaiting, y.s.lastAcked)
    ensures Holds(y.s, all, merged, Awaiting)
    ensures forall q :: 0 <= q < |all| ==> (all[q] == Acked <==> q <= y.s.lastAcked)
  {
    var j := y.c.notified;
    HoldsMerge(y.s, y.place, y.s.notifyList, Awaiting, y.c.sent[j].notes, InPacket(j), y.s, all);
  }

  /** Acknowledged events wait until every earlier one is acknowledged too. */
  lemma SettleAcked<E>(s: Sender<E>, all: seq<Place>, merged: seq<Note<E>>, n: nat, s': Sender<E>, place': seq<Place>)
    requires Holds(s, all, merged, Awaiting) && -1 <= s.lastAcked < |all|
    requires forall q :: 0 <= q < |all| ==> (all[q] == Acked <==> q <= s.lastAcked)
    requires n == Ready(merged, s.lastAcked + 1)
    requires s' == s.(notifyList := merged[n..], lastAcked := s.lastAcked + n)
    requires |place'| == |all|
    requires forall q :: 0 <= q < |all| ==>
      place'[q] == if all[q] == Awaiting && q <= s'.lastAcked then Acked else all[q]
    ensures s'.lastAcked < |all|
    ensures Holds(s', place', s'.notifyList, Awaiting)
    ensures forall q :: 0 <= q < |all| ==> (place'[q] == Acked <==> q <= s'.lastAcked)
  {
    AboveAcked(s, all, merged);
    ReadyRest(merged, s.lastAcked + 1);
    if n > 0 { assert Genuine(s.posted, merged[n - 1]); }
    forall q | s.lastAcked < q <= s'.lastAcked ensures all[q] == Awaiting {
      assert merged[q - s.lastAcked - 1].seqCount == q;
    }
    DrainHolds(s, all, merged, n, s', place');
  }

  lemma ReceiveAwaiting<E>(y: System<E>)
    requires C.Valid(y.c) && C.CanNotify(y.c) && C.Arrived(y.c)
    requires Holds(y.s, y.place, y.s.notifyList, Awaiting)
    requires Holds(y.s, y.place, y.c.sent[y.c.notified].notes, InPacket(y.c.notified))
    requires forall q :: 0 <= q < |y.place| ==> (y.place[q] == Acked <==> q <= y.s.lastAcked)
    requires -1 <= y.s.lastAcked < |y.place|
    ensures var y' := Act(y, NotifyOldest);
      && y.s.lastAcked <= y'.s.lastAcked < |y.place|
      && Holds(y'.s, y'.place, y'.s.notifyList, Awaiting)
      && (forall q :: 0 <= q < |y.place| ==> (y'.place[q] == Acked <==> q <= y'.s.lastAcked))
  {
    hide Merge;
    hide Ready;
    hide Holds;
    var y' := Act(y, NotifyOldest);
    var merged := Merge(y.s.notifyList, y.c.sent[y.c.notified].notes);
    var all := Settle(y.place, y.c.notified, Awaiting, y.s.lastAcked);
    MergedAwaiting(y, merged, all);
    SettleAcked(y.s, all, merged, Ready(merged, y.s.lastAcked + 1), y'.s, y'.place);
  }

  lemma AboveAcked<E>(s: Sender<E>, place: seq<Place>, list: seq<Note<E>>)
    requires Holds(s, place, list, Awaiting)
    requires forall q :: 0 <= q < |place| && q <= s.lastAcked ==> place[q] == Acked
    ensures forall i :: 0 <= i < |list| ==> s.lastAcked < list[i].seqCount
  {
    forall i | 0 <= i < |list| ensures s.lastAcked < list[i].seqCount {
      assert Genuine(s.posted, list[i]);
    }
  }

  lemma DrainHolds<E>(s: Sender<E>, place: seq<Place>, merged: seq<Note<E>>, n: nat, s': Sender<E>, place': seq<Place>)
    requires Holds(s, place, merged, Awaiting) && n <= |merged|
    requires s'.posted == s.posted && |place'| == |place| && s'.lastAcked == s.lastAcked + n
    requires Increasing(merged[n..])
    requires forall i :: 0 <= i < |merged| - n ==> s'.lastAcked < merged[n..][i].seqCount
    requires forall q :: Has(merged, q) <==> s.lastAcked < q <= s'.lastAcked || Has(merged[n..], q)
    requires forall q :: 0 <= q < |place| ==>
      place'[q] == if place[q] == Awaiting && q <= s'.lastAcked then Acked else place[q]
    ensures Holds(s', place', merged[n..], Awaiting)
  {
    var rest := merged[n..];
    forall i | 0 <= i < |rest| ensures Genuine(s.posted, rest[i]) && place'[rest[i].seqCount] == Awaiting {
      assert rest[i] == merged[n + i];
      assert Genuine(s.posted, merged[n + i]);
    }
    forall q | 0 <= q < |place'| && place'[q] == Awaiting ensures Has(rest, q) {
      assert place[q] == Awaiting && Has(merged, q);
    }
  }

  lemma ReceivePlaces<E>(y: System<E>)
    requires Inv(y) && C.CanNotify(y.c) && C.Arrived(y.c)
    ensures PlacesInv(Act(y, NotifyOldest))
  {
    hide GotInv;
    hide WindowInv;
    hide ReceiverInv;
    hide WireInv;
    hide Genuine;
    hide Increasing;
    hide Has;
    var y' := Act(y, NotifyOldest);
    ReceiveAwaiting(y);
    HoldsSame(y.s, y.place, y'.s, y'.place, y.s.sendQueue, Queued);
    forall k | y.c.notified < k < |y.c.sent| ensures Holds(y'.s, y'.place, y.c.sent[k].notes, InPacket(k)) {
      HoldsSame(y.s, y.place, y'.s, y'.place, y.c.sent[k].notes, InPacket(k));
    }
  }

  lemma NotifyKeepsInv<E>(y: System<E>)
    requires Inv(y) && Enabled(y, NotifyOldest)
    ensures Inv(Act(y, NotifyOldest))
  {
    if C.Arrived(y.c) {
      ReceivePlaces(y);
      ReceiveAwaiting(y);
    } else {
      DropPlaces(y);
    }
    assert GotInv(Act(y, NotifyOldest));
    assert WindowInv(Act(y, NotifyOldest));
  }

  // ----- whole runs -----

  lemma ActKeepsInv<E>(y: System<E>, act: Action<E>)
    requires Inv(y) && Enabled(y, act)
    ensures Inv(Act(y, act))
  {
    match act
    case PostEvent(e) => PostKeepsInv(y, e);
    case SendPacket(count) => SendKeepsInv(y, count);
    case ReadPacketAt(i) => ReadKeepsInv(y, i);
    case PassOver(i) => PassKeepsInv(y, i);
    case NotifyOldest => NotifyKeepsInv(y);
  }

  ghost predicate Possible<E>(y: System<E>, acts: seq<Action<E>>)
    requires Inv(y)
    decreases |acts|
  {
    acts == [] || (Enabled(y, acts[0]) && (ActKeepsInv(y, acts[0]); Possible(Act(y, acts[0]), acts[1..])))
  }

  ghost function After<E>(y: System<E>, acts: seq<Action<E>>): (y': System<E>)
    requires Inv(y) && Possible(y, acts)
    ensures Inv(y')
    decreases |acts|
  {
    if acts == [] then y
    else
      ActKeepsInv(y, acts[0]);
      After(Act(y, acts[0]), acts[1..])
  }

  /** In every run the events processed are a prefix of the events posted: each at most once, none
      skipped, in order.  Every posted event is at exactly one place at the sender, and the sender
      reports an event as delivered only after it was processed. */
  lemma ExactlyOnceInOrder<E>(acts: seq<Action<E>>, q: nat)
    requires Possible(Initial(), acts)
    ensures var y := After(Initial(), acts);
      && y.r.processed <= y.s.posted
      && y.s.lastAcked < |y.r.processed|
      && |y.place| == |y.s.posted|
      && Increasing(y.s.sendQueue) && Increasing(y.s.notifyList) && Increasing(y.r.waitList)
      && (q < |y.place| ==>
            && (y.place[q].InPacket? ==> y.c.notified <= y.place[q].packet < |y.c.sent|)
            && (Has(y.s.sendQueue, q) <==> y.place[q] == Queued)
            && (Has(y.s.notifyList, q) <==> y.place[q] == Awaiting)
            && (q <= y.s.lastAcked <==> y.place[q] == Acked)
            && (forall j :: y.c.notified <= j < |y.c.sent| ==>
                 (Has(y.c.sent[j].notes, q) <==> y.place[q] == InPacket(j))))
  {
    var y := After(Initial(), acts);
    AckedBehindReceiver(y);
    if q < |y.place| {
      HoldsHas(y.s, y.place, y.s.sendQueue, Queued, q);
      HoldsHas(y.s, y.place, y.s.notifyList, Awaiting, q);
      forall j | y.c.notified <= j < |y.c.sent| ensures Has(y.c.sent[j].notes, q) <==> y.place[q] == InPacket(j) {
        HoldsHas(y.s, y.place, y.c.sent[j].notes, InPacket(j), q);
      }
    }
  }

  lemma HoldsHas<E>(s: Sender<E>, place: seq<Place>, list: seq<Note<E>>, p: Place, q: nat)
    requires Holds(s, place, list, p) && q < |place|
    ensures Has(list, q) <==> place[q] == p
  {
  }

  /** Nothing is lost: once the send queue is empty and every packet has been reported, all events
      posted have been processed, in order. */
  lemma AllProcessedWhenQuiet<E>(acts: seq<Action<E>>)
    requires Possible(Initial(), acts)
    ensures var y := After(Initial(), acts);
      y.s.sendQueue == [] && y.c.notified == |y.c.sent| ==> y.r.processed == y.s.posted
  {
    var y := After(Initial(), acts);
    if y.s.sendQueue == [] && y.c.notified == |y.c.sent| && y.r.nextRecv < |y.s.posted| {
      assert !Got(y.r, y.r.nextRecv);
      HoldsHas(y.s, y.place, y.s.sendQueue, Queued, y.r.nextRecv);
      assert false;
    }
  }

  // ----- nothing waits without a gap before it -----

  /** What waits, at either end, waits for an event before it. */
  ghost predicate Waits<E>(y: System<E>) {
    && (forall i :: 0 <= i < |y.s.notifyList| ==> y.s.lastAcked + 1 < y.s.notifyList[i].seqCount)
    && (forall i :: 0 <= i < |y.r.waitList| ==> y.r.nextRecv < y.r.waitList[i].seqCount)
  }

  lemma DrainWaits<E>(s: Sender<E>, all: seq<Place>, merged: seq<Note<E>>)
    requires Holds(s, all, merged, Awaiting) && forall q :: 0 <= q < |all| && q <= s.lastAcked ==> all[q] == Acked
    ensures var n := Ready(merged, s.lastAcked + 1);
      forall i :: 0 <= i < |merged| - n ==> s.lastAcked + n + 1 < merged[n..][i].seqCount
  {
    AboveAcked(s, all, merged);
    ReadyPrefix(merged, s.lastAcked + 1);
  }

  lemma ReceiveWaits<E>(y: System<E>)
    requires Inv(y) && C.CanNotify(y.c) && C.Arrived(y.c)
    ensures forall i :: 0 <= i < |Act(y, NotifyOldest).s.notifyList| ==>
      Act(y, NotifyOldest).s.lastAcked + 1 < Act(y, NotifyOldest).s.notifyList[i].seqCount
  {
    hide GotInv;
    hide WindowInv;
    hide ReceiverInv;
    hide WireInv;
    hide Holds;
    hide Merge;
    hide Ready;
    hide Settle;
    var merged := Merge(y.s.notifyList, y.c.sent[y.c.notified].notes);
    var all := Settle(y.place, y.c.notified, Awaiting, y.s.lastAcked);
    MergedAwaiting(y, merged, all);
    DrainWaits(y.s, all, merged);
    assert Act(y, NotifyOldest).s == PacketReceived(y.s, y.c.sent[y.c.notified].notes);
    assert PacketReceived(y.s, y.c.sent[y.c.notified].notes).notifyList == merged[Ready(merged, y.s.lastAcked + 1)..];
  }

  lemma WaitsKept<E>(y: System<E>, act: Action<E>)
    requires Inv(y) && Waits(y) && Enabled(y, act)
    ensures Waits(Act(y, act))
  {
    hide PlacesInv;
    hide GotInv;
    hide WindowInv;
    hide WireInv;
    hide ReadPacket;
    hide Merge;
    hide Ready;
    hide Encode;
    if act.ReadPacketAt? { ReadReceiver(y, act.packet); }
    if act.NotifyOldest? && C.Arrived(y.c) { ReceiveWaits(y); }
  }

  lemma {:induction false} RunWaits<E>(y: System<E>, acts: seq<Action<E>>)
    requires Inv(y) && Waits(y) && Possible(y, acts)
    ensures Waits(After(y, acts))
    decreases |acts|
  {
    hide Waits;
    hide Act;
    hide PlacesInv;
    hide ReceiverInv;
    hide GotInv;
    hide WindowInv;
    hide WireInv;
    hide Enabled;
    if acts != [] {
      ActKeepsInv(y, acts[0]);
      WaitsKept(y, acts[0]);
      RunWaits(Act(y, acts[0]), acts[1..]);
    }
  }

  /** Over every run, neither end holds back the event that is due: the sender's list of arrived
      events has not the one after the last acknowledged, and the receiver's has not its next.  So once
      the send queue is empty and every packet reported, all events are acknowledged. */
  lemma NothingHeldBack<E>(acts: seq<Action<E>>)
    requires Possible(Initial(), acts)
    ensures var y := After(Initial(), acts);
      && (forall i :: 0 <= i < |y.s.notifyList| ==> y.s.notifyList[i].seqCount > y.s.lastAcked + 1)
      && (forall i :: 0 <= i < |y.r.waitList| ==> y.r.waitList[i].seqCount > y.r.nextRecv)
      && (y.s.sendQueue == [] && y.c.notified == |y.c.sent| ==>
           y.s.lastAcked + 1 == |y.s.posted| && y.s.notifyList == [])
  {
    RunWaits(Initial(), acts);
    var y := After(Initial(), acts);
    hide After;
    hide Possible;
    if y.s.sendQueue == [] && y.c.notified == |y.c.sent| { AllAcked(y); }
  }

  lemma AllAcked<E>(y: System<E>)
    requires PlacesInv(y) && Waits(y) && y.s.sendQueue == [] && y.c.notified == |y.c.sent|
    ensures y.s.lastAcked + 1 == |y.s.posted| && y.s.notifyList == []
  {
    forall k | 0 <= k < |y.place| ensures y.place[k] != Queued {
      assert y.place[k] == Queued ==> Has(y.s.sendQueue, k);
    }
    assert !Has(y.s.notifyList, y.s.lastAcked + 1);
    assert y.s.lastAcked + 1 == |y.place|;
    NoneBeyond(y.s.posted, y.s.notifyList, y.s.lastAcked + 1);
  }

  lemma NoneBeyond<E>(posted: seq<E>, list: seq<Note<E>>, next: int)
    requires forall i :: 0 <= i < |list| ==> Genuine(posted, list[i])
    requires next == |posted| && forall i :: 0 <= i < |list| ==> next < list[i].seqCount
    ensures list == []
  {
    var first := if list == [] then next else list[0].seqCount;
  }

  // ----- what a packet can bring -----

  ghost predicate OldList<E>(list: seq<Note<E>>, count: nat) {
    forall k :: 0 <= k < |list| ==> list[k].seqCount < count
  }

  /** Packets carry, and have brought, only events posted before they were written. */
  ghost predicate OriginInv<E>(y: System<E>) {
    && (forall j :: 0 <= j < |y.c.sent| ==> y.c.sent[j].posted <= |y.s.posted|)
    && (forall j, k :: 0 <= j < k < |y.c.sent| ==> y.c.sent[j].posted <= y.c.sent[k].posted)
    && (forall j :: 0 <= j < |y.c.sent| ==> OldList(y.c.sent[j].notes, y.c.sent[j].posted))
    && (y.c.cursor == 0 ==> y.r.nextRecv == 0 && y.r.waitList == [])
    && (forall j :: 0 <= j < |y.c.sent| && y.c.cursor - 1 <= j ==>
          y.r.nextRecv <= y.c.sent[j].posted && OldList(y.r.waitList, y.c.sent[j].posted))
  }

  /** Reading a packet never takes the receiver beyond the events posted when it was written. */
  lemma BroughtByPacket<E>(y: System<E>, i: nat)
    requires Inv(y) && OriginInv(y) && C.CanRead(y.c, i)
    ensures var r' := ReadPacket(y.r, y.c.sent[i].wire);
      r'.nextRecv <= y.c.sent[i].posted && OldList(r'.waitList, y.c.sent[i].posted)
  {
    PacketReadExactly(y, i);
    var merged := Merge(y.r.waitList, y.c.sent[i].notes);
    forall k | 0 <= k < |merged| ensures merged[k].seqCount < y.c.sent[i].posted {
      MergeElement(y.r.waitList, y.c.sent[i].notes, k);
    }
    ReceiverMerge(y.s.posted, y.r, y.c.sent[i].notes, merged);
    ReadyPrefix(merged, y.r.nextRecv);
    var n := Ready(merged, y.r.nextRecv);
    if n > 0 { assert merged[n - 1].seqCount == y.r.nextRecv + n - 1; }
  }

  /** What waits to be sent, and what the receiver has waiting, was posted. */
  lemma QueuesPosted<E>(y: System<E>)
    requires Inv(y)
    ensures OldList(y.s.sendQueue, |y.s.posted|) && OldList(y.r.waitList, |y.s.posted|) && y.r.nextRecv <= |y.s.posted|
  {
    hide GotInv;
    hide WindowInv;
    hide WireInv;
    forall k | 0 <= k < |y.s.sendQueue|
      ensures y.s.sendQueue[k].seqCount < |y.s.posted|
    {
      assert Genuine(y.s.posted, y.s.sendQueue[k]);
    }
    forall k | 0 <= k < |y.r.waitList|
      ensures y.r.waitList[k].seqCount < |y.s.posted|
    {
      assert Genuine(y.s.posted, y.r.waitList[k]);
    }
  }

  lemma OriginSend<E>(y: System<E>, count: nat)
    requires Inv(y) && OriginInv(y) && Enabled(y, SendPacket(count))
    ensures OriginInv(Act(y, SendPacket(count)))
  {
    hide PlacesInv;
    hide GotInv;
    hide WindowInv;
    hide WireInv;
    hide ReceiverInv;
    hide Repack;
    hide Encode;
    QueuesPosted(y);
  }

  lemma OriginKept<E>(y: System<E>, act: Action<E>)
    requires Inv(y) && OriginInv(y) && Enabled(y, act)
    ensures OriginInv(Act(y, act))
  {
    hide PlacesInv;
    hide GotInv;
    hide WindowInv;
    hide WireInv;
    hide ReceiverInv;
    hide ReadPacket;
    hide Repack;
    hide Settle;
    hide Merge;
    hide Ready;
    hide Encode;
    if act.ReadPacketAt? { BroughtByPacket(y, act.packet); }
    if act.SendPacket? { OriginSend(y, act.count); }
  }

  lemma {:induction false} OriginAfter<E>(y: System<E>, acts: seq<Action<E>>)
    requires Inv(y) && OriginInv(y) && Possible(y, acts)
    ensures OriginInv(After(y, acts))
    decreases |acts|
  {
    if acts != [] {
      ActKeepsInv(y, acts[0]);
      OriginKept(y, acts[0]);
      OriginAfter(Act(y, acts[0]), acts[1..]);
    }
  }

  /** In every run a packet brings the receiver only to events posted before the packet was
      written. */
  lemma NothingFromTheFuture<E>(acts: seq<Action<E>>, i: nat)
    requires Possible(Initial(), acts) && C.CanRead(After(Initial(), acts).c, i)
    ensures var y := After(Initial(), acts);
      ReadPacket(y.r, y.c.sent[i].wire).nextRecv <= y.c.sent[i].posted <= |y.s.posted|
  {
    OriginAfter(Initial(), acts);
    BroughtByPacket(After(Initial(), acts), i);
  }
}
