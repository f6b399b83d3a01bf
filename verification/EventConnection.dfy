/** EventConnection's guaranteed-ordered events with its queues edited in place, each method proved
    to do what `OrderedEvents` says. */
module EventConnectionObject {
  import opened OrderedEvents
  import opened EventNoteList

  class EventConnection<E> {
    var mSendEventQueueHead: EventNote?<E>
    var mSendEventQueueTail: EventNote?<E>
    var mNotifyEventList: EventNote?<E>
    var mWaitSeqEvents: EventNote?<E>
    var mNextSendEventSeq: int
    var mNextRecvEventSeq: nat
    var mLastAckedEventSeq: int

    ghost var SendNotes: seq<EventNote<E>>
    ghost var NotifyNotes: seq<EventNote<E>>
    ghost var WaitNotes: seq<EventNote<E>>
    ghost var SendNodes: set<EventNote<E>>
    ghost var NotifyNodes: set<EventNote<E>>
    ghost var WaitNodes: set<EventNote<E>>
    /** The ordered events posted, and those processed, so far. */
    ghost var Posted: seq<E>
    ghost var Processed: seq<E>

    ghost predicate SendListed()
      reads `mSendEventQueueHead, `mSendEventQueueTail, `SendNotes, `SendNodes, SendNodes
    {
      && ListIn(mSendEventQueueHead, SendNotes, SendNodes)
      && (SendNotes != [] ==> mSendEventQueueTail == SendNotes[|SendNotes| - 1])
    }

    ghost predicate NotifyListed()
      reads `mNotifyEventList, `NotifyNotes, `NotifyNodes, NotifyNodes
    {
      ListIn(mNotifyEventList, NotifyNotes, NotifyNodes)
    }

    ghost predicate WaitListed()
      reads `mWaitSeqEvents, `WaitNotes, `WaitNodes, WaitNodes
    {
      ListIn(mWaitSeqEvents, WaitNotes, WaitNodes)
    }

    ghost predicate Valid()
      reads this, SendNodes, NotifyNodes, WaitNodes
    {
      && SendListed()
      && NotifyListed()
      && WaitListed()
      && SendNodes !! NotifyNodes && SendNodes !! WaitNodes && NotifyNodes !! WaitNodes
      && mNextSendEventSeq == |Posted|
    }

    ghost function SenderView(): Sender<E>
      reads `Posted, `SendNotes, `NotifyNotes, `mLastAckedEventSeq
    {
      Sender(Posted, Values(SendNotes), Values(NotifyNotes), mLastAckedEventSeq)
    }

    ghost function ReceiverView(): Receiver<E>
      reads `mNextRecvEventSeq, `WaitNotes, `Processed
    {
      Receiver(mNextRecvEventSeq, Values(WaitNotes), Processed)
    }

    constructor ()
      ensures Valid() && SenderView() == NewSender() && ReceiverView() == NewReceiver()
    {
      mSendEventQueueHead, mSendEventQueueTail, mNotifyEventList, mWaitSeqEvents := null, null, null, null;
      mNextSendEventSeq, mNextRecvEventSeq, mLastAckedEventSeq := 0, 0, -1;
      SendNotes, NotifyNotes, WaitNotes, Posted, Processed := [], [], [], [], [];
      SendNodes, NotifyNodes, WaitNodes := {}, {}, {};
    }

    method PostNetEvent(theEvent: E)
      requires Valid()
      modifies `mNextSendEventSeq, `mSendEventQueueHead, `mSendEventQueueTail, `SendNotes, `SendNodes, `Posted,
               SendNodes
      ensures Valid() && SenderView() == old(Post(SenderView(), theEvent))
      ensures fresh(SendNodes - old(SendNodes))
    {
      hide NotifyListed;
      hide WaitListed;
      hide ListIn;
      hide Merge;
      hide Values;
      hide Ready;
      hide Decode;
      hide Events;
      hide Within;
      hide Linked;
      var event;
      mSendEventQueueHead, event :=
        AppendNew(mSendEventQueueHead, mSendEventQueueTail, theEvent, mNextSendEventSeq, SendNotes, SendNodes);
      mSendEventQueueTail := event;
      mNextSendEventSeq := mNextSendEventSeq + 1;
      Posted := Posted + [theEvent];
      SendNotes, SendNodes := SendNotes + [event], SendNodes + {event};
    }

    /** Packs events until the packet has no room for another (`room` is how many fit), the queue
        is empty, or the window ends. */
    method WritePacketOrdered(room: nat)
      returns (eventList: EventNote?<E>, wire: seq<WireEvent<E>>, ghost notes: seq<EventNote<E>>,
               ghost nodes: set<EventNote<E>>)
      requires Valid()
      modifies `mSendEventQueueHead, `SendNotes, `SendNodes, SendNodes
      ensures Valid() && ListIn(eventList, notes, nodes) && nodes !! SendNodes && SendNodes + nodes == old(SendNodes)
      ensures var s := old(SenderView()); var count := |wire|;
        && CanWrite(s, count) && SenderView() == Write(s, count)
        && Written(s, count) == EventPacket(Values(notes), wire, |s.posted|)
        && count <= room
        && (count == room || count == |s.sendQueue| || s.sendQueue[count].seqCount > s.lastAcked + 126)
        && (forall i :: 0 <= i < count ==> s.sendQueue[i].seqCount <= s.lastAcked + 126)
    {
      hide NotifyListed;
      hide WaitListed;
      hide ListIn;
      hide Values;
      hide Encode;
      mSendEventQueueHead, SendNotes, SendNodes, eventList, notes, nodes, wire :=
        PackEvents(mSendEventQueueHead, SendNotes, SendNodes, room, mLastAckedEventSeq + WINDOW);
      assert SendListed();
      assert NotifyListed();
      assert WaitListed();
      assert SenderView().sendQueue == old(SenderView()).sendQueue[|wire|..];
    }

    /** A dropped packet's events go back into the send queue in their places. */
    method PacketDroppedOrdered(eventList: EventNote?<E>, ghost notes: seq<EventNote<E>>,
                                ghost nodes: set<EventNote<E>>)
      requires Valid() && ListIn(eventList, notes, nodes) && nodes !! SendNodes + NotifyNodes + WaitNodes
      modifies `mSendEventQueueHead, `mSendEventQueueTail, `SendNotes, `SendNodes, SendNodes, nodes
      ensures Valid() && SenderView() == old(PacketDropped(SenderView(), Values(notes)))
      ensures SendNodes == old(SendNodes) + nodes
    {
      hide NotifyListed;
      hide WaitListed;
      hide ListIn;
      hide Merge;
      hide Values;
      hide Ready;
      hide Decode;
      hide Events;
      hide Within;
      hide Linked;
      var last;
      mSendEventQueueHead, SendNotes, last := MergeLists(mSendEventQueueHead, SendNotes, SendNodes, eventList, notes,
                                                         nodes);
      SendNodes := SendNodes + nodes;
      if last != null { mSendEventQueueTail := last; }
    }

    /** An arrived packet's events wait for their predecessors; those without a gap before them
        are acknowledged. */
    method PacketReceivedOrdered(eventList: EventNote?<E>, ghost notes: seq<EventNote<E>>,
                                 ghost nodes: set<EventNote<E>>)
      requires Valid() && ListIn(eventList, notes, nodes) && nodes !! SendNodes + NotifyNodes + WaitNodes
      modifies `mNotifyEventList, `mLastAckedEventSeq, `NotifyNotes, `NotifyNodes, NotifyNodes, nodes
      ensures Valid() && SenderView() == old(PacketReceived(SenderView(), Values(notes)))
      ensures NotifyNodes == old(NotifyNodes) + nodes
    {
      hide SendListed;
      hide WaitListed;
      hide ListIn;
      hide Merge;
      hide Values;
      hide Ready;
      hide Decode;
      hide Events;
      hide Within;
      hide Linked;
      var delivered;
      mNotifyEventList, delivered, NotifyNotes :=
        MergeAndDrain(mNotifyEventList, NotifyNotes, NotifyNodes, eventList, notes, nodes, mLastAckedEventSeq + 1);
      NotifyNodes := NotifyNodes + nodes;
      mLastAckedEventSeq := mLastAckedEventSeq + |delivered|;
    }

    /** Reads a packet's ordered events and processes those without a gap before them. */
    method ReadPacketOrdered(wire: seq<WireEvent<E>>)
      requires Valid()
      modifies `mWaitSeqEvents, `mNextRecvEventSeq, `WaitNotes, `WaitNodes, `Processed, WaitNodes
      ensures Valid() && ReceiverView() == old(ReadPacket(ReceiverView(), wire))
      ensures fresh(WaitNodes - old(WaitNodes))
    {
      hide SendListed;
      hide NotifyListed;
      hide ListIn;
      hide Merge;
      hide Values;
      hide Ready;
      hide Decode;
      hide Events;
      hide Within;
      hide Linked;
      var events;
      mWaitSeqEvents, events, WaitNotes, WaitNodes :=
        MergeWire(mWaitSeqEvents, WaitNotes, WaitNodes, wire, mNextRecvEventSeq);
      mNextRecvEventSeq := mNextRecvEventSeq + |events|;
      Processed := Processed + events;
    }
  }

  /** New notes for the events of a packet, in the packet's order. */
  method MakeNotes<E>(wire: seq<WireEvent<E>>, base: nat)
    returns (head: EventNote?<E>, ghost notes: seq<EventNote<E>>, ghost nodes: set<EventNote<E>>)
    ensures fresh(nodes) && ListIn(head, notes, nodes) && Values(notes) == Decode(-2, wire, base)
  {
    hide ListIn;
    hide Values;
    hide Decode;
    head, notes, nodes := null, [], {};
    EmptyList<E>();
    var tail: EventNote?<E> := null;
    var prevSeq := -2;
    var i := 0;
    while i < |wire|
      invariant i <= |wire| && fresh(nodes) && ListIn(head, notes, nodes)
      invariant notes != [] ==> tail == notes[|notes| - 1]
      invariant Values(notes) + Decode(prevSeq, wire[i..], base) == Decode(-2, wire, base)
    {
      var low := if wire[i].code.Next? then (prevSeq + 1) % MODULUS else wire[i].code.bits;
      var note;
      head, note := AppendNew(head, tail, wire[i].event, Extend(low, base), notes, nodes);
      DecodeStep(prevSeq, wire, i, base);
      assert Values(notes + [note]) + Decode(low, wire[i + 1..], base)
          == Values(notes) + Decode(prevSeq, wire[i..], base);
      tail, notes, nodes := note, notes + [note], nodes + {note};
      prevSeq := low;
      i := i + 1;
    }
    assert wire[i..] == [];
    DecodeNone<E>(prevSeq, base);
  }

  lemma DecodeStep<E>(prev: int, wire: seq<WireEvent<E>>, i: nat, base: nat)
    requires i < |wire|
    ensures var low := if wire[i].code.Next? then (prev + 1) % MODULUS else wire[i].code.bits;
      Decode(prev, wire[i..], base) == [Note(Extend(low, base), wire[i].event)] + Decode(low, wire[i + 1..], base)
  {
    assert wire[i..][1..] == wire[i + 1..];
  }

  lemma DecodeNone<E>(prev: int, base: nat)
    ensures Decode<E>(prev, [], base) == []
  {
  }

  /** Merges a packet's events into the waiting list and takes off those that are due. */
  method MergeWire<E>(head: EventNote?<E>, ghost list: seq<EventNote<E>>, ghost nodes: set<EventNote<E>>,
                      wire: seq<WireEvent<E>>, base: nat)
    returns (head': EventNote?<E>, events: seq<E>, ghost rest: seq<EventNote<E>>, ghost nodes': set<EventNote<E>>)
    requires ListIn(head, list, nodes)
    modifies nodes
    ensures ListIn(head', rest, nodes') && fresh(nodes' - nodes)
    ensures var merged := Merge(Values(list), Decode(-2, wire, base)); var n := Ready(merged, base);
      events == Events(merged[..n]) && |events| == n && Values(rest) == merged[n..]
  {
    hide ListIn;
    hide Merge;
    hide Values;
    hide Ready;
    var items;
    ghost var notes, itemNodes;
    items, notes, itemNodes := MakeNotes(wire, base);
    head', events, rest := MergeAndDrain(head, list, nodes, items, notes, itemNodes, base);
    nodes' := nodes + itemNodes;
  }

  /** The leading events numbered at most `bound`, at most `room` of them, taken off a list, with
      their encoding. */
  method PackEvents<E>(head: EventNote?<E>, ghost spine: seq<EventNote<E>>, ghost nodes: set<EventNote<E>>, room: nat,
                       bound: int)
    returns (head': EventNote?<E>, ghost rest: seq<EventNote<E>>, ghost restNodes: set<EventNote<E>>,
             packed: EventNote?<E>, ghost notes: seq<EventNote<E>>, ghost packedNodes: set<EventNote<E>>,
               wire: seq<WireEvent<E>>)
    requires ListIn(head, spine, nodes)
    modifies nodes
    ensures ListIn(head', rest, restNodes) && ListIn(packed, notes, packedNodes)
    ensures restNodes !! packedNodes && restNodes + packedNodes == nodes
    ensures rest != [] ==> spine != [] && rest[|rest| - 1] == spine[|spine| - 1]
    ensures var queue, n := Values(spine), |wire|;
      && n <= |queue| && n <= room
      && (forall i :: 0 <= i < n ==> queue[i].seqCount <= bound)
      && (n == room || n == |queue| || queue[n].seqCount > bound)
      && Values(rest) == queue[n..] && Values(notes) == queue[..n] && wire == Encode(-2, queue[..n])
  {
    hide ListIn;
    hide Values;
    hide Encode;
    hide Packing;
    ghost var queue := Values(spine);
    PacksNone(queue);
    head', rest, restNodes := head, spine, nodes;
    packed, notes, packedNodes, wire := null, [], {}, [];
    EmptyList<E>();
    var packQueueTail: EventNote?<E> := null;
    var prevSeq := -2;
    while head' != null && |wire| < room && head'.mSeqCount <= bound
      invariant ListIn(head', rest, restNodes) && ListIn(packed, notes, packedNodes)
      invariant restNodes !! packedNodes && restNodes + packedNodes == nodes
      invariant notes != [] ==> packQueueTail == notes[|notes| - 1]
      invariant |wire| <= |queue| && |wire| <= room && rest == spine[|wire|..]
      invariant Packing(queue, prevSeq, Values(rest), Values(notes), wire)
      invariant forall i :: 0 <= i < |wire| ==> queue[i].seqCount <= bound
      decreases room - |wire|
    {
      var ev := head';
      PopFront(ev, rest, restNodes);
      PacksOne(queue, prevSeq, Values(rest), Values(notes), wire, ev.Value(), Values(rest[1..]));
      head', packed := Transfer(ev, rest, restNodes, packed, packQueueTail, notes, packedNodes);
      wire := wire + [WireEvent(if ev.mSeqCount == prevSeq + 1 then Next else Low(ev.mSeqCount % MODULUS), ev.mEvent)];
      prevSeq, packQueueTail := ev.mSeqCount, ev;
      rest, restNodes, notes, packedNodes := rest[1..], restNodes - {ev}, notes + [ev], packedNodes + {ev};
    }
    if head' != null { PopFront(head', rest, restNodes); } else { NullIsEmpty(rest, restNodes); }
    PacksAll(queue, prevSeq, Values(rest), Values(notes), wire);
  }

  /** So much of the queue is encoded. */
  ghost predicate Packing<E>(queue: seq<Note<E>>, prevSeq: int, left: seq<Note<E>>, done: seq<Note<E>>,
                             wire: seq<WireEvent<E>>)
  {
    && |wire| <= |queue| && left == queue[|wire|..] && done == queue[..|wire|]
    && wire + Encode(prevSeq, left) == Encode(-2, queue)
  }

  lemma PacksNone<E>(queue: seq<Note<E>>)
    ensures Packing(queue, -2, queue, [], [])
  {
    hide Encode;
    assert [] + Encode(-2, queue) == Encode(-2, queue);
  }

  lemma PacksOne<E>(queue: seq<Note<E>>, prevSeq: int, left: seq<Note<E>>, done: seq<Note<E>>, wire: seq<WireEvent<E>>,
                    note: Note<E>, left': seq<Note<E>>)
    requires Packing(queue, prevSeq, left, done, wire) && left == [note] + left'
    ensures |wire| < |queue| && queue[|wire|] == note
    ensures var code := if note.seqCount == prevSeq + 1 then Next else Low(note.seqCount % MODULUS);
      Packing(queue, note.seqCount, left', done + [note], wire + [WireEvent(code, note.event)])
  {
    hide Encode;
    var k := |wire|;
    assert queue[k] == left[0] && queue[k + 1..] == left[1..] == left';
    EncodeStep(prevSeq, queue, k);
  }

  lemma PacksAll<E>(queue: seq<Note<E>>, prevSeq: int, left: seq<Note<E>>, done: seq<Note<E>>, wire: seq<WireEvent<E>>)
    requires Packing(queue, prevSeq, left, done, wire)
    ensures left == queue[|wire|..] && done == queue[..|wire|] && wire == Encode(-2, queue[..|wire|])
  {
    EncodePrefix(-2, queue, |wire|);
  }
}
