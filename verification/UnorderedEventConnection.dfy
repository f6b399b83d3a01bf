/** EventConnection's events without an order with their queue edited in place, each method proved to do
    what `UnorderedEventSystem` says. */
module UnorderedEventConnectionObject {
  import opened OrderedEvents
  import opened EventNoteList
  import opened UnorderedEventSystem

  /** An event, by the number of its posting. */
  datatype NetEvent = NetEvent(number: nat, mGuaranteeType: Kind)

  /** InvalidSendEventSeq */
  const NO_SEQUENCE := -1

  ghost function Numbers(notes: seq<EventNote<NetEvent>>): (numbers: seq<nat>)
    ensures |numbers| == |notes|
  {
    seq(|notes|, i requires 0 <= i < |notes| => notes[i].mEvent.number)
  }

  /** The events are of the kinds they were posted as. */
  ghost predicate Known(notes: seq<EventNote<NetEvent>>, posted: seq<Kind>) {
    forall i :: 0 <= i < |notes| ==>
      notes[i].mEvent.number < |posted| && posted[notes[i].mEvent.number] == notes[i].mEvent.mGuaranteeType
  }

  class EventConnection {
    var mUnorderedSendEventQueueHead: EventNote?<NetEvent>
    var mUnorderedSendEventQueueTail: EventNote?<NetEvent>
    var mEventCount: nat

    ghost var QueueNotes: seq<EventNote<NetEvent>>
    ghost var QueueNodes: set<EventNote<NetEvent>>
    ghost var Posted: seq<Kind>
    /** The events processed, and the calls of notifyDelivered made, so far. */
    ghost var Processed: seq<nat>
    ghost var Reports: seq<(nat, bool)>

    ghost predicate Valid()
      reads this, QueueNodes
    {
      && ListIn(mUnorderedSendEventQueueHead, QueueNotes, QueueNodes)
      && (QueueNotes != [] ==> mUnorderedSendEventQueueTail == QueueNotes[|QueueNotes| - 1])
      && mEventCount == |Posted| && Known(QueueNotes, Posted)
    }

    ghost function Queue(): seq<nat>
      reads `QueueNotes
    {
      Numbers(QueueNotes)
    }

    constructor ()
      ensures Valid() && Queue() == [] && Posted == [] && Processed == [] && Reports == []
    {
      mUnorderedSendEventQueueHead, mUnorderedSendEventQueueTail, mEventCount := null, null, 0;
      QueueNotes, QueueNodes, Posted, Processed, Reports := [], {}, [], [], [];
    }

    method PostNetEvent(kind: Kind)
      requires Valid()
      modifies `mUnorderedSendEventQueueHead, `mUnorderedSendEventQueueTail, `mEventCount, `QueueNotes, `QueueNodes,
               `Posted, QueueNodes
      ensures Valid() && fresh(QueueNodes - old(QueueNodes))
      ensures Posted == old(Posted) + [kind] && Queue() == old(Queue()) + [|old(Posted)|]
    {
      hide ListIn;
      var event;
      mUnorderedSendEventQueueHead, event :=
        AppendNew(mUnorderedSendEventQueueHead, mUnorderedSendEventQueueTail, NetEvent(mEventCount, kind), NO_SEQUENCE,
                  QueueNotes, QueueNodes);
      assert Values(QueueNotes + [event])[|QueueNotes|] == event.Value();
      KnownWith(QueueNotes, event, Posted, kind);
      mUnorderedSendEventQueueTail := event;
      mEventCount := mEventCount + 1;
      Posted := Posted + [kind];
      QueueNotes, QueueNodes := QueueNotes + [event], QueueNodes + {event};
    }

    /** Takes events off the queue until the packet has no room for another or the queue is empty. */
    method WritePacketUnordered(room: nat)
      returns (eventList: EventNote?<NetEvent>, count: nat, ghost notes: seq<EventNote<NetEvent>>,
               ghost nodes: set<EventNote<NetEvent>>)
      requires Valid()
      modifies `mUnorderedSendEventQueueHead, `QueueNotes, `QueueNodes, QueueNodes
      ensures Valid() && ListIn(eventList, notes, nodes) && Known(notes, Posted)
      ensures nodes !! QueueNodes && QueueNodes + nodes == old(QueueNodes)
      ensures count <= room && (count == room || Queue() == [])
      ensures count <= |old(Queue())| && Numbers(notes) == old(Queue())[..count] && Queue() == old(Queue())[count..]
    {
      hide ListIn;
      mUnorderedSendEventQueueHead, QueueNotes, QueueNodes, eventList, notes, nodes, count :=
        TakeFront(mUnorderedSendEventQueueHead, QueueNotes, QueueNodes, room);
    }

    /** The first event of a list goes to the head of the queue. */
    method PutAtHead(event: EventNote<NetEvent>, ghost left: seq<EventNote<NetEvent>>,
                     ghost leftNodes: set<EventNote<NetEvent>>)
      returns (next: EventNote?<NetEvent>)
      requires Valid() && ListIn(event, left, leftNodes) && leftNodes !! QueueNodes && Known([event], Posted)
      modifies `mUnorderedSendEventQueueHead, `mUnorderedSendEventQueueTail, `QueueNotes, `QueueNodes, event
      ensures Valid() && left != [] && event == left[0] && ListIn(next, left[1..], leftNodes - {event})
      ensures QueueNotes == [event] + old(QueueNotes) && QueueNodes == old(QueueNodes) + {event}
      ensures Queue() == [event.mEvent.number] + old(Queue())
    {
      hide ListIn;
      if mUnorderedSendEventQueueHead == null { NullIsEmpty(QueueNotes, QueueNodes); }
      else { PopFront(mUnorderedSendEventQueueHead, QueueNotes, QueueNodes); }
      KnownInFront(event, QueueNotes, Posted);
      hide Known;
      hide Numbers;
      next := MoveToFront(event, left, leftNodes, mUnorderedSendEventQueueHead, QueueNotes, QueueNodes);
      if event.mNextEvent == null { mUnorderedSendEventQueueTail := event; }
      mUnorderedSendEventQueueHead := event;
      QueueNotes, QueueNodes := [event] + QueueNotes, QueueNodes + {event};
    }

    /** A dropped packet's guaranteed events go to the head of the queue, one after the other; the others
        are reported lost. */
    method PacketDroppedUnordered(eventList: EventNote?<NetEvent>, ghost notes: seq<EventNote<NetEvent>>,
                                  ghost nodes: set<EventNote<NetEvent>>)
      requires Valid() && ListIn(eventList, notes, nodes) && nodes !! QueueNodes && Known(notes, Posted)
      modifies `mUnorderedSendEventQueueHead, `mUnorderedSendEventQueueTail, `QueueNotes, `QueueNodes, `Reports, nodes
      ensures Valid() && QueueNodes <= old(QueueNodes) + nodes
      ensures Queue() == PutBack(Posted, old(Queue()), Numbers(notes))
      ensures Reports == old(Reports) + Losses(Posted, Numbers(notes))
    {
      hide ListIn;
      hide Valid;
      hide Known;
      hide Numbers;
      hide Queue;
      hide PutBack;
      hide Losses;
      var walk := eventList;
      ghost var left, leftNodes := notes, nodes;
      while walk != null
        invariant Valid() && ListIn(walk, left, leftNodes) && Known(left, Posted)
        invariant leftNodes !! QueueNodes && leftNodes <= nodes && QueueNodes <= old(QueueNodes) + nodes
        invariant PutBack(Posted, Queue(), Numbers(left)) == PutBack(Posted, old(Queue()), Numbers(notes))
        invariant Reports + Losses(Posted, Numbers(left)) == old(Reports) + Losses(Posted, Numbers(notes))
        decreases |left|
      {
        PopFront(walk, left, leftNodes);
        OneDropped(left, Posted, Queue(), Reports);
        var event := walk;
        if event.mEvent.mGuaranteeType.Guaranteed? {
          walk := PutAtHead(event, left, leftNodes);
        } else {
          DropFirst(event, left, leftNodes);
          walk := event.mNextEvent;
          Report(event.mEvent.number, false);
        }
        left, leftNodes := left[1..], leftNodes - {event};
      }
      NullIsEmpty(left, leftNodes);
      NothingDropped(Posted, Queue(), Reports);
    }

    /** notifyDelivered */
    method Report(number: nat, arrived: bool)
      modifies `Reports
      ensures Reports == old(Reports) + [(number, arrived)]
      ensures old(Valid()) ==> Valid()
    {
      Reports := Reports + [(number, arrived)];
    }

    /** An arrived packet's events are reported delivered. */
    method PacketReceivedUnordered(eventList: EventNote?<NetEvent>, ghost notes: seq<EventNote<NetEvent>>,
                                   ghost nodes: set<EventNote<NetEvent>>)
      requires Valid() && ListIn(eventList, notes, nodes)
      modifies `Reports
      ensures Valid() && Reports == old(Reports) + Arrivals(Numbers(notes))
    {
      hide ListIn;
      var walk := eventList;
      ghost var k: nat := 0;
      assert notes[0..] == notes;
      while walk != null
        invariant Valid() && k <= |notes| && ListIn(walk, notes[k..], nodes)
        invariant Reports == old(Reports) + Arrivals(Numbers(notes))[..k]
        decreases |notes| - k
      {
        PopFront(walk, notes[k..], nodes);
        assert notes[k..][1..] == notes[k + 1..];
        Report(walk.mEvent.number, true);
        walk := walk.mNextEvent;
        k := k + 1;
      }
      NullIsEmpty(notes[k..], nodes);
      assert Arrivals(Numbers(notes))[..k] == Arrivals(Numbers(notes));
    }

    /** The events of a packet are processed as they are read. */
    method ReadPacketUnordered(events: seq<nat>)
      requires Valid()
      modifies `Processed
      ensures Valid() && Processed == old(Processed) + events
    {
      var i := 0;
      while i < |events|
        invariant 0 <= i <= |events| && Valid() && Processed == old(Processed) + events[..i]
      {
        Processed := Processed + [events[i]];
        i := i + 1;
      }
    }
  }

  /** The first events of a queue, at most `room`, as a list of their own. */
  method TakeFront(head: EventNote?<NetEvent>, ghost spine: seq<EventNote<NetEvent>>,
                   ghost nodes: set<EventNote<NetEvent>>, room: nat)
    returns (head': EventNote?<NetEvent>, ghost rest: seq<EventNote<NetEvent>>,
             ghost restNodes: set<EventNote<NetEvent>>, packed: EventNote?<NetEvent>,
             ghost notes: seq<EventNote<NetEvent>>, ghost packedNodes: set<EventNote<NetEvent>>, count: nat)
    requires ListIn(head, spine, nodes)
    modifies nodes
    ensures ListIn(head', rest, restNodes) && ListIn(packed, notes, packedNodes)
    ensures restNodes !! packedNodes && restNodes + packedNodes == nodes
    ensures count <= room && (count == room || rest == []) && count <= |spine|
    ensures notes == spine[..count] && rest == spine[count..]
  {
    hide ListIn;
    head', rest, restNodes, count := head, spine, nodes, 0;
    packed, notes, packedNodes := null, [], {};
    EmptyList<NetEvent>();
    var packQueueTail: EventNote?<NetEvent> := null;
    while head' != null && count < room
      invariant ListIn(head', rest, restNodes) && ListIn(packed, notes, packedNodes)
      invariant restNodes !! packedNodes && restNodes + packedNodes == nodes
      invariant notes != [] ==> packQueueTail == notes[|notes| - 1]
      invariant count <= room && count <= |spine| && notes == spine[..count] && rest == spine[count..]
      decreases room - count
    {
      var ev := head';
      PopFront(ev, rest, restNodes);
      head', packed := Transfer(ev, rest, restNodes, packed, packQueueTail, notes, packedNodes);
      packQueueTail := ev;
      rest, restNodes, notes, packedNodes := rest[1..], restNodes - {ev}, notes + [ev], packedNodes + {ev};
      count := count + 1;
    }
    if head' == null { NullIsEmpty(rest, restNodes); }
  }

  /** A new event behind the others. */
  lemma KnownWith(notes: seq<EventNote<NetEvent>>, note: EventNote<NetEvent>, posted: seq<Kind>, kind: Kind)
    requires Known(notes, posted) && note.mEvent == NetEvent(|posted|, kind)
    ensures Known(notes + [note], posted + [kind]) && Numbers(notes + [note]) == Numbers(notes) + [|posted|]
  {
  }

  lemma KnownInFront(note: EventNote<NetEvent>, notes: seq<EventNote<NetEvent>>, posted: seq<Kind>)
    requires Known(notes, posted) && Known([note], posted)
    ensures Known([note] + notes, posted) && Numbers([note] + notes) == [note.mEvent.number] + Numbers(notes)
  {
    var all := [note] + notes;
    assert [note][0] == note && forall i :: 0 < i < |all| ==> all[i] == notes[i - 1];
  }

  /** What is left to do of a dropped packet. */
  lemma OneDropped(left: seq<EventNote<NetEvent>>, posted: seq<Kind>, queue: seq<nat>, reports: seq<(nat, bool)>)
    requires left != [] && Known(left, posted)
    ensures var e := left[0].mEvent;
      && Known(left[1..], posted) && Known([left[0]], posted)
      && PutBack(posted, queue, Numbers(left))
         == PutBack(posted, if e.mGuaranteeType.Guaranteed? then [e.number] + queue else queue, Numbers(left[1..]))
      && reports + Losses(posted, Numbers(left))
         == (if e.mGuaranteeType.Guaranteed? then reports else reports + [(e.number, false)])
           + Losses(posted, Numbers(left[1..]))
  {
    assert Numbers(left)[1..] == Numbers(left[1..]) && Numbers(left)[0] == left[0].mEvent.number;
  }

  lemma NothingDropped(posted: seq<Kind>, queue: seq<nat>, reports: seq<(nat, bool)>)
    ensures PutBack(posted, queue, Numbers([])) == queue && reports + Losses(posted, Numbers([])) == reports
  {
  }
}
