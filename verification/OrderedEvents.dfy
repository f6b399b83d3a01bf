/** GuaranteedOrdered events (tnl/eventConnection.cpp): the two ends' state as values and the
    operations on it. */
module OrderedEvents {
  /** How far beyond the last acknowledged event one may be sent. */
  const WINDOW := 126
  const MODULUS := 128

  /** An EventNote: an event with the sequence number it was given when posted. */
  datatype Note<E> = Note(seqCount: int, event: E)

  ghost predicate Increasing<E>(s: seq<Note<E>>) {
    forall i, j :: 0 <= i < j < |s| ==> s[i].seqCount < s[j].seqCount
  }

  // ----- the cursor merge used for dropped, acknowledged and received events -----

  /** Inserts items, in order, into a list: a cursor advances over smaller list elements and each
      item is put where the cursor stands. */
  function Merge<E>(list: seq<Note<E>>, items: seq<Note<E>>): seq<Note<E>>
    decreases |list| + |items|
  {
    if items == [] then list
    else if list != [] && list[0].seqCount < items[0].seqCount then [list[0]] + Merge(list[1..], items)
    else [items[0]] + Merge(list, items[1..])
  }

  lemma {:induction false} MergeMembers<E>(list: seq<Note<E>>, items: seq<Note<E>>)
    ensures forall n :: n in Merge(list, items) <==> n in list || n in items
    decreases |list| + |items|
  {
    if items == [] {
    } else if list != [] && list[0].seqCount < items[0].seqCount {
      MergeMembers(list[1..], items);
      assert list == [list[0]] + list[1..];
    } else {
      MergeMembers(list, items[1..]);
      assert items == [items[0]] + items[1..];
    }
  }

  lemma {:induction false} MergeElement<E>(list: seq<Note<E>>, items: seq<Note<E>>, i: nat)
    requires i < |Merge(list, items)|
    ensures Merge(list, items)[i] in list || Merge(list, items)[i] in items
    decreases |list| + |items|
  {
    if items == [] {
    } else if list != [] && list[0].seqCount < items[0].seqCount {
      if i > 0 { MergeElement(list[1..], items, i - 1); }
    } else {
      if i > 0 { MergeElement(list, items[1..], i - 1); }
    }
  }

  ghost predicate Below<E>(x: int, s: seq<Note<E>>) {
    forall n :: n in s ==> x < n.seqCount
  }

  lemma PrependIncreasing<E>(x: Note<E>, s: seq<Note<E>>)
    requires Increasing(s) && Below(x.seqCount, s)
    ensures Increasing([x] + s)
  {
    assert forall i :: 0 <= i < |s| ==> s[i] in s;
  }

  lemma TailAbove<E>(s: seq<Note<E>>)
    requires Increasing(s) && s != []
    ensures Increasing(s[1..]) && Below(s[0].seqCount, s[1..])
  {
  }

  /** Merging strictly sorted lists without common numbers gives a strictly sorted list. */
  lemma {:induction false} MergeIncreasing<E>(list: seq<Note<E>>, items: seq<Note<E>>)
    requires Increasing(list) && Increasing(items)
    requires forall m, n :: m in list && n in items ==> m.seqCount != n.seqCount
    ensures Increasing(Merge(list, items))
    decreases |list| + |items|
  {
    if items == [] {
    } else if list != [] && list[0].seqCount < items[0].seqCount {
      TailAbove(list);
      TailAbove(items);
      MergeIncreasing(list[1..], items);
      MergeMembers(list[1..], items);
      assert items == [items[0]] + items[1..];
      assert Below(list[0].seqCount, items);
      assert Below(list[0].seqCount, Merge(list[1..], items));
      PrependIncreasing(list[0], Merge(list[1..], items));
    } else {
      TailAbove(items);
      MergeIncreasing(list, items[1..]);
      MergeMembers(list, items[1..]);
      if list != [] {
        TailAbove(list);
        assert list[0] in list && items[0] in items;
      }
      assert Below(items[0].seqCount, Merge(list, items[1..]));
      PrependIncreasing(items[0], Merge(list, items[1..]));
    }
  }

  // ----- the part of a list that continues the count -----

  /** How many notes at the head of a list are numbered next, next + 1, ... */
  function Ready<E>(list: seq<Note<E>>, next: int): (n: nat)
    ensures n <= |list|
    decreases |list|
  {
    if list == [] || list[0].seqCount != next then 0 else 1 + Ready(list[1..], next + 1)
  }

  lemma {:induction false} ReadyPrefix<E>(list: seq<Note<E>>, next: int)
    requires Increasing(list) && (list == [] || next <= list[0].seqCount)
    ensures forall i :: 0 <= i < Ready(list, next) ==> list[i].seqCount == next + i
    ensures forall i :: Ready(list, next) <= i < |list| ==> next + Ready(list, next) < list[i].seqCount
    decreases |list|
  {
    if list != [] && list[0].seqCount == next {
      var rest := list[1..];
      ReadyPrefix(rest, next + 1);
      forall i | 0 <= i < |list| ensures i > 0 ==> list[i] == rest[i - 1] {
      }
    }
  }

  // ----- events on the wire -----

  datatype Code = Next | Low(bits: nat)
  datatype WireEvent<E> = WireEvent(code: Code, event: E)

  /** The number is written as one flag when it follows the previous event's, else as its low
      7 bits. */
  function Encode<E>(prev: int, notes: seq<Note<E>>): seq<WireEvent<E>>
    decreases |notes|
  {
    if notes == [] then []
    else
      var q := notes[0].seqCount;
      [WireEvent(if q == prev + 1 then Next else Low(q % MODULUS), notes[0].event)] + Encode(q, notes[1..])
  }

  lemma EncodeStep<E>(prev: int, notes: seq<Note<E>>, k: nat)
    requires k < |notes|
    ensures Encode(prev, notes[k..])
         == [WireEvent(if notes[k].seqCount == prev + 1 then Next
           else Low(notes[k].seqCount % MODULUS), notes[k].event)]
            + Encode(notes[k].seqCount, notes[k + 1..])
  {
    assert notes[k..][1..] == notes[k + 1..];
  }

  /** An event's number takes one flag exactly if it follows the number of the event before it in the
      packet, and else 7 more bits. */
  lemma {:induction false} EncodeExact<E>(prev: int, notes: seq<Note<E>>, k: nat)
    requires k < |notes|
    ensures |Encode(prev, notes)| == |notes| && Encode(prev, notes)[k].event == notes[k].event
    ensures Encode(prev, notes)[k].code.Next? <==>
      notes[k].seqCount == (if k == 0 then prev else notes[k - 1].seqCount) + 1
    ensures Encode(prev, notes)[k].code.Low? ==>
      Encode(prev, notes)[k].code.bits == notes[k].seqCount % 128 && Encode(prev, notes)[k].code.bits < 128
    decreases |notes|
  {
    if k > 0 {
      EncodeExact(notes[0].seqCount, notes[1..], k - 1);
    } else {
      EncodePrefix(prev, notes, 0);
    }
  }

  /** Encoding goes event by event. */
  lemma {:induction false} EncodePrefix<E>(prev: int, notes: seq<Note<E>>, n: nat)
    requires n <= |notes|
    ensures |Encode(prev, notes)| == |notes|
    ensures Encode(prev, notes)[..n] == Encode(prev, notes[..n])
    decreases |notes|
  {
    if notes != [] {
      EncodePrefix(notes[0].seqCount, notes[1..], if n > 0 then n - 1 else 0);
      if n > 0 { assert notes[..n][1..] == notes[1..][..n - 1]; }
    }
  }

  /** The first number at or after base that ends in these 7 bits. */
  function Extend(low: int, base: nat): int {
    var q := base - base % MODULUS + low;
    if q < base then q + MODULUS else q
  }

  function Decode<E>(prev: int, wire: seq<WireEvent<E>>, base: nat): seq<Note<E>>
    decreases |wire|
  {
    if wire == [] then []
    else
      var low := if wire[0].code.Next? then (prev + 1) % MODULUS else wire[0].code.bits;
      [Note(Extend(low, base), wire[0].event)] + Decode(low, wire[1..], base)
  }

  lemma ExtendExact(q: nat, base: nat)
    requires base <= q < base + MODULUS
    ensures Extend(q % MODULUS, base) == q
  {
  }

  /** Events less than 128 ahead of the receiver's next one are recovered exactly, for any
      mixture of the two codings. */
  lemma {:induction false} DecodeEncode<E>(prev: int, prev': int, notes: seq<Note<E>>, base: nat)
    requires prev % MODULUS == prev' % MODULUS || prev == prev' == -2
    requires forall i :: 0 <= i < |notes| ==> base <= notes[i].seqCount < base + MODULUS
    ensures Decode(prev', Encode(prev, notes), base) == notes
    decreases |notes|
  {
    if notes != [] {
      var q := notes[0].seqCount;
      var low := q % MODULUS;
      ExtendExact(q, base);
      assert q == prev + 1 ==> (prev' + 1) % MODULUS == low;
      var rest := notes[1..];
      assert forall i :: 0 <= i < |rest| ==> rest[i] == notes[i + 1];
      DecodeEncode(q, low, rest, base);
      assert [Note(q, notes[0].event)] + rest == notes;
    }
  }

  // ----- the sender -----

  /** `posted` is the history of ordered events; mNextSendEventSeq is its length. */
  datatype Sender<E> = Sender(posted: seq<E>, sendQueue: seq<Note<E>>, notifyList: seq<Note<E>>, lastAcked: int)

  /** A packet: the sender's record of its events, and what goes on the wire; `posted` is history,
      the number of events posted when it was written. */
  datatype EventPacket<E> = EventPacket(notes: seq<Note<E>>, wire: seq<WireEvent<E>>, posted: nat)

  function NewSender<E>(): Sender<E> { Sender([], [], [], -1) }

  function Post<E>(s: Sender<E>, e: E): Sender<E> {
    s.(posted := s.posted + [e], sendQueue := s.sendQueue + [Note(|s.posted|, e)])
  }

  /** `count` events fit into the packet; the window lets none of them be more than 126 beyond
      the last acknowledged one. */
  ghost predicate CanWrite<E>(s: Sender<E>, count: nat) {
    count <= |s.sendQueue| && forall i :: 0 <= i < count ==> s.sendQueue[i].seqCount <= s.lastAcked + WINDOW
  }

  function Written<E>(s: Sender<E>, count: nat): EventPacket<E>
    requires count <= |s.sendQueue|
  {
    EventPacket(s.sendQueue[..count], Encode(-2, s.sendQueue[..count]), |s.posted|)
  }

  function Write<E>(s: Sender<E>, count: nat): Sender<E>
    requires count <= |s.sendQueue|
  {
    s.(sendQueue := s.sendQueue[count..])
  }

  function PacketDropped<E>(s: Sender<E>, notes: seq<Note<E>>): Sender<E> {
    s.(sendQueue := Merge(s.sendQueue, notes))
  }

  function PacketReceived<E>(s: Sender<E>, notes: seq<Note<E>>): Sender<E> {
    var merged := Merge(s.notifyList, notes);
    var n := Ready(merged, s.lastAcked + 1);
    s.(notifyList := merged[n..], lastAcked := s.lastAcked + n)
  }

  // ----- the receiver -----

  datatype Receiver<E> = Receiver(nextRecv: nat, waitList: seq<Note<E>>, processed: seq<E>)

  function NewReceiver<E>(): Receiver<E> { Receiver(0, [], []) }

  function Events<E>(notes: seq<Note<E>>): seq<E> {
    seq(|notes|, i requires 0 <= i < |notes| => notes[i].event)
  }

  function ReadPacket<E>(r: Receiver<E>, wire: seq<WireEvent<E>>): Receiver<E> {
    var merged := Merge(r.waitList, Decode(-2, wire, r.nextRecv));
    var n := Ready(merged, r.nextRecv);
    Receiver(r.nextRecv + n, merged[n..], r.processed + Events(merged[..n]))
  }
}
