/** The intrusive singly linked lists of EventNotes and the cursor merge that edits them in place. */
module EventNoteList {
  import opened OrderedEvents

  class EventNote<E> {
    const mEvent: E
    const mSeqCount: int
    var mNextEvent: EventNote?<E>

    constructor (event: E, seqCount: int)
      ensures mEvent == event && mSeqCount == seqCount && mNextEvent == null
    {
      mEvent, mSeqCount, mNextEvent := event, seqCount, null;
    }

    function Value(): Note<E> { Note(mSeqCount, mEvent) }
  }

  ghost predicate Distinct<E>(spine: seq<EventNote<E>>) {
    forall i, j :: 0 <= i < j < |spine| ==> spine[i] != spine[j]
  }

  function Link<E>(spine: seq<EventNote<E>>, i: nat): EventNote?<E> {
    if i < |spine| then spine[i] else null
  }

  /** Following the links from head visits the notes of spine and then ends. */
  ghost predicate Linked<E>(head: EventNote?<E>, spine: seq<EventNote<E>>)
    reads spine
  {
    && head == Link(spine, 0)
    && (forall i :: 0 <= i < |spine| ==> spine[i].mNextEvent == Link(spine, i + 1))
    && Distinct(spine)
  }

  function Values<E>(spine: seq<EventNote<E>>): (r: seq<Note<E>>)
    ensures |r| == |spine|
  {
    seq(|spine|, i requires 0 <= i < |spine| => spine[i].Value())
  }

  ghost predicate Disjoint<E>(a: seq<EventNote<E>>, b: seq<EventNote<E>>) {
    forall i, j :: 0 <= i < |a| && 0 <= j < |b| ==> a[i] != b[j]
  }

  /** A step of the cursor over a smaller list element. */
  lemma MergeAdvances<E>(done: seq<EventNote<E>>, rest: seq<EventNote<E>>, left: seq<EventNote<E>>)
    requires rest != [] && left != [] && rest[0].mSeqCount < left[0].mSeqCount
    ensures Values(done) + Merge(Values(rest), Values(left))
         == Values(done + [rest[0]]) + Merge(Values(rest[1..]), Values(left))
  {
    assert Values(rest)[1..] == Values(rest[1..]);
    assert Values(done + [rest[0]]) == Values(done) + [rest[0].Value()];
  }

  /** An insertion at the cursor. */
  lemma MergeInserts<E>(done: seq<EventNote<E>>, rest: seq<EventNote<E>>, left: seq<EventNote<E>>)
    requires left != [] && (rest != [] ==> rest[0].mSeqCount >= left[0].mSeqCount)
    ensures Values(done) + Merge(Values(rest), Values(left))
         == Values(done + [left[0]]) + Merge(Values(rest), Values(left[1..]))
  {
    assert Values(left)[1..] == Values(left[1..]);
    assert Values(done + [left[0]]) == Values(done) + [left[0].Value()];
  }

  lemma InsertDistinct<E>(done: seq<EventNote<E>>, rest: seq<EventNote<E>>, note: EventNote<E>)
    requires Distinct(done + rest) && note !in done && note !in rest
    ensures Distinct(done + [note] + rest)
  {
    var old_, new_ := done + rest, done + [note] + rest;
    forall i, j | 0 <= i < j < |new_| ensures new_[i] != new_[j] {
      var i' := if i < |done| then i else i - 1;
      var j' := if j < |done| then j else j - 1;
      assert i != |done| ==> new_[i] == old_[i'];
      assert j != |done| ==> new_[j] == old_[j'];
    }
  }

  lemma MergeStarts<E>(list: seq<EventNote<E>>, items: seq<EventNote<E>>)
    ensures [] + list == list
    ensures Values<E>([]) + Merge(Values(list), Values(items)) == Merge(Values(list), Values(items))
  {
  }

  lemma MergeEnds<E>(done: seq<EventNote<E>>, rest: seq<EventNote<E>>)
    ensures Values(done) + Merge(Values(rest), Values([])) == Values(done + rest)
  {
  }

  /** Links a note in between the notes of done and those of rest. */
  method LinkAfter<E>(head: EventNote?<E>, prev: EventNote?<E>, next: EventNote?<E>, note: EventNote<E>,
                      ghost done: seq<EventNote<E>>, ghost rest: seq<EventNote<E>>)
    returns (head': EventNote?<E>)
    requires Linked(head, done + rest) && note !in done && note !in rest
    requires prev == (if done == [] then null else done[|done| - 1]) && next == Link(rest, 0)
    modifies note, if prev == null then {} else {prev}
    ensures Linked(head', done + [note] + rest)
  {
    InsertDistinct(done, rest, note);
    ghost var before: seq<EventNote<E>>, spine: seq<EventNote<E>> := done + rest, done + [note] + rest;
    assert forall i :: 0 <= i < |done| ==> before[i] == done[i];
    assert forall i :: 0 <= i < |rest| ==> before[|done| + i] == rest[i];
    head' := head;
    note.mNextEvent := next;
    if prev == null { head' := note; } else { prev.mNextEvent := note; }
    forall i | 0 <= i < |spine| ensures spine[i].mNextEvent == Link(spine, i + 1) {
      if i < |done| - 1 {
        assert spine[i] == before[i] && Link(before, i + 1) == Link(spine, i + 1);
      } else if i > |done| {
        assert spine[i] == before[i - 1] && Link(before, i) == Link(spine, i + 1);
      }
    }
  }

  lemma WithinInsert<E>(done: seq<EventNote<E>>, rest: seq<EventNote<E>>, note: EventNote<E>, nodes: set<EventNote<E>>)
    requires Within(done + rest, nodes) && note in nodes
    ensures Within(done + [note] + rest, nodes)
  {
    forall i | 0 <= i < |done + [note] + rest| ensures (done + [note] + rest)[i] in nodes {
      if i != |done| {
        assert (done + [note] + rest)[i] == (done + rest)[if i < |done| then i else i - 1];
      }
    }
  }

  ghost predicate Within<E>(spine: seq<EventNote<E>>, nodes: set<EventNote<E>>) {
    forall i :: 0 <= i < |spine| ==> spine[i] in nodes
  }

  ghost predicate LastOf<E>(now: seq<EventNote<E>>, list: seq<EventNote<E>>, last: EventNote?<E>) {
    now != [] ==>
      if last != null then now[|now| - 1] == last
      else list != [] && now[|now| - 1] == list[|list| - 1]
  }

  /** The cursor stands after `done`; the first note of `left` is the next to be inserted. */
  ghost predicate Merging<E>(head: EventNote?<E>, prev: EventNote?<E>, done: seq<EventNote<E>>, rest: seq<EventNote<E>>,
                             walk: EventNote?<E>, left: seq<EventNote<E>>)
    reads done + rest, left
  {
    && Linked(head, done + rest) && Linked(walk, left)
    && prev == (if done == [] then null else done[|done| - 1])
    && Disjoint(done + rest, left)
  }

  lemma CursorMoves<E>(head: EventNote?<E>, prev: EventNote?<E>, done: seq<EventNote<E>>, rest: seq<EventNote<E>>,
                       walk: EventNote?<E>, left: seq<EventNote<E>>)
    requires Merging(head, prev, done, rest, walk, left) && rest != []
    ensures Merging(head, rest[0], done + [rest[0]], rest[1..], walk, left)
    ensures rest[0].mNextEvent == Link(rest[1..], 0)
    ensures done + [rest[0]] + rest[1..] == done + rest
  {
    assert done + [rest[0]] + rest[1..] == done + rest;
    assert (done + rest)[|done|] == rest[0];
  }

  /** Moves the cursor over the notes numbered before the next item. */
  method Advance<E>(head: EventNote?<E>, cursor: EventNote?<E>, walk: EventNote<E>,
                    ghost before: seq<EventNote<E>>, ghost after: seq<EventNote<E>>, ghost left: seq<EventNote<E>>)
    returns (prev: EventNote?<E>, next: EventNote?<E>, ghost done: seq<EventNote<E>>, ghost rest: seq<EventNote<E>>)
    requires Merging(head, cursor, before, after, walk, left)
    ensures done + rest == before + after
    ensures Merging(head, prev, done, rest, walk, left) && next == Link(rest, 0)
    ensures rest != [] ==> rest[0].mSeqCount >= walk.mSeqCount
    ensures Values(done) + Merge(Values(rest), Values(left)) == Values(before) + Merge(Values(after), Values(left))
  {
    prev, done, rest := cursor, before, after;
    assert prev != null ==> prev == (done + rest)[|done| - 1];
    next := if prev == null then head else prev.mNextEvent;
    while next != null && next.mSeqCount < walk.mSeqCount
      invariant done + rest == before + after
      invariant Merging(head, prev, done, rest, walk, left) && next == Link(rest, 0)
      invariant Values(done) + Merge(Values(rest), Values(left)) == Values(before) + Merge(Values(after), Values(left))
      decreases |rest|
    {
      MergeAdvances(done, rest, left);
      CursorMoves(head, prev, done, rest, walk, left);
      prev, next := next, next.mNextEvent;
      done, rest := done + [rest[0]], rest[1..];
    }
  }

  /** Inserts the next item at the cursor, which then stands after it. */
  method InsertAtCursor<E>(head: EventNote?<E>, prev: EventNote?<E>, next: EventNote?<E>, walk: EventNote<E>,
                           ghost done: seq<EventNote<E>>, ghost rest: seq<EventNote<E>>, ghost left: seq<EventNote<E>>)
    returns (head': EventNote?<E>, following: EventNote?<E>)
    requires Merging(head, prev, done, rest, walk, left) && next == Link(rest, 0)
    modifies walk, if prev == null then {} else {prev}
    ensures left != [] && Merging(head', walk, done + [walk], rest, following, left[1..])
  {
    TakenApart(prev, done, rest, left);
    RestLinked(walk, left);
    following := walk.mNextEvent;
    hide Disjoint;
    hide Distinct;
    head' := LinkAfter(head, prev, next, walk, done, rest);
  }

  /** The next item is in neither list, and the cursor not in the items left. */
  lemma TakenApart<E>(prev: EventNote?<E>, done: seq<EventNote<E>>, rest: seq<EventNote<E>>, left: seq<EventNote<E>>)
    requires left != [] && Distinct(left) && Disjoint(done + rest, left)
    requires prev == (if done == [] then null else done[|done| - 1])
    ensures left[0] !in done && left[0] !in rest && Disjoint(done + [left[0]] + rest, left[1..])
    ensures forall j :: 0 <= j < |left| - 1 ==> left[1..][j] != left[0] && left[1..][j] != prev
  {
    var tail := left[1..];
    DisjointIn(done + rest, left);
    FirstApart(left);
    hide Disjoint;
    hide Distinct;
    assert forall n :: n in tail ==> n in left;
    assert forall n :: n in done ==> n in done + rest;
    assert forall n :: n in rest ==> n in done + rest;
    assert forall n :: n in done + [left[0]] + rest ==> n in done || n == left[0] || n in rest;
    DisjointIn(done + [left[0]] + rest, tail);
    forall j | 0 <= j < |tail| ensures tail[j] != left[0] && tail[j] != prev { assert tail[j] in tail; }
  }

  lemma DisjointIn<E>(a: seq<EventNote<E>>, b: seq<EventNote<E>>)
    ensures Disjoint(a, b) <==> forall n :: n in a ==> n !in b
  {
    if forall n :: n in a ==> n !in b {
      forall i, j | 0 <= i < |a| && 0 <= j < |b| ensures a[i] != b[j] { assert a[i] in a && b[j] in b; }
    }
  }

  lemma FirstApart<E>(left: seq<EventNote<E>>)
    requires left != [] && Distinct(left)
    ensures left[0] in left && left[0] !in left[1..]
  {
    var tail := left[1..];
    assert forall j :: 0 <= j < |tail| ==> tail[j] == left[j + 1];
  }

  lemma RestLinked<E>(walk: EventNote<E>, left: seq<EventNote<E>>)
    requires Linked(walk, left)
    ensures left != [] && walk == left[0] && Linked(walk.mNextEvent, left[1..])
  {
    assert forall i :: 0 <= i < |left| - 1 ==> left[1..][i] == left[i + 1];
  }

  /** Moves the cursor and inserts one item; `atEnd` tells that it became the last note. */
  method MoveOne<E>(head: EventNote?<E>, cursor: EventNote?<E>, walk: EventNote<E>, ghost before: seq<EventNote<E>>,
                    ghost after: seq<EventNote<E>>, ghost left: seq<EventNote<E>>, ghost nodes: set<EventNote<E>>)
    returns (head': EventNote?<E>, following: EventNote?<E>, atEnd: bool,
             ghost done: seq<EventNote<E>>, ghost rest: seq<EventNote<E>>)
    requires Merging(head, cursor, before, after, walk, left)
    requires Within(before + after, nodes) && walk in nodes
    modifies nodes
    ensures left != [] && Merging(head', walk, done, rest, following, left[1..])
    ensures Within(done + rest, nodes)
    ensures Values(done) + Merge(Values(rest), Values(left[1..])) == Values(before) + Merge(Values(after), Values(left))
    ensures var now := done + rest;
      now != [] && now[|now| - 1] == if atEnd then walk else if before + after == [] then walk
        else (before + after)[|before + after| - 1]
    ensures before + after == [] ==> atEnd
  {
    ghost var passed;
    var prev, next;
    prev, next, passed, rest := Advance(head, cursor, walk, before, after, left);
    MergeInserts(passed, rest, left);
    assert walk == left[0];
    assert prev != null ==> prev == (passed + rest)[|passed| - 1];
    head', following := InsertAtCursor(head, prev, next, walk, passed, rest, left);
    WithinInsert(passed, rest, walk, nodes);
    done, atEnd := passed + [walk], next == null;
    assert rest != [] ==> rest[|rest| - 1] == (passed + rest)[|passed + rest| - 1];
  }

  /** A list whose notes are all in `nodes`. */
  ghost predicate ListIn<E>(head: EventNote?<E>, spine: seq<EventNote<E>>, nodes: set<EventNote<E>>)
    reads nodes
  {
    Within(spine, nodes) && (InReads(spine, nodes); Linked(head, spine))
  }

  lemma InReads<E>(spine: seq<EventNote<E>>, nodes: set<EventNote<E>>)
    requires Within(spine, nodes)
    ensures forall n :: n in spine ==> n in nodes
  {
  }

  /** Moves the notes of one list into another.  `last` is the note that ended up at the end of
      the list because of the move, if one did. */
  method MergeLists<E>(head: EventNote?<E>, ghost list: seq<EventNote<E>>, ghost nodes: set<EventNote<E>>,
                       items: EventNote?<E>, ghost itemSpine: seq<EventNote<E>>, ghost itemNodes: set<EventNote<E>>)
    returns (head': EventNote?<E>, ghost merged: seq<EventNote<E>>, last: EventNote?<E>)
    requires ListIn(head, list, nodes) && ListIn(items, itemSpine, itemNodes) && nodes !! itemNodes
    modifies nodes, itemNodes
    ensures ListIn(head', merged, nodes + itemNodes)
    ensures Values(merged) == Merge(Values(list), Values(itemSpine))
    ensures LastOf(merged, list, last)
  {
    hide Merge;
    hide Values;
    head', last := head, null;
    var walk := items;
    var prev: EventNote?<E> := null;              // the cursor: null stands for the list head itself
    ghost var done: seq<EventNote<E>> := [];
    ghost var rest, left := list, itemSpine;
    MergeStarts(list, itemSpine);
    while walk != null
      invariant Merging(head', prev, done, rest, walk, left)
      invariant Within(done + rest, nodes + itemNodes) && Within(left, nodes + itemNodes)
      invariant Values(done) + Merge(Values(rest), Values(left)) == Merge(Values(list), Values(itemSpine))
      invariant LastOf(done + rest, list, last)
      decreases |left|
    {
      var following, atEnd;
      head', following, atEnd, done, rest := MoveOne(head', prev, walk, done, rest, left, nodes + itemNodes);
      if atEnd { last := walk; }
      prev, left, walk := walk, left[1..], following;
    }
    MergeEnds(done, rest);
    merged := done + rest;
  }

  /** Appends a note that is not yet linked to a list known by its head and its last note. */
  method Append<E>(head: EventNote?<E>, tail: EventNote?<E>, note: EventNote<E>,
                   ghost spine: seq<EventNote<E>>, ghost nodes: set<EventNote<E>>)
    returns (head': EventNote<E>)
    requires ListIn(head, spine, nodes) && note !in nodes && note.mNextEvent == null
    requires spine != [] ==> tail == spine[|spine| - 1]
    modifies nodes
    ensures ListIn(head', spine + [note], nodes + {note})
    ensures Values(spine + [note]) == Values(spine) + [note.Value()]
  {
    if head == null {
      head' := note;
    } else {
      tail.mNextEvent := note;
      head' := head;
    }
    ghost var longer: seq<EventNote<E>> := spine + [note];
    assert forall i :: 0 <= i < |spine| ==> longer[i] == spine[i];
    forall i | 0 <= i < |longer| ensures longer[i].mNextEvent == Link(longer, i + 1) {
      if i < |spine| - 1 { assert Link(spine, i + 1) == Link(longer, i + 1); }
    }
    assert Distinct(longer);
  }

  /** Appends a new note. */
  method AppendNew<E>(head: EventNote?<E>, tail: EventNote?<E>, event: E, seqCount: int,
                      ghost spine: seq<EventNote<E>>, ghost nodes: set<EventNote<E>>)
    returns (head': EventNote<E>, note: EventNote<E>)
    requires ListIn(head, spine, nodes) && (spine != [] ==> tail == spine[|spine| - 1])
    modifies nodes
    ensures fresh(note) && note !in nodes && ListIn(head', spine + [note], nodes + {note})
    ensures Values(spine + [note]) == Values(spine) + [Note(seqCount, event)]
  {
    hide ListIn;
    note := new EventNote(event, seqCount);
    head' := Append(head, tail, note, spine, nodes);
  }

  /** Takes the first note off a list and appends it to another. */
  method Transfer<E>(from: EventNote<E>, ghost spine: seq<EventNote<E>>, ghost nodes: set<EventNote<E>>,
                     head: EventNote?<E>, tail: EventNote?<E>, ghost toSpine: seq<EventNote<E>>,
                       ghost toNodes: set<EventNote<E>>)
    returns (from': EventNote?<E>, head': EventNote<E>)
    requires ListIn(from, spine, nodes) && ListIn(head, toSpine, toNodes) && nodes !! toNodes
    requires toSpine != [] ==> tail == toSpine[|toSpine| - 1]
    modifies from, toNodes
    ensures spine != [] && from == spine[0] && from in nodes
    ensures ListIn(from', spine[1..], nodes - {from}) && ListIn(head', toSpine + [from], toNodes + {from})
    ensures Values(toSpine + [from]) == Values(toSpine) + [from.Value()]
    ensures Values(spine) == [from.Value()] + Values(spine[1..])
  {
    PopFront(from, spine, nodes);
    from' := from.mNextEvent;
    from.mNextEvent := null;
    RestWithout(spine, nodes);
    assert ListIn(from', spine[1..], nodes - {from});
    head' := Append(head, tail, from, toSpine, toNodes);
  }

  /** Takes the first note off a list and puts it in front of another. */
  method MoveToFront<E>(from: EventNote<E>, ghost spine: seq<EventNote<E>>, ghost nodes: set<EventNote<E>>,
                        head: EventNote?<E>, ghost toSpine: seq<EventNote<E>>, ghost toNodes: set<EventNote<E>>)
    returns (from': EventNote?<E>)
    requires ListIn(from, spine, nodes) && ListIn(head, toSpine, toNodes) && nodes !! toNodes
    modifies from
    ensures spine != [] && from == spine[0] && from in nodes && from.mNextEvent == head
    ensures ListIn(from', spine[1..], nodes - {from}) && ListIn(from, [from] + toSpine, toNodes + {from})
  {
    DropFirst(from, spine, nodes);
    from' := from.mNextEvent;
    from.mNextEvent := head;
    InFront(from, head, toSpine, toNodes);
  }

  lemma InFront<E>(note: EventNote<E>, head: EventNote?<E>, spine: seq<EventNote<E>>, nodes: set<EventNote<E>>)
    requires ListIn(head, spine, nodes) && note !in nodes && note.mNextEvent == head
    ensures ListIn(note, [note] + spine, nodes + {note})
  {
    var longer := [note] + spine;
    assert forall i :: 0 <= i < |spine| ==> longer[i + 1] == spine[i];
    forall i | 0 <= i < |longer| ensures longer[i].mNextEvent == Link(longer, i + 1) {
      if i > 0 { assert Link(spine, i) == Link(longer, i + 1); }
    }
  }

  /** A list without its first note, which is then in none. */
  lemma DropFirst<E>(head: EventNote<E>, spine: seq<EventNote<E>>, nodes: set<EventNote<E>>)
    requires ListIn(head, spine, nodes)
    ensures spine != [] && head == spine[0] && head in nodes && ListIn(head.mNextEvent, spine[1..], nodes - {head})
  {
    PopFront(head, spine, nodes);
    RestWithout(spine, nodes);
  }

  lemma RestWithout<E>(spine: seq<EventNote<E>>, nodes: set<EventNote<E>>)
    requires Within(spine, nodes) && Distinct(spine) && spine != []
    ensures Within(spine[1..], nodes - {spine[0]})
  {
  }

  lemma NullIsEmpty<E>(spine: seq<EventNote<E>>, nodes: set<EventNote<E>>)
    requires ListIn(null, spine, nodes)
    ensures spine == []
  {
  }

  lemma EmptyList<E>()
    ensures ListIn<E>(null, [], {}) && Values<E>([]) == []
  {
  }

  /** A list without its first note. */
  lemma PopFront<E>(head: EventNote<E>, spine: seq<EventNote<E>>, nodes: set<EventNote<E>>)
    requires ListIn(head, spine, nodes)
    ensures spine != [] && head == spine[0] && head in nodes && ListIn(head.mNextEvent, spine[1..], nodes)
    ensures Values(spine) == [head.Value()] + Values(spine[1..])
  {
    var tail := spine[1..];
    assert forall i :: 0 <= i < |tail| ==> tail[i] == spine[i + 1];
  }

  /** Takes off the notes at the head of a list that are numbered next, next + 1, ... */
  method Drain<E>(head: EventNote?<E>, next: int, ghost spine: seq<EventNote<E>>, ghost nodes: set<EventNote<E>>)
    returns (head': EventNote?<E>, events: seq<E>, ghost rest: seq<EventNote<E>>)
    requires ListIn(head, spine, nodes)
    ensures var n := Ready(Values(spine), next);
      && |events| == n && events == Events(Values(spine)[..n])
      && ListIn(head', rest, nodes) && Values(rest) == Values(spine)[n..]
  {
    hide ListIn;
    hide Values;
    head', events, rest := head, [], spine;
    while head' != null && head'.mSeqCount == next + |events|
      invariant |events| <= |spine| && ListIn(head', rest, nodes)
      invariant Values(rest) == Values(spine)[|events|..] && events == Events(Values(spine)[..|events|])
      invariant Ready(Values(spine), next) == |events| + Ready(Values(rest), next + |events|)
      decreases |rest|
    {
      PopFront(head', rest, nodes);
      events := events + [head'.mEvent];
      head', rest := head'.mNextEvent, rest[1..];
    }
    if head' == null { NullIsEmpty(rest, nodes); } else { PopFront(head', rest, nodes); }
  }

  /** Merges items into a list and takes off the notes now numbered next, next + 1, ... */
  method MergeAndDrain<E>(head: EventNote?<E>, ghost list: seq<EventNote<E>>, ghost nodes: set<EventNote<E>>,
                          items: EventNote?<E>, ghost itemSpine: seq<EventNote<E>>, ghost itemNodes: set<EventNote<E>>,
                            next: int)
    returns (head': EventNote?<E>, events: seq<E>, ghost rest: seq<EventNote<E>>)
    requires ListIn(head, list, nodes) && ListIn(items, itemSpine, itemNodes) && nodes !! itemNodes
    modifies nodes, itemNodes
    ensures ListIn(head', rest, nodes + itemNodes)
    ensures var merged := Merge(Values(list), Values(itemSpine)); var n := Ready(merged, next);
      events == Events(merged[..n]) && |events| == n && Values(rest) == merged[n..]
  {
    hide Linked;
    hide Merge;
    hide Values;
    ghost var merged;
    var last;
    head', merged, last := MergeLists(head, list, nodes, items, itemSpine, itemNodes);
    head', events, rest := Drain(head', next, merged, nodes + itemNodes);
  }
}
