/** The string table of a connection (tnl/connectionStringTable.cpp): an LRU cache of the strings the
    other side is believed to have.  Strings are known by their numbers. */
module StringTable {
  import opened Wrappers

  const ENTRIES := 1024

  datatype Entry = Entry(text: Option<nat>, confirmed: bool)

  /** mEntryTable, and the LRU list from its head to its tail. */
  datatype Table = Table(entries: seq<Entry>, order: seq<nat>)

  /** What is written for a string: the index of its entry, and the string itself unless the entry
      is confirmed.  `meant` is history, the string that was asked for. */
  datatype Ref = Ref(index: nat, text: Option<nat>, meant: nat)

  ghost predicate Listed(order: seq<nat>, e: int) { exists i :: 0 <= i < |order| && order[i] == e }

  ghost predicate Permutation(order: seq<nat>) {
    && |order| == ENTRIES
    && (forall i :: 0 <= i < |order| ==> order[i] < ENTRIES)
    && (forall i, j :: 0 <= i < j < |order| ==> order[i] != order[j])
    && (forall e :: 0 <= e < ENTRIES ==> Listed(order, e))
  }

  ghost predicate Bound(t: Table, e: nat, s: nat) { e < |t.entries| && t.entries[e].text == Some(s) }

  /** The list is a permutation of the entries and no string has two. */
  ghost predicate Valid(t: Table) {
    && |t.entries| == ENTRIES && Permutation(t.order)
    && (forall e, f :: 0 <= e < f < ENTRIES && t.entries[e].text.Some? ==> t.entries[e].text != t.entries[f].text)
  }

  function NewTable(): Table {
    Table(seq(ENTRIES, e => Entry(None, false)), seq(ENTRIES, i requires 0 <= i => i))
  }

  lemma NewTableValid()
    ensures Valid(NewTable())
  {
    var order := NewTable().order;
    forall e | 0 <= e < ENTRIES ensures Listed(order, e) { assert order[e] == e; }
  }

  ghost predicate Knows(t: Table, s: nat) { exists e :: 0 <= e < |t.entries| && Bound(t, e, s) }

  /** The entry used for a string: its own, or the least recently used one. */
  ghost function EntryFor(t: Table, s: nat): (e: nat)
    requires Valid(t)
    ensures e < ENTRIES
  {
    if Knows(t, s) then var e: nat :| Bound(t, e, s); e else t.order[0]
  }

  /** Where an entry is in the list. */
  ghost function Place(order: seq<nat>, e: nat): (i: nat)
    requires Listed(order, e)
    ensures i < |order| && order[i] == e
  {
    var i :| 0 <= i < |order| && order[i] == e; i
  }

  /** pushBack of the entry at this place. */
  function MovedBack(order: seq<nat>, i: nat): seq<nat>
    requires i < |order|
  {
    order[..i] + order[i + 1..] + [order[i]]
  }

  ghost function Write(t: Table, s: nat): Table
    requires Valid(t)
  {
    var e := EntryFor(t, s);
    Table(if Knows(t, s) then t.entries
      else t.entries[e := Entry(Some(s), false)], MovedBack(t.order, Place(t.order, e)))
  }

  ghost function WrittenRef(t: Table, s: nat): Ref
    requires Valid(t)
  {
    var e := EntryFor(t, s);
    Ref(e, if Knows(t, s) && t.entries[e].confirmed then None else Some(s), s)
  }

  /** One string that a packet carried, when the packet is known to have arrived. */
  ghost function Confirm(entries: seq<Entry>, r: Ref): seq<Entry> {
    if r.text.Some? && r.index < |entries| && entries[r.index].text == r.text
    then entries[r.index := entries[r.index].(confirmed := true)]
    else entries
  }

  ghost function ConfirmAll(entries: seq<Entry>, refs: seq<Ref>): seq<Entry>
    decreases |refs|
  {
    if refs == [] then entries else ConfirmAll(Confirm(entries, refs[0]), refs[1..])
  }

  // ----- the other side -----

  function ReadRef(remote: seq<Option<nat>>, r: Ref): seq<Option<nat>>
    requires r.index < |remote|
  {
    if r.text.Some? then remote[r.index := r.text] else remote
  }

  ghost predicate InTable(refs: seq<Ref>) { forall k :: 0 <= k < |refs| ==> refs[k].index < ENTRIES }

  function ReadRefs(remote: seq<Option<nat>>, refs: seq<Ref>): (r: seq<Option<nat>>)
    requires |remote| == ENTRIES && InTable(refs)
    ensures |r| == ENTRIES
    decreases |refs|
  {
    if refs == [] then remote else ReadRefs(ReadRef(remote, refs[0]), refs[1..])
  }

  // ----- the LRU list -----

  lemma MovedBackPermutes(order: seq<nat>, i: nat)
    requires Permutation(order) && i < |order|
    ensures Permutation(MovedBack(order, i))
  {
    var moved := MovedBack(order, i);
    forall e: nat | e < ENTRIES ensures Listed(moved, e) {
      var k := Place(order, e);
      assert moved[if k < i then k else if k == i then |order| - 1 else k - 1] == e;
    }
  }

  lemma WriteKeepsValid(t: Table, s: nat)
    requires Valid(t)
    ensures Valid(Write(t, s)) && Bound(Write(t, s), WrittenRef(t, s).index, s)
  {
    MovedBackPermutes(t.order, Place(t.order, EntryFor(t, s)));
    if !Knows(t, s) {
      forall e | 0 <= e < ENTRIES ensures t.entries[e].text != Some(s) { assert !Bound(t, e, s); }
    }
  }

  /** What is written for a string, and what becomes of the table: a string with an entry is written
      as the entry's index, and itself unless the entry is confirmed; one without takes over the entry
      first in the list, is written itself, and is yet to be confirmed.  The entry used goes last. */
  lemma WrittenExactly(t: Table, s: nat)
    requires Valid(t)
    ensures var r, t' := WrittenRef(t, s), Write(t, s);
      && (forall e: nat :: e < ENTRIES && t.entries[e].text == Some(s) ==>
           r.index == e && (r.text.None? <==> t.entries[e].confirmed) && t'.entries == t.entries)
      && ((forall e :: 0 <= e < ENTRIES ==> t.entries[e].text != Some(s)) ==>
           && r.index == t.order[0] && r.text == Some(s)
           && t'.entries == t.entries[t.order[0] := Entry(Some(s), false)])
      && (r.text.None? || r.text == Some(s)) && r.meant == s
      && t'.order[ENTRIES - 1] == r.index
      && forall a, b :: 0 <= a < b < ENTRIES - 1 ==> Before(t.order, t'.order[a], t'.order[b])
  {
    var e := EntryFor(t, s);
    var at := Place(t.order, e);
    var order' := Write(t, s).order;
    forall f: nat | f < ENTRIES && t.entries[f].text == Some(s) ensures Knows(t, s) && e == f {
      assert Bound(t, f, s);
    }
    assert (forall f :: 0 <= f < ENTRIES ==> t.entries[f].text != Some(s)) ==> !Knows(t, s);
    assert |order'| == ENTRIES && order'[ENTRIES - 1] == e;
    forall a, b | 0 <= a < b < ENTRIES - 1
      ensures Before(t.order, order'[a], order'[b])
    {
      var i, j := if a < at then a else a + 1, if b < at then b else b + 1;
      assert t.order[i] == order'[a] && t.order[j] == order'[b];
    }
  }

  ghost predicate Before(order: seq<nat>, e: nat, f: nat) {
    exists i, j :: 0 <= i < j < |order| && order[i] == e && order[j] == f
  }

  // ----- confirming -----

  /** What confirming a packet's strings changes. */
  lemma {:induction false} ConfirmedWhich(entries: seq<Entry>, refs: seq<Ref>, e: nat)
    requires e < |entries|
    ensures |ConfirmAll(entries, refs)| == |entries|
    ensures var e' := ConfirmAll(entries, refs)[e];
      && e'.text == entries[e].text
      && (e'.confirmed <==> entries[e].confirmed || Carries(refs, e, entries[e].text))
    decreases |refs|
  {
    if refs != [] {
      ConfirmedWhich(Confirm(entries, refs[0]), refs[1..], e);
      assert forall k :: 0 <= k < |refs| - 1 ==> refs[1..][k] == refs[k + 1];
    }
  }

  /** The packet carries this string for the entry. */
  ghost predicate Carries(refs: seq<Ref>, e: nat, text: Option<nat>) {
    exists k :: 0 <= k < |refs| && refs[k].index == e && refs[k].text.Some? && refs[k].text == text
  }

  lemma ConfirmKeepsValid(t: Table, refs: seq<Ref>)
    requires Valid(t)
    ensures Valid(t.(entries := ConfirmAll(t.entries, refs)))
    ensures forall e :: 0 <= e < ENTRIES ==> ConfirmAll(t.entries, refs)[e].text == t.entries[e].text
  {
    assert |ConfirmAll(t.entries, refs)| == ENTRIES by { ConfirmedWhich(t.entries, refs, 0); }
    forall e: nat | e < ENTRIES ensures ConfirmAll(t.entries, refs)[e].text == t.entries[e].text {
      ConfirmedWhich(t.entries, refs, e);
    }
  }

  // ----- recency -----

  /** The list is in the order of last use: `uses` are the entries used so far, and whatever stands
      behind an entry was used after that one's last use. */
  ghost predicate Recency(order: seq<nat>, uses: seq<nat>) {
    forall i, j, p :: 0 <= i < j < |order| && 0 <= p < |uses| && uses[p] == order[i] ==> UsedAfter(uses, p, order[j])
  }

  ghost predicate UsedAfter(uses: seq<nat>, p: nat, e: nat) { exists q :: p < q < |uses| && uses[q] == e }

  lemma WriteKeepsRecency(t: Table, s: nat, uses: seq<nat>)
    requires Valid(t) && Recency(t.order, uses)
    ensures Recency(Write(t, s).order, uses + [EntryFor(t, s)])
  {
    var e := EntryFor(t, s);
    var at := Place(t.order, e);
    var order', uses' := Write(t, s).order, uses + [e];
    forall i, j, p | 0 <= i < j < |order'| && 0 <= p < |uses'| && uses'[p] == order'[i]
      ensures UsedAfter(uses', p, order'[j])
    {
      assert p < |uses|;
      if j == |order'| - 1 {
        assert uses'[|uses|] == order'[j];
      } else {
        var i', j' := if i < at then i else i + 1, if j < at then j else j + 1;
        assert order'[i] == t.order[i'] && order'[j] == t.order[j'];
        var q :| p < q < |uses| && uses[q] == t.order[j'];
        assert uses'[q] == order'[j];
      }
    }
  }
}
