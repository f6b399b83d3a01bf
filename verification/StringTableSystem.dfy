/** Both sides of a string table over the channel. */
module StringTableSystem {
  import opened Wrappers
  import opened StringTable
  import C = Channel

  /** A packet's body is its references in order; `packing` are those of the packet being written. */
  datatype System = System(t: Table, packing: seq<Ref>, remote: seq<Option<nat>>, c: C.Channel<seq<Ref>>)

  datatype Action =
    | WriteString(s: nat)
    | SendPacket
    | ReadPacket(i: nat)
    | PassOver(i: nat)
    | NotifyOldest

  /** A string that is written is the one meant. */
  ghost predicate Honest(refs: seq<Ref>) {
    forall k :: 0 <= k < |refs| && refs[k].text.Some? ==> refs[k].text == Some(refs[k].meant)
  }

  ghost predicate Proper(refs: seq<Ref>) { InTable(refs) && Honest(refs) }

  ghost predicate Shaped(y: System) {
    && Valid(y.t) && C.Valid(y.c) && |y.t.entries| == |y.remote| == ENTRIES
    && Proper(y.packing) && (forall j :: 0 <= j < |y.c.sent| ==> Proper(y.c.sent[j]))
  }

  ghost function Start(): (y: System)
    ensures Shaped(y)
  {
    NewTableValid();
    System(NewTable(), [], seq(ENTRIES, e => None), C.Empty())
  }

  /** Strings are written while a packet is, so when the window lets it be sent. */
  ghost predicate Enabled(y: System, act: Action) {
    match act
    case WriteString(_) => C.CanSend(y.c)
    case SendPacket => C.CanSend(y.c)
    case ReadPacket(i) => C.CanRead(y.c, i)
    case PassOver(i) => C.CanSkip(y.c, i)
    case NotifyOldest => C.CanNotify(y.c)
  }

  ghost function Act(y: System, act: Action): (y': System)
    requires Shaped(y) && Enabled(y, act)
    ensures Shaped(y')
  {
    match act
    case WriteString(s) =>
      WriteKeepsValid(y.t, s);
      y.(t := Write(y.t, s), packing := y.packing + [WrittenRef(y.t, s)])
    case SendPacket => y.(packing := [], c := C.Send(y.c, y.packing))
    case ReadPacket(i) => y.(remote := ReadRefs(y.remote, y.c.sent[i]), c := C.Read(y.c, i))
    case PassOver(i) => y.(c := C.Skip(y.c, i))
    case NotifyOldest =>
      ConfirmKeepsValid(y.t, y.c.sent[y.c.notified]);
      y.(t := if C.Arrived(y.c) then y.t.(entries := ConfirmAll(y.t.entries, y.c.sent[y.c.notified])) else y.t,
         c := C.Notify(y.c))
  }

  // ----- what a packet does to an entry -----

  /** The string that reading the references leaves an entry with, if they bring it one. */
  ghost function Brings(refs: seq<Ref>, e: nat): Option<nat> {
    if refs == [] then None
    else
      var last := refs[|refs| - 1];
      if last.index == e && last.text.Some? then last.text else Brings(refs[..|refs| - 1], e)
  }

  /** An entry of the other side that has s still has it when the references are read. */
  ghost predicate Keeps(refs: seq<Ref>, e: nat, s: nat) { Brings(refs, e).None? || Brings(refs, e) == Some(s) }

  lemma {:induction false} ReadAppend(remote: seq<Option<nat>>, refs: seq<Ref>, r: Ref)
    requires |remote| == ENTRIES && InTable(refs) && r.index < ENTRIES
    ensures InTable(refs + [r]) && ReadRefs(remote, refs + [r]) == ReadRef(ReadRefs(remote, refs), r)
    decreases |refs|
  {
    if refs == [] {
      assert [r][1..] == [];
    } else {
      ReadAppend(ReadRef(remote, refs[0]), refs[1..], r);
      assert (refs + [r])[1..] == refs[1..] + [r];
    }
  }

  /** What the other side has of an entry after some references. */
  lemma {:induction false} ReadBrings(remote: seq<Option<nat>>, refs: seq<Ref>, e: nat)
    requires |remote| == ENTRIES && InTable(refs) && e < ENTRIES
    ensures ReadRefs(remote, refs)[e] == if Brings(refs, e).Some? then Brings(refs, e) else remote[e]
    decreases |refs|
  {
    if refs != [] {
      var most := refs[..|refs| - 1];
      ReadBrings(remote, most, e);
      assert most + [refs[|refs| - 1]] == refs;
      ReadAppend(remote, most, refs[|refs| - 1]);
    }
  }

  lemma BringsNext(refs: seq<Ref>, r: Ref, e: nat)
    ensures Brings(refs + [r], e) == if r.index == e && r.text.Some? then r.text else Brings(refs, e)
  {
    assert (refs + [r])[..|refs|] == refs;
  }

  lemma {:induction false} BoundThenBrought(refs: seq<Ref>, e: nat, s: nat)
    requires Carries(refs, e, Some(s))
    ensures Brings(refs, e).Some?
    decreases |refs|
  {
    var k :| 0 <= k < |refs| && refs[k].index == e && refs[k].text == Some(s);
    var most := refs[..|refs| - 1];
    if k < |refs| - 1 {
      assert most[k] == refs[k];
      BoundThenBrought(most, e, s);
    }
  }

  // ----- the invariant -----

  /** Reading the packets from `from` up to `to`, or some of them, leaves an entry that has s with s. */
  ghost predicate AllKeep(sent: seq<seq<Ref>>, from: int, to: int, e: nat, s: nat) {
    forall j :: from <= j < to && 0 <= j < |sent| ==> Keeps(sent[j], e, s)
  }

  /** The packet was read or can still be. */
  ghost predicate Live(c: C.Channel<seq<Ref>>, k: int) { k in c.read || k >= c.cursor }

  /** An entry with the string last written to it in the packet being written. */
  ghost predicate PackingInv(entries: seq<Entry>, packing: seq<Ref>)
    requires |entries| == ENTRIES
  {
    forall e :: 0 <= e < ENTRIES && Brings(packing, e).Some? ==> entries[e].text == Brings(packing, e)
  }

  /** A reference without its string, in packet j: the other side has the string and keeps it. */
  ghost predicate PlainInv(remote: seq<Option<nat>>, c: C.Channel<seq<Ref>>, j: int, refs: seq<Ref>)
    requires |remote| == ENTRIES && InTable(refs)
  {
    forall q :: 0 <= q < |refs| && refs[q].text.None? ==> Supplied(remote, c, j, refs, q)
  }

  ghost predicate Supplied(remote: seq<Option<nat>>, c: C.Channel<seq<Ref>>, j: int, refs: seq<Ref>, q: int)
    requires |remote| == ENTRIES && InTable(refs) && 0 <= q < |refs|
  {
    var e, s := refs[q].index, refs[q].meant;
    remote[e] == Some(s) && AllKeep(c.sent, c.cursor, j, e, s) && Keeps(refs[..q], e, s)
  }

  ghost predicate ConfirmedInv(entries: seq<Entry>, remote: seq<Option<nat>>, c: C.Channel<seq<Ref>>)
    requires |remote| == |entries| == ENTRIES
  {
    forall e :: 0 <= e < ENTRIES && entries[e].confirmed ==>
      entries[e].text.Some? && remote[e] == entries[e].text
        && AllKeep(c.sent, c.cursor, |c.sent|, e, entries[e].text.value)
  }

  /** The report of packet k may confirm that entry e has s; then the other side has s and keeps it. */
  ghost predicate Settled(remote: seq<Option<nat>>, c: C.Channel<seq<Ref>>, k: int, e: nat, s: nat)
    requires |remote| == ENTRIES && e < ENTRIES
  {
    && (k in c.read ==> remote[e] == Some(s))
    && AllKeep(c.sent, if k < c.cursor then c.cursor else k, |c.sent|, e, s)
  }

  ghost predicate PendingInv(entries: seq<Entry>, remote: seq<Option<nat>>, c: C.Channel<seq<Ref>>)
    requires |remote| == |entries| == ENTRIES
  {
    forall k, e ::
      c.notified <= k < |c.sent| && 0 <= e < ENTRIES && Live(c, k) && Carries(c.sent[k], e, entries[e].text) ==>
      Settled(remote, c, k, e, entries[e].text.value)
  }

  ghost predicate Inv(y: System) {
    && Shaped(y)
    && PackingInv(y.t.entries, y.packing)
    && PlainInv(y.remote, y.c, |y.c.sent|, y.packing)
    && (forall j :: y.c.cursor <= j < |y.c.sent| ==> PlainInv(y.remote, y.c, j, y.c.sent[j]))
    && ConfirmedInv(y.t.entries, y.remote, y.c)
    && PendingInv(y.t.entries, y.remote, y.c)
  }

  lemma StartInv()
    ensures Inv(Start())
  {
  }

  // ----- writing -----

  /** Writing s binds an entry anew to a string that an unreported packet, which was read or can
      still be, bound it to before; and the other side has another string there, or a packet that it
      can still read, that one or a later one, brings it another. */
  ghost predicate Rebinds(y: System, s: nat)
    requires Shaped(y)
  {
    !Knows(y.t, s) && exists k :: y.c.notified <= k < |y.c.sent| && Unsettles(y, s, k)
  }

  ghost predicate Unsettles(y: System, s: nat, k: int)
    requires Shaped(y) && 0 <= k < |y.c.sent|
  {
    var e := EntryFor(y.t, s);
    Live(y.c, k) && Carries(y.c.sent[k], e, Some(s)) && !Settled(y.remote, y.c, k, e, s)
  }

  /** A sender can rule it out when no unreported packet carries the string for the entry. */
  lemma RebindingIsCarried(y: System, s: nat)
    requires Shaped(y) && Rebinds(y, s)
    ensures exists k :: y.c.notified <= k < |y.c.sent| && Carries(y.c.sent[k], EntryFor(y.t, s), Some(s))
  {
    hide Valid;
    hide EntryFor;
    var k :| y.c.notified <= k < |y.c.sent| && Unsettles(y, s, k);
  }

  lemma KnownEntry(t: Table, s: nat)
    requires Valid(t) && Knows(t, s)
    ensures Bound(t, EntryFor(t, s), s)
  {
  }

  lemma WritePacking(y: System, s: nat)
    requires Inv(y) && C.CanSend(y.c)
    ensures var y' := Act(y, WriteString(s));
      PackingInv(y'.t.entries, y'.packing) && PlainInv(y'.remote, y'.c, |y'.c.sent|, y'.packing)
  {
    hide PendingInv;
    hide Valid;
    hide EntryFor;
    hide Brings;
    assert |y.t.entries| == ENTRIES && Valid(y.t);
    var r, y' := WrittenRef(y.t, s), Act(y, WriteString(s));
    if Knows(y.t, s) { KnownEntry(y.t, s); }
    forall e | 0 <= e < ENTRIES
      ensures Brings(y'.packing, e) == if r.index == e && r.text.Some? then r.text else Brings(y.packing, e)
    {
      BringsNext(y.packing, r, e);
    }
    forall q | 0 <= q < |y'.packing| && y'.packing[q].text.None?
      ensures Supplied(y'.remote, y'.c, |y'.c.sent|, y'.packing, q)
    {
      assert y'.packing[..q] == y.packing[..q];
      if q < |y.packing| { assert Supplied(y.remote, y.c, |y.c.sent|, y.packing, q); }
      else { assert y.packing[..q] == y.packing; }
    }
  }

  lemma WriteRest(y: System, s: nat)
    requires Inv(y) && C.CanSend(y.c)
    ensures var y' := Act(y, WriteString(s));
      && ConfirmedInv(y'.t.entries, y'.remote, y'.c)
      && (PendingInv(y'.t.entries, y'.remote, y'.c) <==> !Rebinds(y, s))
  {
    hide Valid;
    hide EntryFor;
    hide PlainInv;
    hide Brings;
    hide Carries;
    assert |y.t.entries| == ENTRIES && Valid(y.t);
    var e, y' := EntryFor(y.t, s), Act(y, WriteString(s));
    if Knows(y.t, s) {
      KnownEntry(y.t, s);
    } else {
      forall k | y.c.notified <= k < |y.c.sent| && Live(y.c, k) && Carries(y.c.sent[k], e, Some(s))
        ensures Unsettles(y, s, k) <==> !Settled(y'.remote, y'.c, k, e, s) {
      }
      assert y'.t.entries[e].text == Some(s);
    }
  }

  /** A write keeps the invariant exactly if it is no such rebinding. */
  lemma WriteExactly(y: System, s: nat)
    requires Inv(y) && C.CanSend(y.c)
    ensures Inv(Act(y, WriteString(s))) <==> !Rebinds(y, s)
  {
    WritePacking(y, s);
    WriteRest(y, s);
    hide PackingInv;
    hide PendingInv;
    hide ConfirmedInv;
    hide Rebinds;
    hide Write;
    hide WrittenRef;
  }

  // ----- sending, reading, passing over -----

  lemma SendKeepsInv(y: System)
    requires Inv(y) && Enabled(y, SendPacket)
    ensures Inv(Act(y, SendPacket))
  {
    hide Valid;
    hide Brings;
    assert Brings([], 0).None? by { NothingBrought(); }
    NothingBrought();
  }

  lemma NothingBrought()
    ensures forall e :: Brings([], e).None?
  {
  }

  lemma KeptByRead(remote: seq<Option<nat>>, refs: seq<Ref>, e: nat, s: nat)
    requires |remote| == ENTRIES && InTable(refs) && e < ENTRIES && remote[e] == Some(s) && Keeps(refs, e, s)
    ensures ReadRefs(remote, refs)[e] == Some(s)
  {
    ReadBrings(remote, refs, e);
  }

  lemma SettledRead(remote: seq<Option<nat>>, c: C.Channel<seq<Ref>>, i: nat, k: nat, e: nat, s: nat)
    requires |remote| == ENTRIES && e < ENTRIES && C.Valid(c) && C.CanRead(c, i) && i < |c.sent| && InTable(c.sent[i])
    requires k < |c.sent| && Live(C.Read(c, i), k) && Carries(c.sent[k], e, Some(s)) && Settled(remote, c, k, e, s)
    ensures Settled(ReadRefs(remote, c.sent[i]), C.Read(c, i), k, e, s)
  {
    if k == i {
      BoundThenBrought(c.sent[i], e, s);
      ReadBrings(remote, c.sent[i], e);
    } else if k in c.read {
      KeptByRead(remote, c.sent[i], e, s);
    }
  }

  lemma ReadKeepsPlain(remote: seq<Option<nat>>, c: C.Channel<seq<Ref>>, i: nat, j: nat, refs: seq<Ref>)
    requires |remote| == ENTRIES && InTable(refs) && C.CanRead(c, i) && i < j && i < |c.sent| && InTable(c.sent[i])
    requires PlainInv(remote, c, j, refs)
    ensures PlainInv(ReadRefs(remote, c.sent[i]), C.Read(c, i), j, refs)
  {
    forall q | 0 <= q < |refs| && refs[q].text.None?
      ensures Supplied(ReadRefs(remote, c.sent[i]), C.Read(c, i), j, refs, q)
    {
      assert Supplied(remote, c, j, refs, q);
      KeptByRead(remote, c.sent[i], refs[q].index, refs[q].meant);
    }
  }

  lemma ReadKeepsConfirmed(entries: seq<Entry>, remote: seq<Option<nat>>, c: C.Channel<seq<Ref>>, i: nat)
    requires |entries| == |remote| == ENTRIES && C.CanRead(c, i) && i < |c.sent| && InTable(c.sent[i])
    requires ConfirmedInv(entries, remote, c)
    ensures ConfirmedInv(entries, ReadRefs(remote, c.sent[i]), C.Read(c, i))
  {
    forall e | 0 <= e < ENTRIES && entries[e].confirmed ensures ReadRefs(remote, c.sent[i])[e] == entries[e].text {
      KeptByRead(remote, c.sent[i], e, entries[e].text.value);
    }
    hide Brings;
  }

  lemma ReadKeepsPending(entries: seq<Entry>, remote: seq<Option<nat>>, c: C.Channel<seq<Ref>>, i: nat)
    requires |entries| == |remote| == ENTRIES && C.Valid(c) && C.CanRead(c, i) && i < |c.sent| && InTable(c.sent[i])
    requires PendingInv(entries, remote, c)
    ensures PendingInv(entries, ReadRefs(remote, c.sent[i]), C.Read(c, i))
  {
    hide Settled;
    forall k, e | c.notified <= k < |c.sent| && 0 <= e < ENTRIES && Live(C.Read(c, i), k)
      && Carries(c.sent[k], e, entries[e].text)
      ensures Settled(ReadRefs(remote, c.sent[i]), C.Read(c, i), k, e, entries[e].text.value)
    {
      SettledRead(remote, c, i, k, e, entries[e].text.value);
    }
  }

  lemma ReadKeepsInv(y: System, i: nat)
    requires Inv(y) && Enabled(y, ReadPacket(i))
    ensures Inv(Act(y, ReadPacket(i)))
  {
    assert Proper(y.c.sent[i]);
    ReadKeepsConfirmed(y.t.entries, y.remote, y.c, i);
    ReadKeepsPending(y.t.entries, y.remote, y.c, i);
    ReadKeepsPlain(y.remote, y.c, i, |y.c.sent|, y.packing);
    forall j | i < j < |y.c.sent| ensures PlainInv(ReadRefs(y.remote, y.c.sent[i]), C.Read(y.c, i), j, y.c.sent[j]) {
      assert Proper(y.c.sent[j]);
      ReadKeepsPlain(y.remote, y.c, i, j, y.c.sent[j]);
    }
    hide Valid;
    hide PendingInv;
    hide ConfirmedInv;
    hide PlainInv;
    hide ReadRefs;
  }

  lemma PassKeepsInv(y: System, i: nat)
    requires Inv(y) && Enabled(y, PassOver(i))
    ensures Inv(Act(y, PassOver(i)))
  {
    hide Valid;
    hide Brings;
    hide Carries;
  }

  // ----- notification -----

  lemma NotifyKeepsInv(y: System)
    requires Inv(y) && Enabled(y, NotifyOldest)
    ensures Inv(Act(y, NotifyOldest))
  {
    var y', refs := Act(y, NotifyOldest), y.c.sent[y.c.notified];
    forall e: nat | e < ENTRIES
      ensures y'.t.entries[e].text == y.t.entries[e].text
      ensures y'.t.entries[e].confirmed ==>
        y.t.entries[e].confirmed || (C.Arrived(y.c) && Carries(refs, e, y.t.entries[e].text))
    {
      ConfirmedWhich(y.t.entries, refs, e);
    }
    hide Valid;
    hide Brings;
    hide Carries;
    hide ConfirmAll;
    hide PlainInv;
  }

  lemma ActKeepsInv(y: System, act: Action)
    requires Inv(y) && Enabled(y, act) && Clean(y, act)
    ensures Inv(Act(y, act))
  {
    match act
    case WriteString(s) => WriteExactly(y, s);
    case SendPacket => SendKeepsInv(y);
    case ReadPacket(i) => ReadKeepsInv(y, i);
    case PassOver(i) => PassKeepsInv(y, i);
    case NotifyOldest => NotifyKeepsInv(y);
  }

  // ----- runs -----

  ghost predicate Clean(y: System, act: Action)
    requires Shaped(y)
  {
    act.WriteString? ==> !Rebinds(y, act.s)
  }

  /** Runs without such rebindings. */
  ghost predicate Possible(y: System, run: seq<Action>)
    requires Shaped(y)
    decreases |run|
  {
    run == [] || (Enabled(y, run[0]) && Clean(y, run[0]) && Possible(Act(y, run[0]), run[1..]))
  }

  ghost function After(y: System, run: seq<Action>): (y': System)
    requires Shaped(y) && Possible(y, run)
    ensures Shaped(y')
    decreases |run|
  {
    if run == [] then y else After(Act(y, run[0]), run[1..])
  }

  lemma {:induction false} RunKeepsInv(y: System, run: seq<Action>)
    requires Inv(y) && Possible(y, run)
    ensures Inv(After(y, run))
    decreases |run|
  {
    if run != [] {
      ActKeepsInv(y, run[0]);
      RunKeepsInv(Act(y, run[0]), run[1..]);
    }
  }

  /** What readStringTableEntry returns for each reference of a packet in turn. */
  ghost function Resolved(remote: seq<Option<nat>>, refs: seq<Ref>): seq<Option<nat>>
    requires |remote| == ENTRIES && InTable(refs)
    decreases |refs|
  {
    if refs == [] then []
    else
      var after := ReadRef(remote, refs[0]);
      [after[refs[0].index]] + Resolved(after, refs[1..])
  }

  ghost function Meanings(refs: seq<Ref>): seq<Option<nat>> {
    seq(|refs|, k requires 0 <= k < |refs| => Some(refs[k].meant))
  }

  /** Some packet that can be read would be resolved to other strings than were meant. */
  ghost predicate Misleads(y: System)
    requires Shaped(y)
  {
    exists i :: y.c.cursor <= i < |y.c.sent| && Misread(y, i)
  }

  ghost predicate Misread(y: System, i: nat)
    requires Shaped(y) && i < |y.c.sent|
  {
    assert Proper(y.c.sent[i]);
    Resolved(y.remote, y.c.sent[i]) != Meanings(y.c.sent[i])
  }

  lemma ResolvedAppend(remote: seq<Option<nat>>, refs: seq<Ref>, r: Ref)
    requires |remote| == ENTRIES && InTable(refs) && r.index < ENTRIES
    ensures InTable(refs + [r])
    ensures Resolved(remote, refs + [r]) == Resolved(remote, refs) + [ReadRef(ReadRefs(remote, refs), r)[r.index]]
    decreases |refs|
  {
    if refs == [] {
      assert [r][1..] == [];
    } else {
      ResolvedAppend(ReadRef(remote, refs[0]), refs[1..], r);
      assert (refs + [r])[1..] == refs[1..] + [r];
    }
  }

  /** Each reference of the packet is resolved to the string that was meant. */
  lemma {:induction false} ResolvedExactly(remote: seq<Option<nat>>, c: C.Channel<seq<Ref>>, j: nat, refs: seq<Ref>)
    requires |remote| == ENTRIES && Proper(refs) && PlainInv(remote, c, j, refs)
    ensures Resolved(remote, refs) == Meanings(refs)
    decreases |refs|
  {
    if refs != [] {
      var k := |refs| - 1;
      var most, r := refs[..k], refs[k];
      assert most + [r] == refs;
      forall q | 0 <= q < k && most[q].text.None? ensures Supplied(remote, c, j, most, q) {
        assert Supplied(remote, c, j, refs, q) && most[..q] == refs[..q];
      }
      ResolvedExactly(remote, c, j, most);
      ResolvedAppend(remote, most, r);
      if r.text.None? {
        assert Supplied(remote, c, j, refs, k);
        KeptByRead(remote, most, r.index, r.meant);
      }
      assert Meanings(refs) == Meanings(most) + [Some(r.meant)];
    }
  }

  /** In every run without a rebinding, every reference that the other side reads is resolved to the
      string that was written, whether the string came with it or not. */
  lemma Agreement(run: seq<Action>)
    requires Possible(Start(), run)
    ensures !Misleads(After(Start(), run))
  {
    StartInv();
    RunKeepsInv(Start(), run);
    InvAgrees(After(Start(), run));
  }

  lemma InvAgrees(y: System)
    requires Inv(y)
    ensures !Misleads(y)
  {
    forall i | y.c.cursor <= i < |y.c.sent| ensures !Misread(y, i) {
      assert Proper(y.c.sent[i]);
      ResolvedExactly(y.remote, y.c, i, y.c.sent[i]);
    }
  }

  /** Once a packet that brought a string is reported received, and the string has kept its entry, the
      string is written as that entry's index alone. */
  lemma ConfirmedSaves(y: System, k: nat)
    requires Shaped(y) && Enabled(y, NotifyOldest) && y.c.notified in y.c.read
    requires k < |y.c.sent[y.c.notified]| && y.c.sent[y.c.notified][k].text.Some?
    requires var r := y.c.sent[y.c.notified][k]; y.t.entries[r.index].text == r.text
    ensures var r := y.c.sent[y.c.notified][k];
      WrittenRef(Act(y, NotifyOldest).t, r.text.value) == Ref(r.index, None, r.text.value)
  {
    var refs := y.c.sent[y.c.notified];
    var r := refs[k];
    ConfirmedWhich(y.t.entries, refs, r.index);
    assert Carries(refs, r.index, r.text);
    WrittenExactly(Act(y, NotifyOldest).t, r.text.value);
  }
}
