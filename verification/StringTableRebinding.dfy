/** What a rebinding leads to: from every state in which a write rebinds an entry, some continuation
    makes the other side take one string for another.  Such a state is reached, for instance, when an
    entry is bound to string 0, to string 1024, and to string 0 again before the first packet is
    reported. */
module StringTableRebinding {
  import opened Wrappers
  import opened StringTable
  import opened StringTableSystem
  import C = Channel

  // ----- runs one after the other -----

  lemma {:induction false} RunsTwice(y: System, first: seq<Action>, second: seq<Action>)
    requires Shaped(y) && Possible(y, first) && Possible(After(y, first), second)
    ensures Possible(y, first + second) && After(y, first + second) == After(After(y, first), second)
    decreases |first|
  {
    hide Shaped;
    hide Enabled;
    hide Act;
    hide Clean;
    if first == [] {
      assert first + second == second;
    } else {
      RunsTwice(Act(y, first[0]), first[1..], second);
      assert (first + second)[1..] == first[1..] + second;
    }
  }

  lemma RunOne(y: System, act: Action)
    requires Shaped(y) && Enabled(y, act) && Clean(y, act)
    ensures Possible(y, [act]) && After(y, [act]) == Act(y, act)
  {
    hide Shaped;
    hide Enabled;
    hide Act;
    hide Clean;
    assert [act][1..] == [];
    assert Possible(Act(y, act), []);
  }

  lemma RunOn(y: System, act: Action, rest: seq<Action>)
    requires Shaped(y) && Enabled(y, act) && Clean(y, act) && Possible(Act(y, act), rest)
    ensures Possible(y, [act] + rest) && After(y, [act] + rest) == After(Act(y, act), rest)
  {
    RunOne(y, act);
    RunsTwice(y, [act], rest);
  }

  // ----- from a rebinding to a wrong string -----

  /** Packets up to k, the last of which carries s for entry e, are reported; the entry is confirmed. */
  lemma {:induction false} ReportThrough(y: System, k: nat, e: nat, s: nat) returns (run: seq<Action>)
    requires Shaped(y) && y.c.notified <= k < y.c.cursor && k in y.c.read && e < ENTRIES
    requires y.t.entries[e].text == Some(s) && Carries(y.c.sent[k], e, Some(s))
    ensures Possible(y, run)
    ensures var z := After(y, run);
      && z.c == y.c.(notified := k + 1) && z.remote == y.remote && z.packing == y.packing
      && z.t.entries[e] == Entry(Some(s), true)
    decreases k - y.c.notified
  {
    hide Valid;
    hide Carries;
    hide ConfirmAll;
    var y' := Act(y, NotifyOldest);
    ConfirmedWhich(y.t.entries, y.c.sent[y.c.notified], e);
    if k == y.c.notified {
      run := [NotifyOldest];
      RunOne(y, NotifyOldest);
    } else {
      var rest := ReportThrough(y', k, e, s);
      run := [NotifyOldest] + rest;
      RunOn(y, NotifyOldest, rest);
    }
  }

  /** A confirmed entry is referred to in a packet of its own, and the other side has another string. */
  lemma PlainReference(y: System, e: nat, s: nat) returns (run: seq<Action>)
    requires Shaped(y) && C.CanSend(y.c) && e < ENTRIES && y.packing == []
    requires y.t.entries[e] == Entry(Some(s), true) && y.remote[e] != Some(s)
    ensures Possible(y, run) && Misleads(After(y, run))
  {
    assert Bound(y.t, e, s) && Knows(y.t, s);
    KnownEntry(y.t, s);
    OneEntry(y.t, EntryFor(y.t, s), e, s);
    var y1 := Act(y, WriteString(s));
    var r := Ref(e, None, s);
    assert y1.packing == [r] && C.CanSend(y1.c) && y1.remote == y.remote;
    var y2 := Act(y1, SendPacket);
    hide Write;
    hide Shaped;
    RunOne(y1, SendPacket);
    RunOn(y, WriteString(s), [SendPacket]);
    run := [WriteString(s)] + [SendPacket];
    assert [r][1..] == [];
    assert Meanings([r][1..]) == [];
    assert y2.c.sent[|y.c.sent|] == [r] && Resolved(y2.remote, [r]) == [y.remote[e]] && Meanings([r]) == [Some(s)];
    assert Misread(y2, |y.c.sent|);
  }

  lemma OneEntry(t: Table, e: nat, f: nat, s: nat)
    requires Valid(t) && Bound(t, e, s) && Bound(t, f, s)
    ensures e == f
  {
  }

  /** The entry has s, the packet with that is lost, packet k that carried s before was read, and the
      other side has another string. */
  lemma MisleadFrom(y: System, k: nat, e: nat, s: nat) returns (run: seq<Action>)
    requires Shaped(y) && e < ENTRIES && y.packing == [] && |y.c.sent| <= y.c.notified + 30
    requires y.t.entries[e].text == Some(s) && y.remote[e] != Some(s)
    requires y.c.notified <= k < y.c.cursor && k in y.c.read && Carries(y.c.sent[k], e, Some(s))
    ensures Possible(y, run) && Misleads(After(y, run))
  {
    var reports := ReportThrough(y, k, e, s);
    var plain := PlainReference(After(y, reports), e, s);
    hide Shaped;
    RunsTwice(y, reports, plain);
    run := reports + plain;
  }

  /** A packet that brings another string is read, after packet k unless that one brings it. */
  lemma ReadOther(y: System, k: nat, j: nat, e: nat, s: nat) returns (run: seq<Action>)
    requires Shaped(y) && e < ENTRIES && k <= j < |y.c.sent| && Live(y.c, k) && y.c.cursor <= j
    requires !Keeps(y.c.sent[j], e, s)
    ensures Possible(y, run)
    ensures var z := After(y, run);
      && z.c.sent == y.c.sent && z.c.notified == y.c.notified && z.t == y.t && z.packing == y.packing
      && k in z.c.read && k < z.c.cursor && z.remote[e] != Some(s)
  {
    assert Proper(y.c.sent[j]) && Proper(y.c.sent[k]);
    hide Valid;
    hide Brings;
    if k in y.c.read || k == j {
      ReadBrings(y.remote, y.c.sent[j], e);
      run := [ReadPacket(j)];
      RunOne(y, ReadPacket(j));
    } else {
      var y1 := Act(y, ReadPacket(k));
      ReadBrings(y1.remote, y1.c.sent[j], e);
      RunOne(y1, ReadPacket(j));
      RunOn(y, ReadPacket(k), [ReadPacket(j)]);
      run := [ReadPacket(k)] + [ReadPacket(j)];
    }
  }

  /** A rebinding that is written and sent can be followed by a run, without another rebinding, after
      which a packet that can be read is misread. */
  lemma RebindingMisleads(y: System, s: nat) returns (run: seq<Action>)
    requires Shaped(y) && C.CanSend(y.c) && Rebinds(y, s)
    ensures Possible(Act(y, WriteString(s)), run) && Misleads(After(Act(y, WriteString(s)), run))
  {
    var e := EntryFor(y.t, s);
    var k: nat :| y.c.notified <= k < |y.c.sent| && Unsettles(y, s, k);
    var y1 := Act(y, WriteString(s));
    var y2 := Act(y1, SendPacket);
    hide Valid;
    hide EntryFor;
    hide Carries;
    assert y2.t.entries[e].text == Some(s) && y2.packing == [] && y2.c.sent[..|y.c.sent|] == y.c.sent;
    assert y2.c.sent[k] == y.c.sent[k];
    RunOne(y1, SendPacket);
    var rest;
    if k in y.c.read && y.remote[e] != Some(s) {
      rest := MisleadFrom(y2, k, e, s);
    } else {
      var from := if k < y.c.cursor then y.c.cursor else k;
      var j: nat :| from <= j < |y.c.sent| && !Keeps(y.c.sent[j], e, s);
      var fetch := ReadOther(y2, k, j, e, s);
      var more := MisleadFrom(After(y2, fetch), k, e, s);
      RunsTwice(y2, fetch, more);
      rest := fetch + more;
    }
    RunOn(y1, SendPacket, rest);
    run := [SendPacket] + rest;
  }

  /** A write in a run without rebindings can lead to a misread string, without another rebinding,
      exactly if it is a rebinding. */
  lemma MisleadsExactly(run: seq<Action>, s: nat)
    requires Possible(Start(), run) && C.CanSend(After(Start(), run).c)
    ensures var y := After(Start(), run);
      var z := Act(y, WriteString(s));
      Rebinds(y, s) <==> exists more :: Possible(z, more) && Misleads(After(z, more))
  {
    StartInv();
    RunKeepsInv(Start(), run);
    var y := After(Start(), run);
    hide After;
    if Rebinds(y, s) {
      var more := RebindingMisleads(y, s);
    } else {
      WriteExactly(y, s);
      forall more | Possible(Act(y, WriteString(s)), more) ensures !Misleads(After(Act(y, WriteString(s)), more)) {
        RunKeepsInv(Act(y, WriteString(s)), more);
        InvAgrees(After(Act(y, WriteString(s)), more));
      }
    }
  }

  // ----- a rebinding that is reached -----

  /** No string from `from` on is in the table. */
  ghost predicate Fresh(t: Table, from: nat) {
    forall e :: 0 <= e < |t.entries| && t.entries[e].text.Some? ==> t.entries[e].text.value < from
  }

  ghost function WriteRange(t: Table, from: nat, n: nat): (t': Table)
    requires Valid(t)
    ensures Valid(t')
  {
    hide Valid;
    hide Write;
    if n == 0 then t
    else
      var t' := WriteRange(t, from, n - 1);
      WriteKeepsValid(t', from + n - 1);
      Write(t', from + n - 1)
  }

  ghost function RangeRefs(t: Table, from: nat, n: nat): seq<Ref>
    requires Valid(t)
  {
    if n == 0 then [] else RangeRefs(t, from, n - 1) + [WrittenRef(WriteRange(t, from, n - 1), from + n - 1)]
  }

  lemma FirstMovedBack(order: seq<nat>)
    requires Permutation(order)
    ensures Listed(order, order[0]) && MovedBack(order, Place(order, order[0])) == order[1..] + [order[0]]
  {
    assert Listed(order, order[0]);
    assert order[..0] + order[1..] == order[1..];
  }

  lemma RangeNext(t: Table, from: nat, n: nat)
    requires Valid(t)
    ensures WriteRange(t, from, n + 1) == Write(WriteRange(t, from, n), from + n)
    ensures RangeRefs(t, from, n + 1) == RangeRefs(t, from, n) + [WrittenRef(WriteRange(t, from, n), from + n)]
  {
    hide Valid;
    hide Write;
    hide WrittenRef;
  }

  /** A string that is not in the table takes the first entry of the list. */
  lemma WriteNew(t: Table, s: nat)
    requires Valid(t) && forall e :: 0 <= e < ENTRIES ==> t.entries[e].text != Some(s)
    ensures Write(t, s) == Table(t.entries[t.order[0] := Entry(Some(s), false)], t.order[1..] + [t.order[0]])
    ensures WrittenRef(t, s) == Ref(t.order[0], Some(s), s)
  {
    FirstMovedBack(t.order);
    assert !Knows(t, s);
    hide Place;
    hide MovedBack;
  }

  ghost predicate Rotated(t: Table, from: nat, n: nat, t': Table)
    requires Valid(t) && Valid(t') && n <= ENTRIES
  {
    && t'.order == t.order[n..] + t.order[..n]
    && (forall i :: 0 <= i < n ==> t'.entries[t.order[i]] == Entry(Some(from + i), false))
    && (forall i :: n <= i < ENTRIES ==> t'.entries[t.order[i]] == t.entries[t.order[i]])
  }

  lemma RotatedFresh(t: Table, from: nat, n: nat, t': Table)
    requires Valid(t) && Valid(t') && n <= ENTRIES && Rotated(t, from, n, t') && Fresh(t, from)
    ensures Fresh(t', from + n)
  {
    forall e | 0 <= e < ENTRIES && t'.entries[e].text.Some? ensures t'.entries[e].text.value < from + n {
      assert Listed(t.order, e);
      var i :| 0 <= i < |t.order| && t.order[i] == e;
    }
  }

  lemma RotateOnce(order: seq<nat>, n: nat, order': seq<nat>)
    requires 0 < n <= |order| && order' == order[n - 1..] + order[..n - 1]
    ensures order'[0] == order[n - 1] && order'[1..] + [order'[0]] == order[n..] + order[..n]
  {
    assert order'[1..] == order[n..] + order[..n - 1];
    assert order[..n] == order[..n - 1] + [order[n - 1]];
  }

  lemma RotatedNext(t: Table, from: nat, n: nat, t': Table, t'': Table)
    requires Valid(t) && Valid(t') && Valid(t'') && 0 < n <= ENTRIES && Rotated(t, from, n - 1, t')
    requires t'' == Table(t'.entries[t.order[n - 1] := Entry(Some(from + n - 1), false)], t'.order[1..] + [t'.order[0]])
    ensures Rotated(t, from, n, t'')
  {
    RotateOnce(t.order, n, t'.order);
  }

  /** Writing new strings takes the entries in turn. */
  lemma {:induction false} Rotation(t: Table, from: nat, n: nat)
    requires Valid(t) && Fresh(t, from) && n <= ENTRIES
    ensures Rotated(t, from, n, WriteRange(t, from, n))
    ensures |RangeRefs(t, from, n)| == n
    ensures forall i :: 0 <= i < n ==> RangeRefs(t, from, n)[i] == Ref(t.order[i], Some(from + i), from + i)
  {
    if n == 0 {
      assert t.order[0..] + t.order[..0] == t.order;
    } else {
      Rotation(t, from, n - 1);
      var t' := WriteRange(t, from, n - 1);
      RotatedFresh(t, from, n - 1, t');
      WriteNew(t', from + n - 1);
      RotateOnce(t.order, n, t'.order);
      RotatedNext(t, from, n, t', WriteRange(t, from, n));
      hide Rotated;
      hide Write;
      hide WrittenRef;
      hide Fresh;
      hide Valid;
    }
  }

  ghost predicate Counts(refs: seq<Ref>, from: nat) {
    |refs| == ENTRIES && forall i :: 0 <= i < ENTRIES ==> refs[i] == Ref(i, Some(from + i), from + i)
  }

  /** The list is in the order of the entries, which have the strings from `from` on. */
  ghost predicate Numbered(t: Table, from: nat) {
    && Valid(t) && (forall i :: 0 <= i < ENTRIES ==> t.order[i] == i)
    && forall e :: 0 <= e < ENTRIES ==> t.entries[e] == Entry(Some(from + e), false)
  }

  lemma FullTurn(t: Table, from: nat)
    requires Valid(t) && Fresh(t, from) && forall i :: 0 <= i < ENTRIES ==> t.order[i] == i
    ensures Numbered(WriteRange(t, from, ENTRIES), from) && Counts(RangeRefs(t, from, ENTRIES), from)
  {
    Rotation(t, from, ENTRIES);
    var t' := WriteRange(t, from, ENTRIES);
    assert t.order[ENTRIES..] + t.order[..ENTRIES] == t.order;
    hide WriteRange;
    hide RangeRefs;
    hide Permutation;
    forall e | 0 <= e < ENTRIES ensures t'.entries[e] == Entry(Some(from + e), false) {
      assert t'.entries[t.order[e]] == Entry(Some(from + e), false);
    }
  }

  /** No packet carries a string from `from` on. */
  ghost predicate Below(sent: seq<seq<Ref>>, from: nat) {
    forall k, q :: 0 <= k < |sent| && 0 <= q < |sent[k]| && sent[k][q].text.Some? ==> sent[k][q].text.value < from
  }

  /** n new strings have been written one after the other. */
  ghost function Wrote(y: System, from: nat, n: nat): System
    requires Valid(y.t)
  {
    y.(t := WriteRange(y.t, from, n), packing := y.packing + RangeRefs(y.t, from, n))
  }

  lemma WroteNext(y: System, from: nat, n: nat)
    requires Valid(y.t) && Shaped(Wrote(y, from, n)) && C.CanSend(y.c)
    ensures Wrote(y, from, n + 1) == Act(Wrote(y, from, n), WriteString(from + n))
  {
    hide Shaped;
    hide Valid;
    hide Write;
    hide WrittenRef;
    hide WriteRange;
    hide RangeRefs;
    RangeNext(y.t, from, n);
    var refs, r := RangeRefs(y.t, from, n), WrittenRef(WriteRange(y.t, from, n), from + n);
    assert y.packing + (refs + [r]) == (y.packing + refs) + [r];
  }

  lemma NewIsClean(y: System, s: nat, from: nat)
    requires Shaped(y) && Below(y.c.sent, from) && from <= s
    ensures Clean(y, WriteString(s))
  {
    hide Valid;
    hide EntryFor;
  }

  lemma ShapedTable(y: System)
    requires Shaped(y)
    ensures Valid(y.t)
  {
  }

  lemma {:induction false} WriteMany(y: System, from: nat, n: nat) returns (run: seq<Action>)
    requires Shaped(y) && C.CanSend(y.c) && Below(y.c.sent, from)
    ensures Possible(y, run) && After(y, run) == Wrote(y, from, n)
  {
    hide Shaped;
    hide Below;
    hide Act;
    hide Clean;
    hide WriteRange;
    hide RangeRefs;
    if n == 0 {
      run := [];
      ShapedTable(y);
      WroteNone(y, from);
    } else {
      ShapedTable(y);
      var most := WriteMany(y, from, n - 1);
      var y', s := Wrote(y, from, n - 1), from + n - 1;
      WroteNext(y, from, n - 1);
      NewIsClean(y', s, from);
      RunOne(y', WriteString(s));
      RunsTwice(y, most, [WriteString(s)]);
      run := most + [WriteString(s)];
    }
  }

  lemma WroteNone(y: System, from: nat)
    requires Valid(y.t)
    ensures Wrote(y, from, 0) == y
  {
    hide Valid;
    assert y.packing + [] == y.packing;
  }

  /** One full packet: all entries are bound to new strings. */
  lemma FullPacket(y: System, from: nat) returns (run: seq<Action>)
    requires Shaped(y) && C.CanSend(y.c) && Below(y.c.sent, from) && y.packing == []
    requires Fresh(y.t, from) && forall i :: 0 <= i < ENTRIES ==> y.t.order[i] == i
    ensures Possible(y, run)
    ensures var z := After(y, run);
      && Numbered(z.t, from) && z.packing == [] && z.remote == y.remote
      && |z.c.sent| == |y.c.sent| + 1 && z.c == C.Send(y.c, z.c.sent[|y.c.sent|]) && Counts(z.c.sent[|y.c.sent|], from)
  {
    var writes := WriteMany(y, from, ENTRIES);
    FullTurn(y.t, from);
    var w := After(y, writes);
    hide WriteRange;
    hide RangeRefs;
    hide Permutation;
    assert [] + RangeRefs(y.t, from, ENTRIES) == RangeRefs(y.t, from, ENTRIES);
    RunOne(w, SendPacket);
    RunsTwice(y, writes, [SendPacket]);
    run := writes + [SendPacket];
  }

  /** Two full packets are on their way, and string 0 is the next to be written: it takes entry 0, which
      the first packet bound to it and the second to string 1024. */
  lemma RebindingReached() returns (run: seq<Action>)
    ensures Possible(Start(), run)
    ensures var y := After(Start(), run); C.CanSend(y.c) && Rebinds(y, 0)
  {
    StartInv();
    var y0 := Start();
    var first := FullPacket(y0, 0);
    var y1 := After(y0, first);
    var second := FullPacket(y1, 1024);
    var y := After(y1, second);
    RunsTwice(y0, first, second);
    run := first + second;
    ThirdBinding(y);
  }

  lemma ThirdBinding(y: System)
    requires Shaped(y) && Numbered(y.t, 1024) && y.c.cursor == y.c.notified == 0 && y.c.read == {}
    requires |y.c.sent| == 2 && Counts(y.c.sent[0], 0) && Counts(y.c.sent[1], 1024)
    ensures Rebinds(y, 0)
  {
    assert !Knows(y.t, 0) && EntryFor(y.t, 0) == 0;
    assert y.c.sent[0][0] == Ref(0, Some(0), 0);
    assert Carries(y.c.sent[0], 0, Some(0));
    BroughtBy(y.c.sent[1], 1024);
    assert !Keeps(y.c.sent[1], 0, 0);
    assert Unsettles(y, 0, 0);
  }

  lemma BroughtBy(refs: seq<Ref>, from: nat)
    requires Counts(refs, from)
    ensures Brings(refs, 0) == Some(from)
  {
    FirstBrought(refs, from, ENTRIES);
    assert refs[..ENTRIES] == refs;
  }

  lemma {:induction false} FirstBrought(refs: seq<Ref>, from: nat, n: nat)
    requires Counts(refs, from) && 0 < n <= ENTRIES
    ensures Brings(refs[..n], 0) == Some(from)
  {
    var most := refs[..n - 1];
    assert refs[..n] == most + [refs[n - 1]];
    BringsNext(most, refs[n - 1], 0);
    if n > 1 { FirstBrought(refs, from, n - 1); }
  }

  /** So a whole run ends with a reference meant as one string and read as another. */
  lemma MisledReached() returns (before: seq<Action>, after: seq<Action>)
    ensures Possible(Start(), before) && C.CanSend(After(Start(), before).c)
    ensures var y := Act(After(Start(), before), WriteString(0)); Possible(y, after) && Misleads(After(y, after))
  {
    before := RebindingReached();
    after := RebindingMisleads(After(Start(), before), 0);
  }
}
