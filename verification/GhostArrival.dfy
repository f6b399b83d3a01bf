/** A whole exchange, step by step from the start: an object is ghosted, changed, and taken away
    again, and the client's slot follows. */
module GhostArrival {
  import opened Wrappers
  import opened GhostProtocol
  import opened GhostSlot
  import opened GhostSystem
  import opened GhostProgress

  /** Only slot 0 is in use. */
  ghost predicate Alone(y: System) {
    |y.tracks| == MAX_GHOSTS && forall g :: 1 <= g < MAX_GHOSTS ==> !y.tracks[g].info.inUse
  }

  lemma StayUnused(y: System, act: Action, g: nat)
    requires Inv(y) && Enabled(y, act) && g < MAX_GHOSTS && !y.tracks[g].info.inUse
    requires act.ObjectInScope? ==> act.g != g
    ensures !ActSlot(y, act, g).info.inUse
  {
    var t := y.tracks[g];
    assert Follows(t, y.c) && if y.ghosting then SlotInv(t) else IdleSlot(t);
    hide CurrentInv;
    hide EntriesInv;
    hide PostedInv;
    hide WireInv;
    hide RefsInv;
    hide IdentityInv;
    hide WalkChain;
  }

  lemma StayAlone(y: System, act: Action)
    requires Inv(y) && Enabled(y, act) && Alone(y) && (act.ObjectInScope? ==> act.g == 0)
    ensures Alone(Act(y, act)) && Act(y, act).tracks[0] == ActSlot(y, act, 0)
  {
    forall g: nat | 1 <= g < MAX_GHOSTS ensures !ActSlot(y, act, g).info.inUse { StayUnused(y, act, g); }
    TracksAre(y, act);
    hide Inv;
    hide Enabled;
    hide ActSlot;
    hide Act;
  }

  /** A state but for the slots not in use. */
  ghost predicate Is(y: System, s: System) { Alone(y) && y.(tracks := [y.tracks[0]]) == s }

  /** A state of a single slot before any session ended. */
  ghost function Now(t: Track, c: C.Channel<nat>, objects: map<nat, Object>, ghosting: bool, rpcs: seq<Rpc>,
                     rpcsDone: nat, ready: seq<nat>, readyDone: nat): System
  {
    System([t], c, objects, ghosting, rpcs != [], |rpcs|, rpcs, -1, rpcsDone, ready, readyDone)
  }

  /** What an enabled step leads to, and that it is enabled. */
  ghost predicate Leads(y: System, act: Action, s: System) {
    Inv(y) && Enabled(y, act) && Is(Act(y, act), s)
  }

  lemma Led(y: System, act: Action, s: System)
    requires Inv(y) && Enabled(y, act) && Alone(y) && (act.ObjectInScope? ==> act.g == 0)
    requires Act(y, act).(tracks := [ActSlot(y, act, 0)]) == s
    ensures Leads(y, act, s)
  {
    StayAlone(y, act);
    hide Act;
    hide ActSlot;
    hide Inv;
    hide Enabled;
  }

  lemma Step(run: seq<Action>, act: Action, s: System) returns (run': seq<Action>)
    requires Possible(run) && Leads(After(run), act, s)
    ensures run' == run + [act] && Possible(run') && Is(After(run'), s)
  {
    run' := run + [act];
    Goes(run, act);
    hide Possible;
    hide After;
    hide Act;
    hide Enabled;
    hide Is;
  }

  const NONE := GhostInfo(false, None, {}, false, false, false, false, false, None)

  /** The ghost of o, known to the client, with some bits to be sent. */
  ghost function Known(o: nat, mask: set<nat>, inScope: bool, chain: Option<nat>): GhostInfo {
    GhostInfo(true, Some(o), mask, inScope, false, false, false, false, chain)
  }

  // ----- a session begins -----

  ghost function Idle(objects: map<nat, Object>): System {
    Now(Track(NONE, [], [], Empty, 0, 0, {}), C.Channel([], 0, {}, 0), objects, false, [], 0, [], 0)
  }

  lemma CreateLeads(y: System, o: nat)
    requires Inv(y) && Is(y, Idle(map[]))
    ensures Leads(y, CreateObject(o), Idle(map[o := Object(FreshVersion(), {})]))
  {
    hide Inv;
    Led(y, CreateObject(o), Idle(map[o := Object(FreshVersion(), {})]));
  }

  lemma FirstStateLeads(y: System, o: nat, version: seq<nat>)
    requires Inv(y) && Is(y, Idle(map[o := Object(FreshVersion(), {})])) && |version| == BITS
    ensures Leads(y, ChangeState(o, AllBits(), version), Idle(map[o := Object(version, AllBits())]))
  {
    hide Inv;
    assert IsBit(0) && 0 in AllBits();
    assert {} + AllBits() == AllBits();
    Led(y, ChangeState(o, AllBits(), version), Idle(map[o := Object(version, AllBits())]));
  }

  lemma FirstCollapseLeads(y: System, o: nat, version: seq<nat>)
    requires Inv(y) && Is(y, Idle(map[o := Object(version, AllBits())]))
    ensures Leads(y, CollapseDirtyList, Idle(map[o := Object(version, {})]))
  {
    hide Inv;
    Led(y, CollapseDirtyList, Idle(map[o := Object(version, {})]));
  }

  /** The session is started, its first packet not yet written. */
  ghost function Started(objects: map<nat, Object>): System {
    Now(Track(NONE, [], [], Empty, 0, 0, {}), C.Channel([], 0, {}, 0), objects, false, [StartGhosting(1)], 0, [], 0)
  }

  lemma ActivateLeads(y: System, objects: map<nat, Object>)
    requires Inv(y) && Is(y, Idle(objects))
    ensures Leads(y, ActivateGhosting, Started(objects))
  {
    hide Inv;
    Led(y, ActivateGhosting, Started(objects));
  }

  ghost function Announced(objects: map<nat, Object>): System {
    Now(Track(NONE, [None], [None], Empty, 0, 0, {}), C.Channel([1], 0, {}, 0), objects, false, [StartGhosting(1)], 0,
        [], 0)
  }

  lemma AnnounceLeads(y: System, objects: map<nat, Object>)
    requires Inv(y) && Is(y, Started(objects))
    ensures Leads(y, WritePacket(true, map[]), Announced(objects))
  {
    hide Inv;
    var t := y.tracks[0];
    assert [] + [1] == [1] && t.refs + [None] == [None] && t.wire + [None] == [None];
    Led(y, WritePacket(true, map[]), Announced(objects));
  }

  ghost function Heard(objects: map<nat, Object>): System {
    Now(Track(NONE, [None], [None], Empty, 1, 0, {0}), C.Channel([1], 1, {0}, 0), objects, false, [StartGhosting(1)], 1,
        [1], 0)
  }

  lemma HearLeads(y: System, objects: map<nat, Object>)
    requires Inv(y) && Is(y, Announced(objects))
    ensures Leads(y, ReadPacket(0, 1), Heard(objects))
  {
    hide Inv;
    assert [StartGhosting(1)][0..1] == [StartGhosting(1)];
    assert Starts([StartGhosting(1)]) == [1] && [] + [1] == [1] && {} + {0} == {0};
    assert !EndsSession(y.rpcs, 0, 1);
    Led(y, ReadPacket(0, 1), Heard(objects));
  }

  /** The session is on. */
  ghost function Open(info: GhostInfo, objects: map<nat, Object>): System {
    Now(Track(info, [None], [None], Empty, 1, 0, {0}), C.Channel([1], 1, {0}, 0), objects, true, [StartGhosting(1)], 1,
        [1], 1)
  }

  lemma ReadyLeads(y: System, objects: map<nat, Object>)
    requires Inv(y) && Is(y, Heard(objects))
    ensures Leads(y, ReadyForNormalGhosts, Open(NONE, objects))
  {
    hide Inv;
    Led(y, ReadyForNormalGhosts, Open(NONE, objects));
  }

  // ----- the object comes into scope -----

  lemma ScopeLeads(y: System, o: nat, objects: map<nat, Object>)
    requires Inv(y) && Is(y, Open(NONE, objects)) && o in objects
    ensures Leads(y, ObjectInScope(o, 0), Open(NewInfo(o), objects))
  {
    hide Inv;
    Led(y, ObjectInScope(o, 0), Open(NewInfo(o), objects));
  }

  /** The first update of o. */
  ghost function Initial(o: nat, version: seq<nat>): Entry
    requires |version| == BITS
  {
    Update(Some(o), map b | b in AllBits() :: version[b])
  }

  ghost function Sent(o: nat, version: seq<nat>): System
    requires |version| == BITS
  {
    Now(Track(Known(o, {}, true, Some(1)).(ghosting := true), [None, Some(GhostRef(AllBits(), GhostingRef, None))],
              [None, Some(Initial(o, version))], Empty, 1, 0, {0}),
        C.Channel([1, 1], 1, {0}, 0), map[o := Object(version, {})], true, [StartGhosting(1)], 1, [1], 1)
  }

  lemma SendLeads(y: System, o: nat, version: seq<nat>)
    requires |version| == BITS && Inv(y) && Is(y, Open(NewInfo(o), map[o := Object(version, {})]))
    ensures Leads(y, WritePacket(true, map[0 := {}]), Sent(o, version))
  {
    hide Inv;
    assert IsBit(0) && 0 in AllBits() && AllBits() - {} == AllBits();
    var act := WritePacket(true, map[0 := {}]);
    assert Prepared(y.tracks[0]) == y.tracks[0];
    assert Enabled(y, act);
    assert ActSlot(y, act, 0) == Sent(o, version).tracks[0];
    Led(y, act, Sent(o, version));
  }

  ghost function Arrived(o: nat, version: seq<nat>): System
    requires |version| == BITS
  {
    Sent(o, version).(tracks := [Sent(o, version).tracks[0].(local := Ghost(o, version), cursor := 2, read := {0, 1})],
                      c := C.Channel([1, 1], 2, {0, 1}, 0))
  }

  lemma ArriveLeads(y: System, o: nat, version: seq<nat>)
    requires |version| == BITS && Inv(y) && Is(y, Sent(o, version))
    ensures Leads(y, ReadPacket(1, 1), Arrived(o, version))
  {
    hide Inv;
    assert [StartGhosting(1)][1..1] == [] && {0} + {1} == {0, 1};
    assert forall b :: 0 <= b < BITS ==> IsBit(b) && b in AllBits();
    assert Overlay(FreshVersion(), Initial(o, version).data) == version;
    Led(y, ReadPacket(1, 1), Arrived(o, version));
  }

  // ----- the reports come back -----

  ghost function FirstReported(o: nat, version: seq<nat>): System
    requires |version| == BITS
  {
    Arrived(o, version).(tracks := [Arrived(o, version).tracks[0].(notified := 1)],
                          c := C.Channel([1, 1], 2, {0, 1}, 1))
  }

  lemma FirstReportLeads(y: System, o: nat, version: seq<nat>)
    requires |version| == BITS && Inv(y) && Is(y, Arrived(o, version))
    ensures Leads(y, NotifyOldest, FirstReported(o, version))
  {
    assert Follows(y.tracks[0], y.c) && SlotInv(y.tracks[0]);
    hide Inv;
    var refs := y.tracks[0].refs;
    assert refs[0 := None] == refs;
    Led(y, NotifyOldest, FirstReported(o, version));
  }

  /** The client has the object in some state, and the server knows. */
  ghost function Held(o: nat, info: GhostInfo, local: seq<nat>, entry: Entry, version: seq<nat>,
                      dirty: set<nat>): System
  {
    Now(Track(info, [None, None], [None, Some(entry)], Ghost(o, local), 2, 2, {0, 1}),
        C.Channel([1, 1], 2, {0, 1}, 2), map[o := Object(version, dirty)], true, [StartGhosting(1)], 1, [1], 1)
  }

  lemma SecondReportLeads(y: System, o: nat, version: seq<nat>)
    requires |version| == BITS && Inv(y) && Is(y, FirstReported(o, version))
    ensures Leads(y, NotifyOldest, Held(o, Known(o, {}, true, None), version, Initial(o, version), version, {}))
  {
    assert Follows(y.tracks[0], y.c) && SlotInv(y.tracks[0]);
    hide Inv;
    assert y.tracks[0].refs[1 := None] == [None, None];
    Led(y, NotifyOldest, Held(o, Known(o, {}, true, None), version, Initial(o, version), version, {}));
  }

  // ----- the object changes -----

  /** A change of state in some bits. */
  ghost predicate Changes(was: seq<nat>, bits: set<nat>, version: seq<nat>) {
    && |was| == |version| == BITS && bits != {} && bits <= AllBits()
    && forall b :: b in AllBits() && b !in bits ==> version[b] == was[b]
  }

  lemma ChangeLeads(y: System, o: nat, info: GhostInfo, entry: Entry, was: seq<nat>, bits: set<nat>, version: seq<nat>)
    requires Inv(y) && Is(y, Held(o, info, was, entry, was, {})) && Changes(was, bits, version)
    ensures Leads(y, ChangeState(o, bits, version), Held(o, info, was, entry, version, bits))
  {
    hide Inv;
    assert {} + bits == bits;
    Led(y, ChangeState(o, bits, version), Held(o, info, was, entry, version, bits));
  }

  lemma CollapseLeads(y: System, o: nat, entry: Entry, local: seq<nat>, version: seq<nat>, bits: set<nat>)
    requires Inv(y) && Is(y, Held(o, Known(o, {}, true, None), local, entry, version, bits))
    ensures Leads(y, CollapseDirtyList, Held(o, Known(o, bits, true, None), local, entry, version, {}))
  {
    hide Inv;
    assert {} + bits == bits;
    Led(y, CollapseDirtyList, Held(o, Known(o, bits, true, None), local, entry, version, {}));
  }

  lemma ClearScopeLeads(y: System, o: nat, entry: Entry, local: seq<nat>, version: seq<nat>, bits: set<nat>)
    requires Inv(y) && Is(y, Held(o, Known(o, bits, true, None), local, entry, version, {})) && bits != {}
    ensures Leads(y, ClearScope({}), Held(o, Known(o, bits, false, None), local, entry, version, {}))
  {
    hide Inv;
    Led(y, ClearScope({}), Held(o, Known(o, bits, false, None), local, entry, version, {}));
  }

  lemma ScopeAgainLeads(y: System, o: nat, entry: Entry, local: seq<nat>, version: seq<nat>, bits: set<nat>)
    requires Inv(y) && Is(y, Held(o, Known(o, bits, false, None), local, entry, version, {}))
    ensures Leads(y, ObjectInScope(o, 0), Held(o, Known(o, bits, true, None), local, entry, version, {}))
  {
    hide Inv;
    Led(y, ObjectInScope(o, 0), Held(o, Known(o, bits, true, None), local, entry, version, {}));
  }

  /** A third packet has been written, and perhaps read and reported. */
  ghost function Third(info: GhostInfo, ref: Option<GhostRef>, entry: Entry, third: Entry, local: ClientSlot,
                       c: C.Channel<nat>, objects: map<nat, Object>): System
  {
    Now(Track(info, [None, None, ref], [None, Some(entry), Some(third)], local, c.cursor, c.notified, c.read), c,
        objects, true, [StartGhosting(1)], 1, [1], 1)
  }

  const WRITTEN := C.Channel([1, 1, 1], 2, {0, 1}, 2)
  const READ := C.Channel([1, 1, 1], 3, {0, 1, 2}, 2)
  const REPORTED := C.Channel([1, 1, 1], 3, {0, 1, 2}, 3)

  /** An update of some bits. */
  ghost function Changed(bits: set<nat>, version: seq<nat>): Entry
    requires bits <= AllBits() && |version| == BITS
  {
    Update(None, map b | b in bits :: version[b])
  }

  ghost function UpdateSent(o: nat, entry: Entry, local: seq<nat>, bits: set<nat>, version: seq<nat>,
                            c: C.Channel<nat>): System
    requires bits <= AllBits() && |version| == BITS
  {
    Third(Known(o, {}, true, Some(2)), Some(GhostRef(bits, PlainRef, None)), entry, Changed(bits, version),
          Ghost(o, local), c, map[o := Object(version, {})])
  }

  lemma UpdateLeads(y: System, o: nat, entry: Entry, was: seq<nat>, bits: set<nat>, version: seq<nat>)
    requires Inv(y) && Is(y, Held(o, Known(o, bits, true, None), was, entry, version, {}))
    requires Changes(was, bits, version)
    ensures Leads(y, WritePacket(true, map[0 := {}]), UpdateSent(o, entry, was, bits, version, WRITTEN))
  {
    hide Inv;
    assert bits - {} == bits;
    var act := WritePacket(true, map[0 := {}]);
    assert y.c.sent + [1] == [1, 1, 1];
    assert Prepared(y.tracks[0]) == y.tracks[0];
    assert ActSlot(y, act, 0) == UpdateSent(o, entry, was, bits, version, WRITTEN).tracks[0];
    Led(y, act, UpdateSent(o, entry, was, bits, version, WRITTEN));
  }

  lemma UpdateReadLeads(y: System, o: nat, entry: Entry, was: seq<nat>, bits: set<nat>, version: seq<nat>)
    requires Changes(was, bits, version) && Inv(y) && Is(y, UpdateSent(o, entry, was, bits, version, WRITTEN))
    ensures Leads(y, ReadPacket(2, 1), UpdateSent(o, entry, version, bits, version, READ))
  {
    hide Inv;
    assert [StartGhosting(1)][1..1] == [] && {0, 1} + {2} == {0, 1, 2};
    assert forall b :: 0 <= b < BITS ==> IsBit(b) && b in AllBits();
    assert Overlay(was, Changed(bits, version).data) == version;
    Led(y, ReadPacket(2, 1), UpdateSent(o, entry, version, bits, version, READ));
  }

  // ----- the object is no longer in scope -----

  const KILLED := GhostInfo(true, None, {}, false, false, false, false, true, Some(2))

  ghost function KillSent(o: nat, entry: Entry, bits: set<nat>, version: seq<nat>, local: ClientSlot,
                          c: C.Channel<nat>): System
  {
    Third(KILLED, Some(GhostRef(bits, KillingRef, None)), entry, Kill, local, c, map[o := Object(version, {})])
  }

  lemma KillLeads(y: System, o: nat, entry: Entry, local: seq<nat>, bits: set<nat>, version: seq<nat>)
    requires Inv(y) && Is(y, Held(o, Known(o, bits, false, None), local, entry, version, {})) && bits != {}
    ensures Leads(y, WritePacket(true, map[0 := {}]), KillSent(o, entry, bits, version, Ghost(o, local), WRITTEN))
  {
    hide Inv;
    var act := WritePacket(true, map[0 := {}]);
    assert Enabled(y, act) && y.c.sent + [1] == [1, 1, 1];
    assert ActSlot(y, act, 0) == KillSent(o, entry, bits, version, Ghost(o, local), WRITTEN).tracks[0];
    Led(y, act, KillSent(o, entry, bits, version, Ghost(o, local), WRITTEN));
  }

  lemma KillReadLeads(y: System, o: nat, entry: Entry, local: seq<nat>, bits: set<nat>, version: seq<nat>)
    requires Inv(y) && Is(y, KillSent(o, entry, bits, version, Ghost(o, local), WRITTEN))
    ensures Leads(y, ReadPacket(2, 1), KillSent(o, entry, bits, version, Empty, READ))
  {
    hide Inv;
    assert [StartGhosting(1)][1..1] == [] && {0, 1} + {2} == {0, 1, 2};
    Led(y, ReadPacket(2, 1), KillSent(o, entry, bits, version, Empty, READ));
  }

  /** The slot is free again. */
  ghost function Freed(o: nat, entry: Entry, version: seq<nat>): System {
    Third(KILLED.(inUse := false, lastUpdateChain := None), None, entry, Kill, Empty, REPORTED,
          map[o := Object(version, {})])
  }

  lemma KillReportLeads(y: System, o: nat, entry: Entry, bits: set<nat>, version: seq<nat>)
    requires Inv(y) && Is(y, KillSent(o, entry, bits, version, Empty, READ))
    ensures Leads(y, NotifyOldest, Freed(o, entry, version))
  {
    assert Follows(y.tracks[0], y.c) && SlotInv(y.tracks[0]);
    hide Inv;
    assert y.tracks[0].refs[2 := None] == [None, None, None];
    Led(y, NotifyOldest, Freed(o, entry, version));
  }

  // ----- the runs -----

  /** A session is started and comes up. */
  ghost function Opening(o: nat, version: seq<nat>): seq<Action> {
    [CreateObject(o), ChangeState(o, AllBits(), version), CollapseDirtyList, ActivateGhosting, WritePacket(true, map[]),
     ReadPacket(0, 1), ReadyForNormalGhosts]
  }

  lemma Opens(o: nat, version: seq<nat>)
    requires |version| == BITS
    ensures Possible(Opening(o, version))
    ensures Is(After(Opening(o, version)), Open(NONE, map[o := Object(version, {})]))
  {
    hide Possible;
    hide After;
    hide Leads;
    hide Inv;
    hide Is;
    var objects := map[o := Object(version, {})];
    var run: seq<Action> := [];
    StartIdle();
    CreateLeads(After(run), o);
    run := Step(run, CreateObject(o), Idle(map[o := Object(FreshVersion(), {})]));
    FirstStateLeads(After(run), o, version);
    run := Step(run, ChangeState(o, AllBits(), version), Idle(map[o := Object(version, AllBits())]));
    FirstCollapseLeads(After(run), o, version);
    run := Step(run, CollapseDirtyList, Idle(objects));
    ActivateLeads(After(run), objects);
    run := Step(run, ActivateGhosting, Started(objects));
    AnnounceLeads(After(run), objects);
    run := Step(run, WritePacket(true, map[]), Announced(objects));
    HearLeads(After(run), objects);
    run := Step(run, ReadPacket(0, 1), Heard(objects));
    ReadyLeads(After(run), objects);
    run := Step(run, ReadyForNormalGhosts, Open(NONE, objects));
    assert run == Opening(o, version);
  }

  lemma StartIdle()
    ensures Possible([]) && Is(After([]), Idle(map[]))
  {
  }

  /** An object of any state that comes into scope reaches the client as it is. */
  lemma ObjectArrives(o: nat, version: seq<nat>) returns (run: seq<Action>)
    requires |version| == BITS
    ensures run == [CreateObject(o), ChangeState(o, AllBits(), version), CollapseDirtyList, ActivateGhosting,
                    WritePacket(true, map[]), ReadPacket(0, 1), ReadyForNormalGhosts, ObjectInScope(o, 0),
                    WritePacket(true, map[0 := {}]), ReadPacket(1, 1)]
    ensures Possible(run) && After(run).tracks[0].local == Ghost(o, version)
    ensures Is(After(run), Arrived(o, version))
  {
    hide Possible;
    hide After;
    hide Leads;
    hide Inv;
    var objects := map[o := Object(version, {})];
    Opens(o, version);
    run := Opening(o, version);
    ScopeLeads(After(run), o, objects);
    run := Step(run, ObjectInScope(o, 0), Open(NewInfo(o), objects));
    SendLeads(After(run), o, version);
    run := Step(run, WritePacket(true, map[0 := {}]), Sent(o, version));
    ArriveLeads(After(run), o, version);
    run := Step(run, ReadPacket(1, 1), Arrived(o, version));
  }

  /** The rest of such a run until the object has changed and the server has begun a new scope query. */
  ghost function Changing(o: nat, version: seq<nat>, bits: set<nat>, version': seq<nat>): seq<Action> {
    [CreateObject(o), ChangeState(o, AllBits(), version), CollapseDirtyList, ActivateGhosting,
     WritePacket(true, map[]), ReadPacket(0, 1), ReadyForNormalGhosts, ObjectInScope(o, 0),
     WritePacket(true, map[0 := {}]), ReadPacket(1, 1), NotifyOldest, NotifyOldest, ChangeState(o, bits, version'),
     CollapseDirtyList, ClearScope({})]
  }

  lemma ObjectChanges(o: nat, version: seq<nat>, bits: set<nat>, version': seq<nat>)
    requires Changes(version, bits, version')
    ensures var run := Changing(o, version, bits, version');
      && Possible(run)
      && Is(After(run), Held(o, Known(o, bits, false, None), version, Initial(o, version), version', {}))
  {
    hide Possible;
    hide After;
    hide Leads;
    hide Inv;
    hide Is;
    var entry := Initial(o, version);
    var run := ObjectArrives(o, version);
    FirstReportLeads(After(run), o, version);
    run := Step(run, NotifyOldest, FirstReported(o, version));
    SecondReportLeads(After(run), o, version);
    run := Step(run, NotifyOldest, Held(o, Known(o, {}, true, None), version, entry, version, {}));
    ChangeLeads(After(run), o, Known(o, {}, true, None), entry, version, bits, version');
    run := Step(run, ChangeState(o, bits, version'), Held(o, Known(o, {}, true, None), version, entry, version', bits));
    CollapseLeads(After(run), o, entry, version, version', bits);
    run := Step(run, CollapseDirtyList, Held(o, Known(o, bits, true, None), version, entry, version', {}));
    ClearScopeLeads(After(run), o, entry, version, version', bits);
    run := Step(run, ClearScope({}), Held(o, Known(o, bits, false, None), version, entry, version', {}));
    assert run == Changing(o, version, bits, version');
  }

  /** If the object is still in scope its change follows it to the client, as an update that carries
      just the changed bits. */
  lemma ChangeArrives(o: nat, version: seq<nat>, bits: set<nat>, version': seq<nat>) returns (run: seq<Action>)
    requires Changes(version, bits, version')
    ensures run == [CreateObject(o), ChangeState(o, AllBits(), version), CollapseDirtyList, ActivateGhosting,
                    WritePacket(true, map[]), ReadPacket(0, 1), ReadyForNormalGhosts, ObjectInScope(o, 0),
                    WritePacket(true, map[0 := {}]), ReadPacket(1, 1), NotifyOldest, NotifyOldest,
                    ChangeState(o, bits, version'), CollapseDirtyList, ClearScope({}), ObjectInScope(o, 0),
                    WritePacket(true, map[0 := {}]), ReadPacket(2, 1)]
    ensures Possible(run) && var t := After(run).tracks[0];
      && t.local == Ghost(o, version')
      && |t.wire| == 3 && t.wire[2] == Some(Update(None, map b | b in bits && b < BITS :: version'[b]))
  {
    hide Possible;
    hide After;
    hide Leads;
    hide Inv;
    var entry := Initial(o, version);
    ObjectChanges(o, version, bits, version');
    run := Changing(o, version, bits, version');
    ScopeAgainLeads(After(run), o, entry, version, version', bits);
    run := Step(run, ObjectInScope(o, 0), Held(o, Known(o, bits, true, None), version, entry, version', {}));
    UpdateLeads(After(run), o, entry, version, bits, version');
    run := Step(run, WritePacket(true, map[0 := {}]), UpdateSent(o, entry, version, bits, version', WRITTEN));
    UpdateReadLeads(After(run), o, entry, version, bits, version');
    run := Step(run, ReadPacket(2, 1), UpdateSent(o, entry, version', bits, version', READ));
    assert forall b :: b in bits ==> b in AllBits();
    assert Changed(bits, version').data == map b | b in bits && b < BITS :: version'[b];
  }

  /** If the object has left scope, the next packet takes it away from the client, and the report of
      that packet frees the slot. */
  lemma ObjectLeaves(o: nat, version: seq<nat>, bits: set<nat>, version': seq<nat>)
      returns (run: seq<Action>, run': seq<Action>)
    requires Changes(version, bits, version')
    ensures run == [CreateObject(o), ChangeState(o, AllBits(), version), CollapseDirtyList, ActivateGhosting,
                    WritePacket(true, map[]), ReadPacket(0, 1), ReadyForNormalGhosts, ObjectInScope(o, 0),
                    WritePacket(true, map[0 := {}]), ReadPacket(1, 1), NotifyOldest, NotifyOldest,
                    ChangeState(o, bits, version'), CollapseDirtyList, ClearScope({}),
                    WritePacket(true, map[0 := {}])]
    ensures run' == run + [ReadPacket(2, 1), NotifyOldest]
    ensures Possible(run) && Possible(run')
    ensures After(run).tracks[0].local == Ghost(o, version) && After(run).tracks[0].info.obj == None
    ensures After(run').tracks[0].local == Empty && !After(run').tracks[0].info.inUse
  {
    hide Possible;
    hide After;
    hide Leads;
    hide Inv;
    var entry := Initial(o, version);
    ObjectChanges(o, version, bits, version');
    run := Changing(o, version, bits, version');
    KillLeads(After(run), o, entry, version, bits, version');
    run := Step(run, WritePacket(true, map[0 := {}]), KillSent(o, entry, bits, version', Ghost(o, version), WRITTEN));
    KillReadLeads(After(run), o, entry, version, bits, version');
    run' := Step(run, ReadPacket(2, 1), KillSent(o, entry, bits, version', Empty, READ));
    KillReportLeads(After(run'), o, entry, bits, version');
    run' := Step(run', NotifyOldest, Freed(o, entry, version'));
  }
}
