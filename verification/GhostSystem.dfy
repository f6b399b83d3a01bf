/** A ghosting server and its client over the channel: all slots, the scoped objects, and the
    sessions started and ended by remote calls that travel as guaranteed-ordered events. */
module GhostSystem {
  import opened Wrappers
  import opened GhostProtocol
  import opened GhostSlot
  import C = Channel

  /** rpcStartGhosting and rpcEndGhosting, in the order posted. */
  datatype Rpc = StartGhosting(sequence: nat) | EndGhosting

  /** The body of packet j in the channel is the number of calls posted when it was written; its
      ghost entries are the elements j of the tracks' wires.  `ready` are the
      rpcReadyForNormalGhosts calls that the client has posted. */
  datatype System = System(
    tracks: seq<Track>,
    c: C.Channel<nat>,
    objects: map<nat, Object>,
    ghosting: bool,
    scoping: bool,
    sequence: nat,
    rpcs: seq<Rpc>,
    lastEnd: int,
    rpcsDone: nat,
    ready: seq<nat>,
    readyDone: nat)

  datatype Action =
    | ChangeState(o: nat, bits: set<nat>, version: seq<nat>)
    | CollapseDirtyList
    | CreateObject(o: nat)
    | DestroyObject(o: nat)
    | ObjectInScope(o: nat, g: nat)
    | ClearScope(always: set<nat>)
    | WritePacket(scopeObjectValid: bool, chosen: map<nat, set<nat>>)
    | ReadPacket(i: nat, upTo: nat)
    | PassOver(i: nat)
    | NotifyOldest
    | ActivateGhosting
    | ResetGhosting
    | ReadyForNormalGhosts

  // ----- one slot in each action -----

  ghost function ObjectOf(y: System, t: Track): Object {
    if t.info.obj.Some? && t.info.obj.value in y.objects then y.objects[t.info.obj.value]
      else Object(FreshVersion(), {})
  }

  ghost function Prepared(t: Track): Track { t.(info := Prepare(t.info)) }

  ghost predicate CanChoose(t: Track, ret: set<nat>) {
    Eligible(t.info) && (t.info.killGhost || ret <= t.info.updateMask)
  }

  ghost function WriteSlot(y: System, t: Track, chosen: Option<set<nat>>): Track
    requires SlotInv(t) && (forall o :: o in y.objects ==> |y.objects[o].version| == BITS)
    requires chosen.Some? ==> CanChoose(Prepared(t), chosen.value)
  {
    PrepareKeepsSlot(t);
    var p := Prepared(t);
    if chosen.None? then Omit(p)
    else if p.info.killGhost then SendKill(p)
    else SendUpdate(p, ObjectOf(y, p), chosen.value)
  }

  ghost function Cleared(t: Track): Track {
    t.(info := ClearedInfo(t.info), refs := seq(|t.refs|, j => None))
  }

  ghost function Collapsed(y: System, t: Track): Track {
    if t.info.inUse && t.info.obj.Some? then t.(info := t.info.(updateMask := t.info.updateMask + ObjectOf(y, t).dirty))
      else t
  }

  ghost function Destroyed(t: Track, o: nat): Track {
    if t.info.inUse && t.info.obj == Some(o) then t.(info := Detach(t.info)) else t
  }

  ghost function Scoped(t: Track, o: nat): Track {
    t.(info := if t.info.inUse then t.info.(inScope := true) else NewInfo(o))
  }

  ghost function Unscoped(t: Track, always: bool): Track {
    if t.info.updateMask != {} && !always then t.(info := t.info.(inScope := false)) else t
  }

  ghost function EndsSession(rpcs: seq<Rpc>, a: nat, b: nat): bool {
    exists k :: a <= k < b && k < |rpcs| && rpcs[k].EndGhosting?
  }

  ghost function Emptied(t: Track, ends: bool): Track {
    if ends then t.(local := Empty) else t
  }

  ghost function Starts(rpcs: seq<Rpc>): seq<nat> {
    if rpcs == [] then []
    else (if rpcs[0].StartGhosting? then [rpcs[0].sequence] else []) + Starts(rpcs[1..])
  }

  // ----- the actions -----

  ghost predicate Writes(y: System, act: Action) {
    act.WritePacket? && y.ghosting && act.scopeObjectValid
  }

  ghost function Choice(act: Action, g: nat): Option<set<nat>>
    requires act.WritePacket?
  {
    if g in act.chosen then Some(act.chosen[g]) else None
  }

  ghost predicate Enabled(y: System, act: Action) {
    && |y.tracks| == MAX_GHOSTS
    && match act
       case ChangeState(o, bits, version) =>
         && o in y.objects && bits != {} && bits <= AllBits() && |version| == BITS && |y.objects[o].version| == BITS
         && forall b :: b in AllBits() && b !in bits ==> version[b] == y.objects[o].version[b]
       case CollapseDirtyList => true
       case CreateObject(o) => o !in y.objects
       case DestroyObject(o) => o in y.objects
       case ObjectInScope(o, g) =>
         && y.scoping && o in y.objects && g < MAX_GHOSTS
         && (if y.tracks[g].info.inUse then y.tracks[g].info.obj == Some(o)
             else forall h :: 0 <= h < MAX_GHOSTS && y.tracks[h].info.inUse ==> y.tracks[h].info.obj != Some(o))
       case ClearScope(_) => true
       case WritePacket(_, chosen) =>
         && C.CanSend(y.c)
         && (Writes(y, act) ==> forall g :: 0 <= g < MAX_GHOSTS && g in chosen ==>
              CanChoose(Prepared(y.tracks[g]), chosen[g]))
       case ReadPacket(i, upTo) =>
         C.CanRead(y.c, i) && y.rpcsDone <= upTo <= |y.rpcs| && (upTo == y.rpcsDone || upTo <= y.c.sent[i])
       case PassOver(i) => C.CanSkip(y.c, i)
       case NotifyOldest => C.CanNotify(y.c)
       case ActivateGhosting => forall g :: 0 <= g < MAX_GHOSTS ==> !y.tracks[g].info.inUse
       case ResetGhosting => true
       case ReadyForNormalGhosts => y.readyDone < |y.ready|
  }

  ghost function ActSlot(y: System, act: Action, g: nat): Track
    requires Inv(y) && Enabled(y, act) && g < MAX_GHOSTS
  {
    var t := y.tracks[g];
    match act
    case CollapseDirtyList => Collapsed(y, t)
    case DestroyObject(o) => Destroyed(t, o)
    case ObjectInScope(o, h) => if h == g then Scoped(t, o) else t
    case ClearScope(always) => Unscoped(t, g in always)
    case WritePacket(_, _) => if Writes(y, act) then WriteSlot(y, t, Choice(act, g)) else Omit(t)
    case ReadPacket(i, upTo) => Read(Emptied(t, EndsSession(y.rpcs, y.rpcsDone, upTo)), i)
    case PassOver(i) => Skip(t, i)
    case NotifyOldest => Notify(t)
    case ResetGhosting => Cleared(t)
    case _ => t
  }

  ghost function Act(y: System, act: Action): System
    requires Inv(y) && Enabled(y, act)
  {
    var y' := y.(tracks := seq(MAX_GHOSTS, g requires 0 <= g < MAX_GHOSTS => ActSlot(y, act, g)));
    match act
    case ChangeState(o, bits, version) => y'.(objects := y.objects[o := Object(version, y.objects[o].dirty + bits)])
    case CollapseDirtyList => y'.(objects := map o | o in y.objects :: y.objects[o].(dirty := {}))
    case CreateObject(o) => y'.(objects := y.objects[o := Object(FreshVersion(), {})])
    case DestroyObject(o) => y'.(objects := y.objects - {o})
    case WritePacket(_, _) => y'.(c := C.Send(y.c, |y.rpcs|))
    case ReadPacket(i, upTo) =>
      y'.(c := C.Read(y.c, i), rpcsDone := upTo, ready := y.ready + Starts(y.rpcs[y.rpcsDone..upTo]))
    case PassOver(i) => y'.(c := C.Skip(y.c, i))
    case NotifyOldest => y'.(c := C.Notify(y.c))
    case ActivateGhosting =>
      y'.(scoping := true, sequence := y.sequence + 1, rpcs := y.rpcs + [StartGhosting(y.sequence + 1)])
    case ResetGhosting =>
      y'.(ghosting := false, scoping := false, sequence := y.sequence + 1, rpcs := y.rpcs + [EndGhosting],
          lastEnd := |y.rpcs|)
    case ReadyForNormalGhosts =>
      y'.(readyDone := y.readyDone + 1, ghosting := y.ghosting || y.ready[y.readyDone] == y.sequence)
    case _ => y'
  }

  // ----- the invariant -----

  /** A slot while no session is active: nothing of it is on record as sent, and the packets of an
      earlier session that the client may still read agree with what it holds. */
  ghost predicate IdleSlot(t: Track) {
    && Agrees(t) && FlagsInv(t.info) && t.info.lastUpdateChain.None?
    && (t.info.inUse ==> t.info.notYetGhosted)
    && (forall j :: 0 <= j < |t.refs| ==> t.refs[j].None?)
  }

  ghost predicate Follows(t: Track, c: C.Channel<nat>) {
    |t.wire| == |c.sent| && t.cursor == c.cursor && t.notified == c.notified && t.read == c.read
  }

  ghost predicate HasEntries(y: System, j: int) {
    exists g :: 0 <= g < |y.tracks| && 0 <= j < |y.tracks[g].wire| && y.tracks[g].wire[j].Some?
  }

  ghost predicate Answered(y: System, sequence: nat) {
    exists k :: 0 <= k < y.rpcsDone && k < |y.rpcs| && y.rpcs[k] == StartGhosting(sequence)
  }

  ghost predicate SessionInv(y: System) {
    && -1 <= y.lastEnd < |y.rpcs| && y.rpcsDone <= |y.rpcs| && y.readyDone <= |y.ready|
    && (y.lastEnd >= 0 ==> y.rpcs[y.lastEnd].EndGhosting?)
    && (forall k :: y.lastEnd < k < |y.rpcs| ==> !y.rpcs[k].EndGhosting?)
    && (forall k :: 0 <= k < |y.rpcs| && y.rpcs[k].StartGhosting? ==>
          y.rpcs[k].sequence <= y.sequence && (y.rpcs[k].sequence == y.sequence ==> y.lastEnd < k))
    && (forall r :: 0 <= r < |y.ready| ==> Answered(y, y.ready[r]))
    && (y.ghosting ==> y.lastEnd < y.rpcsDone)
  }

  ghost predicate PostedInv(y: System) {
    && (forall j :: 0 <= j < |y.c.sent| ==> y.c.sent[j] <= |y.rpcs|)
    && (forall j, k :: 0 <= j < k < |y.c.sent| ==> y.c.sent[j] <= y.c.sent[k])
    && (forall j :: y.c.cursor <= j < |y.c.sent| ==> y.rpcsDone <= y.c.sent[j])
  }

  /** Entries still readable were written in the session the client is in; entries written before
      the last reset are recognised by their number of calls. */
  ghost predicate EntriesInv(y: System) {
    && (forall j :: y.c.cursor <= j < |y.c.sent| && HasEntries(y, j) ==> !EndsSession(y.rpcs, y.rpcsDone, y.c.sent[j]))
    && (!y.ghosting ==> forall j :: 0 <= j < |y.c.sent| && HasEntries(y, j) ==> y.c.sent[j] <= y.lastEnd)
    && (!y.ghosting && y.lastEnd < y.rpcsDone ==> forall g :: 0 <= g < |y.tracks| ==> y.tracks[g].local.Empty?)
  }

  ghost predicate ObjectsInv(y: System) {
    && (forall o :: o in y.objects ==> |y.objects[o].version| == BITS && y.objects[o].dirty <= AllBits())
    && (forall g :: 0 <= g < |y.tracks| && y.tracks[g].info.inUse && y.tracks[g].info.obj.Some? ==>
          y.tracks[g].info.obj.value in y.objects)
  }

  ghost predicate SlotsInv(y: System) {
    && |y.tracks| == MAX_GHOSTS
    && (forall g :: 0 <= g < MAX_GHOSTS ==> Follows(y.tracks[g], y.c))
    && (forall g :: 0 <= g < MAX_GHOSTS ==> if y.ghosting then SlotInv(y.tracks[g]) else IdleSlot(y.tracks[g]))
  }

  ghost predicate CurrentInv(y: System)
    requires ObjectsInv(y)
  {
    forall g :: 0 <= g < |y.tracks| && y.tracks[g].info.inUse && y.tracks[g].info.obj.Some? ==>
      Current(y.tracks[g], y.objects[y.tracks[g].info.obj.value])
  }

  /** No object has two ghosts. */
  ghost predicate DistinctInv(tracks: seq<Track>) {
    forall g, h :: 0 <= g < h < |tracks| && tracks[g].info.inUse && tracks[h].info.inUse && tracks[g].info.obj.Some? ==>
      tracks[g].info.obj != tracks[h].info.obj
  }

  ghost predicate Inv(y: System) {
    && C.Valid(y.c)
    && SlotsInv(y)
    && SessionInv(y)
    && PostedInv(y)
    && EntriesInv(y)
    && ObjectsInv(y)
    && CurrentInv(y)
    && DistinctInv(y.tracks)
  }

  // ----- slots -----

  lemma NoSessionEnds(y: System, upTo: nat)
    requires SessionInv(y) && y.lastEnd < y.rpcsDone
    ensures !EndsSession(y.rpcs, y.rpcsDone, upTo)
  {
  }

  lemma WriteSlotKept(y: System, t: Track, chosen: Option<set<nat>>)
    requires SlotInv(t) && (forall o :: o in y.objects ==> |y.objects[o].version| == BITS)
    requires chosen.Some? ==> CanChoose(Prepared(t), chosen.value)
    ensures SlotInv(WriteSlot(y, t, chosen))
  {
    PrepareKeepsSlot(t);
    var p := Prepared(t);
    if chosen.None? { OmitKeepsSlot(p); }
    else if p.info.killGhost { SendKillKeepsSlot(p); }
    else { SendUpdateKeepsSlot(p, ObjectOf(y, p), chosen.value); }
  }

  /** A slot of an active session. */
  lemma ActiveSlotKept(y: System, act: Action, g: nat)
    requires Inv(y) && Enabled(y, act) && g < MAX_GHOSTS && y.ghosting && !act.ResetGhosting?
    ensures SlotInv(ActSlot(y, act, g))
  {
    hide SlotInv;
    hide CurrentInv;
    hide EntriesInv;
    hide PostedInv;
    var t := y.tracks[g];
    assert Follows(t, y.c) && SlotInv(t);
    match act
    case CollapseDirtyList => MarkKept(y, t);
    case DestroyObject(o) => DestroyKept(t, o);
    case ObjectInScope(o, h) => if h == g { ScopeKept(t, o); }
    case ClearScope(always) => UnscopeKept(t, g in always);
    case WritePacket(_, _) => if Writes(y, act) { WriteSlotKept(y, t, Choice(act, g)); } else { OmitKeepsSlot(t); }
    case ReadPacket(i, upTo) => NoSessionEnds(y, upTo); ReadKeepsSlot(t, i);
    case PassOver(i) => SkipKeepsSlot(t, i);
    case NotifyOldest => if t.notified in t.read { NotifyReceivedKeepsSlot(t); } else { NotifyDroppedKeepsSlot(t); }
    case _ =>
  }

  lemma MarkKept(y: System, t: Track)
    requires SlotInv(t) && ObjectsInv(y)
    ensures SlotInv(Collapsed(y, t))
  {
    if t.info.inUse && t.info.obj.Some? { MarkKeepsSlot(t, ObjectOf(y, t).dirty, t.info.inScope); }
  }

  lemma DestroyKept(t: Track, o: nat)
    requires SlotInv(t)
    ensures SlotInv(Destroyed(t, o))
  {
    if t.info.inUse && t.info.obj == Some(o) { DetachKeepsSlot(t); }
  }

  lemma ScopeKept(t: Track, o: nat)
    requires SlotInv(t)
    ensures SlotInv(Scoped(t, o))
  {
    if t.info.inUse { MarkKeepsSlot(t, {}, true); assert t.info.updateMask + {} == t.info.updateMask; }
    else { NewKeepsSlot(t, o); }
  }

  lemma UnscopeKept(t: Track, always: bool)
    requires SlotInv(t)
    ensures SlotInv(Unscoped(t, always))
  {
    if t.info.inUse { MarkKeepsSlot(t, {}, false); assert t.info.updateMask + {} == t.info.updateMask; }
  }

  /** A slot while no session is active. */
  lemma IdleSlotKept(y: System, act: Action, g: nat)
    requires Inv(y) && Enabled(y, act) && g < MAX_GHOSTS && !y.ghosting && !act.ReadPacket?
    ensures IdleSlot(ActSlot(y, act, g))
  {
    hide CurrentInv;
    hide EntriesInv;
    hide PostedInv;
    var t := y.tracks[g];
    assert Follows(t, y.c) && IdleSlot(t);
    assert IsBit(0) && 0 in AllBits();
    if act.CollapseDirtyList? { assert ObjectOf(y, t).dirty <= AllBits(); }
  }

  /** With no session active and the last end of session read, nothing more can be read of a slot. */
  lemma WireQuiet(y: System, g: nat)
    requires Inv(y) && g < MAX_GHOSTS && !y.ghosting && y.lastEnd < y.rpcsDone
    ensures forall j :: y.c.cursor <= j < |y.tracks[g].wire| ==> y.tracks[g].wire[j].None?
    ensures y.tracks[g].local.Empty?
  {
    assert Follows(y.tracks[g], y.c);
    assert forall j :: y.c.cursor <= j < |y.c.sent| ==> !HasEntries(y, j);
    assert forall j :: 0 <= j < |y.tracks[g].wire| && y.tracks[g].wire[j].Some? ==> HasEntries(y, j);
  }

  /** When the client learns in a packet that a session ended, neither that packet nor a later one
      that it can still read has entries. */
  lemma EndedQuiet(y: System, i: nat, upTo: nat)
    requires PostedInv(y) && EntriesInv(y) && C.CanRead(y.c, i)
    requires y.rpcsDone <= upTo <= |y.rpcs| && (upTo == y.rpcsDone || upTo <= y.c.sent[i])
    requires EndsSession(y.rpcs, y.rpcsDone, upTo)
    ensures forall j :: i <= j < |y.c.sent| ==> !HasEntries(y, j)
  {
    forall j | i <= j < |y.c.sent| ensures !HasEntries(y, j) {
      assert upTo <= y.c.sent[j];
      assert EndsSession(y.rpcs, y.rpcsDone, y.c.sent[j]);
    }
  }

  lemma IdleSlotRead(y: System, i: nat, upTo: nat, g: nat)
    requires Inv(y) && Enabled(y, ReadPacket(i, upTo)) && g < MAX_GHOSTS && !y.ghosting
    ensures IdleSlot(ActSlot(y, ReadPacket(i, upTo), g))
  {
    var t := y.tracks[g];
    assert Follows(t, y.c) && IdleSlot(t);
    if EndsSession(y.rpcs, y.rpcsDone, upTo) {
      EndedQuiet(y, i, upTo);
      assert forall j :: i <= j < |t.wire| && t.wire[j].Some? ==> HasEntries(y, j);
      hide EntriesInv;
      hide PostedInv;
      hide CurrentInv;
    }
  }

  lemma ClearedSlot(t: Track)
    requires SlotInv(t) || IdleSlot(t)
    ensures IdleSlot(Cleared(t))
  {
  }

  lemma SessionStarts(t: Track)
    requires IdleSlot(t) && t.local.Empty? && (forall j :: t.cursor <= j < |t.wire| ==> t.wire[j].None?)
    ensures SlotInv(t)
  {
  }

  /** Only the answer to the newest start of a session is taken. */
  lemma ReadyIsCurrent(y: System)
    requires SessionInv(y) && y.readyDone < |y.ready| && y.ready[y.readyDone] == y.sequence
    ensures y.lastEnd < y.rpcsDone
  {
  }

  lemma SlotKept(y: System, act: Action, g: nat)
    requires Inv(y) && Enabled(y, act) && g < MAX_GHOSTS
    ensures if Act(y, act).ghosting then SlotInv(ActSlot(y, act, g)) else IdleSlot(ActSlot(y, act, g))
  {
    hide CurrentInv;
    hide EntriesInv;
    hide PostedInv;
    hide ObjectsInv;
    hide SlotInv;
    hide IdleSlot;
    if act.ResetGhosting? { ClearedSlot(y.tracks[g]); }
    else if y.ghosting { ActiveSlotKept(y, act, g); }
    else {
      if act.ReadPacket? { IdleSlotRead(y, act.i, act.upTo, g); } else { IdleSlotKept(y, act, g); }
      if Act(y, act).ghosting {
        ReadyIsCurrent(y);
        WireQuiet(y, g);
        assert Follows(y.tracks[g], y.c);
        SessionStarts(y.tracks[g]);
      }
    }
  }

  lemma FollowsKept(y: System, act: Action, g: nat)
    requires Inv(y) && Enabled(y, act) && g < MAX_GHOSTS
    ensures Follows(ActSlot(y, act, g), Act(y, act).c)
  {
    hide CurrentInv;
    hide EntriesInv;
    hide PostedInv;
    hide ObjectsInv;
    hide SlotInv;
    hide IdleSlot;
    assert Follows(y.tracks[g], y.c);
  }

  lemma TracksAre(y: System, act: Action)
    requires Inv(y) && Enabled(y, act)
    ensures |Act(y, act).tracks| == MAX_GHOSTS
    ensures forall g :: 0 <= g < MAX_GHOSTS ==> Act(y, act).tracks[g] == ActSlot(y, act, g)
  {
    hide Inv;
    hide Enabled;
    hide ActSlot;
  }

  lemma SlotsKept(y: System, act: Action)
    requires Inv(y) && Enabled(y, act)
    ensures SlotsInv(Act(y, act))
  {
    hide Act;
    hide ActSlot;
    hide Inv;
    hide Enabled;
    hide SlotInv;
    hide IdleSlot;
    hide Follows;
    var y' := Act(y, act);
    TracksAre(y, act);
    forall g: nat | g < MAX_GHOSTS
      ensures Follows(y'.tracks[g], y'.c) && if y'.ghosting then SlotInv(y'.tracks[g]) else IdleSlot(y'.tracks[g])
    {
      FollowsKept(y, act, g);
      SlotKept(y, act, g);
    }
  }

  // ----- sessions -----

  /** Every sequence posted back by the client is that of a start it has read. */
  lemma {:induction false} StartsOf(rpcs: seq<Rpc>, r: nat) returns (k: nat)
    requires r < |Starts(rpcs)|
    ensures k < |rpcs| && rpcs[k] == StartGhosting(Starts(rpcs)[r])
  {
    if rpcs[0].StartGhosting? && r == 0 { k := 0; }
    else {
      k := StartsOf(rpcs[1..], if rpcs[0].StartGhosting? then r - 1 else r);
      k := k + 1;
    }
  }

  /** Calls are only added, and answers when the client reads a packet. */
  lemma CallsGoOn(y: System, act: Action)
    requires Inv(y) && Enabled(y, act)
    ensures var y' := Act(y, act);
      && y.rpcs <= y'.rpcs && y.rpcsDone <= y'.rpcsDone
      && (act.ReadPacket? ==> y.rpcsDone <= act.upTo == y'.rpcsDone <= |y.rpcs|)
      && y'.ready == y.ready + if act.ReadPacket? then Starts(y.rpcs[y.rpcsDone..act.upTo]) else []
  {
    hide Inv;
    hide ActSlot;
    hide Starts;
  }

  lemma AnsweredKept(y: System, act: Action, r: nat)
    requires Inv(y) && Enabled(y, act) && r < |Act(y, act).ready|
    ensures Answered(Act(y, act), Act(y, act).ready[r])
  {
    hide Act;
    hide Inv;
    hide Enabled;
    hide Answered;
    hide Starts;
    CallsGoOn(y, act);
    var y' := Act(y, act);
    if r < |y.ready| {
      AnsweredBefore(y, r);
      AnsweredLater(y, y', y.ready[r]);
    } else {
      AnsweredNow(y, y', act.upTo, r - |y.ready|);
    }
  }

  lemma AnsweredBefore(y: System, r: nat)
    requires Inv(y) && r < |y.ready|
    ensures Answered(y, y.ready[r])
  {
    hide SlotsInv;
    hide CurrentInv;
    hide EntriesInv;
    hide ObjectsInv;
  }

  lemma AnsweredLater(y: System, y': System, sequence: nat)
    requires Answered(y, sequence) && y.rpcs <= y'.rpcs && y.rpcsDone <= y'.rpcsDone
    ensures Answered(y', sequence)
  {
    var k :| 0 <= k < y.rpcsDone && k < |y.rpcs| && y.rpcs[k] == StartGhosting(sequence);
    assert y'.rpcs[k] == y.rpcs[k];
  }

  lemma AnsweredNow(y: System, y': System, upTo: nat, r: nat)
    requires y.rpcs <= y'.rpcs && y.rpcsDone <= upTo == y'.rpcsDone <= |y.rpcs|
    requires r < |Starts(y.rpcs[y.rpcsDone..upTo])|
    ensures Answered(y', Starts(y.rpcs[y.rpcsDone..upTo])[r])
  {
    hide Starts;
    var k := StartsOf(y.rpcs[y.rpcsDone..upTo], r);
    assert y'.rpcs[y.rpcsDone + k] == y.rpcs[y.rpcsDone + k];
  }

  lemma SessionKept(y: System, act: Action)
    requires Inv(y) && Enabled(y, act)
    ensures SessionInv(Act(y, act))
  {
    hide CurrentInv;
    hide EntriesInv;
    hide PostedInv;
    hide ObjectsInv;
    hide SlotsInv;
    hide Answered;
    var y' := Act(y, act);
    forall r | 0 <= r < |y'.ready| ensures Answered(y', y'.ready[r]) { AnsweredKept(y, act, r); }
    if act.ReadyForNormalGhosts? && y.ready[y.readyDone] == y.sequence { ReadyIsCurrent(y); }
  }

  lemma PostedKept(y: System, act: Action)
    requires Inv(y) && Enabled(y, act)
    ensures PostedInv(Act(y, act))
  {
    hide CurrentInv;
    hide EntriesInv;
    hide ObjectsInv;
    hide SlotsInv;
    hide Answered;
  }

  lemma WriteSlotObject(y: System, t: Track, chosen: Option<set<nat>>)
    requires SlotInv(t) && (forall o :: o in y.objects ==> |y.objects[o].version| == BITS)
    requires chosen.Some? ==> CanChoose(Prepared(t), chosen.value)
    ensures var i := WriteSlot(y, t, chosen).info;
      i.inUse && i.obj.Some? ==> t.info.inUse && i.obj == t.info.obj
  {
    PrepareKeepsSlot(t);
  }

  /** A slot in use is of an object it was of before, or of one that just came into scope. */
  lemma SlotObject(y: System, act: Action, g: nat)
    requires Inv(y) && Enabled(y, act) && g < MAX_GHOSTS
    ensures var i := ActSlot(y, act, g).info;
      i.inUse && i.obj.Some? ==>
        || (y.tracks[g].info.inUse && i.obj == y.tracks[g].info.obj && i.obj.value in y.objects
            && (act.DestroyObject? ==> i.obj.value != act.o))
        || (act.ObjectInScope? && g == act.g && i.obj == Some(act.o) && act.o in y.objects && !y.tracks[g].info.inUse)
  {
    hide WriteSlot;
    hide CurrentInv;
    hide EntriesInv;
    hide PostedInv;
    hide SessionInv;
    hide SlotInv;
    hide IdleSlot;
    var t := y.tracks[g];
    assert Follows(t, y.c);
    if Writes(y, act) { WriteSlotObject(y, t, Choice(act, g)); }
    if act.NotifyOldest? { NotifyObject(t); }
  }

  lemma NotifyObject(t: Track)
    requires (SlotInv(t) || IdleSlot(t)) && t.notified < t.cursor
    ensures t.notified < |t.refs| && Chained(t.refs)
    ensures var i := Notify(t).info; i.obj == t.info.obj && (i.inUse ==> t.info.inUse)
  {
    hide WalkChain;
  }

  lemma ObjectsKept(y: System, act: Action)
    requires Inv(y) && Enabled(y, act)
    ensures ObjectsInv(Act(y, act))
  {
    hide CurrentInv;
    hide EntriesInv;
    hide PostedInv;
    hide SessionInv;
    hide SlotInv;
    hide IdleSlot;
    hide ActSlot;
    var y' := Act(y, act);
    forall g: nat | g < MAX_GHOSTS && y'.tracks[g].info.inUse && y'.tracks[g].info.obj.Some?
      ensures y'.tracks[g].info.obj.value in y'.objects
    {
      SlotObject(y, act, g);
    }
  }

  // ----- entries -----

  lemma SlotWire(y: System, act: Action, g: nat)
    requires Inv(y) && Enabled(y, act) && g < MAX_GHOSTS
    ensures var w := y.tracks[g].wire; var w' := ActSlot(y, act, g).wire;
      && w <= w'
      && (!act.WritePacket? ==> w' == w)
      && (act.WritePacket? ==> |w'| == |w| + 1 && (!y.ghosting ==> w'[|w|].None?))
  {
    hide CurrentInv;
    hide EntriesInv;
    hide PostedInv;
    hide SessionInv;
    hide IdleSlot;
    assert Follows(y.tracks[g], y.c);
  }

  lemma EntryOf(y: System, g: nat, j: nat)
    requires g < |y.tracks| && j < |y.tracks[g].wire| && y.tracks[g].wire[j].Some?
    ensures HasEntries(y, j)
  {
  }

  lemma EntriesSame(y: System, act: Action, j: nat)
    requires Inv(y) && Enabled(y, act) && HasEntries(Act(y, act), j)
    ensures j < |y.c.sent| ==> HasEntries(y, j)
    ensures j >= |y.c.sent| ==> act.WritePacket? && j == |y.c.sent| && y.ghosting
  {
    hide ActSlot;
    var y' := Act(y, act);
    var g :| 0 <= g < |y'.tracks| && 0 <= j < |y'.tracks[g].wire| && y'.tracks[g].wire[j].Some?;
    assert Follows(y.tracks[g], y.c);
    SlotWire(y, act, g);
  }

  lemma ReadableEntriesKept(y: System, act: Action, j: nat)
    requires Inv(y) && Enabled(y, act)
    requires Act(y, act).c.cursor <= j < |Act(y, act).c.sent| && HasEntries(Act(y, act), j)
    ensures !EndsSession(Act(y, act).rpcs, Act(y, act).rpcsDone, Act(y, act).c.sent[j])
  {
    hide CurrentInv;
    hide ObjectsInv;
    hide SlotsInv;
    hide HasEntries;
    hide ActSlot;
    EntriesSame(y, act, j);
    if j < |y.c.sent| {
      assert !EndsSession(y.rpcs, y.rpcsDone, y.c.sent[j]);
    } else {
      NoSessionEnds(y, |y.rpcs|);
    }
  }

  lemma OldEntriesKept(y: System, act: Action, j: nat)
    requires Inv(y) && Enabled(y, act) && !Act(y, act).ghosting
    requires j < |Act(y, act).c.sent| && HasEntries(Act(y, act), j)
    ensures Act(y, act).c.sent[j] <= Act(y, act).lastEnd
  {
    hide CurrentInv;
    hide ObjectsInv;
    hide SlotsInv;
    hide HasEntries;
    hide ActSlot;
    EntriesSame(y, act, j);
  }

  /** After the end of the last session is read the client has no ghosts. */
  lemma ClientEmpty(y: System, act: Action, g: nat)
    requires Inv(y) && Enabled(y, act) && g < MAX_GHOSTS
    requires !Act(y, act).ghosting && Act(y, act).lastEnd < Act(y, act).rpcsDone
    ensures ActSlot(y, act, g).local.Empty?
  {
    hide CurrentInv;
    hide ObjectsInv;
    hide PostedInv;
    hide SlotInv;
    hide IdleSlot;
    hide HasEntries;
    assert Follows(y.tracks[g], y.c);
    if act.ReadPacket? {
      if y.lastEnd < y.rpcsDone {
        WireQuiet(y, g);
      } else {
        assert EndsSession(y.rpcs, y.rpcsDone, act.upTo);
        var i := act.i;
        if y.tracks[g].wire[i].Some? { EntryOf(y, g, i); }
        EndedQuiet(y, i, act.upTo);
      }
    }
  }

  lemma EntriesKept(y: System, act: Action)
    requires Inv(y) && Enabled(y, act)
    ensures EntriesInv(Act(y, act))
  {
    hide Inv;
    hide Enabled;
    hide ActSlot;
    var y' := Act(y, act);
    forall j | y'.c.cursor <= j < |y'.c.sent| && HasEntries(y', j)
      ensures !EndsSession(y'.rpcs, y'.rpcsDone, y'.c.sent[j])
    {
      ReadableEntriesKept(y, act, j);
    }
    if !y'.ghosting {
      forall j | 0 <= j < |y'.c.sent| && HasEntries(y', j) ensures y'.c.sent[j] <= y'.lastEnd {
        OldEntriesKept(y, act, j);
      }
      if y'.lastEnd < y'.rpcsDone {
        forall g: nat | g < MAX_GHOSTS ensures y'.tracks[g].local.Empty? { ClientEmpty(y, act, g); }
      }
    }
  }

  // ----- most recent state -----

  /** A ghost that is yet to be sent has every bit marked. */
  lemma IdleCurrent(t: Track, o: Object)
    requires IdleSlot(t) && t.info.inUse && |o.version| == BITS
    ensures Current(t, o)
  {
  }

  lemma WriteSlotCurrent(y: System, t: Track, chosen: Option<set<nat>>, o: Object)
    requires SlotInv(t) && (forall o :: o in y.objects ==> |y.objects[o].version| == BITS)
    requires chosen.Some? ==> CanChoose(Prepared(t), chosen.value)
    requires t.info.inUse && t.info.obj.Some? && t.info.obj.value in y.objects && o == y.objects[t.info.obj.value]
    requires Current(t, o)
    ensures var t' := WriteSlot(y, t, chosen); t'.info.inUse && t'.info.obj.Some? ==> Current(t', o)
  {
    PrepareKeepsSlot(t);
    var p := Prepared(t);
    assert !p.info.killGhost && p.info.obj.Some? ==> p == t;
    assert p.info.inUse && !p.info.killingGhost && p.info.obj.None? ==> p.info.killGhost;
    hide Current;
    hide SlotInv;
    if p.info.obj.Some? {
      if chosen.None? { OmitKeepsCurrent(t, o); }
      else { hide SendUpdate; SendUpdateKeepsCurrent(t, o, chosen.value); }
    }
  }

  ghost predicate SlotCurrent(y: System, g: nat) requires g < |y.tracks| {
    var i := y.tracks[g].info;
    i.inUse && i.obj.Some? ==> i.obj.value in y.objects && Current(y.tracks[g], y.objects[i.obj.value])
  }

  /** A new ghost has every bit marked. */
  lemma NewCurrent(t: Track, x: nat, o: Object)
    requires !t.info.inUse && |o.version| == BITS
    ensures Current(Scoped(t, x), o)
  {
  }

  /** Packets sent, read, passed over or reported leave the objects as they are. */
  lemma PacketCurrent(y: System, act: Action, g: nat, o: Object)
    requires Inv(y) && Enabled(y, act) && g < MAX_GHOSTS && y.ghosting
    requires act.WritePacket? || act.ReadPacket? || act.PassOver? || act.NotifyOldest?
    requires var i := y.tracks[g].info;
      i.inUse && i.obj.Some? && i.obj.value in y.objects && o == y.objects[i.obj.value]
    ensures var t' := ActSlot(y, act, g); t'.info.inUse && t'.info.obj.Some? ==> Current(t', o)
  {
    hide EntriesInv;
    hide PostedInv;
    hide SlotInv;
    hide Current;
    hide WriteSlot;
    var t := y.tracks[g];
    assert SlotInv(t) && Follows(t, y.c) && Current(t, o);
    match act
    case WritePacket(_, _) =>
      if Writes(y, act) {
        WriteSlotCurrent(y, t, Choice(act, g), o);
      } else {
        OmitKeepsCurrent(t, o);
      }
    case ReadPacket(i, upTo) => NoSessionEnds(y, upTo); ReadKeepsCurrent(t, o, i);
    case PassOver(i) => MarkedKeepsCurrent(t, o, Skip(t, i), o);
    case NotifyOldest => NotifyKeepsCurrent(t, o);
  }

  /** The objects and the scope change; a ghost that stays is marked with what its object gained. */
  lemma MarkedCurrent(y: System, act: Action, g: nat)
    requires Inv(y) && Enabled(y, act) && g < MAX_GHOSTS
    requires act.ChangeState? || act.CollapseDirtyList? || act.ClearScope? || act.ObjectInScope?
    requires var i := y.tracks[g].info; i.inUse && i.obj.Some?
    ensures SlotCurrent(Act(y, act), g)
  {
    hide EntriesInv;
    hide PostedInv;
    hide SessionInv;
    hide SlotInv;
    hide IdleSlot;
    hide Current;
    var t, y' := y.tracks[g], Act(y, act);
    var o, o' := y.objects[t.info.obj.value], y'.objects[t.info.obj.value];
    assert Current(t, o);
    if act.ChangeState? {
      if t.info.obj.value == act.o { ChangeKeepsCurrent(t, o, o', act.bits); }
    } else {
      MarkedKeepsCurrent(t, o, y'.tracks[g], o');
    }
  }

  lemma ActiveCurrentKept(y: System, act: Action, g: nat)
    requires Inv(y) && Enabled(y, act) && g < MAX_GHOSTS && y.ghosting && !act.ResetGhosting?
    ensures SlotCurrent(Act(y, act), g)
  {
    hide EntriesInv;
    hide PostedInv;
    hide SlotInv;
    hide SessionInv;
    hide Current;
    hide IdleSlot;
    hide WriteSlot;
    var t, t' := y.tracks[g], ActSlot(y, act, g);
    SlotObject(y, act, g);
    if t'.info.inUse && t'.info.obj.Some? {
      if !t.info.inUse {
        NewCurrent(t, act.o, y.objects[act.o]);
      } else {
        assert Current(t, y.objects[t.info.obj.value]);
        if act.ChangeState? || act.CollapseDirtyList? || act.ClearScope? || act.ObjectInScope? {
          MarkedCurrent(y, act, g);
        }
        if act.WritePacket? || act.ReadPacket? || act.PassOver? || act.NotifyOldest? {
          PacketCurrent(y, act, g, y.objects[t.info.obj.value]);
        }
      }
    }
  }

  lemma IdleCurrentKept(y: System, act: Action, g: nat)
    requires Inv(y) && Enabled(y, act) && g < MAX_GHOSTS && !(y.ghosting && !act.ResetGhosting?)
    ensures SlotCurrent(Act(y, act), g)
  {
    hide ActSlot;
    hide Current;
    hide IdleSlot;
    hide SlotInv;
    hide EntriesInv;
    hide PostedInv;
    var y' := Act(y, act);
    var t' := y'.tracks[g];
    ObjectsKept(y, act);
    SlotKept(y, act, g);
    if t'.info.inUse && t'.info.obj.Some? {
      if y'.ghosting { SessionBegins(y, act, g); }
      else { IdleCurrent(t', y'.objects[t'.info.obj.value]); }
    }
  }

  /** Ghosting is turned on with every slot as it is. */
  lemma SessionBegins(y: System, act: Action, g: nat)
    requires Inv(y) && Enabled(y, act) && g < MAX_GHOSTS && !y.ghosting && Act(y, act).ghosting
    ensures SlotCurrent(Act(y, act), g)
  {
    hide Current;
    hide SlotInv;
    hide IdleSlot;
    hide EntriesInv;
    hide PostedInv;
    hide SessionInv;
    assert SlotCurrent(y, g);
  }

  lemma CurrentKept(y: System, act: Action)
    requires Inv(y) && Enabled(y, act) && ObjectsInv(Act(y, act))
    ensures CurrentInv(Act(y, act))
  {
    hide Act;
    hide Inv;
    hide Enabled;
    hide Current;
    var y' := Act(y, act);
    assert |y'.tracks| == MAX_GHOSTS by { SlotsKept(y, act); }
    forall g: nat | g < |y'.tracks| && y'.tracks[g].info.inUse && y'.tracks[g].info.obj.Some?
      ensures Current(y'.tracks[g], y'.objects[y'.tracks[g].info.obj.value])
    {
      if y.ghosting && !act.ResetGhosting? { ActiveCurrentKept(y, act, g); } else { IdleCurrentKept(y, act, g); }
    }
  }

  lemma DistinctKept(y: System, act: Action)
    requires Inv(y) && Enabled(y, act)
    ensures DistinctInv(Act(y, act).tracks)
  {
    hide Act;
    hide ActSlot;
    hide Inv;
    hide Enabled;
    var ts := Act(y, act).tracks;
    TracksAre(y, act);
    forall g: nat, h: nat | g < h < |ts| && ts[g].info.inUse && ts[h].info.inUse && ts[g].info.obj.Some?
      ensures ts[g].info.obj != ts[h].info.obj
    {
      if ts[h].info.obj.Some? { StayDistinct(y, act, g, h); }
    }
  }

  lemma StayDistinct(y: System, act: Action, g: nat, h: nat)
    requires Inv(y) && Enabled(y, act) && g < h < MAX_GHOSTS
    requires var (i, k) := (ActSlot(y, act, g).info, ActSlot(y, act, h).info);
      i.inUse && k.inUse && i.obj.Some? && k.obj.Some?
    ensures ActSlot(y, act, g).info.obj != ActSlot(y, act, h).info.obj
  {
    hide ActSlot;
    hide CurrentInv;
    hide EntriesInv;
    hide PostedInv;
    hide SessionInv;
    hide ObjectsInv;
    hide SlotInv;
    hide IdleSlot;
    SlotObject(y, act, g);
    SlotObject(y, act, h);
  }

  lemma ChannelKept(y: System, act: Action)
    requires Inv(y) && Enabled(y, act)
    ensures C.Valid(Act(y, act).c)
  {
    hide SlotsInv;
    hide SessionInv;
    hide CurrentInv;
    hide ActSlot;
  }

  lemma ActKeepsInv(y: System, act: Action)
    requires Inv(y) && Enabled(y, act)
    ensures Inv(Act(y, act))
  {
    hide Act;
    ChannelKept(y, act);
    SlotsKept(y, act);
    SessionKept(y, act);
    PostedKept(y, act);
    EntriesKept(y, act);
    ObjectsKept(y, act);
    CurrentKept(y, act);
    DistinctKept(y, act);
  }

  // ----- runs -----

  ghost function Start(): System {
    System(seq(MAX_GHOSTS,
               g => Track(GhostInfo(false, None, {}, false, false, false, false, false, None), [], [], Empty, 0, 0,
                          {})),
           C.Empty<nat>(), map[], false, false, 0, [], -1, 0, [], 0)
  }

  lemma StartInv()
    ensures Inv(Start())
  {
    assert forall g :: 0 <= g < MAX_GHOSTS ==> IdleSlot(Start().tracks[g]);
  }

  ghost predicate Possible(run: seq<Action>)
    decreases |run|, 0
  {
    run == [] || (Possible(run[..|run| - 1]) && Enabled(After(run[..|run| - 1]), run[|run| - 1]))
  }

  /** The system after a run; it satisfies the invariant. */
  ghost function After(run: seq<Action>): (y: System)
    requires Possible(run)
    ensures Inv(y)
    decreases |run|, 1
  {
    if run == [] then StartInv(); Start()
    else
      ActKeepsInv(After(run[..|run| - 1]), run[|run| - 1]);
      Act(After(run[..|run| - 1]), run[|run| - 1])
  }
}
