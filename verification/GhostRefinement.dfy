/** The GhostConnection object does to each slot exactly what the ghosting system says: its methods
    can be called in every reachable state, and lead from the records of one state to those of the
    next. */
module GhostRefinement {
  import opened Wrappers
  import opened GhostProtocol
  import opened GhostSlot
  import GC = GhostConnectionObject
  import G = GhostSystem

  /** The server's records of every slot are those of the system's state. */
  ghost predicate Represents(rs: seq<GC.Record>, y: G.System) {
    |rs| == |y.tracks| && forall g :: 0 <= g < |rs| ==> rs[g] == RecordOf(y.tracks[g])
  }

  ghost function RecordOf(t: Track): GC.Record { GC.Record(t.info, t.refs) }

  lemma SoundSlot(t: Track)
    requires SlotInv(t)
    ensures GC.Sound(t.info) && Chained(t.refs) && Lands(t.refs, -1, t.info.lastUpdateChain)
  {
  }

  /** writePacket can run in every reachable state of an active session. */
  lemma ReadyToWrite(y: G.System, g: nat, retMask: set<nat>)
    requires G.Inv(y) && y.ghosting && g < MAX_GHOSTS
    requires (y.tracks[g].info.inUse ==> retMask <= y.tracks[g].info.updateMask)
    ensures GC.Ready(RecordOf(y.tracks[g]), y.objects, retMask)
  {
    SoundSlot(y.tracks[g]);
    hide SlotInv;
  }

  /** What the object writes of a slot is the system's step for it. */
  lemma WriteRefines(y: G.System, t: Track, chosen: Option<set<nat>>, retMask: set<nat>)
    requires SlotInv(t) && (forall o :: o in y.objects ==> |y.objects[o].version| == BITS)
    requires t.info.inUse && t.info.obj.Some? ==> t.info.obj.value in y.objects
    requires chosen.Some? ==> G.CanChoose(G.Prepared(t), chosen.value) && chosen.value == retMask
    ensures var p := Prepare(t.info);
      && RecordOf(G.WriteSlot(y, t, chosen)) == GC.Written(GC.Record(p, t.refs), chosen.Some?, retMask, |t.refs|)
      && (chosen.Some? ==> G.WriteSlot(y, t, chosen).wire == t.wire + [Some(GC.SentEntry(p, y.objects, retMask))])
      && (chosen.None? ==> G.WriteSlot(y, t, chosen).wire == t.wire + [None])
  {
    PrepareKeepsSlot(t);
    SoundSlot(G.Prepared(t));
    var p := G.Prepared(t).info;
    assert FlagsInv(p) && (p.inUse && p.obj.Some? ==> p.obj == t.info.obj);
    hide SlotInv;
    hide Prepare;
  }

  ghost function ChoiceOf(sent: seq<nat>, retMasks: seq<set<nat>>): G.Action
    requires |retMasks| == MAX_GHOSTS
  {
    G.WritePacket(true, map g | g in sent && g < MAX_GHOSTS :: retMasks[g])
  }

  lemma ChoiceEnabled(y: G.System, rs: seq<GC.Record>, sent: seq<nat>, room: nat, retMasks: seq<set<nat>>)
    requires G.Inv(y) && y.ghosting && G.C.CanSend(y.c) && Represents(rs, y) && |retMasks| == MAX_GHOSTS
    requires forall g :: 0 <= g < MAX_GHOSTS && y.tracks[g].info.inUse ==> retMasks[g] <= y.tracks[g].info.updateMask
    requires GC.Chosen(sent, GC.Prepared(rs, true), room)
    ensures G.Enabled(y, ChoiceOf(sent, retMasks))
  {
    var act := ChoiceOf(sent, retMasks);
    forall g | 0 <= g < MAX_GHOSTS && g in act.chosen ensures G.CanChoose(G.Prepared(y.tracks[g]), act.chosen[g]) {
      assert rs[g] == RecordOf(y.tracks[g]) && SlotInv(y.tracks[g]);
    }
  }

  lemma SlotWritten(y: G.System, rs: seq<GC.Record>, sent: seq<nat>, retMasks: seq<set<nat>>, g: nat)
    requires G.Inv(y) && y.ghosting && Represents(rs, y) && |retMasks| == MAX_GHOSTS
    requires G.Enabled(y, ChoiceOf(sent, retMasks))
    requires g < MAX_GHOSTS
    ensures RecordOf(G.ActSlot(y, ChoiceOf(sent, retMasks), g))
         == GC.Written(GC.Prepared(rs, true)[g], g in sent, retMasks[g], |y.c.sent|)
    ensures G.ActSlot(y, ChoiceOf(sent, retMasks), g).wire == y.tracks[g].wire
         + [if g in sent then Some(GC.SentEntry(GC.Prepared(rs, true)[g].info, y.objects, retMasks[g])) else None]
  {
    assert rs[g] == RecordOf(y.tracks[g]) && SlotInv(y.tracks[g]) && G.Follows(y.tracks[g], y.c);
    hide SlotInv;
    hide G.CurrentInv;
    hide G.EntriesInv;
    hide G.SessionInv;
    hide G.PostedInv;
    WriteRefines(y, y.tracks[g], G.Choice(ChoiceOf(sent, retMasks), g), retMasks[g]);
  }

  /** The ghosts the object chose are a choice the system allows, and it then does the same: the
      records become the next state's, and the entries written are those on the wires. */
  lemma WritePacketRefines(y: G.System, rs: seq<GC.Record>, rs': seq<GC.Record>, sent: seq<nat>,
                           entries: map<nat, Entry>, room: nat, retMasks: seq<set<nat>>)
    requires G.Inv(y) && y.ghosting && G.C.CanSend(y.c) && Represents(rs, y) && |rs'| == |retMasks| == MAX_GHOSTS
    requires forall g :: 0 <= g < MAX_GHOSTS && y.tracks[g].info.inUse ==> retMasks[g] <= y.tracks[g].info.updateMask
    requires GC.Chosen(sent, GC.Prepared(rs, true), room)
    requires forall g :: 0 <= g < MAX_GHOSTS ==>
      rs'[g] == GC.Written(GC.Prepared(rs, true)[g], g in sent, retMasks[g], |y.c.sent|)
    requires forall g :: 0 <= g < MAX_GHOSTS && g in sent ==>
      g in entries && entries[g] == GC.SentEntry(GC.Prepared(rs, true)[g].info, y.objects, retMasks[g])
    ensures G.Enabled(y, ChoiceOf(sent, retMasks)) && Represents(rs', G.Act(y, ChoiceOf(sent, retMasks)))
    ensures var y' := G.Act(y, ChoiceOf(sent, retMasks));
      forall g :: 0 <= g < MAX_GHOSTS ==>
        y'.tracks[g].wire == y.tracks[g].wire + [if g in sent then Some(entries[g]) else None]
  {
    ChoiceEnabled(y, rs, sent, room, retMasks);
    hide G.Inv;
    hide G.ActSlot;
    hide G.Enabled;
    hide GC.Written;
    var act := ChoiceOf(sent, retMasks);
    forall g: nat | g < MAX_GHOSTS
      ensures rs'[g] == RecordOf(G.ActSlot(y, act, g))
      ensures G.ActSlot(y, act, g).wire == y.tracks[g].wire + [if g in sent then Some(entries[g]) else None]
    {
      SlotWritten(y, rs, sent, retMasks, g);
    }
  }

  lemma ColumnCleared(queue: seq<map<nat, GhostRef>>, g: nat, j: nat)
    requires j < |queue|
    ensures GC.Column(queue[j := map[]], g) == GC.Column(queue, g)[j := None]
  {
  }

  /** packetReceived and packetDropped can run for the oldest packet and do the system's step. */
  lemma NotifyRefines(t: Track, infos: seq<GhostInfo>, queue: seq<map<nat, GhostRef>>, g: nat)
    requires SlotInv(t) && t.notified < t.cursor && g < |infos| == MAX_GHOSTS
    requires t.info == infos[g] && t.refs == GC.Column(queue, g)
    ensures t.notified < |queue| && RecordOf(Notify(t)).refs == GC.Column(queue[t.notified := map[]], g)
    ensures g in queue[t.notified] ==> GC.Settled(infos, g, queue[t.notified][g], t.notified)
    ensures t.notified in t.read ==>
      Notify(t).info == if g in queue[t.notified] then Received(t.info, queue[t.notified][g], t.notified) else t.info
    ensures t.notified !in t.read ==> Notify(t).info == GC.AfterDrop(t.info, queue, g, t.notified)
  {
    var j := t.notified;
    ColumnCleared(queue, g, j);
    assert t.refs[j].Some? <==> g in queue[j];
    assert g in queue[j] ==> t.info.inUse;
    hide WireInv;
    hide IdentityInv;
    hide WalkChain;
  }

  // ----- the steps that send nothing -----

  /** The records before and after a step, slot by slot, as the system has them. */
  lemma StepRefines(y: G.System, act: G.Action, rs': seq<GC.Record>)
    requires G.Inv(y) && G.Enabled(y, act) && |rs'| == MAX_GHOSTS
    requires forall g :: 0 <= g < MAX_GHOSTS ==> rs'[g] == RecordOf(G.ActSlot(y, act, g))
    ensures Represents(rs', G.Act(y, act))
  {
    hide G.Act;
    hide G.ActSlot;
    hide G.Inv;
    hide G.Enabled;
    G.TracksAre(y, act);
  }

  /** An object found in scope: objectInScope's choice of a ghost is one the system allows. */
  lemma ScopeRefines(y: G.System, rs: seq<GC.Record>, rs': seq<GC.Record>, o: nat, g: nat)
    requires G.Inv(y) && y.scoping && o in y.objects && Represents(rs, y) && |rs'| == MAX_GHOSTS && g < MAX_GHOSTS
    requires forall h :: 0 <= h < MAX_GHOSTS ==> rs'[h].refs == rs[h].refs
    requires forall h :: 0 <= h < MAX_GHOSTS && h != g ==> rs'[h].info == rs[h].info
    requires if rs[g].info.inUse then (
        rs[g].info.obj == Some(o) && rs'[g].info == rs[g].info.(inScope := true)
      ) else (
        && rs'[g].info == NewInfo(o)
        && forall h :: 0 <= h < MAX_GHOSTS && rs[h].info.inUse ==> rs[h].info.obj != Some(o)
      )
    ensures G.Enabled(y, G.ObjectInScope(o, g)) && Represents(rs', G.Act(y, G.ObjectInScope(o, g)))
  {
    var act := G.ObjectInScope(o, g);
    forall h: nat | h < MAX_GHOSTS ensures rs[h] == RecordOf(y.tracks[h]) { }
    hide G.Inv;
    assert G.Enabled(y, act);
    StepRefines(y, act, rs');
  }

  lemma ClearScopeRefines(y: G.System, rs: seq<GC.Record>, rs': seq<GC.Record>, always: set<nat>)
    requires G.Inv(y) && Represents(rs, y) && |rs'| == MAX_GHOSTS
    requires forall g :: 0 <= g < MAX_GHOSTS ==>
      rs'[g] ==
        if rs[g].info.updateMask != {} && g !in always then rs[g].(info := rs[g].info.(inScope := false)) else rs[g]
    ensures G.Enabled(y, G.ClearScope(always)) && Represents(rs', G.Act(y, G.ClearScope(always)))
  {
    forall h: nat | h < MAX_GHOSTS ensures rs[h] == RecordOf(y.tracks[h]) { }
    hide G.Inv;
    StepRefines(y, G.ClearScope(always), rs');
  }

  /** The bits that have changed in the objects of the system. */
  ghost function DirtyOf(y: G.System): map<nat, set<nat>> { map o | o in y.objects :: y.objects[o].dirty }

  lemma CollapseRefines(y: G.System, rs: seq<GC.Record>, rs': seq<GC.Record>)
    requires G.Inv(y) && Represents(rs, y) && |rs'| == MAX_GHOSTS
    requires forall g :: 0 <= g < MAX_GHOSTS ==>
      rs'[g] == rs[g].(info := GC.Dirtied(rs[g].info, DirtyOf(y), DirtyOf(y).Keys))
    ensures G.Enabled(y, G.CollapseDirtyList) && Represents(rs', G.Act(y, G.CollapseDirtyList))
  {
    forall h: nat | h < MAX_GHOSTS ensures rs[h] == RecordOf(y.tracks[h]) { }
    hide G.SlotsInv;
    hide G.EntriesInv;
    hide G.SessionInv;
    hide G.PostedInv;
    hide G.CurrentInv;
    StepRefines(y, G.CollapseDirtyList, rs');
  }

  lemma DestroyRefines(y: G.System, rs: seq<GC.Record>, rs': seq<GC.Record>, o: nat)
    requires G.Inv(y) && o in y.objects && Represents(rs, y) && |rs'| == MAX_GHOSTS
    requires forall g :: 0 <= g < MAX_GHOSTS ==>
      rs'[g] == if rs[g].info.inUse && rs[g].info.obj == Some(o) then rs[g].(info := Detach(rs[g].info)) else rs[g]
    ensures G.Enabled(y, G.DestroyObject(o)) && Represents(rs', G.Act(y, G.DestroyObject(o)))
  {
    forall h: nat | h < MAX_GHOSTS ensures rs[h] == RecordOf(y.tracks[h]) { }
    hide G.Inv;
    StepRefines(y, G.DestroyObject(o), rs');
  }

  /** Other actions leave the server's records alone. */
  lemma RestRefines(y: G.System, act: G.Action, rs: seq<GC.Record>)
    requires G.Inv(y) && G.Enabled(y, act) && Represents(rs, y)
    requires act.ChangeState? || act.CreateObject? || act.ReadPacket? || act.PassOver? || act.ActivateGhosting?
      || act.ReadyForNormalGhosts?
    ensures Represents(rs, G.Act(y, act))
  {
    forall h: nat | h < MAX_GHOSTS ensures rs[h] == RecordOf(y.tracks[h]) { }
    StepRefines(y, act, rs);
  }

  lemma EmptyColumn(queue: seq<map<nat, GhostRef>>, g: nat)
    requires forall j :: 0 <= j < |queue| ==> queue[j] == map[]
    ensures GC.Column(queue, g) == seq(|queue|, _ => None)
  {
  }

  /** resetGhosting frees every structure and empties the records of every packet. */
  lemma ResetRefines(y: G.System, rs: seq<GC.Record>, rs': seq<GC.Record>, queue: seq<map<nat, GhostRef>>)
    requires G.Inv(y) && Represents(rs, y) && |rs'| == MAX_GHOSTS
    requires forall j :: 0 <= j < |queue| ==> queue[j] == map[]
    requires forall g :: 0 <= g < MAX_GHOSTS ==>
      rs'[g] == GC.Record(ClearedInfo(rs[g].info), GC.Column(queue, g)) && |rs[g].refs| == |queue|
    ensures G.Enabled(y, G.ResetGhosting) && Represents(rs', G.Act(y, G.ResetGhosting))
  {
    forall h: nat | h < MAX_GHOSTS ensures rs[h] == RecordOf(y.tracks[h]) { }
    forall h: nat | h < MAX_GHOSTS ensures GC.Column(queue, h) == seq(|queue|, _ => None) { EmptyColumn(queue, h); }
    hide G.Inv;
    StepRefines(y, G.ResetGhosting, rs');
  }
}
