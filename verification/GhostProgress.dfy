/** What ghosting must do, as against what it must not: a session comes up once its calls are read
    and answered, an object in scope arrives, and one that leaves scope is taken away. */
module GhostProgress {
  import opened Wrappers
  import opened GhostProtocol
  import opened GhostSlot
  import opened GhostSystem

  /** A run goes on with a step that is enabled. */
  lemma Goes(run: seq<Action>, act: Action)
    requires Possible(run) && Enabled(After(run), act)
    ensures Possible(run + [act]) && After(run + [act]) == Act(After(run), act)
  {
    hide Act;
    hide Enabled;
    assert (run + [act])[..|run + [act]| - 1] == run;
  }

  // ----- sessions -----

  ghost predicate CallsInv(y: System) {
    && y.sequence == |y.rpcs|
    && (forall k :: 0 <= k < |y.rpcs| && y.rpcs[k].StartGhosting? ==> y.rpcs[k].sequence == k + 1)
    && (y.scoping <==> y.rpcs != [] && y.rpcs[|y.rpcs| - 1].StartGhosting?)
    && (y.ghosting ==> y.scoping)
    && y.rpcsDone <= |y.rpcs| && y.readyDone <= |y.ready|
    && (y.scoping && y.rpcsDone == |y.rpcs| ==> y.ghosting || y.sequence in y.ready[y.readyDone..])
  }

  /** The starts among some calls include the last call if it is one. */
  lemma {:induction false} StartsLast(rpcs: seq<Rpc>)
    requires rpcs != [] && rpcs[|rpcs| - 1].StartGhosting?
    ensures rpcs[|rpcs| - 1].sequence in Starts(rpcs)
  {
    if |rpcs| > 1 { StartsLast(rpcs[1..]); }
  }

  lemma ReadyCurrent(y: System)
    requires CallsInv(y) && SessionInv(y) && y.readyDone < |y.ready| && y.ready[y.readyDone] == y.sequence
    ensures y.scoping
  {
    assert Answered(y, y.ready[y.readyDone]);
  }

  lemma ReadCalls(y: System, i: nat, upTo: nat)
    requires Inv(y) && CallsInv(y) && Enabled(y, ReadPacket(i, upTo))
    ensures CallsInv(Act(y, ReadPacket(i, upTo)))
  {
    hide Inv;
    hide ActSlot;
    hide Starts;
    var y' := Act(y, ReadPacket(i, upTo));
    var calls := y.rpcs[y.rpcsDone..upTo];
    assert y'.ready[y.readyDone..] == y.ready[y.readyDone..] + Starts(calls);
    if y.scoping && upTo == |y.rpcs| {
      if y.rpcsDone < upTo { StartsLast(calls); }
    }
  }

  lemma ReadyCalls(y: System)
    requires Inv(y) && CallsInv(y) && Enabled(y, ReadyForNormalGhosts)
    ensures CallsInv(Act(y, ReadyForNormalGhosts))
  {
    assert SessionInv(y);
    hide Inv;
    hide ActSlot;
    if y.ready[y.readyDone] == y.sequence { ReadyCurrent(y); }
    hide SessionInv;
    assert y.ready[y.readyDone..] == [y.ready[y.readyDone]] + y.ready[y.readyDone + 1..];
  }

  lemma CallsKept(y: System, act: Action)
    requires Inv(y) && Enabled(y, act) && CallsInv(y)
    ensures CallsInv(Act(y, act))
  {
    hide ActSlot;
    hide Inv;
    match act
    case ReadPacket(i, upTo) => ReadCalls(y, i, upTo);
    case ReadyForNormalGhosts => ReadyCalls(y);
    case _ =>
  }

  lemma {:induction false} RunCalls(run: seq<Action>)
    requires Possible(run)
    ensures CallsInv(After(run))
  {
    if run != [] {
      RunCalls(run[..|run| - 1]);
      CallsKept(After(run[..|run| - 1]), run[|run| - 1]);
      hide Act;
      hide CallsInv;
      hide Inv;
    }
  }

  /** Objects can come into scope exactly if the last call posted starts a session; each start has
      the next number; and once all calls are read and all answers taken, ghosting is on. */
  lemma SessionComesUp(run: seq<Action>)
    requires Possible(run)
    ensures var y := After(run);
      && (y.scoping <==> y.rpcs != [] && y.rpcs[|y.rpcs| - 1].StartGhosting?)
      && (forall k :: 0 <= k < |y.rpcs| && y.rpcs[k].StartGhosting? ==> y.rpcs[k].sequence == k + 1)
      && (y.ghosting ==> y.scoping)
      && (y.rpcsDone == |y.rpcs| && y.readyDone == |y.ready| ==> (y.ghosting <==> y.scoping))
  {
    RunCalls(run);
    hide Possible;
    hide After;
  }

  // ----- leaving scope -----

  /** In a packet of an active session, a pending ghost out of scope is cut off from its object; it, or
      another to be killed, is freed if it was never sent, and is a kill if sent.  One in scope and not
      to be killed keeps its object and if sent is an update.  So afterwards no ghost out of scope
      waits with its object. */
  lemma OutOfScopeLeaves(run: seq<Action>, chosen: map<nat, set<nat>>, g: nat)
    requires Possible(run) && g < MAX_GHOSTS && After(run).ghosting
    requires Enabled(After(run), WritePacket(true, chosen))
    ensures Possible(run + [WritePacket(true, chosen)])
    ensures var t, t' := After(run).tracks[g], After(run + [WritePacket(true, chosen)]).tracks[g];
      && (t'.info.inUse && t'.info.obj.Some? && t'.info.updateMask != {} ==> t'.info.inScope)
      && |t'.wire| == |t.wire| + 1 && t'.wire[..|t.wire|] == t.wire
      && (g !in chosen ==> t'.wire[|t.wire|] == None)
      && (t.info.updateMask != {} && !t.info.inScope ==> t'.info.obj == None)
      && (t.info.updateMask != {} && (t.info.killGhost || !t.info.inScope) ==>
           && (t.info.notYetGhosted ==> !t'.info.inUse && g !in chosen)
           && (g in chosen ==> t'.wire[|t.wire|] == Some(Kill)))
      && (t.info.updateMask != {} && t.info.inScope && !t.info.killGhost ==>
           && t'.info.inUse && t'.info.obj == t.info.obj
           && (g in chosen ==> t'.wire[|t.wire|].Some? && t'.wire[|t.wire|].value.Update?))
  {
    hide Possible;
    hide After;
    hide Act;
    hide WriteSlot;
    hide SlotInv;
    hide CurrentInv;
    hide EntriesInv;
    hide SessionInv;
    hide PostedInv;
    var act := WritePacket(true, chosen);
    Goes(run, act);
    var y := After(run);
    TracksAre(y, act);
    WriteSlotLeaves(y, y.tracks[g], Choice(act, g));
  }

  lemma WriteSlotLeaves(y: System, t: Track, chosen: Option<set<nat>>)
    requires SlotInv(t) && (forall o :: o in y.objects ==> |y.objects[o].version| == BITS)
    requires chosen.Some? ==> CanChoose(Prepared(t), chosen.value)
    ensures var t' := WriteSlot(y, t, chosen);
      && (t'.info.inUse && t'.info.obj.Some? && t'.info.updateMask != {} ==> t'.info.inScope)
      && |t'.wire| == |t.wire| + 1 && t'.wire[..|t.wire|] == t.wire
      && (chosen.None? ==> t'.wire[|t.wire|] == None)
      && (t.info.updateMask != {} && !t.info.inScope ==> t'.info.obj == None)
      && (t.info.updateMask != {} && (t.info.killGhost || !t.info.inScope) ==>
           && (t.info.notYetGhosted ==> !t'.info.inUse && chosen.None?)
           && (chosen.Some? ==> t'.wire[|t.wire|] == Some(Kill)))
      && (t.info.updateMask != {} && t.info.inScope && !t.info.killGhost ==>
           && t'.info.inUse && t'.info.obj == t.info.obj
           && (chosen.Some? ==> t'.wire[|t.wire|].Some? && t'.wire[|t.wire|].value.Update?))
  {
    PrepareKeepsSlot(t);
    hide WireInv;
    hide RefsInv;
    hide ChainInv;
    hide StageInv;
    hide IdentityInv;
  }

  /** When an object is destroyed its ghost is cut off from it and marked to be killed. */
  lemma DestroyedLeaves(run: seq<Action>, o: nat, g: nat)
    requires Possible(run) && g < MAX_GHOSTS && o in After(run).objects
    ensures Possible(run + [DestroyObject(o)]) && o !in After(run + [DestroyObject(o)]).objects
    ensures var i, i' := After(run).tracks[g].info, After(run + [DestroyObject(o)]).tracks[g].info;
      if i.inUse && i.obj == Some(o) then i'.inUse && i'.obj == None && i'.killGhost && i'.updateMask != {} else i' == i
  {
    hide Possible;
    hide After;
    assert IsBit(0) && 0 in AllBits();
    Goes(run, DestroyObject(o));
    TracksAre(After(run), DestroyObject(o));
    hide Inv;
  }

  /** Ending the session frees every slot and forgets all that is in flight, so that the next session
      can be started at once. */
  lemma ResetFrees(run: seq<Action>, g: nat, j: nat)
    requires Possible(run) && g < MAX_GHOSTS
    ensures Possible(run + [ResetGhosting]) && Enabled(After(run + [ResetGhosting]), ActivateGhosting)
    ensures var y' := After(run + [ResetGhosting]);
      && !y'.ghosting && !y'.scoping && !y'.tracks[g].info.inUse && y'.tracks[g].info.updateMask == {}
      && (j < |y'.tracks[g].refs| ==> y'.tracks[g].refs[j].None?)
  {
    hide Possible;
    hide After;
    Goes(run, ResetGhosting);
    TracksAre(After(run), ResetGhosting);
    var y := After(run);
    forall h: nat | h < MAX_GHOSTS ensures !ActSlot(y, ResetGhosting, h).info.inUse
      && ActSlot(y, ResetGhosting, h).info.updateMask == {}
    {
      UnusedUnmarked(y, h);
    }
    hide Inv;
  }

  lemma UnusedUnmarked(y: System, g: nat)
    requires Inv(y) && g < MAX_GHOSTS
    ensures !y.tracks[g].info.inUse ==> y.tracks[g].info.updateMask == {}
  {
    assert SlotInv(y.tracks[g]) || IdleSlot(y.tracks[g]);
  }

  // ----- reports -----

  /** The report of a packet that carried a ghost: its creation is done or to be done again, its
      removal frees the slot or is to be done again, and of a lost packet just the bits that no later
      one carries are marked. */
  lemma ReportActs(run: seq<Action>, g: nat)
    requires Possible(run) && g < MAX_GHOSTS && Enabled(After(run), NotifyOldest)
    requires var t := After(run).tracks[g]; t.notified < |t.refs| && t.refs[t.notified].Some?
    ensures Possible(run + [NotifyOldest])
    ensures var t, i := After(run).tracks[g], After(run + [NotifyOldest]).tracks[g].info;
      var r := t.refs[t.notified].value;
      && (t.notified in t.read ==>
           && (r.kind.GhostingRef? ==> i.inUse && !i.ghosting && !i.notYetGhosted)
           && (r.kind.KillingRef? ==> !i.inUse)
           && (!r.kind.KillingRef? ==> i.updateMask == t.info.updateMask))
      && (t.notified !in t.read ==>
           && i.inUse
           && (r.kind.GhostingRef? ==> i.notYetGhosted && !i.ghosting)
           && (r.kind.KillingRef? ==> i.killGhost && !i.killingGhost)
           && (forall b :: b in i.updateMask <==>
                b in t.info.updateMask
                  || (b in r.mask && forall k :: t.notified < k < |t.refs| && t.refs[k].Some? ==>
                        b !in t.refs[k].value.mask)))
  {
    hide Possible;
    hide After;
    hide Notify;
    hide Act;
    hide SlotInv;
    Goes(run, NotifyOldest);
    InFlightActive(After(run), g);
    TracksAre(After(run), NotifyOldest);
    NotifyActs(After(run).tracks[g]);
  }

  /** A slot with something in flight is in an active session. */
  lemma InFlightActive(y: System, g: nat)
    requires Inv(y) && g < MAX_GHOSTS && Enabled(y, NotifyOldest)
    requires var t := y.tracks[g]; t.notified < |t.refs| && t.refs[t.notified].Some?
    ensures SlotInv(y.tracks[g]) && y.tracks[g].notified < y.tracks[g].cursor
  {
    assert Follows(y.tracks[g], y.c);
    hide SlotInv;
  }

  lemma NotifyActs(t: Track)
    requires SlotInv(t) && t.notified < t.cursor && t.refs[t.notified].Some?
    ensures var i := Notify(t).info;
      var r := t.refs[t.notified].value;
      && (t.notified in t.read ==>
           && (r.kind.GhostingRef? ==> i.inUse && !i.ghosting && !i.notYetGhosted)
           && (r.kind.KillingRef? ==> !i.inUse)
           && (!r.kind.KillingRef? ==> i.updateMask == t.info.updateMask))
      && (t.notified !in t.read ==>
           && i.inUse
           && (r.kind.GhostingRef? ==> i.notYetGhosted && !i.ghosting)
           && (r.kind.KillingRef? ==> i.killGhost && !i.killingGhost)
           && (forall b :: b in i.updateMask <==>
                b in t.info.updateMask
                  || (b in r.mask && forall k :: t.notified < k < |t.refs| && t.refs[k].Some? ==>
                        b !in t.refs[k].value.mask)))
  {
    var r := t.refs[t.notified].value;
    forall b ensures b in WalkChain(t.refs, r.mask, r.updateChain) <==>
        b in r.mask && forall k :: t.notified < k < |t.refs| && t.refs[k].Some? ==> b !in t.refs[k].value.mask
    {
      WalkRemovesLater(t.info, t.refs, r.mask, t.notified, b);
    }
    hide WireInv;
    hide IdentityInv;
    hide WalkChain;
  }

  /** In an active session, a slot in use of which nothing is in flight waits for nothing: either it
      is pending and can be sent in the next packet, or the client has its object. */
  lemma NothingStuck(run: seq<Action>, g: nat)
    requires Possible(run) && g < MAX_GHOSTS && After(run).ghosting && After(run).tracks[g].info.inUse
    requires forall j :: 0 <= j < |After(run).tracks[g].refs| ==> After(run).tracks[g].refs[j].None?
    ensures var t := After(run).tracks[g];
      && !t.info.ghosting && !t.info.killingGhost
      && (t.info.updateMask == {} ==> t.info.obj.Some? && t.local.Ghost? && t.local.obj == t.info.obj.value)
  {
    hide Possible;
    hide After;
    hide SlotInv;
    assert SlotsInv(After(run));
    QuietFlags(After(run).tracks[g]);
  }

  lemma QuietFlags(t: Track)
    requires SlotInv(t) && t.info.inUse && forall j :: 0 <= j < |t.refs| ==> t.refs[j].None?
    ensures !t.info.ghosting && !t.info.killingGhost
    ensures t.info.updateMask == {} ==> t.info.obj.Some? && t.local.Ghost? && t.local.obj == t.info.obj.value
  {
    assert IsBit(0) && 0 in AllBits();
    hide WireInv;
    hide RefsInv;
  }
}
