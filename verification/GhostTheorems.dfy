/** What ghosting guarantees in every reachable state, whatever packets are lost, objects change,
    slots are reused and sessions are reset and started. */
module GhostTheorems {
  import opened Wrappers
  import opened GhostProtocol
  import opened GhostSlot
  import opened GhostSystem

  /** Slot agreement: when the client reads a packet, its slot is empty exactly if the server wrote
      a class id, and a kill or a plain update finds a ghost. */
  lemma SlotAgreement(run: seq<Action>, i: nat, upTo: nat, g: nat)
    requires Possible(run) && Enabled(After(run), ReadPacket(i, upTo)) && g < MAX_GHOSTS
    requires i < |After(run).tracks[g].wire| && After(run).tracks[g].wire[i].Some?
    ensures var y := After(run);
      var local := Emptied(y.tracks[g], EndsSession(y.rpcs, y.rpcsDone, upTo)).local;
      var e := y.tracks[g].wire[i].value;
      && (Creates(e) <==> local.Empty?)
      && (e.Kill? || Plain(e) ==> local.Ghost?)
      && ActSlot(y, ReadPacket(i, upTo), g).local == ReadEntry(local, e)
      && !ReadEntry(local, e).Desynchronised?
  {
    hide After;
    hide Possible;
    hide CurrentInv;
    hide ObjectsInv;
    hide EntriesInv;
    hide SessionInv;
    hide PostedInv;
    var y := After(run);
    var t := y.tracks[g];
    assert Follows(t, y.c);
    SlotKept(y, ReadPacket(i, upTo), g);
    ReadsInAgreement(Emptied(t, EndsSession(y.rpcs, y.rpcsDone, upTo)), i);
  }

  /** Reading an entry is in agreement if the slot is so afterwards. */
  lemma ReadsInAgreement(t: Track, i: nat)
    requires i < |t.wire| && t.wire[i].Some? && !Read(t, i).local.Desynchronised?
    ensures var e := t.wire[i].value;
      (Creates(e) <==> t.local.Empty?) && (e.Kill? || Plain(e) ==> t.local.Ghost?)
  {
  }

  /** The client never holds a slot out of step with what the server wrote. */
  lemma NeverDesynchronised(run: seq<Action>, g: nat)
    requires Possible(run) && g < MAX_GHOSTS
    ensures !After(run).tracks[g].local.Desynchronised?
  {
    assert Inv(After(run));
    hide After;
  }

  /** Most recent state: of every object with a ghost, each bit is still marked, or the newest
      packet in flight with it carries the current version, or the client holds that already. */
  lemma MostRecentState(run: seq<Action>, g: nat, b: nat)
    requires Possible(run) && g < MAX_GHOSTS && b in AllBits()
    requires var i := After(run).tracks[g].info; i.inUse && i.obj.Some?
    ensures var y := After(run); var t := y.tracks[g]; var o := t.info.obj.value;
      && o in y.objects && |y.objects[o].version| == BITS
      && BitCurrent(t, y.objects[o], b)
      && (y.ghosting && t.local.Ghost? ==> t.local.obj == o)
      && (forall h :: 0 <= h < MAX_GHOSTS && h != g && y.tracks[h].info.inUse ==> y.tracks[h].info.obj != Some(o))
  {
    assert Inv(After(run)) && b < BITS;
    hide After;
    hide EntriesInv;
    hide SessionInv;
    hide PostedInv;
    hide BitCurrent;
  }

  /** Once everything sent of a ghost is reported and nothing is marked, the client has the object
      exactly as it is. */
  lemma Settled(run: seq<Action>, g: nat)
    requires Possible(run) && g < MAX_GHOSTS
    requires var y := After(run); var t := y.tracks[g];
      && t.info.inUse && t.info.obj.Some? && t.info.updateMask == {}
      && (t.info.obj.value in y.objects ==> y.objects[t.info.obj.value].dirty == {})
      && forall j :: 0 <= j < |t.refs| ==> t.refs[j].None?
    ensures var y := After(run); var o := y.tracks[g].info.obj.value;
      o in y.objects && y.tracks[g].local == Ghost(o, y.objects[o].version)
  {
    hide After;
    hide Possible;
    hide EntriesInv;
    hide SessionInv;
    hide PostedInv;
    hide DistinctInv;
    hide SlotInv;
    hide IdleSlot;
    hide Current;
    var y := After(run);
    var t := y.tracks[g];
    assert if y.ghosting then SlotInv(t) else IdleSlot(t);
    QuietSlot(t);
    QuietObject(t, y.objects[t.info.obj.value]);
  }

  /** A slot of which nothing is marked and nothing is in flight. */
  lemma QuietSlot(t: Track)
    requires SlotInv(t) || IdleSlot(t)
    requires t.info.inUse && t.info.obj.Some? && t.info.updateMask == {}
    requires forall j :: 0 <= j < |t.refs| ==> t.refs[j].None?
    ensures SlotInv(t) && t.local.Ghost? && t.local.obj == t.info.obj.value && |t.local.version| == BITS
  {
    assert IsBit(0) && 0 in AllBits();
  }

  lemma QuietObject(t: Track, o: Object)
    requires Current(t, o) && t.local.Ghost? && |t.local.version| == |o.version| == BITS
    requires t.info.updateMask == {} && o.dirty == {} && forall j :: 0 <= j < |t.refs| ==> t.refs[j].None?
    ensures t.local.version == o.version
  {
    forall b | 0 <= b < BITS ensures t.local.version[b] == o.version[b] {
      assert IsBit(b) && b in AllBits();
      assert BitCurrent(t, o, b);
      assert forall j :: !Carries(t, j, b);
    }
  }

  /** The chains of update records lead only to records that still exist. */
  lemma ChainsLand(run: seq<Action>, g: nat, j: nat)
    requires Possible(run) && g < MAX_GHOSTS
    ensures var t := After(run).tracks[g];
      && Lands(t.refs, -1, t.info.lastUpdateChain)
      && (j < |t.refs| && t.refs[j].Some? ==> Lands(t.refs, j, t.refs[j].value.updateChain))
  {
    var y := After(run);
    assert if y.ghosting then SlotInv(y.tracks[g]) else IdleSlot(y.tracks[g]);
    hide After;
  }
}
