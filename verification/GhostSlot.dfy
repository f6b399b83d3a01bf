/** What holds of one ghost slot throughout a ghosting session, step by step. */
module GhostSlot {
  import opened Wrappers
  import opened GhostProtocol

  ghost predicate Shape(t: Track) {
    && |t.refs| == |t.wire|
    && t.notified <= t.cursor <= |t.wire|
    && (forall j :: j in t.read ==> j < t.cursor)
    && (t.local.Ghost? ==> |t.local.version| == BITS)
  }

  ghost predicate Creates(e: Entry) { e.Update? && e.classId.Some? }
  ghost predicate Plain(e: Entry) { e.Update? && e.classId.None? }

  /** Whichever of the packets that can still be read are read, the client's slot is empty exactly
      when an initial update comes, and a kill or a plain update finds a ghost. */
  ghost predicate WireInv(wire: seq<Option<Entry>>, cursor: nat, local: ClientSlot) {
    && !local.Desynchronised?
    && (forall j :: cursor <= j < |wire| && wire[j].Some? ==> (Creates(wire[j].value) <==> local.Empty?))
    && (forall j, k :: cursor <= j < k < |wire| && wire[j].Some? && wire[k].Some? ==>
          Plain(wire[j].value) && !Creates(wire[k].value))
  }

  ghost predicate FlagsInv(info: GhostInfo) {
    && info.updateMask <= AllBits()
    && (!info.inUse ==> info.updateMask == {} && info.lastUpdateChain.None?)
    && (info.inUse ==>
          && !(info.notYetGhosted && info.ghosting) && !(info.notYetGhosted && info.killingGhost)
          && !(info.ghosting && info.killingGhost)
          && (info.notYetGhosted ==> info.updateMask == AllBits())
          && (info.killGhost ==> info.updateMask != {})
          && (info.obj.None? <==> info.killGhost || info.killingGhost))
  }

  ghost predicate Matches(r: GhostRef, e: Entry) {
    && r.mask <= AllBits()
    && match r.kind
       case KillingRef => e.Kill? && r.mask != {}
       case GhostingRef => Creates(e) && e.data.Keys == r.mask
       case PlainRef => Plain(e) && e.data.Keys == r.mask
  }

  /** The records in flight are those of the entries on the wire. */
  ghost predicate RefsInv(refs: seq<Option<GhostRef>>, wire: seq<Option<Entry>>, notified: nat, cursor: nat)
    requires |refs| == |wire|
  {
    && (forall j :: 0 <= j < |refs| && refs[j].Some? ==>
          notified <= j && wire[j].Some? && Matches(refs[j].value, wire[j].value))
    && (forall j :: cursor <= j < |wire| && wire[j].Some? ==> refs[j].Some?)
  }

  /** Each record is chained to the next one of the slot, and lastUpdateChain is the newest. */
  ghost predicate ChainInv(info: GhostInfo, refs: seq<Option<GhostRef>>) {
    && Chained(refs)
    && Lands(refs, -1, info.lastUpdateChain)
    && (forall j, k :: 0 <= j < k < |refs| && refs[j].Some? && refs[k].Some? ==>
          refs[j].value.updateChain.Some? && refs[j].value.updateChain.value <= k)
    && (forall j :: 0 <= j < |refs| && refs[j].Some? ==> info.lastUpdateChain.Some? && j <= info.lastUpdateChain.value)
    && (info.lastUpdateChain.Some? ==> refs[info.lastUpdateChain.value].value.updateChain.None?)
  }

  /** What the flags say of the client's slot and of the packets in flight. */
  ghost predicate StageInv(i: GhostInfo, refs: seq<Option<GhostRef>>, local: ClientSlot, read: set<nat>) {
    if !i.inUse || i.notYetGhosted then
      local.Empty? && forall j :: 0 <= j < |refs| ==> refs[j].None?
    else if i.ghosting then
      && i.lastUpdateChain.Some?
      && (forall j :: 0 <= j < |refs| && refs[j].Some? ==>
            && refs[j].value.kind.GhostingRef? && i.lastUpdateChain == Some(j) && (local.Ghost? <==> j in read)
            && i.updateMask + refs[j].value.mask == AllBits())
    else if i.killingGhost then
      && i.lastUpdateChain.Some?
      && (local.Empty? <==> i.lastUpdateChain.value in read)
      && (forall j :: 0 <= j < |refs| && refs[j].Some? ==>
            if i.lastUpdateChain == Some(j) then refs[j].value.kind.KillingRef? else refs[j].value.kind.PlainRef?)
    else
      local.Ghost? && forall j :: 0 <= j < |refs| && refs[j].Some? ==> refs[j].value.kind.PlainRef?
  }

  /** The client's ghost, present or on its way, is of the server's object. */
  ghost predicate IdentityInv(i: GhostInfo, refs: seq<Option<GhostRef>>, wire: seq<Option<Entry>>, local: ClientSlot)
    requires |refs| == |wire|
  {
    i.inUse && i.obj.Some? ==>
      && (local.Ghost? ==> local.obj == i.obj.value)
      && (forall j :: 0 <= j < |refs| && refs[j].Some? && wire[j].Some? && Creates(wire[j].value) ==>
           wire[j].value.classId == i.obj)
  }

  // ----- most recent state -----

  ghost predicate Carries(t: Track, j: int, b: nat) {
    0 <= j < |t.refs| && t.refs[j].Some? && b in t.refs[j].value.mask
  }

  ghost predicate Newest(t: Track, j: int, b: nat) {
    Carries(t, j, b) && forall k :: Carries(t, k, b) ==> k <= j
  }

  ghost predicate ClientHas(local: ClientSlot, b: nat, v: nat) {
    local.Ghost? && b < |local.version| && local.version[b] == v
  }

  /** Bit b of the object is marked for sending, or the newest packet in flight with it carries its
      current version and the client has that once it has read the packet, or no packet in flight
      has it and the client holds the current version. */
  ghost predicate BitCurrent(t: Track, o: Object, b: nat)
    requires b < |o.version|
  {
    || b in o.dirty
    || b in t.info.updateMask
    || ((forall j :: Newest(t, j, b) ==>
           && j < |t.wire| && t.wire[j].Some? && t.wire[j].value.Update? && b in t.wire[j].value.data
           && t.wire[j].value.data[b] == o.version[b]
           && (j in t.read ==> ClientHas(t.local, b, o.version[b])))
        && ((forall j :: !Carries(t, j, b)) ==> ClientHas(t.local, b, o.version[b])))
  }

  ghost predicate Current(t: Track, o: Object) {
    |o.version| == BITS && forall b :: b in AllBits() ==> BitCurrent(t, o, b)
  }

  ghost predicate SlotInv(t: Track) {
    && Shape(t)
    && WireInv(t.wire, t.cursor, t.local)
    && FlagsInv(t.info)
    && RefsInv(t.refs, t.wire, t.notified, t.cursor)
    && ChainInv(t.info, t.refs)
    && StageInv(t.info, t.refs, t.local, t.read)
    && IdentityInv(t.info, t.refs, t.wire, t.local)
  }

  // ----- reading -----

  ghost predicate Agrees(t: Track) { Shape(t) && WireInv(t.wire, t.cursor, t.local) }

  /** Agreement between the wire and the client needs nothing of the server. */
  lemma ReadKeepsAgreement(t: Track, i: nat)
    requires Agrees(t) && t.cursor <= i < |t.wire|
    ensures Agrees(Read(t, i))
  {
  }

  lemma ReadKeepsSlot(t: Track, i: nat)
    requires SlotInv(t) && t.cursor <= i < |t.wire|
    ensures SlotInv(Read(t, i))
  {
    ReadKeepsAgreement(t, i);
  }

  lemma SkipKeepsSlot(t: Track, i: nat)
    requires SlotInv(t) && t.cursor <= i <= |t.wire|
    ensures SlotInv(Skip(t, i))
  {
  }

  // ----- sending -----

  lemma OmitKeepsSlot(t: Track)
    requires SlotInv(t)
    ensures SlotInv(Omit(t))
  {
    hide FlagsInv;
    hide Matches;
    hide Creates;
    hide Plain;
    OmitKeepsWire(t);
    hide WireInv;
  }

  lemma OmitKeepsWire(t: Track)
    requires |t.refs| == |t.wire| && WireInv(t.wire, t.cursor, t.local)
    ensures WireInv(Omit(t).wire, t.cursor, t.local)
  {
  }

  lemma LinkedChain(t: Track, j: nat, r: GhostRef, info': GhostInfo, refs': seq<Option<GhostRef>>)
    requires ChainInv(t.info, t.refs) && j == |t.refs| && r.updateChain.None?
    requires refs' == Linked(t.refs, t.info.lastUpdateChain, j) + [Some(r)] && info'.lastUpdateChain == Some(j)
    ensures ChainInv(info', refs')
    ensures forall k :: 0 <= k < j ==> (refs'[k].Some? <==> t.refs[k].Some?)
    ensures forall k :: 0 <= k < j && t.refs[k].Some? ==>
      refs'[k].value.mask == t.refs[k].value.mask && refs'[k].value.kind == t.refs[k].value.kind
  {
  }

  ghost predicate CanSendUpdate(t: Track, ret: set<nat>) {
    Eligible(t.info) && !t.info.killGhost && ret <= t.info.updateMask
  }

  lemma SendUpdateKeepsSlot(t: Track, o: Object, ret: set<nat>)
    requires SlotInv(t) && CanSendUpdate(t, ret) && |o.version| == BITS
    ensures SlotInv(SendUpdate(t, o, ret))
  {
    var t' := SendUpdate(t, o, ret);
    LinkedChain(t, |t.refs|, t'.refs[|t.refs|].value, t'.info, t'.refs);
    hide ChainInv;
  }

  ghost predicate CanSendKill(t: Track) {
    Eligible(t.info) && t.info.killGhost && !t.info.notYetGhosted
  }

  lemma SendKillKeepsSlot(t: Track)
    requires SlotInv(t) && CanSendKill(t)
    ensures SlotInv(SendKill(t))
  {
    var t' := SendKill(t);
    LinkedChain(t, |t.refs|, t'.refs[|t.refs|].value, t'.info, t'.refs);
    hide ChainInv;
  }

  // ----- changes at the server -----

  lemma PrepareKeepsSlot(t: Track)
    requires SlotInv(t)
    ensures SlotInv(t.(info := Prepare(t.info)))
  {
  }

  lemma DetachKeepsSlot(t: Track)
    requires SlotInv(t) && t.info.inUse
    ensures SlotInv(t.(info := Detach(t.info)))
  {
    assert IsBit(0) && 0 in AllBits();
  }

  lemma NewKeepsSlot(t: Track, o: nat)
    requires SlotInv(t) && !t.info.inUse
    ensures SlotInv(t.(info := NewInfo(o)))
  {
  }

  lemma MarkKeepsSlot(t: Track, bits: set<nat>, inScope: bool)
    requires SlotInv(t) && bits <= AllBits() && (!t.info.inUse ==> bits == {})
    ensures SlotInv(t.(info := t.info.(updateMask := t.info.updateMask + bits, inScope := inScope)))
  {
  }

  // ----- notification -----

  /** The oldest record is the newest only if it is the only one. */
  lemma NotifyChain(t: Track)
    requires SlotInv(t) && t.notified < t.cursor && t.refs[t.notified].Some?
    ensures ChainInv(Unchain(t.info, t.notified), t.refs[t.notified := None])
    ensures t.info.lastUpdateChain == Some(t.notified) ==>
      forall k :: 0 <= k < |t.refs| && t.refs[k].Some? ==> k == t.notified
  {
  }

  lemma NotifyReceivedKeepsSlot(t: Track)
    requires SlotInv(t) && t.notified < t.cursor && t.notified in t.read
    ensures SlotInv(Notify(t))
  {
    hide WireInv;
    hide Matches;
    hide Creates;
    hide Plain;
    hide ChainInv;
    if t.refs[t.notified].Some? {
      NotifyChain(t);
      ReceivedChain(t);
      hide Chained;
      hide Lands;
    } else {
      NotifyNothing(t);
    }
  }

  lemma ReceivedChain(t: Track)
    requires SlotInv(t) && t.notified < t.cursor && t.notified in t.read && t.refs[t.notified].Some?
    ensures ChainInv(Notify(t).info, Notify(t).refs)
  {
    hide WireInv;
    hide StageInv;
    hide IdentityInv;
    hide FlagsInv;
    NotifyChain(t);
  }

  lemma WalkSubset(refs: seq<Option<GhostRef>>, flags: set<nat>, at: Option<nat>)
    requires Chained(refs) && Lands(refs, -1, at)
    ensures WalkChain(refs, flags, at) <= flags
    decreases if at.Some? then |refs| - at.value else 0
  {
    if flags != {} && at.Some? {
      WalkSubset(refs, flags - refs[at.value].value.mask, refs[at.value].value.updateChain);
    }
  }

  /** Walking the update chain removes exactly the flags that a later packet of the slot carries. */
  lemma {:induction false} WalkRemovesLater(info: GhostInfo, refs: seq<Option<GhostRef>>, flags: set<nat>, j: nat,
                                            b: nat)
    requires ChainInv(info, refs) && j < |refs| && refs[j].Some?
    ensures b in WalkChain(refs, flags, refs[j].value.updateChain)
       <==> b in flags && forall k :: j < k < |refs| && refs[k].Some? ==> b !in refs[k].value.mask
    decreases |refs| - j
  {
    var at := refs[j].value.updateChain;
    if at.None? {
      assert forall k :: j < k < |refs| ==> refs[k].None?;
    } else if flags != {} {
      WalkRemovesLater(info, refs, flags - refs[at.value].value.mask, at.value, b);
      assert forall k :: j < k < at.value ==> refs[k].None?;
    }
  }

  /** The flags put back when a packet is dropped: all of them when no later packet carries the
      slot, as is so for an initial update and a kill. */
  lemma DroppedMask(t: Track)
    requires SlotInv(t) && t.notified < t.cursor && t.refs[t.notified].Some?
    ensures var r := t.refs[t.notified].value;
      && WalkChain(t.refs, r.mask, r.updateChain) <= r.mask
      && (!r.kind.PlainRef? ==> WalkChain(t.refs, r.mask, r.updateChain) == r.mask)
      && (!r.kind.PlainRef? ==> forall k :: 0 <= k < |t.refs| && k != t.notified ==> t.refs[k].None?)
  {
    var j := t.notified;
    var r := t.refs[j].value;
    WalkSubset(t.refs, r.mask, r.updateChain);
    if !r.kind.PlainRef? {
      assert forall k :: j < k < |t.refs| ==> t.refs[k].None?;
      forall b ensures b in WalkChain(t.refs, r.mask, r.updateChain) <==> b in r.mask {
        WalkRemovesLater(t.info, t.refs, r.mask, j, b);
      }
    }
  }

  lemma DroppedStage(t: Track)
    requires SlotInv(t) && t.notified < t.cursor && t.notified !in t.read && t.refs[t.notified].Some?
    ensures FlagsInv(Notify(t).info)
    ensures StageInv(Notify(t).info, Notify(t).refs, t.local, t.read)
  {
    assert !t.local.Desynchronised?;
    hide WireInv;
    DroppedMask(t);
    hide WalkChain;
  }

  lemma DroppedRecords(t: Track)
    requires SlotInv(t) && t.notified < t.cursor && t.notified !in t.read && t.refs[t.notified].Some?
    ensures var t' := Notify(t);
      && Shape(t') && RefsInv(t'.refs, t'.wire, t'.notified, t'.cursor)
      && IdentityInv(t'.info, t'.refs, t'.wire, t'.local)
  {
    hide StageInv;
    hide WireInv;
    hide WalkChain;
    hide RefsInv;
    hide IdentityInv;
    FewerRecords(t.info, t.refs, t.wire, t.notified, t.cursor, t.local);
    SameIdentity(t.info, Notify(t).info, Notify(t).refs, t.wire, t.local);
  }

  /** The oldest record is taken away. */
  lemma FewerRecords(i: GhostInfo, refs: seq<Option<GhostRef>>, wire: seq<Option<Entry>>, notified: nat, cursor: nat,
                     local: ClientSlot)
    requires |refs| == |wire| && notified < cursor && notified < |refs|
    ensures RefsInv(refs, wire, notified, cursor) ==> RefsInv(refs[notified := None], wire, notified + 1, cursor)
    ensures IdentityInv(i, refs, wire, local) ==> IdentityInv(i, refs[notified := None], wire, local)
  {
    hide Matches;
    hide Creates;
  }

  lemma SameIdentity(i: GhostInfo, i': GhostInfo, refs: seq<Option<GhostRef>>, wire: seq<Option<Entry>>,
                     local: ClientSlot)
    requires |refs| == |wire| && i'.obj == i.obj && (i'.inUse ==> i.inUse) && IdentityInv(i, refs, wire, local)
    ensures IdentityInv(i', refs, wire, local)
  {
  }

  lemma NotifyNothing(t: Track)
    requires SlotInv(t) && t.notified < t.cursor && t.refs[t.notified].None?
    ensures SlotInv(Notify(t))
  {
    hide WireInv;
    hide IdentityInv;
    hide StageInv;
    hide FlagsInv;
    assert t.refs[t.notified := None] == t.refs;
  }

  lemma NotifyDroppedKeepsSlot(t: Track)
    requires SlotInv(t) && t.notified < t.cursor && t.notified !in t.read
    ensures SlotInv(Notify(t))
  {
    hide WireInv;
    hide StageInv;
    hide RefsInv;
    hide IdentityInv;
    hide FlagsInv;
    hide WalkChain;
    hide ChainInv;
    if t.refs[t.notified].Some? {
      DroppedStage(t);
      DroppedRecords(t);
      NotifyChain(t);
      DroppedChain(t);
    } else {
      NotifyNothing(t);
    }
  }

  lemma DroppedChain(t: Track)
    requires SlotInv(t) && t.notified < t.cursor && t.notified !in t.read && t.refs[t.notified].Some?
    ensures Notify(t).info.lastUpdateChain == Unchain(t.info, t.notified).lastUpdateChain
    ensures ChainInv(Notify(t).info, Notify(t).refs)
  {
    hide WireInv;
    hide StageInv;
    hide IdentityInv;
    hide FlagsInv;
    hide WalkChain;
    NotifyChain(t);
  }

  // ----- most recent state, step by step -----

  ghost predicate Tracks(t: Track, o: Object) {
    SlotInv(t) && t.info.inUse && t.info.obj.Some? && Current(t, o)
  }

  lemma ReadBit(t: Track, o: Object, i: nat, b: nat)
    requires Tracks(t, o) && t.cursor <= i < |t.wire| && b in AllBits()
    ensures BitCurrent(Read(t, i), o, b)
  {
    hide ChainInv;
    hide IdentityInv;
    var t' := Read(t, i);
    assert BitCurrent(t, o, b);
    assert forall j :: Carries(t', j, b) <==> Carries(t, j, b);
    assert forall j :: Newest(t', j, b) <==> Newest(t, j, b);
    if b !in o.dirty && b !in t.info.updateMask && t.wire[i].Some? {
      assert t.refs[i].Some? && Matches(t.refs[i].value, t.wire[i].value);
      assert t.wire[i].value.Update?;
      assert b in t.wire[i].value.data <==> Carries(t, i, b);
    }
  }

  lemma ReadKeepsCurrent(t: Track, o: Object, i: nat)
    requires Tracks(t, o) && t.cursor <= i < |t.wire|
    ensures Current(Read(t, i), o)
  {
    forall b | b in AllBits() ensures BitCurrent(Read(t, i), o, b) {
      ReadBit(t, o, i, b);
    }
  }

  /** A change to the slot that neither takes flags away nor touches the packets and the client. */
  lemma MarkedKeepsCurrent(t: Track, o: Object, t': Track, o': Object)
    requires Current(t, o) && o'.version == o.version
    requires t'.refs == t.refs && t'.wire == t.wire && t'.local == t.local && t'.read == t.read
    requires o.dirty + t.info.updateMask <= o'.dirty + t'.info.updateMask
    ensures Current(t', o')
  {
    forall b | b in AllBits() ensures BitCurrent(t', o', b) {
      assert BitCurrent(t, o, b);
      assert b in o.dirty + t.info.updateMask ==> b in o'.dirty + t'.info.updateMask;
      assert forall j :: Carries(t', j, b) <==> Carries(t, j, b);
      assert forall j :: Newest(t', j, b) <==> Newest(t, j, b);
    }
  }

  /** The object changes and its changed bits become dirty. */
  lemma ChangeKeepsCurrent(t: Track, o: Object, o': Object, bits: set<nat>)
    requires Current(t, o) && |o'.version| == BITS && o'.dirty == o.dirty + bits
    requires forall b :: b in AllBits() && b !in bits ==> o'.version[b] == o.version[b]
    ensures Current(t, o')
  {
    forall b | b in AllBits() ensures BitCurrent(t, o', b) {
      assert BitCurrent(t, o, b);
    }
  }

  lemma OmitKeepsCurrent(t: Track, o: Object)
    requires SlotInv(t) && Current(t, o)
    ensures Current(Omit(t), o)
  {
    var t' := Omit(t);
    forall b | b in AllBits() ensures BitCurrent(t', o, b) {
      assert BitCurrent(t, o, b);
      assert forall j :: Carries(t', j, b) <==> Carries(t, j, b);
      assert forall j :: Newest(t', j, b) <==> Newest(t, j, b);
    }
  }

  lemma SendUpdateBit(t: Track, o: Object, ret: set<nat>, b: nat)
    requires Tracks(t, o) && CanSendUpdate(t, ret) && b in AllBits()
    ensures BitCurrent(SendUpdate(t, o, ret), o, b)
  {
    var t' := SendUpdate(t, o, ret);
    var n := |t.refs|;
    LinkedChain(t, n, t'.refs[n].value, t'.info, t'.refs);
    assert BitCurrent(t, o, b);
    assert forall j :: Carries(t', j, b) <==> Carries(t, j, b) || (j == n && b in t.info.updateMask - ret);
    if b in t.info.updateMask - ret {
      assert Carries(t', n, b);
      assert forall j :: Newest(t', j, b) ==> j == n;
    } else {
      assert forall j :: Newest(t', j, b) <==> Newest(t, j, b);
    }
  }

  lemma SendUpdateKeepsCurrent(t: Track, o: Object, ret: set<nat>)
    requires Tracks(t, o) && CanSendUpdate(t, ret)
    ensures Current(SendUpdate(t, o, ret), o)
  {
    forall b | b in AllBits() ensures BitCurrent(SendUpdate(t, o, ret), o, b) {
      SendUpdateBit(t, o, ret, b);
    }
  }

  /** Without the oldest packet, what carries a bit. */
  lemma OldestGone(t: Track, t': Track, n: nat, b: nat)
    requires n < |t.refs| && t'.refs == t.refs[n := None]
    requires forall k :: 0 <= k < n ==> t.refs[k].None?
    ensures forall j :: Carries(t', j, b) <==> Carries(t, j, b) && j != n
    ensures Newest(t, n, b) ==> forall j :: !Carries(t', j, b)
    ensures !Newest(t, n, b) ==> forall j :: Newest(t', j, b) <==> Newest(t, j, b)
    ensures !Newest(t, n, b) && Carries(t, n, b) ==> exists j :: Carries(t', j, b)
  {
  }

  lemma NotifyReceivedBit(t: Track, o: Object, b: nat)
    requires Tracks(t, o) && t.notified < t.cursor && t.notified in t.read && b in AllBits()
    ensures BitCurrent(Notify(t), o, b)
  {
    hide WireInv;
    hide IdentityInv;
    assert t.refs[t.notified].Some? ==> !t.refs[t.notified].value.kind.KillingRef?;
    hide StageInv;
    OldestGone(t, Notify(t), t.notified, b);
    assert BitCurrent(t, o, b);
  }

  lemma NotifyDroppedBit(t: Track, o: Object, b: nat)
    requires Tracks(t, o) && t.notified < t.cursor && t.notified !in t.read && b in AllBits()
    ensures BitCurrent(Notify(t), o, b)
  {
    hide WireInv;
    hide IdentityInv;
    hide StageInv;
    var n := t.notified;
    OldestGone(t, Notify(t), n, b);
    assert BitCurrent(t, o, b);
    if t.refs[n].Some? {
      WalkRemovesLater(t.info, t.refs, t.refs[n].value.mask, n, b);
      hide WalkChain;
      hide ChainInv;
      if Newest(t, n, b) {
        assert forall k :: n < k < |t.refs| && t.refs[k].Some? ==> !Carries(t, k, b);
      }
    }
  }

  lemma NotifyBit(t: Track, o: Object, b: nat)
    requires Tracks(t, o) && t.notified < t.cursor && b in AllBits()
    ensures BitCurrent(Notify(t), o, b)
  {
    if t.notified in t.read { NotifyReceivedBit(t, o, b); } else { NotifyDroppedBit(t, o, b); }
  }

  lemma NotifyKeepsCurrent(t: Track, o: Object)
    requires Tracks(t, o) && t.notified < t.cursor
    ensures Current(Notify(t), o)
  {
    forall b | b in AllBits() ensures BitCurrent(Notify(t), o, b) {
      NotifyBit(t, o, b);
    }
  }
}
