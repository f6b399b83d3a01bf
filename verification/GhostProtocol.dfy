/** Ghosting (tnl/ghostConnection.cpp) for one ghost slot: the server's record of the ghost, the
    updates of it still in flight, and the client's copy.  A mask is the set of its bit positions;
    packets are known by their position in the channel. */
module GhostProtocol {
  import opened Wrappers

  const BITS := 32
  const MAX_GHOSTS := 1024

  predicate IsBit(b: nat) { b < BITS }

  /** The mask 0xFFFFFFFF. */
  function AllBits(): set<nat> { set b: nat | b < BITS && IsBit(b) }

  /** A replicated object: a version number for each of its state bits, and the bits changed
      since the dirty list was last collapsed. */
  datatype Object = Object(version: seq<nat>, dirty: set<nat>)

  /** GhostInfo.  `inUse` says that the slot is not in the free segment of the ghost array. */
  datatype GhostInfo = GhostInfo(
    inUse: bool,
    obj: Option<nat>,
    updateMask: set<nat>,
    inScope: bool,
    notYetGhosted: bool,
    ghosting: bool,
    killGhost: bool,
    killingGhost: bool,
    lastUpdateChain: Option<nat>)

  datatype RefKind = PlainRef | GhostingRef | KillingRef

  /** GhostRef: what one packet carried of this ghost; `updateChain` is the next packet that did. */
  datatype GhostRef = GhostRef(mask: set<nat>, kind: RefKind, updateChain: Option<nat>)

  /** What the packet says of this ghost.  There is no bit telling an initial update from a later
      one: `classId` is written only in an initial update. */
  datatype Entry = Kill | Update(classId: Option<nat>, data: map<nat, nat>)

  /** One element of mLocalGhosts.  `Desynchronised` stands for reading a class id that was not
      written, not reading one that was, or killing or updating a missing ghost. */
  datatype ClientSlot = Empty | Ghost(obj: nat, version: seq<nat>) | Desynchronised

  // ----- the client -----

  ghost function Overlay(version: seq<nat>, data: map<nat, nat>): seq<nat> {
    seq(|version|, b requires 0 <= b < |version| => if b in data then data[b] else version[b])
  }

  ghost function FreshVersion(): seq<nat> { seq(BITS, b => 0) }

  /** The client takes an entry for an empty slot as an initial update. */
  ghost function ReadEntry(local: ClientSlot, e: Entry): ClientSlot {
    match e
    case Kill => if local.Ghost? then Empty else Desynchronised
    case Update(classId, data) =>
      if local.Empty? then
        if classId.Some? then Ghost(classId.value, Overlay(FreshVersion(), data)) else Desynchronised
      else
        if local.Ghost? && classId.None? then Ghost(local.obj, Overlay(local.version, data)) else Desynchronised
  }

  // ----- the server -----

  ghost function Free(info: GhostInfo): GhostInfo {
    info.(inUse := false, updateMask := {})
  }

  ghost function Detach(info: GhostInfo): GhostInfo {
    info.(killGhost := true, obj := None, updateMask := if info.updateMask == {} then AllBits() else info.updateMask)
  }

  /** A session is reset. */
  ghost function ClearedInfo(info: GhostInfo): GhostInfo {
    if info.inUse then Free(Detach(info).(lastUpdateChain := None)) else info
  }

  function NewInfo(o: nat): GhostInfo {
    GhostInfo(true, Some(o), AllBits(), true, true, false, false, false, None)
  }

  /** The start of a packet write: pending ghosts out of scope are detached, and those to be
      killed that were never ghosted are freed. */
  ghost function Prepare(info: GhostInfo): GhostInfo {
    if !info.inUse || info.updateMask == {} then info
    else
      var d := if !info.inScope then Detach(info) else info;
      if d.killGhost && d.notYetGhosted then Free(d) else d
  }

  ghost predicate Eligible(info: GhostInfo) {
    info.inUse && info.updateMask != {} && !info.killingGhost && !info.ghosting
  }

  /** Everything about one slot: refs[j] and wire[j] are what packet j carried of it, according to
      the server's records and on the wire. */
  datatype Track = Track(
    info: GhostInfo,
    refs: seq<Option<GhostRef>>,
    wire: seq<Option<Entry>>,
    local: ClientSlot,
    cursor: nat,
    notified: nat,
    read: set<nat>)

  /** Every chain leads forward to a record that still exists. */
  ghost predicate Chained(refs: seq<Option<GhostRef>>) {
    forall k :: 0 <= k < |refs| && refs[k].Some? ==> Lands(refs, k, refs[k].value.updateChain)
  }

  ghost predicate Lands(refs: seq<Option<GhostRef>>, k: int, at: Option<nat>) {
    at.Some? ==> k < at.value < |refs| && refs[at.value].Some?
  }

  /** The newest record of the slot, if it is still in flight, is chained to the one being made. */
  ghost function Linked(refs: seq<Option<GhostRef>>, last: Option<nat>, upd: nat): seq<Option<GhostRef>>
    requires Lands(refs, -1, last)
  {
    match last
    case None => refs
    case Some(k) => refs[k := Some(refs[k].value.(updateChain := Some(upd)))]
  }

  /** A packet that leaves this slot out. */
  ghost function Omit(t: Track): Track {
    t.(refs := t.refs + [None], wire := t.wire + [None])
  }

  ghost function UpdatedInfo(i: GhostInfo, ret: set<nat>, j: nat): GhostInfo {
    i.(updateMask := ret, lastUpdateChain := Some(j), notYetGhosted := false, ghosting := i.ghosting || i.notYetGhosted)
  }

  ghost function UpdateRef(i: GhostInfo, ret: set<nat>): GhostRef {
    GhostRef(i.updateMask - ret, if i.notYetGhosted then GhostingRef else PlainRef, None)
  }

  ghost function UpdateEntry(i: GhostInfo, o: Object, ret: set<nat>): Entry
    requires |o.version| == BITS && i.updateMask <= AllBits()
  {
    Update(if i.notYetGhosted then i.obj else None, map b | b in i.updateMask - ret :: o.version[b])
  }

  ghost function KilledInfo(i: GhostInfo, j: nat): GhostInfo {
    i.(killGhost := false, killingGhost := true, updateMask := {}, lastUpdateChain := Some(j))
  }

  ghost function KillRef(i: GhostInfo): GhostRef { GhostRef(i.updateMask, KillingRef, None) }

  /** A packet that says e of this slot and is recorded as r. */
  ghost function Send(t: Track, info: GhostInfo, r: GhostRef, e: Entry): Track
    requires Lands(t.refs, -1, t.info.lastUpdateChain)
  {
    t.(info := info, refs := Linked(t.refs, t.info.lastUpdateChain, |t.refs|) + [Some(r)], wire := t.wire + [Some(e)])
  }

  /** A packet with an update of this slot; packUpdate leaves the bits of `ret` for later. */
  ghost function SendUpdate(t: Track, o: Object, ret: set<nat>): Track
    requires Lands(t.refs, -1, t.info.lastUpdateChain)
    requires |o.version| == BITS && t.info.updateMask <= AllBits()
  {
    Send(t, UpdatedInfo(t.info, ret, |t.refs|), UpdateRef(t.info, ret), UpdateEntry(t.info, o, ret))
  }

  /** A packet that kills the ghost. */
  ghost function SendKill(t: Track): Track
    requires Lands(t.refs, -1, t.info.lastUpdateChain)
  {
    Send(t, KilledInfo(t.info, |t.refs|), KillRef(t.info), Kill)
  }

  /** The flags left after walking the update chain from packet `at`. */
  ghost function WalkChain(refs: seq<Option<GhostRef>>, flags: set<nat>, at: Option<nat>): set<nat>
    requires Chained(refs) && Lands(refs, -1, at)
    decreases if at.Some? then |refs| - at.value else 0
  {
    if flags == {} || at.None? then flags
    else WalkChain(refs, flags - refs[at.value].value.mask, refs[at.value].value.updateChain)
  }

  ghost function Unchain(info: GhostInfo, j: nat): GhostInfo {
    if info.lastUpdateChain == Some(j) then info.(lastUpdateChain := None) else info
  }

  /** A record is lost; the flags are those no later packet carries. */
  ghost function Lost(info: GhostInfo, kind: RefKind, flags: set<nat>, j: nat): GhostInfo {
    var i := Unchain(info.(updateMask := info.updateMask + flags), j);
    match kind
    case GhostingRef => i.(notYetGhosted := true, ghosting := false)
    case KillingRef => i.(killGhost := true, killingGhost := false)
    case PlainRef => i
  }

  ghost function Dropped(info: GhostInfo, refs: seq<Option<GhostRef>>, j: nat): GhostInfo
    requires j < |refs| && refs[j].Some? && Chained(refs)
  {
    var r := refs[j].value;
    Lost(info, r.kind, WalkChain(refs, r.mask, r.updateChain), j)
  }

  ghost function Received(info: GhostInfo, r: GhostRef, j: nat): GhostInfo {
    var i := Unchain(info, j);
    match r.kind
    case GhostingRef => i.(ghosting := false)
    case KillingRef => Free(i)
    case PlainRef => i
  }

  /** The oldest packet is reported. */
  ghost function Notify(t: Track): Track
    requires t.notified < |t.refs| && Chained(t.refs)
  {
    var j := t.notified;
    var t' := t.(notified := j + 1, refs := t.refs[j := None]);
    if t.refs[j].None? then t'
    else if j in t.read then t'.(info := Received(t.info, t.refs[j].value, j))
    else t'.(info := Dropped(t.info, t.refs, j))
  }

  /** The client reads packet i. */
  ghost function Read(t: Track, i: nat): Track
    requires i < |t.wire|
  {
    t.(cursor := i + 1, read := t.read + {i},
       local := if t.wire[i].Some? then ReadEntry(t.local, t.wire[i].value) else t.local)
  }

  ghost function Skip(t: Track, i: nat): Track {
    t.(cursor := i)
  }
}
