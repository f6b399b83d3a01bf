/** The server's side of a GhostConnection (tnl/tnlGhostConnection.h, tnl/ghostConnection.cpp): the
    array of ghost slots, kept in three segments, and the records of the updates in flight. */
module GhostConnectionObject {
  import opened Wrappers
  import opened BitFields
  import opened GhostProtocol
  import opened GhostSlot

  /** The records of one ghost, packet by packet. */
  ghost function Column(queue: seq<map<nat, GhostRef>>, g: nat): seq<Option<GhostRef>> {
    seq(|queue|, j requires 0 <= j < |queue| => if g in queue[j] then Some(queue[j][g]) else None)
  }

  class GhostConnection {
    /** The structures, by ghost index; a pointer to one is its index here. */
    const mGhostRefs: array<GhostInfo>
    /** First the ghosts with updates pending, then those without, then the free ones. */
    const mGhostArray: array<nat>
    /** The field arrayIndex of each structure: its place in mGhostArray. */
    const arrayIndex: array<nat>
    var mGhostZeroUpdateIndex: nat
    var mGhostFreeIndex: nat
    /** The ghost of each object that has one; the source keeps hash chains. */
    var mGhostLookupTable: map<nat, nat>
    /** What each packet carried, by ghost; reported packets carry nothing any more. */
    var mNotifyQueue: seq<map<nat, GhostRef>>

    /** The array is a permutation of the structures with arrayIndex its inverse. */
    ghost predicate Arranged()
      reads `mGhostZeroUpdateIndex, `mGhostFreeIndex, mGhostArray, arrayIndex
    {
      && mGhostArray != arrayIndex
      && mGhostRefs.Length == mGhostArray.Length == arrayIndex.Length == MAX_GHOSTS
      && mGhostZeroUpdateIndex <= mGhostFreeIndex <= MAX_GHOSTS
      && (forall i :: 0 <= i < MAX_GHOSTS ==> mGhostArray[i] < MAX_GHOSTS && arrayIndex[mGhostArray[i]] == i)
      && (forall g :: 0 <= g < MAX_GHOSTS ==> arrayIndex[g] < MAX_GHOSTS && mGhostArray[arrayIndex[g]] == g)
    }

    ghost predicate Pending(g: nat)
      requires g < arrayIndex.Length
      reads `mGhostZeroUpdateIndex, arrayIndex
    {
      arrayIndex[g] < mGhostZeroUpdateIndex
    }

    ghost predicate Used(g: nat)
      requires g < arrayIndex.Length
      reads `mGhostFreeIndex, arrayIndex
    {
      arrayIndex[g] < mGhostFreeIndex
    }

    ghost predicate LookupValid()
      requires mGhostRefs.Length == MAX_GHOSTS
      reads `mGhostLookupTable, mGhostRefs
    {
      && (forall o :: o in mGhostLookupTable ==>
            && mGhostLookupTable[o] < MAX_GHOSTS
            && mGhostRefs[mGhostLookupTable[o]].inUse && mGhostRefs[mGhostLookupTable[o]].obj == Some(o))
      && (forall g :: 0 <= g < MAX_GHOSTS && mGhostRefs[g].inUse && mGhostRefs[g].obj.Some? ==>
            mGhostRefs[g].obj.value in mGhostLookupTable && mGhostLookupTable[mGhostRefs[g].obj.value] == g)
    }

    /** The segments are what they are for. */
    ghost predicate Valid()
      reads `mGhostZeroUpdateIndex, `mGhostFreeIndex, `mGhostLookupTable, mGhostRefs, mGhostArray, arrayIndex
    {
      && Arranged()
      && LookupValid()
      && (forall g :: 0 <= g < MAX_GHOSTS ==> (mGhostRefs[g].inUse <==> Used(g)))
      && (forall g :: 0 <= g < MAX_GHOSTS ==> (mGhostRefs[g].updateMask != {} <==> Pending(g)))
    }

    /** Exchanges the structure with the one at place i. */
    method MoveTo(g: nat, i: nat)
      requires Arranged() && g < MAX_GHOSTS && i < MAX_GHOSTS
      modifies mGhostArray, arrayIndex
      ensures Arranged() && arrayIndex[g] == i
      ensures arrayIndex[old(mGhostArray[i])] == old(arrayIndex[g])
      ensures forall h :: 0 <= h < MAX_GHOSTS && h != g && h != old(mGhostArray[i]) ==>
        arrayIndex[h] == old(arrayIndex[h])
      ensures forall k :: 0 <= k < MAX_GHOSTS && k != i && k != old(arrayIndex[g]) ==>
        mGhostArray[k] == old(mGhostArray[k])
    {
      if arrayIndex[g] != i {
        arrayIndex[mGhostArray[i]] := arrayIndex[g];
        mGhostArray[arrayIndex[g]] := mGhostArray[i];
        mGhostArray[i] := g;
        arrayIndex[g] := i;
      }
    }

    method GhostPushNonZero(g: nat)
      requires Arranged() && g < MAX_GHOSTS && Used(g) && !Pending(g)
      modifies `mGhostZeroUpdateIndex, mGhostArray, arrayIndex
      ensures Arranged() && mGhostZeroUpdateIndex == old(mGhostZeroUpdateIndex) + 1
      ensures forall h :: 0 <= h < MAX_GHOSTS ==>
        (Pending(h) <==> old(Pending(h)) || h == g) && (Used(h) <==> old(Used(h)))
    {
      MoveTo(g, mGhostZeroUpdateIndex);
      mGhostZeroUpdateIndex := mGhostZeroUpdateIndex + 1;
    }

    method GhostPushToZero(g: nat)
      requires Arranged() && g < MAX_GHOSTS && Pending(g)
      modifies `mGhostZeroUpdateIndex, mGhostArray, arrayIndex
      ensures Arranged() && mGhostZeroUpdateIndex == old(mGhostZeroUpdateIndex) - 1
      ensures forall h :: 0 <= h < MAX_GHOSTS ==>
        (Pending(h) <==> old(Pending(h)) && h != g) && (Used(h) <==> old(Used(h)))
      ensures forall k :: 0 <= k < old(arrayIndex[g]) ==> mGhostArray[k] == old(mGhostArray[k])
    {
      mGhostZeroUpdateIndex := mGhostZeroUpdateIndex - 1;
      MoveTo(g, mGhostZeroUpdateIndex);
    }

    method GhostPushZeroToFree(g: nat)
      requires Arranged() && g < MAX_GHOSTS && Used(g) && !Pending(g)
      modifies `mGhostFreeIndex, mGhostArray, arrayIndex
      ensures Arranged() && mGhostFreeIndex == old(mGhostFreeIndex) - 1
      ensures forall h :: 0 <= h < MAX_GHOSTS ==>
        (Used(h) <==> old(Used(h)) && h != g) && (Pending(h) <==> old(Pending(h)))
      ensures forall k :: 0 <= k < mGhostZeroUpdateIndex ==> mGhostArray[k] == old(mGhostArray[k])
    {
      mGhostFreeIndex := mGhostFreeIndex - 1;
      MoveTo(g, mGhostFreeIndex);
    }

    method GhostPushFreeToZero(g: nat)
      requires Arranged() && g < MAX_GHOSTS && !Used(g)
      modifies `mGhostFreeIndex, mGhostArray, arrayIndex
      ensures Arranged() && mGhostFreeIndex == old(mGhostFreeIndex) + 1
      ensures forall h :: 0 <= h < MAX_GHOSTS ==>
        (Used(h) <==> old(Used(h)) || h == g) && (Pending(h) <==> old(Pending(h)))
    {
      MoveTo(g, mGhostFreeIndex);
      mGhostFreeIndex := mGhostFreeIndex + 1;
    }

    /** Stores into a structure without a change to its segment or its object. */
    method Store(g: nat, info: GhostInfo)
      requires Valid() && g < MAX_GHOSTS && info.inUse == mGhostRefs[g].inUse && info.obj == mGhostRefs[g].obj
      requires info.updateMask == {} <==> mGhostRefs[g].updateMask == {}
      modifies mGhostRefs
      ensures Valid() && mGhostRefs[..] == old(mGhostRefs[..][g := info])
    {
      mGhostRefs[g] := info;
    }

    /** The ghost is cut off from its object. */
    method Unlink(g: nat)
      requires Valid() && g < MAX_GHOSTS && Used(g)
      modifies `mGhostLookupTable, mGhostRefs
      ensures Valid() && mGhostRefs[..] == old(mGhostRefs[..][g := mGhostRefs[g].(obj := None)])
    {
      if mGhostRefs[g].obj.Some? {
        mGhostLookupTable := mGhostLookupTable - {mGhostRefs[g].obj.value};
        mGhostRefs[g] := mGhostRefs[g].(obj := None);
      }
    }

    /** All bits are marked if none is. */
    method MarkAll(g: nat)
      requires Valid() && g < MAX_GHOSTS && Used(g)
      modifies `mGhostZeroUpdateIndex, mGhostRefs, mGhostArray, arrayIndex
      ensures Valid()
      ensures mGhostRefs[..] == old(mGhostRefs[..][g := mGhostRefs[g].(
                updateMask := if mGhostRefs[g].updateMask == {} then AllBits() else mGhostRefs[g].updateMask)])
      ensures old(Pending(g)) ==>
        mGhostArray[..] == old(mGhostArray[..]) && arrayIndex[..] == old(arrayIndex[..])
          && mGhostZeroUpdateIndex == old(mGhostZeroUpdateIndex)
    {
      assert IsBit(0) && 0 in AllBits() && {} + AllBits() == AllBits();
      if mGhostRefs[g].updateMask == {} { MarkGhost(g, AllBits()); }
    }

    method DetachObject(g: nat)
      requires Valid() && g < MAX_GHOSTS && Used(g)
      modifies `mGhostZeroUpdateIndex, `mGhostLookupTable, mGhostRefs, mGhostArray, arrayIndex
      ensures Valid() && mGhostRefs[..] == old(mGhostRefs[..][g := Detach(mGhostRefs[g])])
      ensures old(Pending(g)) ==>
        mGhostArray[..] == old(mGhostArray[..]) && arrayIndex[..] == old(arrayIndex[..])
          && mGhostZeroUpdateIndex == old(mGhostZeroUpdateIndex)
    {
      assert mGhostRefs.Length == arrayIndex.Length == MAX_GHOSTS;
      hide Arranged;
      hide LookupValid;
      Store(g, mGhostRefs[g].(killGhost := true));
      MarkAll(g);
      Unlink(g);
    }

    method ClearMask(g: nat)
      requires Valid() && g < MAX_GHOSTS && Pending(g)
      modifies `mGhostZeroUpdateIndex, mGhostRefs, mGhostArray, arrayIndex
      ensures Valid() && mGhostRefs[..] == old(mGhostRefs[..][g := mGhostRefs[g].(updateMask := {})])
      ensures mGhostZeroUpdateIndex == old(mGhostZeroUpdateIndex) - 1
      ensures forall k :: 0 <= k < old(arrayIndex[g]) ==> mGhostArray[k] == old(mGhostArray[k])
    {
      mGhostRefs[g] := mGhostRefs[g].(updateMask := {});
      GhostPushToZero(g);
    }

    method Release(g: nat)
      requires Valid() && g < MAX_GHOSTS && Used(g) && !Pending(g) && mGhostRefs[g].obj.None?
      modifies `mGhostFreeIndex, mGhostRefs, mGhostArray, arrayIndex
      ensures Valid() && mGhostRefs[..] == old(mGhostRefs[..][g := mGhostRefs[g].(inUse := false)])
      ensures forall k :: 0 <= k < mGhostZeroUpdateIndex ==> mGhostArray[k] == old(mGhostArray[k])
    {
      mGhostRefs[g] := mGhostRefs[g].(inUse := false);
      GhostPushZeroToFree(g);
    }

    /** The structure goes to the free segment. */
    method FreeGhostInfo(g: nat)
      requires Valid() && g < MAX_GHOSTS && Used(g) && mGhostRefs[g].obj.None? && mGhostRefs[g].lastUpdateChain.None?
      modifies `mGhostZeroUpdateIndex, `mGhostFreeIndex, mGhostRefs, mGhostArray, arrayIndex
      ensures Valid() && mGhostRefs[..] == old(mGhostRefs[..][g := Free(mGhostRefs[g])])
      ensures mGhostZeroUpdateIndex == old(mGhostZeroUpdateIndex) - (if old(Pending(g)) then 1 else 0)
      ensures forall k :: 0 <= k < old(arrayIndex[g]) && k < mGhostZeroUpdateIndex ==>
        mGhostArray[k] == old(mGhostArray[k])
    {
      hide LookupValid;
      if arrayIndex[g] < mGhostZeroUpdateIndex { ClearMask(g); }
      Release(g);
    }

    /** An object in scope gets a ghost unless it has one or none is free. */
    method ObjectInScope(o: nat) returns (g: nat)
      requires Valid()
      modifies `mGhostZeroUpdateIndex, `mGhostFreeIndex, `mGhostLookupTable, mGhostRefs, mGhostArray, arrayIndex
      ensures Valid() && g <= MAX_GHOSTS
      ensures forall h :: 0 <= h < MAX_GHOSTS && h != g ==> mGhostRefs[h] == old(mGhostRefs[h])
      ensures g == MAX_GHOSTS <==>
        old(mGhostFreeIndex) == MAX_GHOSTS && forall h :: 0 <= h < MAX_GHOSTS ==> old(mGhostRefs[h].obj) != Some(o)
      ensures g < MAX_GHOSTS ==>
        if old(mGhostRefs[g].inUse) then (
          old(mGhostRefs[g].obj) == Some(o) && mGhostRefs[g] == old(mGhostRefs[g].(inScope := true))
        ) else (
          && mGhostRefs[g] == NewInfo(o)
          && forall h :: 0 <= h < MAX_GHOSTS && old(mGhostRefs[h].inUse) ==> old(mGhostRefs[h].obj) != Some(o)
        )
    {
      if o in mGhostLookupTable {
        g := mGhostLookupTable[o];
        mGhostRefs[g] := mGhostRefs[g].(inScope := true);
        return;
      }
      if mGhostFreeIndex == MAX_GHOSTS { return MAX_GHOSTS; }
      g := NewGhost(o);
    }

    /** The first free structure, with all its bits marked. */
    method NewGhost(o: nat) returns (g: nat)
      requires Valid() && mGhostFreeIndex < MAX_GHOSTS && o !in mGhostLookupTable
      modifies `mGhostZeroUpdateIndex, `mGhostFreeIndex, `mGhostLookupTable, mGhostRefs, mGhostArray, arrayIndex
      ensures Valid() && g < MAX_GHOSTS && !old(mGhostRefs[g].inUse) && mGhostRefs[g] == NewInfo(o)
      ensures forall h :: 0 <= h < MAX_GHOSTS && h != g ==> mGhostRefs[h] == old(mGhostRefs[h])
    {
      g := mGhostArray[mGhostFreeIndex];
      GhostPushFreeToZero(g);
      GhostPushNonZero(g);
      assert IsBit(0) && 0 in AllBits();
      mGhostRefs[g] := NewInfo(o);
      mGhostLookupTable := mGhostLookupTable[o := g];
    }

    /** One of an object's ghosts while the dirty list is collapsed. */
    method MarkGhost(g: nat, orMask: set<nat>)
      requires Valid() && g < MAX_GHOSTS && Used(g) && orMask != {}
      modifies `mGhostZeroUpdateIndex, mGhostRefs, mGhostArray, arrayIndex
      ensures Valid()
      ensures mGhostRefs[..]
           == old(mGhostRefs[..][g := mGhostRefs[g].(updateMask := mGhostRefs[g].updateMask + orMask)])
    {
      if mGhostRefs[g].updateMask == {} {
        assert mGhostRefs[g].updateMask + orMask == orMask;
        mGhostRefs[g] := mGhostRefs[g].(updateMask := orMask);
        GhostPushNonZero(g);
      } else {
        mGhostRefs[g] := mGhostRefs[g].(updateMask := mGhostRefs[g].updateMask + orMask);
      }
    }

    /** The bits that changed in some objects go into the masks of their ghosts. */
    method CollapseDirtyList(dirty: map<nat, set<nat>>)
      requires Valid()
      modifies `mGhostZeroUpdateIndex, mGhostRefs, mGhostArray, arrayIndex
      ensures Valid()
      ensures forall g :: 0 <= g < MAX_GHOSTS ==> mGhostRefs[g] == Dirtied(old(mGhostRefs[g]), dirty, dirty.Keys)
    {
      assert mGhostRefs.Length == arrayIndex.Length == MAX_GHOSTS;
      hide Valid;
      hide Dirtied;
      hide WithBits;
      ghost var was := mGhostRefs[..];
      ghost var done: set<nat> := {};
      NoneDirtied(was, dirty);
      var left := dirty.Keys;
      while left != {}
        invariant Valid() && done + left == dirty.Keys && done !! left
        invariant forall g :: 0 <= g < MAX_GHOSTS ==> mGhostRefs[g] == Dirtied(was[g], dirty, done)
        decreases |left|
      {
        var o :| o in left;
        CollapseObject(o, dirty[o]);
        OneDirtied(was, dirty, done, o);
        done, left := done + {o}, left - {o};
      }
      assert done == dirty.Keys;
    }

    method CollapseObject(o: nat, orMask: set<nat>)
      requires Valid()
      modifies `mGhostZeroUpdateIndex, mGhostRefs, mGhostArray, arrayIndex
      ensures Valid()
      ensures forall g :: 0 <= g < MAX_GHOSTS ==> mGhostRefs[g] == WithBits(old(mGhostRefs[g]), o, orMask)
    {
      assert mGhostRefs.Length == arrayIndex.Length == MAX_GHOSTS;
      hide Arranged;
      if orMask != {} && o in mGhostLookupTable { MarkGhost(mGhostLookupTable[o], orMask); }
      assert orMask == {} ==>
        forall g :: 0 <= g < MAX_GHOSTS ==> mGhostRefs[g].updateMask + orMask == mGhostRefs[g].updateMask;
    }

    /** What a destroyed object does to its ghost. */
    method RemoveObject(o: nat)
      requires Valid()
      modifies `mGhostZeroUpdateIndex, `mGhostLookupTable, mGhostRefs, mGhostArray, arrayIndex
      ensures Valid()
      ensures forall g :: 0 <= g < MAX_GHOSTS ==>
        mGhostRefs[g] ==
          if old(mGhostRefs[g].inUse) && old(mGhostRefs[g].obj) == Some(o) then Detach(old(mGhostRefs[g]))
          else old(mGhostRefs[g])
    {
      assert mGhostRefs.Length == arrayIndex.Length == MAX_GHOSTS;
      hide Arranged;
      if o in mGhostLookupTable { DetachObject(mGhostLookupTable[o]); }
    }

    /** Before a scope query the pending ghosts count as out of scope, but for those that are always in. */
    method ClearScope(always: set<nat>)
      requires Valid()
      modifies mGhostRefs
      ensures Valid()
      ensures forall g :: 0 <= g < MAX_GHOSTS ==>
        mGhostRefs[g] ==
          if old(mGhostRefs[g].updateMask) != {} && g !in always then old(mGhostRefs[g]).(inScope := false)
          else old(mGhostRefs[g])
    {
      var i := 0;
      while i < mGhostZeroUpdateIndex
        invariant 0 <= i <= mGhostZeroUpdateIndex && Valid()
        invariant forall g :: 0 <= g < MAX_GHOSTS ==>
          mGhostRefs[g] == if arrayIndex[g] < i && g !in always then old(mGhostRefs[g]).(inScope := false)
            else old(mGhostRefs[g])
      {
        var g := mGhostArray[i];
        if g !in always { Store(g, mGhostRefs[g].(inScope := false)); }
        i := i + 1;
      }
    }

    /** One of an object's ghosts in clearMaskBits.  A mask that loses its last bits without being equal
        to the bits cleared leaves its ghost among the pending ones. */
    method ClearGhostBits(g: nat, orMask: set<nat>)
      requires Valid() && g < MAX_GHOSTS
      modifies `mGhostZeroUpdateIndex, mGhostRefs, mGhostArray, arrayIndex
      ensures mGhostRefs[..]
           == old(mGhostRefs[..][g := mGhostRefs[g].(updateMask := mGhostRefs[g].updateMask - orMask)])
      ensures Valid() <==> !({} < old(mGhostRefs[g].updateMask) < orMask)
    {
      var mask := mGhostRefs[g].updateMask;
      if mask != {} && mask == orMask {
        assert mask - orMask == {};
        ClearMask(g);
      } else {
        mGhostRefs[g] := mGhostRefs[g].(updateMask := mask - orMask);
        assert mask <= (mask - orMask) + orMask;
        assert mask <= orMask ==> mask - orMask == {};
      }
    }

    // ----- notification -----

    method UnchainRecord(g: nat, j: nat)
      requires Valid() && g < MAX_GHOSTS
      modifies mGhostRefs
      ensures Valid() && mGhostRefs[..] == old(mGhostRefs[..][g := Unchain(mGhostRefs[g], j)])
    {
      if mGhostRefs[g].lastUpdateChain == Some(j) { Store(g, mGhostRefs[g].(lastUpdateChain := None)); }
    }

    /** One record of a packet that arrived. */
    method RecordReceived(g: nat, r: GhostRef, j: nat)
      requires Valid() && Settled(mGhostRefs[..], g, r, j)
      modifies `mGhostZeroUpdateIndex, `mGhostFreeIndex, mGhostRefs, mGhostArray, arrayIndex
      ensures Valid() && mGhostRefs[g] == Received(old(mGhostRefs[g]), r, j)
      ensures forall h :: 0 <= h < MAX_GHOSTS && h != g ==> mGhostRefs[h] == old(mGhostRefs[h])
    {
      hide LookupValid;
      UnchainRecord(g, j);
      match r.kind
      case GhostingRef => Store(g, mGhostRefs[g].(ghosting := false));
      case KillingRef => FreeGhostInfo(g);
      case PlainRef =>
    }

    method PacketReceived(j: nat)
      requires Valid() && j < |mNotifyQueue|
      requires forall g :: g in mNotifyQueue[j] ==> Settled(mGhostRefs[..], g, mNotifyQueue[j][g], j)
      modifies `mGhostZeroUpdateIndex, `mGhostFreeIndex, `mNotifyQueue, mGhostRefs, mGhostArray, arrayIndex
      ensures Valid() && mNotifyQueue == old(mNotifyQueue[j := map[]])
      ensures var ghostList := old(mNotifyQueue[j]);
        forall g :: 0 <= g < MAX_GHOSTS ==>
          mGhostRefs[g] == if g in ghostList then Received(old(mGhostRefs[g]), ghostList[g], j) else old(mGhostRefs[g])
    {
      assert mGhostRefs.Length == arrayIndex.Length == MAX_GHOSTS;
      hide Valid;
      hide Received;
      var ghostList := mNotifyQueue[j];
      var left := ghostList.Keys;
      while left != {}
        invariant Valid() && left <= ghostList.Keys && mNotifyQueue == old(mNotifyQueue)
        invariant forall g :: 0 <= g < MAX_GHOSTS ==>
          mGhostRefs[g] == if g in ghostList && g !in left then Received(old(mGhostRefs[g]), ghostList[g], j)
            else old(mGhostRefs[g])
        decreases |left|
      {
        var g :| g in left;
        RecordReceived(g, ghostList[g], j);
        left := left - {g};
      }
      mNotifyQueue := mNotifyQueue[j := map[]];
    }

    /** Walks the update chain of a dropped record. */
    method FlagsToResend(g: nat, r: GhostRef) returns (updateFlags: set<nat>)
      requires Chained(Column(mNotifyQueue, g)) && Lands(Column(mNotifyQueue, g), -1, r.updateChain)
      ensures updateFlags == WalkChain(Column(mNotifyQueue, g), r.mask, r.updateChain)
    {
      ghost var column := Column(mNotifyQueue, g);
      updateFlags := r.mask;
      var walk := r.updateChain;
      while walk.Some? && updateFlags != {}
        invariant Lands(column, -1, walk)
        invariant WalkChain(column, updateFlags, walk) == WalkChain(column, r.mask, r.updateChain)
        decreases if walk.Some? then |mNotifyQueue| - walk.value else 0
      {
        var next := mNotifyQueue[walk.value][g];
        assert column[walk.value] == Some(next);
        updateFlags := updateFlags - next.mask;
        walk := next.updateChain;
      }
    }

    method PutBack(g: nat, updateFlags: set<nat>)
      requires Valid() && g < MAX_GHOSTS && Used(g)
      modifies `mGhostZeroUpdateIndex, mGhostRefs, mGhostArray, arrayIndex
      ensures Valid()
      ensures mGhostRefs[..]
           == old(mGhostRefs[..][g := mGhostRefs[g].(updateMask := mGhostRefs[g].updateMask + updateFlags)])
    {
      if updateFlags != {} { MarkGhost(g, updateFlags); }
      else { assert mGhostRefs[g].updateMask + updateFlags == mGhostRefs[g].updateMask; }
    }

    method RecordLost(g: nat, kind: RefKind, updateFlags: set<nat>, j: nat)
      requires Valid() && g < MAX_GHOSTS && Used(g)
      modifies `mGhostZeroUpdateIndex, mGhostRefs, mGhostArray, arrayIndex
      ensures Valid() && mGhostRefs[..] == old(mGhostRefs[..][g := Lost(mGhostRefs[g], kind, updateFlags, j)])
    {
      assert mGhostRefs.Length == arrayIndex.Length == MAX_GHOSTS;
      PutBack(g, updateFlags);
      UnchainRecord(g, j);
      hide Arranged;
      hide LookupValid;
      match kind
      case GhostingRef => Store(g, mGhostRefs[g].(notYetGhosted := true, ghosting := false));
      case KillingRef => Store(g, mGhostRefs[g].(killGhost := true, killingGhost := false));
      case PlainRef =>
    }

    /** One record of a packet that was dropped. */
    method RecordDropped(g: nat, r: GhostRef, j: nat)
      requires Valid() && g < MAX_GHOSTS && mGhostRefs[g].inUse
      requires j < |mNotifyQueue| && g in mNotifyQueue[j] && mNotifyQueue[j][g] == r && Chained(Column(mNotifyQueue, g))
      modifies `mGhostZeroUpdateIndex, mGhostRefs, mGhostArray, arrayIndex
      ensures Valid() && mGhostRefs[g] == AfterDrop(old(mGhostRefs[g]), mNotifyQueue, g, j)
      ensures forall h :: 0 <= h < MAX_GHOSTS && h != g ==> mGhostRefs[h] == old(mGhostRefs[h])
    {
      assert Column(mNotifyQueue, g)[j] == Some(r);
      var updateFlags := FlagsToResend(g, r);
      RecordLost(g, r.kind, updateFlags, j);
    }

    method PacketDropped(j: nat)
      requires Valid() && j < |mNotifyQueue|
      requires forall g :: g in mNotifyQueue[j] ==>
        g < MAX_GHOSTS && mGhostRefs[g].inUse && Chained(Column(mNotifyQueue, g))
      modifies `mGhostZeroUpdateIndex, `mNotifyQueue, mGhostRefs, mGhostArray, arrayIndex
      ensures Valid() && mNotifyQueue == old(mNotifyQueue[j := map[]])
      ensures forall g :: 0 <= g < MAX_GHOSTS ==> mGhostRefs[g] == old(AfterDrop(mGhostRefs[g], mNotifyQueue, g, j))
    {
      assert mGhostRefs.Length == arrayIndex.Length == MAX_GHOSTS;
      hide AfterDrop;
      hide Chained;
      hide Column;
      hide Valid;
      hide Dropping;
      ghost var was, queue := mGhostRefs[..], mNotifyQueue;
      var ghostList := mNotifyQueue[j];
      var left := ghostList.Keys;
      NoneDropped(was, queue, j);
      while left != {}
        invariant Valid() && left <= ghostList.Keys && mNotifyQueue == queue
        invariant Dropping(was, queue, j, left, mGhostRefs[..])
        decreases |left|
      {
        var g :| g in left;
        ghost var before := mGhostRefs[..];
        DroppingAt(was, queue, j, left, before, g);
        RecordDropped(g, ghostList[g], j);
        DropsOne(was, queue, j, left, before, g, mGhostRefs[..]);
        left := left - {g};
      }
      AllDropped(was, queue, j, mGhostRefs[..]);
      mNotifyQueue := mNotifyQueue[j := map[]];
    }

    // ----- writing a packet -----

    /** Pending ghosts that the scope query did not name are detached. */
    method DetachUnscoped()
      requires Valid()
      modifies `mGhostZeroUpdateIndex, `mGhostLookupTable, mGhostRefs, mGhostArray, arrayIndex
      ensures Valid() && mGhostArray[..] == old(mGhostArray[..]) && mGhostZeroUpdateIndex == old(mGhostZeroUpdateIndex)
      ensures forall g :: 0 <= g < MAX_GHOSTS ==>
        mGhostRefs[g] == if old(Pending(g)) && !old(mGhostRefs[g].inScope) then Detach(old(mGhostRefs[g]))
          else old(mGhostRefs[g])
    {
      assert mGhostRefs.Length == mGhostArray.Length == arrayIndex.Length == MAX_GHOSTS;
      hide LookupValid;
      var i := mGhostZeroUpdateIndex;
      while i > 0
        invariant Valid() && i <= mGhostZeroUpdateIndex == old(mGhostZeroUpdateIndex)
        invariant mGhostArray[..] == old(mGhostArray[..]) && arrayIndex[..] == old(arrayIndex[..])
        invariant forall g :: 0 <= g < MAX_GHOSTS ==>
          mGhostRefs[g] ==
            if i <= arrayIndex[g] < mGhostZeroUpdateIndex && !old(mGhostRefs[g].inScope) then Detach(old(mGhostRefs[g]))
            else old(mGhostRefs[g])
      {
        i := i - 1;
        assert arrayIndex[mGhostArray[i]] == i;
        if !mGhostRefs[mGhostArray[i]].inScope { DetachObject(mGhostArray[i]); }
      }
    }

    /** Pending ghosts to be killed that were never sent are freed; `maxIndex` bounds the rest. */
    method FreeUnsent() returns (maxIndex: nat)
      requires Valid()
      requires forall g :: 0 <= g < MAX_GHOSTS && mGhostRefs[g].inUse && Unsent(mGhostRefs[g]) ==>
        mGhostRefs[g].obj.None? && mGhostRefs[g].lastUpdateChain.None?
      modifies `mGhostZeroUpdateIndex, `mGhostFreeIndex, mGhostRefs, mGhostArray, arrayIndex
      ensures Valid() && maxIndex < MAX_GHOSTS
      ensures forall g :: 0 <= g < MAX_GHOSTS ==>
        mGhostRefs[g] == if old(Pending(g)) && Unsent(old(mGhostRefs[g])) then Free(old(mGhostRefs[g]))
          else old(mGhostRefs[g])
      ensures forall g :: 0 <= g < MAX_GHOSTS && Pending(g) ==> g <= maxIndex
    {
      maxIndex := 0;
      var i := mGhostZeroUpdateIndex;
      while i > 0
        invariant Valid() && i <= mGhostZeroUpdateIndex && i <= old(mGhostZeroUpdateIndex) && maxIndex < MAX_GHOSTS
        invariant forall k :: 0 <= k < i ==> mGhostArray[k] == old(mGhostArray[k])
        invariant forall g :: 0 <= g < MAX_GHOSTS ==>
          mGhostRefs[g] ==
            if i <= old(arrayIndex[g]) < old(mGhostZeroUpdateIndex) && Unsent(old(mGhostRefs[g]))
            then Free(old(mGhostRefs[g])) else old(mGhostRefs[g])
        invariant forall g :: 0 <= g < MAX_GHOSTS && i <= old(arrayIndex[g]) < old(mGhostZeroUpdateIndex) ==>
          g <= maxIndex
      {
        i := i - 1;
        var g := mGhostArray[i];
        if g > maxIndex { maxIndex := g; }
        if mGhostRefs[g].killGhost && mGhostRefs[g].notYetGhosted { FreeGhostInfo(g); }
      }
    }

    ghost predicate Ordered(asked: seq<real>)
      requires Arranged() && |asked| == MAX_GHOSTS
      reads `mGhostZeroUpdateIndex, `mGhostFreeIndex, mGhostRefs, mGhostArray, arrayIndex
    {
      forall a, b :: 0 <= a < b < mGhostZeroUpdateIndex ==>
        Priority(mGhostRefs[mGhostArray[a]], asked[mGhostArray[a]])
          <= Priority(mGhostRefs[mGhostArray[b]], asked[mGhostArray[b]])
    }

    /** The pending ghosts are put in the order of their priorities; `asked` are the objects' answers.
        The source calls qsort and then resets arrayIndex. */
    method SortPending(asked: seq<real>)
      requires Valid() && |asked| == MAX_GHOSTS
      modifies mGhostArray, arrayIndex
      ensures Valid()
      ensures forall g :: 0 <= g < MAX_GHOSTS ==> (Pending(g) <==> old(Pending(g))) && (Used(g) <==> old(Used(g)))
      ensures Ordered(asked)
      ensures forall a, b :: 0 <= a < b < mGhostZeroUpdateIndex ==>
        var g, h := mGhostArray[a], mGhostArray[b];
        && var (was, next) := (mGhostRefs[g], mGhostRefs[h]);
        (if was.killingGhost || was.ghosting then 0.0 else if was.killGhost then 10000.0 else asked[g])
          <= if next.killingGhost || next.ghosting then 0.0 else if next.killGhost then 10000.0 else asked[h]
    {
      ghost var infos := mGhostRefs[..];
      ghost var key := seq(MAX_GHOSTS, g requires 0 <= g < MAX_GHOSTS => Priority(infos[g], asked[g]));
      var i := 0;
      while i < mGhostZeroUpdateIndex
        invariant i <= mGhostZeroUpdateIndex && Valid()
        invariant forall g :: 0 <= g < MAX_GHOSTS ==> (Pending(g) <==> old(Pending(g))) && (Used(g) <==> old(Used(g)))
        invariant forall a, b :: 0 <= a < b < mGhostZeroUpdateIndex && a < i ==>
          key[mGhostArray[a]] <= key[mGhostArray[b]]
      {
        var m := Lightest(i, asked, key);
        SwapPending(m, i);
        i := i + 1;
      }
    }

    method SwapPending(m: nat, i: nat)
      requires Valid() && m < mGhostZeroUpdateIndex && i < mGhostZeroUpdateIndex
      modifies mGhostArray, arrayIndex
      ensures Valid() && mGhostArray[i] == old(mGhostArray[m]) && mGhostArray[m] == old(mGhostArray[i])
      ensures forall k :: 0 <= k < MAX_GHOSTS && k != i && k != m ==> mGhostArray[k] == old(mGhostArray[k])
      ensures forall g :: 0 <= g < MAX_GHOSTS ==> (Pending(g) <==> old(Pending(g))) && (Used(g) <==> old(Used(g)))
    {
      hide LookupValid;
      MoveTo(mGhostArray[m], i);
    }

    /** The place of the pending ghost of least priority from place i on. */
    method Lightest(i: nat, asked: seq<real>, ghost key: seq<real>) returns (m: nat)
      requires Arranged() && |asked| == |key| == MAX_GHOSTS && i < mGhostZeroUpdateIndex
      requires forall g :: 0 <= g < MAX_GHOSTS ==> key[g] == Priority(mGhostRefs[g], asked[g])
      ensures i <= m < mGhostZeroUpdateIndex
      ensures forall b :: i <= b < mGhostZeroUpdateIndex ==> key[mGhostArray[m]] <= key[mGhostArray[b]]
    {
      m := i;
      var k := i + 1;
      while k < mGhostZeroUpdateIndex
        invariant i <= m < k <= mGhostZeroUpdateIndex
        invariant forall b :: i <= b < k ==> key[mGhostArray[m]] <= key[mGhostArray[b]]
      {
        var g, h := mGhostArray[k], mGhostArray[m];
        if Priority(mGhostRefs[g], asked[g]) < Priority(mGhostRefs[h], asked[h]) {
          m := k;
        }
        k := k + 1;
      }
    }

    /** The newest record of the ghost, if still in flight, is chained to the one of packet j. */
    method ChainTo(g: nat, j: nat)
      requires Valid() && g < MAX_GHOSTS && Lands(Column(mNotifyQueue, g), -1, mGhostRefs[g].lastUpdateChain)
      modifies `mNotifyQueue
      ensures Column(mNotifyQueue, g) == Linked(old(Column(mNotifyQueue, g)), mGhostRefs[g].lastUpdateChain, j)
      ensures forall h :: 0 <= h < MAX_GHOSTS && h != g ==> Column(mNotifyQueue, h) == old(Column(mNotifyQueue, h))
    {
      if mGhostRefs[g].lastUpdateChain.Some? {
        var k := mGhostRefs[g].lastUpdateChain.value;
        assert Column(mNotifyQueue, g)[k].Some?;
        var ghostList: map<nat, GhostRef> := mNotifyQueue[k][g := mNotifyQueue[k][g].(updateChain := Some(j))];
        mNotifyQueue := mNotifyQueue[k := ghostList];
      }
    }

    /** One eligible ghost is written; its record is for packet j. */
    method SendGhost(g: nat, j: nat, objects: map<nat, Object>, retMask: set<nat>) returns (upd: GhostRef, e: Entry)
      requires Valid() && g < MAX_GHOSTS && Sendable(mGhostRefs[g], objects, retMask)
      modifies `mGhostZeroUpdateIndex, mGhostRefs, mGhostArray, arrayIndex
      ensures Valid() && mGhostRefs[g] == SentInfo(old(mGhostRefs[g]), retMask, j)
      ensures forall h :: 0 <= h < MAX_GHOSTS && h != g ==> mGhostRefs[h] == old(mGhostRefs[h])
      ensures upd == SentRef(old(mGhostRefs[g]), retMask) && e == SentEntry(old(mGhostRefs[g]), objects, retMask)
      ensures old(arrayIndex[g]) <= mGhostZeroUpdateIndex
      ensures forall k :: 0 <= k < old(arrayIndex[g]) ==> mGhostArray[k] == old(mGhostArray[k])
    {
      hide LookupValid;
      var walk := mGhostRefs[g];
      var updateMask := walk.updateMask;
      if walk.killGhost {
        e := Kill;
        ClearMask(g);
        Store(g, walk.(killGhost := false, killingGhost := true, updateMask := {}, lastUpdateChain := Some(j)));
        upd := GhostRef(updateMask, KillingRef, None);
      } else {
        e := Update(if walk.notYetGhosted then walk.obj else None,
                    map b | b in updateMask - retMask :: objects[walk.obj.value].version[b]);
        upd := GhostRef(updateMask - retMask, if walk.notYetGhosted then GhostingRef else PlainRef, None);
        if retMask == {} { ClearMask(g); }
        Store(g,
              walk.(updateMask := retMask, lastUpdateChain := Some(j), notYetGhosted := false, ghosting := walk.ghosting
                || walk.notYetGhosted));
      }
    }

    /** What the server has on record of each ghost. */
    ghost function Records(): (s: seq<Record>)
      requires mGhostRefs.Length == MAX_GHOSTS
      ensures |s| == MAX_GHOSTS
      reads mGhostRefs, `mNotifyQueue
    {
      var infos := mGhostRefs[..];
      var queue := mNotifyQueue;
      seq(MAX_GHOSTS, g requires 0 <= g < MAX_GHOSTS => Record(infos[g], Column(queue, g)))
    }

    /** The ghost at place i is written unless its creation or removal is in flight. */
    method TrySend(i: nat, j: nat, objects: map<nat, Object>, retMasks: seq<set<nat>>)
      returns (g: nat, wrote: bool, upd: GhostRef, e: Entry)
      requires Valid() && |retMasks| == MAX_GHOSTS && i < mGhostZeroUpdateIndex
      requires Writable(Records()[mGhostArray[i]], objects, retMasks[mGhostArray[i]])
      modifies `mGhostZeroUpdateIndex, `mNotifyQueue, mGhostRefs, mGhostArray, arrayIndex
      ensures Valid() && i <= mGhostZeroUpdateIndex && |mNotifyQueue| == old(|mNotifyQueue|)
      ensures g == old(mGhostArray[i]) && g < MAX_GHOSTS && wrote == Eligible(old(Records()[g].info))
      ensures Records()
           == if wrote then old(Records()[g := SentRecord(Records()[g], retMasks[g], j)]) else old(Records())
      ensures wrote ==>
        upd == SentRef(old(Records()[g].info), retMasks[g])
          && e == SentEntry(old(Records()[g].info), objects, retMasks[g])
      ensures forall k :: 0 <= k < i ==> mGhostArray[k] == old(mGhostArray[k])
    {
      g, upd, e := mGhostArray[i], GhostRef({}, PlainRef, None), Kill;
      wrote := !mGhostRefs[g].killingGhost && !mGhostRefs[g].ghosting;
      if wrote {
        ChainTo(g, j);
        hide Column;
        upd, e := SendGhost(g, j, objects, retMasks[g]);
      }
    }

    ghost predicate Started(places: seq<nat>, infos: seq<GhostInfo>, was: seq<Record>)
      requires mGhostRefs.Length == MAX_GHOSTS
      reads `mGhostZeroUpdateIndex, `mNotifyQueue, mGhostRefs, mGhostArray
    {
      && mGhostZeroUpdateIndex <= MAX_GHOSTS == mGhostArray.Length
      && places == mGhostArray[..mGhostZeroUpdateIndex] && infos == mGhostRefs[..] && was == Records()
      && (forall g :: 0 <= g < MAX_GHOSTS ==> was[g].info == infos[g])
      && (forall a, b :: 0 <= a < b < |places| ==> places[a] != places[b])
      && (forall k :: 0 <= k < |places| ==> places[k] < MAX_GHOSTS)
    }

    /** Writes pending ghosts from the last to the first until the packet is full; `room` is how many
        fit. */
    method WriteLoop(room: nat, objects: map<nat, Object>, retMasks: seq<set<nat>>,
                     ghost places: seq<nat>, ghost infos: seq<GhostInfo>, ghost was: seq<Record>)
      returns (ghost i: nat, ghost sent: seq<nat>, updateList: map<nat, GhostRef>, entries: map<nat, Entry>)
      requires Valid() && |retMasks| == MAX_GHOSTS && Started(places, infos, was)
      requires forall g :: 0 <= g < MAX_GHOSTS ==> Writable(was[g], objects, retMasks[g])
      modifies `mGhostZeroUpdateIndex, `mNotifyQueue, mGhostRefs, mGhostArray, arrayIndex
      ensures Valid() && |mNotifyQueue| == old(|mNotifyQueue|)
      ensures i <= |places| && sent == Visits(places, i, infos)
      ensures |sent| <= room && (i == 0 || |sent| == room)
      ensures Progress(was, Records(), sent, updateList, entries, objects, retMasks, |mNotifyQueue|)
    {
      hide SentRecord;
      hide SentRef;
      hide SentEntry;
      hide Writable;
      hide Eligible;
      hide Progress;
      hide ToCome;
      var j, count := |mNotifyQueue|, 0;
      sent, updateList, entries := [], map[], map[];
      var at: nat := mGhostZeroUpdateIndex;
      assert sent == Visits(places, at, infos);
      assert mGhostRefs.Length == MAX_GHOSTS == |infos| == |was|;
      AllToCome(places, at);
      ProgressStart(was, objects, retMasks, j);
      hide Records;
      hide Visits;
      hide Valid;
      while at > 0 && count < room
        invariant Valid() && at <= mGhostZeroUpdateIndex && at <= |places| && |mNotifyQueue| == j
        invariant |sent| == count <= room
        invariant forall k :: 0 <= k < at ==> mGhostArray[k] == places[k]
        invariant sent == Visits(places, at, infos)
        invariant ToCome(places, at, sent)
        invariant Progress(was, Records(), sent, updateList, entries, objects, retMasks, j)
      {
        at := at - 1;
        NextToCome(places, at, sent);
        VisitsStep(places, at, infos);
        ghost var now := Records();
        ProgressAt(was, now, sent, updateList, entries, objects, retMasks, j, places[at]);
        var g, wrote, upd, e := TrySend(at, j, objects, retMasks);
        if wrote {
          ProgressStep(was, now, sent, updateList, entries, objects, retMasks, j, g);
          updateList, entries, sent := updateList[g := upd], entries[g := e], sent + [g];
          count := count + 1;
        }
      }
      i := at;
    }

    method NotePacket(updateList: map<nat, GhostRef>)
      requires mGhostRefs.Length == MAX_GHOSTS
      modifies `mNotifyQueue
      ensures |mNotifyQueue| == old(|mNotifyQueue|) + 1
      ensures forall g :: 0 <= g < MAX_GHOSTS ==>
        Records()[g] == Noted(old(Records()[g]), if g in updateList then Some(updateList[g]) else None)
    {
      mNotifyQueue := mNotifyQueue + [updateList];
    }

    method WriteNoted(room: nat, objects: map<nat, Object>, retMasks: seq<set<nat>>,
                      ghost places: seq<nat>, ghost infos: seq<GhostInfo>, ghost was: seq<Record>)
      returns (ghost i: nat, ghost sent: seq<nat>, entries: map<nat, Entry>)
      requires Valid() && |retMasks| == MAX_GHOSTS && Started(places, infos, was)
      requires forall g :: 0 <= g < MAX_GHOSTS ==> Writable(was[g], objects, retMasks[g])
      modifies `mGhostZeroUpdateIndex, `mNotifyQueue, mGhostRefs, mGhostArray, arrayIndex
      ensures Valid() && |mNotifyQueue| == old(|mNotifyQueue|) + 1
      ensures i <= |places| && sent == Visits(places, i, infos)
      ensures |sent| <= room && (i == 0 || |sent| == room)
      ensures forall g :: 0 <= g < MAX_GHOSTS ==> (g in sent <==> g in entries)
      ensures forall g :: 0 <= g < MAX_GHOSTS && g in sent ==>
        entries[g] == SentEntry(was[g].info, objects, retMasks[g])
      ensures forall g :: 0 <= g < MAX_GHOSTS ==>
        Records()[g] == Written(was[g], g in sent, retMasks[g], old(|mNotifyQueue|))
    {
      var updateList;
      i, sent, updateList, entries := WriteLoop(room, objects, retMasks, places, infos, was);
      assert mGhostRefs.Length == MAX_GHOSTS;
      hide SentRef;
      hide SentRecord;
      hide Records;
      hide Valid;
      hide Visits;
      NotePacket(updateList);
    }

    method WriteGhosts(room: nat, objects: map<nat, Object>, retMasks: seq<set<nat>>)
      returns (ghost sent: seq<nat>, entries: map<nat, Entry>)
      requires Valid() && |retMasks| == MAX_GHOSTS
      requires forall g :: 0 <= g < MAX_GHOSTS ==> Writable(Records()[g], objects, retMasks[g])
      modifies `mGhostZeroUpdateIndex, `mNotifyQueue, mGhostRefs, mGhostArray, arrayIndex
      ensures Valid() && |mNotifyQueue| == old(|mNotifyQueue|) + 1
      ensures Chosen(sent, old(Records()), room)
      ensures forall g, h ::
        0 <= g < MAX_GHOSTS && 0 <= h < MAX_GHOSTS && g in sent && h !in sent && Eligible(old(Records()[h].info)) ==>
        old(arrayIndex[h]) < old(arrayIndex[g]) < old(mGhostZeroUpdateIndex)
      ensures forall g :: 0 <= g < MAX_GHOSTS ==> (g in sent <==> g in entries)
      ensures forall g :: 0 <= g < MAX_GHOSTS && g in sent ==>
        entries[g] == SentEntry(old(Records()[g].info), objects, retMasks[g])
      ensures forall g :: 0 <= g < MAX_GHOSTS ==>
        Records()[g] == Written(old(Records()[g]), g in sent, retMasks[g], old(|mNotifyQueue|))
    {
      ghost var places, infos, was := mGhostArray[..mGhostZeroUpdateIndex], mGhostRefs[..], Records();
      ghost var at := arrayIndex[..];
      assert forall g :: 0 <= g < MAX_GHOSTS && Eligible(infos[g]) ==> at[g] < |places| && places[at[g]] == g;
      assert Started(places, infos, was);
      hide Valid;
      hide Arranged;
      hide Written;
      ghost var i;
      i, sent, entries := WriteNoted(room, objects, retMasks, places, infos, was);
      assert forall g :: 0 <= g < |was| && Eligible(infos[g]) ==> 0 <= at[g] < |places| && places[at[g]] == g;
      VisitsChosen(places, i, infos, was, sent, room);
    }

    /** The pending ghosts are detached or freed as their flags say. */
    method PrepareGhosts() returns (maxIndex: nat)
      requires Valid()
      requires forall g :: 0 <= g < MAX_GHOSTS ==> Sound(mGhostRefs[g])
      modifies `mGhostZeroUpdateIndex, `mGhostFreeIndex, `mGhostLookupTable, mGhostRefs, mGhostArray, arrayIndex
      ensures Valid() && maxIndex < MAX_GHOSTS
      ensures forall g :: 0 <= g < MAX_GHOSTS ==> mGhostRefs[g] == Prepare(old(mGhostRefs[g]))
      ensures forall g :: 0 <= g < MAX_GHOSTS && Pending(g) ==> g <= maxIndex
    {
      DetachUnscoped();
      maxIndex := FreeUnsent();
    }

    /** The pending ghosts are sorted and written, the most urgent first. */
    method WriteSorted(maxIndex: nat, room: nat, objects: map<nat, Object>, asked: seq<real>, retMasks: seq<set<nat>>)
      returns (sendSize: nat, ghost sent: seq<nat>, entries: map<nat, Entry>)
      requires Valid() && |asked| == |retMasks| == MAX_GHOSTS
      requires forall g :: 0 <= g < MAX_GHOSTS ==> Writable(Records()[g], objects, retMasks[g])
      requires maxIndex < MAX_GHOSTS && forall g :: 0 <= g < MAX_GHOSTS && Pending(g) ==> g <= maxIndex
      modifies `mGhostZeroUpdateIndex, `mNotifyQueue, mGhostRefs, mGhostArray, arrayIndex
      ensures Valid() && |mNotifyQueue| == old(|mNotifyQueue|) + 1
      ensures forall g :: 0 <= g < MAX_GHOSTS ==>
        Records()[g] == Written(old(Records()[g]), g in sent, retMasks[g], old(|mNotifyQueue|))
      ensures Chosen(sent, old(Records()), room)
      ensures 3 <= sendSize <= 10
      ensures forall g :: 0 <= g < MAX_GHOSTS && g in sent ==>
        g < Pow2(sendSize) && g in entries && entries[g] == SentEntry(old(Records()[g].info), objects, retMasks[g])
      ensures MoreUrgent(sent, old(Records()), asked)
    {
      hide Writable;
      hide SentEntry;
      hide Written;
      assert forall g :: 0 <= g < MAX_GHOSTS && Eligible(Records()[g].info) ==> g <= maxIndex;
      SortPending(asked);
      assert Ordered(asked);
      sendSize := SendSize(maxIndex);
      sent, entries := WriteGhosts(room, objects, retMasks);
    }

    /** The ghosts of a packet of an active session. */
    method WriteActive(room: nat, objects: map<nat, Object>, asked: seq<real>, retMasks: seq<set<nat>>)
      returns (sendSize: nat, ghost sent: seq<nat>, entries: map<nat, Entry>)
      requires Valid() && |asked| == |retMasks| == MAX_GHOSTS
      requires forall g :: 0 <= g < MAX_GHOSTS ==> Ready(Records()[g], objects, retMasks[g])
      modifies `mGhostZeroUpdateIndex, `mGhostFreeIndex, `mGhostLookupTable, `mNotifyQueue, mGhostRefs, mGhostArray,
               arrayIndex
      ensures Valid() && |mNotifyQueue| == old(|mNotifyQueue|) + 1
      ensures forall g :: 0 <= g < MAX_GHOSTS ==>
        Records()[g] == Written(old(Prepared(Records(), true)[g]), g in sent, retMasks[g], old(|mNotifyQueue|))
      ensures Chosen(sent, old(Prepared(Records(), true)), room)
      ensures 3 <= sendSize <= 10
      ensures forall g :: 0 <= g < MAX_GHOSTS && g in sent ==>
        && g < Pow2(sendSize)
        && g in entries && entries[g] == SentEntry(old(Prepared(Records(), true)[g].info), objects, retMasks[g])
      ensures MoreUrgent(sent, old(Prepared(Records(), true)), asked)
    {
      ghost var was := Records();
      forall g | 0 <= g < MAX_GHOSTS
        ensures Sound(mGhostRefs[g]) && Writable(Prepared(was, true)[g], objects, retMasks[g])
      {
        ReadyWritable(was[g], objects, retMasks[g]);
      }
      var maxIndex := PrepareGhosts();
      assert Records() == Prepared(was, true);
      hide Records;
      hide Valid;
      hide Chosen;
      hide MoreUrgent;
      hide Prepare;
      hide Written;
      hide SentEntry;
      hide Writable;
      sendSize, sent, entries := WriteSorted(maxIndex, room, objects, asked, retMasks);
    }

    /** One packet's ghosts; `asked` and `retMasks` are what the objects answer when asked for their
        priorities and to pack themselves. */
    method WritePacket(canGhost: bool, room: nat, objects: map<nat, Object>, asked: seq<real>, retMasks: seq<set<nat>>)
      returns (sendSize: nat, ghost sent: seq<nat>, entries: map<nat, Entry>)
      requires Valid() && |asked| == |retMasks| == MAX_GHOSTS
      requires forall g :: 0 <= g < MAX_GHOSTS ==> Ready(Records()[g], objects, retMasks[g])
      modifies `mGhostZeroUpdateIndex, `mGhostFreeIndex, `mGhostLookupTable, `mNotifyQueue, mGhostRefs, mGhostArray,
               arrayIndex
      ensures Valid() && |mNotifyQueue| == old(|mNotifyQueue|) + 1
      ensures forall g :: 0 <= g < MAX_GHOSTS ==>
        Records()[g] == Written(old(Prepared(Records(), canGhost)[g]), g in sent, retMasks[g], old(|mNotifyQueue|))
      ensures if canGhost then Chosen(sent, old(Prepared(Records(), true)), room) else sent == []
      ensures 3 <= sendSize <= 10
      ensures forall g :: 0 <= g < MAX_GHOSTS && g in sent ==>
        && g < Pow2(sendSize)
        && g in entries && entries[g] == SentEntry(old(Prepared(Records(), true)[g].info), objects, retMasks[g])
      ensures MoreUrgent(sent, old(Prepared(Records(), true)), asked)
      // A ghost without updates is left as it is.
      ensures forall g :: 0 <= g < MAX_GHOSTS && (!canGhost || old(mGhostRefs[g]).updateMask == {}) ==>
        mGhostRefs[g] == old(mGhostRefs[g]) && g !in sent
      // A pending ghost out of scope loses its object; it, or any other to be killed, is freed if it
      // was never sent, and is a kill if it is sent now.
      ensures forall g :: 0 <= g < MAX_GHOSTS && canGhost && old(mGhostRefs[g]).updateMask != {} ==>
        var was, now := old(mGhostRefs[g]), mGhostRefs[g];
        && (!was.inScope ==> now.obj == None)
        && ((!was.inScope || was.killGhost) && was.notYetGhosted ==> !now.inUse && now.updateMask == {} && g !in sent)
        && ((!was.inScope || was.killGhost) && !was.notYetGhosted ==>
             && now.inUse && now.killGhost == (g !in sent) && (now.killingGhost <==> was.killingGhost || g in sent)
             && now.updateMask == (if g in sent then {} else was.updateMask)
             && (g in sent ==> entries[g] == Kill))
      // A pending ghost in scope and not to be killed keeps its object and is an update if it is sent,
      // which says the object's class exactly if it is the first.
      ensures forall g :: 0 <= g < MAX_GHOSTS && canGhost && old(mGhostRefs[g]).updateMask != {} ==>
        var was, now := old(mGhostRefs[g]), mGhostRefs[g];
        was.inScope && !was.killGhost ==>
          && now.inUse && now.obj == was.obj && !now.killGhost && now.killingGhost == was.killingGhost
          && (g !in sent ==> now == was)
          && (g in sent ==>
               && now.updateMask == retMasks[g] && !now.notYetGhosted && now.ghosting == was.notYetGhosted
               && was.obj.Some? && was.obj.value in objects
               && entries[g].Update? && entries[g].classId == (if was.notYetGhosted then was.obj else None)
               && entries[g].data.Keys == was.updateMask - retMasks[g]
               && forall b :: b in entries[g].data && b < |objects[was.obj.value].version| ==>
                    entries[g].data[b] == objects[was.obj.value].version[b])
      // While there is room, none is left out but those whose creation or removal is in flight.
      ensures forall g :: 0 <= g < MAX_GHOSTS && canGhost && old(mGhostRefs[g]).updateMask != {} ==>
        var was := old(mGhostRefs[g]);
        && (was.killingGhost || was.ghosting ==> g !in sent)
        && (!was.killingGhost && !was.ghosting && !(was.notYetGhosted && (was.killGhost || !was.inScope)) ==>
             g in sent || |sent| == room)
      // None left out is more urgent than one sent: kills count as 10000, updates as their objects say.
      ensures forall g :: 0 <= g < MAX_GHOSTS && g in sent ==> forall h :: 0 <= h < MAX_GHOSTS && h !in sent ==>
        var was, out := old(mGhostRefs[g]), old(mGhostRefs[h]);
        out.updateMask != {} && !out.killingGhost && !out.ghosting
          && !((out.killGhost || !out.inScope) && out.notYetGhosted) ==>
          (if out.killGhost || !out.inScope then 10000.0 else asked[h])
            <= if was.killGhost || !was.inScope then 10000.0 else asked[g]
    {
      hide LookupValid;
      hide Ready;
      hide Chosen;
      hide Prepare;
      hide SentEntry;
      ghost var was, j := Records(), |mNotifyQueue|;
      assert forall g :: 0 <= g < MAX_GHOSTS ==> was[g].info == mGhostRefs[g];
      if !canGhost {
        sendSize, sent, entries := 3, [], map[];
        NotePacket(map[]);
        return;
      }
      sendSize, sent, entries := WriteActive(room, objects, asked, retMasks);
      ghost var now := Records();
      assert forall g :: 0 <= g < MAX_GHOSTS ==> now[g].info == mGhostRefs[g] && was[g].info == old(mGhostRefs[g]);
      hide *;
      WrittenFlags(was, now, sent, room, objects, retMasks, j, entries);
      SentFlags(was, sent, room, objects, retMasks);
      UrgentFlags(was, sent, room, asked, objects, retMasks);
    }

    // ----- sessions -----

    constructor ()
      ensures Valid() && mNotifyQueue == [] && mGhostFreeIndex == 0
      ensures forall g :: 0 <= g < MAX_GHOSTS ==> mGhostRefs[g] == UNUSED
      ensures fresh(mGhostRefs) && fresh(mGhostArray) && fresh(arrayIndex)
    {
      mGhostRefs := new GhostInfo[MAX_GHOSTS](_ => UNUSED);
      mGhostArray := new nat[MAX_GHOSTS](i => i);
      arrayIndex := new nat[MAX_GHOSTS](i => i);
      mGhostZeroUpdateIndex, mGhostFreeIndex := 0, 0;
      mGhostLookupTable, mNotifyQueue := map[], [];
    }

    /** One ghost in use when the session is reset. */
    method ClearGhost(g: nat)
      requires Valid() && g < MAX_GHOSTS && Used(g)
      modifies `mGhostZeroUpdateIndex, `mGhostFreeIndex, `mGhostLookupTable, mGhostRefs, mGhostArray, arrayIndex
      ensures Valid() && mGhostRefs[..] == old(mGhostRefs[..][g := ClearedInfo(mGhostRefs[g])])
    {
      assert mGhostRefs.Length == arrayIndex.Length == MAX_GHOSTS;
      assert mGhostRefs[g].inUse;
      hide LookupValid;
      DetachObject(g);
      hide Arranged;
      Store(g, mGhostRefs[g].(lastUpdateChain := None));
      FreeGhostInfo(g);
    }

    /** All ghosts are freed and the packets in flight forget them. */
    method ClearGhostInfo()
      requires Valid()
      modifies `mGhostZeroUpdateIndex, `mGhostFreeIndex, `mGhostLookupTable, `mNotifyQueue, mGhostRefs, mGhostArray,
               arrayIndex
      ensures Valid() && mGhostFreeIndex == mGhostZeroUpdateIndex == 0
      ensures |mNotifyQueue| == old(|mNotifyQueue|) && forall j :: 0 <= j < |mNotifyQueue| ==> mNotifyQueue[j] == map[]
      ensures forall g :: 0 <= g < MAX_GHOSTS ==> mGhostRefs[g] == ClearedInfo(old(mGhostRefs[g]))
    {
      mNotifyQueue := seq(|mNotifyQueue|, _ => map[]);
      var i := 0;
      while i < MAX_GHOSTS
        invariant 0 <= i <= MAX_GHOSTS && Valid()
        invariant |mNotifyQueue| == old(|mNotifyQueue|)
        invariant forall j :: 0 <= j < |mNotifyQueue| ==> mNotifyQueue[j] == map[]
        invariant forall g :: 0 <= g < MAX_GHOSTS ==>
          mGhostRefs[g] == if g < i then ClearedInfo(old(mGhostRefs[g])) else old(mGhostRefs[g])
      {
        if arrayIndex[i] < mGhostFreeIndex { ClearGhost(i); }
        i := i + 1;
      }
      if mGhostFreeIndex > 0 { assert Used(mGhostArray[0]); }
    }
  }

  /** The ghosts at the first places, all different, are yet to be sent. */
  ghost predicate ToCome(places: seq<nat>, at: nat, sent: seq<nat>) {
    && (forall a, b :: 0 <= a < b < |places| ==> places[a] != places[b])
    && at <= |places| && forall k :: 0 <= k < at ==> places[k] !in sent
  }

  lemma AllToCome(places: seq<nat>, at: nat)
    requires at <= |places| && forall a, b :: 0 <= a < b < |places| ==> places[a] != places[b]
    ensures ToCome(places, at, [])
  {
  }

  lemma NextToCome(places: seq<nat>, at: nat, sent: seq<nat>)
    requires ToCome(places, at + 1, sent)
    ensures at < |places| && places[at] !in sent
    ensures ToCome(places, at, sent) && ToCome(places, at, sent + [places[at]])
  {
  }

  /** What collapsing the dirty list makes of a ghost once the objects `done` are dealt with. */
  ghost function Dirtied(info: GhostInfo, dirty: map<nat, set<nat>>, done: set<nat>): GhostInfo
    requires done <= dirty.Keys
  {
    if info.inUse && info.obj.Some? && info.obj.value in done
    then info.(updateMask := info.updateMask + dirty[info.obj.value]) else info
  }

  /** What an object's changed bits make of a ghost. */
  ghost function WithBits(info: GhostInfo, o: nat, bits: set<nat>): GhostInfo {
    if info.inUse && info.obj == Some(o) then info.(updateMask := info.updateMask + bits) else info
  }

  lemma NoneDirtied(infos: seq<GhostInfo>, dirty: map<nat, set<nat>>)
    ensures forall g :: 0 <= g < |infos| ==> Dirtied(infos[g], dirty, {}) == infos[g]
  {
  }

  lemma OneDirtied(infos: seq<GhostInfo>, dirty: map<nat, set<nat>>, done: set<nat>, o: nat)
    requires done <= dirty.Keys && o in dirty && o !in done
    ensures forall g :: 0 <= g < |infos| ==>
      WithBits(Dirtied(infos[g], dirty, done), o, dirty[o]) == Dirtied(infos[g], dirty, done + {o})
  {
  }

  /** What packet j, dropped, makes of ghost g. */
  ghost function AfterDrop(info: GhostInfo, queue: seq<map<nat, GhostRef>>, g: nat, j: nat): GhostInfo
    requires j < |queue| && (g in queue[j] ==> Chained(Column(queue, g)))
  {
    if g in queue[j] then Dropped(info, Column(queue, g), j) else info
  }

  /** The records of a dropped packet that are not left have been put back. */
  ghost predicate Dropping(was: seq<GhostInfo>, queue: seq<map<nat, GhostRef>>, j: nat, left: set<nat>,
                           infos: seq<GhostInfo>)
    requires j < |queue| && forall g :: g in queue[j] ==> Chained(Column(queue, g))
  {
    && |was| == |infos|
    && forall g :: 0 <= g < |was| ==> infos[g] == if g in left then was[g] else AfterDrop(was[g], queue, g, j)
  }

  lemma NoneDropped(was: seq<GhostInfo>, queue: seq<map<nat, GhostRef>>, j: nat)
    requires j < |queue| && forall g :: g in queue[j] ==> Chained(Column(queue, g))
    ensures Dropping(was, queue, j, queue[j].Keys, was)
  {
  }

  lemma DroppingAt(was: seq<GhostInfo>, queue: seq<map<nat, GhostRef>>, j: nat, left: set<nat>,
                   infos: seq<GhostInfo>, g: nat)
    requires j < |queue| && forall g :: g in queue[j] ==> Chained(Column(queue, g))
    requires Dropping(was, queue, j, left, infos) && g < |was| && g in left
    ensures g < |infos| && infos[g] == was[g]
  {
  }

  lemma DropsOne(was: seq<GhostInfo>, queue: seq<map<nat, GhostRef>>, j: nat, left: set<nat>,
                 infos: seq<GhostInfo>, g: nat, infos': seq<GhostInfo>)
    requires j < |queue| && forall g :: g in queue[j] ==> Chained(Column(queue, g))
    requires Dropping(was, queue, j, left, infos) && g < |was| == |infos'| && g in left
    requires infos'[g] == AfterDrop(infos[g], queue, g, j)
    requires forall h :: 0 <= h < |was| && h != g ==> infos'[h] == infos[h]
    ensures Dropping(was, queue, j, left - {g}, infos')
  {
    hide AfterDrop;
    hide Chained;
    hide Column;
  }

  lemma AllDropped(was: seq<GhostInfo>, queue: seq<map<nat, GhostRef>>, j: nat, infos: seq<GhostInfo>)
    requires j < |queue| && forall g :: g in queue[j] ==> Chained(Column(queue, g))
    requires Dropping(was, queue, j, {}, infos)
    ensures |was| == |infos| && forall g :: 0 <= g < |was| ==> infos[g] == AfterDrop(was[g], queue, g, j)
  {
  }

  /** A record that can be settled: of a ghost in use, and the newest if it is of a kill. */
  ghost predicate Settled(infos: seq<GhostInfo>, g: nat, r: GhostRef, j: nat) {
    && g < |infos| == MAX_GHOSTS && infos[g].inUse
    && (r.kind.KillingRef? ==>
         infos[g].obj.None? && (infos[g].lastUpdateChain.None? || infos[g].lastUpdateChain == Some(j)))
  }

  ghost predicate Unsent(info: GhostInfo) { info.killGhost && info.notYetGhosted }

  /** The eligible ghosts at the places from i on, the last first. */
  ghost function Visits(places: seq<nat>, i: nat, infos: seq<GhostInfo>): seq<nat>
    requires forall k :: 0 <= k < |places| ==> places[k] < |infos|
    decreases |places| - i
  {
    if i >= |places| then []
    else Visits(places, i + 1, infos) + if Eligible(infos[places[i]]) then [places[i]] else []
  }

  lemma VisitsStep(places: seq<nat>, i: nat, infos: seq<GhostInfo>)
    requires i < |places| && forall k :: 0 <= k < |places| ==> places[k] < |infos|
    ensures Visits(places, i, infos)
         == if Eligible(infos[places[i]]) then Visits(places, i + 1, infos) + [places[i]]
           else Visits(places, i + 1, infos)
  {
  }

  /** Each eligible ghost is visited, and once. */
  lemma {:induction false} VisitsAll(places: seq<nat>, i: nat, infos: seq<GhostInfo>)
    requires i <= |places| && forall k :: 0 <= k < |places| ==> places[k] < |infos|
    requires forall a, b :: 0 <= a < b < |places| ==> places[a] != places[b]
    ensures forall g :: g in Visits(places, i, infos) <==>
      exists k :: i <= k < |places| && places[k] == g && Eligible(infos[g])
    ensures forall a, b :: 0 <= a < b < |Visits(places, i, infos)| ==>
      Visits(places, i, infos)[a] != Visits(places, i, infos)[b]
    decreases |places| - i
  {
    if i < |places| { VisitsAll(places, i + 1, infos); }
  }

  const UNUSED := GhostInfo(false, None, {}, false, false, false, false, false, None)

  /** A new connection sends its first ghost. */
  method SendFirstGhost() returns (c: GhostConnection, g: nat)
    ensures fresh(c) && fresh(c.mGhostRefs) && fresh(c.mGhostArray) && fresh(c.arrayIndex)
    ensures c.Valid() && g < MAX_GHOSTS && c.mGhostRefs[g].inUse && c.mGhostRefs[g].updateMask == {}
  {
    hide SentEntry;
    hide Written;
    hide MoreUrgent;
    hide GhostConnection.LookupValid;
    c := new GhostConnection();
    g := c.ObjectInScope(0);
    assert g < MAX_GHOSTS && c.mGhostRefs[g] == NewInfo(0);
    var objects := map[0 := Object(seq(BITS, b => 0), {})];
    ghost var was := c.Records();
    assert was[g].info == NewInfo(0) && Prepare(was[g].info) == NewInfo(0);
    assert forall h :: 0 <= h < MAX_GHOSTS && h != g ==> was[h].info == UNUSED;
    assert IsBit(0) && 0 in AllBits();
    var sendSize, entries;
    ghost var sent;
    sendSize, sent, entries := c.WritePacket(true, MAX_GHOSTS, objects, seq(MAX_GHOSTS, i => 0.0),
                                             seq(MAX_GHOSTS, i => {}));
    SentWhenRoom(sent, Prepared(was, true), g);
    WrittenInfo(Prepared(was, true)[g], {}, 0);
    assert c.Records()[g].info == SentInfo(NewInfo(0), {}, 0);
  }

  lemma WrittenInfo(r: Record, retMask: set<nat>, j: nat)
    ensures Written(r, true, retMask, j).info == SentInfo(r.info, retMask, j)
  {
  }

  /** An object is ghosted, sent, and changed in bit 0; clearing bits 0 and 1 then takes the last bit
      of the mask and leaves the ghost among the pending ones. */
  method ClearingBreaksSegments() returns (c: GhostConnection)
    ensures !c.Valid()
  {
    var g;
    c, g := SendFirstGhost();
    c.MarkGhost(g, {0});
    assert c.mGhostRefs[g].updateMask == {0};
    c.ClearGhostBits(g, {0, 1});
  }

  /** If only one ghost can be sent and there is room for it, it is. */
  lemma SentWhenRoom(sent: seq<nat>, rs: seq<Record>, g: nat)
    requires Chosen(sent, rs, MAX_GHOSTS) && g < |rs| && Eligible(rs[g].info)
    requires forall h :: 0 <= h < |rs| && h != g ==> !Eligible(rs[h].info)
    ensures g in sent
  {
    if |sent| >= MAX_GHOSTS { assert sent[0] in sent && sent[1] in sent && sent[0] != sent[1]; }
  }

  datatype Record = Record(info: GhostInfo, refs: seq<Option<GhostRef>>)

  /** A ghost that can be written if its turn comes: packUpdate is asked of an object and leaves only
      bits it was asked for. */
  ghost predicate Writable(r: Record, objects: map<nat, Object>, retMask: set<nat>) {
    && Lands(r.refs, -1, r.info.lastUpdateChain)
    && (Eligible(r.info) ==> Sendable(r.info, objects, retMask))
  }

  ghost predicate Sendable(info: GhostInfo, objects: map<nat, Object>, retMask: set<nat>) {
    && Eligible(info) && info.updateMask <= AllBits()
    && (!info.killGhost ==>
         info.obj.Some? && info.obj.value in objects && |objects[info.obj.value].version| == BITS
           && retMask <= info.updateMask)
  }

  ghost function SentInfo(info: GhostInfo, retMask: set<nat>, j: nat): GhostInfo {
    if info.killGhost then KilledInfo(info, j) else UpdatedInfo(info, retMask, j)
  }

  ghost function SentRef(info: GhostInfo, retMask: set<nat>): GhostRef {
    if info.killGhost then KillRef(info) else UpdateRef(info, retMask)
  }

  ghost function SentEntry(info: GhostInfo, objects: map<nat, Object>, retMask: set<nat>): Entry {
    if info.killGhost || !Sendable(info, objects, retMask) then Kill
      else UpdateEntry(info, objects[info.obj.value], retMask)
  }

  ghost function SentRecord(r: Record, retMask: set<nat>, j: nat): Record {
    Record(SentInfo(r.info, retMask, j), if Lands(r.refs, -1, r.info.lastUpdateChain)
      then Linked(r.refs, r.info.lastUpdateChain, j) else r.refs)
  }

  /** A slot's flags are consistent, and nothing is on record of a ghost yet to be sent. */
  ghost predicate Sound(info: GhostInfo) {
    FlagsInv(info) && (info.inUse && info.notYetGhosted ==> info.lastUpdateChain.None?)
  }

  ghost predicate Ready(r: Record, objects: map<nat, Object>, retMask: set<nat>) {
    && Sound(r.info) && Lands(r.refs, -1, r.info.lastUpdateChain)
    && (r.info.inUse && r.info.obj.Some? ==> r.info.obj.value in objects && |objects[r.info.obj.value].version| == BITS)
    && (r.info.inUse ==> retMask <= r.info.updateMask)
  }

  lemma ReadyWritable(r: Record, objects: map<nat, Object>, retMask: set<nat>)
    requires Ready(r, objects, retMask)
    ensures Writable(Record(Prepare(r.info), r.refs), objects, retMask)
  {
  }

  ghost function Prepared(rs: seq<Record>, canGhost: bool): (s: seq<Record>)
    ensures |s| == |rs|
  {
    if canGhost then seq(|rs|, g requires 0 <= g < |rs| => Record(Prepare(rs[g].info), rs[g].refs)) else rs
  }

  /** The ghosts written: eligible ones, each once, and all of them unless the packet is full. */
  ghost predicate Chosen(sent: seq<nat>, rs: seq<Record>, room: nat) {
    && |sent| <= room
    && (forall g :: g in sent ==> g < |rs| && Eligible(rs[g].info))
    && (forall a, b :: 0 <= a < b < |sent| ==> sent[a] != sent[b])
    && (|sent| < room ==> forall g :: 0 <= g < |rs| && Eligible(rs[g].info) ==> g in sent)
  }

  /** No ghost left out has a higher priority than one written. */
  ghost predicate MoreUrgent(sent: seq<nat>, rs: seq<Record>, asked: seq<real>)
    requires |rs| == |asked|
  {
    forall g, h :: 0 <= g < |rs| && 0 <= h < |rs| && g in sent && h !in sent && Eligible(rs[h].info) ==>
      Priority(rs[h].info, asked[h]) <= Priority(rs[g].info, asked[g])
  }

  lemma VisitsChosen(places: seq<nat>, i: nat, infos: seq<GhostInfo>, rs: seq<Record>, sent: seq<nat>, room: nat)
    requires i <= |places| && |rs| == |infos| && forall k :: 0 <= k < |places| ==> places[k] < |infos|
    requires forall a, b :: 0 <= a < b < |places| ==> places[a] != places[b]
    requires forall g :: 0 <= g < |rs| ==> rs[g].info == infos[g]
    requires forall g :: 0 <= g < |rs| && Eligible(infos[g]) ==> exists k :: 0 <= k < |places| && places[k] == g
    requires sent == Visits(places, i, infos) && |sent| <= room && (i == 0 || |sent| == room)
    ensures Chosen(sent, rs, room)
    ensures forall k, l ::
      0 <= k < |places| && 0 <= l < |places| && places[k] in sent && places[l] !in sent ==>
      Eligible(infos[places[l]]) ==> l < k
  {
    VisitsAll(places, i, infos);
  }

  /** Packet j is noted. */
  ghost function Noted(r: Record, ref: Option<GhostRef>): Record {
    r.(refs := r.refs + [ref])
  }

  /** What packet j, being written, makes of a record. */
  ghost function Written(r: Record, chosen: bool, retMask: set<nat>, j: nat): Record {
    if chosen then Noted(SentRecord(r, retMask, j), Some(SentRef(r.info, retMask))) else Noted(r, None)
  }

  /** What the ghosts become, and what is said of them, in terms of their flags. */
  lemma WrittenFlags(rs: seq<Record>, rs': seq<Record>, sent: seq<nat>, room: nat, objects: map<nat, Object>,
                     retMasks: seq<set<nat>>, j: nat, entries: map<nat, Entry>)
    requires |rs| == |rs'| == |retMasks| && Chosen(sent, Prepared(rs, true), room)
    requires forall g :: 0 <= g < |rs| ==> Ready(rs[g], objects, retMasks[g])
    requires forall g :: 0 <= g < |rs| ==> rs'[g] == Written(Prepared(rs, true)[g], g in sent, retMasks[g], j)
    requires forall g :: 0 <= g < |rs| && g in sent ==>
      g in entries && entries[g] == SentEntry(Prepared(rs, true)[g].info, objects, retMasks[g])
    ensures forall g :: 0 <= g < |rs| && rs[g].info.updateMask == {} ==> rs'[g].info == rs[g].info && g !in sent
    ensures forall g :: 0 <= g < |rs| && rs[g].info.updateMask != {} ==>
      var was, now := rs[g].info, rs'[g].info;
      && (!was.inScope ==> now.obj == None)
      && ((!was.inScope || was.killGhost) && was.notYetGhosted ==> !now.inUse && now.updateMask == {} && g !in sent)
      && ((!was.inScope || was.killGhost) && !was.notYetGhosted ==>
           && now.inUse && now.killGhost == (g !in sent) && (now.killingGhost <==> was.killingGhost || g in sent)
           && now.updateMask == (if g in sent then {} else was.updateMask)
           && (g in sent ==> entries[g] == Kill))
    ensures forall g :: 0 <= g < |rs| && rs[g].info.updateMask != {} ==>
      var was, now := rs[g].info, rs'[g].info;
      was.inScope && !was.killGhost ==>
        && now.inUse && now.obj == was.obj && !now.killGhost && now.killingGhost == was.killingGhost
        && (g !in sent ==> now == was)
        && (g in sent ==>
             && now.updateMask == retMasks[g] && !now.notYetGhosted && now.ghosting == was.notYetGhosted
             && was.obj.Some? && was.obj.value in objects
             && entries[g].Update? && entries[g].classId == (if was.notYetGhosted then was.obj else None)
             && entries[g].data.Keys == was.updateMask - retMasks[g]
             && forall b :: b in entries[g].data && b < |objects[was.obj.value].version| ==>
                  entries[g].data[b] == objects[was.obj.value].version[b])
  {
  }

  lemma SentFlags(rs: seq<Record>, sent: seq<nat>, room: nat, objects: map<nat, Object>, retMasks: seq<set<nat>>)
    requires |rs| == |retMasks| && Chosen(sent, Prepared(rs, true), room)
    requires forall g :: 0 <= g < |rs| ==> Ready(rs[g], objects, retMasks[g])
    ensures forall g :: 0 <= g < |rs| && rs[g].info.updateMask != {} ==>
      var was := rs[g].info;
      && (was.killingGhost || was.ghosting ==> g !in sent)
      && (!was.killingGhost && !was.ghosting && !(was.notYetGhosted && (was.killGhost || !was.inScope)) ==>
           g in sent || |sent| == room)
  {
    forall g | 0 <= g < |rs| ensures Prepared(rs, true)[g].info == Prepare(rs[g].info) {}
  }

  lemma UrgentFlags(rs: seq<Record>, sent: seq<nat>, room: nat, asked: seq<real>, objects: map<nat, Object>,
                    retMasks: seq<set<nat>>)
    requires |rs| == |retMasks| == |asked| && Chosen(sent, Prepared(rs, true), room)
    requires forall g :: 0 <= g < |rs| ==> Ready(rs[g], objects, retMasks[g])
    requires MoreUrgent(sent, Prepared(rs, true), asked)
    ensures forall g :: 0 <= g < |rs| && g in sent ==> forall h :: 0 <= h < |rs| && h !in sent ==>
        var was, out := rs[g].info, rs[h].info;
        out.updateMask != {} && !out.killingGhost && !out.ghosting
          && !((out.killGhost || !out.inScope) && out.notYetGhosted) ==>
          (if out.killGhost || !out.inScope then 10000.0 else asked[h])
            <= if was.killGhost || !was.inScope then 10000.0 else asked[g]
  {
    forall g | 0 <= g < |rs| ensures Prepared(rs, true)[g].info == Prepare(rs[g].info) {}
    forall g, h | 0 <= g < |rs| && 0 <= h < |rs| && g in sent && h !in sent && Eligible(Prepare(rs[h].info))
      ensures Eligible(Prepare(rs[g].info))
      ensures Priority(Prepare(rs[h].info), asked[h]) <= Priority(Prepare(rs[g].info), asked[g])
    {
    }
  }

  /** Part of the ghosts are written. */
  ghost predicate Progress(was: seq<Record>, now: seq<Record>, sent: seq<nat>, updateList: map<nat, GhostRef>,
                           entries: map<nat, Entry>,
                           objects: map<nat, Object>, retMasks: seq<set<nat>>, j: nat)
  {
    && |was| == |now| == |retMasks|
    && forall g :: 0 <= g < |was| ==>
         && now[g] == (if g in sent then SentRecord(was[g], retMasks[g], j) else was[g])
         && (g in sent <==> g in entries) && (g in sent <==> g in updateList)
         && (g in sent ==>
              entries[g] == SentEntry(was[g].info, objects, retMasks[g])
                && updateList[g] == SentRef(was[g].info, retMasks[g]))
  }

  lemma ProgressAt(was: seq<Record>, now: seq<Record>, sent: seq<nat>, updateList: map<nat, GhostRef>, entries: map<nat,
                   Entry>,
                   objects: map<nat, Object>, retMasks: seq<set<nat>>, j: nat, g: nat)
    requires Progress(was, now, sent, updateList, entries, objects, retMasks, j) && g < |was| && g !in sent
    ensures now[g] == was[g]
  {
  }

  lemma ProgressStart(was: seq<Record>, objects: map<nat, Object>, retMasks: seq<set<nat>>, j: nat)
    requires |was| == |retMasks|
    ensures Progress(was, was, [], map[], map[], objects, retMasks, j)
  {
  }

  lemma ProgressStep(was: seq<Record>, now: seq<Record>, sent: seq<nat>, updateList: map<nat, GhostRef>,
                     entries: map<nat, Entry>,
                     objects: map<nat, Object>, retMasks: seq<set<nat>>, j: nat, g: nat)
    requires Progress(was, now, sent, updateList, entries, objects, retMasks, j) && g < |was| && g !in sent
    ensures Progress(was, now[g := SentRecord(now[g], retMasks[g], j)], sent + [g],
                     updateList[g := SentRef(was[g].info, retMasks[g])],
                       entries[g := SentEntry(was[g].info, objects, retMasks[g])],
                     objects, retMasks, j)
  {
  }

  function Priority(info: GhostInfo, asked: real): real {
    if info.killingGhost || info.ghosting then 0.0
    else if info.killGhost then 10000.0
    else asked
  }

  /** The number of bits for the indices sent: the fewest that hold maxIndex, but at least 3. */
  method SendSize(maxIndex: nat) returns (sendSize: nat)
    requires maxIndex < MAX_GHOSTS
    ensures 3 <= sendSize <= 10 && maxIndex < Pow2(sendSize)
    ensures sendSize == 3 || Pow2(sendSize - 1) <= maxIndex
  {
    sendSize := 1;
    var rest: nat := maxIndex / 2;
    assert Pow2(10) == MAX_GHOSTS && Pow2(1) == 2;
    while rest > 0
      invariant 1 <= sendSize && Leads(rest, Pow2(sendSize), maxIndex)
      invariant sendSize == 1 || Pow2(sendSize - 1) <= maxIndex
      decreases rest
    {
      Halve(rest, Pow2(sendSize), maxIndex);
      rest := rest / 2;
      sendSize := sendSize + 1;
    }
    assert maxIndex < Pow2(sendSize);
    if sendSize > 10 { Pow2Grows(10, sendSize - 1); }
    if sendSize < 3 { Pow2Grows(sendSize, 3); sendSize := 3; }
  }

  /** rest is what is left of m after division by p. */
  ghost predicate Leads(rest: nat, p: nat, m: nat) { rest * p <= m < (rest + 1) * p }

  lemma Halve(rest: nat, p: nat, m: nat)
    requires Leads(rest, p, m) && rest > 0
    ensures Leads(rest / 2, 2 * p, m) && p <= m
  {
    var h := rest / 2;
    assert rest == 2 * h || rest == 2 * h + 1;
    assert h * (2 * p) == (2 * h) * p;
    assert (h + 1) * (2 * p) == (2 * h + 2) * p;
    if rest == 2 * h { assert (2 * h + 2) * p == (2 * h + 1) * p + p; }
    else { assert (2 * h + 1) * p == (2 * h) * p + p; }
    assert rest * p == (rest - 1) * p + p;
  }
}
