/** The sender's string table (tnl/tnlConnectionStringTable.h, tnl/connectionStringTable.cpp): entries
    linked into an LRU list and into hash chains, all updated in place. */
module ConnectionStringTableObject {
  import opened Wrappers
  import opened StringTable

  const HEAD := ENTRIES        // mLRUHead
  const TAIL := ENTRIES + 1    // mLRUTail
  const NULL := ENTRIES        // the end of a hash chain

  // ----- the LRU list -----

  /** The list with its two sentinels. */
  ghost function Path(order: seq<nat>, k: nat): nat {
    if k == 0 then HEAD else if k <= |order| then order[k - 1] else TAIL
  }

  ghost predicate Linked(next: seq<nat>, prev: seq<nat>, order: seq<nat>) {
    && |next| == |prev| == ENTRIES + 2
    && Permutation(order)
    && forall k :: 0 <= k <= ENTRIES ==> Joined(next, prev, order, k)
  }

  /** Places k and k + 1 of the list point at each other. */
  ghost predicate Joined(next: seq<nat>, prev: seq<nat>, order: seq<nat>, k: nat) {
    var x, y := Path(order, k), Path(order, k + 1);
    x < |next| && y < |prev| && next[x] == y && prev[y] == x
  }

  /** The old place of what is at place k once place i has moved to the back. */
  ghost function Before(i: nat,
                        k: nat): nat { if k <= i then k else if k < ENTRIES then k + 1 else if k == ENTRIES then i + 1
                          else k }

  lemma PathMoved(order: seq<nat>, i: nat, k: nat)
    requires Permutation(order) && i < ENTRIES && k <= ENTRIES + 1
    ensures Path(MovedBack(order, i), k) == Path(order, Before(i, k))
  {
  }

  lemma PathOnce(order: seq<nat>, j: nat, k: nat)
    requires Permutation(order) && j <= ENTRIES + 1 && k <= ENTRIES + 1
    ensures Path(order, j) == Path(order, k) <==> j == k
    ensures Path(order, k) < ENTRIES + 2
  {
  }

  /** One place of the list after the relinking of pushBack. */
  lemma RelinkedNext(next: seq<nat>, prev: seq<nat>, order: seq<nat>, i: nat, next': seq<nat>, prev': seq<nat>, k: nat)
    requires Linked(next, prev, order) && i < ENTRIES && k <= ENTRIES && Relinks(next, prev, order[i], next', prev')
    ensures var x, y := Path(MovedBack(order, i), k), Path(MovedBack(order, i), k + 1); x < |next'| && next'[x] == y
  {
    PathMoved(order, i, k);
    PathMoved(order, i, k + 1);
    var x, y := Before(i, k), Before(i, k + 1);
    assert Path(order, i + 1) == order[i];
    PathOnce(order, x, i);
    PathOnce(order, x, i + 1);
    PathOnce(order, x, ENTRIES);
    PathOnce(order, i, ENTRIES);
    PathOnce(order, i + 2, ENTRIES + 1);
    PathOnce(order, i, i + 1);
    PathOnce(order, i + 1, i + 2);
    PathOnce(order, i + 1, ENTRIES + 1);
    PathOnce(order, i + 1, ENTRIES);
    assert Joined(next, prev, order, i) && Joined(next, prev, order, i + 1) && Joined(next, prev, order, ENTRIES);
    if x <= ENTRIES { assert Joined(next, prev, order, x); }
    hide Permutation;
    hide MovedBack;
    hide Path;
  }

  lemma RelinkedPrev(next: seq<nat>, prev: seq<nat>, order: seq<nat>, i: nat, next': seq<nat>, prev': seq<nat>, k: nat)
    requires Linked(next, prev, order) && i < ENTRIES && k <= ENTRIES && Relinks(next, prev, order[i], next', prev')
    ensures var x, y := Path(MovedBack(order, i), k), Path(MovedBack(order, i), k + 1); y < |prev'| && prev'[y] == x
  {
    PathMoved(order, i, k);
    PathMoved(order, i, k + 1);
    var x, y := Before(i, k), Before(i, k + 1);
    assert Path(order, i + 1) == order[i];
    PathOnce(order, y, i + 1);
    PathOnce(order, y, i + 2);
    PathOnce(order, y, ENTRIES + 1);
    PathOnce(order, i + 2, ENTRIES + 1);
    PathOnce(order, i, i + 1);
    PathOnce(order, i + 1, i + 2);
    PathOnce(order, i + 1, ENTRIES + 1);
    PathOnce(order, i + 1, ENTRIES);
    assert Joined(next, prev, order, i) && Joined(next, prev, order, i + 1) && Joined(next, prev, order, ENTRIES);
    if x <= ENTRIES { assert Joined(next, prev, order, x); }
    hide Permutation;
    hide MovedBack;
    hide Path;
  }

  /** What pushBack writes: the neighbours of the entry are joined, and the entry is put before the
      tail. */
  ghost predicate Relinks(next: seq<nat>, prev: seq<nat>, e: nat, next': seq<nat>, prev': seq<nat>) {
    && |next| == |prev| == |next'| == |prev'| == ENTRIES + 2 && e < ENTRIES && prev[e] < ENTRIES + 2
    && next[e] < ENTRIES + 2
    && var z := if next[e] == TAIL then prev[e] else prev[TAIL];
    && z < ENTRIES + 2
    && next' == next[prev[e] := next[e]][e := TAIL][z := e]
    && prev' == prev[next[e] := prev[e]][e := z][TAIL := e]
  }

  method PushBack(next: array<nat>, prev: array<nat>, entry: nat, ghost order: seq<nat>, ghost i: nat)
    requires next != prev && Linked(next[..], prev[..], order) && i < |order| && order[i] == entry
    modifies next, prev
    ensures Linked(next[..], prev[..], MovedBack(order, i))
  {
    ghost var next0, prev0 := next[..], prev[..];
    PathOnce(order, i, i + 2);
    PathOnce(order, ENTRIES, ENTRIES + 1);
    assert Path(order, i + 1) == entry && Joined(next0, prev0, order, i) && Joined(next0, prev0, order, i + 1);
    assert Joined(next0, prev0, order, ENTRIES);
    next[prev[entry]] := next[entry];
    prev[next[entry]] := prev[entry];
    next[entry] := TAIL;
    prev[entry] := prev[TAIL];
    prev[TAIL] := entry;
    next[prev[entry]] := entry;
    assert Relinks(next0, prev0, entry, next[..], prev[..]);
    MovedBackPermutes(order, i);
    forall k: nat | k <= ENTRIES ensures Joined(next[..], prev[..], MovedBack(order, i), k) {
      RelinkedNext(next0, prev0, order, i, next[..], prev[..], k);
      RelinkedPrev(next0, prev0, order, i, next[..], prev[..], k);
    }
  }

  // ----- the hash chains -----

  ghost function At(list: seq<nat>, k: nat): nat { if k < |list| then list[k] else NULL }

  ghost predicate Next(nextHash: seq<nat>, list: seq<nat>, k: nat)
    requires k < |list|
  {
    list[k] < |nextHash| && nextHash[list[k]] == At(list, k + 1)
  }

  /** The chain that starts at `head` is this list of different entries. */
  ghost predicate Chain(nextHash: seq<nat>, head: nat, list: seq<nat>) {
    && |nextHash| == ENTRIES && head == At(list, 0)
    && (forall k :: 0 <= k < |list| ==> list[k] < ENTRIES)
    && (forall k :: 0 <= k < |list| ==> Next(nextHash, list, k))
    && (forall j, k :: 0 <= j < k < |list| ==> list[j] != list[k])
  }

  /** The entries in a chain are the bound ones whose strings hash to it. */
  ghost predicate InBucket(strings: seq<nat>, bound: set<nat>, b: nat, list: seq<nat>) {
    && |strings| == ENTRIES
    && (forall k :: 0 <= k < |list| ==> list[k] in bound && list[k] < ENTRIES && strings[list[k]] % ENTRIES == b)
    && (forall e :: e in bound && e < ENTRIES && strings[e] % ENTRIES == b ==> Listed(list, e))
  }

  ghost predicate Hashed(strings: seq<nat>, bound: set<nat>, nextHash: seq<nat>, heads: seq<nat>,
                         chains: seq<seq<nat>>) {
    && |heads| == |chains| == ENTRIES
    && forall b :: 0 <= b < ENTRIES ==> Chain(nextHash, heads[b], chains[b]) && InBucket(strings, bound, b, chains[b])
  }

  method Find(strings: array<nat>, nextHash: array<nat>, heads: array<nat>, s: nat, ghost bound: set<nat>,
              ghost chains: seq<seq<nat>>)
    returns (entry: nat)
    requires strings.Length == nextHash.Length == heads.Length == ENTRIES
    requires Hashed(strings[..], bound, nextHash[..], heads[..], chains)
    ensures entry != NULL ==> entry < ENTRIES && entry in bound && strings[entry] == s
    ensures entry == NULL ==> forall e :: e in bound && e < ENTRIES ==> strings[e] != s
  {
    var hashIndex := s % ENTRIES;
    ghost var chain := chains[hashIndex];
    ghost var k: nat := 0;
    assert Chain(nextHash[..], heads[hashIndex], chain) && InBucket(strings[..], bound, hashIndex, chain);
    hide Hashed;
    entry := heads[hashIndex];
    assert k < |chain| ==> Next(nextHash[..], chain, k);
    while entry != NULL && strings[entry] != s
      invariant k < |chain| ==> Next(nextHash[..], chain, k)
      invariant k <= |chain| && entry == At(chain, k)
      invariant forall j :: 0 <= j < k ==> strings[chain[j]] != s
      decreases |chain| - k
    {
      assert Next(nextHash[..], chain, k);
      entry := nextHash[entry];
      k := k + 1;
    }
  }

  ghost function Dropped(list: seq<nat>, k: nat): seq<nat> {
    if k >= |list| then list else list[..k] + list[k + 1..]
  }

  /** Unlinking the element at place k, from its predecessor or from the head. */
  lemma Unlinked(nextHash: seq<nat>, head: nat, list: seq<nat>, k: nat, nextHash': seq<nat>, head': nat)
    requires Chain(nextHash, head, list) && k < |list| && Next(nextHash, list, k)
    requires (k > 0 ==> Next(nextHash, list, k - 1))
    requires head' == (if k == 0 then nextHash[list[k]] else head)
    requires nextHash' == (if k == 0 then nextHash else nextHash[list[k - 1] := nextHash[list[k]]])
    ensures Chain(nextHash', head', Dropped(list, k))
  {
    var list' := Dropped(list, k);
    forall j: nat | j < |list'| ensures Next(nextHash', list', j) {
      var j' := if j < k then j else j + 1;
      assert list'[j] == list[j'] && Next(nextHash, list, j');
    }
  }

  /** Where the entry is in the chain. */
  method Search(nextHash: array<nat>, head: nat, entry: nat, ghost list: seq<nat>)
    returns (before: nat, walk: nat, ghost k: nat)
    requires nextHash.Length == ENTRIES && Chain(nextHash[..], head, list)
    ensures k <= |list| && walk == At(list, k) && before == (if k == 0 then NULL else list[k - 1])
    ensures (k < |list| ==> list[k] == entry) && forall j :: 0 <= j < k ==> list[j] != entry
  {
    before, walk, k := NULL, head, 0;
    while walk != NULL && walk != entry
      invariant k <= |list| && walk == At(list, k) && before == if k == 0 then NULL else list[k - 1]
      invariant forall j :: 0 <= j < k ==> list[j] != entry
      decreases |list| - k
    {
      assert Next(nextHash[..], list, k);
      before := walk;
      walk := nextHash[walk];
      k := k + 1;
    }
  }

  /** The entry is taken out of its chain, if it is in one. */
  method Unhash(bucket: nat, nextHash: array<nat>, heads: array<nat>, entry: nat, ghost list: seq<nat>)
    returns (ghost k: nat)
    requires nextHash != heads && bucket < ENTRIES && entry < ENTRIES && nextHash.Length == heads.Length == ENTRIES
    requires Chain(nextHash[..], heads[bucket], list)
    modifies nextHash, heads
    ensures Chain(nextHash[..], heads[bucket], Dropped(list, k))
    ensures k <= |list| && (k < |list| ==> list[k] == entry) && forall j :: 0 <= j < k ==> list[j] != entry
    ensures forall b :: 0 <= b < ENTRIES && b != bucket ==> heads[b] == old(heads[b])
    ensures forall e :: 0 <= e < ENTRIES && !Listed(list, e) ==> nextHash[e] == old(nextHash[e])
  {
    var before, walk;
    before, walk, k := Search(nextHash, heads[bucket], entry, list);
    if walk == entry {
      assert Next(nextHash[..], list, k) && (k > 0 ==> Next(nextHash[..], list, k - 1));
      Unlinked(nextHash[..], heads[bucket], list, k,
               if k == 0 then nextHash[..]
                 else nextHash[..][list[k - 1] := nextHash[list[k]]], if k == 0 then nextHash[list[k]]
                   else heads[bucket]);
      if before == NULL { heads[bucket] := nextHash[walk]; }
      else { assert Listed(list, before); nextHash[before] := nextHash[walk]; }
    }
  }

  /** Another chain is not touched by changes to entries that are not in it. */
  lemma ChainSame(nextHash: seq<nat>, head: nat, list: seq<nat>, nextHash': seq<nat>)
    requires Chain(nextHash, head, list) && |nextHash'| == ENTRIES
    requires forall e :: 0 <= e < ENTRIES && Listed(list, e) ==> nextHash'[e] == nextHash[e]
    ensures Chain(nextHash', head, list)
  {
    forall k: nat | k < |list|
      ensures Next(nextHash', list, k)
    {
      assert Next(nextHash, list, k) && Listed(list, list[k]);
    }
  }

  lemma DroppedBucket(strings: seq<nat>, bound: set<nat>, b: nat, nextHash: seq<nat>, head: nat, list: seq<nat>, e: nat,
                      k: nat)
    requires Chain(nextHash, head, list) && InBucket(strings, bound, b, list) && e < ENTRIES
    requires strings[e] % ENTRIES == b
    requires k <= |list| && (k < |list| ==> list[k] == e) && forall j :: 0 <= j < k ==> list[j] != e
    ensures InBucket(strings, bound - {e}, b, Dropped(list, k))
    ensures !Listed(Dropped(list, k), e)
  {
    var list' := Dropped(list, k);
    forall x | x in bound - {e} && x < ENTRIES && strings[x] % ENTRIES == b ensures Listed(list', x) {
      assert Listed(list, x);
      var j :| 0 <= j < |list| && list[j] == x;
      assert list'[if j < k then j else j - 1] == x;
    }
  }

  /** No chain holds an entry that is not bound. */
  lemma UnboundUnlisted(strings: seq<nat>, bound: set<nat>, b: nat, list: seq<nat>, e: nat)
    requires InBucket(strings, bound, b, list) && e < ENTRIES && (e !in bound || strings[e] % ENTRIES != b)
    ensures !Listed(list, e)
  {
  }

  /** The entry is taken out of the chain of the string it had. */
  method UnhashEntry(strings: array<nat>, nextHash: array<nat>, heads: array<nat>, entry: nat, ghost bound: set<nat>,
                     ghost chains: seq<seq<nat>>)
    returns (ghost chains': seq<seq<nat>>)
    requires strings != nextHash && strings != heads && nextHash != heads && entry < ENTRIES
    requires strings.Length == nextHash.Length == heads.Length == ENTRIES
    requires Hashed(strings[..], bound, nextHash[..], heads[..], chains)
    modifies nextHash, heads
    ensures Hashed(strings[..], bound - {entry}, nextHash[..], heads[..], chains')
  {
    var bucket := strings[entry] % ENTRIES;
    ghost var nextHash0, heads0 := nextHash[..], heads[..];
    assert Chain(nextHash0, heads0[bucket], chains[bucket]) && InBucket(strings[..], bound, bucket, chains[bucket]);
    ghost var k := Unhash(bucket, nextHash, heads, entry, chains[bucket]);
    chains' := chains[bucket := Dropped(chains[bucket], k)];
    DroppedBucket(strings[..], bound, bucket, nextHash0, heads0[bucket], chains[bucket], entry, k);
    forall b | 0 <= b < ENTRIES
      ensures Chain(nextHash[..], heads[b], chains'[b]) && InBucket(strings[..], bound - {entry}, b, chains'[b])
    {
      assert Chain(nextHash0, heads0[b], chains[b]) && InBucket(strings[..], bound, b, chains[b]);
      if b != bucket {
        OtherBucket(strings[..], bound, bucket, b, chains[bucket], chains[b]);
        ChainSame(nextHash0, heads0[b], chains[b], nextHash[..]);
        UnboundUnlisted(strings[..], bound, b, chains[b], entry);
      }
    }
  }

  lemma OtherBucket(strings: seq<nat>, bound: set<nat>, b: nat, c: nat, list: seq<nat>, other: seq<nat>)
    requires InBucket(strings, bound, b, list) && InBucket(strings, bound, c, other) && b != c
    ensures forall e :: Listed(other, e) ==> !Listed(list, e)
  {
  }

  /** The entry is put in front of the chain of its new string. */
  method HashEntry(strings: array<nat>, nextHash: array<nat>, heads: array<nat>, entry: nat, s: nat,
                   ghost bound: set<nat>, ghost chains: seq<seq<nat>>)
    returns (ghost chains': seq<seq<nat>>)
    requires strings != nextHash && strings != heads && nextHash != heads && entry < ENTRIES && entry !in bound
    requires strings.Length == nextHash.Length == heads.Length == ENTRIES
    requires Hashed(strings[..], bound, nextHash[..], heads[..], chains)
    modifies strings, nextHash, heads
    ensures strings[..] == old(strings[..])[entry := s]
    ensures Hashed(strings[..], bound + {entry}, nextHash[..], heads[..], chains')
  {
    var bucket := s % ENTRIES;
    ghost var strings0, nextHash0, heads0 := strings[..], nextHash[..], heads[..];
    strings[entry] := s;
    nextHash[entry] := heads[bucket];
    heads[bucket] := entry;
    chains' := chains[bucket := [entry] + chains[bucket]];
    forall b | 0 <= b < ENTRIES
      ensures Chain(nextHash[..], heads[b], chains'[b]) && InBucket(strings[..], bound + {entry}, b, chains'[b])
    {
      assert Chain(nextHash0, heads0[b], chains[b]) && InBucket(strings0, bound, b, chains[b]);
      UnboundUnlisted(strings0, bound, b, chains[b], entry);
      ChainSame(nextHash0, heads0[b], chains[b], nextHash[..]);
      if b == bucket {
        PushedChain(nextHash[..], heads0[b], chains[b], entry);
        PushedBucket(strings0, bound, chains[b], entry, s);
      }
    }
  }

  lemma PushedChain(nextHash: seq<nat>, head: nat, list: seq<nat>, e: nat)
    requires Chain(nextHash, head, list) && e < ENTRIES && !Listed(list, e) && nextHash[e] == head
    ensures Chain(nextHash, e, [e] + list)
  {
    var list' := [e] + list;
    forall k: nat | k < |list'| ensures Next(nextHash, list', k) {
      if k > 0 { assert list'[k] == list[k - 1] && Next(nextHash, list, k - 1); }
    }
  }

  lemma PushedBucket(strings: seq<nat>, bound: set<nat>, list: seq<nat>, e: nat, s: nat)
    requires InBucket(strings, bound, s % ENTRIES, list) && e < ENTRIES && e !in bound
    ensures InBucket(strings[e := s], bound + {e}, s % ENTRIES, [e] + list)
  {
    var list' := [e] + list;
    assert forall k :: 0 < k < |list'| ==> list'[k] == list[k - 1];
    forall x | x in bound + {e} && x < ENTRIES && strings[e := s][x] % ENTRIES == s % ENTRIES ensures Listed(list', x) {
      if x == e { assert list'[0] == e; }
      else {
        assert Listed(list, x);
        var j :| 0 <= j < |list| && list[j] == x;
        assert list'[j + 1] == x;
      }
    }
  }

  class ConnectionStringTable {
    /** The fields of mEntryTable, and of the sentinels for the links. */
    const strings: array<nat>
    const receiveConfirmed: array<bool>
    const nextLink: array<nat>
    const prevLink: array<nat>
    const nextHash: array<nat>
    const mHashTable: array<nat>
    const mRemoteStringTable: array<Option<nat>>
    ghost var Order: seq<nat>
    ghost var Bound: set<nat>
    ghost var Chains: seq<seq<nat>>

    ghost function View(): Table
      requires strings.Length == receiveConfirmed.Length == ENTRIES
      reads this, strings, receiveConfirmed
    {
      TableOf(strings[..], receiveConfirmed[..], Bound, Order)
    }

    ghost predicate Shape() {
      && strings.Length == receiveConfirmed.Length == nextHash.Length == mHashTable.Length == ENTRIES
      && strings != nextLink && strings != prevLink && strings != nextHash && strings != mHashTable
      && nextLink != prevLink && nextLink != nextHash && nextLink != mHashTable
      && prevLink != nextHash && prevLink != mHashTable && nextHash != mHashTable
    }

    ghost predicate LinksValid()
      reads `Order, nextLink, prevLink
    {
      Linked(nextLink[..], prevLink[..], Order)
    }

    ghost predicate HashValid()
      reads `Bound, `Chains, strings, nextHash, mHashTable
    {
      Hashed(strings[..], Bound, nextHash[..], mHashTable[..], Chains)
    }

    /** The links and chains are well formed, no string has two entries, and each bound entry is in
        the one chain of its string. */
    ghost predicate Valid()
      reads this, strings, receiveConfirmed, nextLink, prevLink, nextHash, mHashTable
    {
      Shape() && LinksValid() && HashValid() && StringTable.Valid(View())
    }

    constructor ()
      ensures Valid() && View() == NewTable() && mRemoteStringTable.Length == ENTRIES
    {
      strings := new nat[ENTRIES](_ => 0);
      receiveConfirmed := new bool[ENTRIES](_ => false);
      nextLink := new nat[ENTRIES + 2](i => if i == HEAD then 0 else if i == ENTRIES - 1 then TAIL else i + 1);
      prevLink := new nat[ENTRIES + 2](i => if i == 0 then HEAD else if i == TAIL then ENTRIES - 1
        else if i == HEAD then 0 else i - 1);
      nextHash := new nat[ENTRIES](_ => NULL);
      mHashTable := new nat[ENTRIES](_ => NULL);
      mRemoteStringTable := new Option<nat>[ENTRIES](_ => None);
      Order, Bound, Chains := NewTable().order, {}, seq(ENTRIES, b => []);
      new;
      NewLinks(nextLink[..], prevLink[..]);
      hide Linked;
      NewHash(strings[..], nextHash[..], mHashTable[..], Chains);
      hide Hashed;
      assert View().entries == NewTable().entries;
    }

    /** The entry becomes the most recently used one. */
    method Touch(entry: nat)
      requires Shape() && LinksValid() && Listed(Order, entry)
      modifies `Order, nextLink, prevLink
      ensures LinksValid() && Order == old(MovedBack(Order, Place(Order, entry)))
    {
      PushBack(nextLink, prevLink, entry, Order, Place(Order, entry));
      Order := MovedBack(Order, Place(Order, entry));
    }

    /** The entry gets another string. */
    method Rebind(entry: nat, s: nat)
      requires Shape() && HashValid() && entry < ENTRIES
      modifies `Bound, `Chains, strings, receiveConfirmed, nextHash, mHashTable
      ensures HashValid() && Bound == old(Bound) + {entry}
      ensures strings[..] == old(strings[..])[entry := s]
      ensures receiveConfirmed[..] == old(receiveConfirmed[..])[entry := false]
    {
      ghost var chains := UnhashEntry(strings, nextHash, mHashTable, entry, Bound, Chains);
      chains := HashEntry(strings, nextHash, mHashTable, entry, s, Bound - {entry}, chains);
      receiveConfirmed[entry] := false;
      Chains, Bound := chains, Bound + {entry};
      assert Bound == old(Bound) - {entry} + {entry};
    }

    method WriteStringTableEntry(s: nat) returns (r: Ref)
      requires Valid()
      modifies this, strings, receiveConfirmed, nextLink, prevLink, nextHash, mHashTable
      ensures Valid() && View() == Write(old(View()), s) && r == WrittenRef(old(View()), s)
      ensures r.index in Bound && old(Bound) <= Bound
    {
      ghost var t := View();
      var sendEntry := Find(strings, nextHash, mHashTable, s, Bound, Chains);
      FoundEntry(strings[..], receiveConfirmed[..], Bound, Order, s, sendEntry);
      WriteKeepsValid(t, s);
      hide Hashed;
      hide EntryFor;
      hide StringTable.Valid;
      if sendEntry == NULL {
        sendEntry := nextLink[HEAD];
        assert Joined(nextLink[..], prevLink[..], Order, 0);
        hide Linked;
        ReboundTable(strings[..], receiveConfirmed[..], Bound, Order, sendEntry, s);
        Touch(sendEntry);
        Rebind(sendEntry, s);
      } else {
        hide Linked;
        Touch(sendEntry);
      }
      r := Ref(sendEntry, if receiveConfirmed[sendEntry] then None else Some(s), s);
    }

    /** One reference that came in a packet. */
    method ReadStringTableEntry(r: Ref) returns (text: Option<nat>)
      requires r.index < mRemoteStringTable.Length
      modifies mRemoteStringTable
      ensures mRemoteStringTable[..] == ReadRef(old(mRemoteStringTable[..]), r) && text == mRemoteStringTable[r.index]
    {
      if r.text.Some? { mRemoteStringTable[r.index] := r.text; }
      text := mRemoteStringTable[r.index];
    }

    /** The string of one reference in a packet that arrived. */
    method ConfirmString(r: Ref)
      requires Valid() && r.text.Some? && r.index in Bound && r.index < ENTRIES
      modifies receiveConfirmed
      ensures Valid() && View().entries == Confirm(old(View()).entries, r) && View().order == old(View()).order
    {
      ghost var t := View();
      if strings[r.index] == r.text.value { receiveConfirmed[r.index] := true; }
      hide Hashed;
      hide Linked;
      assert View().entries == Confirm(t.entries, r);
    }

    /** The strings that a packet carried, when it arrived; a dropped packet's are just forgotten. */
    method PacketReceived(note: seq<Ref>)
      requires Valid()
      requires forall k :: 0 <= k < |note| ==> note[k].text.Some? && note[k].index in Bound && note[k].index < ENTRIES
      modifies receiveConfirmed
      ensures Valid() && View().entries == ConfirmAll(old(View()).entries, note) && View().order == old(View()).order
    {
      ghost var t := View();
      var k := 0;
      hide Valid;
      hide View;
      hide Confirm;
      while k < |note|
        invariant 0 <= k <= |note| && Valid() && View().order == t.order
        invariant ConfirmAll(View().entries, note[k..]) == ConfirmAll(t.entries, note)
      {
        ConfirmString(note[k]);
        k := k + 1;
      }
    }
  }

  lemma NewHash(strings: seq<nat>, nextHash: seq<nat>, heads: seq<nat>, chains: seq<seq<nat>>)
    requires |strings| == |nextHash| == |heads| == |chains| == ENTRIES
    requires forall b :: 0 <= b < ENTRIES ==> heads[b] == NULL && chains[b] == []
    ensures Hashed(strings, {}, nextHash, heads, chains)
  {
  }

  lemma NewLinks(next: seq<nat>, prev: seq<nat>)
    requires |next| == |prev| == ENTRIES + 2
    requires forall i :: 0 <= i < ENTRIES + 2 ==>
      next[i] == if i == HEAD then 0 else if i == ENTRIES - 1 then TAIL else i + 1
    requires forall i :: 0 <= i < ENTRIES + 2 ==>
      prev[i] == if i == 0 then HEAD else if i == TAIL then ENTRIES - 1 else if i == HEAD then 0 else i - 1
    ensures Linked(next, prev, NewTable().order)
  {
    var order := NewTable().order;
    forall e | 0 <= e < ENTRIES ensures Listed(order, e) { assert order[e] == e; }
  }

  lemma ReboundTable(strings: seq<nat>, confirmed: seq<bool>, bound: set<nat>, order: seq<nat>, e: nat, s: nat)
    requires |strings| == |confirmed| == ENTRIES && e < ENTRIES
    ensures TableOf(strings[e := s], confirmed[e := false], bound + {e}, order).entries
         == TableOf(strings, confirmed, bound, order).entries[e := Entry(Some(s), false)]
  {
  }

  ghost function TableOf(strings: seq<nat>, confirmed: seq<bool>, bound: set<nat>, order: seq<nat>): Table
    requires |strings| == |confirmed| == ENTRIES
  {
    Table(seq(ENTRIES,
              e requires 0 <= e < ENTRIES => Entry(if e in bound then Some(strings[e]) else None, confirmed[e])), order)
  }

  lemma FoundEntry(strings: seq<nat>, confirmed: seq<bool>, bound: set<nat>, order: seq<nat>, s: nat, entry: nat)
    requires |strings| == |confirmed| == ENTRIES && StringTable.Valid(TableOf(strings, confirmed, bound, order))
    requires entry != NULL ==> entry < ENTRIES && entry in bound && strings[entry] == s
    requires entry == NULL ==> forall e :: e in bound && e < ENTRIES ==> strings[e] != s
    ensures var t := TableOf(strings, confirmed, bound, order);
      && (Knows(t, s) <==> entry != NULL)
      && EntryFor(t, s) == (if entry != NULL then entry else order[0])
      && (entry != NULL ==> Listed(order, entry)) && Listed(order, order[0])
  {
    var t := TableOf(strings, confirmed, bound, order);
    if entry != NULL { assert StringTable.Bound(t, entry, s); }
  }
}
