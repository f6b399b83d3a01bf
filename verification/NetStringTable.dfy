/** The interning string table (tnl/netStringTable.cpp): a node list whose free slots form a list of
    their own, and hash buckets chained through the nodes. */
module NetStringTable {
  datatype Node = Node(masterIndex: nat, nextIndex: nat, hash: nat, refCount: nat, text: seq<nat>)

  /** Node::refCount has 16 bits. */
  const COUNT_LIMIT := 0x1_0000

  /** A slot of the node list: a node, or a member of the free list with the next member's index.
      Index 0 is the empty string, so 0 stands for none. */
  datatype Slot = Free(next: nat) | Live(node: Node)

  ghost function At(list: seq<nat>, k: nat): nat { if k < |list| then list[k] else 0 }

  ghost predicate Listed(list: seq<nat>, id: nat) { exists k :: 0 <= k < |list| && list[k] == id }

  ghost predicate Ids(list: seq<nat>, size: nat) {
    && (forall k :: 0 <= k < |list| ==> 0 < list[k] < size)
    && (forall j, k :: 0 <= j < k < |list| ==> list[j] != list[k])
  }

  ghost predicate Next(slots: seq<Slot>, list: seq<nat>, k: nat) {
    k < |list| && list[k] < |slots| && slots[list[k]].Live? && slots[list[k]].node.nextIndex == At(list, k + 1)
  }

  /** The bucket chain from `head` is this list. */
  ghost predicate Chain(slots: seq<Slot>, head: nat, list: seq<nat>) {
    && Ids(list, |slots|) && head == At(list, 0)
    && forall k: nat :: k < |list| ==> Next(slots, list, k)
  }

  ghost predicate NextFree(slots: seq<Slot>, list: seq<nat>, k: nat) {
    k < |list| && list[k] < |slots| && slots[list[k]] == Free(At(list, k + 1))
  }

  ghost predicate FreeChain(slots: seq<Slot>, head: nat, list: seq<nat>) {
    && Ids(list, |slots|) && head == At(list, 0)
    && forall k: nat :: k < |list| ==> NextFree(slots, list, k)
  }

  ghost predicate Sound(hash: seq<nat> -> nat, slots: seq<Slot>, id: nat) {
    id < |slots| && (slots[id].Live? ==>
      var n := slots[id].node;
      n.masterIndex == id && n.hash == hash(n.text) && n.refCount < COUNT_LIMIT && n.text != [])
  }

  /** The chain of bucket b has the live nodes whose hash belongs there. */
  ghost predicate Bucket(slots: seq<Slot>, n: nat, b: nat, list: seq<nat>)
    requires n > 0
  {
    forall id: nat :: 0 < id < |slots| ==> (Listed(list, id) <==> slots[id].Live? && slots[id].node.hash % n == b)
  }

  ghost predicate ChainAt(slots: seq<Slot>, buckets: seq<nat>, chains: seq<seq<nat>>, b: nat) {
    b < |buckets| == |chains| && Chain(slots, buckets[b], chains[b]) && Bucket(slots, |buckets|, b, chains[b])
  }

  ghost predicate Buckets(slots: seq<Slot>, buckets: seq<nat>, chains: seq<seq<nat>>) {
    |buckets| == |chains| && |buckets| > 0 && forall b: nat :: b < |buckets| ==> ChainAt(slots, buckets, chains, b)
  }

  /** Live nodes are sound and their texts different; the free list has all the other slots. */
  ghost predicate Nodes(hash: seq<nat> -> nat, slots: seq<Slot>, freeHead: nat, freeList: seq<nat>) {
    && |slots| > 0 && slots[0].Free?
    && (forall id: nat :: 0 < id < |slots| ==> Sound(hash, slots, id))
    && (forall i, j :: 0 < i < j < |slots| && slots[i].Live? && slots[j].Live? ==>
         slots[i].node.text != slots[j].node.text)
    && FreeChain(slots, freeHead, freeList)
    && (forall id: nat :: 0 < id < |slots| ==> (slots[id].Free? <==> Listed(freeList, id)))
  }

  /** What the table stands for: the strings with their counts of references, by id. */
  ghost function Entries(slots: seq<Slot>): map<nat, (seq<nat>, nat)> {
    map id: nat | 0 < id < |slots| && slots[id].Live? :: (slots[id].node.text, slots[id].node.refCount)
  }

  // ----- changing one slot -----

  /** A change to a node that keeps its place in its chain. */
  lemma ChainKept(slots: seq<Slot>, head: nat, list: seq<nat>, slots': seq<Slot>)
    requires Chain(slots, head, list) && |slots'| >= |slots|
    requires forall id: nat :: Listed(list, id) && id < |slots| ==>
      slots'[id].Live? && slots[id].Live? && slots'[id].node.nextIndex == slots[id].node.nextIndex
    ensures Chain(slots', head, list)
  {
    forall k: nat | k < |list| ensures Next(slots', list, k) { assert Next(slots, list, k) && Listed(list, list[k]); }
  }

  lemma FreeKept(slots: seq<Slot>, head: nat, list: seq<nat>, slots': seq<Slot>)
    requires FreeChain(slots, head, list) && |slots'| >= |slots|
    requires forall id: nat :: Listed(list, id) && id < |slots| ==> slots'[id] == slots[id]
    ensures FreeChain(slots', head, list)
  {
    forall k: nat | k < |list|
      ensures NextFree(slots', list, k)
    {
      assert NextFree(slots, list, k) && Listed(list, list[k]);
    }
  }

  /** The reference count of a live node changes. */
  lemma Recounted(hash: seq<nat> -> nat, slots: seq<Slot>, buckets: seq<nat>, chains: seq<seq<nat>>, freeHead: nat,
                  freeList: seq<nat>, id: nat, count: nat)
    requires Buckets(slots, buckets, chains) && Nodes(hash, slots, freeHead, freeList) && 0 < id < |slots|
    requires slots[id].Live? && count < COUNT_LIMIT
    ensures var slots' := slots[id := Live(slots[id].node.(refCount := count))];
      Buckets(slots', buckets, chains) && Nodes(hash, slots', freeHead, freeList)
        && Entries(slots') == Entries(slots)[id := (slots[id].node.text, count)]
  {
    var slots' := slots[id := Live(slots[id].node.(refCount := count))];
    assert Sound(hash, slots, id);
    forall i: nat | 0 < i < |slots'| ensures Sound(hash, slots', i) { assert Sound(hash, slots, i); }
    FreeKept(slots, freeHead, freeList, slots');
    forall b: nat | b < |buckets| ensures ChainAt(slots', buckets, chains, b) {
      assert ChainAt(slots, buckets, chains, b);
      ChainKept(slots, buckets[b], chains[b], slots');
    }
  }

  // ----- adding a node -----

  /** The slots with a link from node `from`, or from the bucket if it is 0, to id. */
  ghost function Linked(slots: seq<Slot>, from: nat, id: nat): seq<Slot>
    requires from < |slots| && (from > 0 ==> slots[from].Live?)
  {
    if from == 0 then slots else slots[from := Live(slots[from].node.(nextIndex := id))]
  }

  ghost predicate LastOf(list: seq<nat>, last: nat) { last == if list == [] then 0 else list[|list| - 1] }

  lemma LongerChain(slots: seq<Slot>, head: nat, list: seq<nat>, last: nat, id: nat, node: Node, slots': seq<Slot>)
    requires Chain(slots, head, list) && LastOf(list, last) && 0 < id < |slots| && !Listed(list, id)
    requires node.nextIndex == 0
    requires last < |slots| && (last > 0 ==> slots[last].Live?) && slots' == Linked(slots, last, id)[id := Live(node)]
    ensures Chain(slots', if list == [] then id else head, list + [id])
  {
    var list' := list + [id];
    forall k: nat | k < |list'| ensures Next(slots', list', k) {
      if k < |list| { assert Next(slots, list, k) && Listed(list, list[k]); }
    }
  }

  /** A text that is not in the table takes the first free slot and the end of its chain. */
  ghost predicate Adds(slots: seq<Slot>, buckets: seq<nat>, chains: seq<seq<nat>>, freeList: seq<nat>, last: nat,
                       id: nat, node: Node,
                       slots': seq<Slot>, buckets': seq<nat>)
  {
    && Buckets(slots, buckets, chains) && freeList != [] && id == freeList[0] && 0 < id < |slots|
    && node.nextIndex == 0 && node.masterIndex == id
    && var b := node.hash % |buckets|;
       && LastOf(chains[b], last) && last < |slots| && (last > 0 ==> slots[last].Live?)
       && slots' == Linked(slots, last, id)[id := Live(node)]
       && buckets' == if chains[b] == [] then buckets[b := id] else buckets
  }

  lemma AddedBucket(hash: seq<nat> -> nat, slots: seq<Slot>, buckets: seq<nat>, chains: seq<seq<nat>>, freeHead: nat,
                    freeList: seq<nat>, last: nat, id: nat, node: Node,
                    slots': seq<Slot>, buckets': seq<nat>, b: nat)
    requires Adds(slots, buckets, chains, freeList, last, id, node, slots', buckets')
    requires Nodes(hash, slots, freeHead, freeList) && b < |buckets|
    ensures var c := node.hash % |buckets|; ChainAt(slots', buckets', chains[c := chains[c] + [id]], b)
  {
    var c := node.hash % |buckets|;
    assert ChainAt(slots, buckets, chains, b) && ChainAt(slots, buckets, chains, c);
    assert Listed(freeList, id) by { assert freeList[0] == id; }
    assert !Listed(chains[b], id);
    var chains' := chains[c := chains[c] + [id]];
    if last > 0 { assert Listed(chains[c], last); }
    if b == c {
      LongerChain(slots, buckets[c], chains[c], last, id, node, slots');
      forall x: nat | 0 < x < |slots'| ensures Listed(chains'[c], x) <==>
           slots'[x].Live? && slots'[x].node.hash % |buckets| == c {
        ListedMore(chains[c], id, x);
      }
    } else {
      ChainKept(slots, buckets[b], chains[b], slots');
    }
  }

  lemma ListedMore(list: seq<nat>, id: nat, x: nat)
    ensures Listed(list + [id], x) <==> Listed(list, x) || x == id
  {
    var list' := list + [id];
    assert list'[|list|] == id;
    if k :| 0 <= k < |list| && list[k] == x { assert list'[k] == x; }
  }

  lemma ListedTail(list: seq<nat>, x: nat)
    requires list != [] && forall j, k :: 0 <= j < k < |list| ==> list[j] != list[k]
    ensures Listed(list[1..], x) <==> Listed(list, x) && x != list[0]
  {
    if k :| 0 <= k < |list| && list[k] == x && k > 0 { assert list[1..][k - 1] == x; }
  }

  /** Only the node linked to it, which keeps its text and count, and the slot itself change. */
  lemma AddedSlots(hash: seq<nat> -> nat, slots: seq<Slot>, buckets: seq<nat>, chains: seq<seq<nat>>, freeHead: nat,
                   freeList: seq<nat>, last: nat, id: nat, node: Node,
                   slots': seq<Slot>, buckets': seq<nat>)
    requires Adds(slots, buckets, chains, freeList, last, id, node, slots', buckets')
    requires Nodes(hash, slots, freeHead, freeList)
    ensures |slots'| == |slots| && slots'[id] == Live(node) && slots[id].Free? && slots'[0].Free?
    ensures Listed(freeList, id)
    ensures forall i: nat :: 0 < i < |slots| && i != id ==>
      (slots'[i].Free? <==> slots[i].Free?) && (slots[i].Free? ==> slots'[i] == slots[i])
      && (slots[i].Live? ==> slots'[i].node.(nextIndex := 0) == slots[i].node.(nextIndex := 0))
  {
    assert NextFree(slots, freeList, 0) && freeList[0] == id;
    hide Sound;
    hide ChainAt;
  }

  lemma ShorterFree(slots: seq<Slot>, freeHead: nat, freeList: seq<nat>, slots': seq<Slot>)
    requires FreeChain(slots, freeHead, freeList) && freeList != [] && |slots'| == |slots|
    requires forall i: nat :: 0 < i < |slots| && i != freeList[0] && slots[i].Free? ==> slots'[i] == slots[i]
    ensures slots[freeList[0]].Free? && FreeChain(slots', slots[freeList[0]].next, freeList[1..])
  {
    assert NextFree(slots, freeList, 0);
    var rest := freeList[1..];
    forall k: nat | k < |rest| ensures NextFree(slots', rest, k) { assert NextFree(slots, freeList, k + 1); }
  }

  lemma AddedNodes(hash: seq<nat> -> nat, slots: seq<Slot>, buckets: seq<nat>, chains: seq<seq<nat>>, freeHead: nat,
                   freeList: seq<nat>, last: nat, id: nat, node: Node,
                   slots': seq<Slot>, buckets': seq<nat>)
    requires Adds(slots, buckets, chains, freeList, last, id, node, slots', buckets')
    requires Nodes(hash, slots, freeHead, freeList)
    requires node.hash == hash(node.text) && node.refCount < COUNT_LIMIT && node.text != []
    requires forall i: nat :: 0 < i < |slots| && slots[i].Live? ==> slots[i].node.text != node.text
    ensures slots[id].Free? && Nodes(hash, slots', slots[id].next, freeList[1..])
    ensures Entries(slots') == Entries(slots)[id := (node.text, node.refCount)]
  {
    AddedSlots(hash, slots, buckets, chains, freeHead, freeList, last, id, node, slots', buckets');
    assert freeList != [] && id == freeList[0] && node.masterIndex == id && 0 < id < |slots|;
    ShorterFree(slots, freeHead, freeList, slots');
    hide Adds;
    forall i: nat | 0 < i < |slots'| ensures Sound(hash, slots', i) { assert Sound(hash, slots, i); }
    forall x: nat ensures Listed(freeList[1..], x) <==> Listed(freeList, x) && x != id { ListedTail(freeList, x); }
    hide FreeChain;
    hide Sound;
  }

  lemma Added(hash: seq<nat> -> nat, slots: seq<Slot>, buckets: seq<nat>, chains: seq<seq<nat>>, freeHead: nat,
              freeList: seq<nat>, last: nat, id: nat, node: Node,
              slots': seq<Slot>, buckets': seq<nat>)
    requires Adds(slots, buckets, chains, freeList, last, id, node, slots', buckets')
    requires Nodes(hash, slots, freeHead, freeList)
    ensures var c := node.hash % |buckets|; Buckets(slots', buckets', chains[c := chains[c] + [id]])
  {
    var c := node.hash % |buckets|;
    var chains' := chains[c := chains[c] + [id]];
    forall b: nat | b < |buckets'| ensures ChainAt(slots', buckets', chains', b) {
      AddedBucket(hash, slots, buckets, chains, freeHead, freeList, last, id, node, slots', buckets', b);
    }
  }

  // ----- removing a node -----

  /** A node leaves its chain and its slot joins the free list; `from` is the node before it, or 0. */
  ghost predicate Removes(slots: seq<Slot>, buckets: seq<nat>, chains: seq<seq<nat>>, freeHead: nat, b: nat, k: nat,
                          id: nat,
                          slots': seq<Slot>, buckets': seq<nat>)
  {
    && Buckets(slots, buckets, chains) && b < |buckets| && k < |chains[b]| && id == chains[b][k]
    && 0 < id < |slots| && slots[id].Live?
    && var from := if k == 0 then 0 else chains[b][k - 1];
       && from < |slots| && (from > 0 ==> slots[from].Live?)
       && slots' == Linked(slots, from, slots[id].node.nextIndex)[id := Free(freeHead)]
       && buckets' == if k == 0 then buckets[b := slots[id].node.nextIndex] else buckets
  }

  ghost function Without(list: seq<nat>, k: nat): seq<nat>
    requires k < |list|
  {
    list[..k] + list[k + 1..]
  }

  lemma WithoutListed(list: seq<nat>, k: nat, x: nat)
    requires k < |list| && forall j, m :: 0 <= j < m < |list| ==> list[j] != list[m]
    ensures Listed(Without(list, k), x) <==> Listed(list, x) && x != list[k]
  {
    var w := Without(list, k);
    if j :| 0 <= j < |list| && list[j] == x && j != k { assert w[if j < k then j else j - 1] == x; }
    if j :| 0 <= j < |w| && w[j] == x { assert list[if j < k then j else j + 1] == x; }
  }

  lemma RemovedChain(slots: seq<Slot>, buckets: seq<nat>, chains: seq<seq<nat>>, freeHead: nat, b: nat, k: nat, id: nat,
                     slots': seq<Slot>, buckets': seq<nat>)
    requires Removes(slots, buckets, chains, freeHead, b, k, id, slots', buckets')
    ensures Chain(slots', buckets'[b], Without(chains[b], k))
  {
    assert ChainAt(slots, buckets, chains, b);
    var list := chains[b];
    var list' := Without(list, k);
    assert Next(slots, list, k);
    if k > 0 { assert Next(slots, list, k - 1); }
    forall j: nat | j < |list'| ensures Next(slots', list', j) {
      var j' := if j < k then j else j + 1;
      assert Next(slots, list, j') && list'[j] == list[j'];
    }
  }

  lemma RemovedBucket(slots: seq<Slot>, buckets: seq<nat>, chains: seq<seq<nat>>, freeHead: nat, b: nat, k: nat,
                      id: nat,
                      slots': seq<Slot>, buckets': seq<nat>, c: nat)
    requires Removes(slots, buckets, chains, freeHead, b, k, id, slots', buckets') && c < |buckets|
    ensures ChainAt(slots', buckets', chains[b := Without(chains[b], k)], c)
  {
    assert ChainAt(slots, buckets, chains, b) && ChainAt(slots, buckets, chains, c);
    assert Listed(chains[b], id);
    if k > 0 { assert Listed(chains[b], chains[b][k - 1]); }
    if c == b {
      RemovedChain(slots, buckets, chains, freeHead, b, k, id, slots', buckets');
      forall x: nat ensures Listed(Without(chains[b], k), x) <==>
           Listed(chains[b], x) && x != id { WithoutListed(chains[b], k, x); }
    } else {
      ChainKept(slots, buckets[c], chains[c], slots');
    }
  }

  lemma Removed(hash: seq<nat> -> nat, slots: seq<Slot>, buckets: seq<nat>, chains: seq<seq<nat>>, freeHead: nat,
                freeList: seq<nat>, b: nat, k: nat, id: nat,
                slots': seq<Slot>, buckets': seq<nat>)
    requires Removes(slots, buckets, chains, freeHead, b, k, id, slots', buckets')
    requires Nodes(hash, slots, freeHead, freeList)
    ensures Buckets(slots', buckets', chains[b := Without(chains[b], k)])
    ensures Nodes(hash, slots', id, [id] + freeList)
    ensures Entries(slots') == Entries(slots) - {id}
  {
    var chains' := chains[b := Without(chains[b], k)];
    forall c: nat | c < |buckets'| ensures ChainAt(slots', buckets', chains', c) {
      RemovedBucket(slots, buckets, chains, freeHead, b, k, id, slots', buckets', c);
    }
    RemovedNodes(hash, slots, buckets, chains, freeHead, freeList, b, k, id, slots', buckets');
    RemovedEntries(hash, slots, buckets, chains, freeHead, freeList, b, k, id, slots', buckets');
    hide Nodes;
  }

  /** Only the node before it, which keeps its text and count, and the slot itself change. */
  lemma RemovedSlots(hash: seq<nat> -> nat, slots: seq<Slot>, buckets: seq<nat>, chains: seq<seq<nat>>, freeHead: nat,
                     freeList: seq<nat>, b: nat, k: nat, id: nat,
                     slots': seq<Slot>, buckets': seq<nat>)
    requires Removes(slots, buckets, chains, freeHead, b, k, id, slots', buckets')
    requires Nodes(hash, slots, freeHead, freeList)
    ensures |slots'| == |slots| && slots'[id] == Free(freeHead) && slots'[0].Free?
    ensures forall i: nat :: 0 < i < |slots| && i != id ==>
      (slots'[i].Free? <==> slots[i].Free?) && (slots[i].Free? ==> slots'[i] == slots[i])
      && (slots[i].Live? ==> slots'[i].node.(nextIndex := 0) == slots[i].node.(nextIndex := 0))
  {
    hide FreeChain;
    hide Sound;
    hide ChainAt;
  }

  lemma RemovedEntries(hash: seq<nat> -> nat, slots: seq<Slot>, buckets: seq<nat>, chains: seq<seq<nat>>, freeHead: nat,
                       freeList: seq<nat>, b: nat, k: nat, id: nat,
                     slots': seq<Slot>, buckets': seq<nat>)
    requires Removes(slots, buckets, chains, freeHead, b, k, id, slots', buckets')
    requires Nodes(hash, slots, freeHead, freeList)
    ensures Entries(slots') == Entries(slots) - {id}
  {
    RemovedSlots(hash, slots, buckets, chains, freeHead, freeList, b, k, id, slots', buckets');
    hide Removes;
    hide Nodes;
  }

  lemma RemovedNodes(hash: seq<nat> -> nat, slots: seq<Slot>, buckets: seq<nat>, chains: seq<seq<nat>>, freeHead: nat,
                     freeList: seq<nat>, b: nat, k: nat, id: nat,
                     slots': seq<Slot>, buckets': seq<nat>)
    requires Removes(slots, buckets, chains, freeHead, b, k, id, slots', buckets')
    requires Nodes(hash, slots, freeHead, freeList)
    ensures Nodes(hash, slots', id, [id] + freeList)
  {
    RemovedSlots(hash, slots, buckets, chains, freeHead, freeList, b, k, id, slots', buckets');
    assert slots[id].Live? && 0 < id < |slots|;
    hide Removes;
    forall i: nat | 0 < i < |slots'| ensures Sound(hash, slots', i) { SoundSame(hash, slots, slots', i); }
    hide Sound;
    LongerFree(slots, freeHead, freeList, id, slots');
    forall x: nat ensures Listed([id] + freeList, x) <==>
         Listed(freeList, x) || x == id { ListedFront(freeList, id, x); }
    hide FreeChain;
    hide Listed;
  }

  lemma SoundSame(hash: seq<nat> -> nat, slots: seq<Slot>, slots': seq<Slot>, i: nat)
    requires i < |slots| == |slots'| && Sound(hash, slots, i)
    requires slots'[i].Free? || (slots[i].Live? && slots'[i].node.(nextIndex := 0) == slots[i].node.(nextIndex := 0))
    ensures Sound(hash, slots', i)
  {
  }

  lemma ListedFront(list: seq<nat>, id: nat, x: nat)
    ensures Listed([id] + list, x) <==> Listed(list, x) || x == id
  {
    var longer := [id] + list;
    assert longer[0] == id;
    if j :| 0 <= j < |list| && list[j] == x { assert longer[j + 1] == x; }
  }

  lemma LongerFree(slots: seq<Slot>, freeHead: nat, freeList: seq<nat>, id: nat, slots': seq<Slot>)
    requires FreeChain(slots, freeHead, freeList) && 0 < id < |slots| == |slots'| && slots[id].Live?
    requires slots'[id] == Free(freeHead)
    requires forall i: nat :: 0 < i < |slots| && i != id && slots[i].Free? ==> slots'[i] == slots[i]
    ensures FreeChain(slots', id, [id] + freeList)
  {
    var longer := [id] + freeList;
    forall j: nat | j < |freeList| ensures freeList[j] != id { assert NextFree(slots, freeList, j); }
    forall j: nat | j < |longer| ensures NextFree(slots', longer, j) {
      if j > 0 { assert NextFree(slots, freeList, j - 1); }
    }
  }

  // ----- links alone -----

  /** The slots differ in the links of nodes only. */
  ghost predicate SameNodes(slots: seq<Slot>, slots': seq<Slot>) {
    |slots'| == |slots| && forall i: nat :: i < |slots| ==> SameNode(slots[i], slots'[i])
  }

  ghost predicate SameNode(a: Slot, b: Slot) {
    if a.Free? then b == a else b.Live? && b.node.(nextIndex := 0) == a.node.(nextIndex := 0)
  }

  lemma SameNodesKept(hash: seq<nat> -> nat, slots: seq<Slot>, freeHead: nat, freeList: seq<nat>, slots': seq<Slot>)
    requires Nodes(hash, slots, freeHead, freeList) && SameNodes(slots, slots')
    ensures Nodes(hash, slots', freeHead, freeList) && Entries(slots') == Entries(slots)
  {
    forall i: nat | i < |slots| ensures SameNode(slots[i], slots'[i]) { }
    forall i: nat | 0 < i < |slots'|
      ensures Sound(hash, slots', i)
    {
      assert Sound(hash, slots, i) && SameNode(slots[i], slots'[i]);
    }
    forall id: nat | Listed(freeList, id) && id < |slots| ensures slots'[id] == slots[id] {
      var k :| 0 <= k < |freeList| && freeList[k] == id;
      assert NextFree(slots, freeList, k);
    }
    FreeKept(slots, freeHead, freeList, slots');
    hide Sound;
    hide FreeChain;
  }

  lemma SameNodesTwice(a: seq<Slot>, b: seq<Slot>, c: seq<Slot>)
    requires SameNodes(a, b) && SameNodes(b, c)
    ensures SameNodes(a, c)
  {
    forall i: nat | i < |a| ensures SameNode(a[i], c[i]) { assert SameNode(a[i], b[i]) && SameNode(b[i], c[i]); }
  }

  /** A node is put in front of a chain it is not in. */
  lemma Prepended(slots: seq<Slot>, head: nat, list: seq<nat>, id: nat, slots': seq<Slot>)
    requires Chain(slots, head, list) && 0 < id < |slots| && slots[id].Live? && !Listed(list, id)
    requires slots' == slots[id := Live(slots[id].node.(nextIndex := head))]
    ensures Chain(slots', id, [id] + list) && SameNodes(slots, slots')
  {
    var list' := [id] + list;
    forall k: nat | k < |list'| ensures Next(slots', list', k) {
      if k > 0 { assert Next(slots, list, k - 1) && Listed(list, list[k - 1]); }
    }
  }

  /** A chain goes on without its first node, whose link changes. */
  lemma Advanced(slots: seq<Slot>, head: nat, list: seq<nat>, slots': seq<Slot>, link: nat)
    requires Chain(slots, head, list) && list != [] && slots[head].Live?
    requires slots' == slots[head := Live(slots[head].node.(nextIndex := link))]
    ensures Chain(slots', slots[head].node.nextIndex, list[1..]) && !Listed(list[1..], head)
  {
    assert Next(slots, list, 0);
    var rest := list[1..];
    forall k: nat | k < |rest| ensures Next(slots', rest, k) { assert Next(slots, list, k + 1); }
  }

  /** The rest of a chain is turned round in front of another list. */
  method ReverseOnto(nodeList: array<Slot>, first: nat, onto: nat, ghost chain: seq<nat>, ghost back: seq<nat>)
    returns (head: nat, ghost list: seq<nat>)
    requires Chain(nodeList[..], first, chain) && Chain(nodeList[..], onto, back)
    requires forall id: nat :: Listed(chain, id) ==> !Listed(back, id)
    modifies nodeList
    ensures Chain(nodeList[..], head, list) && SameNodes(old(nodeList[..]), nodeList[..])
    ensures forall id: nat :: Listed(list, id) <==> Listed(chain, id) || Listed(back, id)
    ensures forall id: nat :: id < nodeList.Length && !Listed(chain, id) ==> nodeList[id] == old(nodeList[id])
  {
    var walk := first;
    head, list := onto, back;
    ghost var rest := chain;
    while walk != 0
      invariant Chain(nodeList[..], walk, rest) && Chain(nodeList[..], head, list)
      invariant SameNodes(old(nodeList[..]), nodeList[..])
      invariant forall id: nat :: Listed(rest, id) ==> !Listed(list, id) && Listed(chain, id)
      invariant forall id: nat :: (Listed(list, id) || Listed(rest, id)) <==> Listed(chain, id) || Listed(back, id)
      invariant forall id: nat :: id < nodeList.Length && !Listed(chain, id) ==> nodeList[id] == old(nodeList[id])
      decreases |rest|
    {
      ghost var slots := nodeList[..];
      assert Next(slots, rest, 0) && Listed(rest, walk) by { assert rest[0] == walk; }
      var temp := nodeList[walk].node.nextIndex;
      ghost var slots' := slots[walk := Live(slots[walk].node.(nextIndex := head))];
      Advanced(slots, walk, rest, slots', head);
      Prepended(slots, head, list, walk, slots');
      SameNodesTwice(old(nodeList[..]), slots, slots');
      forall id: nat ensures Listed(rest[1..], id) <==> Listed(rest, id) && id != walk { ListedTail(rest, id); }
      forall id: nat ensures Listed([walk] + list, id) <==>
           Listed(list, id) || id == walk { ListedFront(list, walk, id); }
      nodeList[walk] := Live(nodeList[walk].node.(nextIndex := head));
      assert nodeList[..] == slots';
      head, list, walk, rest := walk, [walk] + list, temp, rest[1..];
    }
  }

  /** Live nodes whose hash belongs to a bucket below b. */
  ghost predicate Below(slots: seq<Slot>, n: nat, b: nat, list: seq<nat>)
    requires n > 0
  {
    forall id: nat :: 0 < id < |slots| ==> (Listed(list, id) <==> slots[id].Live? && slots[id].node.hash % n < b)
  }

  /** All chains are turned round into one list of all live nodes. */
  method ReverseAll(nodeList: array<Slot>, buckets: array<nat>, ghost chains: seq<seq<nat>>)
    returns (head: nat, ghost list: seq<nat>)
    requires Buckets(nodeList[..], buckets[..], chains)
    modifies nodeList
    ensures Chain(nodeList[..], head, list) && SameNodes(old(nodeList[..]), nodeList[..])
    ensures forall id: nat :: 0 < id < nodeList.Length ==> (Listed(list, id) <==> nodeList[id].Live?)
  {
    ghost var slots0, heads := nodeList[..], buckets[..];
    var n := buckets.Length;
    head, list := 0, [];
    var i := 0;
    while i < n
      invariant 0 <= i <= n && Chain(nodeList[..], head, list) && SameNodes(slots0, nodeList[..])
      invariant buckets[..] == heads
      invariant Below(nodeList[..], n, i, list)
      invariant forall b: nat :: i <= b < n ==> ChainAt(nodeList[..], heads, chains, b)
    {
      ghost var slots := nodeList[..];
      assert ChainAt(slots, heads, chains, i);
      ghost var was := list;
      head, list := ReverseOnto(nodeList, buckets[i], head, chains[i], list);
      SameNodesTwice(slots0, slots, nodeList[..]);
      forall b: nat | i < b < n ensures ChainAt(nodeList[..], heads, chains, b) {
        OtherChain(slots, nodeList[..], heads, chains, i, b);
      }
      NextBelow(slots, nodeList[..], n, i, chains[i], was, list);
      i := i + 1;
    }
  }

  lemma OtherChain(slots: seq<Slot>, slots': seq<Slot>, heads: seq<nat>, chains: seq<seq<nat>>, i: nat, b: nat)
    requires ChainAt(slots, heads, chains, i) && ChainAt(slots, heads, chains, b) && i != b && SameNodes(slots, slots')
    requires forall id: nat :: id < |slots| && !Listed(chains[i], id) ==> slots'[id] == slots[id]
    ensures ChainAt(slots', heads, chains, b)
  {
    ChainKept(slots, heads[b], chains[b], slots');
    forall id: nat | 0 < id < |slots| ensures SameNode(slots[id], slots'[id]) { }
  }

  lemma NextBelow(slots: seq<Slot>, slots': seq<Slot>, n: nat, i: nat, chain: seq<nat>, was: seq<nat>, list: seq<nat>)
    requires n > 0 && SameNodes(slots, slots') && Bucket(slots, n, i, chain) && Below(slots, n, i, was)
    requires forall id: nat :: Listed(list, id) <==> Listed(chain, id) || Listed(was, id)
    ensures Below(slots', n, i + 1, list)
  {
    forall id: nat | 0 < id < |slots| ensures Listed(list, id) <==>
         slots'[id].Live? && slots'[id].node.hash % n < i + 1 {
      assert SameNode(slots[id], slots'[id]);
    }
  }

  /** Some of the live nodes, those in `done`, are in the buckets their hashes belong to. */
  ghost predicate Sorted(slots: seq<Slot>, n: nat, heads: seq<nat>, chains: seq<seq<nat>>, b: nat, rest: seq<nat>) {
    && n > 0 && |heads| == |chains| == n && b < n && Chain(slots, heads[b], chains[b])
    && forall id: nat :: 0 < id < |slots| ==>
         (Listed(chains[b], id) <==> slots[id].Live? && slots[id].node.hash % n == b && !Listed(rest, id))
  }

  /** One node goes in front of its bucket. */
  lemma SortOne(slots: seq<Slot>, n: nat, heads: seq<nat>, chains: seq<seq<nat>>, walk: nat, rest: seq<nat>,
                slots': seq<Slot>, c: nat, b: nat)
    requires Chain(slots, walk, rest) && rest != [] && Sorted(slots, n, heads, chains, b, rest)
    requires Sorted(slots, n, heads, chains, c, rest)
    requires 0 < walk < |slots| && slots[walk].Live? && c == slots[walk].node.hash % n
    requires slots' == slots[walk := Live(slots[walk].node.(nextIndex := heads[c]))]
    ensures Sorted(slots', n, heads[c := walk], chains[c := [walk] + chains[c]], b, rest[1..])
  {
    assert Listed(rest, walk) by { assert rest[0] == walk; }
    forall id: nat ensures Listed(rest[1..], id) <==> Listed(rest, id) && id != walk { ListedTail(rest, id); }
    if b == c {
      Prepended(slots, heads[c], chains[c], walk, slots');
      forall id: nat ensures Listed([walk] + chains[c], id) <==>
           Listed(chains[c], id) || id == walk { ListedFront(chains[c], walk, id); }
    } else {
      ChainKept(slots, heads[b], chains[b], slots');
    }
  }

  /** The nodes of the list are put into new buckets. */
  method Distribute(nodeList: array<Slot>, first: nat, newSize: nat, ghost list: seq<nat>)
    returns (buckets: array<nat>, ghost chains: seq<seq<nat>>)
    requires newSize > 0 && Chain(nodeList[..], first, list)
    requires forall id: nat :: 0 < id < nodeList.Length ==> (Listed(list, id) <==> nodeList[id].Live?)
    modifies nodeList
    ensures fresh(buckets) && buckets.Length == newSize && Buckets(nodeList[..], buckets[..], chains)
    ensures SameNodes(old(nodeList[..]), nodeList[..])
  {
    buckets := new nat[newSize](_ => 0);
    chains := seq(newSize, b => []);
    var walk := first;
    ghost var rest := list;
    while walk != 0
      invariant Chain(nodeList[..], walk, rest) && buckets.Length == |chains| == newSize
      invariant SameNodes(old(nodeList[..]), nodeList[..])
      invariant forall b: nat :: b < newSize ==> Sorted(nodeList[..], newSize, buckets[..], chains, b, rest)
      decreases |rest|
    {
      ghost var slots, heads := nodeList[..], buckets[..];
      assert Next(slots, rest, 0) && rest[0] == walk;
      var temp := nodeList[walk].node;
      var key := temp.hash % newSize;
      ghost var slots' := slots[walk := Live(temp.(nextIndex := heads[key]))];
      ghost var heads', chains', rest' := heads[key := walk], chains[key := [walk] + chains[key]], rest[1..];
      Advanced(slots, walk, rest, slots', heads[key]);
      assert Sorted(slots, newSize, heads, chains, key, rest);
      forall b: nat | b < newSize ensures Sorted(slots', newSize, heads', chains', b, rest') {
        assert Sorted(slots, newSize, heads, chains, b, rest);
        SortOne(slots, newSize, heads, chains, walk, rest, slots', key, b);
      }
      Prepended(slots, heads[key], chains[key], walk, slots');
      SameNodesTwice(old(nodeList[..]), slots, slots');
      nodeList[walk] := Live(temp.(nextIndex := buckets[key]));
      buckets[key] := walk;
      assert nodeList[..] == slots' && buckets[..] == heads';
      walk, chains, rest := temp.nextIndex, chains', rest';
    }
    assert rest == [];
    forall b: nat | b < newSize ensures ChainAt(nodeList[..], buckets[..], chains, b) {
      assert Sorted(nodeList[..], newSize, buckets[..], chains, b, rest);
    }
  }

  const NODE_LIST_STEP := 2048
  const COMPACT_THRESHOLD := 32768

  /** The node list with more free slots behind it. */
  ghost predicate Grown(slots: seq<Slot>, slots': seq<Slot>) {
    && |slots'| > |slots|
    && (forall i: nat :: i < |slots| ==> slots'[i] == slots[i])
    && (forall i: nat :: |slots| <= i < |slots'| ==> slots'[i] == Free(if i + 1 < |slots'| then i + 1 else 0))
  }

  lemma GrownTable(hash: seq<nat> -> nat, slots: seq<Slot>, buckets: seq<nat>, chains: seq<seq<nat>>, slots': seq<Slot>)
    requires Buckets(slots, buckets, chains) && Nodes(hash, slots, 0, []) && Grown(slots, slots')
    ensures Buckets(slots', buckets, chains) && Entries(slots') == Entries(slots)
    ensures Nodes(hash, slots', |slots|, seq(|slots'| - |slots|, k => |slots| + k))
  {
    var freeList := seq(|slots'| - |slots|, k => |slots| + k);
    forall b: nat | b < |buckets| ensures ChainAt(slots', buckets, chains, b) {
      assert ChainAt(slots, buckets, chains, b);
      ChainKept(slots, buckets[b], chains[b], slots');
    }
    forall id: nat | 0 < id < |slots'| ensures Sound(hash, slots', id) && (slots'[id].Free? <==> Listed(freeList, id)) {
      if id < |slots| { assert Sound(hash, slots, id) && !Listed([], id); }
      else { assert freeList[id - |slots|] == id; }
    }
    forall k: nat | k < |freeList| ensures NextFree(slots', freeList, k) { }
  }

  // ----- memory -----

  /** The memory that the nodes of some strings take, besides their texts `nodeSize` each. */
  ghost function Memory(nodeSize: nat, strings: map<nat, (seq<nat>, nat)>): nat {
    if strings == map[] then 0
    else
      var id :| id in strings;
      nodeSize + |strings[id].0| + Memory(nodeSize, strings - {id})
  }

  lemma {:induction false} MemoryWithout(nodeSize: nat, strings: map<nat, (seq<nat>, nat)>, id: nat)
    requires id in strings
    ensures Memory(nodeSize, strings) == nodeSize + |strings[id].0| + Memory(nodeSize, strings - {id})
    decreases |strings|
  {
    var first :| first in strings
      && Memory(nodeSize, strings) == nodeSize + |strings[first].0| + Memory(nodeSize, strings - {first});
    if first != id {
      var rest := strings - {first};
      MemoryWithout(nodeSize, rest, id);
      MemoryWithout(nodeSize, strings - {id}, first);
      assert rest - {id} == (strings - {id}) - {first};
    }
  }

  lemma MemoryWith(nodeSize: nat, strings: map<nat, (seq<nat>, nat)>, id: nat, s: (seq<nat>, nat))
    ensures id !in strings ==> Memory(nodeSize, strings[id := s]) == Memory(nodeSize, strings) + nodeSize + |s.0|
    ensures id in strings && strings[id].0 == s.0 ==>
      Memory(nodeSize, strings[id := s]) == Memory(nodeSize, strings)
  {
    MemoryWithout(nodeSize, strings[id := s], id);
    if id in strings {
      MemoryWithout(nodeSize, strings, id);
      assert strings[id := s] - {id} == strings - {id};
    } else {
      assert strings[id := s] - {id} == strings;
    }
  }

  /** The strings in the slots before one. */
  lemma EntriesNext(nodeSize: nat, slots: seq<Slot>, i: nat)
    requires 0 < i < |slots|
    ensures Memory(nodeSize, Entries(slots[..i + 1]))
         == Memory(nodeSize, Entries(slots[..i])) + if slots[i].Live? then nodeSize + |slots[i].node.text| else 0
  {
    var before, after := Entries(slots[..i]), Entries(slots[..i + 1]);
    if slots[i].Live? {
      var s := (slots[i].node.text, slots[i].node.refCount);
      assert after == before[i := s];
      MemoryWith(nodeSize, before, i, s);
    } else {
      assert after == before;
    }
  }

  ghost predicate Counted(strings: map<nat, (seq<nat>, nat)>, references: map<nat, nat>) {
    && references.Keys == strings.Keys
    && forall id :: id in strings ==> references[id] > 0 && strings[id].1 == references[id] % COUNT_LIMIT
  }

  lemma CountMore(strings: map<nat, (seq<nat>, nat)>, references: map<nat, nat>, id: nat, text: seq<nat>, count: nat)
    requires Counted(strings, references) && id in strings && count == (strings[id].1 + 1) % COUNT_LIMIT
    ensures id in references && Counted(strings[id := (text, count)], references[id := references[id] + 1])
  {
    CountUp(references[id]);
  }

  lemma CountUp(n: nat)
    ensures (n % COUNT_LIMIT + 1) % COUNT_LIMIT == (n + 1) % COUNT_LIMIT
  {
  }

  lemma CountNew(strings: map<nat, (seq<nat>, nat)>, references: map<nat, nat>, id: nat, text: seq<nat>)
    requires Counted(strings, references) && id !in strings
    ensures Counted(strings[id := (text, 1)], references[id := 1])
  {
  }

  /** The count becomes 0 with the last reference, and also when they are one more than a multiple. */
  lemma CountLess(strings: map<nat, (seq<nat>, nat)>, references: map<nat, nat>, id: nat, count: nat)
    requires Counted(strings, references) && id in strings
    requires count == (strings[id].1 + COUNT_LIMIT - 1) % COUNT_LIMIT
    ensures id in references && (count == 0 <==> references[id] % COUNT_LIMIT == 1)
    ensures count != 0 ==> references[id] > 1
    ensures count != 0 ==> Counted(strings[id := (strings[id].0, count)], references[id := references[id] - 1])
    ensures Counted(strings - {id}, references - {id})
  {
    CountDown(references[id]);
  }

  lemma CountDown(n: nat)
    requires n > 0
    ensures (n % COUNT_LIMIT + COUNT_LIMIT - 1) % COUNT_LIMIT == (n - 1) % COUNT_LIMIT
    ensures (n - 1) % COUNT_LIMIT == 0 <==> n % COUNT_LIMIT == 1
  {
  }

  class StringTable {
    const hash: seq<nat> -> nat
    /** The size of a node apart from its text. */
    const nodeSize: nat
    var mNodeList: array<Slot>
    var mBuckets: array<nat>
    var mNodeListFreeEntry: nat
    var mItemCount: nat
    /** The memory that nodes other than that of the empty string take, and how much of it is theirs no
        more. */
    var mMemPool: nat
    var mFreeStringDataSize: nat
    ghost var Chains: seq<seq<nat>>
    ghost var FreeList: seq<nat>
    /** How many references to each string were taken and not given back. */
    ghost var References: map<nat, nat>

    ghost predicate Structured()
      reads `mNodeList, `mBuckets, `mNodeListFreeEntry, `Chains, `FreeList, mNodeList, mBuckets
    {
      Buckets(mNodeList[..], mBuckets[..], Chains) && Nodes(hash, mNodeList[..], mNodeListFreeEntry, FreeList)
    }

    /** The count is that of the strings and of the empty string; all memory is that of the strings or
        counted as free; a string's count has the low 16 bits of the number of its references.  There
        are at most two strings to a bucket, and at most 32768 bytes free. */
    ghost predicate Valid()
      reads this, mNodeList, mBuckets
    {
      && Structured() && mItemCount == |Strings()| + 1
      && mMemPool == Memory(nodeSize, Strings()) + mFreeStringDataSize
      && Counted(Strings(), References)
      && mItemCount <= 2 * mBuckets.Length && mFreeStringDataSize <= 32768
    }

    ghost function Strings(): map<nat, (seq<nat>, nat)>
      reads `mNodeList, mNodeList
    {
      Entries(mNodeList[..])
    }

    constructor (hash: seq<nat> -> nat, buckets: nat, nodeSize: nat)
      requires buckets > 0
      ensures Valid() && Strings() == map[] && fresh(mNodeList) && fresh(mBuckets) && this.nodeSize == nodeSize
    {
      this.hash, this.nodeSize := hash, nodeSize;
      References := map[];
      mNodeList := new Slot[NODE_LIST_STEP](i requires i >= 0 =>
        Free(if i == 0 || i + 1 == NODE_LIST_STEP then 0 else i + 1));
      mBuckets := new nat[buckets](_ => 0);
      mNodeListFreeEntry, mItemCount, mMemPool, mFreeStringDataSize := 1, 1, 0, 0;
      Chains, FreeList := seq(buckets, _ => []), seq(NODE_LIST_STEP - 1, k => k + 1);
      new;
      ghost var slots := mNodeList[..];
      forall id: nat | 0 < id < |slots| ensures Listed(FreeList, id) { assert FreeList[id - 1] == id; }
      assert forall k: nat :: k < |FreeList| ==> NextFree(slots, FreeList, k);
    }

    /** The node of a text in its bucket, or 0, and the last node of the bucket. */
    method Find(val: seq<nat>, key: nat) returns (id: nat, last: nat)
      requires Structured() && key == hash(val)
      ensures id > 0 ==> id < mNodeList.Length && mNodeList[id].Live? && mNodeList[id].node.text == val
      ensures id == 0 ==>
        forall i: nat :: 0 < i < mNodeList.Length && mNodeList[i].Live? ==> mNodeList[i].node.text != val
      ensures id == 0 ==>
        LastOf(Chains[key % mBuckets.Length], last) && last < mNodeList.Length && (last > 0 ==> mNodeList[last].Live?)
    {
      ghost var slots, b := mNodeList[..], key % mBuckets.Length;
      ghost var chain: seq<nat> := Chains[b];
      assert ChainAt(slots, mBuckets[..], Chains, b);
      ghost var k: nat := 0;
      id, last := mBuckets[key % mBuckets.Length], 0;
      assert k < |chain| ==> Next(slots, chain, k);
      while id != 0
        invariant k <= |chain| && id == At(chain, k) && last == (if k == 0 then 0 else chain[k - 1])
        invariant (k < |chain| ==> Next(slots, chain, k))
        invariant forall j: nat :: j < k ==>
          chain[j] < |slots| && slots[chain[j]].Live? && slots[chain[j]].node.text != val
        decreases |chain| - k
      {
        if mNodeList[id].node.text == val { return; }
        assert k + 1 < |chain| ==> Next(slots, chain, k + 1);
        last := id;
        id := mNodeList[id].node.nextIndex;
        k := k + 1;
      }
      forall i: nat | 0 < i < |slots| && slots[i].Live? ensures slots[i].node.text != val {
        assert Sound(hash, slots, i);
        assert slots[i].node.text == val ==> Listed(chain, i);
      }
    }

    method Recount(id: nat, count: nat)
      requires Structured() && 0 < id < mNodeList.Length && mNodeList[id].Live? && count < COUNT_LIMIT
      modifies mNodeList
      ensures Structured() && Strings() == old(Strings())[id := (old(mNodeList[id].node.text), count)]
    {
      Recounted(hash, mNodeList[..], mBuckets[..], Chains, mNodeListFreeEntry, FreeList, id, count);
      ghost var slots := mNodeList[..];
      mNodeList[id] := Live(mNodeList[id].node.(refCount := count));
      assert mNodeList[..] == slots[id := Live(slots[id].node.(refCount := count))];
    }

    method Grow()
      requires Structured() && mNodeListFreeEntry == 0
      modifies `mNodeList, `mNodeListFreeEntry, `FreeList
      ensures Structured() && Strings() == old(Strings()) && mNodeListFreeEntry > 0 && fresh(mNodeList)
      ensures forall i: nat :: i < old(mNodeList.Length) ==> i < mNodeList.Length && mNodeList[i] == old(mNodeList[i])
      ensures forall i: nat :: old(mNodeList.Length) <= i < mNodeList.Length ==> mNodeList[i].Free?
    {
      hide Buckets;
      hide Entries;
      hide Sound;
      assert FreeList == [];
      var size, slots := mNodeList.Length, mNodeList[..];
      var bigger := new Slot[size + NODE_LIST_STEP](i requires i >= 0 =>
        if i < |slots| then slots[i] else Free(if i + 1 < |slots| + NODE_LIST_STEP then i + 1 else 0));
      GrownTable(hash, slots, mBuckets[..], Chains, bigger[..]);
      mNodeList := bigger;
      mNodeListFreeEntry := size;
      FreeList := seq(NODE_LIST_STEP, k => size + k);
      assert FreeList == seq(|bigger[..]| - |slots|, k => |slots| + k);
    }

    method Add(val: seq<nat>, key: nat, last: nat) returns (id: nat)
      requires Structured() && key == hash(val) && val != [] && mNodeListFreeEntry > 0
      requires LastOf(Chains[key % mBuckets.Length], last) && last < mNodeList.Length
      requires (last > 0 ==> mNodeList[last].Live?)
      requires forall i: nat :: 0 < i < mNodeList.Length && mNodeList[i].Live? ==> mNodeList[i].node.text != val
      modifies mNodeList, mBuckets, `mNodeListFreeEntry, `mMemPool, `Chains, `FreeList
      ensures Structured() && id !in old(Strings()) && id > 0 && Strings() == old(Strings())[id := (val, 1)]
      ensures mMemPool == old(mMemPool) + nodeSize + |val|
    {
      ghost var slots, heads, c := mNodeList[..], mBuckets[..], key % mBuckets.Length;
      id := mNodeListFreeEntry;
      assert NextFree(slots, FreeList, 0);
      var node := Node(id, 0, key, 1, val);
      ghost var slots' := Linked(slots, last, id)[id := Live(node)];
      ghost var heads' := if Chains[c] == [] then heads[c := id] else heads;
      assert Adds(slots, heads, Chains, FreeList, last, id, node, slots', heads');
      AddedSlots(hash, slots, heads, Chains, mNodeListFreeEntry, FreeList, last, id, node, slots', heads');
      Added(hash, slots, heads, Chains, mNodeListFreeEntry, FreeList, last, id, node, slots', heads');
      AddedNodes(hash, slots, heads, Chains, mNodeListFreeEntry, FreeList, last, id, node, slots', heads');
      mMemPool := mMemPool + nodeSize + |val|;
      mNodeListFreeEntry := mNodeList[id].next;
      if last == 0 {
        mBuckets[key % mBuckets.Length] := id;
      } else {
        mNodeList[last] := Live(mNodeList[last].node.(nextIndex := id));
      }
      mNodeList[id] := Live(node);
      assert ChainAt(slots, heads, Chains, c);
      assert mNodeList[..] == slots' && mBuckets[..] == heads';
      Chains, FreeList := Chains[c := Chains[c] + [id]], FreeList[1..];
    }

    method ResizeHashTable(newSize: nat)
      requires Structured() && newSize > 0
      modifies mNodeList, `mBuckets, `Chains
      ensures Structured() && Strings() == old(Strings()) && fresh(mBuckets) && mBuckets.Length == newSize
    {
      ghost var slots := mNodeList[..];
      var head;
      ghost var list;
      head, list := ReverseAll(mNodeList, mBuckets, Chains);
      ghost var mid := mNodeList[..];
      mBuckets, Chains := Distribute(mNodeList, head, newSize, list);
      SameNodesTwice(slots, mid, mNodeList[..]);
      SameNodesKept(hash, slots, mNodeListFreeEntry, FreeList, mNodeList[..]);
    }

    /** A node for a text that has none. */
    method AddNew(val: seq<nat>, key: nat, last: nat) returns (id: nat)
      requires Structured() && key == hash(val) && val != []
      requires LastOf(Chains[key % mBuckets.Length], last) && last < mNodeList.Length
      requires (last > 0 ==> mNodeList[last].Live?)
      requires forall i: nat :: 0 < i < mNodeList.Length && mNodeList[i].Live? ==> mNodeList[i].node.text != val
      requires mItemCount <= 2 * mBuckets.Length && mBuckets.Length > 0
      modifies this, mNodeList, mBuckets
      ensures Structured() && (fresh(mNodeList) || mNodeList == old(mNodeList))
      ensures (fresh(mBuckets) || mBuckets == old(mBuckets))
      ensures id !in old(Strings()) && id > 0 && Strings() == old(Strings())[id := (val, 1)]
      ensures mItemCount <= 2 * mBuckets.Length
      ensures mItemCount == old(mItemCount) + 1 && References == old(References)
      ensures mMemPool == old(mMemPool) + nodeSize + |val| && mFreeStringDataSize == old(mFreeStringDataSize)
    {
      if mNodeListFreeEntry == 0 { Grow(); }
      id := Add(val, key, last);
      mItemCount := mItemCount + 1;
      hide Nodes;
      if mItemCount > 2 * mBuckets.Length { ResizeHashTable(4 * mBuckets.Length - 1); }
    }

    lemma NoSuchText(val: seq<nat>)
      requires forall i: nat :: 0 < i < mNodeList.Length && mNodeList[i].Live? ==> mNodeList[i].node.text != val
      ensures forall i :: i in Strings() ==> Strings()[i].0 != val
    {
    }

    /** A text that has no node gets one, with one reference. */
    method InsertNew(val: seq<nat>, key: nat, last: nat) returns (id: nat)
      requires Valid() && key == hash(val) && val != []
      requires mBuckets.Length == |Chains| > 0
      requires LastOf(Chains[key % mBuckets.Length], last) && last < mNodeList.Length
      requires (last > 0 ==> mNodeList[last].Live?)
      requires forall i: nat :: 0 < i < mNodeList.Length && mNodeList[i].Live? ==> mNodeList[i].node.text != val
      modifies this, mNodeList, mBuckets
      ensures Valid() && (fresh(mNodeList) || mNodeList == old(mNodeList))
      ensures (fresh(mBuckets) || mBuckets == old(mBuckets))
      ensures id !in old(Strings()) && id > 0 && Strings() == old(Strings())[id := (val, 1)]
      ensures References == old(References)[id := 1]
    {
      hide Structured;
      hide Entries;
      hide Memory;
      hide Counted;
      ghost var before := Strings();
      id := AddNew(val, key, last);
      CountNew(before, References, id, val);
      MemoryWith(nodeSize, before, id, (val, 1));
      References := References[id := 1];
    }

    /** A case-sensitive insert: the id of the text, with one more reference. */
    method Insertn(val: seq<nat>) returns (id: nat)
      requires Valid()
      modifies this, mNodeList, mBuckets
      ensures Valid() && (fresh(mNodeList) || mNodeList == old(mNodeList))
      ensures (fresh(mBuckets) || mBuckets == old(mBuckets))
      ensures val == [] ==> id == 0 && Strings() == old(Strings()) && References == old(References)
      ensures val != [] ==>
        if id in old(Strings()) then (
          && old(Strings())[id].0 == val
          && Strings() == old(Strings())[id := (val, (old(Strings())[id].1 + 1) % COUNT_LIMIT)]
          && References == old(References)[id := old(References)[id] + 1]
        ) else (
          && id > 0
          && Strings() == old(Strings())[id := (val, 1)]
          && References == old(References)[id := 1]
          && forall i :: i in old(Strings()) ==> old(Strings())[i].0 != val
        )
    {
      hide Structured;
      hide Entries;
      hide Memory;
      hide Counted;
      if val == [] { return 0; }
      var key := hash(val);
      var last;
      HasBuckets();
      id, last := Find(val, key);
      if id > 0 {
        FoundNode(id);
        IncRef(id);
      } else {
        NoSuchText(val);
        id := InsertNew(val, key, last);
      }
    }

    lemma FoundNode(id: nat)
      requires 0 < id < mNodeList.Length && mNodeList[id].Live?
      ensures id in Strings() && Strings()[id] == (mNodeList[id].node.text, mNodeList[id].node.refCount)
    {
    }

    lemma LiveNode(id: nat)
      requires Structured() && id in Strings()
      ensures 0 < id < mNodeList.Length && mNodeList[id].Live?
      ensures Strings()[id] == (mNodeList[id].node.text, mNodeList[id].node.refCount)
    {
      assert Sound(hash, mNodeList[..], id);
    }

    lemma HasBuckets()
      requires Structured()
      ensures mBuckets.Length > 0 && mBuckets.Length == |Chains|
    {
    }

    /** The id of a text, or 0. */
    method Lookupn(val: seq<nat>) returns (id: nat)
      requires Valid()
      ensures id > 0 ==> id in Strings() && Strings()[id].0 == val
      ensures id == 0 ==> forall i :: i in Strings() ==> Strings()[i].0 != val
    {
      var last;
      id, last := Find(val, hash(val));
    }

    method IncRef(id: nat)
      requires Valid() && id in Strings()
      modifies mNodeList, `References
      ensures Valid() && References == old(References)[id := old(References)[id] + 1]
      ensures Strings() == old(Strings()[id := (Strings()[id].0, (Strings()[id].1 + 1) % COUNT_LIMIT)])
    {
      hide Structured;
      hide Entries;
      hide Memory;
      hide Counted;
      LiveNode(id);
      var count := (mNodeList[id].node.refCount + 1) % COUNT_LIMIT;
      CountMore(Strings(), References, id, mNodeList[id].node.text, count);
      Sizes(Strings(), id, count);
      MemoryWith(nodeSize, Strings(), id, (mNodeList[id].node.text, count));
      Recount(id, count);
      References := References[id := References[id] + 1];
    }

    /** The live nodes are copied to new memory, which they alone take; links and free slots stay. */
    method Compact()
      requires Structured()
      modifies mNodeList, `mMemPool, `mFreeStringDataSize
      ensures Structured() && Strings() == old(Strings())
      ensures mMemPool == Memory(nodeSize, Strings()) && mFreeStringDataSize == 0
    {
      hide Memory;
      ghost var slots := mNodeList[..];
      var newData := 0;
      var i := 1;
      assert slots[..1] == [slots[0]] && Entries(slots[..1]) == map[];
      NoMemory(nodeSize);
      while i < mNodeList.Length
        invariant 1 <= i <= mNodeList.Length && mNodeList[..] == slots
        invariant newData == Memory(nodeSize, Entries(slots[..i]))
      {
        EntriesNext(nodeSize, slots, i);
        if mNodeList[i].Live? {
          var theNode := mNodeList[i].node;
          var newNode := Node(theNode.masterIndex, theNode.nextIndex, theNode.hash, theNode.refCount, theNode.text);
          newData := newData + nodeSize + |theNode.text|;
          mNodeList[i] := Live(newNode);
        }
        i := i + 1;
      }
      assert slots[..i] == slots;
      mMemPool := newData;
      mFreeStringDataSize := 0;
    }

    /** The node before this one in its bucket, or 0. */
    method Predecessor(id: nat, bucket: nat) returns (before: nat, ghost k: nat)
      requires bucket < mBuckets.Length && ChainAt(mNodeList[..], mBuckets[..], Chains, bucket) && id > 0
      requires Listed(Chains[bucket], id)
      ensures k < |Chains[bucket]| && Chains[bucket][k] == id && before == if k == 0 then 0 else Chains[bucket][k - 1]
    {
      ghost var slots, chain := mNodeList[..], Chains[bucket];
      k := 0;
      var walk: nat := mBuckets[bucket];
      before := 0;
      assert Next(slots, chain, 0);
      while walk != id
        invariant k < |chain| && walk == At(chain, k) && before == (if k == 0 then 0 else chain[k - 1])
        invariant Next(slots, chain, k)
        invariant forall j: nat :: j < k ==> chain[j] != id
        decreases |chain| - k
      {
        assert k + 1 < |chain| by { var m :| 0 <= m < |chain| && chain[m] == id; }
        assert Next(slots, chain, k + 1);
        before := walk;
        walk := mNodeList[walk].node.nextIndex;
        k := k + 1;
      }
    }

    /** The node leaves its bucket and its slot joins the free list. */
    method Remove(id: nat)
      requires Structured() && 0 < id < mNodeList.Length && mNodeList[id].Live?
      modifies mNodeList, mBuckets, `mNodeListFreeEntry, `Chains, `FreeList
      ensures Structured() && Strings() == old(Strings()) - {id}
    {
      ghost var slots, heads := mNodeList[..], mBuckets[..];
      var theNode := mNodeList[id].node;
      var bucket := theNode.hash % mBuckets.Length;
      ghost var chain := Chains[bucket];
      assert ChainAt(slots, heads, Chains, bucket);
      assert Listed(chain, id);
      var before;
      ghost var k;
      before, k := Predecessor(id, bucket);
      ghost var slots' := Linked(slots, before, theNode.nextIndex)[id := Free(mNodeListFreeEntry)];
      ghost var heads' := if k == 0 then heads[bucket := theNode.nextIndex] else heads;
      assert k > 0 ==> Next(slots, chain, k - 1);
      hide Nodes;
      hide Buckets;
      hide Chain;
      Removed(hash, slots, heads, Chains, mNodeListFreeEntry, FreeList, bucket, k, id, slots', heads');
      if before == 0 {
        mBuckets[bucket] := theNode.nextIndex;
      } else {
        mNodeList[before] := Live(mNodeList[before].node.(nextIndex := theNode.nextIndex));
      }
      mNodeList[id] := Free(mNodeListFreeEntry);
      assert mNodeList[..] == slots' && mBuckets[..] == heads';
      mNodeListFreeEntry := id;
      Chains, FreeList := Chains[bucket := Without(chain, k)], [id] + FreeList;
    }

    /** One reference less; the string is freed when the count becomes 0.  That is with the last
        reference, but also when the number of references is one more than a multiple of 65536. */
    method DecRef(id: nat)
      requires Valid() && id in Strings()
      modifies this, mNodeList, mBuckets
      ensures Valid() && mNodeList == old(mNodeList) && mBuckets == old(mBuckets)
      ensures id !in Strings() <==> old(References[id]) % COUNT_LIMIT == 1
      ensures if id in Strings() then (
          && Strings() == old(Strings()[id := (Strings()[id].0, (Strings()[id].1 + COUNT_LIMIT - 1) % COUNT_LIMIT)])
          && References == old(References[id := References[id] - 1])
        ) else (
          && Strings() == old(Strings()) - {id}
          && References == old(References) - {id}
        )
    {
      hide Structured;
      hide Entries;
      hide Memory;
      hide Counted;
      LiveNode(id);
      var count := (mNodeList[id].node.refCount + COUNT_LIMIT - 1) % COUNT_LIMIT;
      CountLess(Strings(), References, id, count);
      Sizes(Strings(), id, count);
      MemoryWith(nodeSize, Strings(), id, (Strings()[id].0, count));
      if count != 0 {
        Recount(id, count);
        References := References[id := References[id] - 1];
      } else {
        FreeString(id);
      }
    }

    /** The node is taken out, and all are moved together if much memory has become free. */
    method FreeString(id: nat)
      requires Valid() && 0 < id < mNodeList.Length && mNodeList[id].Live? && id in Strings()
      requires Counted(Strings() - {id}, References - {id})
      modifies this, mNodeList, mBuckets
      ensures Valid() && mNodeList == old(mNodeList) && mBuckets == old(mBuckets)
      ensures Strings() == old(Strings()) - {id} && References == old(References) - {id}
    {
      hide Structured;
      hide Entries;
      hide Memory;
      hide Counted;
      FoundNode(id);
      Sizes(Strings(), id, 0);
      MemoryWithout(nodeSize, Strings(), id);
      mFreeStringDataSize := mFreeStringDataSize + |mNodeList[id].node.text| + nodeSize;
      Remove(id);
      if mFreeStringDataSize > COMPACT_THRESHOLD { Compact(); }
      mItemCount := mItemCount - 1;
      References := References - {id};
    }

    function GetString(id: nat): (text: seq<nat>)
      requires Valid() && (id == 0 || id in Strings())
      reads this, mNodeList, mBuckets
      ensures id > 0 ==> text == Strings()[id].0
    {
      if id == 0 then [] else mNodeList[id].node.text
    }
  }

  lemma NoMemory(nodeSize: nat)
    ensures Memory(nodeSize, map[]) == 0
  {
  }

  /** How many strings there are when one's count changes or it goes. */
  lemma Sizes(strings: map<nat, (seq<nat>, nat)>, id: nat, count: int)
    requires id in strings && count >= 0
    ensures |strings[id := (strings[id].0, count)]| == |strings| && |strings - {id}| == |strings| - 1
  {
    assert strings[id := (strings[id].0, count)].Keys == strings.Keys;
    assert strings == (strings - {id})[id := strings[id]];
  }

  /** Ids and strings correspond one to one. */
  lemma OneToOne(t: StringTable, i: nat, j: nat)
    requires t.Valid() && i in t.Strings() && j in t.Strings()
    ensures t.Strings()[i].0 == t.Strings()[j].0 <==> i == j
    ensures t.Strings()[i].0 != [] && t.References[i] > 0
    ensures t.Strings()[i].1 == t.References[i] <==> t.References[i] < COUNT_LIMIT
  {
    assert Sound(t.hash, t.mNodeList[..], i);
  }

  /** A string with 65537 references is freed when one of them is given back. */
  method FreedTooSoon(hash: seq<nat> -> nat, val: seq<nat>) returns (t: StringTable, id: nat)
    requires val != []
    ensures t.Valid() && id !in t.Strings()
  {
    hide Buckets;
    hide Nodes;
    hide Entries;
    hide Memory;
    hide Counted;
    t := new StringTable(hash, 1, 17);
    id := t.Insertn(val);
    var i := 0;
    while i < COUNT_LIMIT
      invariant 0 <= i <= COUNT_LIMIT && t.Valid() && id in t.Strings() && id in t.References
      invariant t.References[id] == i + 1
      invariant fresh(t) && fresh(t.mNodeList) && fresh(t.mBuckets)
    {
      t.IncRef(id);
      i := i + 1;
    }
    t.DecRef(id);
  }
}
