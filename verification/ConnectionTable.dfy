/** The connection list and its open-addressing hash table (tnl/netInterface.cpp). */
module ConnectionTable {
  import opened Wrappers

  /** A connection object, with the address it is found by. */
  datatype Connection = Connection(id: nat, address: nat)

  type Slots = seq<Option<Connection>>

  /** k is met on the way from slot a to slot b, b itself not included. */
  ghost predicate Between(a: int, k: int, b: int) {
    if a <= b then a <= k < b else k >= a || k < b
  }

  ghost predicate Filled(t: Slots, a: int, b: int) {
    forall k :: 0 <= k < |t| && Between(a, k, b) ==> t[k].Some?
  }

  function Next(i: nat, n: nat): nat { if i + 1 >= n then 0 else i + 1 }

  function Home(hash: nat -> nat, c: Connection, n: nat): (h: nat)
    requires n > 0
    ensures h < n
  {
    hash(c.address) % n
  }

  /** Probing from its home reaches the connection in slot j before any empty slot. */
  ghost predicate Reached(hash: nat -> nat, t: Slots, j: nat)
    requires j < |t|
  {
    t[j].Some? ==> Filled(t, Home(hash, t[j].value, |t|), j)
  }

  ghost predicate AllReached(hash: nat -> nat, t: Slots) {
    forall j :: 0 <= j < |t| ==> Reached(hash, t, j)
  }

  ghost function Count(t: Slots): nat {
    if t == [] then 0 else Count(t[..|t| - 1]) + if t[|t| - 1].Some? then 1 else 0
  }

  lemma {:induction false} CountUpdate(t: Slots, i: nat, v: Option<Connection>)
    requires i < |t|
    ensures Count(t[i := v]) == Count(t) - (if t[i].Some? then 1 else 0) + (if v.Some? then 1 else 0)
  {
    var n := |t| - 1;
    if i < n {
      CountUpdate(t[..n], i, v);
      assert t[i := v][..n] == t[..n][i := v];
    } else {
      assert t[i := v][..n] == t[..n];
    }
  }

  /** A table that is not full has an empty slot. */
  lemma {:induction false} EmptySlot(t: Slots) returns (z: nat)
    requires Count(t) < |t|
    ensures z < |t| && t[z].None?
  {
    if t[|t| - 1].None? { z := |t| - 1; } else { z := EmptySlot(t[..|t| - 1]); }
  }

  ghost predicate Contains(t: Slots, c: Connection) { exists i :: 0 <= i < |t| && t[i] == Some(c) }

  ghost predicate Once(t: Slots) { forall i, j :: 0 <= i < j < |t| && t[i].Some? ==> t[i] != t[j] }

  ghost predicate Listed(list: seq<Connection>, c: Connection) { exists i :: 0 <= i < |list| && list[i] == c }

  ghost predicate Different(list: seq<Connection>) { forall i, j :: 0 <= i < j < |list| ==> list[i] != list[j] }

  /** The table holds exactly the listed connections, each in one slot that probing reaches. */
  ghost predicate Indexes(hash: nat -> nat, t: Slots, list: seq<Connection>) {
    && AllReached(hash, t) && Once(t) && Count(t) == |list|
    && forall c :: Contains(t, c) <==> Listed(list, c)
  }

  /** The first empty slot from slot i on. */
  lemma FirstEmpty(t: Slots, i: nat, z: nat) returns (f: nat)
    requires i < |t| && z < |t| && t[z].None?
    ensures f < |t| && t[f].None? && Filled(t, i, f)
    decreases if i <= z then z - i else |t| - i + z
  {
    if t[i].None? { f := i; }
    else {
      f := FirstEmpty(t, Next(i, |t|), z);
      if f == i { assert false; }
    }
  }

  // ----- inserting -----

  lemma FillKeepsReached(hash: nat -> nat, t: Slots, i: nat, c: Connection)
    requires i < |t| && t[i].None? && AllReached(hash, t) && Filled(t, Home(hash, c, |t|), i)
    ensures AllReached(hash, t[i := Some(c)])
  {
    var t' := t[i := Some(c)];
    forall j: nat | j < |t'| ensures Reached(hash, t', j) { assert Reached(hash, t, j); }
  }

  lemma InsertIndexes(hash: nat -> nat, t: Slots, list: seq<Connection>, i: nat, c: Connection)
    requires Indexes(hash, t, list) && i < |t| && t[i].None? && Filled(t, Home(hash, c, |t|), i) && !Listed(list, c)
    ensures Indexes(hash, t[i := Some(c)], list + [c])
  {
    var t', list' := t[i := Some(c)], list + [c];
    FillKeepsReached(hash, t, i, c);
    CountUpdate(t, i, Some(c));
    assert !Contains(t, c);
    forall d ensures Contains(t', d) <==> Listed(list', d) {
      assert list'[|list|] == c && t'[i] == Some(c);
      if Contains(t', d) && d != c {
        var k :| 0 <= k < |t'| && t'[k] == Some(d);
        assert t[k] == Some(d) && Contains(t, d);
        var m :| 0 <= m < |list| && list[m] == d;
        assert list'[m] == d;
      }
      if Listed(list', d) && d != c {
        var m :| 0 <= m < |list'| && list'[m] == d;
        assert list[m] == d && Listed(list, d) && Contains(t, d);
        var k :| 0 <= k < |t| && t[k] == Some(d);
        assert t'[k] == Some(d);
      }
    }
  }

  // ----- removing -----

  /** All but the slots from a up to z, z empty, are reached; those are full and reached without z. */
  ghost predicate ReachedBut(hash: nat -> nat, t: Slots, a: nat, z: nat) {
    && a < |t| && z < |t| && t[z].None?
    && (forall j :: 0 <= j < |t| && !Between(a, j, z) ==> Reached(hash, t, j))
    && (forall j :: 0 <= j < |t| && Between(a, j, z) ==> t[j].Some? && !Between(Home(hash, t[j].value, |t|), z, j))
  }

  /** A slot whose way is interrupted by emptying slot i lies between i and the next empty slot. */
  lemma VacateSlot(hash: nat -> nat, t: Slots, i: nat, z: nat, j: nat)
    requires i < |t| && z < |t| && t[z].None? && t[i].Some? && j < |t| && Reached(hash, t, j)
    requires !Between(Next(i, |t|), j, z)
    ensures Reached(hash, t[i := None], j)
  {
  }

  lemma VacateFirst(hash: nat -> nat, t: Slots, i: nat, z: nat)
    requires AllReached(hash, t) && i < |t| && z < |t| && t[i].Some? && t[z].None?
    requires Filled(t[i := None], Next(i, |t|), z)
    ensures ReachedBut(hash, t[i := None], Next(i, |t|), z)
  {
    var t', a := t[i := None], Next(i, |t|);
    forall j: nat | j < |t| && !Between(a, j, z) ensures Reached(hash, t', j) {
      assert Reached(hash, t, j);
      VacateSlot(hash, t, i, z, j);
    }
    forall j: nat | j < |t| && Between(a, j, z) ensures t'[j].Some? && !Between(Home(hash, t'[j].value, |t|), z, j) {
      assert Reached(hash, t, j);
    }
  }

  lemma VacateNext(hash: nat -> nat, t: Slots, i: nat, z: nat)
    requires ReachedBut(hash, t, i, z) && i != z
    ensures t[i].Some? && ReachedBut(hash, t[i := None], Next(i, |t|), z)
    ensures !Between(Home(hash, t[i].value, |t|), z, i)
  {
    assert Between(i, i, z);
    var t' := t[i := None];
    forall j: nat | j < |t| && !Between(Next(i, |t|), j, z) ensures Reached(hash, t', j) {
      if j != i { VacateSlot(hash, t, i, z, j); }
    }
  }

  /** Putting a connection back into the first empty slot from its home. */
  lemma PutBack(hash: nat -> nat, t: Slots, a: nat, z: nat, i: nat, r: nat, c: Connection)
    requires ReachedBut(hash, t, a, z) && i < |t| && t[i].None? && i != z && !Between(Home(hash, c, |t|), z, i)
    requires r < |t| && t[r].None? && Filled(t, Home(hash, c, |t|), r)
    ensures ReachedBut(hash, t[r := Some(c)], a, z)
  {
    var t' := t[r := Some(c)];
    assert r != z;
    forall j: nat | j < |t| && !Between(a, j, z) ensures Reached(hash, t', j) {
      assert Reached(hash, t, j);
    }
  }

  lemma AllButNone(hash: nat -> nat, t: Slots, z: nat)
    requires ReachedBut(hash, t, z, z)
    ensures AllReached(hash, t)
  {
  }

  /** Moving a connection to an empty slot changes nothing about what the table holds. */
  lemma MoveSame(t: Slots, i: nat, r: nat, c: Connection)
    requires i < |t| && r < |t| && t[i] == Some(c) && Once(t) && (t[r].None? || r == i)
    ensures var t' := t[i := None][r := Some(c)];
      Once(t') && Count(t') == Count(t) && forall d :: Contains(t', d) <==> Contains(t, d)
  {
    var t' := t[i := None][r := Some(c)];
    CountUpdate(t, i, None);
    CountUpdate(t[i := None], r, Some(c));
    forall d ensures Contains(t', d) <==> Contains(t, d) {
      if Contains(t', d) {
        var k :| 0 <= k < |t'| && t'[k] == Some(d);
        if k == r { assert t[i] == Some(d); } else { assert t[k] == Some(d); }
      }
      if Contains(t, d) {
        var k :| 0 <= k < |t| && t[k] == Some(d);
        if k == i { assert t'[r] == Some(d); } else { assert t'[k] == Some(d); }
      }
    }
  }

  /** erase_fast: the last element fills the gap. */
  function EraseFast(list: seq<Connection>, i: nat): seq<Connection>
    requires i < |list|
  {
    list[i := list[|list| - 1]][..|list| - 1]
  }

  lemma EraseElements(list: seq<Connection>, i: nat)
    requires i < |list| && Different(list)
    ensures Different(EraseFast(list, i)) && |EraseFast(list, i)| == |list| - 1
    ensures forall d :: Listed(EraseFast(list, i), d) <==> Listed(list, d) && d != list[i]
  {
    var e, n := EraseFast(list, i), |list| - 1;
    forall d ensures Listed(e, d) <==> Listed(list, d) && d != list[i] {
      if Listed(e, d) {
        var k :| 0 <= k < |e| && e[k] == d;
        assert list[if k == i then n else k] == d;
      }
      if Listed(list, d) && d != list[i] {
        var k :| 0 <= k < |list| && list[k] == d;
        assert e[if k == n then i else k] == d;
      }
    }
  }

  /** The table without the connection in slot i, wherever the others have moved. */
  lemma RemoveContents(t: Slots, i: nat, c: Connection)
    requires i < |t| && t[i] == Some(c) && Once(t)
    ensures Once(t[i := None]) && Count(t[i := None]) == Count(t) - 1
    ensures forall d :: Contains(t[i := None], d) <==> Contains(t, d) && d != c
  {
    var t' := t[i := None];
    CountUpdate(t, i, None);
    forall d ensures Contains(t', d) <==> Contains(t, d) && d != c {
      if Contains(t', d) {
        var k :| 0 <= k < |t'| && t'[k] == Some(d);
        assert t[k] == Some(d);
      }
      if Contains(t, d) && d != c {
        var k :| 0 <= k < |t| && t[k] == Some(d);
        assert t'[k] == Some(d);
      }
    }
  }

  /** A listed connection stands in a slot before which, from the one that its address hashes to on,
      there is no gap; and a slot it does not stand in is not its. */
  lemma StandsBehindHash(hash: nat -> nat, t: Slots, list: seq<Connection>, c: Connection) returns (j: nat)
    requires Indexes(hash, t, list) && Listed(list, c)
    ensures j < |t| && t[j] == Some(c) && forall k :: 0 <= k < |t| && k != j ==> t[k] != Some(c)
    ensures var home := hash(c.address) % |t|;
      forall k :: 0 <= k < |t| && (if home <= j then home <= k < j else k >= home || k < j) ==> t[k].Some?
  {
    assert Contains(t, c);
    j :| 0 <= j < |t| && t[j] == Some(c);
    assert Reached(hash, t, j);
  }

  // ----- the interface -----

  lemma ProbeGoesOn(t: Slots, home: nat, index: nat, z: nat)
    requires home < |t| && index < |t| && z < |t| && t[z].None? && t[index].Some? && Filled(t, home, index)
    requires index == home || !Between(index, home, z)
    ensures Filled(t, home, Next(index, |t|)) && (Next(index, |t|) == home || !Between(Next(index, |t|), home, z))
    ensures Next(index, |t|) != home
    ensures Ahead(Next(index, |t|), z, |t|) < Ahead(index, z, |t|)
  {
  }

  /** How far it is from slot i on to slot z. */
  function Ahead(i: int, z: int, n: int): int { if i <= z then z - i else n - i + z }

  /** The first empty slot from a connection's home on. */
  method FindEmpty(hash: nat -> nat, table: array<Option<Connection>>, c: Connection, ghost z: nat) returns (index: nat)
    requires z < table.Length && table[z].None?
    ensures index < table.Length && table[index].None? && Filled(table[..], Home(hash, c, table.Length), index)
  {
    index := hash(c.address) % table.Length;
    ghost var home := index;
    while table[index].Some?
      invariant index < table.Length && Filled(table[..], home, index) && (index == home || !Between(index, home, z))
      decreases Ahead(index, z, table.Length)
    {
      ProbeGoesOn(table[..], home, index, z);
      index := Next(index, table.Length);
    }
  }

  class NetInterface {
    const hash: nat -> nat
    var mConnectionHashTable: array<Option<Connection>>
    var mConnectionList: seq<Connection>

    ghost predicate Valid()
      reads this, mConnectionHashTable
    {
      && Different(mConnectionList)
      && 0 < mConnectionHashTable.Length && 2 * |mConnectionList| <= mConnectionHashTable.Length
      && Indexes(hash, mConnectionHashTable[..], mConnectionList)
    }

    constructor (hash: nat -> nat, size: nat)
      requires size > 0
      ensures Valid() && fresh(mConnectionHashTable) && mConnectionList == [] && this.hash == hash
    {
      this.hash := hash;
      mConnectionHashTable := new Option<Connection>[size](_ => None);
      mConnectionList := [];
      new;
      CountNone(mConnectionHashTable[..]);
    }

    /** A connection with the address, exactly if the list has one. */
    method FindConnection(addr: nat) returns (found: Option<Connection>)
      requires Valid()
      ensures found.Some? ==> found.value.address == addr && Listed(mConnectionList, found.value)
      ensures found.None? <==> forall c :: Listed(mConnectionList, c) ==> c.address != addr
    {
      ghost var t := mConnectionHashTable[..];
      ghost var z := EmptySlot(t);
      var hashIndex: nat := hash(addr) % mConnectionHashTable.Length;
      ghost var home := hashIndex;
      while mConnectionHashTable[hashIndex].Some?
        invariant hashIndex < |t| == mConnectionHashTable.Length && Filled(t, home, hashIndex)
        invariant (hashIndex == home || !Between(hashIndex, home, z))
        invariant forall k :: 0 <= k < |t| && Between(home, k, hashIndex) ==> t[k].Some? && t[k].value.address != addr
        decreases Ahead(hashIndex, z, |t|)
      {
        if mConnectionHashTable[hashIndex].value.address == addr {
          found := mConnectionHashTable[hashIndex];
          assert t[hashIndex] == Some(found.value) && Contains(t, found.value);
          return;
        }
        ProbeGoesOn(t, home, hashIndex, z);
        hashIndex := Next(hashIndex, mConnectionHashTable.Length);
      }
      found := None;
      forall c | Listed(mConnectionList, c) ensures c.address != addr {
        assert Contains(t, c);
        var j :| 0 <= j < |t| && t[j] == Some(c);
        assert Reached(hash, t, j);
      }
    }

    /** One connection goes into the table. */
    method Insert(c: Connection, ghost list: seq<Connection>)
      requires Indexes(hash, mConnectionHashTable[..], list) && |list| < mConnectionHashTable.Length && !Listed(list, c)
      modifies mConnectionHashTable
      ensures Indexes(hash, mConnectionHashTable[..], list + [c])
    {
      ghost var z := EmptySlot(mConnectionHashTable[..]);
      var index := FindEmpty(hash, mConnectionHashTable, c, z);
      InsertIndexes(hash, mConnectionHashTable[..], list, index, c);
      mConnectionHashTable[index] := Some(c);
      assert mConnectionHashTable[..] == old(mConnectionHashTable[..])[index := Some(c)];
    }

    method AddConnection(conn: Connection)
      requires Valid() && !Listed(mConnectionList, conn)
      modifies this, mConnectionHashTable
      ensures Valid() && mConnectionList == old(mConnectionList) + [conn]
      ensures mConnectionHashTable == old(mConnectionHashTable) || fresh(mConnectionHashTable)
      ensures var n, size := |old(mConnectionList)| + 1, old(mConnectionHashTable).Length;
        mConnectionHashTable.Length == if n > size / 2 then 4 * n - 1 else size
    {
      ghost var was := mConnectionList;
      mConnectionList := mConnectionList + [conn];
      AppendDifferent(was, conn);
      var numConnections := |mConnectionList|;
      if numConnections > mConnectionHashTable.Length / 2 {
        mConnectionHashTable := new Option<Connection>[numConnections * 4 - 1](_ => None);
        CountNone(mConnectionHashTable[..]);
        var i := 0;
        assert mConnectionList[..0] == [];
        while i < numConnections
          invariant 0 <= i <= numConnections && fresh(mConnectionHashTable)
          invariant mConnectionHashTable.Length == numConnections * 4 - 1
          invariant mConnectionList == was + [conn] && Different(mConnectionList)
          invariant Indexes(hash, mConnectionHashTable[..], mConnectionList[..i])
        {
          Insert(mConnectionList[i], mConnectionList[..i]);
          assert mConnectionList[..i + 1] == mConnectionList[..i] + [mConnectionList[i]];
          i := i + 1;
        }
        assert mConnectionList[..numConnections] == mConnectionList;
      } else {
        Insert(conn, was);
      }
    }

    /** Takes the connection out of its slot and puts those behind it, up to the next empty slot, where
        probing reaches them. */
    method RemoveSlot(index: nat)
      requires AllReached(hash, mConnectionHashTable[..]) && Once(mConnectionHashTable[..])
      requires index < mConnectionHashTable.Length && mConnectionHashTable[index].Some?
      requires Count(mConnectionHashTable[..]) < mConnectionHashTable.Length
      modifies mConnectionHashTable
      ensures AllReached(hash, mConnectionHashTable[..]) && Once(mConnectionHashTable[..])
      ensures SameHoldings(mConnectionHashTable[..], old(mConnectionHashTable[..])[index := None])
    {
      ghost var t0 := mConnectionHashTable[..];
      ghost var t1 := t0[index := None];
      ghost var e := EmptySlot(t0);
      ghost var z := FirstEmpty(t1, Next(index, |t1|), e);
      RemoveContents(t0, index, t0[index].value);
      VacateFirst(hash, t0, index, z);
      mConnectionHashTable[index] := None;
      assert mConnectionHashTable[..] == t1;
      var at: nat := Next(index, mConnectionHashTable.Length);
      while mConnectionHashTable[at].Some?
        invariant at < mConnectionHashTable.Length == |t1|
        invariant ReachedBut(hash, mConnectionHashTable[..], at, z) && Once(mConnectionHashTable[..])
        invariant SameHoldings(mConnectionHashTable[..], t1)
        decreases Ahead(at, z, |t1|)
      {
        ghost var t := mConnectionHashTable[..];
        var rehashConn := mConnectionHashTable[at].value;
        VacateNext(hash, t, at, z);
        mConnectionHashTable[at] := None;
        assert mConnectionHashTable[..] == t[at := None];
        var realIndex := FindEmpty(hash, mConnectionHashTable, rehashConn, at);
        PutBack(hash, t[at := None], Next(at, |t|), z, at, realIndex, rehashConn);
        MoveSame(t, at, realIndex, rehashConn);
        mConnectionHashTable[realIndex] := Some(rehashConn);
        assert mConnectionHashTable[..] == t[at := None][realIndex := Some(rehashConn)];
        at := Next(at, mConnectionHashTable.Length);
      }
      AllButNone(hash, mConnectionHashTable[..], z);
    }

    /** Where a listed connection is. */
    method SlotOf(conn: Connection) returns (index: nat)
      requires Valid() && Listed(mConnectionList, conn)
      ensures index < mConnectionHashTable.Length && mConnectionHashTable[index] == Some(conn)
    {
      ghost var t := mConnectionHashTable[..];
      assert Contains(t, conn);
      ghost var j :| 0 <= j < |t| && t[j] == Some(conn);
      assert Reached(hash, t, j);
      index := hash(conn.address) % mConnectionHashTable.Length;
      ghost var home := index;
      while mConnectionHashTable[index] != Some(conn)
        invariant index < |t| && (index == j || Between(home, index, j))
        decreases Ahead(index, j, |t|)
      {
        index := Next(index, mConnectionHashTable.Length);
      }
    }

    method RemoveConnection(conn: Connection)
      requires Valid() && Listed(mConnectionList, conn)
      modifies this, mConnectionHashTable
      ensures Valid() && mConnectionHashTable == old(mConnectionHashTable)
      ensures forall c :: Listed(mConnectionList, c) <==> Listed(old(mConnectionList), c) && c != conn
      ensures forall i :: 0 <= i < |old(mConnectionList)| && old(mConnectionList)[i] == conn ==>
        var last := |old(mConnectionList)| - 1;
        mConnectionList == old(mConnectionList)[i := old(mConnectionList)[last]][..last]
    {
      var index := SlotOf(conn);
      ghost var t := mConnectionHashTable[..];
      RemoveContents(t, index, conn);
      RemoveSlot(index);
      var i := 0;
      while mConnectionList[i] != conn
        invariant 0 <= i < |mConnectionList| && mConnectionList == old(mConnectionList)
        invariant forall k :: 0 <= k < i ==> mConnectionList[k] != conn
        decreases |mConnectionList| - i
      {
        assert exists k :: i < k < |mConnectionList| && mConnectionList[k] == conn by {
          var k :| 0 <= k < |mConnectionList| && mConnectionList[k] == conn;
        }
        i := i + 1;
      }
      EraseElements(mConnectionList, i);
      mConnectionList := EraseFast(mConnectionList, i);
    }
  }

  ghost predicate SameHoldings(t: Slots, u: Slots) {
    |t| == |u| && Count(t) == Count(u) && forall d :: Contains(t, d) <==> Contains(u, d)
  }

  lemma {:induction false} CountNone(t: Slots)
    requires forall i :: 0 <= i < |t| ==> t[i].None?
    ensures Count(t) == 0
  {
    if t != [] { CountNone(t[..|t| - 1]); }
  }

  lemma AppendDifferent(list: seq<Connection>, c: Connection)
    requires Different(list) && !Listed(list, c)
    ensures Different(list + [c])
  {
  }
}
