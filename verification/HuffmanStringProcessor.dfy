/** buildTables and the Huffman coding of strings (tnl/huffmanStringProcessor.cpp). */
module HuffmanStringProcessorObject {
  import opened HuffmanTree
  import opened BitFields

  const SYMBOLS := 256

  datatype HuffNode = HuffNode(pop: nat, index0: int, index1: int)

  /** `code` is the 32 bits of the code word; its first numBits bits are the code. */
  datatype HuffLeaf = HuffLeaf(pop: nat, numBits: nat, symbol: nat, code: seq<bool>)

  /** A root during the construction: a pointer to a leaf or to a node. */
  datatype Wrap = OfLeaf(leaf: nat) | OfNode(node: nat)

  function DetermineIndex(w: Wrap): int {
    match w
    case OfLeaf(s) => -(s + 1)
    case OfNode(n) => n
  }

  /** The table entry at `index` stands for the tree; entry 0 is kept for the root. */
  ghost predicate Stands(nodes: seq<HuffNode>, index: int, t: Tree)
    decreases t
  {
    match t
    case Leaf(s) => index == -(s + 1)
    case Node(l, r) =>
      && 0 < index < |nodes|
      && Stands(nodes, nodes[index].index0, l)
      && Stands(nodes, nodes[index].index1, r)
  }

  /** The root is entry 0. */
  ghost predicate Rooted(nodes: seq<HuffNode>, t: Tree) {
    t.Node? && |nodes| > 0 && Stands(nodes, nodes[0].index0, t.left) && Stands(nodes, nodes[0].index1, t.right)
  }

  /** Some way down from the root, at the table entry `index` and the subtree `t`. */
  ghost predicate Reached(nodes: seq<HuffNode>, index: int, t: Tree, root: Tree) {
    (Stands(nodes, index, t) || (index == 0 && t == root)) && Symbols(t) <= Symbols(root)
  }

  lemma AtRoot(nodes: seq<HuffNode>, root: Tree)
    requires Rooted(nodes, root)
    ensures Reached(nodes, 0, root, root)
  {
  }

  lemma OneDown(nodes: seq<HuffNode>, index: int, t: Tree, root: Tree)
    requires Rooted(nodes, root) && Reached(nodes, index, t, root) && index >= 0
    ensures t.Node? && index < |nodes|
    ensures Reached(nodes, nodes[index].index0, t.left, root) && Reached(nodes, nodes[index].index1, t.right, root)
  {
  }

  lemma AtLeaf(nodes: seq<HuffNode>, index: int, t: Tree, root: Tree)
    requires Reached(nodes, index, t, root) && index < 0
    ensures t.Leaf? && index == -(t.symbol + 1) && t.symbol in Symbols(root)
  {
  }

  lemma {:induction false} StandsMore(nodes: seq<HuffNode>, nodes': seq<HuffNode>, index: int, t: Tree)
    requires Stands(nodes, index, t) && |nodes| <= |nodes'| && forall k :: 0 < k < |nodes| ==> nodes'[k] == nodes[k]
    ensures Stands(nodes', index, t)
    decreases t
  {
    if t.Node? {
      StandsMore(nodes, nodes', nodes[index].index0, t.left);
      StandsMore(nodes, nodes', nodes[index].index1, t.right);
    }
  }

  function GetPop(nodes: seq<HuffNode>, pop: seq<nat>, w: Wrap): nat
    requires w.OfLeaf? ==> w.leaf < |pop|
    requires w.OfNode? ==> w.node < |nodes|
  {
    if w.OfNode? then nodes[w.node].pop else pop[w.leaf]
  }

  /** The wraps stand for the trees and have their weights. */
  ghost predicate Wraps(nodes: seq<HuffNode>, pop: seq<nat>, wraps: seq<Wrap>, trees: seq<Tree>) {
    |wraps| == |trees| && forall i :: 0 <= i < |wraps| ==> Wrapped(nodes, pop, wraps[i], trees[i])
  }

  ghost predicate Wrapped(nodes: seq<HuffNode>, pop: seq<nat>, w: Wrap, t: Tree) {
    && (w.OfLeaf? ==> w.leaf < |pop|) && (w.OfNode? ==> 0 < w.node < |nodes|)
    && Stands(nodes, DetermineIndex(w), t) && GetPop(nodes, pop, w) == Weight(pop, t)
  }

  // ----- the scan for the two lightest -----

  datatype Scan = Scan(min1: nat, index1: int, min2: nat, index2: int)

  /** The lightest and the second lightest of some weights; of equal ones the earlier. */
  ghost function ScanOf(weights: seq<nat>): Scan {
    if weights == [] then Scan(0xfffffffe, -1, 0xffffffff, -1)
    else
      var i, s := |weights| - 1, ScanOf(weights[..|weights| - 1]);
      var p := weights[i];
      if p < s.min1 then Scan(p, i, s.min1, s.index1)
      else if p < s.min2 then Scan(s.min1, s.index1, p, i)
      else s
  }

  ghost function Weights(pop: seq<nat>, trees: seq<Tree>): seq<nat> {
    seq(|trees|, i requires 0 <= i < |trees| => Weight(pop, trees[i]))
  }

  ghost predicate Scanned(weights: seq<nat>, s: Scan) {
    && -1 <= s.index1 < |weights| && -1 <= s.index2 < |weights|
    && (|weights| > 0 ==> s.index1 >= 0) && (|weights| > 1 ==> s.index2 >= 0)
    && (if s.index1 >= 0 then s.min1 == weights[s.index1] else s.min1 == 0xfffffffe)
    && (if s.index2 >= 0 then s.min2 == weights[s.index2] && s.index2 != s.index1 else s.min2 >= 0xfffffffe)
    && s.min1 <= s.min2
    && (forall k :: 0 <= k < |weights| && k != s.index1 ==> s.min2 <= weights[k])
  }

  lemma {:induction false} ScanFinds(weights: seq<nat>)
    requires forall i :: 0 <= i < |weights| ==> weights[i] < 0xfffffffe
    ensures Scanned(weights, ScanOf(weights))
  {
    if weights != [] { ScanFinds(weights[..|weights| - 1]); }
  }

  lemma ScanLightest(pop: seq<nat>, trees: seq<Tree>)
    requires |trees| >= 2 && TotalWeight(pop, trees) < 0xfffffffe
    ensures var s := ScanOf(Weights(pop, trees));
      0 <= s.index1 && 0 <= s.index2 && Lightest(pop, trees, s.index1, s.index2)
  {
    forall i: nat | i < |trees| ensures Weight(pop, trees[i]) < 0xfffffffe { PartOfTotal(pop, trees, i); }
    var weights := Weights(pop, trees);
    ScanFinds(weights);
    hide Weight;
    hide ScanOf;
    var s := ScanOf(weights);
    forall k | 0 <= k < |trees| && k != s.index1 ensures Weight(pop, trees[s.index2]) <= Weight(pop, trees[k]) {
      assert s.min2 <= weights[k];
    }
  }

  /** The scan over the wraps. */
  method TwoLightest(wraps: array<Wrap>, currWraps: nat, nodes: seq<HuffNode>, pop: seq<nat>, ghost trees: seq<Tree>)
    returns (index1: nat, index2: nat)
    requires 2 <= currWraps <= wraps.Length && Wraps(nodes, pop, wraps[..currWraps], trees)
    requires TotalWeight(pop, trees) < 0xfffffffe
    ensures Lightest(pop, trees, index1, index2)
    ensures var s := ScanOf(Weights(pop, trees)); index1 == s.index1 && index2 == s.index2
  {
    hide Lightest;
    hide Weight;
    ghost var weights := Weights(pop, trees);
    var min1: nat, min2: nat := 0xfffffffe, 0xffffffff;
    var i1, i2 := -1, -1;
    var i := 0;
    while i < currWraps
      invariant 0 <= i <= currWraps && Scan(min1, i1, min2, i2) == ScanOf(weights[..i])
    {
      assert Wrapped(nodes, pop, wraps[..currWraps][i], trees[i]);
      var p := GetPop(nodes, pop, wraps[i]);
      assert weights[..i + 1][..i] == weights[..i] && weights[..i + 1][i] == p;
      if p < min1 {
        min2, i2 := min1, i1;
        min1, i1 := p, i;
      } else if p < min2 {
        min2, i2 := p, i;
      }
      i := i + 1;
    }
    assert weights[..i] == weights;
    ScanLightest(pop, trees);
    index1, index2 := i1, i2;
  }

  /** Wraps, nodes and trees after the two at i and j are joined by a new node. */
  lemma JoinWraps(nodes: seq<HuffNode>, pop: seq<nat>, wraps: seq<Wrap>, trees: seq<Tree>, i: nat, j: nat,
                  nodes': seq<HuffNode>, wraps': seq<Wrap>)
    requires |nodes| > 0 && Wraps(nodes, pop, wraps, trees) && i < |wraps| && j < |wraps| && i != j
    requires nodes'
         == nodes + [HuffNode(Weight(pop, trees[i]) + Weight(pop, trees[j]), DetermineIndex(wraps[i]),
                              DetermineIndex(wraps[j]))]
    requires |wraps'| == |wraps| - 1
    requires var lo, hi := if i < j then i else j, if i < j then j else i;
      forall k :: 0 <= k < |wraps'| ==>
        wraps'[k] == if k == lo then OfNode(|nodes|) else wraps[if k == hi then |wraps| - 1 else k]
    ensures Wraps(nodes', pop, wraps', Merged(trees, i, j))
  {
    var lo, hi := if i < j then i else j, if i < j then j else i;
    assert Wrapped(nodes, pop, wraps[i], trees[i]) && Wrapped(nodes, pop, wraps[j], trees[j]);
    WrappedMore(nodes, pop, wraps[i], trees[i], nodes');
    WrappedMore(nodes, pop, wraps[j], trees[j], nodes');
    forall k: nat | k < |wraps'| ensures Wrapped(nodes', pop, wraps'[k], Merged(trees, i, j)[k]) {
      MergedAt(trees, i, j, k);
      if k != lo {
        var k' := if k == hi then |wraps| - 1 else k;
        assert Wrapped(nodes, pop, wraps[k'], trees[k']);
        WrappedMore(nodes, pop, wraps[k'], trees[k'], nodes');
      }
    }
  }

  lemma WrappedMore(nodes: seq<HuffNode>, pop: seq<nat>, w: Wrap, t: Tree, nodes': seq<HuffNode>)
    requires Wrapped(nodes, pop, w, t) && nodes < nodes'
    ensures Wrapped(nodes', pop, w, t)
  {
    StandsMore(nodes, nodes', DetermineIndex(w), t);
  }

  ghost function Total(pop: seq<nat>): nat {
    if pop == [] then 0 else Total(pop[..|pop| - 1]) + pop[|pop| - 1]
  }

  ghost function Leaves(n: nat): seq<Tree> { seq(n, i requires 0 <= i < n => Leaf(i)) }

  lemma {:induction false} LeavesTotal(pop: seq<nat>, n: nat)
    requires n <= |pop|
    ensures TotalWeight(pop, Leaves(n)) == Total(pop[..n])
  {
    if n > 0 {
      LeavesTotal(pop, n - 1);
      assert Leaves(n)[..n - 1] == Leaves(n - 1) && pop[..n][..n - 1] == pop[..n - 1];
    }
  }

  lemma StartForest(pop: seq<nat>, n: nat)
    requires n == |pop| && forall i :: 0 <= i < n ==> pop[i] >= 1
    ensures Forest(pop, Leaves(n)) && Covers(Leaves(n), n) && TotalWeight(pop, Leaves(n)) == Total(pop)
  {
    LeavesTotal(pop, n);
    assert pop[..n] == pop && Fib(2) == 1;
    forall s: nat | s < n ensures Has(Leaves(n), s) { assert s in Symbols(Leaves(n)[s]); }
  }

  /** No tree of a forest is heavier than the whole. */
  lemma {:induction false} PartOfTotal(pop: seq<nat>, trees: seq<Tree>, i: nat)
    requires i < |trees|
    ensures Weight(pop, trees[i]) <= TotalWeight(pop, trees)
  {
    if i < |trees| - 1 { PartOfTotal(pop, trees[..|trees| - 1], i); }
  }

  // ----- the tree of a frequency table -----

  /** Joining the two lightest until one tree is left. */
  ghost function Grow(pop: seq<nat>, trees: seq<Tree>): Tree
    requires |trees| > 0
    decreases |trees|
  {
    if |trees| == 1 then trees[0]
    else
      var s := ScanOf(Weights(pop, trees));
      if 0 <= s.index1 < |trees| && 0 <= s.index2 < |trees| && s.index1 != s.index2
      then Grow(pop, Merged(trees, s.index1, s.index2))
      else trees[0]
  }

  /** The code tree of a frequency table. */
  ghost function HuffTree(pop: seq<nat>): Tree
    requires |pop| > 0
  {
    Grow(pop, Leaves(|pop|))
  }

  ghost predicate Growing(pop: seq<nat>, trees: seq<Tree>) {
    |trees| > 0 && Forest(pop, trees) && Covers(trees, |pop|) && TotalWeight(pop, trees) == Total(pop)
  }

  lemma GrowsOn(pop: seq<nat>, trees: seq<Tree>)
    requires Growing(pop, trees) && Total(pop) < Fib(35) && |trees| > 1
    ensures var s := ScanOf(Weights(pop, trees));
      && 0 <= s.index1 && 0 <= s.index2 && Lightest(pop, trees, s.index1, s.index2)
      && Growing(pop, Merged(trees, s.index1, s.index2)) && |Merged(trees, s.index1, s.index2)| == |trees| - 1
  {
    hide Fib;
    hide Forest;
    hide Covers;
    hide Weight;
    hide TotalWeight;
    hide ScanOf;
    Fib35();
    ScanLightest(pop, trees);
    var s := ScanOf(Weights(pop, trees));
    MergeKeepsForest(pop, trees, s.index1, s.index2);
    MergeKeepsCover(trees, s.index1, s.index2, |pop|);
    MergeKeepsTotal(pop, trees, s.index1, s.index2);
  }

  /** It has just the symbols of the table as its leaves, each once, and no code is too long. */
  lemma {:induction false} GrowsWhole(pop: seq<nat>, trees: seq<Tree>)
    requires Growing(pop, trees) && Total(pop) < Fib(35) && |pop| > 0
    ensures var t := Grow(pop, trees);
      Distinct(t) && Height(t) <= 32 && forall s :: s in Symbols(t) <==> 0 <= s < |pop|
    decreases |trees|
  {
    hide Fib;
    hide Forest;
    hide Covers;
    hide Heavy;
    hide ScanOf;
    if |trees| == 1 {
      assert trees == [trees[0]];
      PartOfTotal(pop, trees, 0);
      OneTree(pop, trees[0], |pop|);
      CodesFit(pop, trees[0], 0);
    } else {
      GrowsOn(pop, trees);
      var s := ScanOf(Weights(pop, trees));
      GrowsWhole(pop, Merged(trees, s.index1, s.index2));
    }
  }

  lemma HuffTreeWhole(pop: seq<nat>)
    requires |pop| > 0 && (forall i :: 0 <= i < |pop| ==> pop[i] >= 1) && Total(pop) < Fib(35)
    ensures var t := HuffTree(pop);
      Distinct(t) && Height(t) <= 32 && forall s :: s in Symbols(t) <==> 0 <= s < |pop|
  {
    hide Fib;
    hide Total;
    StartForest(pop, |pop|);
    GrowsWhole(pop, Leaves(|pop|));
  }

  /** One state of the construction. */
  ghost predicate Stage(nodes: seq<HuffNode>, pop: seq<nat>, wraps: seq<Wrap>, trees: seq<Tree>) {
    |nodes| > 0 && |wraps| > 0 && Wraps(nodes, pop, wraps, trees) && Growing(pop, trees)
  }

  lemma JoinStage(nodes: seq<HuffNode>, pop: seq<nat>, wraps: seq<Wrap>, trees: seq<Tree>, i: nat, j: nat,
                  nodes': seq<HuffNode>, wraps': seq<Wrap>)
    requires Stage(nodes, pop, wraps, trees) && i < |trees| && Lightest(pop, trees, i, j) && |wraps| > 1
    requires |wraps'| == |wraps| - 1
    requires nodes'
         == nodes + [HuffNode(Weight(pop, trees[i]) + Weight(pop, trees[j]), DetermineIndex(wraps[i]),
                              DetermineIndex(wraps[j]))]
    requires var lo, hi := if i < j then i else j, if i < j then j else i;
      forall k :: 0 <= k < |wraps'| ==>
        wraps'[k] == if k == lo then OfNode(|nodes|) else wraps[if k == hi then |wraps| - 1 else k]
    ensures Stage(nodes', pop, wraps', Merged(trees, i, j))
    ensures |wraps'| == 1 ==> Merged(trees, i, j)[0].Node?
  {
    JoinWraps(nodes, pop, wraps, trees, i, j, nodes', wraps');
    MergeKeepsForest(pop, trees, i, j);
    MergeKeepsCover(trees, i, j, |pop|);
    MergeKeepsTotal(pop, trees, i, j);
    MergedAt(trees, i, j, 0);
  }

  /** The two lightest roots are joined. */
  method MergeLightest(wraps: array<Wrap>, currWraps: nat, nodes: seq<HuffNode>, pop: seq<nat>, ghost trees: seq<Tree>)
    returns (nodes': seq<HuffNode>, ghost trees': seq<Tree>)
    requires 2 <= currWraps <= wraps.Length && Stage(nodes, pop, wraps[..currWraps], trees) && Total(pop) < Fib(35)
    modifies wraps
    ensures Stage(nodes', pop, wraps[..currWraps - 1], trees') && |trees'| == currWraps - 1
    ensures (currWraps == 2 ==> trees'[0].Node?)
    ensures trees != [] && Grow(pop, trees') == Grow(pop, trees)
  {
    hide Forest;
    hide Covers;
    hide Weight;
    hide Fib;
    hide Stands;
    hide ScanOf;
    Fib35();
    var index1, index2 := TwoLightest(wraps, currWraps, nodes, pop, trees);
    ghost var was := wraps[..currWraps];
    assert Wrapped(nodes, pop, was[index1], trees[index1]) && Wrapped(nodes, pop, was[index2], trees[index2]);
    nodes' := nodes + [HuffNode(GetPop(nodes, pop, wraps[index1]) + GetPop(nodes, pop, wraps[index2]),
                                DetermineIndex(wraps[index1]), DetermineIndex(wraps[index2]))];
    var mergeIndex, nukeIndex := if index1 > index2 then index2 else index1, if index1 > index2 then index1 else index2;
    wraps[mergeIndex] := OfNode(|nodes'| - 1);
    if index2 != currWraps - 1 { wraps[nukeIndex] := wraps[currWraps - 1]; }
    JoinStage(nodes, pop, was, trees, index1, index2, nodes', wraps[..currWraps - 1]);
    trees' := Merged(trees, index1, index2);
  }

  lemma StartStage(pop: seq<nat>, nodes: seq<HuffNode>, wraps: seq<Wrap>)
    requires |pop| == |wraps| == SYMBOLS && (forall i :: 0 <= i < SYMBOLS ==> pop[i] >= 1) && |nodes| == 1
    requires forall i :: 0 <= i < SYMBOLS ==> wraps[i] == OfLeaf(i)
    ensures Stage(nodes, pop, wraps, Leaves(SYMBOLS))
  {
    StartForest(pop, SYMBOLS);
  }

  lemma LastWrap(nodes: seq<HuffNode>, pop: seq<nat>, w: Wrap, t: Tree)
    requires Stage(nodes, pop, [w], [t]) && t.Node?
    ensures w.OfNode? && 0 < w.node < |nodes| && Stands(nodes, w.node, t)
  {
    assert Wrapped(nodes, pop, [w][0], [t][0]);
  }

  /** The one root left is copied to entry 0. */
  lemma EndStage(nodes: seq<HuffNode>, pop: seq<nat>, w: Wrap, t: Tree)
    requires Stage(nodes, pop, [w], [t]) && t.Node?
    ensures w.OfNode? && 0 < w.node < |nodes| && Rooted(nodes[0 := nodes[w.node]], t)
  {
    hide Forest;
    hide Covers;
    hide Heavy;
    hide Fib;
    LastWrap(nodes, pop, w, t);
    var root, nodes' := nodes[w.node], nodes[0 := nodes[w.node]];
    StandsMore(nodes, nodes', root.index0, t.left);
    StandsMore(nodes, nodes', root.index1, t.right);
  }

  lemma GrowOne(pop: seq<nat>, t: Tree)
    ensures Grow(pop, [t]) == t
  {
  }

  lemma OneTree(pop: seq<nat>, t: Tree, n: nat)
    requires Forest(pop, [t]) && Covers([t], n)
    ensures Distinct(t) && Heavy(pop, t) && forall s :: s in Symbols(t) <==> 0 <= s < n
  {
    hide Distinct;
    hide Heavy;
    hide Symbols;
    assert [t][0] == t;
    forall s: nat | s < n ensures s in Symbols(t) { assert Has([t], s); }
    forall s | s in Symbols(t) ensures s < n { assert s in Symbols([t][0]); }
  }

  /** The node table: a full binary tree with all symbols as leaves, every code at most 32 bits. */
  method BuildNodes(pop: seq<nat>) returns (nodes: seq<HuffNode>, ghost root: Tree)
    requires |pop| == SYMBOLS && (forall i :: 0 <= i < SYMBOLS ==> pop[i] >= 1) && Total(pop) < Fib(35)
    ensures root == HuffTree(pop) && Rooted(nodes, root)
  {
    hide Fib;
    hide Grow;
    var wraps := new Wrap[SYMBOLS](i requires i >= 0 => OfLeaf(i));
    nodes := [HuffNode(0, 0, 0)];
    ghost var trees := Leaves(SYMBOLS);
    StartStage(pop, nodes, wraps[..]);
    var currWraps := SYMBOLS;
    assert wraps[..currWraps] == wraps[..];
    hide Stage;
    while currWraps != 1
      invariant 1 <= currWraps <= SYMBOLS && |trees| == currWraps
      invariant Stage(nodes, pop, wraps[..currWraps], trees) && (currWraps == 1 ==> trees[0].Node?)
      invariant Grow(pop, trees) == HuffTree(pop)
    {
      nodes, trees := MergeLightest(wraps, currWraps, nodes, pop, trees);
      currWraps := currWraps - 1;
    }
    root := trees[0];
    assert trees == [root] && wraps[..1] == [wraps[0]];
    GrowOne(pop, root);
    EndStage(nodes, pop, wraps[0], root);
    nodes := nodes[0 := nodes[wraps[0].node]];
  }

  // ----- generateCodes -----

  /** The leaf of a symbol has its code after some bits. */
  ghost predicate Coded(leaf: HuffLeaf, prefix: seq<bool>, t: Tree, s: nat)
    requires s in Symbols(t)
  {
    var code := prefix + Code(t, s);
    leaf.numBits == |code| && |leaf.code| == 32 && |code| <= 32 && leaf.code[..|code|] == code
  }

  /** One half of a node: its leaves are coded after the bits to the node and the bit for the half. */
  lemma CodedDown(leaf: HuffLeaf, prefix: seq<bool>, t: Tree, s: nat, right: bool)
    requires t.Node? && Distinct(t) && s in Symbols(if right then t.right else t.left)
    requires Coded(leaf, prefix + [right], if right then t.right else t.left, s)
    ensures s in Symbols(t) && Coded(leaf, prefix, t, s)
  {
    var half := if right then t.right else t.left;
    assert Code(t, s) == [right] + Code(half, s);
    assert (prefix + [right]) + Code(half, s) == prefix + ([right] + Code(half, s));
  }

  /** Writes the codes of all leaves below an entry.  The stream is the 32 bits of one code word, which
      each leaf copies whole; bits beyond its code are left from before. */
  method GenerateCodes(nodes: seq<HuffNode>, leaves: array<HuffLeaf>, rBS: array<bool>, index: int, depth: nat,
                       ghost t: Tree)
    requires rBS.Length == 32 && leaves.Length == SYMBOLS && depth + Height(t) <= 32 && Distinct(t)
    requires Stands(nodes, index, t) || (index == 0 && Rooted(nodes, t))
    requires forall s :: s in Symbols(t) ==> s < SYMBOLS
    modifies leaves, rBS
    ensures rBS[..depth] == old(rBS[..depth])
    ensures forall s :: 0 <= s < SYMBOLS ==>
      leaves[s].pop == old(leaves[s].pop) && leaves[s].symbol == old(leaves[s].symbol)
    ensures forall s :: 0 <= s < SYMBOLS && s !in Symbols(t) ==> leaves[s] == old(leaves[s])
    ensures forall s :: s in Symbols(t) ==> Coded(leaves[s], old(rBS[..depth]), t, s)
    decreases t
  {
    ghost var prefix := rBS[..depth];
    if index < 0 {
      var s := -(index + 1);
      assert t == Leaf(s) && s in Symbols(t);
      leaves[s] := leaves[s].(code := rBS[..], numBits := depth);
      assert prefix + [] == prefix;
    } else {
      var rNode := nodes[index];
      assert Symbols(t) == Symbols(t.left) + Symbols(t.right);
      rBS[depth] := false;
      assert rBS[..depth + 1] == prefix + [false];
      GenerateCodes(nodes, leaves, rBS, rNode.index0, depth + 1, t.left);
      ghost var mid := leaves[..];
      assert rBS[..depth] == prefix by { assert rBS[..depth] == rBS[..depth + 1][..depth]; }
      rBS[depth] := true;
      assert rBS[..depth + 1] == prefix + [true];
      GenerateCodes(nodes, leaves, rBS, rNode.index1, depth + 1, t.right);
      assert rBS[..depth] == rBS[..depth + 1][..depth];
      forall s | s in Symbols(t) ensures Coded(leaves[s], prefix, t, s) {
        if s in Symbols(t.left) { assert leaves[s] == mid[s]; CodedDown(leaves[s], prefix, t, s, false); }
        else { CodedDown(leaves[s], prefix, t, s, true); }
      }
    }
  }

  // ----- the tables in use -----

  /** mCharFreqs: the counts of the characters, sixteen at a time; those from 128 on are 0. */
  const ROW0: seq<nat> := [0, 0, 0, 0, 0, 0, 0, 0, 0, 329, 21, 0, 0, 0, 0, 0]
  const ROW1: seq<nat> := [0, 0, 0, 0, 0, 0, 0, 0, 0, 0, 0, 0, 0, 0, 0, 0]
  const ROW2: seq<nat> := [2809, 68, 0, 27, 0, 58, 3, 62, 4, 7, 0, 0, 15, 65, 554, 3]
  const ROW3: seq<nat> := [394, 404, 189, 117, 30, 51, 27, 15, 34, 32, 80, 1, 142, 3, 142, 39]
  const ROW4: seq<nat> := [0, 144, 125, 44, 122, 275, 70, 135, 61, 127, 8, 12, 113, 246, 122, 36]
  const ROW5: seq<nat> := [185, 1, 149, 309, 335, 12, 11, 14, 54, 151, 0, 0, 2, 0, 0, 211]
  const ROW6: seq<nat> := [0, 2090, 344, 736, 993, 2872, 701, 605, 646, 1552, 328, 305, 1240, 735, 1533, 1713]
  const ROW7: seq<nat> := [562, 3, 1775, 1149, 1469, 979, 407, 553, 59, 279, 31, 0, 0, 0, 68, 0]

  function Zeros(n: nat): seq<nat> { if n == 0 then [] else Zeros(n - 1) + [0] }

  function LowRows(): seq<nat> { ROW0 + ROW1 + ROW2 + ROW3 }

  function HighRows(): seq<nat> { ROW4 + ROW5 + ROW6 + ROW7 }

  function CharFreqs(): seq<nat> { LowRows() + HighRows() + Zeros(128) }

  function OneMore(freqs: seq<nat>): (pop: seq<nat>)
    ensures |pop| == |freqs| && forall i :: 0 <= i < |pop| ==> pop[i] >= 1
  {
    seq(|freqs|, i requires 0 <= i < |freqs| => freqs[i] + 1)
  }

  lemma {:induction false} TotalAppend(a: seq<nat>, b: seq<nat>)
    ensures Total(a + b) == Total(a) + Total(b)
  {
    if b == [] { assert a + b == a; }
    else {
      assert (a + b)[..|a + b| - 1] == a + b[..|b| - 1];
      TotalAppend(a, b[..|b| - 1]);
    }
  }

  lemma {:induction false} OneMoreTotal(freqs: seq<nat>)
    ensures Total(OneMore(freqs)) == Total(freqs) + |freqs|
  {
    if freqs != [] {
      OneMoreTotal(freqs[..|freqs| - 1]);
      assert OneMore(freqs)[..|freqs| - 1] == OneMore(freqs[..|freqs| - 1]);
    }
  }

  lemma {:induction false} ZerosTotal(n: nat)
    ensures |Zeros(n)| == n && Total(Zeros(n)) == 0
  {
    if n > 0 { ZerosTotal(n - 1); assert Zeros(n)[..n - 1] == Zeros(n - 1); }
  }

  lemma TotalSplit(r: seq<nat>, k: nat)
    requires k <= |r|
    ensures Total(r) == Total(r[..k]) + Total(r[k..])
  {
    TotalAppend(r[..k], r[k..]);
    assert r[..k] + r[k..] == r;
  }

  /** The sum of sixteen numbers, spelled out. */
  lemma RowTotal(r: seq<nat>)
    requires |r| == 16
    ensures Total(r)
         == r[0] + r[1] + r[2] + r[3] + r[4] + r[5] + r[6] + r[7] + r[8] + r[9] + r[10] + r[11] + r[12] + r[13] + r[14]
           + r[15]
  {
    hide Total;
    TotalSplit(r, 8);
    EightTotal(r[..8]);
    EightTotal(r[8..]);
  }

  lemma EightTotal(r: seq<nat>)
    requires |r| == 8
    ensures Total(r) == r[0] + r[1] + r[2] + r[3] + r[4] + r[5] + r[6] + r[7]
  {
    hide Total;
    TotalSplit(r, 4);
    FourTotal(r[..4]);
    FourTotal(r[4..]);
  }

  lemma FourTotal(r: seq<nat>)
    requires |r| == 4
    ensures Total(r) == r[0] + r[1] + r[2] + r[3]
  {
    hide Total;
    TotalSplit(r, 2);
    TwoTotal(r[0], r[1]);
    TwoTotal(r[2], r[3]);
    assert r[..2] == [r[0], r[1]] && r[2..] == [r[2], r[3]];
  }

  lemma TwoTotal(m: nat, n: nat)
    ensures Total([m, n]) == m + n
  {
    TotalAppend([m], [n]);
    OneTotal(m);
    OneTotal(n);
    assert [m] + [n] == [m, n];
    hide Total;
  }

  lemma OneTotal(n: nat)
    ensures Total([n]) == n
  {
    assert [n][..0] == [];
  }

  lemma FourRows(a: seq<nat>, b: seq<nat>, c: seq<nat>, d: seq<nat>)
    ensures Total(a + b + c + d) == Total(a) + Total(b) + Total(c) + Total(d)
  {
    TotalAppend(a + b + c, d);
    TotalAppend(a + b, c);
    TotalAppend(a, b);
  }

  lemma LowTotal()
    ensures |LowRows()| == 64 && Total(LowRows()) == 5725
  {
    hide Total;
    FourRows(ROW0, ROW1, ROW2, ROW3);
    RowTotal(ROW0);
    RowTotal(ROW1);
    RowTotal(ROW2);
    RowTotal(ROW3);
  }

  lemma HighTotal()
    ensures |HighRows()| == 64 && Total(HighRows()) == 26801
  {
    hide Total;
    FourRows(ROW4, ROW5, ROW6, ROW7);
    RowTotal(ROW4);
    RowTotal(ROW5);
    RowTotal(ROW6);
    RowTotal(ROW7);
  }

  /** The table in the source is far below the bound. */
  lemma CharFreqsTotal()
    ensures |CharFreqs()| == SYMBOLS && Total(CharFreqs()) == 32526 && Total(OneMore(CharFreqs())) < Fib(35)
  {
    LowTotal();
    HighTotal();
    hide Fib;
    hide Total;
    hide LowRows;
    hide HighRows;
    Fib35();
    ZerosTotal(128);
    TotalAppend(LowRows(), HighRows());
    TotalAppend(LowRows() + HighRows(), Zeros(128));
    OneMoreTotal(CharFreqs());
  }

  // ----- strings -----

  ghost predicate Bytes(s: seq<nat>) { forall k :: 0 <= k < |s| ==> s[k] < SYMBOLS }

  ghost predicate Complete(t: Tree) { Distinct(t) && forall s :: s in Symbols(t) <==> 0 <= s < SYMBOLS }

  ghost function Coding(t: Tree, s: seq<nat>): seq<bool>
    requires Complete(t) && Bytes(s)
  {
    if s == [] then [] else Coding(t, s[..|s| - 1]) + Code(t, s[|s| - 1])
  }

  ghost function Raw(s: seq<nat>): seq<bool> {
    if s == [] then [] else Raw(s[..|s| - 1]) + Field(s[|s| - 1], 8)
  }

  /** A flag for the compressed form, the length, and the characters in the shorter form. */
  ghost function Encoded(t: Tree, s: seq<nat>): seq<bool>
    requires Complete(t) && Bytes(s)
  {
    if |Coding(t, s)| >= 8 * |s| then [false] + Field(|s|, 8) + Raw(s) else [true] + Field(|s|, 8) + Coding(t, s)
  }

  datatype Reading = Short | Read(text: seq<nat>, rest: seq<bool>)

  ghost function ReadCodes(t: Tree, n: nat, bits: seq<bool>): Reading {
    if n == 0 then Read([], bits)
    else
      match Descend(t, bits)
      case Stuck => Short
      case At(c, rest) => Before(c, ReadCodes(t, n - 1, rest))
  }

  ghost function ReadRaw(n: nat, bits: seq<bool>): Reading {
    if n == 0 then Read([], bits)
    else if |bits| < 8 then Short
    else Before(ValueOf(bits[..8]), ReadRaw(n - 1, bits[8..]))
  }

  ghost function Before(c: nat, r: Reading): Reading {
    match r
    case Short => Short
    case Read(text, rest) => Read([c] + text, rest)
  }

  ghost function Decoded(t: Tree, bits: seq<bool>): Reading {
    if |bits| < 9 then Short
    else if bits[0] then ReadCodes(t, ValueOf(bits[1..9]), bits[9..])
    else ReadRaw(ValueOf(bits[1..9]), bits[9..])
  }

  lemma {:induction false} ReadCodesAll(t: Tree, s: seq<nat>, rest: seq<bool>)
    requires Complete(t) && Bytes(s)
    ensures ReadCodes(t, |s|, Coding(t, s) + rest) == Read(s, rest)
  {
    if s == [] { assert [] + rest == rest; }
    else {
      ReadCodesAll(t, s[1..], rest);
      ReadCodesOne(t, s, rest);
    }
  }

  lemma ReadCodesOne(t: Tree, s: seq<nat>, rest: seq<bool>)
    requires Complete(t) && Bytes(s) && s != [] && ReadCodes(t, |s| - 1, Coding(t, s[1..]) + rest) == Read(s[1..], rest)
    ensures ReadCodes(t, |s|, Coding(t, s) + rest) == Read(s, rest)
  {
    hide Code;
    hide Descend;
    hide Coding;
    hide Distinct;
    CodingFirst(t, s);
    var more := Coding(t, s[1..]) + rest;
    DescendCode(t, s[0], more);
    assert Coding(t, s) + rest == Code(t, s[0]) + more;
    assert [s[0]] + s[1..] == s;
  }

  lemma {:induction false} CodingFirst(t: Tree, s: seq<nat>)
    requires Complete(t) && Bytes(s) && s != []
    ensures Coding(t, s) == Code(t, s[0]) + Coding(t, s[1..])
  {
    hide Code;
    var n := |s| - 1;
    if n == 0 {
      assert s[..0] == [] && s[1..] == [];
    } else {
      CodingFirst(t, s[..n]);
      var tail := s[1..];
      assert s[..n][1..] == tail[..n - 1] && s[..n][0] == s[0] && tail[n - 1] == s[n];
      assert Coding(t, tail) == Coding(t, tail[..n - 1]) + Code(t, s[n]);
      assert Coding(t, s) == Coding(t, s[..n]) + Code(t, s[n]);
      hide Coding;
      assert Coding(t, s) == Code(t, s[0]) + (Coding(t, tail[..n - 1]) + Code(t, s[n]));
    }
  }

  lemma {:induction false} ReadRawAll(s: seq<nat>, rest: seq<bool>)
    requires Bytes(s)
    ensures |Raw(s)| == 8 * |s| && ReadRaw(|s|, Raw(s) + rest) == Read(s, rest)
  {
    if s == [] { assert [] + rest == rest; }
    else {
      ReadRawAll(s[1..], rest);
      ReadRawOne(s, rest);
    }
  }

  /** A string takes a flag, a byte for its length, and the fewer of the bits that the codes of its
      characters take and 8 for each; the flag tells whether the codes take fewer. */
  lemma EncodedLength(t: Tree, s: seq<nat>)
    requires Complete(t) && Bytes(s)
    ensures |Encoded(t, s)| == 9 + if |Coding(t, s)| < 8 * |s| then |Coding(t, s)| else 8 * |s|
    ensures Encoded(t, s)[0] <==> |Coding(t, s)| < 8 * |s|
  {
    hide Field;
    hide Coding;
    hide Raw;
    ReadRawAll(s, []);
  }

  lemma ReadRawOne(s: seq<nat>, rest: seq<bool>)
    requires Bytes(s) && s != [] && |Raw(s[1..])| == 8 * (|s| - 1)
    requires ReadRaw(|s| - 1, Raw(s[1..]) + rest) == Read(s[1..], rest)
    ensures |Raw(s)| == 8 * |s| && ReadRaw(|s|, Raw(s) + rest) == Read(s, rest)
  {
    hide Field;
    hide ValueOf;
    hide Raw;
    RawFirst(s);
    ByteField(s[0]);
    var bits, more := Raw(s) + rest, Raw(s[1..]) + rest;
    assert bits == Field(s[0], 8) + more;
    assert bits[..8] == Field(s[0], 8) && bits[8..] == more;
    assert [s[0]] + s[1..] == s;
  }

  lemma {:induction false} RawFirst(s: seq<nat>)
    requires s != []
    ensures Raw(s) == Field(s[0], 8) + Raw(s[1..])
  {
    hide Field;
    var n := |s| - 1;
    if n == 0 {
      assert s[..0] == [] && s[1..] == [];
    } else {
      RawFirst(s[..n]);
      assert s[..n][1..] == s[1..][..n - 1];
      assert Raw(s) == Field(s[0], 8) + (Raw(s[1..][..n - 1]) + Field(s[n], 8));
    }
  }

  /** Reading inverts writing, in either form and whatever follows, for strings up to 255 long; no
      string takes more than 9 bits beyond its characters. */
  lemma RoundTrip(t: Tree, s: seq<nat>, rest: seq<bool>)
    requires Complete(t) && Bytes(s) && |s| <= 255
    ensures Decoded(t, Encoded(t, s) + rest) == Read(s, rest)
    ensures |Encoded(t, s)| <= 9 + 8 * |s|
  {
    hide Field;
    hide ValueOf;
    hide Raw;
    hide Coding;
    hide ReadRaw;
    hide ReadCodes;
    ReadCodesAll(t, s, rest);
    ReadRawAll(s, rest);
    ByteField(|s|);
    var compressed := |Coding(t, s)| < 8 * |s|;
    HeadAndBody(compressed, Field(|s|, 8), if compressed then Coding(t, s) else Raw(s), rest);
  }

  lemma HeadAndBody(flag: bool, length: seq<bool>, body: seq<bool>, rest: seq<bool>)
    requires |length| == 8
    ensures var bits := [flag] + length + body + rest;
      bits[0] == flag && bits[1..9] == length && bits[9..] == body + rest
  {
  }

  /** The one code tree of the source's frequency table. */
  ghost function CodeTree(): (t: Tree)
    ensures Complete(t)
  {
    CodeTreeWhole();
    HuffTree(OneMore(CharFreqs()))
  }

  lemma CodeTreeWhole()
    ensures Complete(HuffTree(OneMore(CharFreqs())))
  {
    hide HuffTree;
    hide CharFreqs;
    hide Fib;
    hide Total;
    CharFreqsTotal();
    HuffTreeWhole(OneMore(CharFreqs()));
  }

  class HuffmanStringProcessor {
    var mTablesBuilt: bool
    var mHuffNodes: seq<HuffNode>
    const mHuffLeaves: array<HuffLeaf>

    /** Once built, the tables are those of the code tree. */
    ghost predicate Valid()
      reads this, mHuffLeaves
    {
      && mHuffLeaves.Length == SYMBOLS
      && (mTablesBuilt ==>
            && Rooted(mHuffNodes, CodeTree())
            && (forall s :: 0 <= s < SYMBOLS ==>
                 mHuffLeaves[s].symbol == s && Coded(mHuffLeaves[s], [], CodeTree(), s)))
    }

    constructor ()
      ensures Valid() && !mTablesBuilt && fresh(mHuffLeaves)
    {
      mTablesBuilt, mHuffNodes := false, [];
      mHuffLeaves := new HuffLeaf[SYMBOLS](s requires s >= 0 => HuffLeaf(0, 0, s, []));
    }

    method InitLeaves(pop: seq<nat>)
      requires mHuffLeaves.Length == SYMBOLS == |pop|
      modifies mHuffLeaves
      ensures forall s :: 0 <= s < SYMBOLS ==> mHuffLeaves[s].symbol == s
    {
      var i := 0;
      while i < SYMBOLS
        invariant 0 <= i <= SYMBOLS && forall s :: 0 <= s < i ==> mHuffLeaves[s].symbol == s
      {
        mHuffLeaves[i] := HuffLeaf(pop[i], 0, i, seq(32, _ => false));
        i := i + 1;
      }
    }

    method BuildTables()
      requires Valid() && !mTablesBuilt
      modifies this, mHuffLeaves
      ensures Valid() && mTablesBuilt
    {
      hide Fib;
      hide CharFreqs;
      hide Total;
      hide Rooted;
      hide HuffTree;
      CharFreqsTotal();
      HuffTreeWhole(OneMore(CharFreqs()));
      var pop := OneMore(CharFreqs());
      InitLeaves(pop);
      var nodes;
      ghost var root;
      nodes, root := BuildNodes(pop);
      var code := new bool[32](_ => false);
      GenerateCodes(nodes, mHuffLeaves, code, 0, 0, root);
      assert code[..0] == [];
      mHuffNodes, mTablesBuilt := nodes, true;
    }

    /** The number of bits that the codes of the characters take. */
    method CountBits(text: seq<nat>, len: nat) returns (numBits: nat)
      requires Valid() && mTablesBuilt && Bytes(text) && len <= |text|
      ensures numBits == |Coding(CodeTree(), text[..len])|
    {
      hide CodeTree;
      hide Code;
      hide Rooted;
      numBits := 0;
      var i := 0;
      while i < len
        invariant 0 <= i <= len && numBits == |Coding(CodeTree(), text[..i])|
      {
        assert text[..i + 1][..i] == text[..i] && Coded(mHuffLeaves[text[i]], [], CodeTree(), text[i]);
        assert [] + Code(CodeTree(), text[i]) == Code(CodeTree(), text[i]);
        numBits := numBits + mHuffLeaves[text[i]].numBits;
        i := i + 1;
      }
    }

    method WriteCodes(text: seq<nat>, len: nat) returns (bits: seq<bool>)
      requires Valid() && mTablesBuilt && Bytes(text) && len <= |text|
      ensures bits == Coding(CodeTree(), text[..len])
    {
      hide CodeTree;
      hide Code;
      hide Rooted;
      bits := [];
      var i := 0;
      while i < len
        invariant 0 <= i <= len && bits == Coding(CodeTree(), text[..i])
      {
        assert text[..i + 1][..i] == text[..i] && Coded(mHuffLeaves[text[i]], [], CodeTree(), text[i]);
        assert [] + Code(CodeTree(), text[i]) == Code(CodeTree(), text[i]);
        var rLeaf := mHuffLeaves[text[i]];
        bits := bits + rLeaf.code[..rLeaf.numBits];
        i := i + 1;
      }
    }

    /** Writes a string, cut to maxLen characters. */
    method WriteHuffBuffer(text: seq<nat>, maxLen: nat) returns (bits: seq<bool>)
      requires Valid() && Bytes(text) && (|text| <= 255 || maxLen <= 255)
      modifies this, mHuffLeaves
      ensures Valid() && mTablesBuilt
      ensures bits == Encoded(CodeTree(), text[..if |text| < maxLen then |text| else maxLen])
    {
      hide CodeTree;
      hide Coding;
      hide Field;
      if !mTablesBuilt { BuildTables(); }
      var len := if |text| > maxLen then maxLen else |text|;
      var numBits := CountBits(text, len);
      if numBits >= len * 8 {
        var body := WriteRaw(text, len);
        bits := [false] + Field(len, 8) + body;
      } else {
        var body := WriteCodes(text, len);
        bits := [true] + Field(len, 8) + body;
      }
    }

    /** Walks the table from the root to a leaf. */
    method ReadCharacter(bits: seq<bool>, pos: nat) returns (ok: bool, c: nat, pos': nat)
      requires Valid() && mTablesBuilt && pos <= |bits|
      ensures pos <= pos' <= |bits|
      ensures match Descend(CodeTree(), bits[pos..])
        case Stuck => !ok
        case At(s, rest) => ok && c == s && rest == bits[pos'..]
    {
      hide CodeTree;
      hide Coded;
      hide Rooted;
      hide Reached;
      ok, c, pos' := true, 0, pos;
      var index := 0;
      ghost var t := CodeTree();
      AtRoot(mHuffNodes, t);
      while index >= 0
        invariant pos <= pos' <= |bits|
        invariant Reached(mHuffNodes, index, t, CodeTree())
        invariant Descend(CodeTree(), bits[pos..]) == Descend(t, bits[pos'..])
        decreases t
      {
        OneDown(mHuffNodes, index, t, CodeTree());
        if pos' == |bits| { ok := false; return; }
        assert bits[pos'..][0] == bits[pos'] && bits[pos'..][1..] == bits[pos' + 1..];
        if bits[pos'] { index := mHuffNodes[index].index1; t := t.right; }
        else { index := mHuffNodes[index].index0; t := t.left; }
        pos' := pos' + 1;
      }
      AtLeaf(mHuffNodes, index, t, CodeTree());
      c := mHuffLeaves[-(index + 1)].symbol;
    }

    method ReadCompressed(bits: seq<bool>, start: nat, len: nat) returns (ok: bool, text: seq<nat>, pos: nat)
      requires Valid() && mTablesBuilt && start <= |bits|
      ensures start <= pos <= |bits|
      ensures match ReadCodes(CodeTree(), len, bits[start..])
        case Short => !ok
        case Read(s, rest) => ok && text == s && rest == bits[pos..]
    {
      hide Descend;
      hide Rooted;
      hide CodeTree;
      ok, text, pos := true, [], start;
      var i := 0;
      while i < len
        invariant 0 <= i <= len && start <= pos <= |bits|
        invariant ReadCodes(CodeTree(), len, bits[start..]) == After(text, ReadCodes(CodeTree(), len - i, bits[pos..]))
      {
        var c;
        var was := pos;
        ok, c, pos := ReadCharacter(bits, pos);
        if !ok { return; }
        AfterOne(text, c, ReadCodes(CodeTree(), len - i - 1, bits[pos..]));
        text := text + [c];
        i := i + 1;
      }
    }

    /** Reads a string; !ok if the stream ends before the string does. */
    method ReadHuffBuffer(bits: seq<bool>) returns (ok: bool, text: seq<nat>, pos: nat)
      requires Valid()
      modifies this, mHuffLeaves
      ensures Valid() && mTablesBuilt && pos <= |bits|
      ensures match Decoded(CodeTree(), bits)
        case Short => !ok
        case Read(s, rest) => ok && text == s && rest == bits[pos..]
    {
      hide CodeTree;
      hide ValueOf;
      hide ReadCodes;
      hide ReadRaw;
      if !mTablesBuilt { BuildTables(); }
      if |bits| < 9 { return false, [], 0; }
      var len := ValueOf(bits[1..9]);
      if bits[0] { ok, text, pos := ReadCompressed(bits, 9, len); }
      else { ok, text, pos := ReadPlain(bits, 9, len); }
    }
  }

  ghost function After(text: seq<nat>, r: Reading): Reading {
    match r
    case Short => Short
    case Read(more, rest) => Read(text + more, rest)
  }

  lemma AfterOne(text: seq<nat>, c: nat, r: Reading)
    ensures After(text + [c], r) == After(text, Before(c, r))
    ensures After([], r) == r
  {
    if r.Read? { assert text + [c] + r.text == text + ([c] + r.text) && [] + r.text == r.text; }
  }

  method WriteRaw(text: seq<nat>, len: nat) returns (bits: seq<bool>)
    requires len <= |text|
    ensures bits == Raw(text[..len])
  {
    hide Field;
    bits := [];
    var i := 0;
    while i < len
      invariant 0 <= i <= len && bits == Raw(text[..i])
    {
      assert text[..i + 1][..i] == text[..i];
      bits := bits + Field(text[i], 8);
      i := i + 1;
    }
  }

  method ReadPlain(bits: seq<bool>, start: nat, len: nat) returns (ok: bool, text: seq<nat>, pos: nat)
    requires start <= |bits|
    ensures start <= pos <= |bits|
    ensures match ReadRaw(len, bits[start..])
      case Short => !ok
      case Read(s, rest) => ok && text == s && rest == bits[pos..]
  {
    hide ValueOf;
    ok, text, pos := true, [], start;
    var i := 0;
    AfterOne([], 0, ReadRaw(len, bits[start..]));
    while i < len
      invariant 0 <= i <= len && start <= pos <= |bits|
      invariant ReadRaw(len, bits[start..]) == After(text, ReadRaw(len - i, bits[pos..]))
    {
      if pos + 8 > |bits| { ok := false; return; }
      var c := ValueOf(bits[pos..pos + 8]);
      assert bits[pos..][..8] == bits[pos..pos + 8] && bits[pos..][8..] == bits[pos + 8..];
      AfterOne(text, c, ReadRaw(len - i - 1, bits[pos + 8..]));
      text := text + [c];
      pos := pos + 8;
      i := i + 1;
    }
  }
}
