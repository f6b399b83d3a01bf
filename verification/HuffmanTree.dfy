/** Huffman code trees (tnl/huffmanStringProcessor.cpp). */
module HuffmanTree {
  datatype Tree = Leaf(symbol: nat) | Node(left: Tree, right: Tree)

  ghost function Height(t: Tree): nat {
    match t
    case Leaf(_) => 0
    case Node(l, r) => 1 + if Height(l) > Height(r) then Height(l) else Height(r)
  }

  ghost function Symbols(t: Tree): set<nat> {
    match t
    case Leaf(s) => {s}
    case Node(l, r) => Symbols(l) + Symbols(r)
  }

  /** No symbol has two leaves. */
  ghost predicate Distinct(t: Tree) {
    t.Node? ==> Distinct(t.left) && Distinct(t.right) && Symbols(t.left) !! Symbols(t.right)
  }

  // ----- codes -----

  /** The way from the root to a symbol: right is true. */
  ghost function Code(t: Tree, s: nat): seq<bool>
    requires s in Symbols(t)
  {
    match t
    case Leaf(_) => []
    case Node(l, r) => if s in Symbols(l) then [false] + Code(l, s) else [true] + Code(r, s)
  }

  /** A code is at most as long as the tree is high. */
  lemma {:induction false} CodeLength(t: Tree, s: nat)
    requires s in Symbols(t)
    ensures |Code(t, s)| <= Height(t)
  {
    if t.Node? { if s in Symbols(t.left) { CodeLength(t.left, s); } else { CodeLength(t.right, s); } }
  }

  /** No code is the beginning of another symbol's code. */
  lemma {:induction false} PrefixFree(t: Tree, s: nat, s': nat)
    requires Distinct(t) && s in Symbols(t) && s' in Symbols(t) && s != s'
    ensures !(Code(t, s) <= Code(t, s'))
  {
    if t.Node? {
      if s in Symbols(t.left) && s' in Symbols(t.left) {
        PrefixFree(t.left, s, s');
        assert Code(t, s)[1..] == Code(t.left, s) && Code(t, s')[1..] == Code(t.left, s');
      } else if s !in Symbols(t.left) && s' !in Symbols(t.left) {
        PrefixFree(t.right, s, s');
        assert Code(t, s)[1..] == Code(t.right, s) && Code(t, s')[1..] == Code(t.right, s');
      } else {
        assert Code(t, s)[0] != Code(t, s')[0];
      }
    }
  }

  /** Walking down the tree along some bits; nothing if they run out. */
  datatype Walk = Stuck | At(symbol: nat, rest: seq<bool>)

  ghost function Descend(t: Tree, bits: seq<bool>): Walk {
    match t
    case Leaf(s) => At(s, bits)
    case Node(l, r) => if bits == [] then Stuck else Descend(if bits[0] then r else l, bits[1..])
  }

  /** Walking along a symbol's code leads to the symbol and uses up just the code. */
  lemma {:induction false} DescendCode(t: Tree, s: nat, rest: seq<bool>)
    requires Distinct(t) && s in Symbols(t)
    ensures Descend(t, Code(t, s) + rest) == At(s, rest)
  {
    match t {
      case Leaf(_) => assert [] + rest == rest;
      case Node(l, r) =>
        var c := if s in Symbols(l) then l else r;
        DescendCode(c, s, rest);
        assert (Code(t, s) + rest)[1..] == Code(c, s) + rest;
    }
  }

  // ----- weights -----

  ghost function Weight(pop: seq<nat>, t: Tree): nat {
    match t
    case Leaf(s) => if s < |pop| then pop[s] else 0
    case Node(l, r) => Weight(pop, l) + Weight(pop, r)
  }

  ghost function Fib(n: nat): nat { if n < 2 then n else Fib(n - 1) + Fib(n - 2) }

  /** A tree as high as this weighs at least a Fibonacci number, and so do all its subtrees. */
  ghost predicate Heavy(pop: seq<nat>, t: Tree) {
    && Fib(Height(t) + 2) <= Weight(pop, t)
    && (t.Node? ==> Heavy(pop, t.left) && Heavy(pop, t.right))
  }

  /** A tree weighs at least what each of another tree's halves weighs. */
  ghost predicate Outweighs(pop: seq<nat>, t: Tree, other: Tree) {
    other.Node? ==> Weight(pop, other.left) <= Weight(pop, t) && Weight(pop, other.right) <= Weight(pop, t)
  }

  /** Joining two trees each of which outweighs the other's halves. */
  lemma JoinHeavy(pop: seq<nat>, x: Tree, y: Tree)
    requires Heavy(pop, x) && Heavy(pop, y) && Outweighs(pop, x, y) && Outweighs(pop, y, x)
    ensures Heavy(pop, Node(x, y))
  {
    if Height(x) >= Height(y) { JoinHigher(pop, x, y); } else { JoinHigher(pop, y, x); }
  }

  lemma JoinHigher(pop: seq<nat>, x: Tree, y: Tree)
    requires Heavy(pop, x) && Heavy(pop, y) && Outweighs(pop, y, x) && Height(x) >= Height(y)
    ensures Fib(Height(x) + 3) <= Weight(pop, x) + Weight(pop, y)
  {
    var h := Height(x);
    assert Fib(h + 3) == Fib(h + 2) + Fib(h + 1);
    if x.Node? {
      var c := if Height(x.left) > Height(x.right) then x.left else x.right;
      assert Height(c) == h - 1 && Heavy(pop, c) && Weight(pop, c) <= Weight(pop, y);
      hide Fib;
      hide Weight;
      assert Fib(Height(c) + 2) <= Weight(pop, c);
    } else {
      assert Fib(1) == Fib(2) == 1 && Fib(Height(y) + 2) >= 1;
    }
  }

  lemma {:induction false} FibGrows(m: nat, n: nat)
    requires m <= n
    ensures Fib(m) <= Fib(n)
    decreases n - m
  {
    if m < n { FibGrows(m, n - 1); if n >= 2 { } else { assert m == 0; } }
  }

  // ----- the forest of buildTables -----

  ghost predicate Apart(s: Tree, t: Tree) { Symbols(s) !! Symbols(t) }

  /** The roots of the moment: good trees without common symbols that hold all symbols, each outweighing
      the halves of every other. */
  ghost predicate Forest(pop: seq<nat>, trees: seq<Tree>) {
    && (forall i :: 0 <= i < |trees| ==> Distinct(trees[i]) && Heavy(pop, trees[i]))
    && (forall i, j :: 0 <= i < |trees| && 0 <= j < |trees| && i != j ==>
         Apart(trees[i], trees[j]) && Outweighs(pop, trees[i], trees[j]))
  }

  ghost predicate Covers(trees: seq<Tree>, n: nat) {
    && (forall s :: 0 <= s < n ==> Has(trees, s))
    && (forall i, s :: 0 <= i < |trees| && s in Symbols(trees[i]) ==> s < n)
  }

  ghost predicate Has(trees: seq<Tree>, s: nat) { exists i :: 0 <= i < |trees| && s in Symbols(trees[i]) }

  ghost function TotalWeight(pop: seq<nat>, trees: seq<Tree>): nat {
    if trees == [] then 0 else TotalWeight(pop, trees[..|trees| - 1]) + Weight(pop, trees[|trees| - 1])
  }

  lemma {:induction false} TotalUpdate(pop: seq<nat>, trees: seq<Tree>, i: nat, t: Tree)
    requires i < |trees|
    ensures TotalWeight(pop, trees[i := t]) == TotalWeight(pop, trees) - Weight(pop, trees[i]) + Weight(pop, t)
  {
    var n := |trees| - 1;
    if i < n {
      TotalUpdate(pop, trees[..n], i, t);
      assert trees[i := t][..n] == trees[..n][i := t];
    } else {
      assert trees[i := t][..n] == trees[..n];
    }
  }

  /** Two trees are joined at the lower of their places and the last tree fills the other. */
  ghost function Merged(trees: seq<Tree>, i: nat, j: nat): seq<Tree>
    requires i < |trees| && j < |trees| && i != j
  {
    var lo, hi := if i < j then i else j, if i < j then j else i;
    trees[lo := Node(trees[i], trees[j])][hi := trees[|trees| - 1]][..|trees| - 1]
  }

  /** Where each tree of the merged forest comes from. */
  lemma MergedAt(trees: seq<Tree>, i: nat, j: nat, k: nat)
    requires i < |trees| && j < |trees| && i != j && k < |trees| - 1
    ensures |Merged(trees, i, j)| == |trees| - 1
    ensures var lo, hi := if i < j then i else j, if i < j then j else i;
      && (k == lo ==> Merged(trees, i, j)[k] == Node(trees[i], trees[j]))
      && (k != lo ==> Merged(trees, i, j)[k] == trees[if k == hi then |trees| - 1 else k])
  {
  }

  /** The two lightest roots. */
  ghost predicate Lightest(pop: seq<nat>, trees: seq<Tree>, i: nat, j: nat) {
    && i < |trees| && j < |trees| && i != j
    && Weight(pop, trees[i]) <= Weight(pop, trees[j])
    && forall k :: 0 <= k < |trees| && k != i ==> Weight(pop, trees[j]) <= Weight(pop, trees[k])
  }

  lemma MergeOutweighs(pop: seq<nat>, trees: seq<Tree>, i: nat, j: nat, k: nat)
    requires Forest(pop, trees) && Lightest(pop, trees, i, j) && k < |trees| && k != i && k != j
    ensures var z := Node(trees[i], trees[j]);
      Outweighs(pop, z, trees[k]) && Outweighs(pop, trees[k], z) && Apart(z, trees[k]) && Apart(trees[k], z)
  {
    assert Outweighs(pop, trees[i], trees[k]);
    assert Apart(trees[i], trees[k]) && Apart(trees[j], trees[k]);
  }

  /** Joining the two lightest roots. */
  lemma MergeKeepsForest(pop: seq<nat>, trees: seq<Tree>, i: nat, j: nat)
    requires Forest(pop, trees) && Lightest(pop, trees, i, j)
    ensures Forest(pop, Merged(trees, i, j))
  {
    var z := Node(trees[i], trees[j]);
    assert Apart(trees[i], trees[j]) && Outweighs(pop, trees[i], trees[j]) && Outweighs(pop, trees[j], trees[i]);
    JoinHeavy(pop, trees[i], trees[j]);
    var trees' := Merged(trees, i, j);
    var lo, hi := if i < j then i else j, if i < j then j else i;
    forall k: nat | k < |trees'|
      ensures Distinct(trees'[k]) && Heavy(pop, trees'[k])
    {
      MergedAt(trees, i, j, k);
    }
    forall k: nat, l: nat | k < |trees'| && l < |trees'| && k != l
      ensures Apart(trees'[k], trees'[l]) && Outweighs(pop, trees'[k], trees'[l])
    {
      MergedAt(trees, i, j, k);
      MergedAt(trees, i, j, l);
      var k', l' := if k == hi then |trees| - 1 else k, if l == hi then |trees| - 1 else l;
      if k == lo { MergeOutweighs(pop, trees, i, j, l'); }
      else if l == lo { MergeOutweighs(pop, trees, i, j, k'); }
      else { assert Apart(trees[k'], trees[l']) && Outweighs(pop, trees[k'], trees[l']); }
    }
  }

  lemma MergeKeepsCover(trees: seq<Tree>, i: nat, j: nat, n: nat)
    requires Covers(trees, n) && i < |trees| && j < |trees| && i != j
    ensures Covers(Merged(trees, i, j), n)
  {
    var trees' := Merged(trees, i, j);
    var lo, hi := if i < j then i else j, if i < j then j else i;
    forall s: nat | s < n ensures Has(trees', s) {
      assert Has(trees, s);
      var k :| 0 <= k < |trees| && s in Symbols(trees[k]);
      var k' := if k == i || k == j then lo else if k == |trees| - 1 then hi else k;
      MergedAt(trees, i, j, k');
      assert s in Symbols(trees'[k']);
    }
    forall k: nat, s | k < |trees'| && s in Symbols(trees'[k]) ensures s < n {
      MergedAt(trees, i, j, k);
      if k == lo { assert s in Symbols(trees[i]) || s in Symbols(trees[j]); }
    }
  }

  lemma MergeKeepsTotal(pop: seq<nat>, trees: seq<Tree>, i: nat, j: nat)
    requires i < |trees| && j < |trees| && i != j
    ensures TotalWeight(pop, Merged(trees, i, j)) == TotalWeight(pop, trees)
  {
    var lo, hi := if i < j then i else j, if i < j then j else i;
    var one := trees[lo := Node(trees[i], trees[j])];
    TotalUpdate(pop, trees, lo, Node(trees[i], trees[j]));
    TotalUpdate(pop, one, hi, one[|one| - 1]);
    assert one[|one| - 1] == trees[|trees| - 1];
  }

  // ----- the bound on code lengths -----

  /** In a tree built by joining the two lightest, a total below Fib(35) keeps all codes within 32
      bits. */
  lemma CodesFit(pop: seq<nat>, t: Tree, s: nat)
    requires Heavy(pop, t) && Weight(pop, t) < Fib(35) && s in Symbols(t)
    ensures |Code(t, s)| <= Height(t) <= 32
  {
    hide Fib;
    CodeLength(t, s);
    if Height(t) >= 33 { FibGrows(35, Height(t) + 2); }
  }

  function FibFrom(n: nat, a: nat, b: nat): nat { if n == 0 then a else FibFrom(n - 1, b, a + b) }

  lemma {:induction false} FibIs(n: nat, k: nat)
    ensures FibFrom(n, Fib(k), Fib(k + 1)) == Fib(n + k)
    decreases n
  {
    if n > 0 { FibIs(n - 1, k + 1); }
  }

  lemma FibStart()
    ensures Fib(0) == 0 && Fib(1) == 1
  {
  }

  lemma Fib35()
    ensures Fib(35) == 9227465
  {
    hide Fib;
    FibIs(35, 0);
    FibStart();
    assert FibFrom(35, 0, 1) == FibFrom(28, 13, 21) == FibFrom(21, 377, 610) == FibFrom(14, 10946, 17711);
    assert FibFrom(14, 10946, 17711) == FibFrom(7, 317811, 514229) == 9227465;
  }
}
