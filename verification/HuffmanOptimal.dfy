/** The codes that buildTables (tnl/huffmanStringProcessor.cpp) makes are the best there are: no
    prefix-free code takes fewer bits for a text with the frequencies of the table. */
module HuffmanOptimal {
  import opened BitFields
  import opened HuffmanTree
  import opened HuffmanStringProcessorObject

  function Times(f: nat, l: nat): nat { f * l }

  /** Frequency times length, in total. */
  ghost function Bits(freqs: seq<nat>, lengths: seq<nat>): nat
    requires |freqs| == |lengths|
  {
    if freqs == [] then 0
    else
      var n := |freqs| - 1;
      Bits(freqs[..n], lengths[..n]) + Times(freqs[n], lengths[n])
  }

  /** The part of all words of length `top` that begin with a code word, for code words of these
      lengths none of which begins another. */
  ghost function Share(lengths: seq<nat>, top: nat): nat
    requires forall i :: 0 <= i < |lengths| ==> lengths[i] <= top
  {
    if lengths == [] then 0
    else
      var n := |lengths| - 1;
      Share(lengths[..n], top) + Pow2(top - lengths[n])
  }

  /** Lengths that the words of a prefix-free code can have. */
  ghost predicate Fits(lengths: seq<nat>, top: nat) {
    (forall i :: 0 <= i < |lengths| ==> lengths[i] <= top) && Share(lengths, top) <= Pow2(top)
  }

  lemma {:induction false} BitsUpdate(freqs: seq<nat>, lengths: seq<nat>, i: nat, f: nat, l: nat)
    requires i < |freqs| == |lengths|
    ensures Bits(freqs[i := f], lengths[i := l]) == Bits(freqs, lengths) - Times(freqs[i], lengths[i]) + Times(f, l)
  {
    hide Times;
    var n := |freqs| - 1;
    if i < n {
      BitsUpdate(freqs[..n], lengths[..n], i, f, l);
      assert freqs[i := f][..n] == freqs[..n][i := f] && lengths[i := l][..n] == lengths[..n][i := l];
    } else {
      assert freqs[i := f][..n] == freqs[..n] && lengths[i := l][..n] == lengths[..n];
    }
  }

  lemma {:induction false} ShareUpdate(lengths: seq<nat>, top: nat, i: nat, l: nat)
    requires (forall k :: 0 <= k < |lengths| ==> lengths[k] <= top) && i < |lengths| && l <= top
    ensures Share(lengths[i := l], top) == Share(lengths, top) - Pow2(top - lengths[i]) + Pow2(top - l)
  {
    hide Pow2;
    var n := |lengths| - 1;
    if i < n {
      ShareUpdate(lengths[..n], top, i, l);
      assert lengths[i := l][..n] == lengths[..n][i := l];
    } else {
      assert lengths[i := l][..n] == lengths[..n];
    }
  }

  // ----- giving the two lightest the greatest length -----

  /** Exchanging two lengths so that the lighter gets the greater. */
  lemma Exchange(freqs: seq<nat>, lengths: seq<nat>, top: nat, i: nat, k: nat) returns (lengths': seq<nat>)
    requires i < |freqs| == |lengths| && k < |freqs| && Fits(lengths, top)
    requires freqs[i] <= freqs[k] && lengths[i] <= lengths[k]
    ensures lengths' == lengths[i := lengths[k]][k := lengths[i]]
    ensures Fits(lengths', top) && Bits(freqs, lengths') <= Bits(freqs, lengths)
  {
    hide Times;
    hide Bits;
    hide Share;
    hide Pow2;
    var a, b := lengths[i], lengths[k];
    var one := lengths[i := b];
    lengths' := one[k := a];
    ShareUpdate(lengths, top, i, b);
    ShareUpdate(one, top, k, a);
    if i == k {
      assert lengths' == lengths;
    } else {
      BitsUpdate(freqs, lengths, i, freqs[i], b);
      assert freqs[i := freqs[i]] == freqs;
      BitsUpdate(freqs, one, k, freqs[k], a);
      assert freqs[k := freqs[k]] == freqs;
      Rearranged(freqs[i], freqs[k], a, b);
    }
  }

  lemma Rearranged(f: nat, g: nat, a: nat, b: nat)
    requires f <= g && a <= b
    ensures Times(f, b) + Times(g, a) <= Times(f, a) + Times(g, b)
  {
    assert (g - f) * (b - a) >= 0;
    assert (g - f) * (b - a) == g * b - g * a - f * b + f * a;
  }

  lemma NoTimes(a: nat, b: nat)
    ensures Times(0, a) == Times(0, b) == 0
  {
  }

  /** Where the greatest length is, other than at `but`. */
  lemma {:induction false} Longest(lengths: seq<nat>, but: int) returns (m: nat)
    requires |lengths| >= 2 || (|lengths| == 1 && but != 0)
    ensures m < |lengths| && m != but && forall k :: 0 <= k < |lengths| && k != but ==> lengths[k] <= lengths[m]
  {
    var n := |lengths| - 1;
    if n >= 2 || (n == 1 && but != 0) {
      m := Longest(lengths[..n], but);
      assert forall k :: 0 <= k < n ==> lengths[..n][k] == lengths[k];
      if n != but && lengths[m] < lengths[n] { m := n; }
    } else {
      m := n;
    }
  }

  lemma PowSplit(a: nat, b: nat)
    ensures Pow2(a + b) == Pow2(a) * Pow2(b)
  {
    if a > 0 {
      PowSplit(a - 1, b);
      assert 2 * Pow2(a - 1) * Pow2(b) == 2 * (Pow2(a - 1) * Pow2(b));
    } else {
      assert 1 * Pow2(b) == Pow2(b);
    }
  }

  /** The share of words no longer than `most` is a multiple of that of one of length `most`. */
  lemma {:induction false} ShareMultiple(lengths: seq<nat>, top: nat, most: nat) returns (a: nat)
    requires most <= top && forall k :: 0 <= k < |lengths| ==> lengths[k] <= most
    ensures Share(lengths, top) == a * Pow2(top - most)
  {
    if lengths == [] {
      a := 0;
    } else {
      var n := |lengths| - 1;
      var b := ShareMultiple(lengths[..n], top, most);
      var c := Pow2(most - lengths[n]);
      PowSplit(most - lengths[n], top - most);
      a := b + c;
      assert (b + c) * Pow2(top - most) == b * Pow2(top - most) + c * Pow2(top - most);
    }
  }

  /** A single longest word can be cut to the length of the next longest. */
  lemma CutLongest(lengths: seq<nat>, top: nat, i: nat, most: nat)
    requires Fits(lengths, top) && i < |lengths| && most <= lengths[i]
    requires forall k :: 0 <= k < |lengths| && k != i ==> lengths[k] <= most
    ensures Fits(lengths[i := most], top)
  {
    hide Share;
    hide Pow2;
    var cut := lengths[i := most];
    ShareUpdate(lengths, top, i, most);
    var a := ShareMultiple(cut, top, most);
    PowSplit(most, top - most);
    assert most + (top - most) == top;
    LessTimes(a, Pow2(most), Pow2(top - most));
  }

  lemma LessTimes(a: nat, b: nat, m: nat)
    requires m > 0
    ensures a * m - m < b * m ==> a * m <= b * m
  {
    assert (a - b) * m == a * m - b * m;
    Multiple(a - b, m);
  }

  lemma {:induction false} SharePart(lengths: seq<nat>, top: nat, i: nat)
    requires (forall k :: 0 <= k < |lengths| ==> lengths[k] <= top) && i < |lengths|
    ensures Share(lengths, top) >= Pow2(top - lengths[i])
  {
    if i < |lengths| - 1 { SharePart(lengths[..|lengths| - 1], top, i); }
  }

  /** No two words are empty. */
  lemma {:induction false} NotBothEmpty(lengths: seq<nat>, top: nat, i: nat, j: nat)
    requires (forall k :: 0 <= k < |lengths| ==> lengths[k] <= top) && i < j < |lengths|
    requires lengths[i] == lengths[j] == 0
    ensures Share(lengths, top) >= 2 * Pow2(top)
  {
    var n := |lengths| - 1;
    if j < n { NotBothEmpty(lengths[..n], top, i, j); } else { SharePart(lengths[..n], top, i); }
  }

  /** The two lightest can have the same length, the greatest. */
  lemma LightestLongest(freqs: seq<nat>, lengths: seq<nat>, top: nat, i: nat, j: nat) returns (lengths': seq<nat>)
    requires |freqs| == |lengths| && Fits(lengths, top) && i < |freqs| && j < |freqs| && i != j
    requires freqs[i] <= freqs[j] && forall k :: 0 <= k < |freqs| && k != i ==> freqs[j] <= freqs[k]
    ensures |lengths'| == |lengths| && Fits(lengths', top) && Bits(freqs, lengths') <= Bits(freqs, lengths)
    ensures lengths'[i] == lengths'[j] >= 1
  {
    hide Times;
    hide Share;
    hide Bits;
    hide Pow2;
    var p := Longest(lengths, -1);
    var one := Exchange(freqs, lengths, top, i, p);
    var q := Longest(one, i);
    var two := Exchange(freqs, one, top, j, q);
    lengths' := two[i := two[j]];
    CutLongest(two, top, i, two[j]);
    BitsUpdate(freqs, two, i, freqs[i], two[j]);
    assert freqs[i := freqs[i]] == freqs;
    Rearranged(0, freqs[i], two[j], two[i]);
    NoTimes(two[i], two[j]);
    if lengths'[i] == 0 {
      NotBothEmpty(lengths', top, if i < j then i else j, if i < j then j else i);
      assert false;
    }
  }

  lemma BitsLast(freqs: seq<nat>, lengths: seq<nat>)
    requires |freqs| == |lengths| > 0
    ensures var n := |freqs| - 1; Bits(freqs, lengths) == Bits(freqs[..n], lengths[..n]) + Times(freqs[n], lengths[n])
  {
  }

  /** The last fills the gap. */
  lemma BitsWithout(freqs: seq<nat>, lengths: seq<nat>, hi: nat)
    requires |freqs| == |lengths| && hi < |freqs|
    ensures var n := |freqs| - 1;
      Bits(freqs[hi := freqs[n]][..n], lengths[hi := lengths[n]][..n])
        == Bits(freqs, lengths) - Times(freqs[hi], lengths[hi])
  {
    hide Times;
    hide Bits;
    var n := |freqs| - 1;
    BitsUpdate(freqs, lengths, hi, freqs[n], lengths[n]);
    BitsLast(freqs[hi := freqs[n]], lengths[hi := lengths[n]]);
  }

  lemma ShareLast(lengths: seq<nat>, top: nat)
    requires lengths != [] && forall i :: 0 <= i < |lengths| ==> lengths[i] <= top
    ensures var n := |lengths| - 1; Share(lengths, top) == Share(lengths[..n], top) + Pow2(top - lengths[n])
  {
  }

  lemma ShareWithout(lengths: seq<nat>, top: nat, hi: nat)
    requires hi < |lengths| && forall i :: 0 <= i < |lengths| ==> lengths[i] <= top
    ensures var n := |lengths| - 1; var rest := lengths[hi := lengths[n]][..n];
      (forall i :: 0 <= i < n ==> rest[i] <= top) && Share(rest, top) == Share(lengths, top) - Pow2(top - lengths[hi])
  {
    hide Share;
    hide Pow2;
    var n := |lengths| - 1;
    ShareUpdate(lengths, top, hi, lengths[n]);
    ShareLast(lengths[hi := lengths[n]], top);
  }

  /** Two words of the same length become one, a bit shorter; the last fills the gap. */
  lemma JoinLengths(freqs: seq<nat>, lengths: seq<nat>, top: nat, lo: nat, hi: nat) returns (lengths': seq<nat>)
    requires |freqs| == |lengths| && Fits(lengths, top) && lo < hi < |freqs| && lengths[lo] == lengths[hi] >= 1
    ensures |lengths'| == |lengths| - 1 && Fits(lengths', top)
    ensures var n := |freqs| - 1; var freqs' := freqs[lo := freqs[lo] + freqs[hi]][hi := freqs[n]][..n];
      Bits(freqs', lengths') == Bits(freqs, lengths) - freqs[lo] - freqs[hi]
  {
    hide Bits;
    hide Times;
    hide Share;
    hide Pow2;
    var n, l := |freqs| - 1, lengths[lo];
    var f1, l1 := freqs[lo := freqs[lo] + freqs[hi]], lengths[lo := l - 1];
    lengths' := l1[hi := l1[n]][..n];
    BitsUpdate(freqs, lengths, lo, freqs[lo] + freqs[hi], l - 1);
    BitsWithout(f1, l1, hi);
    Shorter(freqs[lo], freqs[hi], l);
    ShareUpdate(lengths, top, lo, l - 1);
    ShareWithout(l1, top, hi);
    TwiceShare(top, l);
  }

  lemma TwiceShare(top: nat, l: nat)
    requires 1 <= l <= top
    ensures Pow2(top - (l - 1)) == 2 * Pow2(top - l)
  {
  }

  lemma Shorter(f: nat, g: nat, l: nat)
    requires l >= 1
    ensures Times(f + g, l - 1) == Times(f, l) + Times(g, l) - f - g
  {
  }

  // ----- what the tree costs -----

  /** The weights of the inner nodes, in total. */
  ghost function Cost(pop: seq<nat>, t: Tree): nat {
    match t
    case Leaf(_) => 0
    case Node(l, r) => Weight(pop, t) + Cost(pop, l) + Cost(pop, r)
  }

  ghost function Costs(pop: seq<nat>, trees: seq<Tree>): nat {
    if trees == [] then 0 else Costs(pop, trees[..|trees| - 1]) + Cost(pop, trees[|trees| - 1])
  }

  lemma {:induction false} CostsUpdate(pop: seq<nat>, trees: seq<Tree>, i: nat, t: Tree)
    requires i < |trees|
    ensures Costs(pop, trees[i := t]) == Costs(pop, trees) - Cost(pop, trees[i]) + Cost(pop, t)
  {
    var n := |trees| - 1;
    if i < n {
      CostsUpdate(pop, trees[..n], i, t);
      assert trees[i := t][..n] == trees[..n][i := t];
    } else {
      assert trees[i := t][..n] == trees[..n];
    }
  }

  /** Joining two trees costs the weight of both. */
  lemma MergeCosts(pop: seq<nat>, trees: seq<Tree>, i: nat, j: nat)
    requires i < |trees| && j < |trees| && i != j
    ensures Costs(pop, Merged(trees, i, j)) == Costs(pop, trees) + Weight(pop, trees[i]) + Weight(pop, trees[j])
  {
    var lo, hi := if i < j then i else j, if i < j then j else i;
    var z, n := Node(trees[i], trees[j]), |trees| - 1;
    var one := trees[lo := z];
    var two := one[hi := trees[n]];
    assert two[n] == trees[n] && two[..n] == Merged(trees, i, j);
    assert Costs(pop, two) == Costs(pop, two[..n]) + Cost(pop, two[n]);
    assert Cost(pop, z) == Weight(pop, trees[i]) + Weight(pop, trees[j]) + Cost(pop, trees[i]) + Cost(pop, trees[j]);
    hide Costs;
    hide Cost;
    hide Weight;
    CostsUpdate(pop, trees, lo, z);
    CostsUpdate(pop, one, hi, trees[n]);
  }

  lemma MergeWeights(pop: seq<nat>, trees: seq<Tree>, i: nat, j: nat)
    requires i < |trees| && j < |trees| && i != j
    ensures var w, n := Weights(pop, trees), |trees| - 1;
      var lo, hi := if i < j then i else j, if i < j then j else i;
      Weights(pop, Merged(trees, i, j)) == w[lo := w[lo] + w[hi]][hi := w[n]][..n]
  {
    var w, n := Weights(pop, trees), |trees| - 1;
    var lo, hi := if i < j then i else j, if i < j then j else i;
    forall k: nat | k < n
      ensures Weights(pop, Merged(trees, i, j))[k] == w[lo := w[lo] + w[hi]][hi := w[n]][..n][k]
    {
      MergedAt(trees, i, j, k);
    }
  }

  /** Whatever lengths a prefix-free code gives the roots, joining the two lightest until one tree is
      left costs no more than the code does. */
  lemma {:induction false} GrowsCheapest(pop: seq<nat>, trees: seq<Tree>, lengths: seq<nat>, top: nat)
    requires Growing(pop, trees) && Total(pop) < Fib(35) && |lengths| == |trees| && Fits(lengths, top)
    ensures Cost(pop, Grow(pop, trees)) <= Costs(pop, trees) + Bits(Weights(pop, trees), lengths)
    decreases |trees|
  {
    hide Fib;
    hide Forest;
    hide Covers;
    hide Fits;
    hide Bits;
    hide Weight;
    hide Total;
    hide TotalWeight;
    hide ScanOf;
    hide Merged;
    if |trees| > 1 {
      GrowsOn(pop, trees);
      var s := ScanOf(Weights(pop, trees));
      hide Growing;
      var w := Weights(pop, trees);
      var long := LightestLongest(w, lengths, top, s.index1, s.index2);
      var lo := if s.index1 < s.index2 then s.index1 else s.index2;
      var hi := if s.index1 < s.index2 then s.index2 else s.index1;
      var lengths' := JoinLengths(w, long, top, lo, hi);
      MergeWeights(pop, trees, s.index1, s.index2);
      MergeCosts(pop, trees, s.index1, s.index2);
      GrowsCheapest(pop, Merged(trees, s.index1, s.index2), lengths', top);
    } else {
      assert trees[..0] == [];
    }
  }

  // ----- the cost of a tree is what its codes take -----

  /** The frequencies of the tree's symbols below n. */
  ghost function Held(pop: seq<nat>, t: Tree, n: nat): nat
    requires n <= |pop|
  {
    if n == 0 then 0 else Held(pop, t, n - 1) + if n - 1 in Symbols(t) then pop[n - 1] else 0
  }

  /** The bits that the tree's codes take for those symbols. */
  ghost function Spent(pop: seq<nat>, t: Tree, n: nat): nat
    requires n <= |pop|
  {
    if n == 0 then 0 else Spent(pop, t, n - 1) + if n - 1 in Symbols(t) then Times(pop[n - 1], |Code(t, n - 1)|) else 0
  }

  lemma {:induction false} NodeSpends(pop: seq<nat>, t: Tree, n: nat)
    requires n <= |pop| && t.Node? && Symbols(t.left) !! Symbols(t.right)
    ensures Held(pop, t, n) == Held(pop, t.left, n) + Held(pop, t.right, n)
    ensures Spent(pop, t, n) == Held(pop, t, n) + Spent(pop, t.left, n) + Spent(pop, t.right, n)
  {
    hide Times;
    if n > 0 {
      NodeSpends(pop, t, n - 1);
      var s := n - 1;
      if s in Symbols(t) {
        var c := if s in Symbols(t.left) then t.left else t.right;
        assert |Code(t, s)| == 1 + |Code(c, s)|;
        OneMoreBit(pop[s], |Code(c, s)|);
      }
    }
  }

  lemma OneMoreBit(f: nat, l: nat)
    ensures Times(f, 1 + l) == f + Times(f, l)
  {
  }

  lemma {:induction false} LeafSpends(pop: seq<nat>, s: nat, n: nat)
    requires n <= |pop|
    ensures Held(pop, Leaf(s), n) == (if s < n then pop[s] else 0) && Spent(pop, Leaf(s), n) == 0
  {
    if n > 0 { LeafSpends(pop, s, n - 1); }
  }

  lemma {:induction false} CostIsSpent(pop: seq<nat>, t: Tree)
    requires Distinct(t) && forall s :: s in Symbols(t) ==> s < |pop|
    ensures Weight(pop, t) == Held(pop, t, |pop|) && Cost(pop, t) == Spent(pop, t, |pop|)
    decreases t
  {
    match t
    case Leaf(s) => LeafSpends(pop, s, |pop|);
    case Node(l, r) =>
      assert Symbols(l) <= Symbols(t) && Symbols(r) <= Symbols(t);
      CostIsSpent(pop, l);
      CostIsSpent(pop, r);
      NodeSpends(pop, t, |pop|);
  }

  ghost function Lengths(codes: seq<seq<bool>>): seq<nat> {
    seq(|codes|, i requires 0 <= i < |codes| => |codes[i]|)
  }

  /** The lengths of the tree's codes for the symbols below n. */
  ghost function CodeLengths(t: Tree, n: nat): seq<nat> {
    seq(n, s requires 0 <= s < n => if s in Symbols(t) then |Code(t, s)| else 0)
  }

  lemma {:induction false} SpentIsBits(pop: seq<nat>, t: Tree, n: nat)
    requires n <= |pop|
    ensures Spent(pop, t, n) == Bits(pop[..n], CodeLengths(t, n))
  {
    if n > 0 {
      SpentIsBits(pop, t, n - 1);
      assert pop[..n][..n - 1] == pop[..n - 1];
      assert CodeLengths(t, n)[..n - 1] == CodeLengths(t, n - 1);
    }
  }

  // ----- Kraft's inequality -----

  ghost predicate PrefixFreeCode(codes: seq<seq<bool>>) {
    forall a, b :: 0 <= a < |codes| && 0 <= b < |codes| && a != b ==> !(codes[a] <= codes[b])
  }

  /** What follows the first bit in the words that begin with it. */
  ghost function Tails(codes: seq<seq<bool>>, bit: bool): seq<seq<bool>> {
    if codes == [] then []
    else
      var c := codes[|codes| - 1];
      Tails(codes[..|codes| - 1], bit) + if c != [] && c[0] == bit then [c[1..]] else []
  }

  lemma {:induction false} TailOf(codes: seq<seq<bool>>, bit: bool, k: nat) returns (i: nat)
    requires k < |Tails(codes, bit)|
    ensures i < |codes| && codes[i] == [bit] + Tails(codes, bit)[k]
  {
    var n := |codes| - 1;
    if k < |Tails(codes[..n], bit)| { i := TailOf(codes[..n], bit, k); } else { i := n; }
  }

  lemma {:induction false} TailsFree(codes: seq<seq<bool>>, bit: bool)
    requires PrefixFreeCode(codes)
    ensures PrefixFreeCode(Tails(codes, bit))
  {
    if codes != [] {
      var n := |codes| - 1;
      var c, tails := codes[n], Tails(codes[..n], bit);
      TailsFree(codes[..n], bit);
      if c != [] && c[0] == bit {
        forall k | 0 <= k < |tails| ensures !(tails[k] <= c[1..]) && !(c[1..] <= tails[k]) {
          var i := TailOf(codes[..n], bit, k);
          assert !(codes[i] <= c) && !(c <= codes[i]);
          TailsDiffer(bit, tails[k], c, codes[i]);
        }
      }
    }
  }

  lemma TailsDiffer(bit: bool, tail: seq<bool>, c: seq<bool>, d: seq<bool>)
    requires c != [] && c[0] == bit && d == [bit] + tail && !(d <= c) && !(c <= d)
    ensures !(tail <= c[1..]) && !(c[1..] <= tail)
  {
    assert c == [bit] + c[1..];
  }

  lemma ShareAppend(lengths: seq<nat>, l: nat, top: nat)
    requires l <= top && forall i :: 0 <= i < |lengths| ==> lengths[i] <= top
    ensures Share(lengths + [l], top) == Share(lengths, top) + Pow2(top - l)
  {
    assert (lengths + [l])[..|lengths|] == lengths;
  }

  lemma TailsAppend(codes: seq<seq<bool>>, c: seq<bool>, bit: bool)
    requires c != []
    ensures Tails(codes + [c], bit) == if c[0] == bit then Tails(codes, bit) + [c[1..]] else Tails(codes, bit)
  {
    assert (codes + [c])[..|codes|] == codes;
  }

  lemma LengthsAppend(codes: seq<seq<bool>>, c: seq<bool>)
    ensures Lengths(codes + [c]) == Lengths(codes) + [|c|]
  {
  }

  /** The words that go on within `most` bits, after their first. */
  ghost predicate Within(codes: seq<seq<bool>>, most: nat) { forall k :: 0 <= k < |codes| ==> |codes[k]| <= most }

  lemma WithinAppend(codes: seq<seq<bool>>, c: seq<bool>, most: nat)
    ensures Within(codes + [c], most) <==> Within(codes, most) && |c| <= most
  {
    if Within(codes + [c], most) {
      assert (codes + [c])[|codes|] == c;
      forall k | 0 <= k < |codes| ensures |codes[k]| <= most { assert (codes + [c])[k] == codes[k]; }
    }
  }

  /** The words' share is that of what follows a 0 and of what follows a 1. */
  ghost predicate Splits(codes: seq<seq<bool>>, top: nat)
    requires top > 0
  {
    && Within(codes, top) && Within(Tails(codes, false), top - 1) && Within(Tails(codes, true), top - 1)
    && ShareOf(codes, top) == ShareOf(Tails(codes, false), top - 1) + ShareOf(Tails(codes, true), top - 1)
  }

  ghost function ShareOf(codes: seq<seq<bool>>, top: nat): nat
    requires Within(codes, top)
  {
    WithinLengths(codes, top);
    Share(Lengths(codes), top)
  }

  lemma ShareOfAppend(codes: seq<seq<bool>>, c: seq<bool>, top: nat)
    requires Within(codes, top) && |c| <= top
    ensures Within(codes + [c], top) && ShareOf(codes + [c], top) == ShareOf(codes, top) + Pow2(top - |c|)
  {
    hide Share;
    hide Pow2;
    WithinAppend(codes, c, top);
    WithinLengths(codes, top);
    LengthsAppend(codes, c);
    ShareAppend(Lengths(codes), |c|, top);
  }

  lemma SplitsAppend(codes: seq<seq<bool>>, c: seq<bool>, top: nat)
    requires top > 0 && Splits(codes, top) && 0 < |c| <= top
    ensures Splits(codes + [c], top)
  {
    hide ShareOf;
    hide Within;
    hide Tails;
    hide Pow2;
    TailsAppend(codes, c, false);
    TailsAppend(codes, c, true);
    ShareOfAppend(codes, c, top);
    ShareOfAppend(Tails(codes, c[0]), c[1..], top - 1);
  }

  lemma {:induction false} TailsShare(codes: seq<seq<bool>>, top: nat)
    requires top > 0 && Within(codes, top) && forall i :: 0 <= i < |codes| ==> codes[i] != []
    ensures Splits(codes, top)
  {
    hide Tails;
    hide Splits;
    if codes != [] {
      var most, c := codes[..|codes| - 1], codes[|codes| - 1];
      TailsShare(most, top);
      SplitsAppend(most, c, top);
      assert most + [c] == codes;
    } else {
      NoneSplit(top);
    }
  }

  lemma NoneSplit(top: nat)
    requires top > 0
    ensures Splits([], top)
  {
  }

  lemma WithinLengths(codes: seq<seq<bool>>, most: nat)
    ensures Within(codes, most) <==> forall k :: 0 <= k < |Lengths(codes)| ==> Lengths(codes)[k] <= most
  {
    forall k | 0 <= k < |codes| ensures Lengths(codes)[k] == |codes[k]| {}
  }

  /** The empty word is all of its code. */
  lemma OnlyWord(codes: seq<seq<bool>>, i: nat)
    requires PrefixFreeCode(codes) && i < |codes| && codes[i] == []
    ensures |codes| == 1
  {
    var b := if i == 0 then |codes| - 1 else 0;
    assert codes[i] <= codes[b];
  }

  /** The words of a prefix-free code share out no more words than there are. */
  lemma {:induction false} Kraft(codes: seq<seq<bool>>, top: nat)
    requires PrefixFreeCode(codes) && Within(codes, top)
    ensures Fits(Lengths(codes), top)
    decreases top
  {
    if i :| 0 <= i < |codes| && codes[i] == [] {
      OnlyWord(codes, i);
      assert Lengths(codes)[..0] == [];
    } else if codes != [] {
      assert |codes[0]| > 0;
      TailsShare(codes, top);
      TailsFree(codes, false);
      TailsFree(codes, true);
      Kraft(Tails(codes, false), top - 1);
      Kraft(Tails(codes, true), top - 1);
      WithinLengths(codes, top);
    }
  }

  // ----- the theorem -----

  lemma {:induction false} NoCosts(pop: seq<nat>, n: nat)
    ensures Costs(pop, Leaves(n)) == 0
  {
    if n > 0 {
      NoCosts(pop, n - 1);
      assert Leaves(n)[..n - 1] == Leaves(n - 1);
    }
  }

  /** For a text with these frequencies, no prefix-free code takes fewer bits than that of the tree. */
  lemma NoBetterCode(pop: seq<nat>, codes: seq<seq<bool>>, t: Tree)
    requires 0 < |pop| == |codes| && (forall i :: 0 <= i < |pop| ==> pop[i] >= 1) && Total(pop) < 9227465
    requires forall a, b :: 0 <= a < |codes| && 0 <= b < |codes| && a != b ==> !(codes[a] <= codes[b])
    requires t == HuffTree(pop)
    ensures Bits(pop, CodeLengths(t, |pop|)) <= Bits(pop, Lengths(codes))
  {
    hide Fib;
    hide Bits;
    hide Fits;
    hide Grow;
    hide Total;
    hide Weight;
    Fib35();
    var n, lengths := |pop|, Lengths(codes);
    HuffTreeWhole(pop);
    var m := Longest(lengths, -1);
    assert forall k :: 0 <= k < |codes| ==> lengths[k] == |codes[k]|;
    Kraft(codes, lengths[m]);
    StartForest(pop, n);
    NoCosts(pop, n);
    GrowsCheapest(pop, Leaves(n), lengths, lengths[m]);
    LeafWeights(pop);
    CostIsSpent(pop, t);
    SpentIsBits(pop, t, n);
    assert pop[..n] == pop;
  }

  lemma LeafWeights(pop: seq<nat>)
    ensures Weights(pop, Leaves(|pop|)) == pop
  {
  }

  /** The codes of the shipped table take no more bits than any other code would for a text in which
      each character is once more frequent than the table says. */
  lemma CodeTreeOptimal(codes: seq<seq<bool>>)
    requires |codes| == 256
    requires forall a, b :: 0 <= a < |codes| && 0 <= b < |codes| && a != b ==> !(codes[a] <= codes[b])
    ensures |CharFreqs()| == 256 && forall s :: 0 <= s < 256 ==> s in Symbols(CodeTree())
    ensures var freqs := seq(256, s requires 0 <= s < 256 => CharFreqs()[s] + 1);
      Bits(freqs, seq(256, s requires 0 <= s < 256 => |Code(CodeTree(), s)|))
        <= Bits(freqs, seq(256, s requires 0 <= s < 256 => |codes[s]|))
  {
    hide Fib;
    hide Bits;
    hide HuffTree;
    hide Total;
    hide CharFreqs;
    CharFreqsTotal();
    Fib35();
    var freqs := seq(256, s requires 0 <= s < 256 => CharFreqs()[s] + 1);
    assert freqs == OneMore(CharFreqs());
    NoBetterCode(freqs, codes, CodeTree());
    assert Lengths(codes) == seq(256, s requires 0 <= s < 256 => |codes[s]|);
    assert CodeLengths(CodeTree(), 256) == seq(256, s requires 0 <= s < 256 => |Code(CodeTree(), s)|);
  }
}
