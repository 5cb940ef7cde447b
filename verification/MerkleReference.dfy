/**
  The tree from the top: a node covers a span of leaves, and hashes its left half
  with its right half, or with itself where there are no leaves to the right.
  The levels that are built from the bottom hold exactly these nodes.
 */
module MerkleReference {
  import opened Basics
  import opened MerkleSpec

  // The node of height k whose first leaf is lo.
  function Subtree<H>(h: PairHash<H>, leaves: seq<H>, lo: nat, k: nat): H
    requires lo < |leaves|
    decreases k
  {
    if k == 0 then leaves[lo]
    else
      var mid, left := lo + Pow2(k - 1), Subtree(h, leaves, lo, k - 1);
      h(left, if mid < |leaves| then Subtree(h, leaves, mid, k - 1) else left)
  }

  lemma TwiceAsMany(j: nat, k: nat)
    requires k > 0
    ensures j * Pow2(k) == (2 * j) * Pow2(k - 1)
    ensures (2 * j + 1) * Pow2(k - 1) == j * Pow2(k) + Pow2(k - 1)
  {
    var p := Pow2(k - 1);
    assert Pow2(k) == 2 * p;
    assert (2 * j + 1) * p == (2 * j) * p + p;
  }

  // Node j of level k exists exactly if its first leaf does.
  lemma {:induction false} InWidthIff(n: nat, k: nat, j: nat)
    ensures j < Width(n, k) <==> j * Pow2(k) < n
  {
    if k > 0 {
      InWidthIff(n, k - 1, 2 * j);
      TwiceAsMany(j, k);
    }
  }

  lemma PadAt<H>(xs: seq<H>, j: nat)
    requires 2 * j < |xs|
    ensures 2 * j + 1 < |Pad(xs)|
    ensures Pad(xs)[2 * j] == xs[2 * j]
    ensures Pad(xs)[2 * j + 1] == if 2 * j + 1 < |xs| then xs[2 * j + 1] else xs[2 * j]
  {
  }

  lemma NodesNext<H>(h: PairHash<H>, leaves: seq<H>, k: nat)
    ensures Nodes(h, leaves, k + 1) == Up(h, Pad(Nodes(h, leaves, k)))
  {
  }

  // A node is the hash of the two below it.
  lemma PairHashed<H>(h: PairHash<H>, xs: seq<H>, j: nat)
    requires 2 * j < |xs|
    ensures j < |Up(h, Pad(xs))|
    ensures Up(h, Pad(xs))[j] == h(xs[2 * j], if 2 * j + 1 < |xs| then xs[2 * j + 1] else xs[2 * j])
  {
    PadAt(xs, j);
  }

  lemma {:induction false} NodeIsSubtree<H>(h: PairHash<H>, leaves: seq<H>, k: nat, j: nat)
    requires j < Width(|leaves|, k)
    ensures j < |Nodes(h, leaves, k)| && j * Pow2(k) < |leaves|
    ensures Nodes(h, leaves, k)[j] == Subtree(h, leaves, j * Pow2(k), k)
    decreases k
  {
    hide Pad, Up, Pow2, Nodes;
    NodesWidth(h, leaves, k);
    InWidthIff(|leaves|, k, j);
    if k > 0 {
      TwiceAsMany(j, k);
      NodesWidth(h, leaves, k - 1);
      NodeIsSubtree(h, leaves, k - 1, 2 * j);
      InWidthIff(|leaves|, k - 1, 2 * j + 1);
      if 2 * j + 1 < Width(|leaves|, k - 1) { NodeIsSubtree(h, leaves, k - 1, 2 * j + 1); }
      NodesNext(h, leaves, k - 1);
      PairHashed(h, Nodes(h, leaves, k - 1), j);
    } else {
      NoneBelow(h, leaves);
      PowZero();
    }
  }

  lemma NoneBelow<H>(h: PairHash<H>, leaves: seq<H>)
    ensures Nodes(h, leaves, 0) == leaves
  {
  }

  lemma PowZero()
    ensures Pow2(0) == 1
  {
  }

  // The root is the node over all leaves.
  lemma RootIsSubtree<H>(h: PairHash<H>, leaves: seq<H>)
    requires 2 <= |leaves|
    ensures Root(h, leaves) == Subtree(h, leaves, 0, Depth(|leaves|))
  {
    hide Nodes, Subtree, Depth, Pow2;
    NodesWidth(h, leaves, Depth(|leaves|));
    TopWidth(|leaves|);
    NodeIsSubtree(h, leaves, Depth(|leaves|), 0);
  }

  /* ---- proofs ---- */

  lemma {:induction false} ShiftIsQuotient(i: nat, k: nat)
    ensures Shift(i, k) * Pow2(k) <= i < (Shift(i, k) + 1) * Pow2(k)
  {
    if k > 0 {
      ShiftIsQuotient(i, k - 1);
      var s, t := Shift(i, k - 1), Shift(i, k);
      TwiceAsMany(t, k);
      TwiceAsMany(t + 1, k);
      assert s == 2 * t || s == 2 * t + 1;
    }
  }

  // Bit l of the path: set exactly if the ancestor on level l is a left node.
  lemma {:induction false} PathBit(i: nat, k: nat, depth: nat, l: nat)
    requires k <= l < depth
    ensures PathFrom(i, k, depth) / Pow2(l - k) % 2 == 1 <==> Shift(i, l) % 2 == 0
    decreases l - k
  {
    if k < l {
      PathBit(i, k + 1, depth, l);
      var p, q := PathFrom(i, k, depth), Pow2(l - k - 1);
      DivideTwice(p, 2, q);
      assert p / 2 == PathFrom(i, k + 1, depth);
    }
  }

  // The first leaf below the node beside node s of level l: to the left of a right node;
  // to the right of a left one, or the node itself if there are no leaves there.
  function Beside(n: nat, s: nat, l: nat): nat {
    if s % 2 == 1 then (s - 1) * Pow2(l)
    else if (s + 1) * Pow2(l) < n then (s + 1) * Pow2(l)
    else s * Pow2(l)
  }

  // Sibling l of a leaf is the node beside its ancestor on level l.
  lemma ProofIs<H>(h: PairHash<H>, leaves: seq<H>, i: nat, l: nat)
    requires 2 <= |leaves| && i < |leaves| && l < Depth(|leaves|)
    ensures var p, s := ProofOf(h, leaves, i), Shift(i, l);
      && |p.siblings| == Depth(|leaves|) && Beside(|leaves|, s, l) < |leaves|
      && p.siblings[l] == Subtree(h, leaves, Beside(|leaves|, s, l), l)
      && (p.path / Pow2(l) % 2 == 1 <==> s % 2 == 0)
  {
    hide Nodes, Subtree, Depth, Pow2, Pad, Shift, SiblingsFrom;
    var n, s := |leaves|, Shift(i, l);
    SiblingsCount(h, leaves, i, 0, Depth(n));
    SiblingAt(h, leaves, i, 0, Depth(n), l);
    PathBit(i, 0, Depth(n), l);
    ShiftInWidth(i, n, l);
    NodesWidth(h, leaves, l);
    NodeIsSubtree(h, leaves, l, s);
    if s % 2 == 0 {
      PadAt(Nodes(h, leaves, l), s / 2);
      InWidthIff(n, l, s + 1);
      if s + 1 < Width(n, l) { NodeIsSubtree(h, leaves, l, s + 1); }
    } else {
      PadAt(Nodes(h, leaves, l), (s - 1) / 2);
      NodeIsSubtree(h, leaves, l, s - 1);
    }
  }

  /* ---- what padding repeats ---- */

  // The last node of a level of odd width is hashed with itself.
  lemma OddLevel<H>(h: PairHash<H>, leaves: seq<H>, k: nat)
    requires |Nodes(h, leaves, k)| % 2 == 1
    ensures var xs, ys := Nodes(h, leaves, k), Nodes(h, leaves, k + 1);
      |ys| == |xs| / 2 + 1 && ys[|ys| - 1] == h(xs[|xs| - 1], xs[|xs| - 1])
  {
    hide Nodes;
    NodesNext(h, leaves, k);
    var xs := Nodes(h, leaves, k);
    PairHashed(h, xs, |xs| / 2);
    UpWidth(h, xs);
  }

  lemma {:induction false} SameAbove<H>(h: PairHash<H>, leaves: seq<H>, more: seq<H>, k: nat)
    requires Pad(leaves) == Pad(more) && 0 < k
    ensures Nodes(h, leaves, k) == Nodes(h, more, k)
  {
    if k > 1 { SameAbove(h, leaves, more, k - 1); }
  }

  // An odd number of leaves gives the root of the leaves with the last one twice.
  lemma OddRoot<H>(h: PairHash<H>, leaves: seq<H>)
    requires 3 <= |leaves| && |leaves| % 2 == 1
    ensures Root(h, leaves) == Root(h, leaves + [leaves[|leaves| - 1]])
  {
    hide Nodes;
    var more := leaves + [leaves[|leaves| - 1]];
    assert Depth(|more|) == Depth(|leaves|) > 0;
    SameAbove(h, leaves, more, Depth(|leaves|));
  }

  lemma RootOfThree<H>(h: PairHash<H>, a: H, b: H, c: H)
    ensures Root(h, [a, b, c]) == h(h(a, b), h(c, c))
  {
    hide Root;
    RootIsSubtree(h, [a, b, c]);
    assert Depth(3) == 2 && Depth(2) == 1 && Pow2(1) == 2 && Pow2(0) == 1;
    assert Subtree(h, [a, b, c], 0, 1) == h(a, b) && Subtree(h, [a, b, c], 2, 1) == h(c, c);
  }
}
