/**
  The Merkle tree over a list of leaf digests: levels that are padded by
  repeating an odd last node, the root, and the proof of every leaf.
  The pair hash is a parameter; nothing is assumed of it here.
 */
module MerkleSpec {

  type PairHash<!H> = (H, H) -> H

  datatype Proof<+H> = Proof(siblings: seq<H>, path: nat)

  // fixOdd: an odd last node is repeated.
  function Pad<H>(xs: seq<H>): (ys: seq<H>) {
    if |xs| % 2 == 0 then xs else xs + [xs[|xs| - 1]]
  }

  function Up<H>(h: PairHash<H>, xs: seq<H>): (ys: seq<H>) {
    seq(|xs| / 2, j requires 0 <= j < |xs| / 2 => h(xs[2 * j], xs[2 * j + 1]))
  }

  // The nodes of level k before padding; level 0 holds the leaves.
  function Nodes<H>(h: PairHash<H>, leaves: seq<H>, k: nat): (xs: seq<H>) {
    if k == 0 then leaves else Up(h, Pad(Nodes(h, leaves, k - 1)))
  }

  function Level<H>(h: PairHash<H>, leaves: seq<H>, k: nat): (xs: seq<H>) {
    Pad(Nodes(h, leaves, k))
  }

  // The number of nodes of level k before padding.
  function Width(n: nat, k: nat): nat {
    if k == 0 then n else (Width(n, k - 1) + 1) / 2
  }

  // calTreeDepth: the logarithm to base 2, rounded up.
  function Depth(n: nat): nat {
    if n <= 1 then 0 else 1 + Depth((n + 1) / 2)
  }

  function Pow2(k: nat): (p: nat)
    ensures p > 0
  {
    if k == 0 then 1 else 2 * Pow2(k - 1)
  }

  // Halving ends with a single node.
  function Root<H>(h: PairHash<H>, leaves: seq<H>): H
    requires 2 <= |leaves|
  {
    NodesWidth(h, leaves, Depth(|leaves|));
    TopWidth(|leaves|);
    Nodes(h, leaves, Depth(|leaves|))[0]
  }

  // The position of leaf i's ancestor in level k.
  function Shift(i: nat, k: nat): nat {
    if k == 0 then i else Shift(i, k - 1) / 2
  }

  // The other node of a pair.
  function Mate(i: nat): nat {
    if i % 2 == 0 then i + 1 else i - 1
  }

  // Path bits from level k up to level depth - 1; a bit is set for a left node.
  function PathFrom(i: nat, k: nat, depth: nat): nat
    decreases depth - k
  {
    if k >= depth then 0 else (if Shift(i, k) % 2 == 0 then 1 else 0) + 2 * PathFrom(i, k + 1, depth)
  }

  function SiblingsFrom<H>(h: PairHash<H>, leaves: seq<H>, i: nat, k: nat, depth: nat): (s: seq<H>)
    requires 2 <= |leaves| && i < |leaves|
    decreases depth - k
  {
    if k >= depth then []
    else
      MateInLevel(h, leaves, i, k);
      [Level(h, leaves, k)[Mate(Shift(i, k))]] + SiblingsFrom(h, leaves, i, k + 1, depth)
  }

  function ProofOf<H>(h: PairHash<H>, leaves: seq<H>, i: nat): (p: Proof<H>)
    requires 2 <= |leaves| && i < |leaves|
  {
    Proof(SiblingsFrom(h, leaves, i, 0, Depth(|leaves|)), PathFrom(i, 0, Depth(|leaves|)))
  }

  // The root that a digest and a proof lead to.
  function Climb<H>(h: PairHash<H>, digest: H, siblings: seq<H>, path: nat): H
    decreases |siblings|
  {
    if siblings == [] then digest
    else
      Climb(h, if path % 2 == 1 then h(digest, siblings[0]) else h(siblings[0], digest), siblings[1..], path / 2)
  }

  /* ---- shape of the tree ---- */

  lemma PadWidth<H>(xs: seq<H>)
    ensures |Pad(xs)| == 2 * ((|xs| + 1) / 2)
    ensures forall i :: 0 <= i < |xs| ==> Pad(xs)[i] == xs[i]
    ensures forall x :: x in Pad(xs) <==> x in xs
  {
  }

  lemma UpWidth<H>(h: PairHash<H>, xs: seq<H>)
    ensures |Up(h, Pad(xs))| == (|xs| + 1) / 2
  {
    PadWidth(xs);
  }

  lemma {:induction false} NodesWidth<H>(h: PairHash<H>, leaves: seq<H>, k: nat)
    ensures |Nodes(h, leaves, k)| == Width(|leaves|, k)
  {
    hide Pad, Up;
    if k > 0 {
      NodesWidth(h, leaves, k - 1);
      UpWidth(h, Nodes(h, leaves, k - 1));
    }
  }

  lemma {:induction false} WidthShift(n: nat, k: nat)
    ensures Width(n, k + 1) == Width((n + 1) / 2, k)
  {
    if k > 0 { WidthShift(n, k - 1); }
  }

  // Padding and halving leaves exactly two nodes below the root.
  lemma {:induction false} TopWidth(n: nat)
    requires 2 <= n
    ensures 1 <= Depth(n) && Width(n, Depth(n) - 1) == 2 && Width(n, Depth(n)) == 1
  {
    if n > 2 {
      TopWidth((n + 1) / 2);
      WidthShift(n, Depth(n) - 2);
    } else {
      assert Depth(1) == 0;
    }
  }

  // The depth is the smallest d with n <= 2^d.
  lemma {:induction false} DepthIsCeilLog2(n: nat)
    requires 1 <= n
    ensures n <= Pow2(Depth(n)) && (n > 1 ==> Pow2(Depth(n) - 1) < n)
  {
    if n > 1 {
      DepthIsCeilLog2((n + 1) / 2);
    }
  }

  lemma HalfInWidth(i: nat, n: nat)
    requires i < n
    ensures i / 2 < (n + 1) / 2
  {
  }

  lemma {:induction false} ShiftInWidth(i: nat, n: nat, k: nat)
    requires i < n
    ensures Shift(i, k) < Width(n, k)
  {
    if k > 0 {
      ShiftInWidth(i, n, k - 1);
      HalfInWidth(Shift(i, k - 1), Width(n, k - 1));
    }
  }

  lemma MateInPad<H>(xs: seq<H>, s: nat)
    requires s < |xs|
    ensures s < |Pad(xs)| && Mate(s) < |Pad(xs)|
    ensures s / 2 < (|xs| + 1) / 2 && 2 * (s / 2) + 1 < |Pad(xs)|
  {
    PadWidth(xs);
  }

  lemma MateInLevel<H>(h: PairHash<H>, leaves: seq<H>, i: nat, k: nat)
    requires i < |leaves|
    ensures Shift(i, k) < |Nodes(h, leaves, k)|
    ensures Shift(i, k) < |Level(h, leaves, k)| && Mate(Shift(i, k)) < |Level(h, leaves, k)|
    ensures Level(h, leaves, k)[Shift(i, k)] == Nodes(h, leaves, k)[Shift(i, k)]
  {
    ShiftInWidth(i, |leaves|, k);
    NodesWidth(h, leaves, k);
    MateInPad(Nodes(h, leaves, k), Shift(i, k));
    PadWidth(Nodes(h, leaves, k));
  }

  // The ancestor one level up is the hash of the pair, in path order.
  lemma ParentIsHash<H>(h: PairHash<H>, leaves: seq<H>, i: nat, k: nat)
    requires i < |leaves|
    ensures var xs, s := Level(h, leaves, k), Shift(i, k);
      && s < |xs| && Mate(s) < |xs|
      && Shift(i, k + 1) < |Nodes(h, leaves, k + 1)|
      && Nodes(h, leaves, k + 1)[Shift(i, k + 1)] == if s % 2 == 0 then h(xs[s], xs[Mate(s)]) else h(xs[Mate(s)], xs[s])
  {
    MateInLevel(h, leaves, i, k);
    MateInLevel(h, leaves, i, k + 1);
    UpAt(h, Level(h, leaves, k), Shift(i, k));
  }

  lemma UpAt<H>(h: PairHash<H>, xs: seq<H>, s: nat)
    requires s < |xs| && s / 2 < |Up(h, xs)|
    ensures Mate(s) < |xs|
    ensures Up(h, xs)[s / 2] == if s % 2 == 0 then h(xs[s], xs[Mate(s)]) else h(xs[Mate(s)], xs[s])
  {
    if s % 2 == 0 { assert s == 2 * (s / 2); } else { assert s == 2 * (s / 2) + 1; }
  }

  /* ---- completeness ---- */

  // From level k on, the proof of leaf i leads to the root.
  lemma {:induction false} ClimbFrom<H>(h: PairHash<H>, leaves: seq<H>, i: nat, k: nat)
    requires 2 <= |leaves| && i < |leaves| && k <= Depth(|leaves|)
    ensures Shift(i, k) < |Nodes(h, leaves, k)|
    ensures Climb(h, Nodes(h, leaves, k)[Shift(i, k)],
                  SiblingsFrom(h, leaves, i, k, Depth(|leaves|)), PathFrom(i, k, Depth(|leaves|))) == Root(h, leaves)
    decreases Depth(|leaves|) - k
  {
    hide Shift, Nodes, Pad, Up, Level, Mate, Depth, Root;
    var depth := Depth(|leaves|);
    MateInLevel(h, leaves, i, k);
    if k == depth {
      OnlyRoot(h, leaves, i);
    } else {
      var xs, s := Level(h, leaves, k), Shift(i, k);
      var sib, path := SiblingsFrom(h, leaves, i, k, depth), PathFrom(i, k, depth);
      assert sib[0] == xs[Mate(s)] && sib[1..] == SiblingsFrom(h, leaves, i, k + 1, depth);
      assert path % 2 == (if s % 2 == 0 then 1 else 0) && path / 2 == PathFrom(i, k + 1, depth);
      ParentIsHash(h, leaves, i, k);
      ClimbFrom(h, leaves, i, k + 1);
    }
  }

  lemma OnlyRoot<H>(h: PairHash<H>, leaves: seq<H>, i: nat)
    requires 2 <= |leaves| && i < |leaves|
    ensures Shift(i, Depth(|leaves|)) == 0 && |Nodes(h, leaves, Depth(|leaves|))| == 1
    ensures Nodes(h, leaves, Depth(|leaves|))[0] == Root(h, leaves)
  {
    TopWidth(|leaves|);
    ShiftInWidth(i, |leaves|, Depth(|leaves|));
    NodesWidth(h, leaves, Depth(|leaves|));
  }

  // Completeness: every leaf is accepted with its proof, which has one
  // sibling per level.
  lemma Completeness<H>(h: PairHash<H>, leaves: seq<H>, i: nat)
    requires 2 <= |leaves| && i < |leaves|
    ensures Climb(h, leaves[i], ProofOf(h, leaves, i).siblings, ProofOf(h, leaves, i).path) == Root(h, leaves)
    ensures |ProofOf(h, leaves, i).siblings| == Depth(|leaves|)
  {
    ClimbFrom(h, leaves, i, 0);
    SiblingsCount(h, leaves, i, 0, Depth(|leaves|));
  }

  lemma {:induction false} SiblingsCount<H>(h: PairHash<H>, leaves: seq<H>, i: nat, k: nat, depth: nat)
    requires 2 <= |leaves| && i < |leaves| && k <= depth
    ensures |SiblingsFrom(h, leaves, i, k, depth)| == depth - k
    decreases depth - k
  {
    hide Level, Nodes, Pad, Up, Mate, Shift;
    if k < depth { SiblingsCount(h, leaves, i, k + 1, depth); }
  }

  // The sibling of level k in a proof.
  lemma {:induction false} SiblingAt<H>(h: PairHash<H>, leaves: seq<H>, i: nat, k: nat, depth: nat, l: nat)
    requires 2 <= |leaves| && i < |leaves| && k <= l < depth
    ensures l - k < |SiblingsFrom(h, leaves, i, k, depth)| && Mate(Shift(i, l)) < |Level(h, leaves, l)|
    ensures SiblingsFrom(h, leaves, i, k, depth)[l - k] == Level(h, leaves, l)[Mate(Shift(i, l))]
    decreases l - k
  {
    hide Level, Nodes, Pad, Up, Mate, Shift;
    MateInLevel(h, leaves, i, k);
    if k < l { SiblingAt(h, leaves, i, k + 1, depth, l); }
  }

  /* ---- soundness ---- */

  // The two inputs of the next hash on the way up.
  function Inputs<H>(digest: H, sibling: H, path: nat): (H, H) {
    if path % 2 == 1 then (digest, sibling) else (sibling, digest)
  }

  // Whenever a hash of the pair p is a node above the level xs, p is the pair
  // that this node was hashed from.
  ghost predicate NoCollision<H>(h: PairHash<H>, xs: seq<H>, p: (H, H)) {
    forall j :: 0 <= j < |Up(h, xs)| && Up(h, xs)[j] == h(p.0, p.1) ==> (xs[2 * j], xs[2 * j + 1]) == p
  }

  // No hash computed on the way up from level k collides with a tree node.
  ghost predicate CollisionFree<H>(h: PairHash<H>, leaves: seq<H>, k: nat, digest: H, siblings: seq<H>, path: nat)
    decreases |siblings|
  {
    siblings == [] ||
    var p := Inputs(digest, siblings[0], path);
    && NoCollision(h, Level(h, leaves, k), p)
    && CollisionFree(h, leaves, k + 1, h(p.0, p.1), siblings[1..], path / 2)
  }

  // A hash that cannot collide is collision free for every proof.
  lemma {:induction false} InjectiveIsCollisionFree<H(!new)>(h: PairHash<H>, leaves: seq<H>, k: nat, digest: H,
                                                             siblings: seq<H>, path: nat)
    requires forall a, b, c, d :: h(a, b) == h(c, d) ==> a == c && b == d
    ensures CollisionFree(h, leaves, k, digest, siblings, path)
    decreases |siblings|
  {
    hide Level;
    if siblings != [] {
      var p := Inputs(digest, siblings[0], path);
      InjectiveIsCollisionFree(h, leaves, k + 1, h(p.0, p.1), siblings[1..], path / 2);
    }
  }

  lemma {:induction false} ShiftFront(i: nat, k: nat)
    ensures Shift(i, k + 1) == Shift(i / 2, k)
  {
    if k > 0 { ShiftFront(i, k - 1); }
  }

  // Climbing in two parts.
  lemma {:induction false} ClimbSplit<H>(h: PairHash<H>, digest: H, siblings: seq<H>, path: nat, m: nat)
    requires m <= |siblings|
    ensures Climb(h, digest, siblings, path) ==
      Climb(h, Climb(h, digest, siblings[..m], path), siblings[m..], Shift(path, m))
    decreases m
  {
    if m == 0 {
      assert siblings[..0] == [] && siblings[0..] == siblings;
    } else {
      var next := if path % 2 == 1 then h(digest, siblings[0]) else h(siblings[0], digest);
      ClimbSplit(h, next, siblings[1..], path / 2, m - 1);
      ShiftFront(path, m - 1);
      assert siblings[..m][1..] == siblings[1..][..m - 1] && siblings[1..][m - 1..] == siblings[m..];
    }
  }

  lemma {:induction false} SoundFrom<H>(h: PairHash<H>, leaves: seq<H>, k: nat, digest: H, siblings: seq<H>, path: nat)
    requires 2 <= |leaves| && k <= Depth(|leaves|) && |siblings| == Depth(|leaves|) - k
    requires Climb(h, digest, siblings, path) == Root(h, leaves) && CollisionFree(h, leaves, k, digest, siblings, path)
    ensures digest in Nodes(h, leaves, k)
    decreases |siblings|
  {
    hide Depth, Up, Pad;
    if k == Depth(|leaves|) {
      OnlyRoot(h, leaves, 0);
    } else {
      var p, xs := Inputs(digest, siblings[0], path), Level(h, leaves, k);
      SoundFrom(h, leaves, k + 1, h(p.0, p.1), siblings[1..], path / 2);
      assert h(p.0, p.1) in Up(h, xs);
      PairInLevel(h, xs, p);
      NodesWidth(h, leaves, k);
      PadWidth(Nodes(h, leaves, k));
    }
  }

  lemma PairInLevel<H>(h: PairHash<H>, xs: seq<H>, p: (H, H))
    requires h(p.0, p.1) in Up(h, xs) && NoCollision(h, xs, p)
    ensures p.0 in xs && p.1 in xs
  {
    var j :| 0 <= j < |Up(h, xs)| && Up(h, xs)[j] == h(p.0, p.1);
    assert xs[2 * j] == p.0 && xs[2 * j + 1] == p.1;
  }

  // Soundness: a digest that is accepted with a proof of the tree's depth is
  // one of its leaves, also when its path runs through repeated nodes.
  lemma Soundness<H>(h: PairHash<H>, leaves: seq<H>, digest: H, proof: Proof<H>)
    requires 2 <= |leaves| && |proof.siblings| == Depth(|leaves|)
    requires Climb(h, digest, proof.siblings, proof.path) == Root(h, leaves)
    requires CollisionFree(h, leaves, 0, digest, proof.siblings, proof.path)
    ensures digest in leaves
  {
    SoundFrom(h, leaves, 0, digest, proof.siblings, proof.path);
  }

  lemma {:induction false} BindingFrom<H>(h: PairHash<H>, leaves: seq<H>, i: nat, k: nat, digest: H, siblings: seq<H>)
    requires 2 <= |leaves| && i < |leaves| && k <= Depth(|leaves|) && |siblings| == Depth(|leaves|) - k
    requires Climb(h, digest, siblings, PathFrom(i, k, Depth(|leaves|))) == Root(h, leaves)
    requires CollisionFree(h, leaves, k, digest, siblings, PathFrom(i, k, Depth(|leaves|)))
    ensures Shift(i, k) < |Nodes(h, leaves, k)|
    ensures digest == Nodes(h, leaves, k)[Shift(i, k)]
    ensures siblings == SiblingsFrom(h, leaves, i, k, Depth(|leaves|))
    decreases |siblings|
  {
    hide Depth, Up, Pad, Mate, NoCollision;
    var depth := Depth(|leaves|);
    MateInLevel(h, leaves, i, k);
    if k == depth {
      OnlyRoot(h, leaves, i);
    } else {
      var path, s, xs := PathFrom(i, k, depth), Shift(i, k), Level(h, leaves, k);
      var p := Inputs(digest, siblings[0], path);
      assert path % 2 == (if s % 2 == 0 then 1 else 0) && path / 2 == PathFrom(i, k + 1, depth);
      BindingFrom(h, leaves, i, k + 1, h(p.0, p.1), siblings[1..]);
      MateInLevel(h, leaves, i, k + 1);
      PairAtIndex(h, xs, s, p);
      assert siblings == [siblings[0]] + siblings[1..];
    }
  }

  lemma PairAtIndex<H>(h: PairHash<H>, xs: seq<H>, s: nat, p: (H, H))
    requires s < |xs| && Mate(s) < |xs| && s / 2 < |Up(h, xs)| && Up(h, xs)[s / 2] == h(p.0, p.1)
    requires NoCollision(h, xs, p)
    ensures xs[s] == if s % 2 == 0 then p.0 else p.1
    ensures xs[Mate(s)] == if s % 2 == 0 then p.1 else p.0
  {
    if s % 2 == 0 { assert s == 2 * (s / 2); } else { assert s == 2 * (s / 2) + 1; }
  }

  // Position binding: with the path of leaf i, only leaf i is accepted, and
  // only with its own siblings.
  lemma PositionBinding<H>(h: PairHash<H>, leaves: seq<H>, i: nat, digest: H, siblings: seq<H>)
    requires 2 <= |leaves| && i < |leaves| && |siblings| == Depth(|leaves|)
    requires Climb(h, digest, siblings, ProofOf(h, leaves, i).path) == Root(h, leaves)
    requires CollisionFree(h, leaves, 0, digest, siblings, ProofOf(h, leaves, i).path)
    ensures digest == leaves[i] && siblings == ProofOf(h, leaves, i).siblings
  {
    BindingFrom(h, leaves, i, 0, digest, siblings);
  }

  // The path of a proof fits in as many bits as the tree has levels.
  lemma {:induction false} PathBound(i: nat, k: nat, depth: nat)
    requires k <= depth
    ensures PathFrom(i, k, depth) < Pow2(depth - k)
    decreases depth - k
  {
    if k < depth { PathBound(i, k + 1, depth); }
  }
}
