/**
  Building the Merkle tree and its proofs the way the program does: level by
  level into the tree, or in place in a buffer that shrinks, with loops that may
  be strided over a number of routines.
 */
module MerkleTree {
  import opened MerkleSpec
  import opened Strides

  /* ---- proofs that grow level by level ---- */

  // The proof of leaf i below level k.
  function ProofUpTo<H>(h: PairHash<H>, leaves: seq<H>, i: nat, k: nat): (p: Proof<H>)
    requires i < |leaves|
  {
    hide Nodes, Pad, Up, Shift, Mate;
    if k == 0 then Proof([], 0)
    else
      MateInLevel(h, leaves, i, k - 1);
      AddNode(ProofUpTo(h, leaves, i, k - 1), Level(h, leaves, k - 1), i, k - 1)
  }

  // What updatePairProof adds to the proof of leaf i at a step.
  function AddNode<H>(p: Proof<H>, buf: seq<H>, i: nat, step: nat): (p': Proof<H>)
    requires Mate(Shift(i, step)) < |buf|
  {
    WithNode(p, buf[Mate(Shift(i, step))], if Shift(i, step) % 2 == 0 then Pow2(step) else 0)
  }

  function WithNode<H>(p: Proof<H>, node: H, bit: nat): Proof<H> {
    Proof(p.siblings + [node], p.path + bit)
  }

  // The leaves below the nodes idx and idx + 1 of a level.
  lemma PairBelow(j: nat, step: nat, idx: nat, batch: nat)
    requires batch == Pow2(step)
    ensures Shift(j, step) == idx <==> idx * batch <= j < idx * batch + batch
    ensures Shift(j, step) == idx + 1 <==> idx * batch + batch <= j < idx * batch + 2 * batch
  {
    assert (idx + 1) * batch == idx * batch + batch;
    ShiftRange(j, step, idx);
    ShiftRange(j, step, idx + 1);
  }

  lemma PairMates(idx: nat)
    requires idx % 2 == 0
    ensures Mate(idx) == idx + 1 && Mate(idx + 1) == idx
  {
  }

  lemma {:induction false} SiblingsSplit<H>(h: PairHash<H>, leaves: seq<H>, i: nat, k: nat, depth: nat)
    requires 2 <= |leaves| && i < |leaves| && k <= depth
    ensures ProofUpTo(h, leaves, i, k).siblings + SiblingsFrom(h, leaves, i, k, depth) ==
      SiblingsFrom(h, leaves, i, 0, depth)
  {
    hide Nodes, Pad, Up, Shift, Mate, Level, Pow2;
    if k > 0 {
      SiblingsSplit(h, leaves, i, k - 1, depth);
      MateInLevel(h, leaves, i, k - 1);
      var front, node := ProofUpTo(h, leaves, i, k - 1).siblings, Level(h, leaves, k - 1)[Mate(Shift(i, k - 1))];
      assert SiblingsFrom(h, leaves, i, k - 1, depth) == [node] + SiblingsFrom(h, leaves, i, k, depth);
      assert (front + [node]) + SiblingsFrom(h, leaves, i, k, depth) ==
        front + ([node] + SiblingsFrom(h, leaves, i, k, depth));
    }
  }

  lemma {:induction false} PathSplit<H>(h: PairHash<H>, leaves: seq<H>, i: nat, k: nat, depth: nat)
    requires 2 <= |leaves| && i < |leaves| && k <= depth
    ensures ProofUpTo(h, leaves, i, k).path + Pow2(k) * PathFrom(i, k, depth) == PathFrom(i, 0, depth)
  {
    hide Nodes, Pad, Up, Shift, Mate, Level;
    if k > 0 {
      PathSplit(h, leaves, i, k - 1, depth);
      MateInLevel(h, leaves, i, k - 1);
      var bit, rest := if Shift(i, k - 1) % 2 == 0 then 1 else 0, PathFrom(i, k, depth);
      assert PathFrom(i, k - 1, depth) == bit + 2 * rest;
      Distribute(Pow2(k - 1), bit, rest);
    }
  }

  lemma Distribute(p: nat, bit: nat, rest: nat)
    requires bit <= 1
    ensures p * (bit + 2 * rest) == (if bit == 1 then p else 0) + (2 * p) * rest
  {
  }

  // The finished proof is the one that the tree determines.
  lemma ProofComplete<H>(h: PairHash<H>, leaves: seq<H>, i: nat)
    requires 2 <= |leaves| && i < |leaves|
    ensures ProofUpTo(h, leaves, i, Depth(|leaves|)) == ProofOf(h, leaves, i)
  {
    hide ProofUpTo, Depth, Pow2, Shift, Level, Mate;
    var d := Depth(|leaves|);
    SiblingsSplit(h, leaves, i, d, d);
    PathSplit(h, leaves, i, d, d);
    assert SiblingsFrom(h, leaves, i, d, d) == [] && PathFrom(i, d, d) == 0;
  }

  // The leaves below node idx of level k.
  lemma {:induction false} ShiftRange(i: nat, k: nat, idx: nat)
    ensures Shift(i, k) == idx <==> idx * Pow2(k) <= i < idx * Pow2(k) + Pow2(k)
  {
    if k > 0 {
      var p := Pow2(k - 1);
      ShiftRange(i, k - 1, 2 * idx);
      ShiftRange(i, k - 1, 2 * idx + 1);
      assert idx * Pow2(k) == 2 * idx * p by { Rescale(idx, p); }
      assert (2 * idx + 1) * p == 2 * idx * p + p;
    }
  }

  lemma Rescale(idx: nat, p: nat)
    ensures idx * (2 * p) == 2 * idx * p
  {
  }

  // If there is too little work, fewer routines are used.
  function CalculateNumRoutine(numRoutines: nat, workCount: nat): (r: nat)
    ensures 1 <= r && (1 < r ==> r <= numRoutines && 16 * r <= workCount)
    ensures r < numRoutines ==> workCount < 16 * (r + 1)
  {
    var n := if numRoutines > workCount / 16 then workCount / 16 else numRoutines;
    if n == 0 then 1 else n
  }

  /* ---- the tree ---- */

  datatype Mode = ModeProofGen | ModeTreeBuild | ModeProofGenAndTreeBuild

  class MerkleTree<H(==, 0, !new)> {
    const h: PairHash<H>
    const leaves: seq<H>
    const depth: nat
    var leafMap: map<H, nat>
    var tree: seq<seq<H>>
    var root: H
    var proofs: array<Proof<H>>

    constructor (h_: PairHash<H>, leaves_: seq<H>)
      ensures h == h_ && leaves == leaves_ && depth == Depth(|leaves_|) && fresh(proofs)
    {
      h, leaves, depth := h_, leaves_, Depth(|leaves_|);
      leafMap, tree := map[], [];
      root := *;
      proofs := new Proof<H>[0];
    }

    method InitProofs()
      modifies this
      ensures fresh(proofs) && proofs.Length == |leaves|
      ensures forall i :: 0 <= i < |leaves| ==> proofs[i] == ProofUpTo(h, leaves, i, 0)
      ensures tree == old(tree) && root == old(root) && leafMap == old(leafMap)
    {
      proofs := new Proof<H>[|leaves|](i => Proof([], 0));
    }

    // Append the padding node after the first prevLen nodes of the buffer.
    static method FixOdd(buf: seq<H>, prevLen: nat) returns (buf': seq<H>, prevLen': nat)
      requires 0 < prevLen <= |buf|
      ensures prevLen' <= |buf'| && buf'[..prevLen'] == Pad(buf[..prevLen])
      ensures prevLen == |buf| ==> prevLen' == |buf'|
      ensures if prevLen % 2 == 0 then buf' == buf && prevLen' == prevLen
              else prevLen' == prevLen + 1 && buf'[..prevLen] == buf[..prevLen] && buf'[prevLen] == buf[prevLen - 1]
    {
      if prevLen % 2 == 0 {
        return buf, prevLen;
      }
      var appendNode := buf[prevLen - 1];
      prevLen' := prevLen + 1;
      if |buf| < prevLen' {
        buf' := buf + [appendNode];
      } else {
        buf' := buf[prevLen' - 1 := appendNode];
      }
    }

    // Add a node, and its bit of the path, to the proofs of leaves start to end - 1.
    method AddToProofs(node: H, bit: nat, start: nat, end: nat)
      modifies proofs
      ensures forall j :: 0 <= j < proofs.Length ==>
        proofs[j] == if start <= j < end then WithNode(old(proofs[j]), node, bit) else old(proofs[j])
    {
      hide WithNode;
      var i := start;
      while i < end && i < proofs.Length
        invariant start <= i && (i <= end || i == start)
        invariant forall j :: 0 <= j < proofs.Length ==>
          proofs[j] == if start <= j < i then WithNode(old(proofs[j]), node, bit) else old(proofs[j])
      {
        proofs[i] := WithNode(proofs[i], node, bit);
        i := i + 1;
      }
    }

    // Add the nodes idx and idx + 1 to the proofs of the leaves below them.
    method UpdatePairProof(buf: seq<H>, idx: nat, batch: nat, step: nat)
      requires idx + 1 < |buf| && idx % 2 == 0 && batch == Pow2(step)
      modifies proofs
      ensures forall i :: 0 <= i < proofs.Length ==>
        var s := Shift(i, step);
        if s == idx || s == idx + 1 then Mate(s) < |buf| && proofs[i] == AddNode(old(proofs[i]), buf, i, step)
        else proofs[i] == old(proofs[i])
    {
      hide Shift, Pow2, Mate, WithNode;
      var start := idx * batch;
      AddToProofs(buf[idx + 1], batch, start, start + batch);
      AddToProofs(buf[idx], 0, start + batch, start + batch + batch);
      forall j | 0 <= j < proofs.Length
        ensures Shift(j, step) == idx <==> start <= j < start + batch
        ensures Shift(j, step) == idx + 1 <==> start + batch <= j < start + batch + batch
      {
        PairBelow(j, step, idx, batch);
      }
      PairMates(idx);
    }

    // The pairs of one routine: 2 * r, 2 * (r + routines), ...
    method UpdateStride(buf: seq<H>, bufLen: nat, step: nat, routines: nat, r: nat, ghost orig: seq<Proof<H>>)
      requires 0 < routines && r < routines && LevelFits(buf, bufLen, step, proofs.Length)
      requires Progress(proofs[..], orig, buf, step, routines, r, r)
      modifies proofs
      ensures Progress(proofs[..], orig, buf, step, routines, r + 1, r + 1)
    {
      hide Progress, LevelFits;
      var batch := Pow2(step);
      var j, q := 2 * r, r;
      StrideStep(routines, r, r);
      while j < bufLen
        invariant j == 2 * q && q % routines == r
        invariant Progress(proofs[..], orig, buf, step, routines, r, q)
      {
        ghost var before := proofs[..];
        PairFits(buf, bufLen, step, proofs.Length, q);
        UpdatePairProof(buf, j, batch, step);
        ProgressStep(before, proofs[..], orig, buf, step, routines, r, q);
        StrideStep(routines, q, q);
        j, q := j + 2 * routines, q + routines;
      }
      ProgressDone(proofs[..], orig, buf, bufLen, step, routines, r, q);
    }

    // Every pair once, strided over the routines.
    method UpdateProofsParallel(buf: seq<H>, bufLen: nat, step: nat, numRoutines: nat)
      requires LevelFits(buf, bufLen, step, proofs.Length)
      modifies proofs
      ensures LevelAdded(old(proofs[..]), proofs[..], buf, step)
    {
      var routines := CalculateNumRoutine(numRoutines, bufLen);
      ghost var orig := proofs[..];
      ProgressStart(orig, buf, bufLen, step, routines);
      for r := 0 to routines
        invariant Progress(proofs[..], orig, buf, step, routines, r, r)
      {
        UpdateStride(buf, bufLen, step, routines, r, orig);
      }
      ProgressEnd(proofs[..], orig, buf, step, routines);
    }

    method UpdateProofs(buf: seq<H>, bufLen: nat, step: nat)
      requires LevelFits(buf, bufLen, step, proofs.Length)
      modifies proofs
      ensures LevelAdded(old(proofs[..]), proofs[..], buf, step)
    {
      // a single routine takes the pairs 0, 2, 4, ... in order
      ghost var orig := proofs[..];
      ProgressStart(orig, buf, bufLen, step, 1);
      UpdateStride(buf, bufLen, step, 1, 0, orig);
      ProgressEnd(proofs[..], orig, buf, step, 1);
    }

    // Hash the pairs of a level, strided over the routines.
    static method HashLevel(h: PairHash<H>, xs: seq<H>, routines: nat) returns (ys: seq<H>)
      requires |xs| % 2 == 0 && 0 < routines
      ensures ys == Up(h, xs)
    {
      var out := new H[|xs| / 2];
      for r := 0 to routines
        invariant forall p :: 0 <= p < out.Length && p % routines < r ==> out[p] == h(xs[2 * p], xs[2 * p + 1])
      {
        var k, q := 2 * r, r;
        StrideStep(routines, r, r);
        forall p | 0 <= p < r ensures p % routines != r { StrideStep(routines, p, p); }
        while k < |xs|
          invariant k == 2 * q && q % routines == r
          invariant forall p :: 0 <= p < out.Length && (p % routines < r || (p % routines == r && p < q)) ==>
            out[p] == h(xs[2 * p], xs[2 * p + 1])
        {
          forall p | q <= p < q + routines && p % routines == r ensures p == q { StrideStep(routines, q, p); }
          StrideStep(routines, q, q);
          out[k / 2] := h(xs[k], xs[k + 1]);
          k, q := k + 2 * routines, q + routines;
        }
      }
      ys := out[..];
    }

    // Exactly the leaves are mapped, each to its last position.
    ghost predicate MapOk()
      reads `leafMap
    {
      && (forall d :: d in leafMap <==> d in leaves)
      && (forall d :: d in leafMap ==> leafMap[d] < |leaves| && leaves[leafMap[d]] == d)
      && (forall d, j :: d in leafMap && leafMap[d] < j < |leaves| ==> leaves[j] != d)
    }

    // Index the leaves by digest; of equal leaves the last one is found.
    method MapLeaves()
      modifies `leafMap
      ensures MapOk()
    {
      leafMap := map[];
      for i := 0 to |leaves|
        invariant forall d :: d in leafMap <==> d in leaves[..i]
        invariant forall d :: d in leafMap ==> leafMap[d] < i && leaves[leafMap[d]] == d
        invariant forall d, j :: d in leafMap && leafMap[d] < j < i ==> leaves[j] != d
      {
        assert leaves[..i + 1] == leaves[..i] + [leaves[i]];
        leafMap := leafMap[leaves[i] := i];
      }
      assert leaves[..|leaves|] == leaves;
    }

    ghost predicate TreeOk()
      reads `tree, `root, `leafMap
    {
      && MapOk()
      && 2 <= |leaves| && depth == Depth(|leaves|)
      && |tree| == depth
      && (forall k :: 0 <= k < depth ==> tree[k] == Level(h, leaves, k))
      && root == Root(h, leaves)
    }

    // treeBuild: keep every level.
    method TreeBuild(runInParallel: bool, numRoutines: nat)
      requires 2 <= |leaves| && depth == Depth(|leaves|)
      modifies this
      ensures TreeOk() && proofs == old(proofs)
    {
      hide Nodes, Pad, Up, Depth, Root, MapOk;
      MapLeaves();
      TopWidth(|leaves|);
      ghost var mapped := leafMap;
      var level, prevLen := FixOdd(leaves, |leaves|);
      assert leaves[..|leaves|] == leaves && level[..prevLen] == level;
      tree := [level];
      LeavesAreNodes(h, leaves);
      for i := 0 to depth - 1
        invariant |tree| == i + 1 && prevLen == |tree[i]|
        invariant forall k :: 0 <= k <= i ==> tree[k] == Level(h, leaves, k)
        invariant proofs == old(proofs) && leafMap == mapped
      {
        LevelEven(h, leaves, i);
        var routines := if runInParallel then CalculateNumRoutine(numRoutines, prevLen) else 1;
        level := HashLevel(h, tree[i], routines);
        NextNodes(h, leaves, i);
        prevLen := |level|;
        assert level[..prevLen] == level;
        level, prevLen := FixOdd(level, prevLen);
        assert level[..prevLen] == level;
        tree := tree + [level];
      }
      TopPair(h, leaves);
      root := h(tree[depth - 1][0], tree[depth - 1][1]);
    }

    // The proofs after the levels below k have been added.
    ghost predicate ProofsUpTo(k: nat)
      reads `proofs, proofs
    {
      proofs.Length == |leaves| && forall i :: 0 <= i < |leaves| ==> proofs[i] == ProofUpTo(h, leaves, i, k)
    }

    ghost predicate ProofsOk()
      reads `proofs, proofs
    {
      && 2 <= |leaves|
      && proofs.Length == |leaves|
      && forall i :: 0 <= i < |leaves| ==> proofs[i] == ProofOf(h, leaves, i)
    }

    // One level of the buffer is added to all proofs.
    method AddLevel(buf: seq<H>, bufLen: nat, step: nat, runInParallel: bool, numRoutines: nat)
      requires ProofsUpTo(step) && Width(|leaves|, step) <= bufLen <= |Level(h, leaves, step)| <= |buf|
      requires buf[..|Level(h, leaves, step)|] == Level(h, leaves, step)
      modifies proofs
      ensures ProofsUpTo(step + 1)
    {
      hide Nodes, Pad, Up;
      ghost var before := proofs[..];
      FitsLevel(h, leaves, buf, bufLen, step);
      if runInParallel {
        UpdateProofsParallel(buf, bufLen, step, numRoutines);
      } else {
        UpdateProofs(buf, bufLen, step);
      }
      forall i | 0 <= i < |leaves| ensures proofs[i] == ProofUpTo(h, leaves, i, step + 1) {
        assert proofs[..][i] == AddNode(before[i], buf, i, step);
        MateInLevel(h, leaves, i, step);
        assert buf[Mate(Shift(i, step))] == buf[..|Level(h, leaves, step)|][Mate(Shift(i, step))];
      }
    }

    lemma ProofsFinished()
      requires 2 <= |leaves| && ProofsUpTo(Depth(|leaves|))
      ensures ProofsOk()
    {
      forall i | 0 <= i < |leaves| ensures proofs[i] == ProofOf(h, leaves, i) {
        ProofComplete(h, leaves, i);
      }
    }

    // The proofs from the levels that treeBuild kept.
    method ProofsFromTree(runInParallel: bool, numRoutines: nat)
      requires TreeOk()
      modifies this
      ensures TreeOk() && ProofsOk() && fresh(proofs) && leafMap == old(leafMap)
    {
      hide Nodes, Pad, Up, Depth, ProofUpTo, Width, MapOk;
      InitProofs();
      for i := 0 to depth
        invariant TreeOk() && ProofsUpTo(i) && fresh(proofs) && leafMap == old(leafMap)
      {
        assert tree[i][..|tree[i]|] == tree[i];
        WidthInLevel(h, leaves, i);
        AddLevel(tree[i], |tree[i]|, i, runInParallel, numRoutines);
      }
      ProofsFinished();
    }

    // Hash the first prevLen nodes of the buffer pairwise into its front.
    static method HashInPlace(h: PairHash<H>, buf: seq<H>, prevLen: nat) returns (buf': seq<H>)
      requires prevLen <= |buf| && prevLen % 2 == 0
      ensures |buf'| == |buf| && buf'[..prevLen / 2] == Up(h, buf[..prevLen])
    {
      hide Up;
      buf' := buf;
      var idx, q := 0, 0;
      ghost var xs := buf[..prevLen];
      UpPairs(h, xs);
      while idx < prevLen
        invariant idx == 2 * q <= prevLen && |buf'| == |buf|
        invariant buf'[..q] == Up(h, xs)[..q]
        invariant forall p :: idx <= p < |buf| ==> buf'[p] == buf[p]
      {
        UpPair(h, xs, q);
        ghost var before := buf';
        buf' := buf'[idx / 2 := h(buf'[idx], buf'[idx + 1])];
        assert buf'[..q + 1] == before[..q] + [Up(h, xs)[q]] && Up(h, xs)[..q + 1] == Up(h, xs)[..q] + [Up(h, xs)[q]];
        idx, q := idx + 2, q + 1;
      }
      assert Up(h, xs)[..q] == Up(h, xs);
    }

    // proofGen: no tree is kept; each level overwrites a copy of the previous one.
    method ProofGen()
      requires 2 <= |leaves| && depth == Depth(|leaves|)
      modifies this
      ensures ProofsOk() && fresh(proofs) && root == Root(h, leaves)
    {
      hide Nodes, Pad, Up, Depth, ProofUpTo, Width, Root;
      InitProofs();
      TopWidth(|leaves|);
      WidthInLevel(h, leaves, 0);
      LeavesAreNodes(h, leaves);
      assert leaves[..|leaves|] == leaves;
      var buf, prevLen := FixOdd(leaves, |leaves|);
      assert Level(h, leaves, 0) == buf[..prevLen];
      AddLevel(buf, |leaves|, 0, false, 0);
      for step := 1 to depth
        invariant prevLen <= |buf| && buf[..prevLen] == Level(h, leaves, step - 1)
        invariant ProofsUpTo(step) && fresh(proofs)
      {
        LevelEven(h, leaves, step - 1);
        NextNodes(h, leaves, step - 1);
        buf := HashInPlace(h, buf, prevLen);
        prevLen := prevLen / 2;
        buf, prevLen := FixOdd(buf, prevLen);
        assert buf[..prevLen] == Level(h, leaves, step);
        WidthInLevel(h, leaves, step);
        AddLevel(buf, prevLen, step, false, 0);
      }
      TopPair(h, leaves);
      assert buf[0] == buf[..prevLen][0] && buf[1] == buf[..prevLen][1];
      root := h(buf[0], buf[1]);
      ProofsFinished();
    }

    // Look a digest up and read its proof off the tree.
    method GenerateProof(digest: H) returns (found: bool, proof: Proof<H>)
      requires TreeOk()
      ensures found <==> digest in leaves
      ensures found ==> digest in leafMap && proof == ProofOf(h, leaves, leafMap[digest])
      ensures found ==> leaves[leafMap[digest]] == digest
      ensures found ==> forall j :: leafMap[digest] < j < |leaves| ==> leaves[j] != digest
    {
      hide Nodes, Pad, Up, Depth, Level;
      proof := Proof([], 0);
      if digest !in leafMap {
        return false, proof;
      }
      ghost var i := leafMap[digest];
      var idx := leafMap[digest];
      var power := 1;
      for k := 0 to depth
        invariant idx == Shift(i, k) && power == Pow2(k)
        invariant proof == ProofUpTo(h, leaves, i, k)
      {
        MateInLevel(h, leaves, i, k);
        if idx % 2 == 1 {
          proof := Proof(proof.siblings + [tree[k][idx - 1]], proof.path);
        } else {
          proof := Proof(proof.siblings + [tree[k][idx + 1]], proof.path + power);
        }
        idx, power := idx / 2, 2 * power;
      }
      ProofComplete(h, leaves, i);
      found := true;
    }

    static method Verify(h: PairHash<H>, digest: H, proof: Proof<H>, root: H) returns (ok: bool)
      ensures ok <==> Climb(h, digest, proof.siblings, proof.path) == root
    {
      var hash, path := digest, proof.path;
      for j := 0 to |proof.siblings|
        invariant Climb(h, hash, proof.siblings[j..], path) == Climb(h, digest, proof.siblings, proof.path)
      {
        var n := proof.siblings[j];
        assert proof.siblings[j..][1..] == proof.siblings[j + 1..];
        if path % 2 == 1 {
          hash := h(hash, n);
        } else {
          hash := h(n, hash);
        }
        path := path / 2;
      }
      ok := hash == root;
    }

    // Build the tree and the proofs; a tree needs at least two leaves.
    static method New(h: PairHash<H>, leaves: seq<H>, mode: Mode, runInParallel: bool, numRoutines: nat)
      returns (mt: MerkleTree?<H>)
      requires mode == ModeProofGen ==> !runInParallel
      ensures mt == null <==> |leaves| <= 1
      ensures mt != null ==> fresh(mt) && mt.h == h && mt.leaves == leaves && mt.root == Root(h, leaves)
      ensures mt != null && mode != ModeTreeBuild ==> mt.ProofsOk()
      ensures mt != null && mode != ModeProofGen ==> mt.TreeOk()
    {
      if |leaves| <= 1 {
        return null;
      }
      var t := new MerkleTree<H>(h, leaves);
      if mode == ModeProofGen {
        t.ProofGen();
        return t;
      }
      t.TreeBuild(runInParallel, numRoutines);
      if mode == ModeTreeBuild {
        return t;
      }
      t.ProofsFromTree(runInParallel, numRoutines);
      return t;
    }
  }

  lemma UpPairs<H>(h: PairHash<H>, xs: seq<H>)
    ensures |Up(h, xs)| == |xs| / 2
  {
  }

  lemma UpPair<H>(h: PairHash<H>, xs: seq<H>, q: nat)
    requires 2 * q + 1 < |xs|
    ensures q < |Up(h, xs)| && Up(h, xs)[q] == h(xs[2 * q], xs[2 * q + 1])
  {
  }

  lemma WidthInLevel<H>(h: PairHash<H>, leaves: seq<H>, k: nat)
    ensures Width(|leaves|, k) <= |Level(h, leaves, k)| && |Level(h, leaves, k)| % 2 == 0
    ensures |Level(h, leaves, k)| <= Width(|leaves|, k) + 1
  {
    NodesWidth(h, leaves, k);
    PadWidth(Nodes(h, leaves, k));
  }

  lemma FitsLevel<H>(h: PairHash<H>, leaves: seq<H>, buf: seq<H>, bufLen: nat, step: nat)
    requires Width(|leaves|, step) <= bufLen <= |Level(h, leaves, step)| <= |buf|
    ensures LevelFits(buf, bufLen, step, |leaves|)
  {
    hide Level;
    WidthInLevel(h, leaves, step);
    forall i | 0 <= i < |leaves| ensures Shift(i, step) < bufLen { ShiftInWidth(i, |leaves|, step); }
  }

  lemma LeavesAreNodes<H>(h: PairHash<H>, leaves: seq<H>)
    ensures Nodes(h, leaves, 0) == leaves && Width(|leaves|, 0) == |leaves|
  {
  }

  lemma LevelEven<H>(h: PairHash<H>, leaves: seq<H>, k: nat)
    ensures |Level(h, leaves, k)| % 2 == 0
  {
    PadWidth(Nodes(h, leaves, k));
  }

  lemma NextNodes<H>(h: PairHash<H>, leaves: seq<H>, k: nat)
    requires 2 <= |leaves|
    ensures Nodes(h, leaves, k + 1) == Up(h, Level(h, leaves, k))
    ensures 0 < |Nodes(h, leaves, k + 1)|
  {
    MateInLevel(h, leaves, 0, k + 1);
  }

  // The root is hashed from the two nodes of the last level.
  lemma TopPair<H>(h: PairHash<H>, leaves: seq<H>)
    requires 2 <= |leaves|
    ensures 1 <= Depth(|leaves|)
    ensures var xs := Level(h, leaves, Depth(|leaves|) - 1);
      |xs| == 2 && h(xs[0], xs[1]) == Root(h, leaves)
  {
    hide Pad, Nodes, Depth, Width, Shift;
    var d := Depth(|leaves|);
    TopWidth(|leaves|);
    NodesWidth(h, leaves, d - 1);
    PadWidth(Nodes(h, leaves, d - 1));
    OnlyRoot(h, leaves, 0);
    NextNodes(h, leaves, d - 1);
  }

  /* ---- one level of proofs, pair by pair ---- */

  // The buffer holds the level of all n leaves at this step, padding included.
  ghost predicate LevelFits<H>(buf: seq<H>, bufLen: nat, step: nat, n: nat) {
    && bufLen <= |buf|
    && (bufLen % 2 == 1 ==> bufLen < |buf|)
    && forall i :: 0 <= i < n ==> Shift(i, step) < bufLen
  }

  ghost predicate LevelAdded<H>(before: seq<Proof<H>>, after: seq<Proof<H>>, buf: seq<H>, step: nat) {
    && |after| == |before|
    && forall i :: 0 <= i < |after| ==> Mate(Shift(i, step)) < |buf| && after[i] == AddNode(before[i], buf, i, step)
  }

  // Whether leaf i's pair is done when the routines before r have finished and
  // routine r has come to pair q.
  predicate PairDone(i: nat, step: nat, routines: nat, r: nat, q: nat)
    requires 0 < routines
  {
    var p := Shift(i, step) / 2;
    p % routines < r || (p % routines == r && p < q)
  }

  ghost predicate Progress<H>(ps: seq<Proof<H>>, orig: seq<Proof<H>>, buf: seq<H>, step: nat, routines: nat, r: nat,
                              q: nat)
    requires 0 < routines
  {
    && |ps| == |orig|
    && forall i :: 0 <= i < |ps| ==>
         && Mate(Shift(i, step)) < |buf|
         && ps[i] == if PairDone(i, step, routines, r, q) then AddNode(orig[i], buf, i, step) else orig[i]
  }

  lemma ProgressStart<H>(orig: seq<Proof<H>>, buf: seq<H>, bufLen: nat, step: nat, routines: nat)
    requires 0 < routines && LevelFits(buf, bufLen, step, |orig|)
    ensures Progress(orig, orig, buf, step, routines, 0, 0)
  {
  }

  lemma ProgressEnd<H>(ps: seq<Proof<H>>, orig: seq<Proof<H>>, buf: seq<H>, step: nat, routines: nat)
    requires 0 < routines && Progress(ps, orig, buf, step, routines, routines, routines)
    ensures LevelAdded(orig, ps, buf, step)
  {
    forall i | 0 <= i < |ps| ensures PairDone(i, step, routines, routines, routines) {}
  }

  lemma ProgressStep<H>(before: seq<Proof<H>>, after: seq<Proof<H>>, orig: seq<Proof<H>>, buf: seq<H>, step: nat,
                        routines: nat, r: nat, q: nat)
    requires 0 < routines && q % routines == r && |before| == |after|
    requires Progress(before, orig, buf, step, routines, r, q)
    requires forall i :: 0 <= i < |after| ==>
      var s := Shift(i, step);
      if s == 2 * q || s == 2 * q + 1 then Mate(s) < |buf| && after[i] == AddNode(before[i], buf, i, step)
      else after[i] == before[i]
    ensures Progress(after, orig, buf, step, routines, r, q + routines)
  {
    hide Shift, AddNode;
    forall i | 0 <= i < |after|
      ensures PairDone(i, step, routines, r, q + routines) <==>
        PairDone(i, step, routines, r, q) || Shift(i, step) / 2 == q
      ensures Shift(i, step) / 2 == q <==> Shift(i, step) == 2 * q || Shift(i, step) == 2 * q + 1
    {
      StrideStep(routines, q, Shift(i, step) / 2);
    }
  }

  lemma PairFits<H>(buf: seq<H>, bufLen: nat, step: nat, n: nat, q: nat)
    requires LevelFits(buf, bufLen, step, n) && 2 * q < bufLen
    ensures 2 * q + 1 < |buf|
  {
  }

  lemma ModBelow(p: nat, n: nat)
    requires 0 < n
    ensures p % n <= p
  {
    if p < n { StrideStep(n, p, p); } else { assert p % n < n <= p; }
  }

  lemma ProgressDone<H>(ps: seq<Proof<H>>, orig: seq<Proof<H>>, buf: seq<H>, bufLen: nat, step: nat, routines: nat,
                        r: nat, q: nat)
    requires 0 < routines && bufLen <= 2 * q && LevelFits(buf, bufLen, step, |ps|)
    requires Progress(ps, orig, buf, step, routines, r, q)
    ensures Progress(ps, orig, buf, step, routines, r + 1, r + 1)
  {
    hide Shift, AddNode;
    forall i | 0 <= i < |ps| ensures PairDone(i, step, routines, r, q) <==> PairDone(i, step, routines, r + 1, r + 1) {
      var p := Shift(i, step) / 2;
      assert p < q;
      ModBelow(p, routines);
    }
  }
}
