/**
  An overlap that makes an honest stream fail: eight fragments, of which 4 and 5
  have been received before the range of all eight arrives.
 */
module FragmentOverlapExample {
  import opened Basics
  import opened Wire
  import opened MerkleSpec
  import opened Fragments
  import opened FragmentClaims
  import opened FragmentOverlap

  /* ---- for every hash ---- */

  ghost predicate Claims45(list: seq<Storage>) {
    |list| == 8 && forall j :: 0 <= j < 8 ==> (list[j].claimed <==> 4 <= j < 6)
  }

  lemma DepthOfEight()
    ensures Depth(8) == 3
  {
    assert Depth(4) == 2;
  }

  // The siblings that matter: 4 and 5 share all but the first, 5 and 6 the last,
  // and the last of 3 is the other child of the root.
  lemma TopSiblings(h: PairHash<Digest>, leaves: seq<Digest>, s3: seq<Digest>, s4: seq<Digest>, s5: seq<Digest>,
                    s6: seq<Digest>)
    requires |leaves| == 8 && s3 == ProofOf(h, leaves, 3).siblings && s4 == ProofOf(h, leaves, 4).siblings
    requires s5 == ProofOf(h, leaves, 5).siblings && s6 == ProofOf(h, leaves, 6).siblings
    ensures |s3| == |s4| == |s5| == |s6| == 3 && 2 <= |Level(h, leaves, 2)|
    ensures s4[1] == s5[1] && s4[2] == s5[2] == s6[2] == Level(h, leaves, 2)[0] && s3[2] == Level(h, leaves, 2)[1]
  {
    hide Level, SiblingsFrom, Depth;
    DepthOfEight();
    assert Shift(4, 1) == 2 && Shift(5, 1) == 2 && Shift(3, 2) == 0 && Shift(4, 2) == 1 && Shift(5, 2) == 1 &&
      Shift(6, 2) == 1;
    SiblingsCount(h, leaves, 3, 0, 3);
    SiblingsCount(h, leaves, 4, 0, 3);
    SiblingsCount(h, leaves, 5, 0, 3);
    SiblingsCount(h, leaves, 6, 0, 3);
    SiblingAt(h, leaves, 4, 0, 3, 1);
    SiblingAt(h, leaves, 5, 0, 3, 1);
    SiblingAt(h, leaves, 3, 0, 3, 2);
    SiblingAt(h, leaves, 4, 0, 3, 2);
    SiblingAt(h, leaves, 5, 0, 3, 2);
    SiblingAt(h, leaves, 6, 0, 3, 2);
  }

  lemma CannotCheckSix(s: Sender, claims: seq<bool>)
    requires s.Ok() && s.count == |claims| == 8 && s.instances == 1 && s.depth == 3
    requires claims[4] && claims[5] && !claims[3]
    requires LastSiblings(s, 4)[1..] == LastSiblings(s, 5)[1..]
    requires LastSiblings(s, 5)[2] == HeadSiblings(s, 6)[2] != LastSiblings(s, 3)[2]
    ensures !Refills(s, claims, 0, 6)
  {
    hide Sender.Ok, Fresh, MaxCount;
    LastThree(claims);
    FirstStep(s, 5);
    FirstStep(s, 6);
    PieceFacts(s, 5);
    MulOne(s, 3);
    MulOne(s, 4);
    MulOne(s, 5);
    MulOne(s, 6);
    MaxCountStep(s, s.First(0), s.First(5), 1);
    var a, b, c := LastSiblings(s, 4), LastSiblings(s, 5), HeadSiblings(s, 6);
    assert a[1] == a[1..][0] && a[2] == a[1..][1] && b[1] == b[1..][0] && b[2] == b[1..][1];
    var m := Max(SlotCount(s, 0, 5), HeadCount(s, 0, 6));
    assert m <= 2;
    assert LastSiblings(s, 3)[m..][2 - m] != c[m..][2 - m];
  }

  lemma MulOne(s: Sender, i: nat)
    requires s.instances == 1
    ensures s.First(i) == i && s.First(i + 1) == i + 1 && s.First(0) == 0
  {
  }

  lemma FollowsUnclaimed(s: Sender, claims: seq<bool>, k: nat)
    requires s.Ok() && |claims| == s.count && 0 < k < |claims| && !claims[k - 1]
    ensures Refills(s, claims, 0, k)
  {
  }

  // Eight fragments, 4 and 5 received before: whatever the hash, the stream of
  // all eight is rejected if the two children of the root differ and the wrongly
  // completed proof of fragment 6 does not pass by a collision.
  lemma OverlapRejectedFor(h: PairHash<Digest>, leafHash: LeafHash, fragments: seq<Bytes>, list: seq<Storage>)
    requires Fits(fragments) && |fragments| == 8 && Claims45(list)
    ensures var s, leaves := SenderOf(h, leafHash, fragments, 1, 8), LeavesOf(leafHash, fragments);
      && s.Ok() && 2 <= |Level(h, leaves, 2)|
      && (Level(h, leaves, 2)[0] != Level(h, leaves, 2)[1] && HeadCollisionFree(s, leaves, ClaimsOf(list), 0, 6) ==>
            ReceiptOf(s, list, 0, 8).verdict == Rejected)
  {
    hide Sender.Ok, Root, ProofOf, Depth, Level, Refills, ReceiptOf, HeadCollisionFree;
    var s, leaves, claims := SenderOf(h, leafHash, fragments, 1, 8), LeavesOf(leafHash, fragments), ClaimsOf(list);
    SenderOk(h, leafHash, fragments, 1, 8);
    DepthOfEight();
    MulOne(s, 3);
    MulOne(s, 4);
    MulOne(s, 5);
    MulOne(s, 6);
    var s3, s4, s5, s6 := s.Siblings(3), s.Siblings(4), s.Siblings(5), s.Siblings(6);
    TopSiblings(h, leaves, s3, s4, s5, s6);
    if Level(h, leaves, 2)[0] != Level(h, leaves, 2)[1] && HeadCollisionFree(s, leaves, claims, 0, 6) {
      assert s4[1..] == [s4[1], s4[2]] && s5[1..] == [s5[1], s5[2]];
      CannotCheckSix(s, claims);
      forall k: nat | 0 < k < 8 && !list[k].claimed && k != 6 ensures Refills(s, claims, 0, k) {
        FollowsUnclaimed(s, claims, k);
      }
      assert !AllRefill(s, list, 0, 8) && NoStaleCollision(s, leaves, list, 0, 8);
      AcceptedIff(h, leafHash, fragments, 1, list, 0, 8);
    }
  }

  /* ---- one input ---- */

  function Mark(n: nat): Digest
    requires n < 256
  {
    [n] + seq(HASH_LEN - 1, i => 0)
  }

  // A hash that keeps its left input; fragment i has i + 1 bytes.
  function LeftHash(a: Digest, b: Digest): Digest {
    a
  }

  function LengthHash(f: Bytes): Digest {
    Mark(|f| % 256)
  }

  function EightFragments(): seq<Bytes> {
    seq(8, (i: nat) => seq(i + 1, j => 0))
  }

  function EightLeaves(): (l: seq<Digest>)
    ensures |l| == 8
  {
    [Mark(1), Mark(2), Mark(3), Mark(4), Mark(5), Mark(6), Mark(7), Mark(8)]
  }

  lemma Leaves()
    ensures LeavesOf(LengthHash, EightFragments()) == EightLeaves()
  {
    hide Mark;
    var leaves := LeavesOf(LengthHash, EightFragments());
    forall i | 0 <= i < 8 ensures leaves[i] == EightLeaves()[i] {
      assert |EightFragments()[i]| == i + 1;
    }
  }

  lemma Levels()
    ensures var l := EightLeaves();
      && Depth(8) == 3 && Level(LeftHash, l, 0) == l
      && Level(LeftHash, l, 1) == [l[0], l[2], l[4], l[6]] && Level(LeftHash, l, 2) == [l[0], l[4]]
      && Nodes(LeftHash, l, 3) == [l[0]]
  {
    hide Mark;
    var l := EightLeaves();
    assert Depth(4) == 2;
    assert Nodes(LeftHash, l, 0) == l;
    assert Nodes(LeftHash, l, 1) == [l[0], l[2], l[4], l[6]];
    assert Nodes(LeftHash, l, 2) == [l[0], l[4]];
    assert Nodes(LeftHash, l, 3) == [l[0]];
  }

  lemma Proofs(i: nat)
    requires i < 8
    ensures var l := EightLeaves();
      && ProofOf(LeftHash, l, i).siblings == [l[Mate(i)], l[2 * Mate(i / 2)], l[4 * Mate(i / 4)]]
      && ProofOf(LeftHash, l, 6).path == 1 && Root(LeftHash, l) == l[0]
  {
    hide Mark, Level, Nodes;
    Levels();
    var l := EightLeaves();
    assert Shift(i, 1) == i / 2 && Shift(i, 2) == i / 4;
    assert SiblingsFrom(LeftHash, l, i, 3, 3) == [];
    assert SiblingsFrom(LeftHash, l, i, 2, 3) == [l[4 * Mate(i / 4)]];
    assert SiblingsFrom(LeftHash, l, i, 1, 3) == [l[2 * Mate(i / 2)], l[4 * Mate(i / 4)]];
    assert PathFrom(6, 2, 3) == 0 && PathFrom(6, 1, 3) == 0;
  }

  ghost function EightSender(): Sender {
    SenderOf(LeftHash, LengthHash, EightFragments(), 1, 8)
  }

  lemma EightOk()
    ensures Fits(EightFragments()) && EightSender().Ok()
  {
    hide Limit, Sender.Ok;
    assert 8 < Limit(4) by { LimitIsPow2(4); Pow2Monotone(4, 32); }
    SenderOk(LeftHash, LengthHash, EightFragments(), 1, 8);
  }

  // Proofs of the fragments around the claimed ones.
  lemma EightProofs(i: nat)
    requires i < 8
    ensures var s, l := EightSender(), EightLeaves();
      && s.h == LeftHash && s.count == 8 && s.root == l[0] && s.depth == 3 && s.instances == 1 && |s.pieces| == 8
      && s.Siblings(i) == [l[Mate(i)], l[2 * Mate(i / 2)], l[4 * Mate(i / 4)]]
      && s.leafHash(s.pieces[i].fragment) == l[i] && s.pieces[6].proof.path == 1
  {
    hide Root, ProofOf, Depth, Mark, LengthHash, Mate, EightLeaves, Level, Nodes;
    Leaves();
    DepthOfEight();
    Proofs(i);
    assert LeavesOf(LengthHash, EightFragments())[i] == LengthHash(EightFragments()[i]);
  }

  lemma EightFirst(i: nat)
    ensures EightSender().First(i) == i
  {
  }

  lemma EightSiblings()
    ensures var s, l := EightSender(), EightLeaves();
      && s.Ok() && s.count == 8
      && LastSiblings(s, 3) == [l[2], l[0], l[4]] && LastSiblings(s, 5) == [l[4], l[6], l[0]]
      && HeadSiblings(s, 6) == [l[7], l[4], l[0]]
  {
    hide Sender.Ok, EightSender, Mark, EightLeaves;
    EightOk();
    EightFirst(4);
    EightFirst(6);
    EightProofs(3);
    EightProofs(5);
    EightProofs(6);
    assert Mate(3) == 2 && Mate(5) == 4 && Mate(6) == 7 && Mate(1) == 0 && Mate(2) == 3 && Mate(0) == 1;
  }

  lemma FourToSix()
    ensures var s, l := EightSender(), EightLeaves();
      && |s.pieces| == 8 && s.count == 8 && s.instances == 1
      && s.Siblings(4) == [l[5], l[6], l[0]] && s.Siblings(5) == [l[4], l[6], l[0]]
      && s.Siblings(6) == [l[7], l[4], l[0]]
  {
    hide Sender.Ok, EightSender, Mark, EightLeaves;
    EightProofs(4);
    EightProofs(5);
    EightProofs(6);
    assert Mate(4) == 5 && Mate(5) == 4 && Mate(6) == 7 && Mate(2) == 3 && Mate(3) == 2 && Mate(1) == 0;
  }

  lemma CountFive(s: Sender)
    requires s == EightSender()
    ensures s.Ok() && s.count == 8 && SlotCount(s, 0, 5) == 1
  {
    hide Sender.Ok, EightSender, Mark, EightLeaves, Fresh, MaxCount, Verifies, Limit;
    EightOk();
    EightFirst(0);
    EightFirst(5);
    FourToSix();
    Different();
    PieceFacts(s, 5);
    MaxCountStep(s, 0, 5, 1);
    FreshUnique(s.Siblings(4), s.Siblings(5), 1);
  }

  lemma CountSix(s: Sender)
    requires s == EightSender()
    ensures s.Ok() && s.count == 8 && HeadCount(s, 0, 6) == 2
  {
    hide Sender.Ok, EightSender, Mark, EightLeaves, Fresh, Verifies, Limit;
    EightOk();
    EightFirst(0);
    EightFirst(6);
    FourToSix();
    Different();
    PieceFacts(s, 6);
    FreshUnique(s.Siblings(5), s.Siblings(6), 2);
  }

  lemma Different()
    ensures var l := EightLeaves(); forall i, j :: 0 <= i < j < 8 ==> l[i] != l[j]
  {
    var l := EightLeaves();
    forall i | 0 <= i < 8 ensures l[i][0] == i + 1 {}
  }

  // Fragment 6 is completed with the sibling of fragment 3 at the top.
  lemma WrongProof(claims: seq<bool>)
    requires |claims| == 8 && claims[4] && claims[5] && !claims[3]
    ensures var s, l := EightSender(), EightLeaves();
      && s.Ok() && s.count == 8
      && HeadRead(s, claims, 0, 6).proof == Proof([l[7], l[4], l[4]], 1)
  {
    hide Sender.Ok, EightSender, EightLeaves, LastSiblings, HeadSiblings, HeadCount, SlotCount, Verifies;
    EightOk();
    EightFirst(6);
    EightProofs(6);
    EightSiblings();
    var s, l := EightSender(), EightLeaves();
    CountFive(s);
    CountSix(s);
    assert LastUnclaimed(claims, 0, 6) == Some(3) by { LastThree(claims); }
    assert s.Siblings(6)[..2] == [l[7], l[4]];
    assert BaseAt(s, claims, 0, 6).siblings[2..] == [l[4]];
  }

  lemma WrongSibling(claims: seq<bool>)
    requires |claims| == 8 && claims[4] && claims[5] && !claims[3]
    ensures var s, l := EightSender(), EightLeaves();
      && s.Ok() && s.count == 8
      && HeadRead(s, claims, 0, 6).proof == Proof([l[7], l[4], l[4]], 1)
      && !Verifies(s.h, s.leafHash, s.root, HeadRead(s, claims, 0, 6))
  {
    hide Sender.Ok, EightLeaves, BaseAt, HeadCount, Overlay, Climb;
    WrongProof(claims);
    EightFirst(6);
    EightProofs(6);
    Different();
    var l := EightLeaves();
    ClimbLeft(l[6], l[7], l[4], l[4]);
  }

  lemma LastThree(claims: seq<bool>)
    requires |claims| == 8 && claims[4] && claims[5] && !claims[3]
    ensures LastUnclaimed(claims, 0, 6) == Some(3)
  {
    assert LastUnclaimed(claims, 0, 4) == Some(3);
    assert LastUnclaimed(claims, 0, 5) == Some(3);
  }

  lemma ClimbLeft(d: Digest, a: Digest, b: Digest, c: Digest)
    ensures Climb(LeftHash, d, [a, b, c], 1) == c
  {
    assert [a, b, c][1..] == [b, c] && [b, c][1..] == [c] && [c][1..] == [];
    assert Climb(LeftHash, b, [c], 0) == c;
    assert Climb(LeftHash, d, [b, c], 0) == c;
  }

  lemma {:induction false} EasyBefore(s: Sender, claims: seq<bool>, k: nat)
    requires s.Ok() && |claims| == s.count && k < |claims| && forall j :: 0 <= j < k ==> !claims[j]
    ensures Refills(s, claims, 0, k)
  {
  }

  lemma RejectedWithClaims(s: Sender, list: seq<Storage>)
    requires s == EightSender() && Claims45(list)
    ensures s.Ok() && s.count == 8 && ReceiptOf(s, list, 0, 8).verdict == Rejected
  {
    hide Sender.Ok, EightSender, ReceiptOf, Take, Refills, Verifies, HeadRead, MemOk, Rest;
    var claims := ClaimsOf(list);
    WrongSibling(claims);
    ReceiptIs(s, list, 0, 8);
    StartsOk(s, claims, 0);
    forall k: nat | k < 6 && !claims[k] ensures Refills(s, claims, 0, k) {
      EasyBefore(s, claims, k);
    }
    TakeRejects(s, claims, 0, 0, 8, StartMemory(s.depth), list, 6);
  }

  // Fragments 4 and 5 arrive first and are accepted; then the range of all
  // eight, which the sender has written correctly, is rejected.
  lemma OverlapRejected()
    ensures var s, empty := EightSender(), seq(8, j => Storage(false, [], []));
      && s.Ok() && s.count == 8
      && ReceiptOf(s, empty, 4, 6).verdict == Accepted && |ReceiptOf(s, empty, 4, 6).list| == 8
      && ReceiptOf(s, ReceiptOf(s, empty, 4, 6).list, 0, 8).verdict == Rejected
  {
    hide Sender.Ok, EightSender, ReceiptOf, SentSlot;
    var s, empty := EightSender(), seq(8, j => Storage(false, [], []));
    EightOk();
    EightProofs(0);
    NoClaimsShort(ClaimsOf(empty), 4, 6);
    ShortRunsAccepted(s, empty, 4, 6);
    var list := Filled(s, empty, 4, 6);
    forall j: nat | j < 8 ensures list[j].claimed <==> 4 <= j < 6 {
      if 4 <= j < 6 { SentClaimed(s, j); }
    }
    RejectedWithClaims(s, list);
  }
}
