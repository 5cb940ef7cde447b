/**
  When a range is accepted although some of its fragments have been claimed.
 */
module FragmentOverlap {
  import opened Basics
  import opened Wire
  import opened MerkleSpec
  import opened Fragments
  import opened FragmentClaims

  ghost function ClaimsOf(list: seq<Storage>): (claims: seq<bool>)
    ensures |claims| == |list|
  {
    seq(|list|, j requires 0 <= j < |list| => list[j].claimed)
  }

  // Every unclaimed fragment of the range can be checked.
  ghost predicate AllRefill(s: Sender, list: seq<Storage>, start: nat, end: nat)
    requires s.Ok() && start < end <= |list| == s.count
  {
    forall k: nat :: start <= k < end && !list[k].claimed ==> Refills(s, ClaimsOf(list), start, k)
  }

  lemma StartsOk(s: Sender, claims: seq<bool>, start: nat)
    requires s.Ok() && start < |claims| == s.count
    ensures MemOk(s, claims, start, start, StartMemory(s.depth)) && MemFits(s, start, start, StartMemory(s.depth))
  {
    hide Sender.Ok;
  }

  // Then the range is accepted, and exactly its unclaimed slots are filled, with
  // every proof and every fragment as it was sent.
  lemma AcceptedIfRefills(s: Sender, list: seq<Storage>, start: nat, end: nat)
    requires s.Ok() && start < end <= |list| == s.count && AllRefill(s, list, start, end)
    ensures ReceiptOf(s, list, start, end) == Receipt(Accepted, Filled(s, list, start, end))
  {
    hide Sender.Ok, Take, ReceiptOf, Rest, MemOk, Filled, Refills;
    ReceiptIs(s, list, start, end);
    StartsOk(s, ClaimsOf(list), start);
    TakeAccepts(s, ClaimsOf(list), start, start, end, StartMemory(s.depth), list);
  }

  // A stream of the sender is never taken for one that ends early, and whatever
  // the verdict, only the sender's fragments come in.
  lemma ReceivedHonest(s: Sender, list: seq<Storage>, start: nat, end: nat)
    requires s.Ok() && start < end <= |list| == s.count
    ensures var r := ReceiptOf(s, list, start, end); r.verdict != Threw && HonestChange(s, list, r.list, start, end)
  {
    hide Sender.Ok, Take, ReceiptOf, Rest, HonestChange, MemFits, MemOk;
    ReceiptIs(s, list, start, end);
    StartsOk(s, ClaimsOf(list), start);
    TakeHonest(s, start, start, end, StartMemory(s.depth), list);
  }

  // The first proof of fragment k, as it is completed, climbs through no collision.
  ghost predicate HeadCollisionFree(s: Sender, leaves: seq<Digest>, claims: seq<bool>, start: nat, k: nat)
    requires s.Ok() && start <= k < |claims| == s.count
  {
    var piece := HeadRead(s, claims, start, k);
    CollisionFree(s.h, leaves, 0, s.leafHash(piece.fragment), piece.proof.siblings, piece.proof.path)
  }

  // No fragment that cannot be checked slips through by a collision of the hash.
  ghost predicate NoStaleCollision(s: Sender, leaves: seq<Digest>, list: seq<Storage>, start: nat, end: nat)
    requires s.Ok() && start < end <= |list| == s.count
  {
    forall k: nat :: start < k < end && !list[k].claimed && !Refills(s, ClaimsOf(list), start, k) ==>
      HeadCollisionFree(s, leaves, ClaimsOf(list), start, k)
  }

  // A proof that is completed wrongly does not verify.
  lemma VerifiesOnlyIfRefills(h: PairHash<Digest>, leafHash: LeafHash, fragments: seq<Bytes>, instances: nat,
                              claims: seq<bool>, start: nat, k: nat)
    requires 0 < instances && Fits(fragments) && |fragments| == Mul(|claims|, instances) && start < k < |claims|
    ensures var s := SenderOf(h, leafHash, fragments, instances, |claims|);
      && s.Ok()
      && (HeadCollisionFree(s, LeavesOf(leafHash, fragments), claims, start, k) ==>
            Verifies(h, leafHash, s.root, HeadRead(s, claims, start, k)) ==> Refills(s, claims, start, k))
  {
    hide Sender.Ok, Mul, Root, Depth, CollisionFree, Climb, Refills, ProofOf, HeadCount, BaseAt;
    SenderOk(h, leafHash, fragments, instances, |claims|);
    var s, leaves := SenderOf(h, leafHash, fragments, instances, |claims|), LeavesOf(leafHash, fragments);
    FirstStep(s, k);
    PieceFacts(s, s.First(k));
    RefillsIff(s, claims, start, k);
    var e, piece := s.First(k), HeadRead(s, claims, start, k);
    if HeadCollisionFree(s, leaves, claims, start, k) && Verifies(h, leafHash, s.root, piece) {
      PositionBinding(h, leaves, e, leafHash(piece.fragment), piece.proof.siblings);
      SuffixOf(s.Siblings(e), BaseAt(s, claims, start, k).siblings, HeadCount(s, start, k));
    }
  }

  lemma SuffixOf(p: seq<Digest>, base: seq<Digest>, c: nat)
    requires c <= |p| == |base| && p[..c] + base[c..] == p
    ensures base[c..] == p[c..]
  {
    assert (p[..c] + base[c..])[c..] == base[c..];
  }

  // The first fragment that cannot be checked.
  lemma {:induction false} FirstBad(s: Sender, list: seq<Storage>, start: nat, end: nat, i: nat) returns (bad: nat)
    requires s.Ok() && start <= i <= end <= |list| == s.count && start < end
    requires forall k: nat :: start <= k < i && !list[k].claimed ==> Refills(s, ClaimsOf(list), start, k)
    requires !AllRefill(s, list, start, end)
    ensures i <= bad < end && !list[bad].claimed && !Refills(s, ClaimsOf(list), start, bad)
    ensures forall k: nat :: start <= k < bad && !list[k].claimed ==> Refills(s, ClaimsOf(list), start, k)
    decreases end - i
  {
    hide Sender.Ok, Refills;
    if !list[i].claimed && !Refills(s, ClaimsOf(list), start, i) {
      bad := i;
    } else {
      bad := FirstBad(s, list, start, end, i + 1);
    }
  }

  // The exact condition: a range of the sender is accepted if and only if every
  // unclaimed fragment of it can be checked. Otherwise it is rejected.
  lemma AcceptedIff(h: PairHash<Digest>, leafHash: LeafHash, fragments: seq<Bytes>, instances: nat, list: seq<Storage>,
                    start: nat, end: nat)
    requires 0 < instances && Fits(fragments) && |fragments| == Mul(|list|, instances) && start < end <= |list|
    ensures var s := SenderOf(h, leafHash, fragments, instances, |list|);
      && s.Ok()
      && (NoStaleCollision(s, LeavesOf(leafHash, fragments), list, start, end) ==>
            ReceiptOf(s, list, start, end).verdict == if AllRefill(s, list, start, end) then Accepted else Rejected)
  {
    hide Sender.Ok, Mul, SenderOf, Refills, Take, ReceiptOf, Verifies, HeadCollisionFree, Filled, HeadRead, MemOk, Rest;
    SenderOk(h, leafHash, fragments, instances, |list|);
    var s, claims := SenderOf(h, leafHash, fragments, instances, |list|), ClaimsOf(list);
    SenderFields(h, leafHash, fragments, instances, |list|);
    if NoStaleCollision(s, LeavesOf(leafHash, fragments), list, start, end) {
      if AllRefill(s, list, start, end) {
        AcceptedIfRefills(s, list, start, end);
      } else {
        var bad := FirstBad(s, list, start, end, start);
        StartRefills(s, claims, start);
        VerifiesOnlyIfRefills(h, leafHash, fragments, instances, claims, start, bad);
        assert HeadCollisionFree(s, LeavesOf(leafHash, fragments), claims, start, bad);
        ReceiptIs(s, list, start, end);
        StartsOk(s, claims, start);
        TakeRejects(s, claims, start, start, end, StartMemory(s.depth), list, bad);
      }
    }
  }

  lemma SenderFields(h: PairHash<Digest>, leafHash: LeafHash, fragments: seq<Bytes>, instances: nat, count: nat)
    requires 2 <= |fragments|
    ensures var s := SenderOf(h, leafHash, fragments, instances, count);
      && s.h == h && s.leafHash == leafHash && s.count == count && s.instances == instances
      && s.root == Root(h, LeavesOf(leafHash, fragments))
  {
  }

  lemma StartRefills(s: Sender, claims: seq<bool>, start: nat)
    requires s.Ok() && start < |claims| == s.count
    ensures Refills(s, claims, start, start)
  {
  }

  /* ---- claims that do no harm ---- */

  // After an unclaimed fragment, at most one claimed fragment in a row.
  ghost predicate ShortRuns(claims: seq<bool>, start: nat, end: nat)
    requires start <= end <= |claims|
  {
    forall k: nat :: start <= k < end && !claims[k] ==>
      var u := LastUnclaimed(claims, start, k); u.None? || k <= u.value + 2
  }

  lemma ShortRunRefills(s: Sender, claims: seq<bool>, start: nat, k: nat)
    requires s.Ok() && start <= k < |claims| == s.count
    requires var u := LastUnclaimed(claims, start, k); u.None? || k <= u.value + 2
    ensures Refills(s, claims, start, k)
  {
    hide Sender.Ok, LastSiblings, HeadSiblings, HeadCount, SlotCount, Refills, Overlay;
    RefillsIff(s, claims, start, k);
    HeadFacts(s, start, k);
    var u := LastUnclaimed(claims, start, k);
    if u.Some? && u.value == k - 2 {
      StartsTrue(s, start, k - 1, LastSiblings(s, k - 2));
    }
  }

  lemma ShortRunsAccepted(s: Sender, list: seq<Storage>, start: nat, end: nat)
    requires s.Ok() && start < end <= |list| == s.count && ShortRuns(ClaimsOf(list), start, end)
    ensures ReceiptOf(s, list, start, end) == Receipt(Accepted, Filled(s, list, start, end))
  {
    hide Sender.Ok, Refills, ReceiptOf, Filled;
    forall k: nat | start <= k < end && !list[k].claimed ensures Refills(s, ClaimsOf(list), start, k) {
      assert !ClaimsOf(list)[k];
      ShortRunRefills(s, ClaimsOf(list), start, k);
    }
    AcceptedIfRefills(s, list, start, end);
  }

  lemma {:induction false} NoClaimsShort(claims: seq<bool>, start: nat, end: nat)
    requires start <= end <= |claims| && forall k :: start <= k < end ==> !claims[k]
    ensures ShortRuns(claims, start, end)
  {
  }

  // The round trip: for every range of the fragments of a tree that holds no
  // claimed fragment, the receiver rebuilds every full proof and every fragment,
  // and accepts them.
  lemma TransferRoundTrip(h: PairHash<Digest>, leafHash: LeafHash, fragments: seq<Bytes>, instances: nat,
                          list: seq<Storage>, start: nat, end: nat)
    requires 0 < instances && Fits(fragments) && |fragments| == Mul(|list|, instances) && start < end <= |list|
    requires forall k :: start <= k < end ==> !list[k].claimed
    ensures var s := SenderOf(h, leafHash, fragments, instances, |list|);
      s.Ok() && ReceiptOf(s, list, start, end) == Receipt(Accepted, Filled(s, list, start, end))
  {
    hide Sender.Ok, Mul, ReceiptOf, Filled, ShortRuns;
    SenderOk(h, leafHash, fragments, instances, |list|);
    NoClaimsShort(ClaimsOf(list), start, end);
    ShortRunsAccepted(SenderOf(h, leafHash, fragments, instances, |list|), list, start, end);
  }
}
