/**
  From one sender to one receiver: whatever ranges arrive, overlapping or not and
  in whatever order, only fragments of the sender come in, and enough of them
  give exactly the message that was cut.
 */
module FragmentTransfer {
  import opened Basics
  import opened Wire
  import opened MerkleSpec
  import opened Fragments
  import opened FragmentClaims
  import opened FragmentOverlap
  import opened Reassembly
  import opened FragmentContext

  /* ---- what a receiver holds ---- */

  // Every slot is empty or holds fragments of the sender.
  ghost predicate HoldsSome(s: Sender, list: seq<Storage>)
    requires s.Ok()
  {
    |list| == s.count && forall j: nat :: j < |list| ==> list[j].encodeFragment == [] || HonestSlot(s, j, list[j])
  }

  // The slots that hold all their fragments.
  ghost function Complete(list: seq<Storage>): set<int> {
    set j | 0 <= j < |list| && list[j].encodeFragment != [] && [] !in list[j].encodeFragment
  }

  // The sender's pieces are the fragments of the message.
  ghost predicate Carries(s: Sender, code: Code, message: Bytes) {
    && s.Ok() && code.Encodes() && s.count == code.shards && CanCut(code, message, s.instances)
    && exists fragments :: Holds(code, message, s.instances, fragments) && FragmentsOf(s, fragments)
  }

  ghost predicate FragmentsOf(s: Sender, fragments: seq<Bytes>) {
    |fragments| == |s.pieces| && forall e :: 0 <= e < |fragments| ==> s.pieces[e].fragment == fragments[e]
  }

  lemma SentIsEncoded(s: Sender, code: Code, message: Bytes, i: nat, j: nat)
    requires Carries(s, code, message) && i < s.instances && j < s.count
    ensures Encodable(code, message, s.instances, i)
    ensures var encoded := code.encode(Chunk(message, s.instances, i).value).value;
      |encoded| == s.count && encoded[j] == SentFragment(s, j, i) && encoded[j] != []
  {
    hide Sender.Ok, Mul, Chunk;
    var fragments :| Holds(code, message, s.instances, fragments) && FragmentsOf(s, fragments);
    assert Column(code, message, s.instances, fragments, i, code.shards);
    var encoded := code.encode(Chunk(message, s.instances, i).value).value;
    assert encoded[j] == fragments[At(j, i, s.instances)];
    assert encoded[j] in encoded;
    FirstStep(s, j);
  }

  /* ---- enough slots give the message ---- */

  lemma SubsetSize(a: set<int>, b: set<int>)
    requires a <= b
    ensures |a| <= |b|
  {
    assert a + (b - a) == b;
  }

  lemma ViewIsPart(s: Sender, code: Code, message: Bytes, list: seq<Storage>, i: nat)
    requires Carries(s, code, message) && HoldsSome(s, list) && i < s.instances
    ensures Encodable(code, message, s.instances, i)
    ensures PartOf(ViewAt(list, i), code.encode(Chunk(message, s.instances, i).value).value)
    ensures Complete(list) <= Present(ViewAt(list, i))
  {
    hide Sender.Ok, Chunk, Carries, SentFragment, Code.Encodes;
    CarriesCut(s, code, message);
    assert Encodable(code, message, s.instances, i);
    EncodesSize(code, Chunk(message, s.instances, i).value);
    var view, encoded := ViewAt(list, i), code.encode(Chunk(message, s.instances, i).value).value;
    forall j: nat | j < |list|
      ensures |encoded| == |view| && (view[j] == [] || view[j] == encoded[j]) && (j in Complete(list) ==> view[j] != [])
    {
      SentIsEncoded(s, code, message, i, j);
      if list[j].encodeFragment != [] {
        assert HonestSlot(s, j, list[j]);
        assert list[j].encodeFragment[i] in list[j].encodeFragment;
      }
    }
  }

  lemma CarriesCut(s: Sender, code: Code, message: Bytes)
    requires Carries(s, code, message)
    ensures s.Ok() && 0 < s.instances && CanCut(code, message, s.instances) && code.Encodes() && s.count == code.shards
  {
  }

  lemma ViewsHold(s: Sender, code: Code, message: Bytes, list: seq<Storage>)
    requires Carries(s, code, message) && HoldsSome(s, list) && |Complete(list)| >= code.dataShards
    ensures Views(code, message, ViewsOf(list, s.instances))
  {
    hide Sender.Ok, Carries, Chunk, ViewAt, Code.Encodes, HoldsSome, PartOf, Present, Complete;
    CarriesCut(s, code, message);
    var views := ViewsOf(list, s.instances);
    forall i: nat | i < |views| ensures ViewOk(code, Chunk(message, |views|, i), views[i]) {
      ViewIsPart(s, code, message, list, i);
      SubsetSize(Complete(list), Present(ViewAt(list, i)));
    }
  }

  // With enough complete slots, regenerating gives the message, for every buffer
  // that is long enough and for which there is room.
  lemma RebuildsMessage(s: Sender, code: Code, message: Bytes, list: seq<Storage>, bufferSize: nat)
    requires Carries(s, code, message) && code.Decodes() && HoldsSome(s, list) && |Complete(list)| >= code.dataShards
    requires |message| <= bufferSize
    ensures Rebuilds(code, message, ViewsOf(list, s.instances), bufferSize)
  {
    hide Sender.Ok, Carries, Mul, ChunkLen, Code.Decodes, HoldsSome, Complete, Views, Rebuilds, Room;
    CarriesCut(s, code, message);
    ViewsHold(s, code, message, list);
    RegeneratesIffRoom(code, message, ViewsOf(list, s.instances), bufferSize);
  }

  /* ---- any number of ranges ---- */

  datatype Range = Range(start: nat, end: nat)

  ghost predicate Legal(count: nat, ranges: seq<Range>) {
    forall t :: 0 <= t < |ranges| ==> ranges[t].start < ranges[t].end <= count
  }

  ghost function Empty(count: nat): seq<Storage> {
    seq(count, j => Storage(false, [], []))
  }

  // The slots after the streams of the ranges have arrived one after the other.
  ghost function ReceiveAll(s: Sender, ranges: seq<Range>): (list: seq<Storage>)
    requires s.Ok() && Legal(s.count, ranges)
    ensures |list| == s.count && HoldsSome(s, list)
  {
    if ranges == [] then Empty(s.count)
    else
      var front, r := ranges[..|ranges| - 1], ranges[|ranges| - 1];
      var before := ReceiveAll(s, front);
      ReceivedHonest(s, before, r.start, r.end);
      ReceiptOf(s, before, r.start, r.end).list
  }

  // Whatever the ranges, and whether they are accepted or not: once enough slots
  // are complete, the message comes out.
  lemma AnyRangesRebuild(s: Sender, code: Code, message: Bytes, ranges: seq<Range>, bufferSize: nat)
    requires Carries(s, code, message) && code.Decodes() && Legal(s.count, ranges) && |message| <= bufferSize
    ensures s.Ok()
    ensures var list := ReceiveAll(s, ranges);
      |Complete(list)| >= code.dataShards ==> Rebuilds(code, message, ViewsOf(list, s.instances), bufferSize)
  {
    hide Mul, ChunkLen, Code.Encodes, Code.Decodes, HoldsSome, Complete, ReceiveAll, Rebuilds, Room;
    var list := ReceiveAll(s, ranges);
    if |Complete(list)| >= code.dataShards {
      RebuildsMessage(s, code, message, list, bufferSize);
    }
  }

  /* ---- ranges that are all accepted ---- */

  ghost function Span(start: nat, end: nat): (s: set<int>)
    ensures forall j :: j in s <==> start <= j < end
  {
    if start >= end then {} else Span(start, end - 1) + {end - 1}
  }

  // The fragments that some range names.
  ghost function Covered(ranges: seq<Range>): set<int> {
    if ranges == [] then {}
    else
      var r := ranges[|ranges| - 1];
      Covered(ranges[..|ranges| - 1]) + Span(r.start, r.end)
  }

  ghost function CoveredClaims(count: nat, ranges: seq<Range>): (claims: seq<bool>)
    ensures |claims| == count
  {
    seq(count, j => j in Covered(ranges))
  }

  // A condition on the ranges alone: in each range, what earlier ranges cover
  // comes first or, after an uncovered fragment, one at a time.
  ghost predicate Smooth(count: nat, ranges: seq<Range>)
    requires Legal(count, ranges)
  {
    ranges == [] ||
    var front, r := ranges[..|ranges| - 1], ranges[|ranges| - 1];
    Smooth(count, front) && ShortRuns(CoveredClaims(count, front), r.start, r.end)
  }

  // After smooth ranges exactly the covered slots are claimed, and they are complete.
  ghost predicate Exactly(s: Sender, list: seq<Storage>, covered: set<int>)
    requires s.Ok()
  {
    |list| == s.count && forall j: nat :: j < |list| ==>
      if j in covered then list[j] == SentSlot(s, j) && list[j].claimed else list[j] == Storage(false, [], [])
  }

  lemma {:induction false} SmoothAccepted(s: Sender, ranges: seq<Range>)
    requires s.Ok() && Legal(s.count, ranges) && Smooth(s.count, ranges)
    ensures Exactly(s, ReceiveAll(s, ranges), Covered(ranges))
    ensures ranges != [] ==>
      var front, r := ranges[..|ranges| - 1], ranges[|ranges| - 1];
      ReceiptOf(s, ReceiveAll(s, front), r.start, r.end).verdict == Accepted
  {
    hide Sender.Ok, ReceiptOf, SentSlot, HoldsSome, ShortRuns, Span;
    if ranges != [] {
      var front, r := ranges[..|ranges| - 1], ranges[|ranges| - 1];
      SmoothAccepted(s, front);
      var before := ReceiveAll(s, front);
      assert ClaimsOf(before) == CoveredClaims(s.count, front);
      ShortRunsAccepted(s, before, r.start, r.end);
      forall j: nat | j < s.count && r.start <= j < r.end ensures SentSlot(s, j).claimed { SentClaimed(s, j); }
    }
  }

  lemma ExactlyComplete(s: Sender, code: Code, message: Bytes, list: seq<Storage>, covered: set<int>)
    requires Carries(s, code, message) && Exactly(s, list, covered) && forall j :: j in covered ==> 0 <= j < s.count
    ensures Complete(list) == covered
  {
    hide Sender.Ok, Carries, SentFragment, SentSlot, Code.Encodes;
    CarriesCut(s, code, message);
    forall j: nat | j < |list| && j in covered ensures j in Complete(list) {
      assert list[j] == SentSlot(s, j);
      forall o: nat | o < s.instances
        ensures o < |list[j].encodeFragment| == s.instances && list[j].encodeFragment[o] != []
      {
        SentIsEncoded(s, code, message, o, j);
        SlotHolds(s, j, o);
      }
      SlotHolds(s, j, 0);
      assert forall o: nat :: o < |list[j].encodeFragment| ==> list[j].encodeFragment[o] != [];
    }
  }

  lemma SlotHolds(s: Sender, j: nat, o: nat)
    requires s.Ok() && j < s.count && o < s.instances
    ensures |SentSlot(s, j).encodeFragment| == s.instances && SentSlot(s, j).encodeFragment[o] == SentFragment(s, j, o)
  {
    hide Sender.Ok, Mul;
    FirstStep(s, j);
  }

  lemma {:induction false} CoveredInside(count: nat, ranges: seq<Range>, j: int)
    requires Legal(count, ranges) && j in Covered(ranges)
    ensures 0 <= j < count
  {
    var r := ranges[|ranges| - 1];
    if j !in Span(r.start, r.end) { CoveredInside(count, ranges[..|ranges| - 1], j); }
  }

  // Smooth ranges of one sender that cover enough fragments: every stream is
  // accepted, and the receiver rebuilds exactly the message.
  lemma EndToEnd(s: Sender, code: Code, message: Bytes, ranges: seq<Range>, bufferSize: nat)
    requires Carries(s, code, message) && code.Decodes() && Legal(s.count, ranges) && |message| <= bufferSize
    ensures s.Ok()
    ensures Smooth(s.count, ranges) && |Covered(ranges)| >= code.dataShards ==>
      Rebuilds(code, message, ViewsOf(ReceiveAll(s, ranges), s.instances), bufferSize)
  {
    hide Mul, ChunkLen, Code.Encodes, Code.Decodes, HoldsSome, Complete, ReceiveAll, ViewsOf, Exactly, Smooth,
         Covered, Legal, Sender.Ok, Rebuilds, Room;
    AnyRangesRebuild(s, code, message, ranges, bufferSize);
    if Smooth(s.count, ranges) && |Covered(ranges)| >= code.dataShards {
      SmoothAccepted(s, ranges);
      forall j | j in Covered(ranges) ensures 0 <= j < s.count { CoveredInside(s.count, ranges, j); }
      ExactlyComplete(s, code, message, ReceiveAll(s, ranges), Covered(ranges));
    }
  }

  // Ranges that do not overlap are smooth in every order.
  lemma {:induction false} DisjointSmooth(count: nat, ranges: seq<Range>)
    requires Legal(count, ranges)
    requires forall t, u :: 0 <= t < u < |ranges| ==>
      ranges[t].end <= ranges[u].start || ranges[u].end <= ranges[t].start
    ensures Smooth(count, ranges)
  {
    hide ShortRuns;
    if ranges != [] {
      var front, r := ranges[..|ranges| - 1], ranges[|ranges| - 1];
      DisjointSmooth(count, front);
      forall j | r.start <= j < r.end ensures j !in Covered(front) { NotCovered(front, j); }
      NoClaimsShort(CoveredClaims(count, front), r.start, r.end);
    }
  }

  lemma {:induction false} NotCovered(ranges: seq<Range>, j: int)
    requires forall t :: 0 <= t < |ranges| ==> !(ranges[t].start <= j < ranges[t].end)
    ensures j !in Covered(ranges)
  {
    if ranges != [] { NotCovered(ranges[..|ranges| - 1], j); }
  }

  // Four ranges, two of which start inside earlier ones: what is covered comes
  // first in each, so they are smooth, and they cover eleven fragments.
  lemma OverlappingButSmooth()
    ensures var ranges := [Range(12, 16), Range(4, 8), Range(14, 18), Range(16, 19)];
      Legal(33, ranges) && Smooth(33, ranges) && |Covered(ranges)| == 11
  {
    hide Covered, Span, Smooth, ShortRuns;
    var a, b, c, d := Range(12, 16), Range(4, 8), Range(14, 18), Range(16, 19);
    NoRanges(33);
    NoClaimsShort(CoveredClaims(33, []), 12, 16);
    OneMore(33, [], a);
    assert [] + [a] == [a];
    NoClaimsShort(CoveredClaims(33, [a]), 4, 8);
    OneMore(33, [a], b);
    assert [a] + [b] == [a, b];
    ClaimedFirst(CoveredClaims(33, [a, b]), 14, 16, 18);
    OneMore(33, [a, b], c);
    assert [a, b] + [c] == [a, b, c];
    ClaimedFirst(CoveredClaims(33, [a, b, c]), 16, 18, 19);
    OneMore(33, [a, b, c], d);
    assert [a, b, c] + [d] == [a, b, c, d];
    UnionSize(Covered([a, b, c, d]));
  }

  lemma UnionSize(covered: set<int>)
    requires covered == {} + Span(12, 16) + Span(4, 8) + Span(14, 18) + Span(16, 19)
    ensures |covered| == 11
  {
    hide Span;
    SpanSize(12, 19);
    SpanSize(4, 8);
    assert covered == Span(12, 19) + Span(4, 8) && Span(12, 19) !! Span(4, 8);
  }

  lemma NoRanges(count: nat)
    ensures Legal(count, []) && Smooth(count, []) && Covered([]) == {}
  {
  }

  lemma OneMore(count: nat, ranges: seq<Range>, r: Range)
    requires Legal(count, ranges) && Smooth(count, ranges) && r.start < r.end <= count
    requires ShortRuns(CoveredClaims(count, ranges), r.start, r.end)
    ensures Legal(count, ranges + [r]) && Smooth(count, ranges + [r])
    ensures Covered(ranges + [r]) == Covered(ranges) + Span(r.start, r.end)
  {
    hide ShortRuns, Span;
    assert (ranges + [r])[..|ranges|] == ranges;
  }

  lemma {:induction false} SpanSize(start: nat, end: nat)
    requires start <= end
    ensures |Span(start, end)| == end - start
  {
    hide Span;
    SpanStep(start, end);
    if start < end {
      SpanSize(start, end - 1);
      assert end - 1 !in Span(start, end - 1);
    }
  }

  lemma SpanStep(start: nat, end: nat)
    ensures Span(start, end) == if start >= end then {} else Span(start, end - 1) + {end - 1}
  {
  }

  lemma ClaimedFirst(claims: seq<bool>, start: nat, mid: nat, end: nat)
    requires start <= mid <= end <= |claims|
    requires (forall k :: start <= k < mid ==> claims[k]) && (forall k :: mid <= k < end ==> !claims[k])
    ensures ShortRuns(claims, start, end)
  {
    forall k: nat | start <= k < end && !claims[k]
      ensures var u := LastUnclaimed(claims, start, k); u.None? || k <= u.value + 2
    {
      if k == mid { AllClaimed(claims, start, mid); }
    }
  }

  lemma {:induction false} AllClaimed(claims: seq<bool>, start: nat, k: nat)
    requires start <= k <= |claims| && forall j :: start <= j < k ==> claims[j]
    ensures LastUnclaimed(claims, start, k) == None
  {
    if start < k { AllClaimed(claims, start, k - 1); }
  }

  /* ---- the program ---- */

  // No fragment of the message is too long for its field.
  ghost predicate SmallFragments(code: Code, message: Bytes, instances: nat)
    requires 0 < instances
  {
    forall i: nat :: i < instances && Encodable(code, message, instances, i) ==>
      forall f :: f in code.encode(Chunk(message, instances, i).value).value ==> |f| < Limit(4)
  }

  lemma FragmentFits(code: Code, message: Bytes, instances: nat, fragments: seq<Bytes>, j: nat, i: nat)
    requires 0 < instances && Holds(code, message, instances, fragments) && SmallFragments(code, message, instances)
    requires j < code.shards && i < instances
    ensures At(j, i, instances) < |fragments| && |fragments[At(j, i, instances)]| < Limit(4)
  {
    hide Chunk, Limit, Mul, At;
    assert Column(code, message, instances, fragments, i, code.shards);
    assert fragments[At(j, i, instances)] in code.encode(Chunk(message, instances, i).value).value;
  }

  lemma FragmentsFit(code: Code, message: Bytes, instances: nat, fragments: seq<Bytes>)
    requires 0 < instances && code.Encodes() && Holds(code, message, instances, fragments)
    requires SmallFragments(code, message, instances)
    requires 2 <= |fragments| <= Limit(4)
    ensures Fits(fragments)
  {
    hide Column, SmallFragments, Limit, Mul, At, Code.Encodes;
    forall p | 0 <= p < |fragments| ensures |fragments[p]| < Limit(4) {
      IndexIs(p, instances, code.shards);
      FragmentFits(code, message, instances, fragments, p / instances, p % instances);
    }
  }

  lemma IndexIs(p: nat, instances: nat, count: nat)
    requires 0 < instances && p < Mul(count, instances)
    ensures p == At(p / instances, p % instances, instances) && p / instances < count
  {
    if p / instances >= count { MulMonotone(count, p / instances, instances); }
  }

  lemma SenderCarries(code: Code, message: Bytes, h: PairHash<Digest>, leafHash: LeafHash, instances: nat,
                      fragments: seq<Bytes>)
    requires 0 < instances && code.Encodes() && CanCut(code, message, instances)
    requires Holds(code, message, instances, fragments) && Fits(fragments)
    ensures Carries(SenderOf(h, leafHash, fragments, instances, code.shards), code, message)
  {
    hide Sender.Ok, Code.Encodes, CanCut, Mul, Column;
    var s := SenderOf(h, leafHash, fragments, instances, code.shards);
    SenderOk(h, leafHash, fragments, instances, code.shards);
    assert FragmentsOf(s, fragments);
  }

  // Cut a message, send the ranges, and put the message together again.
  method SendAndRebuild(sender: Context, receiver: Context, message: Bytes, ranges: seq<Range>, bufferOut: Bytes)
    returns (r: Call, buffer: Bytes)
    requires sender != receiver && sender.code == receiver.code && sender.instances == receiver.instances
    requires sender.h == receiver.h && sender.leafHash == receiver.leafHash
    requires sender.mt == null && receiver.decodeStorageList == Empty(receiver.code.shards)
    requires 0 < sender.instances && sender.code.Encodes() && sender.code.Decodes()
    requires CanCut(sender.code, message, sender.instances) && SmallFragments(sender.code, message, sender.instances)
    requires 2 <= Mul(sender.code.shards, sender.instances) <= Limit(4)
    requires Legal(sender.code.shards, ranges) && Smooth(sender.code.shards, ranges)
    requires |Covered(ranges)| >= sender.code.dataShards
    modifies sender, receiver
    ensures Mul(sender.instances - 1, ChunkLen(|message|, sender.instances)) <= |message|
    ensures |buffer| == if |bufferOut| < |message| then |message| else |bufferOut|
    ensures r == Done(|buffer| <= Room(sender.code, |message|, sender.instances))
    ensures r == Done(true) ==> message <= buffer
    ensures |bufferOut| <= |message| ==> r == Done(true) && buffer == message
  {
    hide Mul, Limit, Code.Encodes, Code.Decodes, CanCut, SmallFragments, Holds, Sender.Ok, SenderOf, ReceiveAll,
         Smooth, Covered, Validate, RangeStream, Sent, PiecesOf, Assembled, SizesOf, ChunkLen, Guarded, HoldsSome,
         Carries, Room;
    ghost var size := if |bufferOut| < |message| then |message| else |bufferOut|;
    var started := sender.InitWithMessage(message);
    ghost var fragments := sender.ecEncodeResult;
    FragmentsFit(sender.code, message, sender.instances, fragments);
    ghost var s := SenderOf(sender.h, sender.leafHash, fragments, sender.instances, sender.code.shards);
    SenderCarries(sender.code, message, sender.h, sender.leafHash, sender.instances, fragments);
    CarriesCut(s, sender.code, message);
    ReceiveNone(s);
    SenderFields(sender.h, sender.leafHash, fragments, sender.instances, sender.code.shards);
    for t := 0 to |ranges|
      invariant sender.Ready() && sender.ecEncodeResult == fragments && sender.mt.root == s.root
      invariant receiver.decodeStorageList == ReceiveAll(s, ranges[..t])
    {
      var ok, segment := sender.SerializeFragments(ranges[t].start, ranges[t].end, [], 0);
      RangeStreamIs(sender.h, sender.leafHash, fragments, sender.instances, sender.code.shards, ranges[t], segment);
      ReceiveStep(s, ranges, t);
      var accepted := receiver.ValidateAndDeserializeFragments(sender.mt.root, segment, ranges[t].start, ranges[t].end);
      if accepted != Done(true) {
        return accepted, bufferOut;
      }
    }
    assert ranges[..|ranges|] == ranges;
    EndToEnd(s, sender.code, message, ranges, size);
    r, buffer := receiver.RegenerateMessage(|message|, bufferOut);
  }

  lemma ReceiveNone(s: Sender)
    requires s.Ok()
    ensures ReceiveAll(s, []) == Empty(s.count)
  {
  }

  lemma {:induction false} SmoothPrefix(count: nat, ranges: seq<Range>, t: nat)
    requires Legal(count, ranges) && Smooth(count, ranges) && t <= |ranges|
    ensures Legal(count, ranges[..t]) && Smooth(count, ranges[..t])
  {
    hide ShortRuns;
    if t < |ranges| {
      var front := ranges[..|ranges| - 1];
      SmoothPrefix(count, front, t);
      assert front[..t] == ranges[..t];
    } else {
      assert ranges[..t] == ranges;
    }
  }

  lemma ReceiveStep(s: Sender, ranges: seq<Range>, t: nat)
    requires s.Ok() && Legal(s.count, ranges) && Smooth(s.count, ranges) && t < |ranges|
    ensures Legal(s.count, ranges[..t]) && Legal(s.count, ranges[..t + 1])
    ensures ReceiptOf(s, ReceiveAll(s, ranges[..t]), ranges[t].start, ranges[t].end) ==
      Receipt(Accepted, ReceiveAll(s, ranges[..t + 1]))
  {
    hide Sender.Ok, ReceiptOf, Smooth, HoldsSome, Exactly, Covered;
    SmoothPrefix(s.count, ranges, t + 1);
    SmoothAccepted(s, ranges[..t + 1]);
    assert ranges[..t + 1][..t] == ranges[..t] && ranges[..t + 1][t] == ranges[t];
  }

  lemma RangeStreamIs(h: PairHash<Digest>, leafHash: LeafHash, fragments: seq<Bytes>, instances: nat, count: nat,
                      r: Range, segment: Bytes)
    requires 2 <= |fragments| && SenderOf(h, leafHash, fragments, instances, count).Ok() && r.start < r.end <= count
    requires Sent(segment, [], 0, PiecesOf(h, leafHash, fragments), Mul(r.start, instances), Mul(r.end, instances))
    ensures segment == RangeStream(SenderOf(h, leafHash, fragments, instances, count), r.start, r.end)
  {
    hide Sender.Ok, PiecesOf, Stream, Mul, Uniform;
  }
}
