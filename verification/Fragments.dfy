/**
  Sending fragments with their Merkle proofs. A proof is sent without the
  trailing siblings that it shares with the proof before it; the receiver fills
  them in from that proof and checks every fragment against the root. Fragments
  that have been claimed before are read over, and their siblings are kept in a
  cache for the proofs that follow.
 */
module Fragments {
  import opened Basics
  import opened MerkleSpec
  import opened Wire

  type LeafHash = Bytes -> Digest

  datatype Piece = Piece(proof: Proof<Digest>, fragment: Bytes)

  // What validating gives: the stream ended too early, some fragment does not
  // verify, or all of them do.
  datatype Verdict = Threw | Rejected | Accepted

  // The entries read so far, and what is left of the stream.
  datatype SlotRead = SlotRead(verdict: Verdict, pieces: seq<Piece>, rest: Bytes)

  // What has been received of one fragment: an entry per coder instance.
  datatype Storage = Storage(claimed: bool, mtProofs: seq<Proof<Digest>>, encodeFragment: seq<Bytes>)

  // What a call remembers between fragments: the last proof that it has built,
  // the cache for claimed fragments, and whether the next proof is to be
  // completed from the cache.
  datatype Memory = Memory(prev: Option<seq<Digest>>, cache: seq<Digest>, fromCache: bool) {
    function Base(): Base {
      if fromCache then Cache(cache) else if prev.Some? then Previous(prev.value) else Nothing
    }
  }

  // What the omitted siblings of a proof are taken from.
  datatype Base = Nothing | Previous(siblings: seq<Digest>) | Cache(siblings: seq<Digest>)

  datatype Receipt = Receipt(verdict: Verdict, list: seq<Storage>)

  const ZERO: Digest := seq(HASH_LEN, i => 0)

  /* ---- encoding ---- */

  // How many siblings have to be sent after prev has been.
  function Fresh(prev: seq<Digest>, cur: seq<Digest>): (m: nat)
    requires |prev| == |cur|
    ensures m <= |cur| && prev[m..] == cur[m..]
    ensures m > 0 ==> prev[m - 1] != cur[m - 1]
  {
    var n := |cur|;
    if n == 0 then 0
    else if prev[n - 1] != cur[n - 1] then n
    else
      var m := Fresh(prev[..n - 1], cur[..n - 1]);
      LastApart(prev, m);
      LastApart(cur, m);
      m
  }

  lemma LastApart(s: seq<Digest>, m: nat)
    requires m < |s|
    ensures s[m..] == s[..|s| - 1][m..] + [s[|s| - 1]]
  {
  }

  lemma FreshUnique(prev: seq<Digest>, cur: seq<Digest>, m: nat)
    requires |prev| == |cur| && m <= |cur| && (forall p :: m <= p < |cur| ==> prev[p] == cur[p])
    requires m > 0 ==> prev[m - 1] != cur[m - 1]
    ensures m == Fresh(prev, cur)
  {
    hide Fresh;
    var f := Fresh(prev, cur);
    forall p | f <= p < |cur| ensures prev[p] == cur[p] {
      assert prev[p] == prev[f..][p - f] && cur[p] == cur[f..][p - f];
    }
  }

  function Entry(piece: Piece, count: nat): (bs: Bytes)
    requires count <= |piece.proof.siblings|
  {
    WriteInt(piece.proof.path, 4) + WriteInt(count, 8) + WriteDigests(piece.proof.siblings[..count]) +
      WriteString(piece.fragment)
  }

  predicate Uniform(pieces: seq<Piece>) {
    forall j :: 0 <= j < |pieces| ==> |pieces[j].proof.siblings| == |pieces[0].proof.siblings|
  }

  // All proofs have one sibling per level, and everything fits its field.
  ghost predicate Sendable(pieces: seq<Piece>, depth: nat) {
    && depth < Limit(8)
    && forall i :: 0 <= i < |pieces| ==>
         && |pieces[i].proof.siblings| == depth
         && pieces[i].proof.path < Limit(4)
         && |pieces[i].fragment| < Limit(4)
  }

  // The siblings of piece i that are sent when the range starts at first.
  // The bytes of an entry: path, number of siblings, siblings, length, fragment.
  lemma EntryLayout(piece: Piece, count: nat)
    requires count <= |piece.proof.siblings|
    ensures var e, end := Entry(piece, count), 12 + 32 * count;
      && |e| == end + 4 + |piece.fragment|
      && e[..4] == WriteInt(piece.proof.path, 4) && e[4..12] == WriteInt(count, 8)
      && e[12..end] == WriteDigests(piece.proof.siblings[..count])
      && e[end..end + 4] == WriteInt(|piece.fragment|, 4) && e[end + 4..] == piece.fragment
  {
    hide WriteInt, WriteDigests;
    DigestsSize(piece.proof.siblings[..count]);
    var a, b, c := WriteInt(piece.proof.path, 4), WriteInt(count, 8), WriteDigests(piece.proof.siblings[..count]);
    var d := WriteInt(|piece.fragment|, 4);
    assert Entry(piece, count) == a + b + c + (d + piece.fragment);
  }

  function CountAt(pieces: seq<Piece>, first: nat, i: nat): (m: nat)
    requires first <= i < |pieces| && Uniform(pieces)
    ensures m <= |pieces[i].proof.siblings|
  {
    if i == first then |pieces[i].proof.siblings|
    else Fresh(pieces[i - 1].proof.siblings, pieces[i].proof.siblings)
  }

  function Entries(pieces: seq<Piece>, first: nat, i: nat, last: nat): (bs: Bytes)
    requires first <= i <= last <= |pieces| && Uniform(pieces)
    decreases last - i
  {
    if i == last then []
    else Entry(pieces[i], CountAt(pieces, first, i)) + Entries(pieces, first, i + 1, last)
  }

  lemma EntriesSplit(pieces: seq<Piece>, first: nat, i: nat, last: nat)
    requires first <= i <= last <= |pieces| && Uniform(pieces)
    ensures Entries(pieces, first, i, last) ==
      if i == last then [] else Entry(pieces[i], CountAt(pieces, first, i)) + Entries(pieces, first, i + 1, last)
  {
  }

  // The stream of the pieces first .. last - 1.
  function Stream(pieces: seq<Piece>, first: nat, last: nat): (bs: Bytes)
    requires first < last <= |pieces| && Uniform(pieces)
  {
    WriteInt(|pieces[first].proof.siblings|, 8) + Entries(pieces, first, first, last)
  }

  /* ---- decoding ---- */

  // One entry; the omitted siblings are taken from the previous proof or from the
  // cache, which has no room for more than depth of them.
  function DecodeEntry(depth: nat, prev: Base, raw: Bytes): (r: Parsed<Piece>) {
    match ReadInt(raw, 4)
    case Failed => Failed
    case Read(path, raw1) => match ReadInt(raw1, 8)
    case Failed => Failed
    case Read(count, raw2) => match ReadDigests(raw2, count)
    case Failed => Failed
    case Read(ds, raw3) =>
      if !prev.Nothing? && count < depth && |prev.siblings| < depth then Failed
      else if prev.Cache? && count > depth then Failed
      else
        var siblings := if !prev.Nothing? && count < depth then ds + prev.siblings[count..depth] else ds;
        match ReadString(raw3)
        case Failed => Failed
        case Read(fragment, rest) => Read(Piece(Proof(siblings, path), fragment), rest)
  }

  predicate Verifies(h: PairHash<Digest>, leafHash: LeafHash, root: Digest, piece: Piece) {
    Climb(h, leafHash(piece.fragment), piece.proof.siblings, piece.proof.path) == root
  }

  // n entries, each checked against the root.
  function DecodeEntries(h: PairHash<Digest>, leafHash: LeafHash, root: Digest, depth: nat, prev: Base, raw: Bytes,
                         n: nat, done: seq<Piece>): (r: SlotRead)
    decreases n
  {
    if n == 0 then SlotRead(Accepted, done, raw)
    else match DecodeEntry(depth, prev, raw)
      case Failed => SlotRead(Threw, done, raw)
      case Read(piece, rest) =>
        if !Verifies(h, leafHash, root, piece) then SlotRead(Rejected, done, raw)
        else DecodeEntries(h, leafHash, root, depth, Previous(piece.proof.siblings), rest, n - 1, done + [piece])
  }

  // n entries of a claimed fragment: only the siblings go into the cache.
  function SkipEntries(cache: seq<Digest>, raw: Bytes, n: nat): (r: Parsed<seq<Digest>>)
    decreases n
  {
    if n == 0 then Read(cache, raw)
    else match ReadInt(raw, 4)
      case Failed => Failed
      case Read(_, raw1) => match ReadInt(raw1, 8)
      case Failed => Failed
      case Read(count, raw2) => match ReadDigests(raw2, count)
      case Failed => Failed
      case Read(ds, raw3) => match ReadString(raw3)
      case Failed => Failed
      case Read(_, rest) => if count > |cache| then Failed else SkipEntries(ds + cache[count..], rest, n - 1)
  }

  // Before a claimed fragment is read over, the cache is refilled from the last
  // proof that was built, if there is one.
  function SkipSlot(mem: Memory, raw: Bytes, n: nat): (r: Parsed<Memory>) {
    if mem.prev.Some? && |mem.prev.value| < |mem.cache| then Failed
    else
      var cache := if mem.prev.Some? then mem.prev.value[..|mem.cache|] else mem.cache;
      match SkipEntries(cache, raw, n)
      case Failed => Failed
      case Read(cache', rest) => Read(Memory(mem.prev, cache', true), rest)
  }

  // A slot that holds the pieces read so far.
  function Kept(pieces: seq<Piece>, instances: nat): Storage {
    Storage(true,
            seq(instances, o requires 0 <= o < instances => if o < |pieces| then pieces[o].proof else Proof([], 0)),
            seq(instances, o requires 0 <= o < instances => if o < |pieces| then pieces[o].fragment else []))
  }

  function LastProof(mem: Memory, pieces: seq<Piece>): Memory {
    Memory(if pieces == [] then mem.prev else Some(pieces[|pieces| - 1].proof.siblings), mem.cache, false)
  }

  // The fragments i .. end - 1.
  function Take(h: PairHash<Digest>, leafHash: LeafHash, root: Digest, depth: nat, mem: Memory, raw: Bytes,
                list: seq<Storage>, i: nat, end: nat, instances: nat): (r: Receipt)
    requires i <= end <= |list|
    decreases end - i
  {
    if i == end then Receipt(Accepted, list)
    else if list[i].claimed then
      match SkipSlot(mem, raw, instances)
      case Failed => Receipt(Threw, list)
      case Read(mem', rest) => Take(h, leafHash, root, depth, mem', rest, list, i + 1, end, instances)
    else
      var slot := DecodeEntries(h, leafHash, root, depth, mem.Base(), raw, instances, []);
      var list' := list[i := Kept(slot.pieces, instances)];
      if slot.verdict != Accepted then Receipt(slot.verdict, list')
      else Take(h, leafHash, root, depth, LastProof(mem, slot.pieces), slot.rest, list', i + 1, end, instances)
  }

  function StartMemory(depth: nat): Memory {
    Memory(None, seq(depth, j => ZERO), false)
  }

  // A stream that is said to hold the fragments start .. end - 1.
  function Validate(h: PairHash<Digest>, leafHash: LeafHash, root: Digest, raw: Bytes, list: seq<Storage>, start: int,
                    end: int, instances: nat)
    : (r: Receipt)
  {
    if !(0 <= start < end <= |list|) then Receipt(Rejected, list)
    else match ReadInt(raw, 8)
      case Failed => Receipt(Threw, list)
      case Read(depth, rest) => Take(h, leafHash, root, depth, StartMemory(depth), rest, list, start, end, instances)
  }

  // A range that is empty or not inside the storage is rejected before the stream is
  // looked at, and a stream without a depth ends early; neither changes anything.
  lemma ValidateRefuses(h: PairHash<Digest>, leafHash: LeafHash, root: Digest, raw: Bytes, list: seq<Storage>,
                        start: int, end: int, instances: nat)
    ensures var r := Validate(h, leafHash, root, raw, list, start, end, instances);
      && (start < 0 || end <= start || |list| < end ==> r == Receipt(Rejected, list))
      && (0 <= start < end <= |list| && |raw| < 8 ==> r == Receipt(Threw, list))
  {
    if |raw| < 8 { TooFewBytes(raw, 8); }
  }

  /* ---- single steps ---- */

  lemma DecodeFails(h: PairHash<Digest>, leafHash: LeafHash, root: Digest, depth: nat, prev: Base, raw: Bytes, n: nat,
                    done: seq<Piece>)
    requires 0 < n && DecodeEntry(depth, prev, raw).Failed?
    ensures DecodeEntries(h, leafHash, root, depth, prev, raw, n, done) == SlotRead(Threw, done, raw)
  {
    hide DecodeEntry;
  }

  lemma SkipNone(cache: seq<Digest>, raw: Bytes)
    ensures SkipEntries(cache, raw, 0) == Read(cache, raw)
  {
  }

  lemma TakeNone(h: PairHash<Digest>, leafHash: LeafHash, root: Digest, depth: nat, mem: Memory, raw: Bytes,
                 list: seq<Storage>, end: nat, instances: nat)
    requires end <= |list|
    ensures Take(h, leafHash, root, depth, mem, raw, list, end, end, instances) == Receipt(Accepted, list)
  {
  }

  lemma TakeStep(h: PairHash<Digest>, leafHash: LeafHash, root: Digest, depth: nat, mem: Memory, raw: Bytes,
                 list: seq<Storage>, i: nat, end: nat, instances: nat)
    requires i < end <= |list|
    ensures Take(h, leafHash, root, depth, mem, raw, list, i, end, instances) ==
      if list[i].claimed then
        match SkipSlot(mem, raw, instances)
        case Failed => Receipt(Threw, list)
        case Read(mem', rest) => Take(h, leafHash, root, depth, mem', rest, list, i + 1, end, instances)
      else
        var slot := DecodeEntries(h, leafHash, root, depth, mem.Base(), raw, instances, []);
        var list' := list[i := Kept(slot.pieces, instances)];
        if slot.verdict != Accepted then Receipt(slot.verdict, list')
        else Take(h, leafHash, root, depth, LastProof(mem, slot.pieces), slot.rest, list', i + 1, end, instances)
  {
    hide SkipSlot, DecodeEntries, Kept, LastProof;
  }

  /* ---- round trip ---- */

  // The entry of a piece is read as that piece, with the siblings above count
  // taken from whatever the receiver has.
  lemma EntryRead(piece: Piece, depth: nat, prev: Base, count: nat, rest: Bytes)
    requires |piece.proof.siblings| == depth < Limit(8) && piece.proof.path < Limit(4) && |piece.fragment| < Limit(4)
    requires count <= depth && if !prev.Nothing? then |prev.siblings| == depth else count == depth
    ensures DecodeEntry(depth, prev, Entry(piece, count) + rest) == Read(Completed(piece, prev, count), rest)
  {
    hide Limit, WriteInt, ReadInt, WriteDigests, ReadDigests, WriteString, ReadString;
    var ds := piece.proof.siblings[..count];
    var tail3 := WriteString(piece.fragment) + rest;
    var tail2 := WriteDigests(ds) + tail3;
    var tail1 := WriteInt(count, 8) + tail2;
    assert Entry(piece, count) + rest == WriteInt(piece.proof.path, 4) + tail1;
    IntRoundTrip(piece.proof.path, 4, tail1);
    IntRoundTrip(count, 8, tail2);
    DigestsRoundTrip(ds, tail3);
    StringRoundTrip(piece.fragment, rest);
    assert !prev.Nothing? && count == depth ==> ds + prev.siblings[count..] == ds;
    assert ds + [] == ds;
    assert !prev.Nothing? ==> prev.siblings[count..depth] == prev.siblings[count..];
  }

  function Completed(piece: Piece, prev: Base, count: nat): (p: Piece)
    requires count <= |piece.proof.siblings| && (!prev.Nothing? ==> |prev.siblings| == |piece.proof.siblings|)
    ensures p.fragment == piece.fragment && p.proof.path == piece.proof.path
    ensures |p.proof.siblings| == if prev.Nothing? then count else |piece.proof.siblings|
  {
    var above := if !prev.Nothing? then prev.siblings[count..] else [];
    Piece(Proof(piece.proof.siblings[..count] + above, piece.proof.path), piece.fragment)
  }

  // The siblings that a receiver must have to complete a proof.
  predicate GoodBase(prev: Base, siblings: seq<Digest>, count: nat)
    requires count <= |siblings|
  {
    if !prev.Nothing? then |prev.siblings| == |siblings| && prev.siblings[count..] == siblings[count..]
    else count == |siblings|
  }

  // One entry is decoded back, if what is omitted is what the receiver has.
  lemma EntryRoundTrip(piece: Piece, depth: nat, prev: Base, count: nat, rest: Bytes)
    requires |piece.proof.siblings| == depth < Limit(8) && piece.proof.path < Limit(4) && |piece.fragment| < Limit(4)
    requires count <= depth && GoodBase(prev, piece.proof.siblings, count)
    ensures DecodeEntry(depth, prev, Entry(piece, count) + rest) == Read(piece, rest)
  {
    hide DecodeEntry, Entry, Limit;
    EntryRead(piece, depth, prev, count, rest);
    assert piece.proof.siblings[..count] + piece.proof.siblings[count..] == piece.proof.siblings;
    assert count == depth ==> piece.proof.siblings[..count] + [] == piece.proof.siblings;
  }

  lemma DecodeStep(h: PairHash<Digest>, leafHash: LeafHash, root: Digest, depth: nat, prev: Base, raw: Bytes, n: nat,
                   done: seq<Piece>, piece: Piece, rest: Bytes)
    requires 0 < n && DecodeEntry(depth, prev, raw) == Read(piece, rest)
    ensures DecodeEntries(h, leafHash, root, depth, prev, raw, n, done) ==
      if Verifies(h, leafHash, root, piece)
      then DecodeEntries(h, leafHash, root, depth, Previous(piece.proof.siblings), rest, n - 1, done + [piece])
      else SlotRead(Rejected, done, raw)
  {
    hide DecodeEntry, Verifies;
  }

  lemma NoEntries(h: PairHash<Digest>, leafHash: LeafHash, root: Digest, depth: nat, prev: Base, raw: Bytes,
                  done: seq<Piece>)
    ensures DecodeEntries(h, leafHash, root, depth, prev, raw, 0, done) == SlotRead(Accepted, done, raw)
  {
  }

  // The fragments of a tree with their proofs are all accepted.
  function PiecesOf(h: PairHash<Digest>, leafHash: LeafHash, fragments: seq<Bytes>): (pieces: seq<Piece>)
    requires 2 <= |fragments|
    ensures |pieces| == |fragments|
  {
    var leaves := LeavesOf(leafHash, fragments);
    seq(|fragments|, i requires 0 <= i < |fragments| => Piece(ProofOf(h, leaves, i), fragments[i]))
  }

  function LeavesOf(leafHash: LeafHash, fragments: seq<Bytes>): (leaves: seq<Digest>)
    ensures |leaves| == |fragments| && forall i :: 0 <= i < |leaves| ==> leaves[i] == leafHash(fragments[i])
  {
    seq(|fragments|, i requires 0 <= i < |fragments| => leafHash(fragments[i]))
  }

  // All fragments of a tree can be sent if the sizes fit their fields.
  ghost predicate Fits(fragments: seq<Bytes>) {
    2 <= |fragments| <= Limit(4) && forall i :: 0 <= i < |fragments| ==> |fragments[i]| < Limit(4)
  }

  lemma PiecesSendable(h: PairHash<Digest>, leafHash: LeafHash, fragments: seq<Bytes>)
    requires Fits(fragments)
    ensures var pieces, leaves := PiecesOf(h, leafHash, fragments), LeavesOf(leafHash, fragments);
      && Sendable(pieces, Depth(|leaves|)) && Uniform(pieces)
      && forall j :: 0 <= j < |pieces| ==> Verifies(h, leafHash, Root(h, leaves), pieces[j])
  {
    hide Limit, Depth, Climb, ProofOf, Root;
    var pieces, leaves := PiecesOf(h, leafHash, fragments), LeavesOf(leafHash, fragments);
    DepthFits(|leaves|);
    forall i | 0 <= i < |pieces|
      ensures |pieces[i].proof.siblings| == Depth(|leaves|) && pieces[i].proof.path < Limit(4)
      ensures Verifies(h, leafHash, Root(h, leaves), pieces[i])
    {
      Completeness(h, leaves, i);
      PathFits(h, leaves, i);
    }
  }

  /* ---- any stream at all ---- */

  // Everything that is read as accepted verifies against the root.
  lemma {:induction false} DecodedVerifies(h: PairHash<Digest>, leafHash: LeafHash, root: Digest, depth: nat,
                                           prev: Base, raw: Bytes, n: nat, done: seq<Piece>)
    requires forall i :: 0 <= i < |done| ==> Verifies(h, leafHash, root, done[i])
    ensures var r := DecodeEntries(h, leafHash, root, depth, prev, raw, n, done);
      && (forall i :: 0 <= i < |r.pieces| ==> Verifies(h, leafHash, root, r.pieces[i]))
      && |r.pieces| <= |done| + n && (r.verdict == Accepted ==> |r.pieces| == |done| + n)
    decreases n
  {
    hide DecodeEntry, Verifies;
    if n > 0 {
      var entry := DecodeEntry(depth, prev, raw);
      if entry.Read? && Verifies(h, leafHash, root, entry.value) {
        DecodedVerifies(h, leafHash, root, depth, Previous(entry.value.proof.siblings), entry.rest, n - 1,
          done + [entry.value]);
      }
    }
  }

  // Whatever a slot holds verifies against the root.
  ghost predicate OnlyVerified(h: PairHash<Digest>, leafHash: LeafHash, root: Digest, slot: Storage) {
    && |slot.mtProofs| == |slot.encodeFragment|
    && forall o :: 0 <= o < |slot.encodeFragment| ==>
         slot.encodeFragment[o] == [] || Verifies(h, leafHash, root, Piece(slot.mtProofs[o], slot.encodeFragment[o]))
  }

  lemma KeptVerified(h: PairHash<Digest>, leafHash: LeafHash, root: Digest, pieces: seq<Piece>, instances: nat)
    requires forall o :: 0 <= o < |pieces| ==> Verifies(h, leafHash, root, pieces[o])
    ensures OnlyVerified(h, leafHash, root, Kept(pieces, instances))
  {
    hide Verifies;
    forall o | 0 <= o < instances && o < |pieces|
      ensures Verifies(h, leafHash, root, Piece(pieces[o].proof, pieces[o].fragment))
    {
      assert pieces[o] == Piece(pieces[o].proof, pieces[o].fragment);
    }
  }

  // Only unclaimed slots of the range change, and only verified fragments come in.
  ghost predicate Guarded(h: PairHash<Digest>, leafHash: LeafHash, root: Digest, before: seq<Storage>,
                          after: seq<Storage>, start: int, end: int) {
    && |after| == |before|
    && forall j :: 0 <= j < |after| ==>
         after[j] == before[j] ||
           (start <= j < end && !before[j].claimed && after[j].claimed && OnlyVerified(h, leafHash, root, after[j]))
  }

  lemma {:induction false} TakeGuards(h: PairHash<Digest>, leafHash: LeafHash, root: Digest, depth: nat, mem: Memory,
                                      raw: Bytes, list: seq<Storage>, i: nat, end: nat, instances: nat)
    requires i <= end <= |list|
    ensures Guarded(h, leafHash, root, list,
      Take(h, leafHash, root, depth, mem, raw, list, i, end, instances).list, i, end)
    decreases end - i
  {
    hide DecodeEntries, SkipSlot, Kept, OnlyVerified, LastProof;
    if i < end {
      if list[i].claimed {
        var skipped := SkipSlot(mem, raw, instances);
        if skipped.Read? {
          TakeGuards(h, leafHash, root, depth, skipped.value, skipped.rest, list, i + 1, end, instances);
        }
      } else {
        var slot := DecodeEntries(h, leafHash, root, depth, mem.Base(), raw, instances, []);
        DecodedVerifies(h, leafHash, root, depth, mem.Base(), raw, instances, []);
        KeptVerified(h, leafHash, root, slot.pieces, instances);
        var list' := list[i := Kept(slot.pieces, instances)];
        assert Kept(slot.pieces, instances).claimed by { KeptClaimed(slot.pieces, instances); }
        if slot.verdict == Accepted {
          TakeGuards(h, leafHash, root, depth, LastProof(mem, slot.pieces), slot.rest, list', i + 1, end, instances);
        }
      }
    }
  }

  lemma KeptClaimed(pieces: seq<Piece>, instances: nat)
    ensures Kept(pieces, instances).claimed
  {
  }

  // Whatever the stream and the verdict.
  lemma ValidateGuards(h: PairHash<Digest>, leafHash: LeafHash, root: Digest, raw: Bytes, list: seq<Storage>,
                       start: int, end: int, instances: nat)
    ensures Guarded(h, leafHash, root, list,
      Validate(h, leafHash, root, raw, list, start, end, instances).list, start, end)
  {
    hide Take, Guarded, ReadInt;
    GuardsItself(h, leafHash, root, list, start, end);
    var header := ReadInt(raw, 8);
    if 0 <= start < end <= |list| && header.Read? {
      TakeGuards(h, leafHash, root, header.value, StartMemory(header.value), header.rest, list, start, end, instances);
    }
  }

  /* ---- a rejected stream ---- */

  // Claimed, but some fragment is missing.
  ghost predicate Incomplete(slot: Storage) {
    slot.claimed && [] in slot.encodeFragment
  }

  lemma {:induction false} FailedShort(h: PairHash<Digest>, leafHash: LeafHash, root: Digest, depth: nat, prev: Base,
                                       raw: Bytes, n: nat, done: seq<Piece>)
    ensures var r := DecodeEntries(h, leafHash, root, depth, prev, raw, n, done);
      r.verdict != Accepted ==> |r.pieces| < |done| + n
    decreases n
  {
    hide DecodeEntry, Verifies;
    if n > 0 {
      var entry := DecodeEntry(depth, prev, raw);
      if entry.Read? && Verifies(h, leafHash, root, entry.value) {
        FailedShort(h, leafHash, root, depth, Previous(entry.value.proof.siblings), entry.rest, n - 1,
          done + [entry.value]);
      }
    }
  }

  lemma KeptShort(pieces: seq<Piece>, instances: nat)
    requires |pieces| < instances
    ensures Incomplete(Kept(pieces, instances))
  {
    assert Kept(pieces, instances).encodeFragment[|pieces|] == [];
  }

  // If a stream is rejected, the slot of the fragment that failed has been claimed by it.
  lemma {:induction false} TakeBlocks(h: PairHash<Digest>, leafHash: LeafHash, root: Digest, depth: nat, mem: Memory,
                                      raw: Bytes, list: seq<Storage>, i: nat, end: nat, instances: nat)
    returns (j: nat)
    requires i <= end <= |list|
    ensures var r := Take(h, leafHash, root, depth, mem, raw, list, i, end, instances);
      r.verdict == Rejected ==> i <= j < end <= |r.list| && !list[j].claimed && Incomplete(r.list[j])
    decreases end - i
  {
    hide DecodeEntries, SkipSlot, Kept, LastProof, Incomplete;
    j := i;
    if i < end {
      TakeStep(h, leafHash, root, depth, mem, raw, list, i, end, instances);
      TakeGuards(h, leafHash, root, depth, mem, raw, list, i, end, instances);
      if list[i].claimed {
        var skipped := SkipSlot(mem, raw, instances);
        if skipped.Read? {
          j := TakeBlocks(h, leafHash, root, depth, skipped.value, skipped.rest, list, i + 1, end, instances);
        }
      } else {
        var slot := DecodeEntries(h, leafHash, root, depth, mem.Base(), raw, instances, []);
        if slot.verdict == Accepted {
          j := TakeBlocks(h, leafHash, root, depth, LastProof(mem, slot.pieces), slot.rest,
            list[i := Kept(slot.pieces, instances)], i + 1, end, instances);
        } else {
          FailedShort(h, leafHash, root, depth, mem.Base(), raw, instances, []);
          KeptShort(slot.pieces, instances);
        }
      }
    }
  }

  // And it stays so: nothing that arrives later fills it, not even a correct stream.
  lemma RejectedBlocks(h: PairHash<Digest>, leafHash: LeafHash, root: Digest, raw: Bytes, list: seq<Storage>,
                       start: int, end: int, instances: nat)
    returns (j: nat)
    ensures var r := Validate(h, leafHash, root, raw, list, start, end, instances);
      r.verdict == Rejected && 0 <= start < end <= |list| ==>
        && start <= j < end && |r.list| == |list| && !list[j].claimed && Incomplete(r.list[j])
        && forall root', raw', start', end' ::
             var later := Validate(h, leafHash, root', raw', r.list, start', end', instances).list;
             |later| == |list| && later[j] == r.list[j]
  {
    hide Take, Guarded, ReadInt;
    j := 0;
    var r := Validate(h, leafHash, root, raw, list, start, end, instances);
    var header := ReadInt(raw, 8);
    if r.verdict == Rejected && 0 <= start < end <= |list| && header.Read? {
      j := TakeBlocks(h, leafHash, root, header.value, StartMemory(header.value), header.rest, list, start, end,
        instances);
      ValidateGuards(h, leafHash, root, raw, list, start, end, instances);
      GuardedAt(h, leafHash, root, list, r.list, start, end, j);
      forall root', raw', start', end'
        ensures var later := Validate(h, leafHash, root', raw', r.list, start', end', instances).list;
          |later| == |list| && later[j] == r.list[j]
      {
        var later := Validate(h, leafHash, root', raw', r.list, start', end', instances).list;
        ValidateGuards(h, leafHash, root', raw', r.list, start', end', instances);
        GuardedAt(h, leafHash, root', r.list, later, start', end', j);
      }
    }
  }

  lemma GuardedAt(h: PairHash<Digest>, leafHash: LeafHash, root: Digest, before: seq<Storage>, after: seq<Storage>,
                  start: int, end: int, j: nat)
    requires Guarded(h, leafHash, root, before, after, start, end)
    ensures |after| == |before| && (j < |before| && before[j].claimed ==> after[j] == before[j])
  {
  }

  lemma GuardsItself(h: PairHash<Digest>, leafHash: LeafHash, root: Digest, list: seq<Storage>, start: int, end: int)
    ensures Guarded(h, leafHash, root, list, list, start, end)
  {
  }

  // The siblings of a proof that are more than the tree is deep.
  function Excess(depth: nat, proof: Proof<Digest>): nat {
    if |proof.siblings| <= depth then 0 else |proof.siblings| - depth
  }

  // The digest after these siblings, the level it belongs to, and whether a hash
  // computed from there on collides.
  function Reached(h: PairHash<Digest>, depth: nat, digest: Digest, proof: Proof<Digest>): Digest {
    Climb(h, digest, proof.siblings[..Excess(depth, proof)], proof.path)
  }

  function LevelOf(depth: nat, proof: Proof<Digest>): nat {
    if |proof.siblings| <= depth then depth - |proof.siblings| else 0
  }

  ghost predicate NoCollisionAbove(h: PairHash<Digest>, leaves: seq<Digest>, digest: Digest, proof: Proof<Digest>) {
    var depth := Depth(|leaves|);
    var m := Excess(depth, proof);
    CollisionFree(h, leaves, LevelOf(depth, proof), Reached(h, depth, digest, proof), proof.siblings[m..],
      Shift(proof.path, m))
  }

  // Whatever the length of the proof, climbing passes through a node of the tree.
  lemma VerifiedIsNode(h: PairHash<Digest>, leaves: seq<Digest>, digest: Digest, proof: Proof<Digest>)
    requires 2 <= |leaves| && Climb(h, digest, proof.siblings, proof.path) == Root(h, leaves)
    ensures NoCollisionAbove(h, leaves, digest, proof) ==>
      Reached(h, Depth(|leaves|), digest, proof) in Nodes(h, leaves, LevelOf(Depth(|leaves|), proof))
  {
    hide Depth, Climb, Root, CollisionFree, Nodes, Shift;
    var depth := Depth(|leaves|);
    var m := Excess(depth, proof);
    if NoCollisionAbove(h, leaves, digest, proof) {
      ClimbSplit(h, digest, proof.siblings, proof.path, m);
      SoundFrom(h, leaves, LevelOf(depth, proof), Reached(h, depth, digest, proof), proof.siblings[m..],
        Shift(proof.path, m));
    }
  }

  // Without excess siblings that is the digest itself.
  lemma ReachedItself(h: PairHash<Digest>, depth: nat, digest: Digest, proof: Proof<Digest>)
    requires |proof.siblings| <= depth
    ensures Reached(h, depth, digest, proof) == digest && LevelOf(depth, proof) == depth - |proof.siblings|
  {
  }

  // Any stream at all: a fragment that is kept has the digest of a node of the
  // level that the length of its proof leads up from: of a leaf if the proof is
  // as long as the tree is deep. If the proof is longer, the siblings in excess
  // lead from the digest to a leaf.
  lemma KeptFragmentsAreNodes(h: PairHash<Digest>, leafHash: LeafHash, fragments: seq<Bytes>, raw: Bytes,
                              list: seq<Storage>, start: int, end: int, instances: nat, j: nat, o: nat)
    requires 2 <= |fragments|
    ensures var leaves := LeavesOf(leafHash, fragments);
      var after := Validate(h, leafHash, Root(h, leaves), raw, list, start, end, instances).list;
      |after| == |list| &&
      (j < |after| && after[j] != list[j] && o < |after[j].encodeFragment| && after[j].encodeFragment[o] != [] ==>
        && o < |after[j].mtProofs|
        && var digest, proof, depth := leafHash(after[j].encodeFragment[o]), after[j].mtProofs[o], Depth(|leaves|);
           (NoCollisionAbove(h, leaves, digest, proof) ==>
             Reached(h, depth, digest, proof) in Nodes(h, leaves, LevelOf(depth, proof))))
  {
    hide Validate, Depth, Root, CollisionFree, Climb, Nodes, LeavesOf, Reached, LevelOf, NoCollisionAbove;
    var leaves := LeavesOf(leafHash, fragments);
    ValidateGuards(h, leafHash, Root(h, leaves), raw, list, start, end, instances);
    var after := Validate(h, leafHash, Root(h, leaves), raw, list, start, end, instances).list;
    if j < |after| && after[j] != list[j] && o < |after[j].encodeFragment| && after[j].encodeFragment[o] != [] {
      var piece := Piece(after[j].mtProofs[o], after[j].encodeFragment[o]);
      assert Verifies(h, leafHash, Root(h, leaves), piece);
      VerifiedIsNode(h, leaves, leafHash(piece.fragment), piece.proof);
    }
  }

  // The length of a proof is not checked: a fragment with the digest of an inner
  // node is accepted with the siblings above that node.
  lemma NodesVerify(h: PairHash<Digest>, leafHash: LeafHash, fragments: seq<Bytes>, i: nat, k: nat, fragment: Bytes)
    requires 2 <= |fragments| && i < |fragments| && k <= Depth(|fragments|)
    ensures var leaves := LeavesOf(leafHash, fragments);
      var proof := Proof(SiblingsFrom(h, leaves, i, k, Depth(|leaves|)), PathFrom(i, k, Depth(|leaves|)));
      && |proof.siblings| == Depth(|leaves|) - k
      && Shift(i, k) < |Nodes(h, leaves, k)|
      && (leafHash(fragment) == Nodes(h, leaves, k)[Shift(i, k)] ==>
        Verifies(h, leafHash, Root(h, leaves), Piece(proof, fragment)))
  {
    hide Depth, Climb, Root, Shift, Nodes, PathFrom, SiblingsFrom;
    var leaves := LeavesOf(leafHash, fragments);
    SiblingsCount(h, leaves, i, k, Depth(|leaves|));
    ClimbFrom(h, leaves, i, k);
  }

  function Joined(a: Bytes, b: Bytes): Bytes {
    a + b
  }

  // So with one hash for leaves and nodes, the concatenated digests of the first
  // two fragments pass as a fragment, one sibling short.
  lemma ConcatenationVerifies(h: PairHash<Digest>, leafHash: LeafHash, fragments: seq<Bytes>)
    requires 2 <= |fragments|
    requires var leaves := LeavesOf(leafHash, fragments);
      leafHash(Joined(leaves[0], leaves[1])) == h(leaves[0], leaves[1])
    ensures var leaves := LeavesOf(leafHash, fragments);
      exists proof: Proof<Digest> :: |proof.siblings| == Depth(|leaves|) - 1 &&
        Verifies(h, leafHash, Root(h, leaves), Piece(proof, Joined(leaves[0], leaves[1])))
  {
    hide Climb, Root, PathFrom, SiblingsFrom;
    var leaves := LeavesOf(leafHash, fragments);
    NodesVerify(h, leafHash, fragments, 0, 1, Joined(leaves[0], leaves[1]));
    assert Nodes(h, leaves, 1)[0] == h(leaves[0], leaves[1]) by {
      assert Nodes(h, leaves, 0) == leaves && Pad(leaves)[0] == leaves[0] && Pad(leaves)[1] == leaves[1];
    }
    var proof := Proof(SiblingsFrom(h, leaves, 0, 1, Depth(|leaves|)), PathFrom(0, 1, Depth(|leaves|)));
    assert Verifies(h, leafHash, Root(h, leaves), Piece(proof, Joined(leaves[0], leaves[1])));
  }

  // Siblings in excess that lead from a digest to leaf i make it verify.
  lemma ExcessVerifies(h: PairHash<Digest>, leafHash: LeafHash, fragments: seq<Bytes>, i: nat, fragment: Bytes,
                       excess: seq<Digest>, path: nat)
    requires 2 <= |fragments| && i < |fragments|
    ensures var leaves := LeavesOf(leafHash, fragments);
      var p := ProofOf(h, leaves, i);
      Climb(h, leafHash(fragment), excess, path) == leaves[i] && Shift(path, |excess|) == p.path ==>
        Verifies(h, leafHash, Root(h, leaves), Piece(Proof(excess + p.siblings, path), fragment))
  {
    hide Depth, Climb, Root, Shift, ProofOf;
    var leaves := LeavesOf(leafHash, fragments);
    var p := ProofOf(h, leaves, i);
    Completeness(h, leaves, i);
    ClimbSplit(h, leafHash(fragment), excess + p.siblings, path, |excess|);
    assert (excess + p.siblings)[..|excess|] == excess && (excess + p.siblings)[|excess|..] == p.siblings;
  }

  // So if fragment i hashes like a pair of which x gives the left digest, x passes
  // for a fragment, with one sibling too many.
  lemma BelowLeafVerifies(h: PairHash<Digest>, leafHash: LeafHash, fragments: seq<Bytes>, i: nat, x: Bytes,
                          sibling: Digest)
    requires 2 <= |fragments| && i < |fragments| && leafHash(fragments[i]) == h(leafHash(x), sibling)
    ensures var leaves := LeavesOf(leafHash, fragments);
      var p := ProofOf(h, leaves, i);
      && |p.siblings| == Depth(|leaves|)
      && Verifies(h, leafHash, Root(h, leaves), Piece(Proof([sibling] + p.siblings, 2 * p.path + 1), x))
  {
    hide Depth, Root, ProofOf;
    var leaves := LeavesOf(leafHash, fragments);
    var p := ProofOf(h, leaves, i);
    Completeness(h, leaves, i);
    assert [sibling][1..] == [] && Shift(2 * p.path + 1, 1) == p.path;
    ExcessVerifies(h, leafHash, fragments, i, x, [sibling], 2 * p.path + 1);
  }

  /* ---- sizes ---- */

  lemma {:induction false} Pow2Monotone(j: nat, k: nat)
    requires j <= k
    ensures Pow2(j) <= Pow2(k)
  {
    if j < k { Pow2Monotone(j, k - 1); }
  }

  lemma {:induction false} LimitIsPow2(width: nat)
    ensures Limit(width) == Pow2(8 * width)
  {
    if width > 0 {
      LimitIsPow2(width - 1);
      Pow2Of8(8 * (width - 1));
    }
  }

  lemma Pow2Of8(k: nat)
    ensures Pow2(k + 8) == 256 * Pow2(k)
  {
    assert Pow2(k + 2) == 4 * Pow2(k);
    assert Pow2(k + 4) == 4 * Pow2(k + 2);
    assert Pow2(k + 6) == 4 * Pow2(k + 4);
  }

  lemma DepthFits(n: nat)
    requires 2 <= n <= Limit(4)
    ensures Depth(n) <= 32 < Limit(8)
  {
    hide Depth, Pow2;
    DepthIsCeilLog2(n);
    LimitIsPow2(4);
    assert Limit(8) > 32;
    if Depth(n) > 32 { Pow2Monotone(32, Depth(n) - 1); }
  }

  lemma PathFits(h: PairHash<Digest>, leaves: seq<Digest>, i: nat)
    requires 2 <= |leaves| <= Limit(4) && i < |leaves|
    ensures ProofOf(h, leaves, i).path < Limit(4)
  {
    hide Depth, Pow2, Limit, PathFrom, SiblingsFrom;
    DepthFits(|leaves|);
    PathBound(i, 0, Depth(|leaves|));
    Pow2Monotone(Depth(|leaves|), 32);
    LimitIsPow2(4);
  }
}
