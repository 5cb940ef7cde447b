/**
  The context that turns a message into fragments with proofs, and fragments
  back into the message.
 */
module FragmentContext {
  import opened Strides
  import opened Basics
  import opened Wire
  import opened MerkleSpec
  import MerkleTree
  import opened Fragments
  import opened Reassembly

  type Tree = MerkleTree.MerkleTree<Digest>

  // A call that throws or leaves the defined behaviour, or returns.
  datatype Call = Crashed | Done(ok: bool)

  /* ---- fragment j of instance i sits at j * instances + i ---- */

  function At(j: nat, i: nat, instances: nat): nat {
    Mul(j, instances) + i
  }

  lemma AtBound(j: nat, i: nat, instances: nat, count: nat)
    requires j < count && i < instances
    ensures At(j, i, instances) < Mul(count, instances)
  {
    MulStep(j, instances);
    MulMonotone(j + 1, count, instances);
  }

  lemma AtInjective(j: nat, i: nat, j': nat, i': nat, instances: nat)
    requires i < instances && i' < instances && At(j, i, instances) == At(j', i', instances)
    ensures j == j' && i == i'
  {
    assert (j - j') * instances == i' - i;
    QuotientUnique(instances, j - j', i' - i);
  }

  /* ---- what the sender holds ---- */

  ghost predicate Encodable(code: Code, message: Bytes, instances: nat, i: nat)
    requires 0 < instances
  {
    Chunk(message, instances, i).Some? && code.encode(Chunk(message, instances, i).value).Some?
  }

  // Every chunk exists and can be encoded.
  ghost predicate CanCut(code: Code, message: Bytes, instances: nat)
    requires 0 < instances
  {
    forall i: nat :: i < instances ==> Encodable(code, message, instances, i)
  }

  // The first n fragments of instance i are in place.
  ghost predicate Column(code: Code, message: Bytes, instances: nat, fragments: seq<Bytes>, i: nat, n: nat)
    requires 0 < instances
  {
    Encodable(code, message, instances, i) &&
      InColumn(code.encode(Chunk(message, instances, i).value).value, instances, fragments, i, n)
  }

  ghost predicate InColumn(encoded: seq<Bytes>, instances: nat, fragments: seq<Bytes>, i: nat, n: nat) {
    n <= |encoded| && forall j: nat :: j < n ==>
      At(j, i, instances) < |fragments| && fragments[At(j, i, instances)] == encoded[j]
  }

  // All fragments of the message.
  ghost predicate Holds(code: Code, message: Bytes, instances: nat, fragments: seq<Bytes>)
    requires 0 < instances
  {
    && |fragments| == Mul(code.shards, instances)
    && forall i: nat :: i < instances ==> Column(code, message, instances, fragments, i, code.shards)
  }

  // A message can be cut exactly when its last chunk starts before its end, or
  // at its end if the coder takes an empty chunk.
  lemma CanCutIff(code: Code, message: Bytes, instances: nat)
    requires 0 < instances && code.Encodes()
    ensures var start := Mul(instances - 1, ChunkLen(|message|, instances));
      CanCut(code, message, instances) <==> start < |message| || (start == |message| && code.encode([]).Some?)
  {
    hide Chunk, ChunkLen, Mul;
    CutIffLastFits(message, instances);
    var start, last := Mul(instances - 1, ChunkLen(|message|, instances)), Chunk(message, instances, instances - 1);
    assert CanCut(code, message, instances) ==> Encodable(code, message, instances, instances - 1);
    ChunkNotEmpty(message, instances, instances - 1);
    assert CanCut(code, message, instances) ==> forall i: nat :: i < instances ==>
      Chunk(message, instances, i).Some? by {
      forall i: nat | i < instances && CanCut(code, message, instances) ensures Chunk(message, instances, i).Some? {
        assert Encodable(code, message, instances, i);
      }
    }
    assert start == |message| && last.Some? ==> last.value == [];
  }

  /* ---- what the receiver holds ---- */

  // What instance i sees of the slots.
  function ViewAt(list: seq<Storage>, i: nat): (view: seq<Bytes>) {
    seq(|list|, j requires 0 <= j < |list| => if |list[j].encodeFragment| > i then list[j].encodeFragment[i] else [])
  }

  function ViewsOf(list: seq<Storage>, instances: nat): (views: seq<seq<Bytes>>) {
    seq(instances, i requires 0 <= i < instances => ViewAt(list, i))
  }

  function SizesOf(size: nat, bufferSize: nat, instances: nat): (sizes: seq<nat>)
    requires 0 < instances && Mul(instances - 1, ChunkLen(size, instances)) <= bufferSize
  {
    seq(instances, i requires 0 <= i < instances => (DataSize(size, bufferSize, instances, i) as nat))
  }

  /* ---- loops of the codec ---- */

  // From the top, drop the siblings that the previous proof has too.
  method CountFresh(prev: seq<Digest>, cur: seq<Digest>) returns (count: nat)
    requires |prev| == |cur|
    ensures count == Fresh(prev, cur)
  {
    hide Fresh;
    var lastIndex := |cur| - 1;
    while lastIndex >= 0 && prev[lastIndex] == cur[lastIndex]
      invariant -1 <= lastIndex < |cur|
      invariant forall p :: lastIndex < p < |cur| ==> prev[p] == cur[p]
    {
      lastIndex := lastIndex - 1;
    }
    FreshUnique(prev, cur, lastIndex + 1);
    count := lastIndex + 1;
  }

  lemma {:induction false} DigestsAppend(ds: seq<Digest>, d: Digest)
    ensures WriteDigests(ds + [d]) == WriteDigests(ds) + d
  {
    if ds == [] {
      assert ds + [d] == [d] && [d][1..] == [];
      assert WriteDigests([d]) == d + [];
    } else {
      DigestsAppend(ds[1..], d);
      assert (ds + [d])[1..] == ds[1..] + [d];
    }
  }

  method WriteSiblings(out: Bytes, siblings: seq<Digest>, count: nat) returns (out': Bytes)
    requires count <= |siblings|
    ensures out' == out + WriteDigests(siblings[..count])
  {
    hide WriteDigests;
    out' := out;
    assert WriteDigests(siblings[..0]) == [] by { NoDigests(siblings[..0]); }
    for j := 0 to count
      invariant out' == out + WriteDigests(siblings[..j])
    {
      DigestsAppend(siblings[..j], siblings[j]);
      assert siblings[..j + 1] == siblings[..j] + [siblings[j]];
      out' := out' + siblings[j];
    }
  }

  function After(siblings: seq<Digest>, r: Parsed<seq<Digest>>): Parsed<seq<Digest>> {
    if r.Failed? then Failed else Read(siblings + r.value, r.rest)
  }

  lemma AfterNone(r: Parsed<seq<Digest>>)
    ensures After([], r) == r
  {
    if r.Read? { assert [] + r.value == r.value; }
  }

  lemma AfterStep(siblings: seq<Digest>, d: Digest, r: Parsed<seq<Digest>>)
    ensures After(siblings + [d], r) == After(siblings, After([d], r))
  {
    if r.Read? { assert (siblings + [d]) + r.value == siblings + ([d] + r.value); }
  }

  // Read the siblings that were sent.
  method ReadSiblings(raw: Bytes, count: nat) returns (r: Parsed<seq<Digest>>)
    ensures r == ReadDigests(raw, count)
  {
    var siblings, rest := [], raw;
    AfterNone(ReadDigests(raw, count));
    for j := 0 to count
      invariant ReadDigests(raw, count) == After(siblings, ReadDigests(rest, count - j))
    {
      if |rest| < HASH_LEN {
        return Failed;
      }
      var d: Digest := rest[..HASH_LEN];
      AfterStep(siblings, d, ReadDigests(rest[HASH_LEN..], count - j - 1));
      siblings, rest := siblings + [d], rest[HASH_LEN..];
    }
    assert siblings + [] == siblings;
    r := Read(siblings, rest);
  }

  // Copy the first n siblings into the cache.
  method Overwrite(cache: seq<Digest>, siblings: seq<Digest>, n: nat) returns (r: seq<Digest>)
    requires n <= |cache| && n <= |siblings|
    ensures r == siblings[..n] + cache[n..]
  {
    r := cache;
    for j := 0 to n
      invariant |r| == |cache|
      invariant forall k :: 0 <= k < |r| ==> r[k] == if k < j then siblings[k] else cache[k]
    {
      r := r[j := siblings[j]];
    }
  }

  // Read one entry and complete its proof from the previous one.
  method ReadEntry(depth: nat, prev: Base, raw: Bytes) returns (r: Parsed<Piece>)
    ensures r == DecodeEntry(depth, prev, raw)
  {
    hide ReadInt, ReadDigests, ReadString;
    var path := ReadInt(raw, 4);
    if path.Failed? { return Failed; }
    var count := ReadInt(path.rest, 8);
    if count.Failed? { return Failed; }
    var sent := ReadSiblings(count.rest, count.value);
    if sent.Failed? { return Failed; }
    if prev.Cache? && count.value > depth { return Failed; }
    var siblings := sent.value;
    if !prev.Nothing? && count.value < depth {
      if |prev.siblings| < depth { return Failed; }
      for j := count.value to depth
        invariant siblings == sent.value + prev.siblings[count.value..j]
      {
        siblings := siblings + [prev.siblings[j]];
      }
    }
    var fragment := ReadString(sent.rest);
    if fragment.Failed? { return Failed; }
    r := Read(Piece(Proof(siblings, path.value), fragment.value), fragment.rest);
  }

  method WriteEntry(out: Bytes, piece: Piece, count: nat) returns (out': Bytes)
    requires count <= |piece.proof.siblings|
    ensures out' == out + Entry(piece, count)
  {
    hide WriteInt, WriteDigests, WriteString;
    out' := out + (WriteInt(piece.proof.path, 4) + WriteInt(count, 8));
    out' := WriteSiblings(out', piece.proof.siblings, count);
    out' := out' + WriteString(piece.fragment);
    assert out' == out + Entry(piece, count);
  }

  lemma NoDigests(ds: seq<Digest>)
    requires ds == []
    ensures WriteDigests(ds) == []
  {
  }

  // The buffer up to an offset, with zeros where it is too short.
  function Front(buffer: Bytes, offset: nat): Bytes {
    if offset <= |buffer| then buffer[..offset] else buffer + seq(offset - |buffer|, i => 0)
  }

  ghost predicate Sent(out: Bytes, buffer: Bytes, offset: nat, pieces: seq<Piece>, first: nat, last: nat) {
    first < last <= |pieces| && Uniform(pieces) && out == Front(buffer, offset) + Stream(pieces, first, last)
  }

  lemma PiecesUniform(h: PairHash<Digest>, leafHash: LeafHash, fragments: seq<Bytes>)
    requires 2 <= |fragments|
    ensures var pieces := PiecesOf(h, leafHash, fragments);
      Uniform(pieces) && forall i :: 0 <= i < |pieces| ==> |pieces[i].proof.siblings| == Depth(|fragments|)
  {
    hide ProofOf, Climb, Depth, Root;
    var pieces, leaves := PiecesOf(h, leafHash, fragments), LeavesOf(leafHash, fragments);
    forall i | 0 <= i < |pieces| ensures |pieces[i].proof.siblings| == Depth(|leaves|) {
      Completeness(h, leaves, i);
    }
  }

  // Slots j and above of a range that fits.
  lemma RangeFits(start: nat, end: nat, count: nat, instances: nat)
    requires start < end <= count && 0 < instances
    ensures Mul(start, instances) < Mul(end, instances) <= Mul(count, instances)
  {
    MulMonotone(start + 1, end, instances);
    MulStep(start, instances);
    MulMonotone(end, count, instances);
  }

  /* ---- the context ---- */

  class Context {
    const instances: nat
    const code: Code
    const h: PairHash<Digest>
    const leafHash: LeafHash
    var ecEncodeResult: seq<Bytes>
    var mt: MerkleTree.MerkleTree?<Digest>
    var decodeStorageList: seq<Storage>

    constructor (instances_: nat, code_: Code, h_: PairHash<Digest>, leafHash_: LeafHash)
      ensures instances == instances_ && code == code_ && h == h_ && leafHash == leafHash_
      ensures mt == null && decodeStorageList == seq(code.shards, j => Storage(false, [], []))
    {
      instances, code, h, leafHash := instances_, code_, h_, leafHash_;
      ecEncodeResult, mt := [], null;
      decodeStorageList := seq(code_.shards, j => Storage(false, [], []));
    }

    // The fragments of a message, with a tree over them.
    ghost predicate Ready()
      reads this, mt, if mt != null then {mt.proofs} else {}
    {
      && 0 < instances
      && mt != null && mt.ProofsOk() && mt.h == h && mt.leaves == LeavesOf(leafHash, ecEncodeResult)
      && mt.root == Root(h, mt.leaves)
      && |ecEncodeResult| == Mul(code.shards, instances)
    }

    // Put the fragments of instance idx at every instances-th place.
    method FillColumn(idx: nat, encoded: seq<Bytes>)
      requires idx < instances && |encoded| == code.shards && |ecEncodeResult| == Mul(code.shards, instances)
      modifies `ecEncodeResult
      ensures |ecEncodeResult| == Mul(code.shards, instances)
      ensures InColumn(encoded, instances, ecEncodeResult, idx, code.shards)
      ensures forall other, i: nat, n: nat ::
        i < instances && i != idx && InColumn(other, instances, old(ecEncodeResult), i, n) ==>
                InColumn(other, instances, ecEncodeResult, i, n)
    {
      hide Mul, At;
      for j := 0 to code.shards
        invariant |ecEncodeResult| == Mul(code.shards, instances)
        invariant InColumn(encoded, instances, ecEncodeResult, idx, j)
        invariant forall other, i: nat, n: nat ::
          i < instances && i != idx && InColumn(other, instances, old(ecEncodeResult), i, n) ==>
                    InColumn(other, instances, ecEncodeResult, i, n)
      {
        AtBound(j, idx, instances, code.shards);
        ghost var before := ecEncodeResult;
        ecEncodeResult := ecEncodeResult[At(j, idx, instances) := encoded[j]];
        Placed(instances, before, j, idx, encoded);
      }
    }

    method InitWithMessage(message: Bytes) returns (r: Call)
      requires 0 < instances && code.Encodes()
      modifies `ecEncodeResult, `mt
      ensures old(mt) != null ==> r == Done(false) && mt == old(mt) && ecEncodeResult == old(ecEncodeResult)
      ensures old(mt) == null ==>
        && (r == Crashed <==> |message| < Mul(instances - 1, ChunkLen(|message|, instances)))
        && (r == Done(true) <==> CanCut(code, message, instances) && 2 <= Mul(code.shards, instances))
      ensures r == Done(true) ==> Ready() && Holds(code, message, instances, ecEncodeResult)
    {
      hide Mul, ChunkLen, Chunk, Substr, Column, Code.Encodes;
      if mt != null {
        return Done(false);
      }
      var len, success := ChunkLen(|message|, instances), true;
      ecEncodeResult := seq(Mul(code.shards, instances), p => []);
      CutIffLastFits(message, instances);
      for i := 0 to instances
        invariant mt == null && |ecEncodeResult| == Mul(code.shards, instances)
        invariant forall k: nat :: k < i ==> Chunk(message, instances, k).Some?
        invariant success ==> forall k: nat :: k < i ==>
          Column(code, message, instances, ecEncodeResult, k, code.shards)
        invariant !success ==> exists k: nat :: k < i && !Encodable(code, message, instances, k)
      {
        var chunk := Substr(message, Mul(i, len), Mul(i + 1, len));
        assert chunk == Chunk(message, instances, i) by { ChunkIs(message, instances, i); }
        if chunk.None? {
          assert !Encodable(code, message, instances, i);
          return Crashed;
        }
        var encoded := code.encode(chunk.value);
        if encoded.None? {
          assert !Encodable(code, message, instances, i);
          success := false;
        } else {
          ghost var before := ecEncodeResult;
          assert |encoded.value| == code.shards by { EncodesSize(code, chunk.value); }
          FillColumn(i, encoded.value);
          ColumnsKept(code, message, instances, before, ecEncodeResult, i, success);
        }
      }
      if !success {
        return Done(false);
      }
      ColumnsCanCut(code, message, instances, ecEncodeResult);
      mt := MerkleTree.MerkleTree.New(h, LeavesOf(leafHash, ecEncodeResult),
        MerkleTree.ModeProofGenAndTreeBuild, true, 0);
      r := Done(mt != null);
    }

    method SerializeFragments(start: int, end: int, bufferOut: Bytes, offset: nat) returns (ok: bool, out: Bytes)
      requires Ready()
      ensures ok <==> 0 <= start < end <= code.shards
      ensures !ok ==> out == bufferOut
      ensures ok ==> Sent(out, bufferOut, offset, PiecesOf(h, leafHash, ecEncodeResult), Mul(start, instances),
        Mul(end, instances))
    {
      hide Mul, Fresh, Entry, Entries, ProofOf, PiecesOf, WriteInt, Depth, Root, Front, Uniform;
      if start < 0 || start >= end || end > code.shards {
        return false, bufferOut;
      }
      RangeFits(start, end, code.shards, instances);
      var first, last, proofs := Mul(start, instances), Mul(end, instances), mt.proofs[..];
      ghost var pieces := PiecesOf(h, leafHash, ecEncodeResult);
      PiecesUniform(h, leafHash, ecEncodeResult);
      PiecesAre(h, leafHash, ecEncodeResult, proofs);
      var depth := |proofs[first].siblings|;
      ghost var all := Front(bufferOut, offset) + Stream(pieces, first, last);
      out := Front(bufferOut, offset) + WriteInt(depth, 8);
      assert out + Entries(pieces, first, first, last) == all;
      for i := first to last
        invariant out + Entries(pieces, first, i, last) == all
      {
        var count := depth;
        if i != first {
          count := CountFresh(proofs[i - 1].siblings, proofs[i].siblings);
        }
        EntriesStep(out, pieces, first, i, last);
        out := WriteEntry(out, Piece(proofs[i], ecEncodeResult[i]), count);
      }
      assert out + [] == out;
      NoMoreEntries(pieces, first, last);
      ok := true;
    }

    // Read and check the entries of one fragment.
    method ReadFragment(root: Digest, depth: nat, base: Base, raw: Bytes) returns (r: SlotRead)
      ensures r == DecodeEntries(h, leafHash, root, depth, base, raw, instances, [])
    {
      hide DecodeEntry, DecodeEntries, Climb;
      var pieces, prev, rest := [], base, raw;
      ghost var whole := DecodeEntries(h, leafHash, root, depth, base, raw, instances, []);
      for offset := 0 to instances
        invariant whole == DecodeEntries(h, leafHash, root, depth, prev, rest, instances - offset, pieces)
      {
        var entry := ReadEntry(depth, prev, rest);
        if entry.Failed? {
          DecodeFails(h, leafHash, root, depth, prev, rest, instances - offset, pieces);
          return SlotRead(Threw, pieces, rest);
        }
        DecodeStep(h, leafHash, root, depth, prev, rest, instances - offset, pieces, entry.value, entry.rest);
        var ok := MerkleTree.MerkleTree.Verify(h, leafHash(entry.value.fragment), entry.value.proof, root);
        if !ok {
          return SlotRead(Rejected, pieces, rest);
        }
        pieces, prev, rest := pieces + [entry.value], Previous(entry.value.proof.siblings), entry.rest;
      }
      NoEntries(h, leafHash, root, depth, prev, rest, pieces);
      r := SlotRead(Accepted, pieces, rest);
    }

    // Read over a claimed fragment, with its siblings going into the cache.
    method SkipFragment(mem: Memory, raw: Bytes) returns (r: Parsed<Memory>)
      ensures r == SkipSlot(mem, raw, instances)
    {
      hide SkipEntries, ReadInt, ReadDigests, ReadString;
      var cache: seq<Digest>, rest := mem.cache, raw;
      if mem.prev.Some? {
        if |mem.prev.value| < |cache| {
          return Failed;
        }
        cache := Overwrite(cache, mem.prev.value, |cache|);
        assert cache == mem.prev.value[..|mem.cache|];
      }
      ghost var whole := SkipEntries(cache, raw, instances);
      for offset := 0 to instances
        invariant whole == SkipEntries(cache, rest, instances - offset)
      {
        SkipStepIs(cache, rest, instances - offset);
        var path := ReadInt(rest, 4);
        if path.Failed? { return Failed; }
        var count := ReadInt(path.rest, 8);
        if count.Failed? { return Failed; }
        var sent := ReadSiblings(count.rest, count.value);
        if sent.Failed? || count.value > |cache| { return Failed; }
        cache := Overwrite(cache, sent.value, count.value);
        assert sent.value[..count.value] == sent.value;
        var fragment := ReadString(sent.rest);
        if fragment.Failed? { return Failed; }
        rest := fragment.rest;
      }
      SkipNone(cache, rest);
      r := Read(Memory(mem.prev, cache, true), rest);
    }

    // Read the fragments start .. end - 1 into the slots that are not claimed.
    method ValidateAndDeserializeFragments(root: Digest, raw: Bytes, start: int, end: int) returns (r: Call)
      requires |decodeStorageList| == code.shards
      modifies `decodeStorageList
      ensures var receipt := Validate(h, leafHash, root, raw, old(decodeStorageList), start, end, instances);
        && decodeStorageList == receipt.list
        && r == match receipt.verdict case Threw => Crashed case Rejected => Done(false) case Accepted => Done(true)
      ensures Guarded(h, leafHash, root, old(decodeStorageList), decodeStorageList, start, end)
    {
      hide DecodeEntries, SkipSlot, ReadInt, Kept, LastProof, Guarded, Take;
      ValidateGuards(h, leafHash, root, raw, decodeStorageList, start, end, instances);
      if start < 0 || start >= end || end > code.shards {
        return Done(false);
      }
      var header := ReadInt(raw, 8);
      if header.Failed? {
        return Crashed;
      }
      var depth, mem, rest := header.value, StartMemory(header.value), header.rest;
      ghost var whole := Take(h, leafHash, root, depth, mem, rest, decodeStorageList, start, end, instances);
      for i := start to end
        invariant |decodeStorageList| == code.shards
        invariant whole == Take(h, leafHash, root, depth, mem, rest, decodeStorageList, i, end, instances)
      {
        TakeStep(h, leafHash, root, depth, mem, rest, decodeStorageList, i, end, instances);
        if decodeStorageList[i].claimed {
          var skipped := SkipFragment(mem, rest);
          if skipped.Failed? {
            return Crashed;
          }
          mem, rest := skipped.value, skipped.rest;
        } else {
          var slot := ReadFragment(root, depth, mem.Base(), rest);
          decodeStorageList := decodeStorageList[i := Kept(slot.pieces, instances)];
          if slot.verdict != Accepted {
            return if slot.verdict == Threw then Crashed else Done(false);
          }
          mem, rest := LastProof(mem, slot.pieces), slot.rest;
        }
      }
      TakeNone(h, leafHash, root, depth, mem, rest, decodeStorageList, end, instances);
      r := Done(true);
    }

    // Decode the part of every instance into its place of the buffer.
    // If the last part would start past the end of the buffer, the program
    // writes outside it.
    method RegenerateMessage(actualMessageSize: nat, bufferOut: Bytes) returns (r: Call, buf: Bytes)
      requires 0 < instances && code.Decodes()
      ensures |buf| == if |bufferOut| < actualMessageSize then actualMessageSize else |bufferOut|
      ensures r == Crashed <==> |buf| < Mul(instances - 1, ChunkLen(actualMessageSize, instances))
      ensures r != Crashed ==>
        var whole := Assembled(code, ViewsOf(decodeStorageList, instances),
          SizesOf(actualMessageSize, |buf|, instances), instances);
        r == Done(whole.Some?) && (whole.Some? ==> buf == whole.value)
    {
      hide Mul, ChunkLen, Assembled, DataSize, Code.Decodes, ViewAt;
      var len := ChunkLen(actualMessageSize, instances);
      var ok := true;
      buf := if |bufferOut| < actualMessageSize then Front(bufferOut, actualMessageSize) else bufferOut;
      if |buf| < Mul(instances - 1, len) {
        return Crashed, buf;
      }
      ghost var size := |buf|;
      ghost var views, sizes := ViewsOf(decodeStorageList, instances), SizesOf(actualMessageSize, size, instances);
      NothingAssembled(code, views, sizes);
      MulStep(0, len);
      for i := 0 to instances
        invariant |buf| == size && ok == Assembled(code, views, sizes, i).Some?
        invariant ok ==> |Assembled(code, views, sizes, i).value| <= size
        invariant ok ==> buf[..|Assembled(code, views, sizes, i).value|] == Assembled(code, views, sizes, i).value
        invariant ok ==> |Assembled(code, views, sizes, i).value| == if i == instances then size else Mul(i, len)
      {
        var dataSize := DataSize(actualMessageSize, |buf|, instances, i);
        PartFits(actualMessageSize, size, instances, i);
        var part := code.decode(ViewAt(decodeStorageList, i), dataSize);
        AssembledStep(code, views, sizes, i);
        if part.None? {
          ok := false;
        } else {
          DecodesSize(code, ViewAt(decodeStorageList, i), dataSize);
          buf := buf[..Mul(i, len)] + part.value + buf[Mul(i, len) + dataSize..];
          assert ok ==> buf[..Mul(i, len) + dataSize] == Assembled(code, views, sizes, i).value + part.value;
        }
      }
      r := Done(ok);
    }
  }

  lemma SkipStepIs(cache: seq<Digest>, raw: Bytes, n: nat)
    requires 0 < n
    ensures SkipEntries(cache, raw, n) ==
      match ReadInt(raw, 4)
      case Failed => Failed
      case Read(_, raw1) => match ReadInt(raw1, 8)
      case Failed => Failed
      case Read(count, raw2) => match ReadDigests(raw2, count)
      case Failed => Failed
      case Read(ds, raw3) => match ReadString(raw3)
      case Failed => Failed
      case Read(_, rest) => if count > |cache| then Failed else SkipEntries(ds + cache[count..], rest, n - 1)
  {
    hide ReadInt, ReadDigests, ReadString;
  }

  lemma NothingAssembled(code: Code, views: seq<seq<Bytes>>, sizes: seq<nat>)
    requires |views| == |sizes|
    ensures Assembled(code, views, sizes, 0) == Some([])
  {
  }

  lemma DecodesSize(code: Code, view: seq<Bytes>, d: nat)
    requires code.Decodes() && code.decode(view, d).Some?
    ensures |code.decode(view, d).value| == d
  {
  }

  lemma PartFits(size: nat, bufferSize: nat, instances: nat, i: nat)
    requires i < instances && Mul(instances - 1, ChunkLen(size, instances)) <= bufferSize
    ensures var d, len := DataSize(size, bufferSize, instances, i), ChunkLen(size, instances);
      0 <= d && Mul(i, len) + d == if i == instances - 1 then bufferSize else Mul(i + 1, len)
    ensures Mul(i, ChunkLen(size, instances)) + DataSize(size, bufferSize, instances, i) <= bufferSize
  {
    hide Mul, ChunkLen;
    var len := ChunkLen(size, instances);
    MulStep(i, len);
    if i < instances - 1 { MulMonotone(i + 1, instances - 1, len); }
  }

  // What RegenerateMessage gives with enough fragments, for every buffer: it
  // succeeds exactly if the buffer is not longer than the last instance can fill,
  // which is always at least the message, and what comes out starts with the message.
  ghost predicate Rebuilds(code: Code, message: Bytes, views: seq<seq<Bytes>>, bufferSize: nat) {
    && 0 < |views| && Mul(|views| - 1, ChunkLen(|message|, |views|)) <= |message| <= bufferSize
    && |message| <= Room(code, |message|, |views|)
    && var r := Assembled(code, views, SizesOf(|message|, bufferSize, |views|), |views|);
       && (r.Some? <==> bufferSize <= Room(code, |message|, |views|))
       && (r.Some? ==> |r.value| == bufferSize && message <= r.value)
  }

  lemma RegeneratesIffRoom(code: Code, message: Bytes, views: seq<seq<Bytes>>, bufferSize: nat)
    requires code.Decodes() && Views(code, message, views) && |message| <= bufferSize
    ensures Rebuilds(code, message, views, bufferSize)
  {
    hide Mul, ChunkLen, DataSize, Code.Decodes, Assembled, Chunk, ViewOk;
    ChunksThere(code, message, views);
    CutIffLastFits(message, |views|);
    ReassemblesMessage(code, message, views, bufferSize, SizesOf(|message|, bufferSize, |views|));
  }

  // Two bytes and a buffer of three: a code that pads delivers a zero after the
  // message, a code that knows the length of its chunk refuses.
  lemma LongBuffer(message: Bytes, pad: nat)
    requires |message| == 2
    ensures Copies(1, pad).Decodes() && Views(Copies(1, pad), message, [[message]]) && Mul(0, ChunkLen(2, 1)) <= 3
    ensures Assembled(Copies(1, pad), [[message]], SizesOf(2, 3, 1), 1) ==
      if pad == 0 then None else Some(message + [0])
  {
    var code := Copies(1, pad);
    CopiesMeetContract(1, pad);
    assert Chunk(message, 1, 0) == Some(message) by { assert message[0..2] == message; }
    assert code.encode(message) == Some([message]) by { assert seq(1, j => message) == [message]; }
    assert Present([message]) == {0};
    assert FirstPresent([message]) == message;
    assert SizesOf(2, 3, 1) == [3];
    assert seq(1, i => 0) == [0];
    assert code.decode([message], 3) == TakePadded(message, 3, pad);
    assert pad > 0 ==> TakePadded(message, 3, pad).value == message + [0];
    assert [] + (message + [0]) == message + [0];
  }

  lemma AssembledStep(code: Code, views: seq<seq<Bytes>>, sizes: seq<nat>, k: nat)
    requires k < |views| == |sizes|
    ensures Assembled(code, views, sizes, k + 1) ==
      var front, part := Assembled(code, views, sizes, k), code.decode(views[k], sizes[k]);
      if front.Some? && part.Some? then Some(front.value + part.value) else None
  {
  }

  lemma PiecesAre(h: PairHash<Digest>, leafHash: LeafHash, fragments: seq<Bytes>, proofs: seq<Proof<Digest>>)
    requires 2 <= |fragments| == |proofs|
    requires forall i :: 0 <= i < |proofs| ==> proofs[i] == ProofOf(h, LeavesOf(leafHash, fragments), i)
    ensures forall i :: 0 <= i < |proofs| ==> Piece(proofs[i], fragments[i]) == PiecesOf(h, leafHash, fragments)[i]
  {
    hide ProofOf;
  }

  lemma NoMoreEntries(pieces: seq<Piece>, first: nat, last: nat)
    requires first <= last <= |pieces| && Uniform(pieces)
    ensures Entries(pieces, first, last, last) == []
  {
  }

  lemma EntriesStep(out: Bytes, pieces: seq<Piece>, first: nat, i: nat, last: nat)
    requires first <= i < last <= |pieces| && Uniform(pieces)
    ensures out + Entries(pieces, first, i, last) ==
      (out + Entry(pieces[i], CountAt(pieces, first, i))) + Entries(pieces, first, i + 1, last)
  {
    hide Entry, CountAt;
  }

  lemma Placed(instances: nat, before: seq<Bytes>, j: nat, idx: nat, encoded: seq<Bytes>)
    requires idx < instances && j < |encoded| && At(j, idx, instances) < |before|
    requires InColumn(encoded, instances, before, idx, j)
    ensures var after := before[At(j, idx, instances) := encoded[j]];
      && InColumn(encoded, instances, after, idx, j + 1)
      && forall other, i: nat, n: nat :: i < instances && i != idx && InColumn(other, instances, before, i, n) ==>
           InColumn(other, instances, after, i, n)
  {
    hide At;
    forall k: nat, i: nat | i < instances && At(k, i, instances) == At(j, idx, instances) ensures k == j && i == idx {
      AtInjective(k, i, j, idx, instances);
    }
  }

  lemma ChunkIs(message: Bytes, instances: nat, i: nat)
    requires 0 < instances
    ensures Chunk(message, instances, i) ==
      Substr(message, Mul(i, ChunkLen(|message|, instances)), Mul(i + 1, ChunkLen(|message|, instances)))
  {
  }

  lemma EncodesSize(code: Code, data: Bytes)
    requires code.Encodes() && code.encode(data).Some?
    ensures |code.encode(data).value| == code.shards
  {
  }

  lemma ColumnsKept(code: Code, message: Bytes, instances: nat, before: seq<Bytes>, after: seq<Bytes>, idx: nat,
                    success: bool)
    requires 0 < instances && Encodable(code, message, instances, idx)
    requires InColumn(code.encode(Chunk(message, instances, idx).value).value, instances, after, idx, code.shards)
    requires success ==> forall k: nat :: k < idx ==> Column(code, message, instances, before, k, code.shards)
    requires idx < instances
    requires forall other, i: nat, n: nat :: i < instances && i != idx && InColumn(other, instances, before, i, n) ==>
               InColumn(other, instances, after, i, n)
    ensures success ==> forall k: nat :: k < idx + 1 ==> Column(code, message, instances, after, k, code.shards)
  {
    hide Chunk, InColumn;
    forall k: nat | k < idx + 1 && success ensures Column(code, message, instances, after, k, code.shards) {
      assert k < idx ==> Column(code, message, instances, before, k, code.shards);
    }
  }

  lemma ColumnsCanCut(code: Code, message: Bytes, instances: nat, fragments: seq<Bytes>)
    requires 0 < instances
    requires forall k: nat :: k < instances ==> Column(code, message, instances, fragments, k, code.shards)
    ensures CanCut(code, message, instances)
  {
    hide Chunk, InColumn;
    forall k: nat | k < instances ensures Encodable(code, message, instances, k) {
      assert Column(code, message, instances, fragments, k, code.shards);
    }
  }
}
