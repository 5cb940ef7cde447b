/**
  Cutting a message into one chunk per coder instance, and putting it together
  again from decoded chunks. Chunks may overlap: chunk i starts at i * len but
  asks for (i + 1) * len bytes.
 */
module Reassembly {
  import opened Basics
  import opened Wire

  // The bytes of one chunk: the message size divided by the instances, rounded up.
  function ChunkLen(size: nat, instances: nat): nat
    requires 0 < instances
  {
    if size % instances != 0 then size / instances + 1 else size / instances
  }

  // At most count bytes from pos on; None when pos is past the end.
  function Substr(s: Bytes, pos: nat, count: nat): Option<Bytes> {
    if pos > |s| then None else Some(s[pos..Min(|s|, pos + count)])
  }

  function Chunk(message: Bytes, instances: nat, i: nat): Option<Bytes>
    requires 0 < instances
  {
    var len := ChunkLen(|message|, instances);
    Substr(message, Mul(i, len), Mul(i + 1, len))
  }

  // How many bytes instance i decodes into a buffer of that size.
  function DataSize(size: nat, bufferSize: nat, instances: nat, i: nat): int
    requires 0 < instances
  {
    var len := ChunkLen(size, instances);
    if i == instances - 1 then bufferSize - Mul(i, len) else len
  }

  /* ---- the erasure code ---- */

  // view holds some of the fragments; the others are empty.
  ghost predicate PartOf(view: seq<Bytes>, fragments: seq<Bytes>) {
    |view| == |fragments| && forall j :: 0 <= j < |view| ==> view[j] == [] || view[j] == fragments[j]
  }

  ghost function Present(view: seq<Bytes>): set<int> {
    set j | 0 <= j < |view| && view[j] != []
  }

  // A code for dataShards out of shards fragments. From fragments of n bytes it
  // decodes up to capacity(n) bytes: padding may follow the data.
  datatype Code = Code(dataShards: nat, shards: nat,
                       encode: Bytes -> Option<seq<Bytes>>, decode: (seq<Bytes>, nat) -> Option<Bytes>,
                       capacity: nat -> nat)
  {
    ghost predicate Encodes() {
      && (forall data :: data != [] ==> encode(data).Some?)
      && (forall data :: encode(data).Some? ==> |encode(data).value| == shards && [] !in encode(data).value)
    }

    // view holds enough fragments of data.
    ghost predicate Enough(data: Bytes, view: seq<Bytes>) {
      encode(data).Some? && PartOf(view, encode(data).value) && |Present(view)| >= dataShards
    }

    // Enough fragments of a chunk give its first d bytes back, and for larger d
    // the chunk with something after it, up to the capacity.
    ghost predicate Decodes() {
      && (forall n: nat :: n <= capacity(n))
      && (forall view, d: nat :: decode(view, d).Some? ==> |decode(view, d).value| == d)
      && (forall data, view, d: nat :: Enough(data, view) ==> DecodesTo(data, d, decode(view, d)))
    }

    ghost predicate DecodesTo(data: Bytes, d: nat, r: Option<Bytes>) {
      && (r.Some? <==> d <= capacity(|data|))
      && (r.Some? ==> if d <= |data| then r.value == data[..d] else data <= r.value)
    }
  }

  function FirstPresent(view: seq<Bytes>): (b: Bytes)
    ensures b != [] ==> b in view
    ensures b == [] ==> forall j :: 0 <= j < |view| ==> view[j] == []
  {
    if view == [] then [] else if view[0] != [] then view[0] else FirstPresent(view[1..])
  }

  // The first d bytes of b, with at most pad zeros after it.
  function TakePadded(b: Bytes, d: nat, pad: nat): Option<Bytes> {
    if d <= |b| then Some(b[..d])
    else if d <= |b| + pad then Some(b + seq(d - |b|, i => 0))
    else None
  }

  function Copies(n: nat, pad: nat): Code {
    Code(1, n, data => if data == [] then None else Some(seq(n, j => data)),
         (view: seq<Bytes>, d: nat) => TakePadded(FirstPresent(view), d, pad), m => m + pad)
  }

  // The contract can be met, with any padding: by sending a whole copy to everyone.
  lemma CopiesMeetContract(n: nat, pad: nat)
    ensures Copies(n, pad).Encodes() && Copies(n, pad).Decodes()
  {
    var code := Copies(n, pad);
    forall data: Bytes, view, d: nat | code.Enough(data, view) ensures code.DecodesTo(data, d, code.decode(view, d)) {
      var j :| j in Present(view);
      assert FirstPresent(view) == data;
    }
  }

  /* ---- when a message can be cut ---- */

  lemma ChunkLenBounds(size: nat, instances: nat)
    requires 0 < instances
    ensures size <= Mul(instances, ChunkLen(size, instances))
    ensures size > 0 ==> ChunkLen(size, instances) > 0
  {
    var len := ChunkLen(size, instances);
    assert size == instances * (size / instances) + size % instances;
    if size % instances != 0 {
      assert instances * len == instances * (size / instances) + instances;
    }
  }

  // The chunk length is the least with which the chunks cover the message.
  lemma ChunkLenLeast(size: nat, instances: nat, len: nat)
    requires 0 < instances
    ensures size <= Mul(instances, len) <==> ChunkLen(size, instances) <= len
  {
    hide Mul, ChunkLen;
    var least := ChunkLen(size, instances);
    ChunkLenBounds(size, instances);
    if least <= len {
      MulSwap(instances, least);
      MulSwap(instances, len);
      MulMonotone(least, len, instances);
    } else {
      TooShort(size, instances, len);
    }
  }

  lemma MulSwap(a: nat, b: nat)
    ensures Mul(a, b) == Mul(b, a)
  {
  }

  lemma TooShort(size: nat, instances: nat, len: nat)
    requires 0 < instances && len < ChunkLen(size, instances)
    ensures Mul(instances, len) < size
  {
    var q, r := size / instances, size % instances;
    assert size == Mul(q, instances) + r;
    hide Mul;
    MulSwap(instances, len);
    MulMonotone(len, q, instances);
    if r == 0 {
      MulStep(len, instances);
      MulMonotone(len + 1, q, instances);
    }
  }

  // Chunk i starts at i * len and has (i + 1) * len bytes, as far as the message goes:
  // chunks overlap from the second on.
  lemma ChunkSpan(message: Bytes, instances: nat, i: nat)
    requires 0 < instances
    ensures var len, c := ChunkLen(|message|, instances), Chunk(message, instances, i);
      && (c.Some? <==> Mul(i, len) <= |message|)
      && (c.Some? ==>
            && |c.value| == Min(|message| - Mul(i, len), Mul(i + 1, len))
            && forall j :: 0 <= j < |c.value| ==> c.value[j] == message[Mul(i, len) + j])
  {
    hide Mul, ChunkLen;
  }

  // Six bytes on three instances.
  lemma ChunksOverlap(m: Bytes)
    requires |m| == 6
    ensures Chunk(m, 3, 0) == Some(m[..2]) && Chunk(m, 3, 1) == Some(m[2..]) && Chunk(m, 3, 2) == Some(m[4..])
  {
    assert ChunkLen(6, 3) == 2 && Mul(0, 2) == 0 && Mul(1, 2) == 2 && Mul(2, 2) == 4 && Mul(3, 2) == 6;
    assert m[2..6] == m[2..] && m[4..6] == m[4..];
  }

  // No chunk starts past the end exactly when the last one does not, and no
  // chunk is empty exactly when the last one is not.
  lemma CutIffLastFits(message: Bytes, instances: nat)
    requires 0 < instances
    ensures (forall i: nat :: i < instances ==> Chunk(message, instances, i).Some?)
       <==> Mul(instances - 1, ChunkLen(|message|, instances)) <= |message|
    ensures (forall i: nat :: i < instances ==>
               Chunk(message, instances, i).Some? && Chunk(message, instances, i).value != [])
       <==> Mul(instances - 1, ChunkLen(|message|, instances)) < |message|
  {
    hide Mul, ChunkLen;
    var len := ChunkLen(|message|, instances);
    ChunkLenBounds(|message|, instances);
    forall i: nat | i < instances
      ensures Mul(i, len) <= Mul(instances - 1, len) && Mul(i + 1, len) == Mul(i, len) + len && Mul(i, len) >= 0
    {
      MulMonotone(i, instances - 1, len);
      MulStep(i, len);
    }
    assert Chunk(message, instances, instances - 1).Some? ==> Mul(instances - 1, len) <= |message|;
    ChunkNotEmpty(message, instances, instances - 1);
    forall i: nat | i < instances
      ensures Mul(i, len) < |message| <==>
        Chunk(message, instances, i).Some? && Chunk(message, instances, i).value != []
    {
      ChunkNotEmpty(message, instances, i);
    }
  }

  lemma ChunkNotEmpty(message: Bytes, instances: nat, i: nat)
    requires 0 < instances
    ensures Mul(i, ChunkLen(|message|, instances)) < |message| <==>
            Chunk(message, instances, i).Some? && Chunk(message, instances, i).value != []
  {
    hide Mul, ChunkLen;
    var len := ChunkLen(|message|, instances);
    ChunkLenBounds(|message|, instances);
    MulStep(i, len);
    assert Mul(i + 1, len) >= len;
  }

  // Five bytes for four instances: chunks of two bytes, the last at offset six.
  lemma CutCanFail()
    ensures ChunkLen(5, 4) == 2
    ensures forall message: Bytes :: |message| == 5 ==> Chunk(message, 4, 3) == None
  {
  }

  // What instance i decodes is inside its chunk, and it is the part of the
  // message that belongs at i * len.
  lemma ChunkHoldsItsPart(message: Bytes, instances: nat, i: nat)
    requires 0 < instances && i < instances && Mul(instances - 1, ChunkLen(|message|, instances)) <= |message|
    ensures var len, d := ChunkLen(|message|, instances), DataSize(|message|, |message|, instances, i);
      && Chunk(message, instances, i).Some? && 0 <= d <= |Chunk(message, instances, i).value|
      && Mul(i, len) + d <= |message|
      && Chunk(message, instances, i).value[..d] == message[Mul(i, len)..Mul(i, len) + d]
      && Mul(i, len) + d == (if i == instances - 1 then |message| else Mul(i + 1, len))
  {
    hide Mul, ChunkLen;
    var len, d := ChunkLen(|message|, instances), DataSize(|message|, |message|, instances, i);
    MulMonotone(i, instances - 1, len);
    MulStep(i, len);
    ChunkLenBounds(|message|, instances);
    if i < instances - 1 {
      MulMonotone(i + 1, instances - 1, len);
    }
    assert Mul(i, len) + d <= Min(|message|, Mul(i, len) + Mul(i + 1, len));
    assert message[Mul(i, len)..Min(|message|, Mul(i, len) + Mul(i + 1, len))][..d] ==
      message[Mul(i, len)..Mul(i, len) + d];
  }

  // The last instance stays inside its chunk exactly when the buffer is as long
  // as the message.
  lemma LastFitsIffExactBuffer(message: Bytes, bufferSize: nat, instances: nat)
    requires 0 < instances && Mul(instances - 1, ChunkLen(|message|, instances)) <= |message| <= bufferSize
    ensures Chunk(message, instances, instances - 1).Some?
    ensures bufferSize == |message| <==>
      DataSize(|message|, bufferSize, instances, instances - 1) <= |Chunk(message, instances, instances - 1).value|
  {
    hide Mul, ChunkLen;
    ChunkLenBounds(|message|, instances);
    MulStep(instances - 1, ChunkLen(|message|, instances));
  }

  /* ---- putting a message together ---- */

  // The decoded parts of the first k instances, one after the other.
  function Assembled(code: Code, views: seq<seq<Bytes>>, sizes: seq<nat>, k: nat): Option<Bytes>
    requires k <= |views| == |sizes|
  {
    if k == 0 then Some([])
    else
      var front, part := Assembled(code, views, sizes, k - 1), code.decode(views[k - 1], sizes[k - 1]);
      if front.Some? && part.Some? then Some(front.value + part.value) else None
  }

  // What each instance decodes into a buffer of that size.
  ghost predicate Sizes(message: Bytes, bufferSize: nat, sizes: seq<nat>) {
    0 < |sizes| && forall i: nat :: i < |sizes| ==> sizes[i] == DataSize(|message|, bufferSize, |sizes|, i)
  }

  // Instance i sees enough fragments of its own chunk.
  ghost predicate Views(code: Code, message: Bytes, views: seq<seq<Bytes>>) {
    0 < |views| && forall i: nat :: i < |views| ==> ViewOk(code, Chunk(message, |views|, i), views[i])
  }

  ghost predicate ViewOk(code: Code, chunk: Option<Bytes>, view: seq<Bytes>) {
    chunk.Some? && code.Enough(chunk.value, view)
  }

  // All instances but the last give the message up to where the last one starts.
  lemma {:induction false} PartsAreThePrefix(code: Code, message: Bytes, views: seq<seq<Bytes>>, bufferSize: nat,
                                             sizes: seq<nat>, k: nat)
    requires code.Decodes() && Views(code, message, views) && k < |views| == |sizes|
    requires Sizes(message, bufferSize, sizes)
    requires Mul(|views| - 1, ChunkLen(|message|, |views|)) <= |message|
    ensures var end := Mul(k, ChunkLen(|message|, |views|));
      end <= |message| && Assembled(code, views, sizes, k) == Some(message[..end])
  {
    hide Mul, ChunkLen, Chunk, PartOf, Present, Code.Enough;
    var len := ChunkLen(|message|, |views|);
    if k == 0 {
      MulStep(0, len);
    } else {
      PartsAreThePrefix(code, message, views, bufferSize, sizes, k - 1);
      ChunkHoldsItsPart(message, |views|, k - 1);
      var chunk, start, d := Chunk(message, |views|, k - 1), Mul(k - 1, len), sizes[k - 1];
      assert ViewOk(code, chunk, views[k - 1]);
      assert code.DecodesTo(chunk.value, d, code.decode(views[k - 1], d));
      assert |chunk.value| <= code.capacity(|chunk.value|);
      assert message[..start] + message[start..start + d] == message[..start + d];
    }
  }

  lemma LastChunkIs(message: Bytes, instances: nat)
    requires 0 < instances && Mul(instances - 1, ChunkLen(|message|, instances)) <= |message|
    ensures Chunk(message, instances, instances - 1) ==
      Some(message[Mul(instances - 1, ChunkLen(|message|, instances))..])
  {
    hide Mul, ChunkLen;
    ChunkLenBounds(|message|, instances);
    MulStep(instances - 1, ChunkLen(|message|, instances));
    var start := Mul(instances - 1, ChunkLen(|message|, instances));
    assert message[start..|message|] == message[start..];
  }

  lemma ChunksThere(code: Code, message: Bytes, views: seq<seq<Bytes>>)
    requires Views(code, message, views)
    ensures 0 < |views| && forall i: nat :: i < |views| ==> Chunk(message, |views|, i).Some?
  {
    hide Chunk;
    forall i: nat | i < |views| ensures Chunk(message, |views|, i).Some? {
      assert ViewOk(code, Chunk(message, |views|, i), views[i]);
    }
  }

  // The largest buffer that the last instance can fill.
  function Room(code: Code, size: nat, instances: nat): nat
    requires 0 < instances && Mul(instances - 1, ChunkLen(size, instances)) <= size
  {
    var start := Mul(instances - 1, ChunkLen(size, instances));
    start + code.capacity(size - start)
  }

  // Reassembly into any buffer that is not too short succeeds exactly if there is
  // room, and the buffer then starts with the message.
  lemma ReassemblesMessage(code: Code, message: Bytes, views: seq<seq<Bytes>>, bufferSize: nat, sizes: seq<nat>)
    requires code.Decodes() && Views(code, message, views) && |views| == |sizes|
    requires |message| <= bufferSize && Sizes(message, bufferSize, sizes)
    ensures Mul(|views| - 1, ChunkLen(|message|, |views|)) <= |message| <= Room(code, |message|, |views|)
    ensures var r := Assembled(code, views, sizes, |views|);
      && (r.Some? <==> bufferSize <= Room(code, |message|, |views|))
      && (r.Some? ==> |r.value| == bufferSize && message <= r.value)
      && (bufferSize == |message| ==> r == Some(message))
  {
    hide Mul, ChunkLen, Chunk, PartOf, Present, Code.Enough;
    ChunksThere(code, message, views);
    CutIffLastFits(message, |views|);
    LastChunkIs(message, |views|);
    var k, start := |views| - 1, Mul(|views| - 1, ChunkLen(|message|, |views|));
    PartsAreThePrefix(code, message, views, bufferSize, sizes, k);
    var chunk, d := Chunk(message, |views|, k).value, sizes[k];
    assert ViewOk(code, Chunk(message, |views|, k), views[k]);
    assert code.DecodesTo(chunk, d, code.decode(views[k], d));
    assert |chunk| <= code.capacity(|chunk|);
    assert message == message[..start] + chunk && chunk[..|chunk|] == chunk;
  }
}
