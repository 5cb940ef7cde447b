/**
  The byte stream of the fragment codec: little-endian integers of fixed width,
  digests of 32 bytes, and byte strings with a length in front. Reading what was
  written gives it back, with the rest of the stream untouched.
 */
module Wire {
  import opened Basics


  type byte = x: int | 0 <= x < 256

  type Bytes = seq<byte>

  const HASH_LEN: nat := 32

  type Digest = s: Bytes | |s| == HASH_LEN witness seq(HASH_LEN, i => 0)

  datatype Parsed<+T> = Failed | Read(value: T, rest: Bytes)

  function Limit(width: nat): (p: nat)
    ensures p > 0
  {
    if width == 0 then 1 else 256 * Limit(width - 1)
  }

  // x in `width` bytes, least significant first.
  function WriteInt(x: nat, width: nat): (bs: Bytes)
    ensures |bs| == width
  {
    if width == 0 then [] else [x % 256] + WriteInt(x / 256, width - 1)
  }

  function ReadInt(raw: Bytes, width: nat): (r: Parsed<nat>) {
    if width == 0 then Read(0, raw)
    else if raw == [] then Failed
    else match ReadInt(raw[1..], width - 1)
      case Failed => Failed
      case Read(high, rest) => Read(raw[0] + 256 * high, rest)
  }

  lemma LimitDown(x: nat, width: nat)
    requires 0 < width && x < Limit(width)
    ensures x / 256 < Limit(width - 1)
  {
  }

  lemma NoBytes(x: nat, rest: Bytes)
    requires x < Limit(0)
    ensures ReadInt(WriteInt(x, 0) + rest, 0) == Read(x, rest)
  {
    assert WriteInt(x, 0) + rest == rest;
  }

  lemma FirstWritten(x: nat, width: nat, rest: Bytes)
    requires 0 < width
    ensures var raw := WriteInt(x, width) + rest;
      raw != [] && raw[0] == x % 256 && raw[1..] == WriteInt(x / 256, width - 1) + rest
  {
  }

  lemma FirstRead(raw: Bytes, width: nat, high: nat, rest: Bytes)
    requires 0 < width && raw != [] && ReadInt(raw[1..], width - 1) == Read(high, rest)
    ensures ReadInt(raw, width) == Read(raw[0] + 256 * high, rest)
  {
  }

  lemma {:induction false} IntRoundTrip(x: nat, width: nat, rest: Bytes)
    requires x < Limit(width)
    ensures ReadInt(WriteInt(x, width) + rest, width) == Read(x, rest)
  {
    hide Limit, WriteInt, ReadInt;
    if width == 0 {
      NoBytes(x, rest);
    } else {
      LimitDown(x, width);
      FirstWritten(x, width, rest);
      IntRoundTrip(x / 256, width - 1, rest);
      FirstRead(WriteInt(x, width) + rest, width, x / 256, rest);
    }
  }

  lemma {:induction false} TooFewBytes(raw: Bytes, width: nat)
    ensures ReadInt(raw, width).Failed? <==> |raw| < width
  {
    if width > 0 && raw != [] { TooFewBytes(raw[1..], width - 1); }
  }

  // Byte i of a number is its digit i to base 256.
  lemma {:induction false} IntBytes(x: nat, width: nat, i: nat)
    requires i < width
    ensures WriteInt(x, width)[i] == x / Limit(i) % 256
  {
    if i > 0 {
      IntBytes(x / 256, width - 1, i - 1);
      DivideTwice(x, 256, Limit(i - 1));
    }
  }

  function ReadBytes(raw: Bytes, n: nat): (r: Parsed<Bytes>) {
    if n <= |raw| then Read(raw[..n], raw[n..]) else Failed
  }

  // A byte string with its length in four bytes in front.
  function WriteString(s: Bytes): (bs: Bytes) {
    WriteInt(|s|, 4) + s
  }

  function ReadString(raw: Bytes): (r: Parsed<Bytes>) {
    match ReadInt(raw, 4)
    case Failed => Failed
    case Read(n, rest) => ReadBytes(rest, n)
  }

  lemma StringRoundTrip(s: Bytes, rest: Bytes)
    requires |s| < Limit(4)
    ensures ReadString(WriteString(s) + rest) == Read(s, rest)
  {
    assert WriteString(s) + rest == WriteInt(|s|, 4) + (s + rest);
    IntRoundTrip(|s|, 4, s + rest);
    assert (s + rest)[..|s|] == s && (s + rest)[|s|..] == rest;
  }

  // Digests one after the other.
  function WriteDigests(ds: seq<Digest>): (bs: Bytes) {
    if ds == [] then [] else ds[0] + WriteDigests(ds[1..])
  }

  function ReadDigests(raw: Bytes, n: nat): (r: Parsed<seq<Digest>>)
    ensures r.Read? ==> |r.value| == n
  {
    if n == 0 then Read([], raw)
    else if |raw| < HASH_LEN then Failed
    else match ReadDigests(raw[HASH_LEN..], n - 1)
      case Failed => Failed
      case Read(ds, rest) => var d: Digest := raw[..HASH_LEN]; Read([d] + ds, rest)
  }

  lemma DigestWritten(ds: seq<Digest>, rest: Bytes)
    requires ds != []
    ensures var raw := WriteDigests(ds) + rest;
      && |raw| >= HASH_LEN && raw[..HASH_LEN] == ds[0] && raw[HASH_LEN..] == WriteDigests(ds[1..]) + rest
  {
    assert WriteDigests(ds) + rest == ds[0] + (WriteDigests(ds[1..]) + rest);
  }

  // Digest j takes 32 bytes from position 32 * j on.
  lemma {:induction false} DigestBytes(ds: seq<Digest>, j: nat)
    requires j < |ds|
    ensures |WriteDigests(ds)| == 32 * |ds| && WriteDigests(ds)[32 * j..32 * (j + 1)] == ds[j]
  {
    var rest: Bytes := WriteDigests(ds[1..]);
    DigestsSize(ds[1..]);
    if j > 0 {
      DigestBytes(ds[1..], j - 1);
      assert (ds[0] + rest)[HASH_LEN * j..HASH_LEN * (j + 1)] == rest[HASH_LEN * (j - 1)..HASH_LEN * j];
    } else {
      assert (ds[0] + rest)[..HASH_LEN] == ds[0];
    }
  }

  lemma {:induction false} DigestsSize(ds: seq<Digest>)
    ensures |WriteDigests(ds)| == HASH_LEN * |ds|
  {
    if ds != [] { DigestsSize(ds[1..]); }
  }

  lemma DigestRead(raw: Bytes, d: Digest, ds: seq<Digest>, rest: Bytes)
    requires |raw| >= HASH_LEN && raw[..HASH_LEN] == d && ReadDigests(raw[HASH_LEN..], |ds|) == Read(ds, rest)
    ensures ReadDigests(raw, |ds| + 1) == Read([d] + ds, rest)
  {
  }

  lemma {:induction false} DigestsRoundTrip(ds: seq<Digest>, rest: Bytes)
    ensures ReadDigests(WriteDigests(ds) + rest, |ds|) == Read(ds, rest)
  {
    if ds == [] {
      assert WriteDigests(ds) + rest == rest;
    } else {
      DigestWritten(ds, rest);
      DigestsRoundTrip(ds[1..], rest);
      DigestRead(WriteDigests(ds) + rest, ds[0], ds[1..], rest);
      assert [ds[0]] + ds[1..] == ds;
    }
  }
}
