/**
  What a receiver makes of the streams of one sender when some fragments of a
  range have been claimed before, by a stream that overlaps with this one.
 */
module FragmentClaims {
  import opened Basics
  import opened Wire
  import opened MerkleSpec
  import opened Fragments

  // The pieces of one sender; fragment i has the pieces First(i) .. First(i + 1) - 1.
  datatype Sender = Sender(h: PairHash<Digest>, leafHash: LeafHash, root: Digest, depth: nat, pieces: seq<Piece>,
                           instances: nat, count: nat)
  {
    ghost predicate Ok() {
      && 0 < instances && |pieces| == Mul(count, instances)
      && Sendable(pieces, depth) && Uniform(pieces)
      && forall j :: 0 <= j < |pieces| ==> Verifies(h, leafHash, root, pieces[j])
    }

    function First(i: nat): nat {
      Mul(i, instances)
    }

    function Siblings(e: nat): seq<Digest>
      requires e < |pieces|
    {
      pieces[e].proof.siblings
    }

    ghost function Slot(i: nat): Storage
      requires First(i) <= First(i + 1) <= |pieces|
    {
      Kept(pieces[First(i)..First(i + 1)], instances)
    }
  }

  lemma PieceFacts(s: Sender, e: nat)
    requires s.Ok()
    ensures 0 < s.instances && |s.pieces| == Mul(s.count, s.instances) && Uniform(s.pieces)
    ensures e < |s.pieces| ==>
      && |s.pieces[e].proof.siblings| == s.depth < Limit(8) && s.pieces[e].proof.path < Limit(4)
      && |s.pieces[e].fragment| < Limit(4)
      && Verifies(s.h, s.leafHash, s.root, s.pieces[e])
  {
    hide Mul, Verifies, Limit;
  }

  lemma FirstStep(s: Sender, i: nat)
    requires s.Ok() && i < s.count
    ensures s.First(i) < s.First(i + 1) == s.First(i) + s.instances <= |s.pieces|
  {
    hide Mul, Sendable, Uniform, Verifies;
    MulStep(i, s.instances);
    MulMonotone(i + 1, s.count, s.instances);
  }

  lemma FirstMonotone(s: Sender, i: nat, j: nat)
    requires i <= j
    ensures s.First(i) <= s.First(j)
  {
    MulMonotone(i, j, s.instances);
  }

  /* ---- an unclaimed fragment ---- */

  // With the right siblings to start from, all entries are read back.
  lemma PreviousIsGood(s: Sender, first: nat, e: nat)
    requires s.Ok() && first <= e && e + 1 < |s.pieces|
    ensures Uniform(s.pieces) && GoodBase(Previous(s.Siblings(e)), s.Siblings(e + 1), CountAt(s.pieces, first, e + 1))
  {
    hide Sender.Ok, Uniform, Mul, Limit, Verifies, Fresh;
    PieceFacts(s, e);
    PieceFacts(s, e + 1);
  }

  lemma AppendNext<T>(done: seq<T>, xs: seq<T>, e: nat, n: nat)
    requires 0 < n && e + n <= |xs|
    ensures (done + [xs[e]]) + xs[e + 1..e + n] == done + xs[e..e + n]
  {
    assert xs[e..e + n] == [xs[e]] + xs[e + 1..e + n];
  }

  lemma {:induction false} SlotRoundTrip(s: Sender, first: nat, e: nat, n: nat, last: nat, prev: Base, done: seq<Piece>)
    requires s.Ok() && first <= e && e + n <= last <= |s.pieces|
    requires n > 0 ==> GoodBase(prev, s.Siblings(e), CountAt(s.pieces, first, e))
    ensures DecodeEntries(s.h, s.leafHash, s.root, s.depth, prev, Entries(s.pieces, first, e, last), n, done)
         == SlotRead(Accepted, done + s.pieces[e..e + n], Entries(s.pieces, first, e + n, last))
    decreases n
  {
    hide Sender.Ok, Uniform, Mul, Limit, Entry, Entries, CountAt, GoodBase, DecodeEntry, DecodeEntries, Verifies;
    PieceFacts(s, e);
    EntriesSplit(s.pieces, first, e, last);
    var raw := Entries(s.pieces, first, e, last);
    if n == 0 {
      NoEntries(s.h, s.leafHash, s.root, s.depth, prev, raw, done);
      assert done + s.pieces[e..e] == done;
    } else {
      var piece, rest := s.pieces[e], Entries(s.pieces, first, e + 1, last);
      EntryRoundTrip(piece, s.depth, prev, CountAt(s.pieces, first, e), rest);
      DecodeStep(s.h, s.leafHash, s.root, s.depth, prev, raw, n, done, piece, rest);
      if n > 1 { PreviousIsGood(s, first, e); }
      SlotRoundTrip(s, first, e + 1, n - 1, last, Previous(piece.proof.siblings), done + [piece]);
      AppendNext(done, s.pieces, e, n);
    }
  }

  // With any siblings of the right number, the stream is read to the end of the
  // fragment or rejected, and the fragments that are kept are the sender's.
  ghost predicate Honest(s: Sender, e: nat, done: nat, pieces: seq<Piece>) {
    done <= |pieces| && e + (|pieces| - done) <= |s.pieces| &&
    forall o :: done <= o < |pieces| ==>
      pieces[o].fragment == s.pieces[e + o - done].fragment && |pieces[o].proof.siblings| == s.depth
  }

  lemma {:induction false} SlotHonest(s: Sender, first: nat, e: nat, n: nat, last: nat, prev: Base, done: seq<Piece>)
    requires s.Ok() && first <= e && e + n <= last <= |s.pieces|
    requires n > 0 ==> if prev.Nothing? then e == first else |prev.siblings| == s.depth
    ensures var r := DecodeEntries(s.h, s.leafHash, s.root, s.depth, prev, Entries(s.pieces, first, e, last), n, done);
      && r.verdict != Threw && |r.pieces| <= |done| + n && Honest(s, e, |done|, r.pieces) && r.pieces[..|done|] == done
      && (r.verdict == Accepted ==> |r.pieces| == |done| + n && r.rest == Entries(s.pieces, first, e + n, last))
    decreases n
  {
    hide Sender.Ok, Uniform, Mul, Limit, Entry, Entries, CountAt, Completed, DecodeEntry, DecodeEntries, Verifies,
         Honest;
    PieceFacts(s, e);
    EntriesSplit(s.pieces, first, e, last);
    var raw := Entries(s.pieces, first, e, last);
    if n == 0 {
      NoEntries(s.h, s.leafHash, s.root, s.depth, prev, raw, done);
      HonestNone(s, e, done);
    } else {
      var count, rest := CountAt(s.pieces, first, e), Entries(s.pieces, first, e + 1, last);
      CountFirst(s, first, e);
      var piece := Completed(s.pieces[e], prev, count);
      EntryRead(s.pieces[e], s.depth, prev, count, rest);
      DecodeStep(s.h, s.leafHash, s.root, s.depth, prev, raw, n, done, piece, rest);
      if Verifies(s.h, s.leafHash, s.root, piece) {
        SlotHonest(s, first, e + 1, n - 1, last, Previous(piece.proof.siblings), done + [piece]);
        HonestMore(s, e, done, piece, DecodeEntries(s.h, s.leafHash, s.root, s.depth, prev, raw, n, done).pieces);
      } else {
        HonestNone(s, e, done);
      }
    }
  }

  lemma CountFirst(s: Sender, first: nat, e: nat)
    requires s.Ok() && first <= e < |s.pieces|
    ensures Uniform(s.pieces) && (e == first ==> CountAt(s.pieces, first, e) == s.depth)
  {
  }

  lemma HonestNone(s: Sender, e: nat, done: seq<Piece>)
    requires e <= |s.pieces|
    ensures Honest(s, e, |done|, done) && done[..|done|] == done
  {
  }

  lemma HonestMore(s: Sender, e: nat, done: seq<Piece>, piece: Piece, pieces: seq<Piece>)
    requires e < |s.pieces| && piece.fragment == s.pieces[e].fragment && |piece.proof.siblings| == s.depth
    requires Honest(s, e + 1, |done| + 1, pieces) && pieces[..|done| + 1] == done + [piece]
    ensures Honest(s, e, |done|, pieces) && pieces[..|done|] == done
  {
    assert pieces[|done|] == pieces[..|done| + 1][|done|] == piece;
    assert pieces[..|done|] == pieces[..|done| + 1][..|done|] == done;
  }

  // A first proof that does not verify ends the call.
  lemma SlotRejected(s: Sender, first: nat, e: nat, n: nat, last: nat, prev: Base)
    requires s.Ok() && first <= e < e + n <= last <= |s.pieces| && !prev.Nothing? && |prev.siblings| == s.depth
    requires !Verifies(s.h, s.leafHash, s.root, Completed(s.pieces[e], prev, CountAt(s.pieces, first, e)))
    ensures DecodeEntries(s.h, s.leafHash, s.root, s.depth, prev, Entries(s.pieces, first, e, last), n,
      []).verdict == Rejected
  {
    hide Sender.Ok, Uniform, Mul, Limit, Fresh, Entry, Entries, DecodeEntry, DecodeEntries, Verifies;
    PieceFacts(s, e);
    EntriesSplit(s.pieces, first, e, last);
    var count, rest := CountAt(s.pieces, first, e), Entries(s.pieces, first, e + 1, last);
    EntryRead(s.pieces[e], s.depth, prev, count, rest);
    DecodeStep(s.h, s.leafHash, s.root, s.depth, prev, Entries(s.pieces, first, e, last), n, [],
      Completed(s.pieces[e], prev, count), rest);
  }

  /* ---- a claimed fragment ---- */

  // proof below m, cache from there on.
  function Overlay(proof: seq<Digest>, cache: seq<Digest>, m: nat): (r: seq<Digest>)
    requires m <= |proof| == |cache|
    ensures |r| == |cache|
  {
    proof[..m] + cache[m..]
  }

  lemma EntrySkip(piece: Piece, cache: seq<Digest>, count: nat, rest: Bytes, n: nat)
    requires 0 < n && |piece.proof.siblings| == |cache| < Limit(8) && piece.proof.path < Limit(4)
    requires |piece.fragment| < Limit(4) && count <= |cache|
    ensures SkipEntries(cache, Entry(piece, count) + rest, n) ==
      SkipEntries(Overlay(piece.proof.siblings, cache, count), rest, n - 1)
  {
    hide Limit, WriteInt, ReadInt, WriteDigests, ReadDigests, WriteString, ReadString;
    var ds := piece.proof.siblings[..count];
    var tail3 := WriteString(piece.fragment) + rest;
    var tail2 := WriteDigests(ds) + tail3;
    var tail1 := WriteInt(count, 8) + tail2;
    assert Entry(piece, count) + rest == WriteInt(piece.proof.path, 4) + tail1;
    IntRoundTrip(piece.proof.path, 4, tail1);
    IntRoundTrip(count, 8, tail2);
    DigestsRoundTrip(ds, tail3);
    StringRoundTrip(piece.fragment, rest);
  }

  function Max(a: nat, b: nat): nat {
    if a < b then b else a
  }

  // The most siblings that are sent with one of n entries.
  function MaxCount(s: Sender, first: nat, e: nat, n: nat): (m: nat)
    requires first <= e && e + n <= |s.pieces| && Uniform(s.pieces)
    ensures n > 0 ==> m <= |s.pieces[e].proof.siblings|
    decreases n
  {
    if n == 0 then 0 else Max(CountAt(s.pieces, first, e), MaxCount(s, first, e + 1, n - 1))
  }

  lemma MaxCountStep(s: Sender, first: nat, e: nat, n: nat)
    requires first <= e && 0 < n && e + n <= |s.pieces| && Uniform(s.pieces)
    ensures MaxCount(s, first, e, n) ==
      if n == 1 then CountAt(s.pieces, first, e) else Max(CountAt(s.pieces, first, e), MaxCount(s, first, e + 1, n - 1))
  {
  }

  // Above what is sent with the entries after e, the proofs do not change.
  lemma {:induction false} SharedAbove(s: Sender, first: nat, e: nat, n: nat)
    requires s.Ok() && first <= e && e + n < |s.pieces|
    ensures var m := MaxCount(s, first, e + 1, n);
      m <= s.depth && s.Siblings(e)[m..] == s.Siblings(e + n)[m..]
    decreases n
  {
    hide Sender.Ok, Uniform, Mul, Verifies, Limit, Fresh;
    PieceFacts(s, e);
    PieceFacts(s, e + 1);
    PieceFacts(s, e + n);
    if n > 0 {
      SharedAbove(s, first, e + 1, n - 1);
      var m, c, m' := MaxCount(s, first, e + 1, n), CountAt(s.pieces, first, e + 1), MaxCount(s, first, e + 2, n - 1);
      FreshShares(s.Siblings(e), s.Siblings(e + 1), m);
      SuffixFurther(s.Siblings(e + 1), s.Siblings(e + n), m', m);
    }
  }

  lemma SuffixFurther(a: seq<Digest>, b: seq<Digest>, m: nat, k: nat)
    requires m <= k <= |a| == |b| && a[m..] == b[m..]
    ensures a[k..] == b[k..]
  {
    assert a[k..] == a[m..][k - m..] && b[k..] == b[m..][k - m..];
  }

  lemma FreshShares(a: seq<Digest>, b: seq<Digest>, k: nat)
    requires |a| == |b| && Fresh(a, b) <= k <= |b|
    ensures a[k..] == b[k..]
  {
    hide Fresh;
    SuffixFurther(a, b, Fresh(a, b), k);
  }

  // A cache after n > 0 entries: the last proof as far as anything was sent, and
  // above that what was in the cache before.
  lemma {:induction false} SkipHonest(s: Sender, first: nat, e: nat, n: nat, last: nat, cache: seq<Digest>)
    requires s.Ok() && first <= e && 0 < n && e + n <= last <= |s.pieces| && |cache| == s.depth
    ensures MaxCount(s, first, e, n) <= s.depth
    ensures SkipEntries(cache, Entries(s.pieces, first, e, last), n)
         == Read(Overlay(s.Siblings(e + n - 1), cache, MaxCount(s, first, e, n)), Entries(s.pieces, first, e + n, last))
    decreases n
  {
    hide Sender.Ok, Uniform, Mul, Limit, Entry, Entries, SkipEntries, Verifies, Overlay, MaxCount, CountAt;
    PieceFacts(s, e);
    EntriesSplit(s.pieces, first, e, last);
    MaxCountStep(s, first, e, n);
    PieceFacts(s, e + n - 1);
    var c, rest := CountAt(s.pieces, first, e), Entries(s.pieces, first, e + 1, last);
    var cache' := Overlay(s.Siblings(e), cache, c);
    EntrySkip(s.pieces[e], cache, c, rest, n);
    if n == 1 {
      SkipNone(cache', rest);
    } else {
      SkipHonest(s, first, e + 1, n - 1, last, cache');
      SharedAbove(s, first, e, n - 1);
      OverlayTwice(s.Siblings(e), s.Siblings(e + n - 1), cache, c, MaxCount(s, first, e + 1, n - 1));
    }
  }

  lemma OverlayTwice(p: seq<Digest>, q: seq<Digest>, cache: seq<Digest>, c: nat, m: nat)
    requires c <= |p| == |q| == |cache| && m <= |p| && p[m..] == q[m..]
    ensures Overlay(q, Overlay(p, cache, c), m) == Overlay(q, cache, Max(c, m))
  {
    var l, r := Overlay(q, Overlay(p, cache, c), m), Overlay(q, cache, Max(c, m));
    forall j | 0 <= j < |l| ensures l[j] == r[j] {
      if m <= j < c {
        assert p[j] == p[m..][j - m] == q[m..][j - m] == q[j];
      }
    }
  }

  /* ---- a whole range ---- */

  // The last unclaimed fragment from start on and before i.
  function LastUnclaimed(claims: seq<bool>, start: nat, i: nat): (u: Option<nat>)
    requires start <= i <= |claims|
    ensures u.Some? ==> start <= u.value < i && !claims[u.value]
    ensures u.None? && start < i ==> claims[i - 1]
    ensures u.Some? && u.value < i - 1 ==> claims[i - 1]
    decreases i
  {
    if i == start then None
    else if !claims[i - 1] then Some(i - 1)
    else LastUnclaimed(claims, start, i - 1)
  }

  // The proof of the first piece of fragment i, and of the last one.
  ghost function HeadSiblings(s: Sender, i: nat): (p: seq<Digest>)
    requires s.Ok() && i < s.count
    ensures |p| == s.depth
  {
    FirstStep(s, i);
    PieceFacts(s, s.First(i));
    s.Siblings(s.First(i))
  }

  ghost function LastSiblings(s: Sender, i: nat): (p: seq<Digest>)
    requires s.Ok() && i < s.count
    ensures |p| == s.depth
  {
    FirstStep(s, i);
    PieceFacts(s, s.First(i + 1) - 1);
    s.Siblings(s.First(i + 1) - 1)
  }

  // How many siblings are sent with the first piece of fragment i, and the most
  // that are sent with one of its pieces, in a range from start on.
  ghost function HeadCount(s: Sender, start: nat, i: nat): (c: nat)
    requires s.Ok() && start <= i < s.count
    ensures c <= s.depth
  {
    FirstStep(s, i);
    FirstMonotone(s, start, i);
    PieceFacts(s, s.First(i));
    CountAt(s.pieces, s.First(start), s.First(i))
  }

  ghost function SlotCount(s: Sender, start: nat, i: nat): (c: nat)
    requires s.Ok() && start <= i < s.count
    ensures c <= s.depth
  {
    FirstStep(s, i);
    FirstMonotone(s, start, i);
    PieceFacts(s, s.First(i));
    MaxCount(s, s.First(start), s.First(i), s.instances)
  }

  // Fragment i can be checked: nothing unclaimed comes before it in the range,
  // or the fragment just before it is unclaimed, or else the last proof before
  // the claimed fragments agrees with its own above everything that is sent with
  // its first piece or with the claimed fragment just before it.
  ghost predicate Refills(s: Sender, claims: seq<bool>, start: nat, i: nat)
    requires s.Ok() && start <= i < |claims| == s.count
  {
    match LastUnclaimed(claims, start, i)
    case None => true
    case Some(u) =>
      u == i - 1 ||
      var m := Max(SlotCount(s, start, i - 1), HeadCount(s, start, i));
      LastSiblings(s, u)[m..] == HeadSiblings(s, i)[m..]
  }

  // What the first proof of fragment i is completed from.
  ghost function BaseAt(s: Sender, claims: seq<bool>, start: nat, i: nat): (base: Base)
    requires s.Ok() && start <= i < |claims| == s.count
    ensures !base.Nothing? ==> |base.siblings| == s.depth
    ensures base.Nothing? <==> i == start
  {
    if i == start then Nothing
    else match LastUnclaimed(claims, start, i)
      case None => Cache(LastSiblings(s, i - 1))
      case Some(u) =>
        if u == i - 1 then Previous(LastSiblings(s, u))
        else Cache(Overlay(LastSiblings(s, i - 1), LastSiblings(s, u), SlotCount(s, start, i - 1)))
  }

  // That base is good exactly when the fragment can be checked.
  lemma RefillsIff(s: Sender, claims: seq<bool>, start: nat, i: nat)
    requires s.Ok() && start <= i < |claims| == s.count
    ensures Refills(s, claims, start, i) <==>
      GoodBase(BaseAt(s, claims, start, i), HeadSiblings(s, i), HeadCount(s, start, i))
  {
    hide Sender.Ok, HeadSiblings, LastSiblings, HeadCount, SlotCount;
    HeadFacts(s, start, i);
    if start < i {
      var base, c := BaseAt(s, claims, start, i).siblings, HeadCount(s, start, i);
      var u := LastUnclaimed(claims, start, i);
      if u.Some? && u.value != i - 1 {
        OverlaySuffix(LastSiblings(s, i - 1), LastSiblings(s, u.value), HeadSiblings(s, i),
          SlotCount(s, start, i - 1), c);
      }
    }
  }

  lemma HeadFacts(s: Sender, start: nat, i: nat)
    requires s.Ok() && start <= i < s.count
    ensures i == start ==> HeadCount(s, start, i) == s.depth
    ensures start < i ==>
      LastSiblings(s, i - 1)[HeadCount(s, start, i)..] == HeadSiblings(s, i)[HeadCount(s, start, i)..]
  {
    hide Sender.Ok, Fresh, Mul;
    FirstStep(s, i);
    FirstMonotone(s, start, i);
    PieceFacts(s, s.First(i));
    if start < i {
      FirstStep(s, i - 1);
      FirstStep(s, start);
      FirstMonotone(s, start + 1, i);
      PieceFacts(s, s.First(i) - 1);
    }
  }

  lemma OverlaySuffix(a: seq<Digest>, u: seq<Digest>, b: seq<Digest>, m: nat, c: nat)
    requires |a| == |u| == |b| && m <= |a| && c <= |a| && a[c..] == b[c..]
    ensures Overlay(a, u, m)[c..] == b[c..] <==> u[Max(m, c)..] == b[Max(m, c)..]
  {
    var o, k := Overlay(a, u, m), Max(m, c);
    forall j | c <= j < |a| ensures a[j] == b[j] { assert a[j] == a[c..][j - c] == b[c..][j - c] == b[j]; }
    assert o[k..] == u[k..];
    if o[c..] == b[c..] {
      assert o[k..] == o[c..][k - c..] && b[k..] == b[c..][k - c..];
    }
    if u[k..] == b[k..] {
      forall j | c <= j < |a| ensures o[j] == b[j] {
        if k <= j { assert u[j] == u[k..][j - k] == b[k..][j - k] == b[j]; }
      }
    }
  }

  // The entries of the fragments i .. end - 1 of a range from start on.
  ghost function Rest(s: Sender, start: nat, i: nat, end: nat): Bytes
    requires s.Ok() && start <= i <= end <= s.count
  {
    FirstMonotone(s, start, i);
    FirstMonotone(s, i, end);
    FirstMonotone(s, end, s.count);
    PieceFacts(s, 0);
    Entries(s.pieces, s.First(start), s.First(i), s.First(end))
  }

  // The memory of a call before fragment i.
  ghost predicate MemOk(s: Sender, claims: seq<bool>, start: nat, i: nat, mem: Memory)
    requires s.Ok() && start <= i < |claims| == s.count
  {
    && |mem.cache| == s.depth
    && mem.Base() == BaseAt(s, claims, start, i)
    && mem.prev == match LastUnclaimed(claims, start, i) case None => None case Some(u) => Some(LastSiblings(s, u))
  }

  // Reading over a claimed fragment.
  lemma SkipStep(s: Sender, claims: seq<bool>, start: nat, i: nat, end: nat, mem: Memory)
    requires s.Ok() && start <= i < end <= |claims| == s.count && MemOk(s, claims, start, i, mem) && claims[i]
    ensures SkipSlot(mem, Rest(s, start, i, end), s.instances).Read?
    ensures var r := SkipSlot(mem, Rest(s, start, i, end), s.instances);
      r.rest == Rest(s, start, i + 1, end) && (i + 1 < s.count ==> MemOk(s, claims, start, i + 1, r.value))
    ensures |SkipSlot(mem, Rest(s, start, i, end), s.instances).value.cache| == s.depth
  {
    hide Sender.Ok, Mul, Uniform, SkipEntries, Entries, Overlay, MaxCount;
    FirstStep(s, i);
    FirstMonotone(s, start, i);
    FirstMonotone(s, i + 1, end);
    FirstMonotone(s, end, s.count);
    PieceFacts(s, s.First(i));
    var cache := if mem.prev.Some? then mem.prev.value else mem.cache;
    SkipHonest(s, s.First(start), s.First(i), s.instances, s.First(end), cache);
    assert mem.prev.Some? ==> mem.prev.value[..|mem.cache|] == mem.prev.value;
    if mem.prev.None? {
      StartsTrue(s, start, i, cache);
    }
  }

  // Without an unclaimed fragment the cache holds the proof just read.
  lemma StartsTrue(s: Sender, start: nat, i: nat, cache: seq<Digest>)
    requires s.Ok() && start <= i < s.count && |cache| == s.depth && (start < i ==> cache == LastSiblings(s, i - 1))
    ensures Overlay(LastSiblings(s, i), cache, SlotCount(s, start, i)) == LastSiblings(s, i)
  {
    hide Sender.Ok, Mul, Uniform, MaxCount, CountAt, Verifies, Limit;
    FirstStep(s, i);
    FirstMonotone(s, start, i);
    PieceFacts(s, s.First(i));
    var p, m := LastSiblings(s, i), SlotCount(s, start, i);
    if start == i {
      MaxCountStep(s, s.First(start), s.First(i), s.instances);
      HeadFacts(s, start, i);
      assert p[..m] + cache[m..] == p;
    } else {
      FirstStep(s, i - 1);
      FirstMonotone(s, start + 1, i);
      FirstStep(s, start);
      SharedAbove(s, s.First(start), s.First(i) - 1, s.instances);
      assert p[..m] + p[m..] == p;
    }
  }

  // Reading an unclaimed fragment that can be checked.
  lemma ReadStep(s: Sender, claims: seq<bool>, start: nat, i: nat, end: nat, mem: Memory)
    requires s.Ok() && start <= i < end <= |claims| == s.count && MemOk(s, claims, start, i, mem) && !claims[i]
    requires Refills(s, claims, start, i)
    ensures var r := DecodeEntries(s.h, s.leafHash, s.root, s.depth, mem.Base(), Rest(s, start, i, end),
      s.instances, []);
      && s.First(i) <= s.First(i + 1) <= |s.pieces|
      && r == SlotRead(Accepted, s.pieces[s.First(i)..s.First(i + 1)], Rest(s, start, i + 1, end))
      && (i + 1 < s.count ==> MemOk(s, claims, start, i + 1, LastProof(mem, r.pieces)))
  {
    hide Sender.Ok, Mul, Uniform, DecodeEntries, Entries, GoodBase, Refills, BaseAt, LastSiblings, LastProof,
         LastUnclaimed, Verifies, Limit;
    FirstStep(s, i);
    FirstMonotone(s, start, i);
    FirstMonotone(s, i + 1, end);
    FirstMonotone(s, end, s.count);
    PieceFacts(s, s.First(i));
    RefillsIff(s, claims, start, i);
    SlotRoundTrip(s, s.First(start), s.First(i), s.instances, s.First(end), mem.Base(), []);
    var pieces := s.pieces[s.First(i)..s.First(i + 1)];
    assert [] + pieces == pieces;
    if i + 1 < s.count {
      MemAfter(s, claims, start, i, mem, pieces);
    }
  }

  lemma MemAfter(s: Sender, claims: seq<bool>, start: nat, i: nat, mem: Memory, pieces: seq<Piece>)
    requires s.Ok() && start <= i < i + 1 < |claims| == s.count && |mem.cache| == s.depth && !claims[i]
    requires s.First(i) <= s.First(i + 1) <= |s.pieces| && pieces == s.pieces[s.First(i)..s.First(i + 1)]
    ensures MemOk(s, claims, start, i + 1, LastProof(mem, pieces))
  {
    hide Sender.Ok, Mul, Overlay, SlotCount;
    FirstStep(s, i);
    assert pieces[|pieces| - 1] == s.pieces[s.First(i + 1) - 1];
  }

  ghost predicate Agrees(claims: seq<bool>, list: seq<Storage>, i: nat) {
    |claims| == |list| && forall j :: i <= j < |list| ==> claims[j] == list[j].claimed
  }

  ghost function SentSlot(s: Sender, i: nat): Storage
    requires s.Ok() && i < s.count
  {
    FirstStep(s, i);
    s.Slot(i)
  }

  lemma SentClaimed(s: Sender, j: nat)
    requires s.Ok() && j < s.count
    ensures SentSlot(s, j).claimed
  {
    hide Sender.Ok;
  }

  // The unclaimed slots from i to end hold what was sent.
  ghost function Filled(s: Sender, list: seq<Storage>, i: nat, end: nat): (r: seq<Storage>)
    requires s.Ok() && end <= |list| == s.count
    ensures |r| == |list|
  {
    seq(|list|, j requires 0 <= j < |list| => if i <= j < end && !list[j].claimed then SentSlot(s, j) else list[j])
  }

  // If every unclaimed fragment can be checked, all of them are accepted.
  lemma {:induction false} TakeAccepts(s: Sender, claims: seq<bool>, start: nat, i: nat, end: nat, mem: Memory,
                                       list: seq<Storage>)
    requires s.Ok() && start <= i <= end <= |claims| == s.count && Agrees(claims, list, i)
    requires i < s.count ==> MemOk(s, claims, start, i, mem)
    requires forall k :: i <= k < end && !claims[k] ==> Refills(s, claims, start, k)
    ensures Take(s.h, s.leafHash, s.root, s.depth, mem, Rest(s, start, i, end), list, i, end, s.instances) ==
      Receipt(Accepted, Filled(s, list, i, end))
    decreases end - i
  {
    hide Sender.Ok, DecodeEntries, Rest, SkipSlot, LastProof, Refills, MemOk, Take, Kept, Mul;
    if i == end {
      TakeNone(s.h, s.leafHash, s.root, s.depth, mem, Rest(s, start, i, end), list, end, s.instances);
      assert Filled(s, list, i, end) == list;
    } else if list[i].claimed {
      SkipStep(s, claims, start, i, end, mem);
      var mem' := SkipSlot(mem, Rest(s, start, i, end), s.instances).value;
      TakeStep(s.h, s.leafHash, s.root, s.depth, mem, Rest(s, start, i, end), list, i, end, s.instances);
      TakeAccepts(s, claims, start, i + 1, end, mem', list);
      assert Filled(s, list, i, end) == Filled(s, list, i + 1, end);
    } else {
      ReadStep(s, claims, start, i, end, mem);
      TakeStep(s.h, s.leafHash, s.root, s.depth, mem, Rest(s, start, i, end), list, i, end, s.instances);
      var pieces := s.pieces[s.First(i)..s.First(i + 1)];
      var list' := list[i := Kept(pieces, s.instances)];
      KeptClaimed(pieces, s.instances);
      TakeAccepts(s, claims, start, i + 1, end, LastProof(mem, pieces), list');
      assert Filled(s, list, i, end) == Filled(s, list', i + 1, end);
    }
  }

  // The first piece of fragment i as the receiver completes it.
  ghost function HeadRead(s: Sender, claims: seq<bool>, start: nat, i: nat): (piece: Piece)
    requires s.Ok() && start <= i < |claims| == s.count
  {
    FirstStep(s, i);
    PieceFacts(s, s.First(i));
    Completed(s.pieces[s.First(i)], BaseAt(s, claims, start, i), HeadCount(s, start, i))
  }

  // The first fragment that cannot be checked ends the call, if its completed
  // proof does not verify.
  lemma {:induction false} TakeRejects(s: Sender, claims: seq<bool>, start: nat, i: nat, end: nat, mem: Memory,
                                       list: seq<Storage>, bad: nat)
    requires s.Ok() && start <= i <= bad < end <= |claims| == s.count && Agrees(claims, list, i)
    requires MemOk(s, claims, start, i, mem)
    requires forall k :: i <= k < bad && !claims[k] ==> Refills(s, claims, start, k)
    requires start < bad && !claims[bad] && !Verifies(s.h, s.leafHash, s.root, HeadRead(s, claims, start, bad))
    ensures Take(s.h, s.leafHash, s.root, s.depth, mem, Rest(s, start, i, end), list, i, end,
      s.instances).verdict == Rejected
    decreases end - i
  {
    hide Sender.Ok, DecodeEntries, SkipSlot, LastProof, Refills, Take, Kept, Mul, Verifies, Entries, Overlay,
         SlotCount, LastSiblings;
    if i == bad {
      TakeStep(s.h, s.leafHash, s.root, s.depth, mem, Rest(s, start, i, end), list, i, end, s.instances);
      FirstStep(s, i);
      FirstMonotone(s, start, i);
      FirstMonotone(s, i + 1, end);
      FirstMonotone(s, end, s.count);
      PieceFacts(s, s.First(i));
      SlotRejected(s, s.First(start), s.First(i), s.instances, s.First(end), mem.Base());
    } else if list[i].claimed {
      SkipStep(s, claims, start, i, end, mem);
      var mem' := SkipSlot(mem, Rest(s, start, i, end), s.instances).value;
      TakeStep(s.h, s.leafHash, s.root, s.depth, mem, Rest(s, start, i, end), list, i, end, s.instances);
      TakeRejects(s, claims, start, i + 1, end, mem', list, bad);
    } else {
      ReadStep(s, claims, start, i, end, mem);
      TakeStep(s.h, s.leafHash, s.root, s.depth, mem, Rest(s, start, i, end), list, i, end, s.instances);
      var pieces := s.pieces[s.First(i)..s.First(i + 1)];
      var list' := list[i := Kept(pieces, s.instances)];
      TakeRejects(s, claims, start, i + 1, end, LastProof(mem, pieces), list', bad);
    }
  }

  /* ---- whatever is claimed, only the sender's fragments come in ---- */

  ghost predicate HonestSlot(s: Sender, j: nat, slot: Storage)
    requires s.Ok() && j < s.count
  {
    && slot.claimed && |slot.encodeFragment| == s.instances
    && forall o :: 0 <= o < s.instances ==>
      slot.encodeFragment[o] == [] || slot.encodeFragment[o] == SentFragment(s, j, o)
  }

  ghost function SentFragment(s: Sender, j: nat, o: nat): Bytes
    requires s.Ok() && j < s.count && o < s.instances
  {
    FirstStep(s, j);
    s.pieces[s.First(j) + o].fragment
  }

  // Unclaimed slots of the range change to honest ones, or not at all.
  ghost predicate HonestChange(s: Sender, before: seq<Storage>, after: seq<Storage>, i: nat, end: nat)
    requires s.Ok()
  {
    && |after| == |before| == s.count
    && forall j: nat :: j < |after| ==>
      after[j] == before[j] || (i <= j < end && !before[j].claimed && HonestSlot(s, j, after[j]))
  }

  ghost predicate MemFits(s: Sender, start: nat, i: nat, mem: Memory) {
    && |mem.cache| == s.depth && (mem.prev.Some? ==> |mem.prev.value| == s.depth)
    && (mem.Base().Nothing? ==> i == start)
  }

  lemma SkipFits(s: Sender, start: nat, i: nat, end: nat, mem: Memory)
    requires s.Ok() && start <= i < end <= s.count && MemFits(s, start, i, mem)
    ensures var r := SkipSlot(mem, Rest(s, start, i, end), s.instances);
      r.Read? && r.rest == Rest(s, start, i + 1, end) && MemFits(s, start, i + 1, r.value)
  {
    hide Sender.Ok, Mul, Uniform, SkipEntries, Entries, Overlay, MaxCount;
    FirstStep(s, i);
    FirstMonotone(s, start, i);
    FirstMonotone(s, i + 1, end);
    FirstMonotone(s, end, s.count);
    PieceFacts(s, s.First(i));
    PieceFacts(s, s.First(i + 1) - 1);
    var cache := if mem.prev.Some? then mem.prev.value else mem.cache;
    SkipHonest(s, s.First(start), s.First(i), s.instances, s.First(end), cache);
    assert mem.prev.Some? ==> mem.prev.value[..|mem.cache|] == mem.prev.value;
  }

  lemma ReadFits(s: Sender, start: nat, i: nat, end: nat, mem: Memory)
    requires s.Ok() && start <= i < end <= s.count && MemFits(s, start, i, mem)
    ensures var r := DecodeEntries(s.h, s.leafHash, s.root, s.depth, mem.Base(), Rest(s, start, i, end),
      s.instances, []);
      && r.verdict != Threw && HonestSlot(s, i, Kept(r.pieces, s.instances))
      && (r.verdict == Accepted ==>
        r.rest == Rest(s, start, i + 1, end) && MemFits(s, start, i + 1, LastProof(mem, r.pieces)))
  {
    hide Sender.Ok, Mul, Uniform, DecodeEntries, Entries, CountAt, Verifies, Limit;
    FirstStep(s, i);
    FirstMonotone(s, start, i);
    FirstMonotone(s, i + 1, end);
    FirstMonotone(s, end, s.count);
    PieceFacts(s, s.First(i));
    SlotHonest(s, s.First(start), s.First(i), s.instances, s.First(end), mem.Base(), []);
    var r := DecodeEntries(s.h, s.leafHash, s.root, s.depth, mem.Base(), Rest(s, start, i, end), s.instances, []);
    assert Honest(s, s.First(i), 0, r.pieces);
    forall o | 0 <= o < s.instances && o < |r.pieces| ensures r.pieces[o].fragment == SentFragment(s, i, o) {
      assert r.pieces[o].fragment == s.pieces[s.First(i) + o - 0].fragment;
    }
  }

  lemma {:induction false} TakeHonest(s: Sender, start: nat, i: nat, end: nat, mem: Memory, list: seq<Storage>)
    requires s.Ok() && start <= i <= end <= |list| == s.count && MemFits(s, start, i, mem)
    ensures var r := Take(s.h, s.leafHash, s.root, s.depth, mem, Rest(s, start, i, end), list, i, end, s.instances);
      r.verdict != Threw && HonestChange(s, list, r.list, i, end)
    decreases end - i
  {
    hide Sender.Ok, DecodeEntries, Rest, SkipSlot, LastProof, MemFits, Take, Kept, HonestSlot;
    if i == end {
      TakeNone(s.h, s.leafHash, s.root, s.depth, mem, Rest(s, start, i, end), list, end, s.instances);
    } else if list[i].claimed {
      SkipFits(s, start, i, end, mem);
      var mem' := SkipSlot(mem, Rest(s, start, i, end), s.instances).value;
      TakeStep(s.h, s.leafHash, s.root, s.depth, mem, Rest(s, start, i, end), list, i, end, s.instances);
      TakeHonest(s, start, i + 1, end, mem', list);
    } else {
      ReadFits(s, start, i, end, mem);
      TakeStep(s.h, s.leafHash, s.root, s.depth, mem, Rest(s, start, i, end), list, i, end, s.instances);
      var slot := DecodeEntries(s.h, s.leafHash, s.root, s.depth, mem.Base(), Rest(s, start, i, end), s.instances, []);
      var list' := list[i := Kept(slot.pieces, s.instances)];
      if slot.verdict == Accepted {
        TakeHonest(s, start, i + 1, end, LastProof(mem, slot.pieces), list');
        var after := Take(s.h, s.leafHash, s.root, s.depth, mem, Rest(s, start, i, end), list, i, end,
          s.instances).list;
        KeptClaimed(slot.pieces, s.instances);
        assert after[i] == list'[i];
      }
    }
  }

  /* ---- the streams of a tree ---- */

  ghost function SenderOf(h: PairHash<Digest>, leafHash: LeafHash, fragments: seq<Bytes>, instances: nat,
                          count: nat): Sender
    requires 2 <= |fragments|
  {
    Sender(h, leafHash, Root(h, LeavesOf(leafHash, fragments)), Depth(|fragments|), PiecesOf(h, leafHash, fragments),
      instances, count)
  }

  lemma SenderOk(h: PairHash<Digest>, leafHash: LeafHash, fragments: seq<Bytes>, instances: nat, count: nat)
    requires 0 < instances && Fits(fragments) && |fragments| == Mul(count, instances)
    ensures SenderOf(h, leafHash, fragments, instances, count).Ok()
  {
    hide Limit, Depth, Root, PiecesOf, Sendable, Uniform, Verifies, Mul, LeavesOf;
    PiecesSendable(h, leafHash, fragments);
  }

  // The stream of the fragments start .. end - 1.
  ghost function RangeStream(s: Sender, start: nat, end: nat): Bytes
    requires s.Ok() && start < end <= s.count
  {
    FirstStep(s, start);
    FirstMonotone(s, start + 1, end);
    FirstMonotone(s, end, s.count);
    PieceFacts(s, 0);
    Stream(s.pieces, s.First(start), s.First(end))
  }

  ghost function ReceiptOf(s: Sender, list: seq<Storage>, start: nat, end: nat): Receipt
    requires s.Ok() && start < end <= s.count
  {
    Validate(s.h, s.leafHash, s.root, RangeStream(s, start, end), list, start, end, s.instances)
  }

  lemma ReceiptIs(s: Sender, list: seq<Storage>, start: nat, end: nat)
    requires s.Ok() && start < end <= |list| == s.count
    ensures ReceiptOf(s, list, start, end) ==
      Take(s.h, s.leafHash, s.root, s.depth, StartMemory(s.depth), Rest(s, start, start, end), list, start,
        end, s.instances)
  {
    hide Sender.Ok, Mul, Uniform, Take, Entries, ReadInt, WriteInt, Limit;
    FirstStep(s, start);
    FirstMonotone(s, start + 1, end);
    FirstMonotone(s, end, s.count);
    PieceFacts(s, s.First(start));
    IntRoundTrip(s.depth, 8, Entries(s.pieces, s.First(start), s.First(start), s.First(end)));
  }
}
