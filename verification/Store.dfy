/**
  The key-value store under the concurrency control: puts and deletes, write
  batches (all puts, then all deletes), and batches applied concurrently.
  An absent value stands for the empty string, which means deleted.
 */
module Store {
  import opened Basics

  datatype Op<+K, +V> = Put(key: K, value: V) | Delete(key: K)

  datatype Write<+K, +V> = Write(key: K, value: Option<V>)

  function Get<K, V>(db: map<K, V>, k: K): Option<V> {
    if k in db then Some(db[k]) else None
  }

  lemma SameByGet<K(!new), V>(d: map<K, V>, e: map<K, V>)
    requires forall k :: Get(d, k) == Get(e, k)
    ensures d == e
  {
    forall k ensures k in d <==> k in e { assert Get(d, k) == Get(e, k); }
    forall k | k in d ensures d[k] == e[k] { assert Get(d, k) == Get(e, k); }
  }

  function ApplyOp<K, V>(db: map<K, V>, op: Op<K, V>): (db': map<K, V>) {
    match op
    case Put(k, v) => db[k := v]
    case Delete(k) => db - {k}
  }

  function Apply<K, V>(db: map<K, V>, ops: seq<Op<K, V>>): (db': map<K, V>) {
    if ops == [] then db else ApplyOp(Apply(db, ops[..|ops| - 1]), ops[|ops| - 1])
  }

  // The puts of a write list, in order.
  function Puts<K, V>(writes: seq<Write<K, V>>): (ops: seq<Op<K, V>>) {
    if writes == [] then []
    else
      var rest, w := Puts(writes[..|writes| - 1]), writes[|writes| - 1];
      if w.value.Some? then rest + [Put(w.key, w.value.value)] else rest
  }

  function Deletes<K, V>(writes: seq<Write<K, V>>): (ops: seq<Op<K, V>>) {
    if writes == [] then []
    else
      var rest, w := Deletes(writes[..|writes| - 1]), writes[|writes| - 1];
      if w.value.None? then rest + [Delete(w.key)] else rest
  }

  // What a batch with these writes does to the store.
  function Batch<K, V>(writes: seq<Write<K, V>>): (ops: seq<Op<K, V>>) {
    Puts(writes) + Deletes(writes)
  }

  ghost function Keys<K, V>(writes: seq<Write<K, V>>): set<K> {
    set w | w in writes :: w.key
  }

  // The operations on one key.
  ghost function On<K, V>(ops: seq<Op<K, V>>, k: K): (r: seq<Op<K, V>>) {
    if ops == [] then []
    else
      var rest, op := On(ops[..|ops| - 1], k), ops[|ops| - 1];
      if op.key == k then rest + [op] else rest
  }

  // The value that the last of some operations on one key leaves.
  function Left<K, V>(ops: seq<Op<K, V>>, before: Option<V>): Option<V> {
    if ops == [] then before
    else match ops[|ops| - 1]
      case Put(_, v) => Some(v)
      case Delete(_) => None
  }

  // Only the operations on k matter for k, and of those only the last.
  lemma {:induction false} ApplyAt<K, V>(db: map<K, V>, ops: seq<Op<K, V>>, k: K)
    ensures Get(Apply(db, ops), k) == Left(On(ops, k), Get(db, k))
  {
    if ops != [] {
      ApplyAt(db, ops[..|ops| - 1], k);
    }
  }

  lemma {:induction false} OnConcat<K, V>(a: seq<Op<K, V>>, b: seq<Op<K, V>>, k: K)
    ensures On(a + b, k) == On(a, k) + On(b, k)
  {
    if b == [] {
      assert a + b == a;
    } else {
      assert (a + b)[..|a + b| - 1] == a + b[..|b| - 1];
      OnConcat(a, b[..|b| - 1], k);
    }
  }

  lemma {:induction false} PutsDeletesConcat<K, V>(a: seq<Write<K, V>>, b: seq<Write<K, V>>)
    ensures Puts(a + b) == Puts(a) + Puts(b)
    ensures Deletes(a + b) == Deletes(a) + Deletes(b)
  {
    if b == [] {
      assert a + b == a;
    } else {
      assert (a + b)[..|a + b| - 1] == a + b[..|b| - 1];
      PutsDeletesConcat(a, b[..|b| - 1]);
    }
  }

  // A key outside the write list is outside its batch; one inside is inside.
  lemma {:induction false} BatchKeys<K, V>(writes: seq<Write<K, V>>, k: K)
    ensures k !in Keys(writes) <==> On(Puts(writes), k) == [] && On(Deletes(writes), k) == []
  {
    if writes != [] {
      var front, w := writes[..|writes| - 1], writes[|writes| - 1];
      BatchKeys(front, k);
      assert Keys(writes) == Keys(front) + {w.key} by {
        assert writes == front + [w];
      }
      if w.value.Some? {
        OnConcat(Puts(front), [Put(w.key, w.value.value)], k);
      } else {
        OnConcat(Deletes(front), [Delete(w.key)], k);
      }
    }
  }

  // The value a write list leaves at a key, whatever was there before.
  ghost function Written<K, V>(writes: seq<Write<K, V>>, k: K): Option<V> {
    Left(On(Batch(writes), k), None)
  }

  // A key that is only put ends up with one of the values put.
  lemma {:induction false} PutsFrom<K, V>(writes: seq<Write<K, V>>, k: K)
    requires forall w :: w in writes && w.key == k ==> w.value.Some?
    ensures On(Deletes(writes), k) == []
    ensures forall i :: 0 <= i < |On(Puts(writes), k)| ==>
      var op := On(Puts(writes), k)[i]; op.Put? && Write(k, Some(op.value)) in writes
  {
    if writes != [] {
      var front, w := writes[..|writes| - 1], writes[|writes| - 1];
      assert forall x :: x in front ==> x in writes;
      PutsFrom(front, k);
      if w.value.Some? {
        OnConcat(Puts(front), [Put(w.key, w.value.value)], k);
        assert w.key == k ==> Write(k, Some(w.value.value)) in writes;
      } else {
        OnConcat(Deletes(front), [Delete(w.key)], k);
      }
    }
  }

  lemma WrittenFrom<K, V>(writes: seq<Write<K, V>>, k: K)
    requires k in Keys(writes) && forall w :: w in writes && w.key == k ==> w.value.Some?
    ensures Written(writes, k).Some? && Write(k, Written(writes, k)) in writes
  {
    PutsFrom(writes, k);
    BatchKeys(writes, k);
    OnConcat(Puts(writes), Deletes(writes), k);
  }

  // A key whose writes all carry the same value ends up with it.
  lemma WrittenAlways<K, V>(writes: seq<Write<K, V>>, k: K, v: V)
    requires k in Keys(writes) && forall w :: w in writes && w.key == k ==> w.value == Some(v)
    ensures Written(writes, k) == Some(v)
  {
    WrittenFrom(writes, k);
  }

  /* ---- the value at a key, from the write list alone ---- */

  lemma {:induction false} LastPut<K, V>(writes: seq<Write<K, V>>, k: K, i: nat)
    requires i < |writes| && writes[i].key == k && writes[i].value.Some?
    requires forall j :: i < j < |writes| && writes[j].key == k ==> writes[j].value.None?
    ensures var ops := On(Puts(writes), k); ops != [] && ops[|ops| - 1] == Put(k, writes[i].value.value)
  {
    var front, w := writes[..|writes| - 1], writes[|writes| - 1];
    if i == |writes| - 1 {
      OnConcat(Puts(front), [Put(k, w.value.value)], k);
    } else {
      LastPut(front, k, i);
      if w.value.Some? { OnConcat(Puts(front), [Put(w.key, w.value.value)], k); }
    }
  }

  lemma {:induction false} AnyDelete<K, V>(writes: seq<Write<K, V>>, k: K)
    ensures var ops := On(Deletes(writes), k);
      && (ops != [] <==> Write(k, None) in writes)
      && forall p :: 0 <= p < |ops| ==> ops[p] == Delete(k)
  {
    if writes != [] {
      var front, w := writes[..|writes| - 1], writes[|writes| - 1];
      AnyDelete(front, k);
      assert writes == front + [w];
      if w.value.None? { OnConcat(Deletes(front), [Delete(w.key)], k); }
    }
  }

  // A delete anywhere in the list wins over every put of the same key, since
  // deletes come last; without one the last put counts.
  lemma WrittenIs<K, V>(writes: seq<Write<K, V>>, k: K, i: nat)
    requires i < |writes| && writes[i].key == k && forall j :: i < j < |writes| ==> writes[j].key != k
    ensures Written(writes, k) == if Write(k, None) in writes then None else writes[i].value
  {
    OnConcat(Puts(writes), Deletes(writes), k);
    AnyDelete(writes, k);
    if Write(k, None) !in writes {
      assert writes[i] in writes;
      LastPut(writes, k, i);
    }
  }

  lemma BatchAt<K, V>(db: map<K, V>, writes: seq<Write<K, V>>, k: K)
    ensures Get(Apply(db, Batch(writes)), k) == if k in Keys(writes) then Written(writes, k) else Get(db, k)
  {
    ApplyAt(db, Batch(writes), k);
    BatchKeys(writes, k);
    OnConcat(Puts(writes), Deletes(writes), k);
  }

  /* ---- several batches applied concurrently, one operation at a time ---- */

  // schedule names the stream whose next operation is applied.
  ghost predicate ValidSchedule<K, V>(streams: seq<seq<Op<K, V>>>, schedule: seq<nat>)
    decreases |schedule|
  {
    if schedule == [] then forall w :: 0 <= w < |streams| ==> streams[w] == []
    else
      var w := schedule[|schedule| - 1];
      && w < |streams|
      && streams[w] != []
      && ValidSchedule(streams[w := streams[w][..|streams[w]| - 1]], schedule[..|schedule| - 1])
  }

  function Merge<K, V>(streams: seq<seq<Op<K, V>>>, schedule: seq<nat>): (ops: seq<Op<K, V>>)
    decreases |schedule|
  {
    if schedule == [] then []
    else
      var w := schedule[|schedule| - 1];
      if w < |streams| && streams[w] != [] then
        Merge(streams[w := streams[w][..|streams[w]| - 1]], schedule[..|schedule| - 1]) + [streams[w][|streams[w]| - 1]]
      else []
  }

  // A key that only stream w touches sees exactly the operations of w, in order.
  lemma {:induction false} MergeOn<K, V>(streams: seq<seq<Op<K, V>>>, schedule: seq<nat>, k: K, w: nat)
    requires ValidSchedule(streams, schedule)
    requires w < |streams| && forall u :: 0 <= u < |streams| && u != w ==> On(streams[u], k) == []
    ensures On(Merge(streams, schedule), k) == On(streams[w], k)
    decreases |schedule|
  {
    if schedule != [] {
      var u := schedule[|schedule| - 1];
      var rest := streams[u := streams[u][..|streams[u]| - 1]];
      var front := Merge(rest, schedule[..|schedule| - 1]);
      var op := streams[u][|streams[u]| - 1];
      OnConcat(rest[u], [op], k);
      assert rest[u] + [op] == streams[u];
      forall v | 0 <= v < |streams| && v != w ensures On(rest[v], k) == [] {
        assert On(streams[v], k) == [];
      }
      MergeOn(rest, schedule[..|schedule| - 1], k, w);
      OnConcat(front, [op], k);
    }
  }
}
