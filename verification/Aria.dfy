/**
  Deterministic concurrency control of one batch: every transaction runs on the
  same snapshot, and reservations with the smallest transaction id decide which
  ones commit.
 */
module Aria {
  import opened Basics
  import opened Store

  datatype Read<+K, +V> = Read(key: K, value: V)

  // What a chaincode invocation leaves in its transaction.
  datatype Outcome<+K, +V> = Aborted | Finished(readSet: seq<Read<K, V>>, writeSet: seq<Write<K, V>>)

  datatype Txn<!K, !V> = Txn(tid: int, code: map<K, V> -> Outcome<K, V>)

  // A chaincode whose result is a function of the reads that it recorded.
  ghost predicate ReadLocal<K(!new), V(!new)>(code: map<K, V> -> Outcome<K, V>) {
    && (forall d :: code(d).Finished? ==> ReadsHold(code(d).readSet, d))
    && (forall d, d' :: code(d).Finished? && ReadsHold(code(d).readSet, d') ==> code(d') == code(d))
  }

  ghost predicate ReadsHold<K, V>(readSet: seq<Read<K, V>>, d: map<K, V>) {
    forall r :: r in readSet ==> Get(d, r.key) == Some(r.value)
  }

  // A transaction of the batch after the execution phase.
  datatype Item<+K, +V> = Item(tid: int, out: Outcome<K, V>)

  ghost function Execute<K, V>(db: map<K, V>, batch: seq<Txn<K, V>>): (items: seq<Item<K, V>>) {
    seq(|batch|, i requires 0 <= i < |batch| => Item(batch[i].tid, batch[i].code(db)))
  }

  ghost predicate DistinctTids<K, V>(items: seq<Item<K, V>>) {
    forall i, j :: 0 <= i < j < |items| ==> items[i].tid != items[j].tid
  }

  ghost predicate Reads<K, V>(it: Item<K, V>, k: K) {
    it.out.Finished? && exists r :: r in it.out.readSet && r.key == k
  }

  ghost predicate Writes<K, V>(it: Item<K, V>, k: K) {
    it.out.Finished? && k in Keys(it.out.writeSet)
  }

  // Read-only and failed transactions make no reservation.
  predicate Reserved<K, V>(it: Item<K, V>) {
    it.out.Finished? && |it.out.writeSet| > 0
  }

  ghost predicate Waw<K(!new), V>(items: seq<Item<K, V>>, it: Item<K, V>) {
    exists u, k :: u in items && Reserved(u) && u.tid < it.tid && Writes(u, k) && Writes(it, k)
  }

  ghost predicate War<K(!new), V>(items: seq<Item<K, V>>, it: Item<K, V>) {
    exists u, k :: u in items && Reserved(u) && u.tid < it.tid && Reads(u, k) && Writes(it, k)
  }

  ghost predicate Raw<K(!new), V>(items: seq<Item<K, V>>, it: Item<K, V>) {
    exists u, k :: u in items && Reserved(u) && u.tid < it.tid && Writes(u, k) && Reads(it, k)
  }

  ghost predicate Commits<K(!new), V>(items: seq<Item<K, V>>, it: Item<K, V>) {
    it.out.Finished? &&
    (it.out.writeSet == [] || (!Waw(items, it) && (!War(items, it) || !Raw(items, it))))
  }

  /* ---- the rule in terms of read and write sets ---- */

  ghost function ReadKeys<K, V>(it: Item<K, V>): set<K> {
    if it.out.Finished? then set r | r in it.out.readSet :: r.key else {}
  }

  ghost function WriteKeys<K, V>(it: Item<K, V>): set<K> {
    if it.out.Finished? then set w | w in it.out.writeSet :: w.key else {}
  }

  // The transactions that a transaction can lose to: finished writers with a smaller id.
  ghost predicate Rival<K, V>(items: seq<Item<K, V>>, j: int, tid: int) {
    0 <= j < |items| && items[j].out.Finished? && items[j].out.writeSet != [] && items[j].tid < tid
  }

  // A finished transaction commits if it writes nothing, or if no rival writes what
  // it writes and, moreover, no rival reads what it writes or none writes what it reads.
  ghost predicate MayCommit<K, V>(items: seq<Item<K, V>>, i: nat)
    requires i < |items|
  {
    var it := items[i];
    it.out.Finished? &&
    (it.out.writeSet == [] ||
     ((forall j :: Rival(items, j, it.tid) ==> WriteKeys(items[j]) !! WriteKeys(it)) &&
      ((forall j :: Rival(items, j, it.tid) ==> ReadKeys(items[j]) !! WriteKeys(it)) ||
       (forall j :: Rival(items, j, it.tid) ==> WriteKeys(items[j]) !! ReadKeys(it)))))
  }

  lemma KeysAre<K, V>(it: Item<K, V>, k: K)
    ensures k in ReadKeys(it) <==> Reads(it, k)
    ensures k in WriteKeys(it) <==> Writes(it, k)
  {
  }

  // The keys of up to five reads and four writes, by position.
  lemma FewKeys<K, V>(it: Item<K, V>, k: K)
    requires it.out.Finished? && |it.out.readSet| <= 5 && |it.out.writeSet| <= 4
    ensures var rs, ws := it.out.readSet, it.out.writeSet;
      && (k in ReadKeys(it) <==>
            || (0 < |rs| && rs[0].key == k) || (1 < |rs| && rs[1].key == k) || (2 < |rs| && rs[2].key == k)
            || (3 < |rs| && rs[3].key == k) || (4 < |rs| && rs[4].key == k))
      && (k in WriteKeys(it) <==>
            || (0 < |ws| && ws[0].key == k) || (1 < |ws| && ws[1].key == k) || (2 < |ws| && ws[2].key == k)
            || (3 < |ws| && ws[3].key == k))
  {
    var rs, ws := it.out.readSet, it.out.writeSet;
    assert forall i :: 0 <= i < |rs| ==> rs[i] in rs;
    assert forall i :: 0 <= i < |ws| ==> ws[i] in ws;
  }

  lemma WawIff<K(!new), V>(items: seq<Item<K, V>>, it: Item<K, V>)
    ensures !Waw(items, it) <==> forall j :: Rival(items, j, it.tid) ==> WriteKeys(items[j]) !! WriteKeys(it)
  {
    hide Writes, WriteKeys;
    forall j, k | Rival(items, j, it.tid) && k in WriteKeys(items[j]) && k in WriteKeys(it) ensures Waw(items, it) {
      KeysAre(items[j], k);
      KeysAre(it, k);
    }
    if u, k :| u in items && Reserved(u) && u.tid < it.tid && Writes(u, k) && Writes(it, k) {
      var j :| 0 <= j < |items| && items[j] == u;
      KeysAre(u, k);
      KeysAre(it, k);
      assert Rival(items, j, it.tid);
    }
  }

  lemma WarIff<K(!new), V>(items: seq<Item<K, V>>, it: Item<K, V>)
    ensures !War(items, it) <==> forall j :: Rival(items, j, it.tid) ==> ReadKeys(items[j]) !! WriteKeys(it)
  {
    hide Writes, WriteKeys, Reads, ReadKeys;
    forall j, k | Rival(items, j, it.tid) && k in ReadKeys(items[j]) && k in WriteKeys(it) ensures War(items, it) {
      KeysAre(items[j], k);
      KeysAre(it, k);
    }
    if u, k :| u in items && Reserved(u) && u.tid < it.tid && Reads(u, k) && Writes(it, k) {
      var j :| 0 <= j < |items| && items[j] == u;
      KeysAre(u, k);
      KeysAre(it, k);
      assert Rival(items, j, it.tid);
    }
  }

  lemma RawIff<K(!new), V>(items: seq<Item<K, V>>, it: Item<K, V>)
    ensures !Raw(items, it) <==> forall j :: Rival(items, j, it.tid) ==> WriteKeys(items[j]) !! ReadKeys(it)
  {
    hide Writes, WriteKeys, Reads, ReadKeys;
    forall j, k | Rival(items, j, it.tid) && k in WriteKeys(items[j]) && k in ReadKeys(it) ensures Raw(items, it) {
      KeysAre(items[j], k);
      KeysAre(it, k);
    }
    if u, k :| u in items && Reserved(u) && u.tid < it.tid && Writes(u, k) && Reads(it, k) {
      var j :| 0 <= j < |items| && items[j] == u;
      KeysAre(u, k);
      KeysAre(it, k);
      assert Rival(items, j, it.tid);
    }
  }

  // When a transaction commits, exactly.
  lemma CommitsIff<K(!new), V>(items: seq<Item<K, V>>, i: nat)
    requires i < |items|
    ensures Commits(items, items[i]) <==> MayCommit(items, i)
  {
    hide Waw, War, Raw, WriteKeys, ReadKeys, Rival;
    WawIff(items, items[i]);
    WarIff(items, items[i]);
    RawIff(items, items[i]);
  }

  // What the store must hold after the batch: the writes of the committed.
  ghost predicate BatchResult<K(!new), V>(db: map<K, V>, items: seq<Item<K, V>>, db': map<K, V>) {
    forall k ::
      && (forall i :: 0 <= i < |items| && Commits(items, items[i]) && Writes(items[i], k) ==>
            Get(db', k) == Written(items[i].out.writeSet, k))
      && ((forall i :: 0 <= i < |items| && Commits(items, items[i]) ==> !Writes(items[i], k)) ==>
            Get(db', k) == Get(db, k))
  }

  lemma BatchResultUnique<K(!new), V>(db: map<K, V>, items: seq<Item<K, V>>, d: map<K, V>, e: map<K, V>)
    requires BatchResult(db, items, d) && BatchResult(db, items, e)
    ensures d == e
  {
    forall k ensures Get(d, k) == Get(e, k) {
      if i :| 0 <= i < |items| && Commits(items, items[i]) && Writes(items[i], k) {
        assert Get(d, k) == Written(items[i].out.writeSet, k) == Get(e, k);
      } else {
        assert Get(d, k) == Get(db, k) == Get(e, k);
      }
    }
    SameByGet(d, e);
  }

  // Committed write sets are pairwise disjoint.
  lemma CommittedDisjoint<K(!new), V>(items: seq<Item<K, V>>, i: nat, j: nat, k: K)
    requires DistinctTids(items) && i < |items| && j < |items| && i != j
    requires Commits(items, items[i]) && Commits(items, items[j])
    ensures !(Writes(items[i], k) && Writes(items[j], k))
  {
    var a, b := items[i], items[j];
    assert Writes(a, k) && Writes(b, k) && a.tid < b.tid ==> Waw(items, b);
    assert Writes(a, k) && Writes(b, k) && b.tid < a.tid ==> Waw(items, a);
  }

  // The smallest reserved transaction id always commits.
  lemma SmallestCommits<K(!new), V>(items: seq<Item<K, V>>, it: Item<K, V>)
    requires it in items && Reserved(it) && forall u :: u in items && Reserved(u) ==> it.tid <= u.tid
    ensures Commits(items, it)
  {
  }

  /* ---- the equivalent serial order ---- */

  // Read-only transactions first, then those that read a key written by a
  // smaller id in descending order, then the others in ascending order.
  ghost function Phase<K(!new), V>(items: seq<Item<K, V>>, it: Item<K, V>): nat {
    if !Reserved(it) then 0 else if Raw(items, it) then 1 else 2
  }

  ghost predicate Precedes<K(!new), V>(items: seq<Item<K, V>>, a: Item<K, V>, b: Item<K, V>) {
    var p, q := Phase(items, a), Phase(items, b);
    p < q || (p == q && if p == 1 then a.tid > b.tid else a.tid < b.tid)
  }

  // Whoever reads a key runs before whoever writes it: no cycles.
  lemma ReaderFirst<K(!new), V>(items: seq<Item<K, V>>, a: Item<K, V>, b: Item<K, V>, k: K)
    requires a in items && b in items && a.tid != b.tid && Commits(items, a) && Commits(items, b)
    requires Reads(a, k) && Writes(b, k)
    ensures Precedes(items, a, b)
  {
    if Reserved(a) {
      assert b.tid < a.tid ==> Raw(items, a);
      assert a.tid < b.tid ==> War(items, b);
    }
  }

  // An order of the committed transactions in which no one reads a key that
  // was written before: a topological order of reader-before-writer.
  ghost predicate SerialOrder<K(!new), V>(items: seq<Item<K, V>>, order: seq<nat>) {
    && (forall p :: 0 <= p < |order| ==> order[p] < |items| && Commits(items, items[order[p]]))
    && (forall i :: 0 <= i < |items| && Commits(items, items[i]) ==> i in order)
    && (forall p, q :: 0 <= p < q < |order| ==> order[p] != order[q])
    && (forall p, q, k :: 0 <= p < q < |order| && Writes(items[order[p]], k) ==> !Reads(items[order[q]], k))
  }

  ghost predicate Sorted<K(!new), V>(items: seq<Item<K, V>>, order: seq<nat>) {
    && (forall p :: 0 <= p < |order| ==> order[p] < |items|)
    && forall p, q :: 0 <= p < q < |order| ==> Precedes(items, items[order[p]], items[order[q]])
  }

  lemma {:induction false} Insert<K(!new), V>(items: seq<Item<K, V>>, order: seq<nat>, i: nat) returns (r: seq<nat>)
    requires DistinctTids(items) && Sorted(items, order) && i < |items| && i !in order
    ensures Sorted(items, r) && forall j: nat :: j in r <==> j in order || j == i
  {
    hide Phase;
    if order == [] || Precedes(items, items[i], items[order[0]]) {
      r := [i] + order;
    } else {
      var rest := Insert(items, order[1..], i);
      r := [order[0]] + rest;
      assert order == [order[0]] + order[1..];
      forall j | j in rest ensures Precedes(items, items[order[0]], items[j]) {
        if j != i {
          var q :| 0 <= q < |order[1..]| && order[1..][q] == j;
          assert order[q + 1] == j;
        } else {
          assert items[i].tid != items[order[0]].tid;
        }
      }
    }
  }

  lemma {:induction false} SortCommitted<K(!new), V>(items: seq<Item<K, V>>, n: nat) returns (order: seq<nat>)
    requires DistinctTids(items) && n <= |items|
    ensures Sorted(items, order) && forall i: nat :: i in order <==> i < n && Commits(items, items[i])
  {
    if n == 0 {
      order := [];
    } else {
      order := SortCommitted(items, n - 1);
      if Commits(items, items[n - 1]) {
        order := Insert(items, order, n - 1);
      }
    }
  }

  // A serial order always exists.
  lemma SerialOrderExists<K(!new), V>(items: seq<Item<K, V>>) returns (order: seq<nat>)
    requires DistinctTids(items)
    ensures SerialOrder(items, order)
  {
    order := SortCommitted(items, |items|);
    forall p | 0 <= p < |order| ensures order[p] < |items| && Commits(items, items[order[p]]) {
      assert order[p] in order;
    }
    forall p, q, k | 0 <= p < q < |order| && Writes(items[order[p]], k) ensures !Reads(items[order[q]], k) {
      var a, b := items[order[q]], items[order[p]];
      assert Precedes(items, b, a);
      if Reads(a, k) {
        ReaderFirst(items, a, b, k);
      }
    }
  }

  /* ---- serial execution ---- */

  // The serial coordinator: each transaction runs on what the previous ones left.
  ghost function RunSerially<K, V>(db: map<K, V>, batch: seq<Txn<K, V>>, order: seq<nat>): (db': map<K, V>) {
    if order == [] then db
    else
      var d, i := RunSerially(db, batch, order[..|order| - 1]), order[|order| - 1];
      if i < |batch| && batch[i].code(d).Finished? then Apply(d, Batch(batch[i].code(d).writeSet)) else d
  }

  // d holds db with the writes of the items in the order.
  ghost predicate PrefixResult<K(!new), V>(db: map<K, V>, items: seq<Item<K, V>>, order: seq<nat>, d: map<K, V>) {
    && (forall p :: 0 <= p < |order| ==> order[p] < |items|)
    && forall k ::
      && (forall p :: 0 <= p < |order| && Writes(items[order[p]], k) ==>
        Get(d, k) == Written(items[order[p]].out.writeSet, k))
      && ((forall p :: 0 <= p < |order| ==> !Writes(items[order[p]], k)) ==> Get(d, k) == Get(db, k))
  }

  lemma PrefixEmpty<K(!new), V>(db: map<K, V>, items: seq<Item<K, V>>)
    ensures PrefixResult(db, items, [], db)
  {
  }

  // After the first n transactions of the order, the next one reads what it reads
  // on the snapshot: nobody before it has written that.
  lemma SameOnPrefix<K(!new), V(!new)>(db: map<K, V>, batch: seq<Txn<K, V>>, order: seq<nat>, n: nat, d: map<K, V>)
    requires SerialOrder(Execute(db, batch), order) && n < |order| && order[n] < |batch|
    requires ReadLocal(batch[order[n]].code) && PrefixResult(db, Execute(db, batch), order[..n], d)
    ensures batch[order[n]].code(d) == batch[order[n]].code(db)
  {
    hide Waw, War, Raw, Written;
    var items, i := Execute(db, batch), order[n];
    assert ReadsHold(batch[i].code(db).readSet, db);
    forall r | r in items[i].out.readSet ensures Get(d, r.key) == Some(r.value) {
      assert Reads(items[i], r.key);
      assert forall p :: 0 <= p < n ==> !Writes(items[order[p]], r.key) && order[..n][p] == order[p];
    }
  }

  // Each of the first n transactions of the order sees the same reads and
  // makes the same writes as on the snapshot.
  lemma {:induction false} SerialPrefix<K(!new), V(!new)>(db: map<K, V>, batch: seq<Txn<K, V>>, order: seq<nat>, n: nat)
    requires DistinctTids(Execute(db, batch)) && SerialOrder(Execute(db, batch), order) && n <= |order|
    requires forall i :: 0 <= i < |batch| ==> ReadLocal(batch[i].code)
    ensures PrefixResult(db, Execute(db, batch), order[..n], RunSerially(db, batch, order[..n]))
    ensures n < |order| ==> batch[order[n]].code(RunSerially(db, batch, order[..n])) == batch[order[n]].code(db)
  {
    hide PrefixResult, Waw, War, Raw;
    if n == 0 {
      PrefixEmpty(db, Execute(db, batch));
    } else {
      SerialPrefix(db, batch, order, n - 1);
      assert order[..n][..n - 1] == order[..n - 1];
      PrefixStep(db, Execute(db, batch), order, n - 1, RunSerially(db, batch, order[..n - 1]));
    }
    if n < |order| {
      SameOnPrefix(db, batch, order, n, RunSerially(db, batch, order[..n]));
    }
  }

  lemma PrefixStepAt<K(!new), V>(db: map<K, V>, items: seq<Item<K, V>>, order: seq<nat>, n: nat, d: map<K, V>, k: K)
    requires DistinctTids(items) && SerialOrder(items, order) && n < |order|
    requires PrefixResult(db, items, order[..n], d)
    ensures var d' := Apply(d, Batch(items[order[n]].out.writeSet));
      && (forall p :: 0 <= p <= n && Writes(items[order[p]], k) ==>
            Get(d', k) == Written(items[order[p]].out.writeSet, k))
      && ((forall p :: 0 <= p <= n ==> !Writes(items[order[p]], k)) ==> Get(d', k) == Get(db, k))
  {
    hide Waw, War, Raw, Written;
    var it := items[order[n]];
    BatchAt(d, it.out.writeSet, k);
    forall p | 0 <= p < n ensures order[..n][p] == order[p] && !(Writes(items[order[p]], k) && Writes(it, k)) {
      CommittedDisjoint(items, order[p], order[n], k);
    }
  }

  lemma PrefixStep<K(!new), V>(db: map<K, V>, items: seq<Item<K, V>>, order: seq<nat>, n: nat, d: map<K, V>)
    requires DistinctTids(items) && SerialOrder(items, order) && n < |order|
    requires PrefixResult(db, items, order[..n], d)
    ensures PrefixResult(db, items, order[..n + 1], Apply(d, Batch(items[order[n]].out.writeSet)))
  {
    hide Waw, War, Raw, Written, Apply;
    var d', more := Apply(d, Batch(items[order[n]].out.writeSet)), order[..n + 1];
    forall k
      ensures forall p :: 0 <= p < |more| && Writes(items[more[p]], k) ==>
        Get(d', k) == Written(items[more[p]].out.writeSet, k)
      ensures (forall p :: 0 <= p < |more| ==> !Writes(items[more[p]], k)) ==> Get(d', k) == Get(db, k)
    {
      PrefixStepAt(db, items, order, n, d, k);
      assert forall p :: 0 <= p <= n ==> more[p] == order[p];
    }
  }

  lemma OrderGivesBatchResult<K(!new), V>(db: map<K, V>, items: seq<Item<K, V>>, order: seq<nat>, d: map<K, V>)
    requires SerialOrder(items, order) && PrefixResult(db, items, order, d)
    ensures BatchResult(db, items, d)
  {
    hide Commits, Written;
    forall k, i | 0 <= i < |items| && Commits(items, items[i]) && Writes(items[i], k)
      ensures Get(d, k) == Written(items[i].out.writeSet, k)
    {
      assert i in order;
      var p :| 0 <= p < |order| && order[p] == i;
    }
    forall k | forall i :: 0 <= i < |items| && Commits(items, items[i]) ==> !Writes(items[i], k)
      ensures Get(d, k) == Get(db, k)
    {
      assert forall p :: 0 <= p < |order| ==> !Writes(items[order[p]], k);
    }
  }

  // Serializability: in every topological order of reader-before-writer, the
  // serial coordinator gives each committed transaction the same reads and
  // writes, and leaves the same store as the batch.
  lemma Serializable<K(!new), V(!new)>(db: map<K, V>, batch: seq<Txn<K, V>>, order: seq<nat>, db': map<K, V>)
    requires DistinctTids(Execute(db, batch)) && SerialOrder(Execute(db, batch), order)
    requires forall i :: 0 <= i < |batch| ==> ReadLocal(batch[i].code)
    requires BatchResult(db, Execute(db, batch), db')
    ensures forall p :: 0 <= p < |order| ==>
      batch[order[p]].code(RunSerially(db, batch, order[..p])) == batch[order[p]].code(db)
    ensures RunSerially(db, batch, order) == db'
  {
    hide Commits, ReadLocal, BatchResult;
    var items := Execute(db, batch);
    forall p | 0 <= p < |order|
      ensures batch[order[p]].code(RunSerially(db, batch, order[..p])) == batch[order[p]].code(db)
    {
      SerialPrefix(db, batch, order, p);
    }
    SerialPrefix(db, batch, order, |order|);
    assert order[..|order|] == order;
    var d := RunSerially(db, batch, order);
    OrderGivesBatchResult(db, items, order, d);
    BatchResultUnique(db, items, d, db');
  }
}
