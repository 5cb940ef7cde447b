/**
  The object through which a chaincode reads and writes: reads go to the
  snapshot and are recorded, writes are collected and not seen by later reads.
 */
module Chaincode {
  import opened Basics
  import opened Store
  import opened Aria

  class Orm<K(==), V> {
    const db: map<K, V>
    var readSet: seq<Read<K, V>>
    var writeSet: seq<Write<K, V>>

    constructor (db_: map<K, V>)
      ensures db == db_ && readSet == [] && writeSet == []
    {
      db := db_;
      readSet, writeSet := [], [];
    }

    // A miss is not recorded.
    method Get(k: K) returns (v: Option<V>)
      modifies `readSet
      ensures v == Store.Get(db, k)
      ensures readSet == if v.Some? then old(readSet) + [Read(k, v.value)] else old(readSet)
    {
      if k !in db {
        return None;
      }
      readSet := readSet + [Read(k, db[k])];
      return Some(db[k]);
    }

    method Put(k: K, v: V)
      modifies `writeSet
      ensures writeSet == old(writeSet) + [Write(k, Some(v))]
    {
      writeSet := writeSet + [Write(k, Some(v))];
    }

    method Delete(k: K)
      modifies `writeSet
      ensures writeSet == old(writeSet) + [Write(k, None)]
    {
      writeSet := writeSet + [Write(k, None)];
    }

    // Move the read and write sets out.
    method Reset() returns (readSet': seq<Read<K, V>>, writeSet': seq<Write<K, V>>)
      modifies this
      ensures readSet' == old(readSet) && writeSet' == old(writeSet)
      ensures readSet == [] && writeSet == []
    {
      readSet', writeSet' := readSet, writeSet;
      readSet, writeSet := [], [];
    }
  }

  // What an invocation leaves behind, for the caller of Reset.
  ghost predicate Leaves<K, V>(orm: Orm<K, V>, ok: bool, out: Outcome<K, V>)
    reads orm
  {
    if ok then out == Finished(orm.readSet, orm.writeSet) else out == Aborted
  }

  /* ---- why a miss has to abort the transaction ---- */

  // Insert a row into b unless a has one: the miss on a leaves no read behind.
  function InsertUnless(a: int, b: int): (code: map<int, int> -> Outcome<int, int>) {
    (db: map<int, int>) =>
      if a in db then Finished([Read(a, db[a])], []) else Finished([], [Write(b, Some(0))])
  }

  function Inserts(): (batch: seq<Txn<int, int>>) {
    [Txn(1, InsertUnless(1, 2)), Txn(2, InsertUnless(2, 1))]
  }

  function Inserted(): (items: seq<Item<int, int>>) {
    [Item(1, Finished([], [Write(2, Some(0))])), Item(2, Finished([], [Write(1, Some(0))]))]
  }

  lemma InsertsExecute()
    ensures Execute(map[], Inserts()) == Inserted()
    ensures forall k :: (Writes(Inserted()[0], k) <==> k == 2) && (Writes(Inserted()[1], k) <==> k == 1)
    ensures forall k, i :: 0 <= i < 2 ==> !Reads(Inserted()[i], k)
  {
    assert Inserted()[0].out.writeSet[0] in Inserted()[0].out.writeSet;
    assert Inserted()[1].out.writeSet[0] in Inserted()[1].out.writeSet;
  }

  lemma InsertsRunSerially()
    ensures RunSerially(map[], Inserts(), [0, 1]) == map[2 := 0]
    ensures RunSerially(map[], Inserts(), [1, 0]) == map[1 := 0]
  {
    assert [0, 1][..1] == [0] && [1, 0][..1] == [1];
    var p, q := Put(2, 0), Put(1, 0);
    assert Batch([Write(2, Some(0))]) == [p] && Batch([Write(1, Some(0))]) == [q];
    assert RunSerially(map[], Inserts(), [0]) == Apply(map[], [p]) == map[2 := 0];
    assert RunSerially(map[], Inserts(), [1]) == Apply(map[], [q]) == map[1 := 0];
    assert Inserts()[1].code(map[2 := 0]).writeSet == [] && Inserts()[0].code(map[1 := 0]).writeSet == [];
  }

  lemma BothCommit()
    ensures Commits(Inserted(), Inserted()[0]) && Commits(Inserted(), Inserted()[1])
  {
    InsertsExecute();
  }

  lemma InsertsCommit()
    ensures forall i :: 0 <= i < 2 ==> Commits(Inserted(), Inserted()[i])
    ensures SerialOrder(Inserted(), [0, 1]) && SerialOrder(Inserted(), [1, 0])
  {
    hide Commits;
    BothCommit();
    InsertsExecute();
    assert 0 in [0, 1] && 1 in [0, 1] && 0 in [1, 0] && 1 in [1, 0];
  }

  lemma InsertsBatch(db': map<int, int>)
    requires BatchResult(map[], Inserted(), db')
    ensures Get(db', 1) == Get(db', 2) == Some(0)
  {
    InsertsExecute();
    InsertsCommit();
    hide Commits;
    var items := Inserted();
    assert Writes(items[0], 2) && Writes(items[1], 1);
    assert Batch([Write(2, Some(0))]) == [Put(2, 0)] && Batch([Write(1, Some(0))]) == [Put(1, 0)];
    assert Written(items[0].out.writeSet, 2) == Some(0) && Written(items[1].out.writeSet, 1) == Some(0);
  }

  // Two such transactions commit together, yet no serial order of the two
  // leaves what the batch leaves: the condition ReadLocal is needed.
  lemma UnrecordedMissNotSerializable(db': map<int, int>)
    requires BatchResult(map[], Execute(map[], Inserts()), db')
    ensures
      var items := Execute(map[], Inserts());
      && DistinctTids(items) && (forall i :: 0 <= i < |items| ==> Commits(items, items[i]))
      && SerialOrder(items, [0, 1]) && SerialOrder(items, [1, 0])
      && RunSerially(map[], Inserts(), [0, 1]) != db' && RunSerially(map[], Inserts(), [1, 0]) != db'
    ensures !ReadLocal(Inserts()[0].code) && !ReadLocal(Inserts()[1].code)
  {
    hide RunSerially, Commits, BatchResult, SerialOrder, Execute, Writes, Reads;
    InsertsExecute();
    InsertsCommit();
    InsertsRunSerially();
    InsertsBatch(db');
    forall b | b == 0 || b == 1 ensures !ReadLocal(Inserts()[b].code) {
      var code, none, some := Inserts()[b].code, map[], map[b + 1 := 0];
      assert ReadsHold(code(none).readSet, some) && code(some) != code(none);
    }
  }
}
