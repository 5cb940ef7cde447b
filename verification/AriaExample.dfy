/**
  The commit rule on two small batches, one on each side of it: reading what a rival
  writes does not abort a transaction by itself, and both conflicts together have to.
 */
module AriaExample {
  import opened Basics
  import opened Store
  import opened Aria

  // Write one more than the value at a into b.
  function Bump(a: int, b: int): (code: map<int, int> -> Outcome<int, int>) {
    (db: map<int, int>) =>
      if a in db then Finished([Read(a, db[a])], [Write(b, Some(db[a] + 1))]) else Aborted
  }

  lemma BumpReadLocal(a: int, b: int)
    ensures ReadLocal(Bump(a, b))
  {
    var code := Bump(a, b);
    forall d: map<int, int>, d': map<int, int> | code(d).Finished? && ReadsHold(code(d).readSet, d')
      ensures code(d') == code(d)
    {
      assert Read(a, d[a]) in code(d).readSet;
    }
  }

  function Bumped(tid: int, a: int, b: int, x: int): Item<int, int> {
    Item(tid, Finished([Read(a, x)], [Write(b, Some(x + 1))]))
  }

  lemma BumpedKeys(tid: int, a: int, b: int, x: int)
    ensures ReadKeys(Bumped(tid, a, b, x)) == {a} && WriteKeys(Bumped(tid, a, b, x)) == {b}
  {
    assert [Read(a, x)][0] == Read(a, x) && [Write(b, Some(x + 1))][0] == Write(b, Some(x + 1));
  }

  /* ---- a chain of reads ---- */

  // Transaction 1 writes key 7, transaction 2 reads it and writes key 8: on one
  // snapshot both commit, as if 2 had run before 1.
  lemma ReaderCommits(x: int, y: int)
    ensures var db := map[6 := x, 7 := y];
      var items := Execute(db, [Txn(1, Bump(6, 7)), Txn(2, Bump(7, 8))]);
      items == [Bumped(1, 6, 7, x), Bumped(2, 7, 8, y)] && Commits(items, items[0]) && Commits(items, items[1])
  {
    hide Commits, ReadKeys, WriteKeys;
    var items := [Bumped(1, 6, 7, x), Bumped(2, 7, 8, y)];
    assert Execute(map[6 := x, 7 := y], [Txn(1, Bump(6, 7)), Txn(2, Bump(7, 8))]) == items;
    BumpedKeys(1, 6, 7, x);
    BumpedKeys(2, 7, 8, y);
    CommitsIff(items, 0);
    CommitsIff(items, 1);
  }

  /* ---- a cycle of reads ---- */

  // Transaction 1 reads key 1 and writes key 0, transaction 2 the other way round.
  function Cycle(): (batch: seq<Txn<int, int>>) {
    [Txn(1, Bump(1, 0)), Txn(2, Bump(0, 1))]
  }

  lemma CycleSerially()
    ensures RunSerially(map[0 := 0, 1 := 0], Cycle(), [0, 1]) == map[0 := 1, 1 := 2]
    ensures RunSerially(map[0 := 0, 1 := 0], Cycle(), [1, 0]) == map[0 := 2, 1 := 1]
  {
    hide Apply, Batch;
    var db := map[0 := 0, 1 := 0];
    assert [0, 1][..1] == [0] && [1, 0][..1] == [1] && [0][..0] == [] && [1][..0] == [];
    PutOne(db, 0, 1);
    PutOne(map[0 := 1, 1 := 0], 1, 2);
    PutOne(db, 1, 1);
    PutOne(map[0 := 0, 1 := 1], 0, 2);
    assert RunSerially(db, Cycle(), []) == db;
    assert RunSerially(db, Cycle(), [0]) == map[0 := 1, 1 := 0];
    assert RunSerially(db, Cycle(), [1]) == map[0 := 0, 1 := 1];
  }

  lemma PutOne(db: map<int, int>, k: int, v: int)
    ensures Apply(db, Batch([Write(k, Some(v))])) == db[k := v]
  {
    var w: Write<int, int> := Write(k, Some(v));
    assert [w][..0] == [] && Puts([w]) == [] + [Put(k, v)] && Deletes([w]) == [];
    assert Batch([w]) == [Put(k, v)] && [Put(k, v)][..0] == [];
  }

  // The second one conflicts both ways and is aborted. Committing both would leave
  // 1 in both keys, which no serial order of the two leaves.
  lemma CycleAborts()
    ensures var db := map[0 := 0, 1 := 0];
      var items := Execute(db, Cycle());
      && ReadLocal(Cycle()[0].code) && ReadLocal(Cycle()[1].code)
      && |items| == 2 && Commits(items, items[0]) && !Commits(items, items[1])
      && (forall i :: 0 <= i < 2 ==> items[i].out.Finished? && Written(items[i].out.writeSet, i) == Some(1))
      && RunSerially(db, Cycle(), [0, 1]) != map[0 := 1, 1 := 1]
      && RunSerially(db, Cycle(), [1, 0]) != map[0 := 1, 1 := 1]
  {
    hide Commits, ReadKeys, WriteKeys, ReadLocal, RunSerially, Written;
    var items := [Bumped(1, 1, 0, 0), Bumped(2, 0, 1, 0)];
    assert Execute(map[0 := 0, 1 := 0], Cycle()) == items;
    BumpReadLocal(1, 0);
    BumpReadLocal(0, 1);
    BumpedKeys(1, 1, 0, 0);
    BumpedKeys(2, 0, 1, 0);
    CommitsIff(items, 0);
    CommitsIff(items, 1);
    assert Rival(items, 0, 2);
    assert 0 in ReadKeys(items[1]) && 1 in ReadKeys(items[0]);
    WrittenOne(0, 1);
    WrittenOne(1, 1);
    CycleSerially();
    assert map[0 := 1, 1 := 2][1] == 2 && map[0 := 2, 1 := 1][0] == 2;
  }

  lemma WrittenOne(k: int, v: int)
    ensures Written([Write(k, Some(v))], k) == Some(v)
  {
    WrittenAlways([Write(k, Some(v))], k, v);
  }
}
