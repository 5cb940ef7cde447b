/**
  The objects the workers of a batch share: the reserve table they write their
  reads and writes into, and the connection that collects puts and deletes and
  syncs them to the store in one batch.
 */
module AriaEngine {
  import opened Store
  import opened Aria
  import opened AriaWorkers

  datatype ExecutionResult = Commit | Pending | Abort | AbortNoRetry

  // A transaction as it moves between the request list and a worker's list.
  datatype Transaction<!K, !V> = Transaction(txn: Txn<K, V>, out: Outcome<K, V>, result: ExecutionResult)

  /* ---- the reserve table ---- */

  function ReadReservations<K, V>(readSet: seq<Read<K, V>>, tid: int): (events: seq<Reservation<K>>)
    ensures |events| == |readSet|
    ensures forall i :: 0 <= i < |events| ==> events[i] == Reservation(false, readSet[i].key, tid)
  {
    seq(|readSet|, i requires 0 <= i < |readSet| => Reservation(false, readSet[i].key, tid))
  }

  function WriteReservations<K, V>(writeSet: seq<Write<K, V>>, tid: int): (events: seq<Reservation<K>>)
    ensures |events| == |writeSet|
    ensures forall i :: 0 <= i < |events| ==> events[i] == Reservation(true, writeSet[i].key, tid)
  {
    seq(|writeSet|, i requires 0 <= i < |writeSet| => Reservation(true, writeSet[i].key, tid))
  }

  lemma {:induction false} ReserveConcat<K>(t: Tables<K>, a: seq<Reservation<K>>, b: seq<Reservation<K>>)
    ensures ReserveAll(t, a + b) == ReserveAll(ReserveAll(t, a), b)
  {
    if b == [] {
      assert a + b == a;
    } else {
      assert (a + b)[..|a + b| - 1] == a + b[..|b| - 1];
      ReserveConcat(t, a, b[..|b| - 1]);
    }
  }

  class ReserveTable<K(==, !new)> {
    var readTable: map<K, int>
    var writeTable: map<K, int>

    ghost function View(): (t: Tables<K>)
      reads this
    {
      Tables(readTable, writeTable)
    }

    constructor ()
      ensures View() == Tables(map[], map[])
    {
      readTable, writeTable := map[], map[];
    }

    method Reset()
      modifies this
      ensures View() == Tables(map[], map[])
    {
      readTable, writeTable := map[], map[];
    }

    method ReserveRWSets<V>(readSet: seq<Read<K, V>>, writeSet: seq<Write<K, V>>, tid: int)
      modifies this
      ensures View() == ReserveAll(old(View()), ReadReservations(readSet, tid) + WriteReservations(writeSet, tid))
    {
      ghost var rs, ws := ReadReservations(readSet, tid), WriteReservations(writeSet, tid);
      for i := 0 to |readSet|
        invariant View() == ReserveAll(old(View()), rs[..i])
      {
        assert rs[..i + 1][..i] == rs[..i];
        var k := readSet[i].key;
        if k !in readTable || readTable[k] > tid {
          readTable := readTable[k := tid];
        }
      }
      assert rs[..|readSet|] == rs;
      ghost var mid := View();
      for i := 0 to |writeSet|
        invariant View() == ReserveAll(mid, ws[..i])
      {
        assert ws[..i + 1][..i] == ws[..i];
        var k := writeSet[i].key;
        if k !in writeTable || writeTable[k] > tid {
          writeTable := writeTable[k := tid];
        }
      }
      assert ws[..|writeSet|] == ws;
      ReserveConcat(old(View()), rs, ws);
    }

    method AnalysisDependent<V(!new)>(readSet: seq<Read<K, V>>, writeSet: seq<Write<K, V>>, tid: int)
      returns (dep: Dependency)
      ensures dep == Analyse(View(), Item(tid, Finished(readSet, writeSet)))
    {
      ghost var it := Item(tid, Finished(readSet, writeSet));
      var waw, war, raw := false, false, false;
      for i := 0 to |writeSet|
        invariant !waw && forall j :: 0 <= j < i ==> !SmallerReserved(writeTable, writeSet[j].key, tid)
      {
        var k := writeSet[i].key;
        if k in writeTable && writeTable[k] < tid {
          assert Writes(it, k) && SmallerReserved(writeTable, k, tid);
          waw := true;
          break;
        }
      }
      for i := 0 to |writeSet|
        invariant !war && forall j :: 0 <= j < i ==> !SmallerReserved(readTable, writeSet[j].key, tid)
      {
        var k := writeSet[i].key;
        if k in readTable && readTable[k] < tid {
          assert Writes(it, k) && SmallerReserved(readTable, k, tid);
          war := true;
          break;
        }
      }
      for i := 0 to |readSet|
        invariant !raw && forall j :: 0 <= j < i ==> !SmallerReserved(writeTable, readSet[j].key, tid)
      {
        var k := readSet[i].key;
        if k in writeTable && writeTable[k] < tid {
          assert Reads(it, k) && SmallerReserved(writeTable, k, tid);
          raw := true;
          break;
        }
      }
      dep := Dependency(waw, war, raw);
    }
  }

  /* ---- the store connection ---- */

  lemma {:induction false} ApplyConcat<K, V>(db: map<K, V>, a: seq<Op<K, V>>, b: seq<Op<K, V>>)
    ensures Apply(db, a + b) == Apply(Apply(db, a), b)
  {
    if b == [] {
      assert a + b == a;
    } else {
      assert (a + b)[..|a + b| - 1] == a + b[..|b| - 1];
      ApplyConcat(db, a, b[..|b| - 1]);
    }
  }

  // The puts and deletes that a write batch has collected from the writes.
  ghost predicate BatchHolds<K, V>(puts: seq<(K, V)>, deletes: seq<K>, writes: seq<Write<K, V>>) {
    && |puts| == |Puts(writes)|
    && (forall i :: 0 <= i < |puts| ==> Puts(writes)[i] == Put(puts[i].0, puts[i].1))
    && |deletes| == |Deletes(writes)|
    && (forall i :: 0 <= i < |deletes| ==> Deletes(writes)[i] == Delete(deletes[i]))
  }

  class Connection<K(==), V> {
    var db: map<K, V>

    constructor (db_: map<K, V>)
      ensures db == db_
    {
      db := db_;
    }

    // All puts of the batch, then all deletes.
    method SyncWriteBatch(puts: seq<(K, V)>, deletes: seq<K>, ghost writes: seq<Write<K, V>>)
      requires BatchHolds(puts, deletes, writes)
      modifies this
      ensures db == Apply(old(db), Batch(writes))
    {
      ghost var ps, ds := Puts(writes), Deletes(writes);
      for i := 0 to |puts|
        invariant db == Apply(old(db), ps[..i])
      {
        assert ps[..i + 1][..i] == ps[..i];
        db := db[puts[i].0 := puts[i].1];
      }
      assert ps[..|puts|] == ps;
      ghost var mid := db;
      for i := 0 to |deletes|
        invariant db == Apply(mid, ds[..i])
      {
        assert ds[..i + 1][..i] == ds[..i];
        db := db - {deletes[i]};
      }
      assert ds[..|deletes|] == ds;
      ApplyConcat(old(db), ps, ds);
    }
  }
}
