/**
  The coordinator of one batch. Requests are striped over the workers, executed
  on the snapshot, decided with the reserve table, written to the store, and
  moved back so that result i belongs to request i.
 */
module AriaCoordinator {
  import opened Basics
  import opened Store
  import opened Aria
  import opened AriaWorkers
  import opened AriaEngine
  import opened Strides

  /* ---- striping ---- */

  // Every n-th element from i on.
  function Stripe<T>(xs: seq<T>, n: nat, i: nat): (r: seq<T>)
    requires 0 < n
    decreases |xs| - i
  {
    if i >= |xs| then [] else [xs[i]] + Stripe(xs, n, i + n)
  }

  // A worker goes through its list, turning `before` into `after` stripe by
  // stripe: list[j] is element i of the whole.
  ghost predicate AtStripe<T>(list: seq<T>, j: nat, done: seq<T>, before: seq<T>, after: seq<T>, n: nat, w: nat, i: nat)
    requires 0 < n && j <= |list|
  {
    && |before| == |after|
    && i % n == w
    && list[j..] == Stripe(before, n, i)
    && done + Stripe(after, n, i) == Stripe(after, n, w)
  }

  lemma StripeStart<T>(before: seq<T>, after: seq<T>, n: nat, w: nat)
    requires 0 < n && w < n && |before| == |after|
    ensures AtStripe(Stripe(before, n, w), 0, [], before, after, n, w, w)
  {
    StrideStep(n, w, w);
  }

  lemma StripeNext<T>(list: seq<T>, j: nat, done: seq<T>, before: seq<T>, after: seq<T>, n: nat, w: nat, i: nat)
    requires 0 < n && j < |list| && AtStripe(list, j, done, before, after, n, w, i)
    ensures i < |before| == |after| && i % n == w && list[j] == before[i]
    ensures AtStripe(list, j + 1, done + [after[i]], before, after, n, w, i + n)
  {
    assert list[j] == list[j..][0] && list[j + 1..] == list[j..][1..];
    StrideStep(n, i, i);
  }

  lemma StripeEnd<T>(list: seq<T>, done: seq<T>, before: seq<T>, after: seq<T>, n: nat, w: nat, i: nat)
    requires 0 < n && AtStripe(list, |list|, done, before, after, n, w, i)
    ensures i >= |before| && done == Stripe(after, n, w)
  {
  }

  /* ---- what the phases make of the transactions ---- */

  function Pendings<K, V>(batch: seq<Txn<K, V>>): (ts: seq<Transaction<K, V>>) {
    seq(|batch|, i requires 0 <= i < |batch| => Transaction(batch[i], Aborted, Pending))
  }

  function AfterExec<K, V>(t: Transaction<K, V>, db: map<K, V>): Transaction<K, V> {
    var out := t.txn.code(db);
    Transaction(t.txn, out,
      if out.Aborted? then AbortNoRetry else if |out.writeSet| == 0 then Commit else t.result)
  }

  function Executed<K, V>(batch: seq<Txn<K, V>>, db: map<K, V>): (ts: seq<Transaction<K, V>>) {
    seq(|batch|, i requires 0 <= i < |batch| => AfterExec(Transaction(batch[i], Aborted, Pending), db))
  }

  ghost function Decided<K(!new), V>(batch: seq<Txn<K, V>>, db: map<K, V>): (ts: seq<Transaction<K, V>>) {
    var items := Execute(db, batch);
    seq(|batch|, i requires 0 <= i < |batch| =>
      Transaction(batch[i], items[i].out,
        if items[i].out.Aborted? then AbortNoRetry else if Commits(items, items[i]) then Commit else Abort))
  }

  // Transaction p has been handled when worker w is at position i of its stripe.
  predicate Covered(n: nat, w: nat, i: nat, p: nat)
    requires 0 < n
  {
    p % n < w || (p % n == w && p < i)
  }

  ghost predicate ReservedSoFar<K(!new), V(!new)>(items: seq<Item<K, V>>, n: nat, w: nat, i: nat,
                                                  events: seq<Reservation<K>>)
    requires 0 < n
  {
    forall e :: e in events <==> exists p :: 0 <= p < |items| && Covered(n, w, i, p) && Fits(items[p], e)
  }

  // The reservations of one more transaction.
  lemma ReserveNext<K(!new), V(!new)>(items: seq<Item<K, V>>, n: nat, w: nat, i: nat, events: seq<Reservation<K>>,
                                      more: seq<Reservation<K>>)
    requires 0 < n && i < |items| && i % n == w && ReservedSoFar(items, n, w, i, events)
    requires forall e :: e in more <==> Fits(items[i], e)
    ensures ReservedSoFar(items, n, w, i + n, events + more)
  {
    forall p: nat ensures Covered(n, w, i + n, p) <==> Covered(n, w, i, p) || p == i {
      StrideStep(n, i, p);
    }
    forall e
      ensures e in events + more <==> exists p :: 0 <= p < |items| && Covered(n, w, i + n, p) && Fits(items[p], e)
    {
      if e in more {
        assert Covered(n, w, i + n, i) && Fits(items[i], e);
      } else if e in events {
        var p :| 0 <= p < |items| && Covered(n, w, i, p) && Fits(items[p], e);
        assert Covered(n, w, i + n, p);
      }
    }
  }

  lemma ReserveStripeDone<K(!new), V(!new)>(items: seq<Item<K, V>>, n: nat, w: nat, i: nat, events: seq<Reservation<K>>)
    requires 0 < n && i >= |items| && ReservedSoFar(items, n, w, i, events)
    ensures ReservedSoFar(items, n, w + 1, w + 1, events)
  {
    forall p | 0 <= p < |items| ensures Covered(n, w, i, p) <==> Covered(n, w + 1, w + 1, p) {}
  }

  lemma AllReserved<K(!new), V(!new)>(items: seq<Item<K, V>>, n: nat, events: seq<Reservation<K>>)
    requires 0 < n && ReservedSoFar(items, n, n, n, events)
    ensures ReservationsOf(items, events)
  {
    forall e ensures e in events <==> exists it :: it in items && Fits(it, e) {
      if e in events {
        var p :| 0 <= p < |items| && Covered(n, n, n, p) && Fits(items[p], e);
        assert items[p] in items;
      }
      if it :| it in items && Fits(it, e) {
        var p :| 0 <= p < |items| && items[p] == it;
        assert Covered(n, n, n, p) && Fits(items[p], e);
      }
    }
  }

  lemma RWSetsFit<K(!new), V(!new)>(it: Item<K, V>)
    requires Reserved(it)
    ensures forall e ::
      e in ReadReservations(it.out.readSet, it.tid) + WriteReservations(it.out.writeSet, it.tid) <==> Fits(it, e)
  {
    var rs, ws := ReadReservations(it.out.readSet, it.tid), WriteReservations(it.out.writeSet, it.tid);
    forall e ensures e in rs + ws <==> Fits(it, e) {
      if e in rs {
        var i :| 0 <= i < |rs| && rs[i] == e;
        assert it.out.readSet[i] in it.out.readSet;
      }
      if e in ws {
        var i :| 0 <= i < |ws| && ws[i] == e;
        assert it.out.writeSet[i] in it.out.writeSet;
      }
      if Fits(it, e) {
        if e.isWrite {
          var x :| x in it.out.writeSet && x.key == e.key;
          var i :| 0 <= i < |ws| && it.out.writeSet[i] == x;
          assert ws[i] == e;
        } else {
          var x :| x in it.out.readSet && x.key == e.key;
          var i :| 0 <= i < |rs| && it.out.readSet[i] == x;
          assert rs[i] == e;
        }
      }
    }
  }

  /* ---- the commit phase, worker after worker ---- */

  lemma {:induction false} WorkerWritesGap<K(!new), V>(items: seq<Item<K, V>>, n: nat, w: nat, m: nat, m': nat)
    requires 0 < n && m <= m' <= |items| && forall p :: m <= p < m' ==> p % n != w
    ensures WorkerWrites(items, n, w, m) == WorkerWrites(items, n, w, m')
    decreases m' - m
  {
    if m < m' {
      WorkerWritesGap(items, n, w, m, m' - 1);
    }
  }

  // Worker w handles transaction i, the next of its stripe.
  lemma WorkerWritesStep<K(!new), V>(items: seq<Item<K, V>>, n: nat, w: nat, i: nat)
    requires 0 < n && i < |items| && i % n == w
    ensures WorkerWrites(items, n, w, Min(i + n, |items|)) ==
      if Commits(items, items[i]) then WorkerWrites(items, n, w, i) + items[i].out.writeSet
      else WorkerWrites(items, n, w, i)
  {
    forall p | i + 1 <= p < Min(i + n, |items|) ensures p % n != w {
      StrideStep(n, i, p);
    }
    WorkerWritesGap(items, n, w, i + 1, Min(i + n, |items|));
  }

  lemma WorkerWritesStart<K(!new), V>(items: seq<Item<K, V>>, n: nat, w: nat)
    requires 0 < n && w < n
    ensures WorkerWrites(items, n, w, Min(w, |items|)) == []
  {
    forall p | 0 <= p < Min(w, |items|) ensures p % n != w {
      StrideStep(n, p, p);
    }
    WorkerWritesGap(items, n, w, 0, Min(w, |items|));
  }

  function Flatten<T>(xss: seq<seq<T>>): (r: seq<T>) {
    if xss == [] then [] else Flatten(xss[..|xss| - 1]) + xss[|xss| - 1]
  }

  lemma FlattenStep<T>(xss: seq<seq<T>>, m: nat)
    requires 0 < m <= |xss|
    ensures Flatten(xss[..m]) == Flatten(xss[..m - 1]) + xss[m - 1]
  {
    assert xss[..m][..m - 1] == xss[..m - 1];
  }

  // Applying one batch after the other is one of the interleavings.
  lemma {:induction false} OneByOne<K, V>(streams: seq<seq<Op<K, V>>>, m: nat) returns (schedule: seq<nat>)
    requires m <= |streams| && forall w :: m <= w < |streams| ==> streams[w] == []
    ensures ValidSchedule(streams, schedule) && Merge(streams, schedule) == Flatten(streams[..m])
    decreases m, if m == 0 then 0 else |streams[m - 1]|
  {
    if m == 0 {
      schedule := [];
    } else {
      FlattenStep(streams, m);
      var last := streams[m - 1];
      if last == [] {
        schedule := OneByOne(streams, m - 1);
      } else {
        var rest := streams[m - 1 := last[..|last| - 1]];
        FlattenStep(rest, m);
        assert rest[..m - 1] == streams[..m - 1];
        var front := OneByOne(rest, m);
        schedule := front + [m - 1];
        assert schedule[..|schedule| - 1] == front;
        assert last == last[..|last| - 1] + [last[|last| - 1]];
      }
    }
  }

  /* ---- the coordinator ---- */

  class Coordinator<K(==, !new), V(!new)> {
    const workerCount: nat
    const table: ReserveTable<K>
    const conn: Connection<K, V>
    var lists: seq<seq<Transaction<K, V>>>   // lists[w] is the transaction list of worker w

    ghost predicate Valid()
      reads this
    {
      0 < workerCount == |lists|
    }

    constructor (workers: nat, db: map<K, V>)
      requires 0 < workers
      ensures Valid() && workerCount == workers && fresh(table) && fresh(conn) && conn.db == db
    {
      workerCount := workers;
      table := new ReserveTable<K>();
      conn := new Connection<K, V>(db);
      lists := seq(workers, w => []);
    }

    // afterStart: worker w takes every n-th transaction.
    method TakeStripe(w: nat, txnList: array<Transaction<K, V>>)
      requires Valid() && w < workerCount
      modifies `lists
      ensures Valid() && lists == old(lists)[w := Stripe(txnList[..], workerCount, w)]
    {
      ghost var xs := txnList[..];
      var list := [];
      var i := w;
      while i < txnList.Length
        invariant list + Stripe(xs, workerCount, i) == Stripe(xs, workerCount, w)
      {
        list := list + [txnList[i]];
        i := i + workerCount;
      }
      assert list == Stripe(xs, workerCount, w);
      lists := lists[w := list];
    }

    // afterCommit: worker w moves its transactions back to where they came from.
    method MoveBack(w: nat, txnList: array<Transaction<K, V>>, ghost ts: seq<Transaction<K, V>>)
      requires Valid() && w < workerCount && |ts| == txnList.Length && lists[w] == Stripe(ts, workerCount, w)
      modifies txnList
      ensures forall p :: 0 <= p < txnList.Length ==>
        txnList[p] == if p % workerCount == w then ts[p] else old(txnList[p])
    {
      var i, j := w, 0;
      StrideStep(workerCount, w, w);
      forall p | 0 <= p < w ensures p % workerCount != w { StrideStep(workerCount, p, p); }
      while i < txnList.Length
        invariant 0 <= j <= |lists[w]| && lists[w][j..] == Stripe(ts, workerCount, i) && i % workerCount == w
        invariant forall p :: 0 <= p < txnList.Length ==>
          txnList[p] == if p % workerCount == w && p < i then ts[p] else old(txnList[p])
      {
        assert lists[w][j] == lists[w][j..][0] == ts[i];
        forall p | i <= p < i + workerCount && p % workerCount == w ensures p == i { StrideStep(workerCount, i, p); }
        StrideStep(workerCount, i, i);
        txnList[i] := lists[w][j];
        assert lists[w][j + 1..] == lists[w][j..][1..];
        i, j := i + workerCount, j + 1;
      }
    }

    // Run one transaction on the snapshot and reserve its read and write sets.
    method ExecuteOne(txn: Transaction<K, V>) returns (txn': Transaction<K, V>, ghost more: seq<Reservation<K>>)
      modifies table
      ensures txn' == AfterExec(txn, conn.db)
      ensures table.View() == ReserveAll(old(table.View()), more)
      ensures forall e :: e in more <==> Fits(Item(txn.txn.tid, txn.txn.code(conn.db)), e)
    {
      var out := txn.txn.code(conn.db);
      more := [];
      txn' := txn.(out := out);
      if out.Aborted? {
        txn' := txn'.(result := AbortNoRetry);
      } else if |out.writeSet| == 0 {
        txn' := txn'.(result := Commit);
      } else {
        table.ReserveRWSets(out.readSet, out.writeSet, txn.txn.tid);
        more := ReadReservations(out.readSet, txn.txn.tid) + WriteReservations(out.writeSet, txn.txn.tid);
        RWSetsFit(Item(txn.txn.tid, out));
      }
    }

    method OnExecuteTransaction(w: nat, ghost batch: seq<Txn<K, V>>, ghost events: seq<Reservation<K>>)
      returns (ghost events': seq<Reservation<K>>)
      requires Valid() && w < workerCount && lists[w] == Stripe(Pendings(batch), workerCount, w)
      requires table.View() == ReserveAll(Tables(map[], map[]), events)
      requires ReservedSoFar(Execute(conn.db, batch), workerCount, w, w, events)
      modifies `lists, table
      ensures Valid() && lists == old(lists)[w := Stripe(Executed(batch, conn.db), workerCount, w)]
      ensures table.View() == ReserveAll(Tables(map[], map[]), events')
      ensures ReservedSoFar(Execute(conn.db, batch), workerCount, w + 1, w + 1, events')
    {
      hide ReserveAll, ReservedSoFar, Fits, AfterExec, AtStripe, Stripe;
      ghost var items, before, after := Execute(conn.db, batch), Pendings(batch), Executed(batch, conn.db);
      ghost var i: nat := w;
      StripeStart(before, after, workerCount, w);
      var list, done := lists[w], [];
      events' := events;
      for j := 0 to |list|
        invariant lists == old(lists)
        invariant AtStripe(list, j, done, before, after, workerCount, w, i)
        invariant table.View() == ReserveAll(Tables(map[], map[]), events')
        invariant ReservedSoFar(items, workerCount, w, i, events')
      {
        StripeNext(list, j, done, before, after, workerCount, w, i);
        var txn, more := ExecuteOne(list[j]);
        ReserveConcat(Tables(map[], map[]), events', more);
        ReserveNext(items, workerCount, w, i, events', more);
        done, events', i := done + [txn], events' + more, i + workerCount;
      }
      StripeEnd(list, done, before, after, workerCount, w, i);
      ReserveStripeDone(items, workerCount, w, i, events');
      lists := lists[w := done];
    }

    // Add the writes of one transaction to the batch of its worker.
    method AddWrites(writeSet: seq<Write<K, V>>, puts: seq<(K, V)>, deletes: seq<K>, ghost writes: seq<Write<K, V>>)
      returns (puts': seq<(K, V)>, deletes': seq<K>)
      requires BatchHolds(puts, deletes, writes)
      ensures BatchHolds(puts', deletes', writes + writeSet)
    {
      puts', deletes' := puts, deletes;
      assert writes + writeSet[..0] == writes;
      for i := 0 to |writeSet|
        invariant BatchHolds(puts', deletes', writes + writeSet[..i])
      {
        var kv := writeSet[i];
        assert (writes + writeSet[..i + 1])[..|writes| + i] == writes + writeSet[..i];
        if kv.value.None? {
          deletes' := deletes' + [kv.key];
        } else {
          puts' := puts' + [(kv.key, kv.value.value)];
        }
      }
      assert writeSet[..|writeSet|] == writeSet;
    }

    // Decide one executed transaction with the reserve table.
    method DecideOne(txn: Transaction<K, V>, ghost items: seq<Item<K, V>>, ghost events: seq<Reservation<K>>)
      returns (txn': Transaction<K, V>, commits: bool)
      requires table.View() == ReserveAll(Tables(map[], map[]), events) && ReservationsOf(items, events)
      requires txn.result == AbortNoRetry <==> txn.out.Aborted?
      ensures commits <==> Commits(items, Item(txn.txn.tid, txn.out))
      ensures commits ==> txn.out.Finished?
      ensures txn' == txn.(result := if txn.out.Aborted? then AbortNoRetry else if commits then Commit else Abort)
    {
      ghost var it := Item(txn.txn.tid, txn.out);
      if txn.result == AbortNoRetry {
        return txn, false;
      }
      if |txn.out.writeSet| == 0 {
        return txn.(result := Commit), true;
      }
      TablesDecide(items, events, it);
      var dep := table.AnalysisDependent(txn.out.readSet, txn.out.writeSet, txn.txn.tid);
      assert dep == Dependency(Waw(items, it), War(items, it), Raw(items, it));
      if dep.waw {
        return txn.(result := Abort), false;
      } else if !dep.war || !dep.raw {
        return txn.(result := Commit), true;
      } else {
        return txn.(result := Abort), false;
      }
    }

    // Decide the transactions of worker w and collect the writes of the committed.
    method DecideStripe(w: nat, ghost batch: seq<Txn<K, V>>, ghost db: map<K, V>, ghost events: seq<Reservation<K>>)
      returns (done: seq<Transaction<K, V>>, puts: seq<(K, V)>, deletes: seq<K>)
      requires Valid() && w < workerCount && lists[w] == Stripe(Executed(batch, db), workerCount, w)
      requires table.View() == ReserveAll(Tables(map[], map[]), events) && ReservationsOf(Execute(db, batch), events)
      ensures done == Stripe(Decided(batch, db), workerCount, w)
      ensures BatchHolds(puts, deletes, WorkerWrites(Execute(db, batch), workerCount, w, |batch|))
    {
      hide ReserveAll, ReservationsOf, Commits, BatchHolds, WorkerWrites, AtStripe, Stripe;
      ghost var items, before, after := Execute(db, batch), Executed(batch, db), Decided(batch, db);
      ghost var i: nat := w;
      StripeStart(before, after, workerCount, w);
      WorkerWritesStart(items, workerCount, w);
      var list := lists[w];
      done, puts, deletes := [], [], [];
      EmptyBatchHolds<K, V>();
      for j := 0 to |list|
        invariant AtStripe(list, j, done, before, after, workerCount, w, i)
        invariant BatchHolds(puts, deletes, WorkerWrites(items, workerCount, w, Min(i, |items|)))
      {
        StripeNext(list, j, done, before, after, workerCount, w, i);
        var txn, commits := DecideOne(list[j], items, events);
        assert Item(txn.txn.tid, txn.out) == items[i] && txn == after[i];
        WorkerWritesStep(items, workerCount, w, i);
        if commits {
          puts, deletes := AddWrites(txn.out.writeSet, puts, deletes, WorkerWrites(items, workerCount, w, i));
        }
        done, i := done + [txn], i + workerCount;
      }
      StripeEnd(list, done, before, after, workerCount, w, i);
    }

    method OnCommitTransaction(w: nat, ghost batch: seq<Txn<K, V>>, ghost db: map<K, V>,
                               ghost events: seq<Reservation<K>>)
      requires Valid() && w < workerCount && lists[w] == Stripe(Executed(batch, db), workerCount, w)
      requires table.View() == ReserveAll(Tables(map[], map[]), events) && ReservationsOf(Execute(db, batch), events)
      modifies `lists, conn
      ensures Valid() && lists == old(lists)[w := Stripe(Decided(batch, db), workerCount, w)]
      ensures conn.db == Apply(old(conn.db), WorkerStreams(Execute(db, batch), workerCount)[w])
    {
      var done, puts, deletes := DecideStripe(w, batch, db, events);
      conn.SyncWriteBatch(puts, deletes, WorkerWrites(Execute(db, batch), workerCount, w, |batch|));
      lists := lists[w := done];
    }

    // processTxnList and processSync: reset, start, execute, commit.
    method ProcessTxnList(txnList: array<Transaction<K, V>>, ghost batch: seq<Txn<K, V>>)
      requires Valid() && txnList[..] == Pendings(batch) && DistinctTids(Execute(conn.db, batch))
      modifies this, table, conn, txnList
      ensures Valid() && txnList[..] == Decided(batch, old(conn.db))
      ensures BatchResult(old(conn.db), Execute(old(conn.db), batch), conn.db)
    {
      hide Stripe, ReserveAll, ReservedSoFar, Apply, BatchResult, DistinctTids, WorkerStreams, Commits;
      ghost var n, db, items := workerCount, conn.db, Execute(conn.db, batch);
      ghost var ps, es, ds := Pendings(batch), Executed(batch, db), Decided(batch, db);
      table.Reset();
      for w := 0 to workerCount
        invariant Valid() && txnList[..] == ps && conn.db == db && table.View() == Tables(map[], map[])
        invariant forall u :: 0 <= u < w ==> lists[u] == Stripe(ps, n, u)
      {
        TakeStripe(w, txnList);
      }
      ghost var events := [];
      NothingReserved(items, n);
      for w := 0 to workerCount
        invariant Valid() && txnList[..] == ps && conn.db == db
        invariant table.View() == ReserveAll(Tables(map[], map[]), events) && ReservedSoFar(items, n, w, w, events)
        invariant forall u :: 0 <= u < n ==> lists[u] == Stripe(if u < w then es else ps, n, u)
      {
        events := OnExecuteTransaction(w, batch, events);
      }
      AllReserved(items, n, events);
      ghost var streams := WorkerStreams(items, n);
      assert |streams| == n by { StreamCount(items, n); }
      ApplyNothing(db);
      for w := 0 to workerCount
        invariant Valid() && conn.db == Apply(db, Flatten(streams[..w]))
        invariant table.View() == ReserveAll(Tables(map[], map[]), events)
        invariant forall u :: w <= u < n ==> lists[u] == Stripe(es, n, u)
        invariant forall p :: 0 <= p < txnList.Length ==> txnList[p] == if p % n < w then ds[p] else ps[p]
      {
        OnCommitTransaction(w, batch, db, events);
        assert streams[..w + 1][..w] == streams[..w];
        ApplyConcat(db, Flatten(streams[..w]), streams[w]);
        MoveBack(w, txnList, ds);
      }
      ghost var schedule := OneByOne(streams, n);
      ConcurrentCommit(db, items, n, schedule);
    }

    // Result i and read-write set i belong to request i.
    method ProcessValidatedRequests(requests: seq<Txn<K, V>>)
      returns (retResults: seq<bool>, retRWSets: seq<Outcome<K, V>>)
      requires Valid() && DistinctTids(Execute(conn.db, requests))
      modifies this, table, conn
      ensures Valid() && |retResults| == |retRWSets| == |requests|
      ensures var items := Execute(old(conn.db), requests);
        && (forall i :: 0 <= i < |requests| ==>
              && retResults[i] == MayCommit(items, i) == Commits(items, items[i])
              && retRWSets[i] == items[i].out)
        && BatchResult(old(conn.db), items, conn.db)
    {
      hide Waw, War, Raw, MayCommit;
      var txnList := new Transaction<K, V>[|requests|](i requires 0 <= i < |requests| =>
        Transaction(requests[i], Aborted, Pending));
      assert txnList[..] == Pendings(requests);
      ProcessTxnList(txnList, requests);
      ghost var ds := Decided(requests, old(conn.db));
      assert forall i :: 0 <= i < |requests| ==> txnList[i] == ds[i];
      retResults, retRWSets := [], [];
      for i := 0 to txnList.Length
        invariant |retResults| == |retRWSets| == i
        invariant forall j :: 0 <= j < i ==> retResults[j] == (ds[j].result == Commit) && retRWSets[j] == ds[j].out
      {
        retResults := retResults + [txnList[i].result == Commit];
        retRWSets := retRWSets + [txnList[i].out];
      }
      ghost var items := Execute(old(conn.db), requests);
      forall i | 0 <= i < |requests| ensures Commits(items, items[i]) == MayCommit(items, i) {
        CommitsIff(items, i);
      }
    }
  }

  lemma NothingReserved<K(!new), V(!new)>(items: seq<Item<K, V>>, n: nat)
    requires 0 < n
    ensures ReservedSoFar(items, n, 0, 0, [])
    ensures var none: Tables<K> := Tables(map[], map[]); ReserveAll(none, []) == none
  {
  }

  lemma ApplyNothing<K, V>(db: map<K, V>)
    ensures Apply(db, []) == db
  {
  }

  lemma StreamCount<K(!new), V>(items: seq<Item<K, V>>, n: nat)
    requires 0 < n
    ensures |WorkerStreams(items, n)| == n
  {
  }

  /* ---- the serial coordinator ---- */

  function Identity(n: nat): (order: seq<nat>) {
    seq(n, i requires 0 <= i < n => i)
  }

  class SerialCoordinator<K(==), V> {
    const conn: Connection<K, V>

    constructor (db: map<K, V>)
      ensures fresh(conn) && conn.db == db
    {
      conn := new Connection<K, V>(db);
    }

    method SaveWrites(writeSet: seq<Write<K, V>>)
      modifies conn
      ensures conn.db == Apply(old(conn.db), Batch(writeSet))
    {
      var puts, deletes := [], [];
      for j := 0 to |writeSet|
        invariant conn.db == old(conn.db) && BatchHolds(puts, deletes, writeSet[..j])
      {
        var kv := writeSet[j];
        assert writeSet[..j + 1][..j] == writeSet[..j];
        if kv.value.None? {
          deletes := deletes + [kv.key];
        } else {
          puts := puts + [(kv.key, kv.value.value)];
        }
      }
      assert writeSet[..|writeSet|] == writeSet;
      conn.SyncWriteBatch(puts, deletes, writeSet);
    }

    // Each request runs on the store that the previous ones left.
    method ProcessValidatedRequests(requests: seq<Txn<K, V>>)
      returns (retResults: seq<bool>, retRWSets: seq<Outcome<K, V>>)
      modifies conn
      ensures conn.db == RunSerially(old(conn.db), requests, Identity(|requests|))
      ensures |retResults| == |retRWSets| == |requests|
      ensures forall i :: 0 <= i < |requests| ==>
        && retRWSets[i] == requests[i].code(RunSerially(old(conn.db), requests, Identity(i)))
        && retResults[i] == retRWSets[i].Finished?
    {
      hide RunSerially, Apply, Batch;
      retResults, retRWSets := [], [];
      StartSerially(conn.db, requests);
      for i := 0 to |requests|
        invariant conn.db == RunSerially(old(conn.db), requests, Identity(i))
        invariant |retResults| == |retRWSets| == i
        invariant forall j :: 0 <= j < i ==>
          && retRWSets[j] == requests[j].code(RunSerially(old(conn.db), requests, Identity(j)))
          && retResults[j] == retRWSets[j].Finished?
      {
        SerialStep(old(conn.db), requests, i);
        var out := requests[i].code(conn.db);
        if out.Aborted? {
          retResults := retResults + [false];
        } else {
          if |out.writeSet| > 0 {
            SaveWrites(out.writeSet);
          }
          retResults := retResults + [true];
        }
        retRWSets := retRWSets + [out];
      }
    }
  }

  lemma StartSerially<K, V>(db: map<K, V>, requests: seq<Txn<K, V>>)
    ensures RunSerially(db, requests, Identity(0)) == db
  {
  }

  lemma SerialStep<K, V>(db: map<K, V>, requests: seq<Txn<K, V>>, i: nat)
    requires i < |requests|
    ensures var d := RunSerially(db, requests, Identity(i));
      RunSerially(db, requests, Identity(i + 1)) == match requests[i].code(d)
        case Aborted => d
        case Finished(_, writeSet) => if writeSet == [] then d else Apply(d, Batch(writeSet))
  {
    assert Identity(i + 1)[..i] == Identity(i);
  }

  // The committed transactions of a batch, in a given order.
  function Pick<K, V>(batch: seq<Txn<K, V>>, order: seq<nat>): (picked: seq<Txn<K, V>>)
    requires forall p :: 0 <= p < |order| ==> order[p] < |batch|
  {
    seq(|order|, p requires 0 <= p < |order| => batch[order[p]])
  }

  lemma {:induction false} PickedRun<K, V>(db: map<K, V>, batch: seq<Txn<K, V>>, order: seq<nat>, n: nat)
    requires (forall p :: 0 <= p < |order| ==> order[p] < |batch|) && n <= |order|
    ensures RunSerially(db, Pick(batch, order), Identity(n)) == RunSerially(db, batch, order[..n])
  {
    if n > 0 {
      PickedRun(db, batch, order, n - 1);
      assert Identity(n)[..n - 1] == Identity(n - 1) && order[..n][..n - 1] == order[..n - 1];
    }
  }

  // Every batch has an order of its committed transactions in which the serial
  // coordinator commits each of them with the reads and writes it had in the
  // batch, and leaves the same store.
  lemma MatchesSerialCoordinator<K(!new), V(!new)>(db: map<K, V>, batch: seq<Txn<K, V>>, db': map<K, V>)
    returns (order: seq<nat>)
    requires DistinctTids(Execute(db, batch)) && BatchResult(db, Execute(db, batch), db')
    requires forall i :: 0 <= i < |batch| ==> ReadLocal(batch[i].code)
    ensures SerialOrder(Execute(db, batch), order)
    ensures RunSerially(db, Pick(batch, order), Identity(|order|)) == db'
    ensures forall p :: 0 <= p < |order| ==>
      var out := batch[order[p]].code(db);
      out.Finished? && Pick(batch, order)[p].code(RunSerially(db, Pick(batch, order), Identity(p))) == out
  {
    hide ReadLocal, BatchResult;
    var items := Execute(db, batch);
    order := SerialOrderExists(items);
    Serializable(db, batch, order, db');
    PickedRun(db, batch, order, |order|);
    assert order[..|order|] == order;
    forall p | 0 <= p < |order|
      ensures var out := batch[order[p]].code(db);
        out.Finished? && Pick(batch, order)[p].code(RunSerially(db, Pick(batch, order), Identity(p))) == out
    {
      PickedRun(db, batch, order, p);
      assert Commits(items, items[order[p]]);
    }
  }

  lemma EmptyBatchHolds<K, V>()
    ensures BatchHolds<K, V>([], [], [])
  {
  }
}
