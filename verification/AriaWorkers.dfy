/**
  The workers of one batch run concurrently: reservations of the execution phase
  and writes of the commit phase interleave freely. Neither order matters.
 */
module AriaWorkers {
  import opened Store
  import opened Aria

  /* ---- execution phase: reservations ---- */

  datatype Reservation<+K> = Reservation(isWrite: bool, key: K, tid: int)

  datatype Tables<!K> = Tables(readTable: map<K, int>, writeTable: map<K, int>)

  // A key keeps the smallest id that reserves it.
  function ReserveKey<K>(table: map<K, int>, k: K, tid: int): (t: map<K, int>) {
    if k in table && table[k] <= tid then table else table[k := tid]
  }

  function Reserve<K>(t: Tables<K>, e: Reservation<K>): (t': Tables<K>) {
    if e.isWrite then t.(writeTable := ReserveKey(t.writeTable, e.key, e.tid))
    else t.(readTable := ReserveKey(t.readTable, e.key, e.tid))
  }

  function ReserveAll<K>(t: Tables<K>, events: seq<Reservation<K>>): (t': Tables<K>) {
    if events == [] then t else Reserve(ReserveAll(t, events[..|events| - 1]), events[|events| - 1])
  }

  // The table holds exactly the smallest reserving id of every reserved key.
  ghost predicate HoldsMinima<K(!new)>(table: map<K, int>, events: seq<Reservation<K>>, isWrite: bool) {
    && (forall k :: k in table ==> Reservation(isWrite, k, table[k]) in events)
    && (forall e :: e in events && e.isWrite == isWrite ==> e.key in table && table[e.key] <= e.tid)
  }

  lemma ReserveKeepsMinima<K(!new)>(table: map<K, int>, events: seq<Reservation<K>>, e: Reservation<K>, isWrite: bool)
    requires HoldsMinima(table, events, isWrite)
    ensures HoldsMinima(if e.isWrite == isWrite then ReserveKey(table, e.key, e.tid) else table, events + [e], isWrite)
  {
  }

  lemma {:induction false} TablesHoldMinima<K(!new)>(events: seq<Reservation<K>>)
    ensures var t := ReserveAll(Tables(map[], map[]), events);
      HoldsMinima(t.readTable, events, false) && HoldsMinima(t.writeTable, events, true)
  {
    if events != [] {
      var front, last := events[..|events| - 1], events[|events| - 1];
      TablesHoldMinima(front);
      var t := ReserveAll(Tables(map[], map[]), front);
      hide HoldsMinima;
      assert events == front + [last];
      ReserveKeepsMinima(t.readTable, front, last, false);
      ReserveKeepsMinima(t.writeTable, front, last, true);
    }
  }

  lemma MinimaUnique<K(!new)>(t: map<K, int>, u: map<K, int>, events: seq<Reservation<K>>, events': seq<Reservation<K>>,
                              isWrite: bool)
    requires HoldsMinima(t, events, isWrite) && HoldsMinima(u, events', isWrite)
    requires forall e :: e in events <==> e in events'
    ensures t == u
  {
    forall k | k in t ensures k in u && u[k] <= t[k] {
      assert Reservation(isWrite, k, t[k]) in events';
    }
    forall k | k in u ensures k in t && t[k] <= u[k] {
      assert Reservation(isWrite, k, u[k]) in events;
    }
  }

  // Whatever the interleaving of the workers, the tables end up the same.
  lemma ReservationOrderIrrelevant<K(!new)>(events: seq<Reservation<K>>, events': seq<Reservation<K>>)
    requires forall e :: e in events <==> e in events'
    ensures ReserveAll(Tables(map[], map[]), events) == ReserveAll(Tables(map[], map[]), events')
  {
    TablesHoldMinima(events);
    TablesHoldMinima(events');
    var t, u := ReserveAll(Tables(map[], map[]), events), ReserveAll(Tables(map[], map[]), events');
    MinimaUnique(t.readTable, u.readTable, events, events', false);
    MinimaUnique(t.writeTable, u.writeTable, events, events', true);
  }

  // e is a reservation that the transaction makes.
  ghost predicate Fits<K, V>(it: Item<K, V>, e: Reservation<K>) {
    Reserved(it) && it.tid == e.tid && if e.isWrite then Writes(it, e.key) else Reads(it, e.key)
  }

  // The reservations that a batch makes, in any order, with repeats.
  ghost predicate ReservationsOf<K(!new), V(!new)>(items: seq<Item<K, V>>, events: seq<Reservation<K>>) {
    forall e :: e in events <==> exists it :: it in items && Fits(it, e)
  }

  // analysisDependent on the tables.
  datatype Dependency = Dependency(waw: bool, war: bool, raw: bool)

  ghost predicate SmallerReserved<K>(table: map<K, int>, k: K, tid: int) {
    k in table && table[k] < tid
  }

  ghost function Analyse<K(!new), V>(t: Tables<K>, it: Item<K, V>): Dependency {
    Dependency(
      exists k :: Writes(it, k) && SmallerReserved(t.writeTable, k, it.tid),
      exists k :: Writes(it, k) && SmallerReserved(t.readTable, k, it.tid),
      exists k :: Reads(it, k) && SmallerReserved(t.writeTable, k, it.tid))
  }

  lemma SmallestDecides<K(!new), V(!new)>(items: seq<Item<K, V>>, events: seq<Reservation<K>>, table: map<K, int>,
                                          isWrite: bool, k: K, tid: int)
    requires ReservationsOf(items, events) && HoldsMinima(table, events, isWrite)
    ensures SmallerReserved(table, k, tid) <==>
      exists u :: u in items && Reserved(u) && u.tid < tid && if isWrite then Writes(u, k) else Reads(u, k)
  {
    if SmallerReserved(table, k, tid) {
      assert Reservation(isWrite, k, table[k]) in events;
      var u :| u in items && Fits(u, Reservation(isWrite, k, table[k]));
    }
    if u :| u in items && Reserved(u) && u.tid < tid && if isWrite then Writes(u, k) else Reads(u, k) {
      assert Fits(u, Reservation(isWrite, k, u.tid));
      assert Reservation(isWrite, k, u.tid) in events;
    }
  }

  // The tables decide exactly the dependencies on smaller transaction ids.
  lemma TablesDecide<K(!new), V(!new)>(items: seq<Item<K, V>>, events: seq<Reservation<K>>, it: Item<K, V>)
    requires ReservationsOf(items, events)
    ensures Analyse(ReserveAll(Tables(map[], map[]), events), it) ==
      Dependency(Waw(items, it), War(items, it), Raw(items, it))
  {
    TablesHoldMinima(events);
    var t := ReserveAll(Tables(map[], map[]), events);
    forall k
      ensures SmallerReserved(t.writeTable, k, it.tid) <==>
        exists u :: u in items && Reserved(u) && u.tid < it.tid && Writes(u, k)
      ensures SmallerReserved(t.readTable, k, it.tid) <==>
        exists u :: u in items && Reserved(u) && u.tid < it.tid && Reads(u, k)
    {
      SmallestDecides(items, events, t.writeTable, true, k, it.tid);
      SmallestDecides(items, events, t.readTable, false, k, it.tid);
    }
  }

  /* ---- commit phase: write batches ---- */

  // What worker w of n adds to its batch for the first m transactions.
  ghost function WorkerWrites<K(!new), V>(items: seq<Item<K, V>>, n: nat, w: nat, m: nat): (writes: seq<Write<K, V>>)
    requires 0 < n && m <= |items|
  {
    if m == 0 then []
    else
      var rest := WorkerWrites(items, n, w, m - 1);
      if (m - 1) % n == w && Commits(items, items[m - 1]) then rest + items[m - 1].out.writeSet else rest
  }

  ghost function WorkerStreams<K(!new), V>(items: seq<Item<K, V>>, n: nat): (streams: seq<seq<Op<K, V>>>)
    requires 0 < n
  {
    seq(n, w requires 0 <= w < n => Batch(WorkerWrites(items, n, w, |items|)))
  }

  lemma KeysConcat<K, V>(a: seq<Write<K, V>>, b: seq<Write<K, V>>)
    ensures Keys(a + b) == Keys(a) + Keys(b)
  {
  }

  lemma {:induction false} WorkerSkips<K(!new), V>(items: seq<Item<K, V>>, n: nat, w: nat, m: nat, k: K)
    requires 0 < n && m <= |items|
    requires forall i :: 0 <= i < m && i % n == w && Commits(items, items[i]) ==> !Writes(items[i], k)
    ensures k !in Keys(WorkerWrites(items, n, w, m))
  {
    if m > 0 {
      WorkerSkips(items, n, w, m - 1, k);
      if (m - 1) % n == w && Commits(items, items[m - 1]) {
        KeysConcat(WorkerWrites(items, n, w, m - 1), items[m - 1].out.writeSet);
      }
    }
  }

  lemma OnBatchConcat<K, V>(a: seq<Write<K, V>>, b: seq<Write<K, V>>, k: K)
    requires k !in Keys(a) || k !in Keys(b)
    ensures On(Batch(a + b), k) == if k in Keys(a) then On(Batch(a), k) else On(Batch(b), k)
  {
    hide On, Puts, Deletes, Keys;
    PutsDeletesConcat(a, b);
    BatchKeys(a, k);
    BatchKeys(b, k);
    OnConcat(Puts(a), Puts(b), k);
    OnConcat(Deletes(a), Deletes(b), k);
    OnConcat(Puts(a), Deletes(a), k);
    OnConcat(Puts(b), Deletes(b), k);
    OnConcat(Puts(a + b), Deletes(a + b), k);
  }

  // The one committed writer of k is alone at k in its worker's batch.
  lemma {:induction false} WorkerHas<K(!new), V>(items: seq<Item<K, V>>, n: nat, m: nat, i: nat, k: K)
    requires 0 < n && m <= |items| && i < m && DistinctTids(items)
    requires Commits(items, items[i]) && Writes(items[i], k)
    ensures On(Batch(WorkerWrites(items, n, i % n, m)), k) == On(Batch(items[i].out.writeSet), k)
    ensures k in Keys(WorkerWrites(items, n, i % n, m))
  {
    hide Waw, War, Raw, On;
    var w := i % n;
    var rest := WorkerWrites(items, n, w, m - 1);
    if i == m - 1 {
      forall j | 0 <= j < m - 1 && Commits(items, items[j]) ensures !Writes(items[j], k) {
        CommittedDisjoint(items, i, j, k);
      }
      WorkerSkips(items, n, w, m - 1, k);
      OnBatchConcat(rest, items[i].out.writeSet, k);
      KeysConcat(rest, items[i].out.writeSet);
    } else {
      WorkerHas(items, n, m - 1, i, k);
      if (m - 1) % n == w && Commits(items, items[m - 1]) {
        CommittedDisjoint(items, i, m - 1, k);
        OnBatchConcat(rest, items[m - 1].out.writeSet, k);
        KeysConcat(rest, items[m - 1].out.writeSet);
      }
    }
  }

  // However the batches of n workers interleave in the store, the result is
  // the one that the committed transactions determine.
  lemma ConcurrentCommit<K(!new), V>(db: map<K, V>, items: seq<Item<K, V>>, n: nat, schedule: seq<nat>)
    requires 0 < n && DistinctTids(items) && ValidSchedule(WorkerStreams(items, n), schedule)
    ensures BatchResult(db, items, Apply(db, Merge(WorkerStreams(items, n), schedule)))
  {
    var streams := WorkerStreams(items, n);
    var db' := Apply(db, Merge(streams, schedule));
    forall k, i | 0 <= i < |items| && Commits(items, items[i]) && Writes(items[i], k)
      ensures Get(db', k) == Written(items[i].out.writeSet, k)
    {
      ApplyAt(db, Merge(streams, schedule), k);
      forall u | 0 <= u < n && u != i % n ensures On(streams[u], k) == [] {
        StreamSkips(items, n, u, k, i);
      }
      MergeOn(streams, schedule, k, i % n);
      WorkerHas(items, n, |items|, i, k);
      BatchKeys(items[i].out.writeSet, k);
      OnConcat(Puts(items[i].out.writeSet), Deletes(items[i].out.writeSet), k);
    }
    forall k | forall i :: 0 <= i < |items| && Commits(items, items[i]) ==> !Writes(items[i], k)
      ensures Get(db', k) == Get(db, k)
    {
      ApplyAt(db, Merge(streams, schedule), k);
      forall u | 0 <= u < n ensures On(streams[u], k) == [] {
        WorkerSkips(items, n, u, |items|, k);
        EmptyOn(WorkerWrites(items, n, u, |items|), k);
      }
      MergeOn(streams, schedule, k, 0);
    }
  }

  lemma EmptyOn<K, V>(writes: seq<Write<K, V>>, k: K)
    requires k !in Keys(writes)
    ensures On(Batch(writes), k) == []
  {
    BatchKeys(writes, k);
    OnConcat(Puts(writes), Deletes(writes), k);
  }

  lemma StreamSkips<K(!new), V>(items: seq<Item<K, V>>, n: nat, u: nat, k: K, i: nat)
    requires 0 < n && u < n && i < |items| && u != i % n && DistinctTids(items)
    requires Commits(items, items[i]) && Writes(items[i], k)
    ensures On(WorkerStreams(items, n)[u], k) == []
  {
    forall j | 0 <= j < |items| && j % n == u && Commits(items, items[j]) ensures !Writes(items[j], k) {
      CommittedDisjoint(items, i, j, k);
    }
    WorkerSkips(items, n, u, |items|, k);
    EmptyOn(WorkerWrites(items, n, u, |items|), k);
  }

  // Determinism: for every number of workers and every interleaving of both
  // phases, decisions and store are those of the batch.
  lemma Deterministic<K(!new), V(!new)>(
      db: map<K, V>, items: seq<Item<K, V>>,
      n: nat, events: seq<Reservation<K>>, schedule: seq<nat>,
      n': nat, events': seq<Reservation<K>>, schedule': seq<nat>)
    requires 0 < n && 0 < n' && DistinctTids(items)
    requires ReservationsOf(items, events) && ReservationsOf(items, events')
    requires ValidSchedule(WorkerStreams(items, n), schedule) && ValidSchedule(WorkerStreams(items, n'), schedule')
    ensures ReserveAll(Tables(map[], map[]), events) == ReserveAll(Tables(map[], map[]), events')
    ensures forall it ::
      && Analyse(ReserveAll(Tables(map[], map[]), events), it) ==
        Dependency(Waw(items, it), War(items, it), Raw(items, it))
      && Analyse(ReserveAll(Tables(map[], map[]), events'), it) ==
        Dependency(Waw(items, it), War(items, it), Raw(items, it))
    ensures Apply(db, Merge(WorkerStreams(items, n), schedule)) == Apply(db, Merge(WorkerStreams(items, n'), schedule'))
  {
    hide ReserveAll, Analyse, Waw, War, Raw, Apply, Merge, WorkerStreams, BatchResult;
    ReservationOrderIrrelevant(events, events');
    forall it
      ensures Analyse(ReserveAll(Tables(map[], map[]), events), it) ==
        Dependency(Waw(items, it), War(items, it), Raw(items, it))
    {
      TablesDecide(items, events, it);
    }
    ConcurrentCommit(db, items, n, schedule);
    ConcurrentCommit(db, items, n', schedule');
    BatchResultUnique(db, items,
      Apply(db, Merge(WorkerStreams(items, n), schedule)), Apply(db, Merge(WorkerStreams(items, n'), schedule')));
  }
}
