/**
  TPC-C consistency conditions, over every run of batches.
 */
module TpccConsistency {
  import opened Basics
  import opened Store
  import opened Aria
  import opened Tpcc

  const DISTRICT_COUNT: nat := 10

  // Clause 3.3.2.2 of the TPC-C standard, for one district:
  // D_NEXT_O_ID - 1 = max(O_ID) = max(NO_O_ID).
  ghost predicate OrderIdsOk(db: Db, w: int, d: int) {
    HasDistrict(db, w, d) ==>
      var last := db[District(w, d)].nextOrder - 1;
      && Order(w, d, last) in db && NewOrder(w, d, last) in db
      && (forall o :: Order(w, d, o) in db ==> o <= last)
      && (forall o :: NewOrder(w, d, o) in db ==> o <= last)
  }

  // Every warehouse has its districts among 1 .. 10.
  ghost predicate DistrictsOk(db: Db) {
    forall w, d :: HasDistrict(db, w, d) ==> 1 <= d <= DISTRICT_COUNT
  }

  ghost predicate Consistent(db: Db) {
    DistrictsOk(db) && forall w, d :: OrderIdsOk(db, w, d)
  }

  function DistrictYtd(db: Db, w: int, d: int): real {
    if HasDistrict(db, w, d) then db[District(w, d)].dYtd else 0.0
  }

  function SumYtd(db: Db, w: int, n: nat): real {
    if n == 0 then 0.0 else SumYtd(db, w, n - 1) + DistrictYtd(db, w, n)
  }

  // W_YTD minus the sum of D_YTD, the difference form of clause 3.3.2.1.
  function YtdGap(db: Db, w: int): real {
    (if HasWarehouse(db, w) then db[Warehouse(w)].wYtd else 0.0) - SumYtd(db, w, DISTRICT_COUNT)
  }

  /* ---- what one transaction changes ---- */

  // The rows that the conditions speak of.
  predicate Tracked(k: Key) {
    k.Warehouse? || k.District? || k.Order? || k.NewOrder?
  }

  // A New-Order on district (w, d) as far as tracked rows go.
  ghost predicate OrderAdded(db: Db, db': Db, w: int, d: int) {
    && HasDistrict(db, w, d)
    && var row := db[District(w, d)];
    && Get(db', District(w, d)) == Some(row.(nextOrder := row.nextOrder + 1))
    && Order(w, d, row.nextOrder) in db' && NewOrder(w, d, row.nextOrder) in db'
    && (forall k ::
          Tracked(k) && k != District(w, d) && k != Order(w, d, row.nextOrder) && k != NewOrder(w, d, row.nextOrder) ==>
          Get(db', k) == Get(db, k))
  }

  // A Payment at district (w, d) as far as tracked rows go.
  ghost predicate PaymentMade(db: Db, db': Db, w: int, d: int, amount: real) {
    && HasDistrict(db, w, d) && HasWarehouse(db, w)
    && var house, row := db[Warehouse(w)], db[District(w, d)];
    && Get(db', Warehouse(w)) == Some(house.(wYtd := house.wYtd + amount))
    && Get(db', District(w, d)) == Some(row.(dYtd := row.dYtd + amount))
    && (forall k :: Tracked(k) && k != Warehouse(w) && k != District(w, d) ==> Get(db', k) == Get(db, k))
  }

  lemma {:induction false} LinesUntracked(db: Db, w: int, d: int, rate: real, lines: seq<Line>, x: Write<Key, Value>)
    requires CollectLines(db, w, d, rate, lines).Collected? && x in CollectLines(db, w, d, rate, lines).writeSet
    ensures !Tracked(x.key)
  {
    if lines != [] {
      var front, l := lines[..|lines| - 1], lines[|lines| - 1];
      var ws := CollectLines(db, w, d, rate, front).writeSet;
      if x in ws {
        LinesUntracked(db, w, d, rate, front, x);
      } else {
        assert x in LineWrites(db, w, d, rate, l);
      }
    }
  }

  // The writes of a New-Order: three tracked rows, then stock and order lines.
  lemma NewOrderWrites(req: Request, db: Db)
    requires req.NewOrderRequest? && InvokeNewOrder(req, db).Finished?
    ensures HasDistrict(db, req.w, req.d)
    ensures var w, d, all := req.w, req.d, InvokeNewOrder(req, db).writeSet;
      var row := db[District(w, d)];
      && 3 <= |all|
      && all[0] == Set(District(w, d), row.(nextOrder := row.nextOrder + 1))
      && all[1].key == Order(w, d, row.nextOrder) && all[1].value.Some?
      && all[2] == Set(NewOrder(w, d, row.nextOrder), NewOrderRow)
      && forall i :: 3 <= i < |all| ==> !Tracked(all[i].key)
  {
    var NewOrderRequest(w, d, c, lines) := req;
    var rate := Rate(db[Warehouse(w)], db[District(w, d)], db[Customer(w, d, c)]);
    var ws := CollectLines(db, w, d, rate, lines).writeSet;
    var all := InvokeNewOrder(req, db).writeSet;
    forall i | 3 <= i < |all| ensures !Tracked(all[i].key) {
      assert all[i] == ws[i - 3];
      LinesUntracked(db, w, d, rate, lines, all[i]);
    }
  }

  // A write whose key no other write has ends up in the store.
  lemma OnlyWrite(db: Db, all: seq<Write<Key, Value>>, i: nat)
    requires i < |all| && all[i].value.Some? && forall j :: 0 <= j < |all| && j != i ==> all[j].key != all[i].key
    ensures Get(Apply(db, Batch(all)), all[i].key) == all[i].value
  {
    assert all[i] in all;
    WrittenAlways(all, all[i].key, all[i].value.value);
    BatchAt(db, all, all[i].key);
  }

  lemma Unwritten(db: Db, all: seq<Write<Key, Value>>, k: Key)
    requires forall j :: 0 <= j < |all| ==> all[j].key != k
    ensures Get(Apply(db, Batch(all)), k) == Get(db, k)
  {
    BatchAt(db, all, k);
  }

  lemma NewOrderChanges(req: Request, db: Db)
    requires req.NewOrderRequest? && InvokeNewOrder(req, db).Finished?
    ensures OrderAdded(db, Apply(db, Batch(InvokeNewOrder(req, db).writeSet)), req.w, req.d)
  {
    hide InvokeNewOrder, Apply, Batch;
    NewOrderWrites(req, db);
    var w, d, all := req.w, req.d, InvokeNewOrder(req, db).writeSet;
    OnlyWrite(db, all, 0);
    OnlyWrite(db, all, 1);
    OnlyWrite(db, all, 2);
    var o := db[District(w, d)].nextOrder;
    forall k | Tracked(k) && k != District(w, d) && k != Order(w, d, o) && k != NewOrder(w, d, o)
      ensures Get(Apply(db, Batch(all)), k) == Get(db, k)
    {
      Unwritten(db, all, k);
    }
  }

  lemma PaymentChanges(req: Request, db: Db)
    requires req.PaymentRequest? && InvokePayment(req, db).Finished?
    ensures PaymentMade(db, Apply(db, Batch(InvokePayment(req, db).writeSet)), req.w, req.d, req.amount)
  {
    hide Apply, Batch;
    var w, d, all := req.w, req.d, InvokePayment(req, db).writeSet;
    OnlyWrite(db, all, 0);
    OnlyWrite(db, all, 1);
    forall k | Tracked(k) && k != Warehouse(w) && k != District(w, d)
      ensures Get(Apply(db, Batch(all)), k) == Get(db, k)
    {
      Unwritten(db, all, k);
    }
  }

  lemma OrderAddedOk(db: Db, db': Db, w: int, d: int)
    requires Consistent(db) && OrderAdded(db, db', w, d)
    ensures Consistent(db')
  {
    var o := db[District(w, d)].nextOrder;
    assert OrderIdsOk(db, w, d);
    forall x, y ensures HasDistrict(db', x, y) ==> HasDistrict(db, x, y) {
      assert District(x, y) != District(w, d) ==> Get(db', District(x, y)) == Get(db, District(x, y));
    }
    forall x, y ensures OrderIdsOk(db', x, y) {
      assert OrderIdsOk(db, x, y);
      assert District(x, y) != District(w, d) ==> Get(db', District(x, y)) == Get(db, District(x, y));
      forall k | Order(x, y, k) in db' ensures Order(x, y, k) in db || (x == w && y == d && k == o) {
        assert Order(x, y, k) != Order(w, d, o) ==> Get(db', Order(x, y, k)) == Get(db, Order(x, y, k));
      }
      forall k | NewOrder(x, y, k) in db' ensures NewOrder(x, y, k) in db || (x == w && y == d && k == o) {
        assert NewOrder(x, y, k) != NewOrder(w, d, o) ==> Get(db', NewOrder(x, y, k)) == Get(db, NewOrder(x, y, k));
      }
      if (x != w || y != d) && HasDistrict(db', x, y) {
        var last := db[District(x, y)].nextOrder - 1;
        assert Get(db', Order(x, y, last)) == Get(db, Order(x, y, last));
        assert Get(db', NewOrder(x, y, last)) == Get(db, NewOrder(x, y, last));
      }
    }
  }

  lemma PaymentMadeOk(db: Db, db': Db, w: int, d: int, amount: real)
    requires Consistent(db) && PaymentMade(db, db', w, d, amount)
    ensures Consistent(db')
  {
    forall x, y
      ensures HasDistrict(db', x, y) ==>
        HasDistrict(db, x, y) && db'[District(x, y)].nextOrder == db[District(x, y)].nextOrder
    {
      assert District(x, y) != District(w, d) ==> Get(db', District(x, y)) == Get(db, District(x, y));
    }
    forall x, y ensures OrderIdsOk(db', x, y) {
      assert OrderIdsOk(db, x, y);
      assert forall k :: Get(db', Order(x, y, k)) == Get(db, Order(x, y, k));
      assert forall k :: Get(db', NewOrder(x, y, k)) == Get(db, NewOrder(x, y, k));
      forall k
        ensures Order(x, y, k) in db' <==> Order(x, y, k) in db
        ensures NewOrder(x, y, k) in db' <==> NewOrder(x, y, k) in db
      {
        assert Get(db', Order(x, y, k)) == Get(db, Order(x, y, k));
        assert Get(db', NewOrder(x, y, k)) == Get(db, NewOrder(x, y, k));
      }
    }
  }

  // The year-to-date sum grows by what district d of warehouse w gained.
  lemma {:induction false} SumYtdStep(db: Db, db': Db, w: int, d: int, x: int, gain: real, n: nat)
    requires forall y :: DistrictYtd(db', x, y) == DistrictYtd(db, x, y) + if x == w && y == d then gain else 0.0
    ensures SumYtd(db', x, n) == SumYtd(db, x, n) + if x == w && 1 <= d <= n then gain else 0.0
  {
    if n > 0 { SumYtdStep(db, db', w, d, x, gain, n - 1); }
  }

  lemma OrderAddedGap(db: Db, db': Db, w: int, d: int, x: int)
    requires OrderAdded(db, db', w, d)
    ensures YtdGap(db', x) == YtdGap(db, x)
  {
    forall y ensures DistrictYtd(db', x, y) == DistrictYtd(db, x, y) {
      assert District(x, y) != District(w, d) ==> Get(db', District(x, y)) == Get(db, District(x, y));
    }
    assert Get(db', Warehouse(x)) == Get(db, Warehouse(x));
    SumYtdStep(db, db', w, d, x, 0.0, DISTRICT_COUNT);
  }

  lemma PaymentMadeGap(db: Db, db': Db, w: int, d: int, amount: real, x: int)
    requires DistrictsOk(db) && PaymentMade(db, db', w, d, amount)
    ensures YtdGap(db', x) == YtdGap(db, x)
  {
    forall y ensures DistrictYtd(db', x, y) == DistrictYtd(db, x, y) + if x == w && y == d then amount else 0.0 {
      assert District(x, y) != District(w, d) ==> Get(db', District(x, y)) == Get(db, District(x, y));
    }
    assert x != w ==> Get(db', Warehouse(x)) == Get(db, Warehouse(x));
    SumYtdStep(db, db', w, d, x, amount, DISTRICT_COUNT);
  }

  // One transaction keeps both conditions.
  lemma InvokeConsistent(req: Request, db: Db)
    requires Consistent(db) && Invoke(req, db).Finished?
    ensures var db' := Apply(db, Batch(Invoke(req, db).writeSet));
      Consistent(db') && forall x :: YtdGap(db', x) == YtdGap(db, x)
  {
    hide InvokeNewOrder, InvokePayment, Apply, Batch, OrderAdded, PaymentMade, YtdGap;
    var db' := Apply(db, Batch(Invoke(req, db).writeSet));
    if req.NewOrderRequest? {
      NewOrderChanges(req, db);
      OrderAddedOk(db, db', req.w, req.d);
      forall x ensures YtdGap(db', x) == YtdGap(db, x) { OrderAddedGap(db, db', req.w, req.d, x); }
    } else {
      PaymentChanges(req, db);
      PaymentMadeOk(db, db', req.w, req.d, req.amount);
      forall x ensures YtdGap(db', x) == YtdGap(db, x) { PaymentMadeGap(db, db', req.w, req.d, req.amount, x); }
    }
  }

  /* ---- batches and runs of batches ---- */

  datatype Tagged = Tagged(tid: int, req: Request)

  function Txns(reqs: seq<Tagged>): (batch: seq<Txn<Key, Value>>) {
    seq(|reqs|, i requires 0 <= i < |reqs| => Txn(reqs[i].tid, Code(reqs[i].req)))
  }

  // Any serial run keeps both conditions, committed or not.
  lemma {:induction false} SerialConsistent(db: Db, reqs: seq<Tagged>, order: seq<nat>)
    requires Consistent(db)
    ensures var d := RunSerially(db, Txns(reqs), order);
      Consistent(d) && forall x :: YtdGap(d, x) == YtdGap(db, x)
  {
    hide Consistent, YtdGap, Invoke, Apply, Batch;
    if order != [] {
      var front, i := order[..|order| - 1], order[|order| - 1];
      SerialConsistent(db, reqs, front);
      var d := RunSerially(db, Txns(reqs), front);
      if i < |reqs| && Invoke(reqs[i].req, d).Finished? {
        InvokeConsistent(reqs[i].req, d);
      }
    }
  }

  lemma BatchConsistent(db: Db, reqs: seq<Tagged>, db': Db)
    requires Consistent(db) && DistinctTids(Execute(db, Txns(reqs))) && BatchResult(db, Execute(db, Txns(reqs)), db')
    ensures Consistent(db') && forall x :: YtdGap(db', x) == YtdGap(db, x)
  {
    hide Consistent, YtdGap, ReadLocal, BatchResult, Commits, Invoke;
    var batch := Txns(reqs);
    forall i | 0 <= i < |batch| ensures ReadLocal(batch[i].code) {
      InvokeReadLocal(reqs[i].req);
    }
    var order := SerialOrderExists(Execute(db, batch));
    Serializable(db, batch, order, db');
    SerialConsistent(db, reqs, order);
  }

  // Over every run of batches, both consistency conditions hold in every state.
  lemma {:induction false} RunConsistent(batches: seq<seq<Tagged>>, dbs: seq<Db>, m: nat)
    requires |dbs| == |batches| + 1 && m <= |batches| && Consistent(dbs[0])
    requires forall b :: 0 <= b < |batches| ==>
      && DistinctTids(Execute(dbs[b], Txns(batches[b])))
      && BatchResult(dbs[b], Execute(dbs[b], Txns(batches[b])), dbs[b + 1])
    ensures Consistent(dbs[m]) && forall x :: YtdGap(dbs[m], x) == YtdGap(dbs[0], x)
  {
    hide Consistent, YtdGap, BatchResult;
    if m > 0 {
      RunConsistent(batches, dbs, m - 1);
      BatchConsistent(dbs[m - 1], batches[m - 1], dbs[m]);
    }
  }
}
