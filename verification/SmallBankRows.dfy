/**
  The SmallBank ledger row by row: which rows a request changes and by how much,
  for one request, for a batch and over every run of batches.
 */
module SmallBankRows {
  import opened Basics
  import opened Store
  import opened Aria
  import opened SmallBank
  import opened SmallBankLedger

  // The rows that a request changes.
  function Rows(req: Request): set<Key> {
    match req
    case BalanceOf(_) => {}
    case DepositChecking(a, _) => {Checking(a)}
    case TransactSavings(a, _) => {Savings(a)}
    case Amalgamate(a, b) => {Savings(a), Checking(a), Checking(b)}
    case WriteCheck(a, _) => {Checking(a)}
  }

  // By how much it changes row k. All funds of customer a go to the checking
  // account of b; a check that is not covered costs 1 more.
  function Change(req: Request, db: Bank, k: Key): real {
    match req
    case BalanceOf(_) => 0.0
    case DepositChecking(a, amount) => if k == Checking(a) then amount else 0.0
    case TransactSavings(a, amount) => if k == Savings(a) then amount else 0.0
    case Amalgamate(a, b) =>
      if k == Savings(a) then -AmountAt(db, Savings(a))
      else if k == Checking(b) then AmountAt(db, Savings(a)) + AmountAt(db, Checking(a))
      else if k == Checking(a) then -AmountAt(db, Checking(a))
      else 0.0
    case WriteCheck(a, amount) =>
      if k != Checking(a) then 0.0
      else if AmountAt(db, Savings(a)) + AmountAt(db, Checking(a)) >= amount then -amount
      else -amount - 1.0
  }

  // The customers that have to exist, and the rows that have to hold a balance.
  function Customers(req: Request): set<int> {
    if req.Amalgamate? then {req.id, req.to} else {req.id}
  }

  function Needed(req: Request): set<Key> {
    match req
    case BalanceOf(a) => {Savings(a), Checking(a)}
    case DepositChecking(a, _) => {Checking(a)}
    case TransactSavings(a, _) => {Savings(a)}
    case Amalgamate(a, b) => {Savings(a), Checking(a), Checking(b)}
    case WriteCheck(a, _) => {Savings(a), Checking(a)}
  }

  // When a request goes through: a deposit must not be negative, and savings must
  // not become so; checks are always paid.
  lemma FinishedIff(req: Request, db: Bank)
    ensures Invoke(req, db).Finished? <==>
      && (forall a :: a in Customers(req) ==> HasName(db, a))
      && (forall k :: k in Needed(req) ==> HasBalance(db, k))
      && (req.DepositChecking? ==> req.amount >= 0.0)
      && (req.TransactSavings? ==> AmountAt(db, Savings(req.id)) + req.amount >= 0.0)
  {
  }

  ghost predicate RowsChanged(db: Bank, db': Bank, req: Request) {
    forall k ::
      Get(db', k) == if k in Rows(req) then Some(Balance(AmountAt(db, k) + Change(req, db, k))) else Get(db, k)
  }

  // One request, exactly.
  lemma RowsAfter(db: Bank, req: Request)
    requires Invoke(req, db).Finished?
    ensures RowsChanged(db, Apply(db, Batch(Invoke(req, db).writeSet)), req)
  {
    hide Apply, Batch;
    match req
    case BalanceOf(_) => NoPut(db);
    case DepositChecking(a, amount) => OnePut(db, Checking(a), db[Checking(a)].amount + amount);
    case TransactSavings(a, amount) => OnePut(db, Savings(a), db[Savings(a)].amount + amount);
    case Amalgamate(a, b) =>
      ThreePuts(db, Savings(a), 0.0, Checking(a), 0.0, Checking(b),
        db[Checking(b)].amount + (db[Savings(a)].amount + db[Checking(a)].amount));
    case WriteCheck(a, amount) =>
      var checking := db[Checking(a)].amount;
      OnePut(db, Checking(a),
        if checking + db[Savings(a)].amount < amount then checking - (amount + 1.0) else checking - amount);
  }

  // Customer 0 has 1 in savings and 2 in checking, customer 1 has 10 and 20.
  lemma AmalgamateMoves(name: string)
    ensures var db: Bank := map[Account(0) := Name(name), Savings(0) := Balance(1.0), Checking(0) := Balance(2.0),
                                Account(1) := Name(name), Savings(1) := Balance(10.0), Checking(1) := Balance(20.0)];
      var db' := db[Savings(0) := Balance(0.0)][Checking(0) := Balance(0.0)][Checking(1) := Balance(23.0)];
      Invoke(Amalgamate(0, 1), db).Finished? && Apply(db, Batch(Invoke(Amalgamate(0, 1), db).writeSet)) == db'
  {
    hide Apply, Batch;
    var db: Bank := map[Account(0) := Name(name), Savings(0) := Balance(1.0), Checking(0) := Balance(2.0),
                        Account(1) := Name(name), Savings(1) := Balance(10.0), Checking(1) := Balance(20.0)];
    ThreePuts(db, Savings(0), 0.0, Checking(0), 0.0, Checking(1), 20.0 + (1.0 + 2.0));
  }

  // The reads and writes by which a request conflicts with others.
  lemma Footprint(req: Request, db: Bank, tid: int)
    requires Invoke(req, db).Finished?
    ensures ReadKeys(Item(tid, Invoke(req, db))) == (set a | a in Customers(req) :: Account(a)) + Needed(req)
    ensures WriteKeys(Item(tid, Invoke(req, db))) == Rows(req)
  {
    hide ReadKeys, WriteKeys;
    var it := Item(tid, Invoke(req, db));
    forall k
      ensures k in ReadKeys(it) <==> (exists a :: a in Customers(req) && Account(a) == k) || k in Needed(req)
      ensures k in WriteKeys(it) <==> k in Rows(req)
    {
      FewKeys(it, k);
      assert req.id in Customers(req) && (req.Amalgamate? ==> req.to in Customers(req));
    }
  }

  /* ---- batches ---- */

  // What a request changes depends on its reads only.
  lemma ChangeSame(req: Request, d: Bank, d': Bank, k: Key)
    requires Invoke(req, d).Finished? && Invoke(req, d') == Invoke(req, d)
    ensures Change(req, d', k) == Change(req, d, k)
  {
    var rs, rs' := Invoke(req, d).readSet, Invoke(req, d').readSet;
    if req.Amalgamate? {
      assert rs[2] == rs'[2] && rs[3] == rs'[3];
    } else if req.WriteCheck? {
      assert rs[1] == rs'[1] && rs[2] == rs'[2];
    }
  }

  ghost function ChangeOf(db: Bank, reqs: seq<Tagged>, k: Key): nat -> real {
    (i: nat) => if i < |reqs| then Change(reqs[i].req, db, k) else 0.0
  }

  // Row k goes from db to d by the changes of the requests in the order; a row that
  // none of them names stays as it is, and no row appears or disappears.
  ghost predicate RowMoved(db: Bank, d: Bank, reqs: seq<Tagged>, order: seq<nat>, k: Key, change: real) {
    && (k in d <==> k in db)
    && AmountAt(d, k) == AmountAt(db, k) + change
    && ((forall i :: i in order && i < |reqs| ==> k !in Rows(reqs[i].req)) ==> Get(d, k) == Get(db, k))
  }

  lemma RowMovedStep(db: Bank, d: Bank, reqs: seq<Tagged>, order: seq<nat>, k: Key, change: real, i: nat)
    requires RowMoved(db, d, reqs, order, k, change) && i < |reqs|
    requires Invoke(reqs[i].req, d).Finished? && Invoke(reqs[i].req, db) == Invoke(reqs[i].req, d)
    ensures RowMoved(db, Apply(d, Batch(Invoke(reqs[i].req, d).writeSet)), reqs, order + [i], k,
                     change + Change(reqs[i].req, db, k))
  {
    hide Apply, Batch;
    var req := reqs[i].req;
    RowsAfter(d, req);
    ChangeSame(req, d, db, k);
    RowsThere(req, d, k);
    var d' := Apply(d, Batch(Invoke(req, d).writeSet));
    assert Get(d', k) == if k in Rows(req) then Some(Balance(AmountAt(d, k) + Change(req, d, k))) else Get(d, k);
    assert i in order + [i] && forall j :: j in order ==> j in order + [i];
  }

  lemma RowsThere(req: Request, db: Bank, k: Key)
    requires Invoke(req, db).Finished?
    ensures k in Rows(req) ==> k in db
    ensures k !in Rows(req) ==> Change(req, db, k) == 0.0
  {
  }

  lemma {:induction false} SerialRows(db: Bank, reqs: seq<Tagged>, order: seq<nat>, m: nat, k: Key)
    requires m <= |order| && forall p :: 0 <= p < |order| ==> order[p] < |reqs|
    requires forall p :: 0 <= p < |order| ==>
      && Invoke(reqs[order[p]].req, db).Finished?
      && Invoke(reqs[order[p]].req, RunSerially(db, Txns(reqs), order[..p])) == Invoke(reqs[order[p]].req, db)
    ensures RowMoved(db, RunSerially(db, Txns(reqs), order[..m]), reqs, order[..m], k,
                     SumAlong(order[..m], ChangeOf(db, reqs, k)))
  {
    hide RowMoved, Change, Invoke, Apply, Batch, RunSerially, SumAlong, Txns;
    if m == 0 {
      RowStays(db, reqs, order, k);
    } else {
      SerialRows(db, reqs, order, m - 1, k);
      assert order[..m] == order[..m - 1] + [order[m - 1]];
      RunNext(db, reqs, order, m - 1);
      SumNext(order, m - 1, ChangeOf(db, reqs, k));
      RowMovedStep(db, RunSerially(db, Txns(reqs), order[..m - 1]), reqs, order[..m - 1], k,
        SumAlong(order[..m - 1], ChangeOf(db, reqs, k)), order[m - 1]);
    }
  }

  lemma RowStays(db: Bank, reqs: seq<Tagged>, order: seq<nat>, k: Key)
    ensures RowMoved(db, RunSerially(db, Txns(reqs), order[..0]), reqs, order[..0], k,
                     SumAlong(order[..0], ChangeOf(db, reqs, k)))
  {
  }

  // One batch, row by row: the changes of the committed requests, as on the snapshot.
  lemma BatchRows(db: Bank, reqs: seq<Tagged>, db': Bank) returns (committed: seq<nat>)
    requires DistinctTids(Execute(db, Txns(reqs))) && BatchResult(db, Execute(db, Txns(reqs)), db')
    ensures CommittedIn(db, reqs, committed)
    ensures forall k ::
      RowMoved(db, db', reqs, committed, k, SumOver(committed, |reqs|, ChangeOf(db, reqs, k)))
  {
    hide Invoke, RowMoved, SumOver, SumAlong, Change, Rows;
    committed := CommittedOrder(db, reqs, db');
    forall k ensures RowMoved(db, db', reqs, committed, k, SumOver(committed, |reqs|, ChangeOf(db, reqs, k))) {
      SerialRows(db, reqs, committed, |committed|, k);
      assert committed[..|committed|] == committed;
      SumAnyOrder(committed, |reqs|, ChangeOf(db, reqs, k));
    }
  }

  // A savings change and a check of the same customer: the check reads what the
  // other one writes, and both commit.
  lemma CheckBesideSavings(db: Bank, a: int)
    requires HasName(db, a) && HasBalance(db, Savings(a)) && HasBalance(db, Checking(a))
    requires AmountAt(db, Savings(a)) >= 0.0
    ensures var reqs := [Tagged(1, TransactSavings(a, 10.0)), Tagged(2, WriteCheck(a, 5.0))];
      var items := Execute(db, Txns(reqs));
      |items| == 2 && Commits(items, items[0]) && Commits(items, items[1])
  {
    hide Commits, ReadKeys, WriteKeys;
    var reqs := [Tagged(1, TransactSavings(a, 10.0)), Tagged(2, WriteCheck(a, 5.0))];
    var items := Execute(db, Txns(reqs));
    assert items[0] == Item(1, Invoke(reqs[0].req, db)) && items[1] == Item(2, Invoke(reqs[1].req, db));
    Footprint(reqs[0].req, db, 1);
    Footprint(reqs[1].req, db, 2);
    CommitsIff(items, 0);
    CommitsIff(items, 1);
  }

  /* ---- runs of batches ---- */

  ghost function TotalChange(batches: seq<seq<Tagged>>, dbs: seq<Bank>, committed: seq<seq<nat>>, k: Key, m: nat): real
    requires |committed| == |batches| < |dbs| && m <= |batches|
  {
    if m == 0 then 0.0
    else TotalChange(batches, dbs, committed, k, m - 1) +
         SumOver(committed[m - 1], |batches[m - 1]|, ChangeOf(dbs[m - 1], batches[m - 1], k))
  }

  // Over every run, each row is its initial amount plus the changes of the committed requests.
  lemma {:induction false} RunRows(batches: seq<seq<Tagged>>, dbs: seq<Bank>, m: nat) returns (committed: seq<seq<nat>>)
    requires IsRun(batches, dbs) && m <= |batches|
    ensures |committed| == |batches| && forall b :: 0 <= b < m ==> CommittedIn(dbs[b], batches[b], committed[b])
    ensures forall k :: k in dbs[m] <==> k in dbs[0]
    ensures forall k :: AmountAt(dbs[m], k) == AmountAt(dbs[0], k) + TotalChange(batches, dbs, committed, k, m)
  {
    hide CommittedIn, SumOver, DistinctTids, BatchResult, Execute, AmountAt;
    if m == 0 {
      committed := seq(|batches|, b => []);
    } else {
      var before := RunRows(batches, dbs, m - 1);
      var last := BatchRows(dbs[m - 1], batches[m - 1], dbs[m]);
      committed := before[m - 1 := last];
      forall k
        ensures k in dbs[m] <==> k in dbs[0]
        ensures AmountAt(dbs[m], k) == AmountAt(dbs[0], k) + TotalChange(batches, dbs, committed, k, m)
      {
        var change := SumOver(last, |batches[m - 1]|, ChangeOf(dbs[m - 1], batches[m - 1], k));
        assert RowMoved(dbs[m - 1], dbs[m], batches[m - 1], last, k, change);
        SameChange(batches, dbs, before, committed, k, m - 1);
      }
    }
  }

  lemma {:induction false} SameChange(batches: seq<seq<Tagged>>, dbs: seq<Bank>, c: seq<seq<nat>>, c': seq<seq<nat>>,
                                      k: Key, m: nat)
    requires |c| == |c'| == |batches| < |dbs| && m <= |batches| && forall b :: 0 <= b < m ==> c[b] == c'[b]
    ensures TotalChange(batches, dbs, c, k, m) == TotalChange(batches, dbs, c', k, m)
  {
    if m > 0 { SameChange(batches, dbs, c, c', k, m - 1); }
  }
}
