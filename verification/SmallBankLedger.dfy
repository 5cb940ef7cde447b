/**
  The SmallBank ledger over every run of batches: what happens to the total of
  all funds, and that savings never turn negative.
 */
module SmallBankLedger {
  import opened Store
  import opened Aria
  import opened SmallBank

  /* ---- sums ---- */

  // f(0) + ... + f(n - 1), over the indices in s.
  ghost function SumOver(s: seq<nat>, n: nat, f: nat -> real): real {
    if n == 0 then 0.0 else SumOver(s, n - 1, f) + if n - 1 in s then f(n - 1) else 0.0
  }

  ghost function SumAlong(order: seq<nat>, f: nat -> real): real {
    if order == [] then 0.0 else SumAlong(order[..|order| - 1], f) + f(order[|order| - 1])
  }

  lemma {:induction false} SumWithout(s: seq<nat>, t: seq<nat>, n: nat, i: nat, f: nat -> real)
    requires forall j :: j in s <==> j in t || j == i
    requires i !in t
    ensures SumOver(s, n, f) == SumOver(t, n, f) + if i < n then f(i) else 0.0
  {
    if n > 0 {
      SumWithout(s, t, n - 1, i, f);
    }
  }

  // A sum does not depend on the order of its terms.
  lemma {:induction false} SumAnyOrder(order: seq<nat>, n: nat, f: nat -> real)
    requires forall p :: 0 <= p < |order| ==> order[p] < n
    requires forall p, q :: 0 <= p < q < |order| ==> order[p] != order[q]
    ensures SumAlong(order, f) == SumOver(order, n, f)
  {
    if order == [] {
      SumOfNone(n, f);
    } else {
      var front, last := order[..|order| - 1], order[|order| - 1];
      SumAnyOrder(front, n, f);
      assert order == front + [last];
      SumWithout(order, front, n, last, f);
    }
  }

  lemma {:induction false} SumOfNone(n: nat, f: nat -> real)
    ensures SumOver([], n, f) == 0.0
  {
    if n > 0 { SumOfNone(n - 1, f); }
  }

  /* ---- the ledger ---- */

  function AmountAt(db: Bank, k: Key): real {
    if HasBalance(db, k) then db[k].amount else 0.0
  }

  // All funds of the accounts 0 .. n - 1.
  function Total(db: Bank, n: nat): real {
    if n == 0 then 0.0
    else Total(db, n - 1) + AmountAt(db, Savings(n - 1)) + AmountAt(db, Checking(n - 1))
  }

  // Rows exist only for the n accounts.
  ghost predicate RowsOk(db: Bank, n: nat) {
    forall k :: k in db ==> 0 <= k.id < n
  }

  ghost predicate SavingsOk(db: Bank) {
    forall a :: AmountAt(db, Savings(a)) >= 0.0
  }

  lemma {:induction false} TotalSet(db: Bank, n: nat, k: Key, x: real)
    requires !k.Account? && 0 <= k.id
    ensures Total(db[k := Balance(x)], n) == Total(db, n) + if k.id < n then x - AmountAt(db, k) else 0.0
  {
    if n > 0 { TotalSet(db, n - 1, k, x); }
  }

  // A batch of puts is a sequence of map updates.
  lemma PutLast(db: Bank, writes: seq<Write<Key, Value>>, k: Key, x: real)
    requires Deletes(writes) == []
    ensures Deletes(writes + [Set(k, x)]) == []
    ensures Apply(db, Batch(writes + [Set(k, x)])) == Apply(db, Batch(writes))[k := Balance(x)]
  {
    PutsDeletesConcat(writes, [Set(k, x)]);
    var ps := Puts(writes);
    assert Puts([Set(k, x)]) == [Put(k, Balance(x))] && Deletes([Set(k, x)]) == [] by {
      assert [Set(k, x)][..0] == [];
    }
    assert Batch(writes) == ps && Batch(writes + [Set(k, x)]) == ps + [Put(k, Balance(x))];
    assert (ps + [Put(k, Balance(x))])[..|ps|] == ps;
  }

  lemma OnePut(db: Bank, k: Key, x: real)
    ensures Apply(db, Batch([Set(k, x)])) == db[k := Balance(x)]
  {
    PutLast(db, [], k, x);
    assert [] + [Set(k, x)] == [Set(k, x)];
  }

  lemma ThreePuts(db: Bank, k0: Key, x0: real, k1: Key, x1: real, k2: Key, x2: real)
    ensures Apply(db, Batch([Set(k0, x0), Set(k1, x1), Set(k2, x2)])) ==
      db[k0 := Balance(x0)][k1 := Balance(x1)][k2 := Balance(x2)]
  {
    PutLast(db, [], k0, x0);
    assert [] + [Set(k0, x0)] == [Set(k0, x0)];
    PutLast(db, [Set(k0, x0)], k1, x1);
    assert [Set(k0, x0)] + [Set(k1, x1)] == [Set(k0, x0), Set(k1, x1)];
    PutLast(db, [Set(k0, x0), Set(k1, x1)], k2, x2);
    assert [Set(k0, x0), Set(k1, x1)] + [Set(k2, x2)] == [Set(k0, x0), Set(k1, x1), Set(k2, x2)];
  }

  function ReadAmount(readSet: seq<Read<Key, Value>>, i: nat): real {
    if i < |readSet| && readSet[i].value.Balance? then readSet[i].value.amount else 0.0
  }

  // What a committed request moves into the bank, given what it has read:
  // deposits and savings changes, minus checks with their penalty. Amalgamating
  // an account with itself counts its checking balance twice.
  function Flow(req: Request, out: Outcome<Key, Value>): real {
    if out.Aborted? then 0.0
    else match req
      case BalanceOf(_) => 0.0
      case DepositChecking(_, amount) => amount
      case TransactSavings(_, amount) => amount
      case Amalgamate(a, b) => if a == b then ReadAmount(out.readSet, 3) else 0.0
      case WriteCheck(_, amount) =>
        if ReadAmount(out.readSet, 2) + ReadAmount(out.readSet, 1) < amount then -(amount + 1.0) else -amount
  }

  lemma AmalgamateLedger(db: Bank, n: nat, a: int, b: int)
    requires RowsOk(db, n) && Invoke(Amalgamate(a, b), db).Finished?
    ensures var out := Invoke(Amalgamate(a, b), db);
      var db' := Apply(db, Batch(out.writeSet));
      && RowsOk(db', n)
      && (SavingsOk(db) ==> SavingsOk(db'))
      && Total(db', n) == Total(db, n) + Flow(Amalgamate(a, b), out)
  {
    hide Apply, Batch, Total;
    var s, c, t := Savings(a), Checking(a), Checking(b);
    var moved := db[t].amount + (db[s].amount + db[c].amount);
    ThreePuts(db, s, 0.0, c, 0.0, t, moved);
    var d1 := db[s := Balance(0.0)];
    var d2 := d1[c := Balance(0.0)];
    TotalSet(db, n, s, 0.0);
    TotalSet(d1, n, c, 0.0);
    TotalSet(d2, n, t, moved);
    assert AmountAt(d1, c) == AmountAt(db, c) && AmountAt(d2, t) == if a == b then 0.0 else AmountAt(db, t);
  }

  lemma OnePutLedger(db: Bank, n: nat, k: Key, x: real)
    requires RowsOk(db, n) && HasBalance(db, k) && !k.Account?
    ensures var db' := Apply(db, Batch([Set(k, x)]));
      && RowsOk(db', n)
      && (SavingsOk(db) && (k.Savings? ==> x >= 0.0) ==> SavingsOk(db'))
      && Total(db', n) == Total(db, n) + x - AmountAt(db, k)
  {
    OnePut(db, k, x);
    TotalSet(db, n, k, x);
  }

  // One request on the ledger.
  lemma InvokeLedger(db: Bank, n: nat, req: Request)
    requires RowsOk(db, n) && Invoke(req, db).Finished?
    ensures var out := Invoke(req, db);
      var db' := Apply(db, Batch(out.writeSet));
      && RowsOk(db', n)
      && (SavingsOk(db) ==> SavingsOk(db'))
      && Total(db', n) == Total(db, n) + Flow(req, out)
  {
    hide Apply, Batch, SavingsOk, RowsOk, Total;
    match req
    case BalanceOf(_) => NoPut(db);
    case DepositChecking(a, amount) => OnePutLedger(db, n, Checking(a), db[Checking(a)].amount + amount);
    case TransactSavings(a, amount) => OnePutLedger(db, n, Savings(a), db[Savings(a)].amount + amount);
    case Amalgamate(a, b) => AmalgamateLedger(db, n, a, b);
    case WriteCheck(a, amount) =>
      var checking := db[Checking(a)].amount;
      OnePutLedger(db, n, Checking(a),
        if checking + db[Savings(a)].amount < amount then checking - (amount + 1.0) else checking - amount);
  }

  lemma NoPut(db: Bank)
    ensures Apply(db, Batch([])) == db
  {
  }

  // Amalgamating conserves the total exactly between distinct accounts, or
  // when there is nothing in the checking account.
  lemma AmalgamateConserves(db: Bank, n: nat, a: int, b: int)
    requires RowsOk(db, n) && Invoke(Amalgamate(a, b), db).Finished?
    ensures Total(Apply(db, Batch(Invoke(Amalgamate(a, b), db).writeSet)), n) == Total(db, n)
      <==> a != b || AmountAt(db, Checking(a)) == 0.0
  {
    AmalgamateLedger(db, n, a, b);
  }

  // One customer with 1 in savings and 2 in checking ends up with 5.
  lemma AmalgamateToSelfCreatesMoney(name: string)
    ensures var db: Bank := map[Account(0) := Name(name), Savings(0) := Balance(1.0), Checking(0) := Balance(2.0)];
      && RowsOk(db, 1) && Invoke(Amalgamate(0, 0), db).Finished?
      && Total(db, 1) == 3.0 && Total(Apply(db, Batch(Invoke(Amalgamate(0, 0), db).writeSet)), 1) == 5.0
  {
    hide Apply, Batch;
    var db: Bank := map[Account(0) := Name(name), Savings(0) := Balance(1.0), Checking(0) := Balance(2.0)];
    AmalgamateLedger(db, 1, 0, 0);
  }

  /* ---- batches and runs of batches ---- */

  datatype Tagged = Tagged(tid: int, req: Request)

  function Txns(reqs: seq<Tagged>): (batch: seq<Txn<Key, Value>>) {
    seq(|reqs|, i requires 0 <= i < |reqs| => Txn(reqs[i].tid, Code(reqs[i].req)))
  }

  ghost function FlowOf(db: Bank, reqs: seq<Tagged>): nat -> real {
    (i: nat) => if i < |reqs| then Flow(reqs[i].req, Invoke(reqs[i].req, db)) else 0.0
  }

  // The indices of the committed requests.
  ghost predicate CommittedIn(db: Bank, reqs: seq<Tagged>, committed: seq<nat>) {
    var items := Execute(db, Txns(reqs));
    && (forall i: nat :: i in committed <==> i < |reqs| && Commits(items, items[i]))
    && (forall p, q :: 0 <= p < q < |committed| ==> committed[p] != committed[q])
  }

  lemma RunNext(db: Bank, reqs: seq<Tagged>, order: seq<nat>, m: nat)
    requires m < |order| && order[m] < |reqs|
    ensures var d, req := RunSerially(db, Txns(reqs), order[..m]), reqs[order[m]].req;
      Invoke(req, d).Finished? ==>
        RunSerially(db, Txns(reqs), order[..m + 1]) == Apply(d, Batch(Invoke(req, d).writeSet))
  {
    hide Apply, Batch, Invoke;
    assert order[..m + 1][..m] == order[..m];
  }

  lemma SumNext(order: seq<nat>, m: nat, f: nat -> real)
    requires m < |order|
    ensures SumAlong(order[..m + 1], f) == SumAlong(order[..m], f) + f(order[m])
  {
    assert order[..m + 1][..m] == order[..m];
  }

  lemma {:induction false} SerialLedger(db: Bank, n: nat, reqs: seq<Tagged>, order: seq<nat>, m: nat)
    requires RowsOk(db, n) && m <= |order| && forall p :: 0 <= p < |order| ==> order[p] < |reqs|
    requires forall p :: 0 <= p < |order| ==>
      && Invoke(reqs[order[p]].req, db).Finished?
      && Invoke(reqs[order[p]].req, RunSerially(db, Txns(reqs), order[..p])) == Invoke(reqs[order[p]].req, db)
    ensures var d := RunSerially(db, Txns(reqs), order[..m]);
      && RowsOk(d, n)
      && (SavingsOk(db) ==> SavingsOk(d))
      && Total(d, n) == Total(db, n) + SumAlong(order[..m], FlowOf(db, reqs))
  {
    hide Invoke, Apply, Batch, RowsOk, SavingsOk, Total, Flow;
    if m > 0 {
      SerialLedger(db, n, reqs, order, m - 1);
      RunNext(db, reqs, order, m - 1);
      SumNext(order, m - 1, FlowOf(db, reqs));
      InvokeLedger(RunSerially(db, Txns(reqs), order[..m - 1]), n, reqs[order[m - 1]].req);
    }
  }

  // The committed requests of a batch in an order that replays them serially: each
  // one does what it did on the snapshot, and together they leave what the batch leaves.
  lemma CommittedOrder(db: Bank, reqs: seq<Tagged>, db': Bank) returns (committed: seq<nat>)
    requires DistinctTids(Execute(db, Txns(reqs))) && BatchResult(db, Execute(db, Txns(reqs)), db')
    ensures CommittedIn(db, reqs, committed) && forall p :: 0 <= p < |committed| ==> committed[p] < |reqs|
    ensures forall p :: 0 <= p < |committed| ==>
      && Invoke(reqs[committed[p]].req, db).Finished?
      && Invoke(reqs[committed[p]].req, RunSerially(db, Txns(reqs), committed[..p])) ==
           Invoke(reqs[committed[p]].req, db)
    ensures RunSerially(db, Txns(reqs), committed) == db'
  {
    hide ReadLocal, BatchResult, Invoke, Waw, War, Raw;
    var batch := Txns(reqs);
    var items := Execute(db, batch);
    forall i | 0 <= i < |batch| ensures ReadLocal(batch[i].code) {
      InvokeReadLocal(reqs[i].req);
    }
    committed := SerialOrderExists(items);
    Serializable(db, batch, committed, db');
    forall p | 0 <= p < |committed|
      ensures committed[p] < |reqs| && Invoke(reqs[committed[p]].req, db).Finished?
      ensures Invoke(reqs[committed[p]].req, RunSerially(db, batch, committed[..p])) ==
        Invoke(reqs[committed[p]].req, db)
    {
      assert Commits(items, items[committed[p]]);
    }
  }

  // One batch on the ledger: db' is what the batch leaves.
  lemma BatchLedger(db: Bank, n: nat, reqs: seq<Tagged>, db': Bank) returns (committed: seq<nat>)
    requires RowsOk(db, n) && DistinctTids(Execute(db, Txns(reqs)))
    requires BatchResult(db, Execute(db, Txns(reqs)), db')
    ensures CommittedIn(db, reqs, committed)
    ensures RowsOk(db', n) && (SavingsOk(db) ==> SavingsOk(db'))
    ensures Total(db', n) == Total(db, n) + SumOver(committed, |reqs|, FlowOf(db, reqs))
  {
    hide BatchResult, Invoke, RowsOk, SavingsOk, Total, SumOver, SumAlong, Flow;
    committed := CommittedOrder(db, reqs, db');
    SerialLedger(db, n, reqs, committed, |committed|);
    assert committed[..|committed|] == committed;
    SumAnyOrder(committed, |reqs|, FlowOf(db, reqs));
  }

  // A run: each batch takes the store from one state to the next.
  ghost predicate IsRun(batches: seq<seq<Tagged>>, dbs: seq<Bank>) {
    && |dbs| == |batches| + 1
    && forall b :: 0 <= b < |batches| ==>
         && DistinctTids(Execute(dbs[b], Txns(batches[b])))
         && BatchResult(dbs[b], Execute(dbs[b], Txns(batches[b])), dbs[b + 1])
  }

  // The flows of all committed requests of the first m batches.
  ghost function TotalFlow(batches: seq<seq<Tagged>>, dbs: seq<Bank>, committed: seq<seq<nat>>, m: nat): real
    requires |committed| == |batches| < |dbs| && m <= |batches|
  {
    if m == 0 then 0.0
    else TotalFlow(batches, dbs, committed, m - 1) +
         SumOver(committed[m - 1], |batches[m - 1]|, FlowOf(dbs[m - 1], batches[m - 1]))
  }

  // Over every run of batches, the total of all funds is the initial total plus
  // the flows of the committed requests, and savings never turn negative.
  lemma {:induction false} RunLedger(batches: seq<seq<Tagged>>, dbs: seq<Bank>, n: nat, m: nat)
    returns (committed: seq<seq<nat>>)
    requires IsRun(batches, dbs) && RowsOk(dbs[0], n) && m <= |batches|
    ensures |committed| == |batches| && forall b :: 0 <= b < m ==> CommittedIn(dbs[b], batches[b], committed[b])
    ensures RowsOk(dbs[m], n) && (SavingsOk(dbs[0]) ==> SavingsOk(dbs[m]))
    ensures Total(dbs[m], n) == Total(dbs[0], n) + TotalFlow(batches, dbs, committed, m)
  {
    hide Total, RowsOk, SavingsOk, CommittedIn, SumOver, DistinctTids, BatchResult, Execute;
    if m == 0 {
      committed := seq(|batches|, b => []);
    } else {
      var before := RunLedger(batches, dbs, n, m - 1);
      var last := BatchLedger(dbs[m - 1], n, batches[m - 1], dbs[m]);
      committed := before[m - 1 := last];
      SameFlow(batches, dbs, before, committed, m - 1);
    }
  }

  lemma {:induction false} SameFlow(batches: seq<seq<Tagged>>, dbs: seq<Bank>, c: seq<seq<nat>>, c': seq<seq<nat>>,
                                    m: nat)
    requires |c| == |c'| == |batches| < |dbs| && m <= |batches| && forall b :: 0 <= b < m ==> c[b] == c'[b]
    ensures TotalFlow(batches, dbs, c, m) == TotalFlow(batches, dbs, c', m)
  {
    if m > 0 { SameFlow(batches, dbs, c, c', m - 1); }
  }
}
