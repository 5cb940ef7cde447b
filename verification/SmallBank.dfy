/**
  The SmallBank chaincode: its four procedures as functions of the store and as
  methods over the ORM that the functions specify. Amounts are reals; rounding of
  doubles is not modelled.
 */
module SmallBank {
  import opened Basics
  import opened Store
  import opened Aria
  import opened Chaincode

  datatype Key = Account(id: int) | Savings(id: int) | Checking(id: int)

  datatype Value = Name(name: string) | Balance(amount: real)

  type Bank = map<Key, Value>

  datatype Request =
    | BalanceOf(id: int)
    | DepositChecking(id: int, amount: real)
    | TransactSavings(id: int, amount: real)
    | Amalgamate(id: int, to: int)
    | WriteCheck(id: int, amount: real)

  // A present row that decodes as an account name.
  predicate HasName(db: Bank, a: int) {
    Account(a) in db && db[Account(a)].Name?
  }

  // A present row that decodes as a balance.
  predicate HasBalance(db: Bank, k: Key) {
    k in db && db[k].Balance?
  }

  function RowRead(db: Bank, k: Key): Read<Key, Value>
    requires k in db
  {
    Read(k, db[k])
  }

  function Set(k: Key, amount: real): Write<Key, Value> {
    Write(k, Some(Balance(amount)))
  }

  function Invoke(req: Request, db: Bank): (out: Outcome<Key, Value>) {
    match req
    case BalanceOf(a) =>
      if HasName(db, a) && HasBalance(db, Savings(a)) && HasBalance(db, Checking(a)) then
        Finished([RowRead(db, Account(a)), RowRead(db, Savings(a)), RowRead(db, Checking(a))], [])
      else Aborted
    case DepositChecking(a, amount) =>
      if amount >= 0.0 && HasName(db, a) && HasBalance(db, Checking(a)) then
        Finished([RowRead(db, Account(a)), RowRead(db, Checking(a))],
                 [Set(Checking(a), db[Checking(a)].amount + amount)])
      else Aborted
    case TransactSavings(a, amount) =>
      if HasName(db, a) && HasBalance(db, Savings(a)) && db[Savings(a)].amount + amount >= 0.0 then
        Finished([RowRead(db, Account(a)), RowRead(db, Savings(a))],
                 [Set(Savings(a), db[Savings(a)].amount + amount)])
      else Aborted
    case Amalgamate(a, b) =>
      if HasName(db, a) && HasName(db, b) && HasBalance(db, Savings(a)) && HasBalance(db, Checking(a))
         && HasBalance(db, Checking(b)) then
        Finished([RowRead(db, Account(a)), RowRead(db, Account(b)),
                  RowRead(db, Savings(a)), RowRead(db, Checking(a)), RowRead(db, Checking(b))],
                 [Set(Savings(a), 0.0), Set(Checking(a), 0.0),
                  Set(Checking(b), db[Checking(b)].amount + (db[Savings(a)].amount + db[Checking(a)].amount))])
      else Aborted
    case WriteCheck(a, amount) =>
      if HasName(db, a) && HasBalance(db, Savings(a)) && HasBalance(db, Checking(a)) then
        var savings, checking := db[Savings(a)].amount, db[Checking(a)].amount;
        Finished([RowRead(db, Account(a)), RowRead(db, Savings(a)), RowRead(db, Checking(a))],
                 [Set(Checking(a),
                   if checking + savings < amount then checking - (amount + 1.0) else checking - amount)])
      else Aborted
  }

  function Code(req: Request): (code: Bank -> Outcome<Key, Value>) {
    (db: Bank) => Invoke(req, db)
  }

  // The store has the i-th read.
  ghost predicate Has(readSet: seq<Read<Key, Value>>, db: Bank, i: nat) {
    i < |readSet| ==> readSet[i].key in db && db[readSet[i].key] == readSet[i].value
  }

  lemma ReadsHoldIff(readSet: seq<Read<Key, Value>>, db: Bank)
    ensures ReadsHold(readSet, db) <==> forall i: nat :: Has(readSet, db, i)
  {
    if ReadsHold(readSet, db) {
      assert forall i: nat :: i < |readSet| ==> readSet[i] in readSet;
    } else {
      var r :| r in readSet && Get(db, r.key) != Some(r.value);
      var i :| 0 <= i < |readSet| && readSet[i] == r;
      assert !Has(readSet, db, i);
    }
  }

  lemma InvokeSame(req: Request, d: Bank, d': Bank)
    requires Invoke(req, d).Finished?
    ensures ReadsHold(Invoke(req, d).readSet, d)
    ensures ReadsHold(Invoke(req, d).readSet, d') ==> Invoke(req, d') == Invoke(req, d)
  {
    hide ReadsHold;
    var readSet := Invoke(req, d).readSet;
    ReadsHoldIff(readSet, d);
    ReadsHoldIff(readSet, d');
    if ReadsHold(readSet, d') {
      assert Has(readSet, d', 0) && Has(readSet, d', 1) && Has(readSet, d', 2);
      assert Has(readSet, d', 3) && Has(readSet, d', 4);
    }
  }

  // Every procedure is a function of the reads that it records.
  lemma InvokeReadLocal(req: Request)
    ensures ReadLocal(Code(req))
  {
    hide Invoke, ReadsHold;
    forall d: Bank, d': Bank | Invoke(req, d).Finished?
      ensures ReadsHold(Invoke(req, d).readSet, d)
      ensures ReadsHold(Invoke(req, d).readSet, d') ==> Invoke(req, d') == Invoke(req, d)
    {
      InvokeSame(req, d, d');
    }
  }

  /* ---- the procedures as they use the ORM ---- */

  method GetName(orm: Orm<Key, Value>, a: int) returns (ok: bool)
    modifies orm`readSet
    ensures ok == HasName(orm.db, a)
    ensures ok ==> orm.readSet == old(orm.readSet) + [RowRead(orm.db, Account(a))]
  {
    var v := orm.Get(Account(a));
    ok := v.Some? && v.value.Name?;
  }

  method GetBalance(orm: Orm<Key, Value>, k: Key) returns (ok: bool, amount: real)
    modifies orm`readSet
    ensures ok == HasBalance(orm.db, k)
    ensures ok ==> amount == orm.db[k].amount && orm.readSet == old(orm.readSet) + [RowRead(orm.db, k)]
  {
    var v := orm.Get(k);
    if v.Some? && v.value.Balance? {
      return true, v.value.amount;
    }
    return false, 0.0;
  }

  method InvokeDepositChecking(orm: Orm<Key, Value>, a: int, amount: real) returns (ok: bool)
    requires orm.readSet == [] && orm.writeSet == []
    modifies orm
    ensures Leaves(orm, ok, Invoke(DepositChecking(a, amount), orm.db))
  {
    if amount < 0.0 {
      return false;
    }
    ok := GetName(orm, a);
    if !ok { return; }
    var balance;
    ok, balance := GetBalance(orm, Checking(a));
    if !ok { return; }
    balance := balance + amount;
    orm.Put(Checking(a), Balance(balance));
  }

  method InvokeTransactSavings(orm: Orm<Key, Value>, a: int, amount: real) returns (ok: bool)
    requires orm.readSet == [] && orm.writeSet == []
    modifies orm
    ensures Leaves(orm, ok, Invoke(TransactSavings(a, amount), orm.db))
  {
    ok := GetName(orm, a);
    if !ok { return; }
    var balance;
    ok, balance := GetBalance(orm, Savings(a));
    if !ok { return; }
    balance := balance + amount;
    if balance < 0.0 {
      return false;
    }
    orm.Put(Savings(a), Balance(balance));
  }

  method InvokeAmalgamate(orm: Orm<Key, Value>, a: int, b: int) returns (ok: bool)
    requires orm.readSet == [] && orm.writeSet == []
    modifies orm
    ensures Leaves(orm, ok, Invoke(Amalgamate(a, b), orm.db))
  {
    ok := GetName(orm, a);
    if !ok { return; }
    ok := GetName(orm, b);
    if !ok { return; }
    var savings0, checking0, checking1;
    ok, savings0 := GetBalance(orm, Savings(a));
    if !ok { return; }
    ok, checking0 := GetBalance(orm, Checking(a));
    if !ok { return; }
    orm.Put(Savings(a), Balance(0.0));
    orm.Put(Checking(a), Balance(0.0));
    ok, checking1 := GetBalance(orm, Checking(b));
    if !ok { return; }
    checking1 := checking1 + (savings0 + checking0);
    orm.Put(Checking(b), Balance(checking1));
  }

  method InvokeWriteCheck(orm: Orm<Key, Value>, a: int, amount: real) returns (ok: bool)
    requires orm.readSet == [] && orm.writeSet == []
    modifies orm
    ensures Leaves(orm, ok, Invoke(WriteCheck(a, amount), orm.db))
  {
    ok := GetName(orm, a);
    if !ok { return; }
    var savings, checking;
    ok, savings := GetBalance(orm, Savings(a));
    if !ok { return; }
    ok, checking := GetBalance(orm, Checking(a));
    if !ok { return; }
    var sum := checking + savings;
    if sum < amount {
      checking := checking - (amount + 1.0);
    } else {
      checking := checking - amount;
    }
    orm.Put(Checking(a), Balance(checking));
  }
}
