/**
  The TPC-C chaincode: the New-Order and Payment transactions, as far as they
  touch warehouses, districts, orders, new orders, stock and customers.
  Amounts are reals; rounding of doubles is not modelled.
 */
module Tpcc {
  import opened Basics
  import opened Store
  import opened Aria

  datatype Key =
    | Warehouse(w: int)
    | District(w: int, d: int)
    | Customer(w: int, d: int, c: int)
    | CustomerByName(w: int, d: int, last: string)
    | Order(w: int, d: int, o: int)
    | NewOrder(w: int, d: int, o: int)
    | OrderLine(w: int, d: int, o: int, number: int)
    | ItemKey(i: int)
    | Stock(w: int, i: int)
    | History(c: int, cd: int, cw: int, d: int, w: int, date: int)

  datatype Value =
    | WarehouseRow(wTax: real, wYtd: real)
    | DistrictRow(dTax: real, dYtd: real, nextOrder: int)
    | CustomerRow(discount: real, balance: real, ytdPayment: real, payments: real)
    | CustomerIndexRow(customer: int)
    | OrderRow(customer: int, lines: int, allLocal: bool)
    | NewOrderRow
    | OrderLineRow(item: int, supply: int, quantity: int, amount: real)
    | ItemRow(price: real)
    | StockRow(inStock: int, sold: int, orders: int, remote: int)
    | HistoryRow(amount: real)

  type Db = map<Key, Value>

  datatype Line = Line(number: int, supply: int, item: int, quantity: int)

  datatype Request =
    | NewOrderRequest(w: int, d: int, c: int, lines: seq<Line>)
    | PaymentRequest(w: int, d: int, cw: int, cd: int, amount: real, byId: bool, c: int, last: string, date: int)

  predicate HasWarehouse(db: Db, w: int) { Warehouse(w) in db && db[Warehouse(w)].WarehouseRow? }

  predicate HasDistrict(db: Db, w: int, d: int) { District(w, d) in db && db[District(w, d)].DistrictRow? }

  predicate HasCustomer(db: Db, w: int, d: int, c: int) {
    Customer(w, d, c) in db && db[Customer(w, d, c)].CustomerRow?
  }

  predicate HasStock(db: Db, w: int, i: int) { Stock(w, i) in db && db[Stock(w, i)].StockRow? }

  predicate HasItem(db: Db, i: int) { ItemKey(i) in db && db[ItemKey(i)].ItemRow? }

  function RowRead(db: Db, k: Key): Read<Key, Value>
    requires k in db
  {
    Read(k, db[k])
  }

  function Set(k: Key, v: Value): Write<Key, Value> {
    Write(k, Some(v))
  }

  /* ---- order lines ---- */

  predicate LineOk(db: Db, w: int, l: Line) {
    HasItem(db, l.item) && HasStock(db, l.supply, l.item) && (l.supply != w ==> HasStock(db, w, l.item))
  }

  function LineReads(db: Db, w: int, l: Line): (readSet: seq<Read<Key, Value>>)
    requires LineOk(db, w, l)
  {
    [RowRead(db, ItemKey(l.item)), RowRead(db, Stock(l.supply, l.item))] +
    if l.supply != w then [RowRead(db, Stock(w, l.item))] else []
  }

  function StockAfter(s: Value, w: int, l: Line): Value
    requires s.StockRow?
  {
    StockRow(
      if s.inStock >= l.quantity + 10 then s.inStock - l.quantity else s.inStock + (91 - l.quantity),
      s.sold + l.quantity,
      s.orders + 1,
      if l.supply != w then s.remote + 1 else s.remote)
  }

  function LineAmount(quantity: int, price: real, rate: real): real {
    quantity as real * price * rate
  }

  function Rate(warehouse: Value, district: Value, customer: Value): real
    requires warehouse.WarehouseRow? && district.DistrictRow? && customer.CustomerRow?
  {
    (1.0 + warehouse.wTax + district.dTax) * (1.0 - customer.discount)
  }

  // The order line is keyed by the district id where an order id would be expected.
  function LineWrites(db: Db, w: int, d: int, rate: real, l: Line): (writeSet: seq<Write<Key, Value>>)
    requires LineOk(db, w, l)
  {
    [Set(Stock(l.supply, l.item), StockAfter(db[Stock(l.supply, l.item)], w, l)),
     Set(OrderLine(w, d, d, l.number),
         OrderLineRow(l.item, l.supply, l.quantity, LineAmount(l.quantity, db[ItemKey(l.item)].price, rate)))]
  }

  datatype Lines = Failed | Collected(readSet: seq<Read<Key, Value>>, writeSet: seq<Write<Key, Value>>)

  function CollectLines(db: Db, w: int, d: int, rate: real, lines: seq<Line>): (r: Lines) {
    if lines == [] then Collected([], [])
    else
      var l := lines[|lines| - 1];
      match CollectLines(db, w, d, rate, lines[..|lines| - 1])
      case Failed => Failed
      case Collected(rs, ws) =>
        if LineOk(db, w, l) then Collected(rs + LineReads(db, w, l), ws + LineWrites(db, w, d, rate, l)) else Failed
  }

  /* ---- the two transactions ---- */

  function InvokeNewOrder(req: Request, db: Db): (out: Outcome<Key, Value>)
    requires req.NewOrderRequest?
  {
    var NewOrderRequest(w, d, c, lines) := req;
    if HasWarehouse(db, w) && HasDistrict(db, w, d) && HasCustomer(db, w, d, c) then
      var district := db[District(w, d)];
      var o := district.nextOrder;
      var rate := Rate(db[Warehouse(w)], district, db[Customer(w, d, c)]);
      match CollectLines(db, w, d, rate, lines)
      case Failed => Aborted
      case Collected(rs, ws) =>
        Finished(
          [RowRead(db, Warehouse(w)), RowRead(db, District(w, d)), RowRead(db, Customer(w, d, c))] + rs,
          [Set(District(w, d), district.(nextOrder := o + 1)),
           Set(Order(w, d, o), OrderRow(c, |lines|, forall l :: l in lines ==> l.supply == w)),
           Set(NewOrder(w, d, o), NewOrderRow)] + ws)
    else Aborted
  }

  // The customer that pays, by id or through the last-name index.
  function Payer(req: Request, db: Db): Option<int>
    requires req.PaymentRequest?
  {
    if req.byId then Some(req.c)
    else
      var k := CustomerByName(req.cw, req.cd, req.last);
      if k in db && db[k].CustomerIndexRow? then Some(db[k].customer) else None
  }

  function InvokePayment(req: Request, db: Db): (out: Outcome<Key, Value>)
    requires req.PaymentRequest?
  {
    var PaymentRequest(w, d, cw, cd, amount, byId, c, last, date) := req;
    var payer := Payer(req, db);
    if HasWarehouse(db, w) && HasDistrict(db, w, d) && payer.Some? && HasCustomer(db, cw, cd, payer.value) then
      var warehouse, district, customer :=
        db[Warehouse(w)], db[District(w, d)], db[Customer(cw, cd, payer.value)];
      Finished(
        [RowRead(db, Warehouse(w)), RowRead(db, District(w, d))] +
        (if byId then [] else [RowRead(db, CustomerByName(cw, cd, last))]) +
        [RowRead(db, Customer(cw, cd, payer.value))],
        [Set(Warehouse(w), warehouse.(wYtd := warehouse.wYtd + amount)),
         Set(District(w, d), district.(dYtd := district.dYtd + amount)),
         Set(Customer(cw, cd, payer.value),
             customer.(balance := customer.balance - amount, ytdPayment := customer.ytdPayment + amount,
               payments := customer.payments + 1.0)),
         Set(History(payer.value, cd, cw, d, w, date), HistoryRow(amount))])
    else Aborted
  }

  function Invoke(req: Request, db: Db): (out: Outcome<Key, Value>) {
    if req.NewOrderRequest? then InvokeNewOrder(req, db) else InvokePayment(req, db)
  }

  function Code(req: Request): (code: Db -> Outcome<Key, Value>) {
    (db: Db) => Invoke(req, db)
  }

  /* ---- a transaction is a function of the reads that it records ---- */

  lemma HoldsConcat(a: seq<Read<Key, Value>>, b: seq<Read<Key, Value>>, db: Db)
    ensures ReadsHold(a + b, db) <==> ReadsHold(a, db) && ReadsHold(b, db)
  {
    assert forall r :: r in a + b <==> r in a || r in b;
  }

  lemma HoldsAt(readSet: seq<Read<Key, Value>>, db: Db, i: nat)
    requires ReadsHold(readSet, db) && i < |readSet|
    ensures readSet[i].key in db && db[readSet[i].key] == readSet[i].value
  {
    assert readSet[i] in readSet;
  }

  lemma LineSame(d: Db, d': Db, w: int, dd: int, rate: real, l: Line)
    requires LineOk(d, w, l)
    ensures ReadsHold(LineReads(d, w, l), d)
    ensures ReadsHold(LineReads(d, w, l), d') ==>
      LineOk(d', w, l) && LineReads(d', w, l) == LineReads(d, w, l) &&
        LineWrites(d', w, dd, rate, l) == LineWrites(d, w, dd, rate, l)
  {
    var rs := LineReads(d, w, l);
    if ReadsHold(rs, d') {
      HoldsAt(rs, d', 0);
      HoldsAt(rs, d', 1);
      if l.supply != w { HoldsAt(rs, d', 2); }
      assert d'[ItemKey(l.item)] == d[ItemKey(l.item)] && d'[Stock(l.supply, l.item)] == d[Stock(l.supply, l.item)];
    }
  }

  lemma {:induction false} LinesSame(d: Db, d': Db, w: int, dd: int, rate: real, lines: seq<Line>)
    requires CollectLines(d, w, dd, rate, lines).Collected?
    ensures ReadsHold(CollectLines(d, w, dd, rate, lines).readSet, d)
    ensures ReadsHold(CollectLines(d, w, dd, rate, lines).readSet, d') ==>
      CollectLines(d', w, dd, rate, lines) == CollectLines(d, w, dd, rate, lines)
  {
    if lines != [] {
      var front, l := lines[..|lines| - 1], lines[|lines| - 1];
      LinesSame(d, d', w, dd, rate, front);
      LineSame(d, d', w, dd, rate, l);
      HoldsConcat(CollectLines(d, w, dd, rate, front).readSet, LineReads(d, w, l), d);
      HoldsConcat(CollectLines(d, w, dd, rate, front).readSet, LineReads(d, w, l), d');
    }
  }

  lemma NewOrderSame(req: Request, d: Db, d': Db)
    requires req.NewOrderRequest? && InvokeNewOrder(req, d).Finished?
    ensures ReadsHold(InvokeNewOrder(req, d).readSet, d)
    ensures ReadsHold(InvokeNewOrder(req, d).readSet, d') ==> InvokeNewOrder(req, d') == InvokeNewOrder(req, d)
  {
    var NewOrderRequest(w, dd, c, lines) := req;
    var head := [RowRead(d, Warehouse(w)), RowRead(d, District(w, dd)), RowRead(d, Customer(w, dd, c))];
    var rate := Rate(d[Warehouse(w)], d[District(w, dd)], d[Customer(w, dd, c)]);
    var rs := CollectLines(d, w, dd, rate, lines).readSet;
    LinesSame(d, d', w, dd, rate, lines);
    HoldsConcat(head, rs, d);
    HoldsConcat(head, rs, d');
    assert ReadsHold(head, d);
    hide CollectLines;
    if ReadsHold(head + rs, d') {
      HoldsAt(head, d', 0);
      HoldsAt(head, d', 1);
      HoldsAt(head, d', 2);
      assert d'[Warehouse(w)] == d[Warehouse(w)] && d'[District(w, dd)] == d[District(w, dd)]
             && d'[Customer(w, dd, c)] == d[Customer(w, dd, c)];
    }
  }

  lemma PaymentSame(req: Request, d: Db, d': Db)
    requires req.PaymentRequest? && InvokePayment(req, d).Finished?
    ensures ReadsHold(InvokePayment(req, d).readSet, d)
    ensures ReadsHold(InvokePayment(req, d).readSet, d') ==> InvokePayment(req, d') == InvokePayment(req, d)
  {
    var rs := InvokePayment(req, d).readSet;
    if ReadsHold(rs, d') {
      HoldsAt(rs, d', 0);
      HoldsAt(rs, d', 1);
      HoldsAt(rs, d', 2);
      if !req.byId { HoldsAt(rs, d', 3); }
    }
  }

  // Both transactions are functions of the reads that they record.
  lemma InvokeReadLocal(req: Request)
    ensures ReadLocal(Code(req))
  {
    hide InvokeNewOrder, InvokePayment, ReadsHold;
    forall d: Db, d': Db | Invoke(req, d).Finished?
      ensures ReadsHold(Invoke(req, d).readSet, d)
      ensures ReadsHold(Invoke(req, d).readSet, d') ==> Invoke(req, d') == Invoke(req, d)
    {
      if req.NewOrderRequest? { NewOrderSame(req, d, d'); } else { PaymentSame(req, d, d'); }
    }
  }
}
