/**
  The TPC-C transactions as they use the ORM, row by row.
 */
module TpccProcedures {
  import opened Basics
  import opened Chaincode
  import opened Tpcc

  // getValue: a miss fails, a hit is recorded.
  method GetRow(orm: Orm<Key, Value>, k: Key) returns (v: Option<Value>)
    modifies orm`readSet
    ensures v == Store.Get(orm.db, k)
    ensures v.Some? ==> k in orm.db && orm.readSet == old(orm.readSet) + [RowRead(orm.db, k)]
  {
    v := orm.Get(k);
  }

  // One order line: read the item and the stock, update the stock, add the line.
  method ExecuteLine(orm: Orm<Key, Value>, w: int, d: int, rate: real, l: Line) returns (ok: bool)
    modifies orm
    ensures ok == LineOk(orm.db, w, l)
    ensures ok ==> orm.readSet == old(orm.readSet) + LineReads(orm.db, w, l)
    ensures ok ==> orm.writeSet == old(orm.writeSet) + LineWrites(orm.db, w, d, rate, l)
  {
    var item := GetRow(orm, ItemKey(l.item));
    if item.None? || !item.value.ItemRow? { return false; }
    var stock := GetRow(orm, Stock(l.supply, l.item));
    if stock.None? || !stock.value.StockRow? { return false; }
    var s := stock.value;
    var quantity := s.inStock;
    if quantity >= l.quantity + 10 {
      quantity := quantity - l.quantity;
    } else {
      quantity := quantity + (91 - l.quantity);
    }
    var remote := s.remote;
    if l.supply != w {
      remote := remote + 1;
    }
    orm.Put(Stock(l.supply, l.item), StockRow(quantity, s.sold + l.quantity, s.orders + 1, remote));
    if l.supply != w {
      var home := GetRow(orm, Stock(w, l.item));
      if home.None? || !home.value.StockRow? { return false; }
    }
    orm.Put(OrderLine(w, d, d, l.number),
      OrderLineRow(l.item, l.supply, l.quantity, LineAmount(l.quantity, item.value.price, rate)));
    return true;
  }

  // All order lines, in order, up to the first that fails.
  method ExecuteLines(orm: Orm<Key, Value>, w: int, d: int, rate: real, lines: seq<Line>) returns (ok: bool)
    modifies orm
    ensures ok == CollectLines(orm.db, w, d, rate, lines).Collected?
    ensures ok ==> orm.readSet == old(orm.readSet) + CollectLines(orm.db, w, d, rate, lines).readSet
    ensures ok ==> orm.writeSet == old(orm.writeSet) + CollectLines(orm.db, w, d, rate, lines).writeSet
  {
    for i := 0 to |lines|
      invariant CollectLines(orm.db, w, d, rate, lines[..i]).Collected?
      invariant orm.readSet == old(orm.readSet) + CollectLines(orm.db, w, d, rate, lines[..i]).readSet
      invariant orm.writeSet == old(orm.writeSet) + CollectLines(orm.db, w, d, rate, lines[..i]).writeSet
    {
      assert lines[..i + 1][..i] == lines[..i];
      ok := ExecuteLine(orm, w, d, rate, lines[i]);
      if !ok {
        FailedStays(orm.db, w, d, rate, lines, i + 1);
        return;
      }
    }
    assert lines[..|lines|] == lines;
    return true;
  }

  method OnlyHomeLines(w: int, lines: seq<Line>) returns (allLocal: bool)
    ensures allLocal <==> forall l :: l in lines ==> l.supply == w
  {
    allLocal := true;
    for i := 0 to |lines|
      invariant allLocal <==> forall j :: 0 <= j < i ==> lines[j].supply == w
    {
      if lines[i].supply != w {
        allLocal := false;
      }
    }
  }

  method ExecuteNewOrder(orm: Orm<Key, Value>, w: int, d: int, c: int, lines: seq<Line>) returns (ok: bool)
    requires orm.readSet == [] && orm.writeSet == []
    modifies orm
    ensures Leaves(orm, ok, InvokeNewOrder(NewOrderRequest(w, d, c, lines), orm.db))
  {
    hide CollectLines, Rate;
    var warehouse := GetRow(orm, Warehouse(w));
    if warehouse.None? || !warehouse.value.WarehouseRow? { return false; }
    var row := GetRow(orm, District(w, d));
    if row.None? || !row.value.DistrictRow? { return false; }
    var district := row.value;
    var o := district.nextOrder;
    orm.Put(District(w, d), DistrictRow(district.dTax, district.dYtd, o + 1));
    var customer := GetRow(orm, Customer(w, d, c));
    if customer.None? || !customer.value.CustomerRow? { return false; }
    var allLocal := OnlyHomeLines(w, lines);
    orm.Put(Order(w, d, o), OrderRow(c, |lines|, allLocal));
    orm.Put(NewOrder(w, d, o), NewOrderRow);
    ok := ExecuteLines(orm, w, d, Rate(warehouse.value, district, customer.value), lines);
  }

  // An order fails as soon as one of its lines does.
  lemma {:induction false} FailedStays(db: Db, w: int, d: int, rate: real, lines: seq<Line>, i: nat)
    requires i <= |lines| && CollectLines(db, w, d, rate, lines[..i]).Failed?
    ensures CollectLines(db, w, d, rate, lines).Failed?
    decreases |lines|
  {
    if i == |lines| {
      assert lines[..i] == lines;
    } else {
      var front := lines[..|lines| - 1];
      assert front[..i] == lines[..i];
      FailedStays(db, w, d, rate, front, i);
    }
  }

  method ExecutePayment(orm: Orm<Key, Value>, w: int, d: int, cw: int, cd: int, amount: real, byId: bool, c: int,
                        last: string, date: int)
    returns (ok: bool)
    requires orm.readSet == [] && orm.writeSet == []
    modifies orm
    ensures Leaves(orm, ok, InvokePayment(PaymentRequest(w, d, cw, cd, amount, byId, c, last, date), orm.db))
  {
    var warehouse := GetRow(orm, Warehouse(w));
    if warehouse.None? || !warehouse.value.WarehouseRow? { return false; }
    orm.Put(Warehouse(w), warehouse.value.(wYtd := warehouse.value.wYtd + amount));
    var district := GetRow(orm, District(w, d));
    if district.None? || !district.value.DistrictRow? { return false; }
    orm.Put(District(w, d), district.value.(dYtd := district.value.dYtd + amount));
    var cId := c;
    if !byId {
      var index := GetRow(orm, CustomerByName(cw, cd, last));
      if index.None? || !index.value.CustomerIndexRow? { return false; }
      cId := index.value.customer;
    }
    var customer := GetRow(orm, Customer(cw, cd, cId));
    if customer.None? || !customer.value.CustomerRow? { return false; }
    var v := customer.value;
    orm.Put(Customer(cw, cd, cId),
      CustomerRow(v.discount, v.balance - amount, v.ytdPayment + amount, v.payments + 1.0));
    orm.Put(History(cId, cd, cw, d, w, date), HistoryRow(amount));
    return true;
  }
}
