/**
  The TPC-C transactions row by row: what a New-Order does to stock and order lines
  and a Payment to customers, and what follows for stock levels and customer
  balances over every run of batches.
 */
module TpccRows {
  import opened Basics
  import opened Store
  import opened Aria
  import opened Tpcc
  import opened TpccConsistency

  /* ---- Payment ---- */

  // A payment changes four rows and nothing else.
  lemma PaymentRows(req: Request, db: Db)
    requires req.PaymentRequest? && InvokePayment(req, db).Finished?
    ensures var PaymentRequest(w, d, cw, cd, amount, byId, c, last, date) := req;
      var db' := Apply(db, Batch(InvokePayment(req, db).writeSet));
      && HasWarehouse(db, w) && HasDistrict(db, w, d)
      && Payer(req, db).Some? && HasCustomer(db, cw, cd, Payer(req, db).value)
      && var p := Payer(req, db).value;
      && (byId ==> p == c)
      && (!byId ==> Get(db, CustomerByName(cw, cd, last)) == Some(CustomerIndexRow(p)))
      && var house, row, who := db[Warehouse(w)], db[District(w, d)], db[Customer(cw, cd, p)];
      forall k ::
        Get(db', k) ==
          if k == Warehouse(w) then Some(WarehouseRow(house.wTax, house.wYtd + amount))
          else if k == District(w, d) then Some(DistrictRow(row.dTax, row.dYtd + amount, row.nextOrder))
          else if k == Customer(cw, cd, p) then
            Some(CustomerRow(who.discount, who.balance - amount, who.ytdPayment + amount, who.payments + 1.0))
          else if k == History(p, cd, cw, d, w, date) then Some(HistoryRow(amount))
          else Get(db, k)
  {
    hide Apply, Batch;
    var all := InvokePayment(req, db).writeSet;
    OnlyWrite(db, all, 0);
    OnlyWrite(db, all, 1);
    OnlyWrite(db, all, 2);
    OnlyWrite(db, all, 3);
    var db' := Apply(db, Batch(all));
    forall k | k != all[0].key && k != all[1].key && k != all[2].key && k != all[3].key
      ensures Get(db', k) == Get(db, k)
    {
      Unwritten(db, all, k);
    }
  }

  // A payment goes through exactly if its warehouse and district exist, and its
  // customer, by id or as the one that the last name stands for.
  lemma PaymentFinishedIff(req: Request, db: Db)
    requires req.PaymentRequest?
    ensures InvokePayment(req, db).Finished? <==>
      && HasWarehouse(db, req.w) && HasDistrict(db, req.w, req.d)
      && exists p :: HasCustomer(db, req.cw, req.cd, p) &&
           if req.byId then p == req.c
           else Get(db, CustomerByName(req.cw, req.cd, req.last)) == Some(CustomerIndexRow(p))
  {
    if InvokePayment(req, db).Finished? {
      assert HasCustomer(db, req.cw, req.cd, Payer(req, db).value);
    }
  }

  // The reads and writes by which a payment conflicts with others.
  lemma PaymentFootprint(req: Request, db: Db, tid: int)
    requires req.PaymentRequest? && InvokePayment(req, db).Finished?
    ensures Payer(req, db).Some?
    ensures var it, p := Item(tid, InvokePayment(req, db)), Payer(req, db).value;
      && ReadKeys(it) == {Warehouse(req.w), District(req.w, req.d), Customer(req.cw, req.cd, p)} +
           (if req.byId then {} else {CustomerByName(req.cw, req.cd, req.last)})
      && WriteKeys(it) == {Warehouse(req.w), District(req.w, req.d), Customer(req.cw, req.cd, p),
                           History(p, req.cd, req.cw, req.d, req.w, req.date)}
  {
    hide Payer, ReadKeys, WriteKeys;
    var it := Item(tid, InvokePayment(req, db));
    forall k { FewKeys(it, k); }
  }

  /* ---- New-Order ---- */

  // The writes of the lines: a stock row and an order line row for each.
  lemma {:induction false} LineWritesAt(db: Db, w: int, d: int, rate: real, lines: seq<Line>, i: nat)
    requires CollectLines(db, w, d, rate, lines).Collected? && i < |lines|
    ensures LineOk(db, w, lines[i])
    ensures var ws := CollectLines(db, w, d, rate, lines).writeSet;
      |ws| == 2 * |lines| && ws[2 * i..2 * i + 2] == LineWrites(db, w, d, rate, lines[i])
  {
    var front, l := lines[..|lines| - 1], lines[|lines| - 1];
    var ws := CollectLines(db, w, d, rate, front).writeSet;
    LineWritesCount(db, w, d, rate, front);
    if i < |front| {
      LineWritesAt(db, w, d, rate, front, i);
      assert (ws + LineWrites(db, w, d, rate, l))[2 * i..2 * i + 2] == ws[2 * i..2 * i + 2];
    } else {
      assert (ws + LineWrites(db, w, d, rate, l))[2 * i..2 * i + 2] == LineWrites(db, w, d, rate, l);
    }
  }

  lemma {:induction false} LineWritesCount(db: Db, w: int, d: int, rate: real, lines: seq<Line>)
    requires CollectLines(db, w, d, rate, lines).Collected?
    ensures |CollectLines(db, w, d, rate, lines).writeSet| == 2 * |lines|
  {
    if lines != [] { LineWritesCount(db, w, d, rate, lines[..|lines| - 1]); }
  }

  lemma {:induction false} CollectedIff(db: Db, w: int, d: int, rate: real, lines: seq<Line>)
    ensures CollectLines(db, w, d, rate, lines).Collected? <==> forall l :: l in lines ==> LineOk(db, w, l)
  {
    if lines != [] {
      var front, l := lines[..|lines| - 1], lines[|lines| - 1];
      CollectedIff(db, w, d, rate, front);
      assert lines == front + [l];
    }
  }

  // A New-Order goes through exactly if its warehouse, district and customer exist and,
  // for every line, the item, the supplying stock and the home stock of the item.
  lemma NewOrderFinishedIff(req: Request, db: Db)
    requires req.NewOrderRequest?
    ensures InvokeNewOrder(req, db).Finished? <==>
      && HasWarehouse(db, req.w) && HasDistrict(db, req.w, req.d) && HasCustomer(db, req.w, req.d, req.c)
      && forall l :: l in req.lines ==>
           HasItem(db, l.item) && HasStock(db, l.supply, l.item) && HasStock(db, req.w, l.item)
  {
    hide CollectLines, Rate;
    if HasWarehouse(db, req.w) && HasDistrict(db, req.w, req.d) && HasCustomer(db, req.w, req.d, req.c) {
      CollectedIff(db, req.w, req.d,
        Rate(db[Warehouse(req.w)], db[District(req.w, req.d)], db[Customer(req.w, req.d, req.c)]), req.lines);
    }
  }

  // A stock row after a line on it: refilled by 91 when fewer than 10 would remain.
  ghost predicate StockMoved(before: Value, after: Option<Value>, w: int, l: Line) {
    && before.StockRow? && after.Some? && after.value.StockRow?
    && var left := before.inStock - l.quantity;
    && after.value.inStock == (if left >= 10 then left else left + 91)
    && after.value.sold == before.sold + l.quantity && after.value.orders == before.orders + 1
    && after.value.remote == before.remote + if l.supply == w then 0 else 1
  }

  ghost predicate LastOnStock(lines: seq<Line>, i: nat) {
    i < |lines| && forall j :: i < j < |lines| ==> lines[j].supply != lines[i].supply || lines[j].item != lines[i].item
  }

  ghost predicate LastOnNumber(lines: seq<Line>, i: nat) {
    i < |lines| && forall j :: i < j < |lines| ==> lines[j].number != lines[i].number
  }

  // All writes of a New-Order by position.
  lemma NewOrderWritesAt(req: Request, db: Db)
    requires req.NewOrderRequest? && InvokeNewOrder(req, db).Finished?
    ensures HasWarehouse(db, req.w) && HasDistrict(db, req.w, req.d) && HasCustomer(db, req.w, req.d, req.c)
    ensures var all, lines := InvokeNewOrder(req, db).writeSet, req.lines;
      var row := db[District(req.w, req.d)];
      var rate := Rate(db[Warehouse(req.w)], row, db[Customer(req.w, req.d, req.c)]);
      && |all| == 3 + 2 * |lines|
      && all[0] == Set(District(req.w, req.d), row.(nextOrder := row.nextOrder + 1))
      && all[1] == Set(Order(req.w, req.d, row.nextOrder),
                       OrderRow(req.c, |lines|, forall l :: l in lines ==> l.supply == req.w))
      && all[2] == Set(NewOrder(req.w, req.d, row.nextOrder), NewOrderRow)
      && forall i :: 0 <= i < |lines| ==>
           && LineOk(db, req.w, lines[i])
           && [all[3 + 2 * i], all[4 + 2 * i]] == LineWrites(db, req.w, req.d, rate, lines[i])
  {
    hide CollectLines, Rate;
    var NewOrderRequest(w, d, c, lines) := req;
    var rate := Rate(db[Warehouse(w)], db[District(w, d)], db[Customer(w, d, c)]);
    var ws, all := CollectLines(db, w, d, rate, lines).writeSet, InvokeNewOrder(req, db).writeSet;
    LineWritesCount(db, w, d, rate, lines);
    forall i | 0 <= i < |lines|
      ensures LineOk(db, w, lines[i]) && [all[3 + 2 * i], all[4 + 2 * i]] == LineWrites(db, w, d, rate, lines[i])
    {
      LineWritesAt(db, w, d, rate, lines, i);
      assert [all[3 + 2 * i], all[4 + 2 * i]] == ws[2 * i..2 * i + 2];
    }
  }

  // The last write of a key decides it, if nothing is deleted.
  lemma LastWrite(db: Db, all: seq<Write<Key, Value>>, i: nat)
    requires i < |all| && forall j :: 0 <= j < |all| ==> all[j].value.Some?
    requires forall j :: i < j < |all| ==> all[j].key != all[i].key
    ensures Get(Apply(db, Batch(all)), all[i].key) == all[i].value
  {
    var k := all[i].key;
    assert all[i] in all;
    WrittenIs(all, k, i);
    BatchAt(db, all, k);
  }

  // Write p of a New-Order, after the first three, belongs to line (p - 3) / 2.
  ghost predicate WritesLine(x: Write<Key, Value>, w: int, d: int, l: Line, isStock: bool) {
    x.value.Some? && x.key == if isStock then Stock(l.supply, l.item) else OrderLine(w, d, d, l.number)
  }

  lemma LineWritten(req: Request, db: Db, i: nat)
    requires req.NewOrderRequest? && InvokeNewOrder(req, db).Finished? && i < |req.lines|
    ensures HasWarehouse(db, req.w) && HasDistrict(db, req.w, req.d) && HasCustomer(db, req.w, req.d, req.c)
    ensures var all, l := InvokeNewOrder(req, db).writeSet, req.lines[i];
      var rate := Rate(db[Warehouse(req.w)], db[District(req.w, req.d)], db[Customer(req.w, req.d, req.c)]);
      && |all| == 3 + 2 * |req.lines| && LineOk(db, req.w, l)
      && all[3 + 2 * i] == Set(Stock(l.supply, l.item), StockAfter(db[Stock(l.supply, l.item)], req.w, l))
      && all[4 + 2 * i] ==
           Set(OrderLine(req.w, req.d, req.d, l.number),
               OrderLineRow(l.item, l.supply, l.quantity, LineAmount(l.quantity, db[ItemKey(l.item)].price, rate)))
  {
    hide InvokeNewOrder, Rate, LineAmount, StockAfter, LineOk;
    NewOrderWritesAt(req, db);
    var all, l := InvokeNewOrder(req, db).writeSet, req.lines[i];
    var pair := [all[3 + 2 * i], all[4 + 2 * i]];
    assert pair[0] == all[3 + 2 * i] && pair[1] == all[4 + 2 * i];
  }

  lemma WriteOf(req: Request, db: Db, p: nat)
    requires req.NewOrderRequest? && InvokeNewOrder(req, db).Finished?
    ensures var all := InvokeNewOrder(req, db).writeSet;
      && |all| == 3 + 2 * |req.lines|
      && (p < 3 ==> all[p].value.Some? && !all[p].key.Stock? && !all[p].key.OrderLine?)
      && (3 <= p < |all| ==> WritesLine(all[p], req.w, req.d, req.lines[(p - 3) / 2], p % 2 == 1))
  {
    hide InvokeNewOrder, Rate, LineAmount, StockAfter, LineOk;
    NewOrderWritesAt(req, db);
    var all := InvokeNewOrder(req, db).writeSet;
    if 3 <= p < |all| {
      var i := (p - 3) / 2;
      LineWritten(req, db, i);
      assert p == 3 + 2 * i || p == 4 + 2 * i;
    }
  }

  // The stock row of the last line on it, from what was there before the order.
  lemma StockAfterOrder(req: Request, db: Db, i: nat)
    requires req.NewOrderRequest? && InvokeNewOrder(req, db).Finished? && LastOnStock(req.lines, i)
    ensures var db', l := Apply(db, Batch(InvokeNewOrder(req, db).writeSet)), req.lines[i];
      HasStock(db, l.supply, l.item) &&
      StockMoved(db[Stock(l.supply, l.item)], Get(db', Stock(l.supply, l.item)), req.w, l)
  {
    hide InvokeNewOrder, Apply, Batch, Rate, LineAmount;
    LineWritten(req, db, i);
    var all, l := InvokeNewOrder(req, db).writeSet, req.lines[i];
    forall p | 0 <= p < |all|
      ensures all[p].value.Some? && (3 + 2 * i < p ==> all[p].key != Stock(l.supply, l.item))
    {
      WriteOf(req, db, p);
    }
    LastWrite(db, all, 3 + 2 * i);
  }

  // The price of all pieces with both taxes, less the discount.
  function FullPrice(quantity: int, price: real, wTax: real, dTax: real, discount: real): real {
    quantity as real * price * ((1.0 + wTax + dTax) * (1.0 - discount))
  }

  lemma AmountIs(house: Value, row: Value, who: Value, quantity: int, price: real)
    requires house.WarehouseRow? && row.DistrictRow? && who.CustomerRow?
    ensures LineAmount(quantity, price, Rate(house, row, who)) ==
      FullPrice(quantity, price, house.wTax, row.dTax, who.discount)
  {
  }

  // The order line row of the last line with its number: the amount is the price of
  // all pieces with the taxes of warehouse and district, less the customer's discount.
  lemma LineAfterOrder(req: Request, db: Db, i: nat)
    requires req.NewOrderRequest? && InvokeNewOrder(req, db).Finished? && LastOnNumber(req.lines, i)
    ensures HasWarehouse(db, req.w) && HasDistrict(db, req.w, req.d) && HasCustomer(db, req.w, req.d, req.c)
    ensures var db', l := Apply(db, Batch(InvokeNewOrder(req, db).writeSet)), req.lines[i];
      var house, row, who := db[Warehouse(req.w)], db[District(req.w, req.d)], db[Customer(req.w, req.d, req.c)];
      && HasItem(db, l.item)
      && var amount := FullPrice(l.quantity, db[ItemKey(l.item)].price, house.wTax, row.dTax, who.discount);
      Get(db', OrderLine(req.w, req.d, req.d, l.number)) == Some(OrderLineRow(l.item, l.supply, l.quantity, amount))
  {
    hide InvokeNewOrder, Apply, Batch, StockAfter, Rate, LineAmount, FullPrice;
    LineWritten(req, db, i);
    var all, l := InvokeNewOrder(req, db).writeSet, req.lines[i];
    var house, row, who := db[Warehouse(req.w)], db[District(req.w, req.d)], db[Customer(req.w, req.d, req.c)];
    AmountIs(house, row, who, l.quantity, db[ItemKey(l.item)].price);
    forall p | 0 <= p < |all|
      ensures all[p].value.Some? && (4 + 2 * i < p ==> all[p].key != OrderLine(req.w, req.d, req.d, l.number))
    {
      WriteOf(req, db, p);
    }
    LastWrite(db, all, 4 + 2 * i);
  }

  // The rows that the lines of an order name.
  ghost predicate OfLines(req: Request, k: Key)
    requires req.NewOrderRequest?
  {
    exists l :: l in req.lines && (k == Stock(l.supply, l.item) || k == OrderLine(req.w, req.d, req.d, l.number))
  }

  lemma OtherWrites(req: Request, db: Db, p: nat)
    requires req.NewOrderRequest? && InvokeNewOrder(req, db).Finished?
    ensures var all := InvokeNewOrder(req, db).writeSet;
      3 <= p < |all| ==> OfLines(req, all[p].key) && (all[p].key.Stock? || all[p].key.OrderLine?)
  {
    hide InvokeNewOrder;
    WriteOf(req, db, p);
    if 3 <= p < |InvokeNewOrder(req, db).writeSet| {
      assert req.lines[(p - 3) / 2] in req.lines;
    }
  }

  // The rows of a New-Order, apart from stock and lines: the district moves on, and
  // the order is entered with its customer, its number of lines and whether all are local.
  lemma NewOrderRows(req: Request, db: Db)
    requires req.NewOrderRequest? && InvokeNewOrder(req, db).Finished?
    ensures HasDistrict(db, req.w, req.d)
    ensures var db', row := Apply(db, Batch(InvokeNewOrder(req, db).writeSet)), db[District(req.w, req.d)];
      forall k :: !OfLines(req, k) ==>
        Get(db', k) ==
          if k == District(req.w, req.d) then Some(DistrictRow(row.dTax, row.dYtd, row.nextOrder + 1))
          else if k == Order(req.w, req.d, row.nextOrder) then
            Some(OrderRow(req.c, |req.lines|, forall l :: l in req.lines ==> l.supply == req.w))
          else if k == NewOrder(req.w, req.d, row.nextOrder) then Some(NewOrderRow)
          else Get(db, k)
  {
    hide InvokeNewOrder, Apply, Batch, Rate, OfLines, LineWrites;
    NewOrderWritesAt(req, db);
    var all := InvokeNewOrder(req, db).writeSet;
    forall p | 3 <= p < |all| ensures OfLines(req, all[p].key) && (all[p].key.Stock? || all[p].key.OrderLine?) {
      OtherWrites(req, db, p);
    }
    OnlyWrite(db, all, 0);
    OnlyWrite(db, all, 1);
    OnlyWrite(db, all, 2);
    forall k | !OfLines(req, k) && k != all[0].key && k != all[1].key && k != all[2].key
      ensures Get(Apply(db, Batch(all)), k) == Get(db, k)
    {
      Unwritten(db, all, k);
    }
  }

  ghost predicate IsRead(rs: seq<Read<Key, Value>>, k: Key) {
    exists r :: r in rs && r.key == k
  }

  // The rows that the lines have to read: the item, the supplying and the home stock.
  ghost predicate LinesNeed(lines: seq<Line>, w: int, k: Key) {
    exists l :: l in lines && (k == ItemKey(l.item) || k == Stock(l.supply, l.item) || k == Stock(w, l.item))
  }

  lemma IsReadConcat(a: seq<Read<Key, Value>>, b: seq<Read<Key, Value>>, k: Key)
    ensures IsRead(a + b, k) <==> IsRead(a, k) || IsRead(b, k)
  {
    assert forall r :: r in a + b <==> r in a || r in b;
  }

  lemma LinesNeedMore(front: seq<Line>, l: Line, w: int, k: Key)
    ensures LinesNeed(front + [l], w, k) <==>
      LinesNeed(front, w, k) || k == ItemKey(l.item) || k == Stock(l.supply, l.item) || k == Stock(w, l.item)
  {
    assert forall m :: m in front + [l] <==> m in front || m == l;
  }

  lemma {:induction false} LinesRead(db: Db, w: int, d: int, rate: real, lines: seq<Line>, k: Key)
    requires CollectLines(db, w, d, rate, lines).Collected?
    ensures IsRead(CollectLines(db, w, d, rate, lines).readSet, k) <==> LinesNeed(lines, w, k)
  {
    if lines != [] {
      hide IsRead, LinesNeed, LineReads, LineWrites, LineOk;
      var front, l := lines[..|lines| - 1], lines[|lines| - 1];
      LinesRead(db, w, d, rate, front, k);
      LineRead(db, w, l, k);
      IsReadConcat(CollectLines(db, w, d, rate, front).readSet, LineReads(db, w, l), k);
      LinesNeedMore(front, l, w, k);
      assert lines == front + [l];
    }
  }

  lemma LineRead(db: Db, w: int, l: Line, k: Key)
    requires LineOk(db, w, l)
    ensures IsRead(LineReads(db, w, l), k) <==>
      k == ItemKey(l.item) || k == Stock(l.supply, l.item) || k == Stock(w, l.item)
  {
    var rs := LineReads(db, w, l);
    assert rs[0] in rs && rs[1] in rs && (|rs| == 3 ==> rs[2] in rs);
  }

  // The reads by which a New-Order conflicts with others: the warehouse, the district,
  // the customer, and for every line the item and both stocks.
  lemma NewOrderReads(req: Request, db: Db, tid: int, k: Key)
    requires req.NewOrderRequest? && InvokeNewOrder(req, db).Finished?
    ensures k in ReadKeys(Item(tid, InvokeNewOrder(req, db))) <==>
      || k == Warehouse(req.w) || k == District(req.w, req.d) || k == Customer(req.w, req.d, req.c)
      || LinesNeed(req.lines, req.w, k)
  {
    hide CollectLines, Rate, LinesNeed;
    var NewOrderRequest(w, d, c, lines) := req;
    var rate := Rate(db[Warehouse(w)], db[District(w, d)], db[Customer(w, d, c)]);
    LinesRead(db, w, d, rate, lines, k);
    var head := [RowRead(db, Warehouse(w)), RowRead(db, District(w, d)), RowRead(db, Customer(w, d, c))];
    var rs, all := CollectLines(db, w, d, rate, lines).readSet, InvokeNewOrder(req, db).readSet;
    assert all == head + rs;
    IsReadConcat(head, rs, k);
    assert head[0] in head && head[1] in head && head[2] in head;
  }

  // And its writes: the district, the order, the new order, and the rows of the lines.
  lemma NewOrderWriteKeys(req: Request, db: Db, tid: int, k: Key)
    requires req.NewOrderRequest? && InvokeNewOrder(req, db).Finished?
    ensures HasDistrict(db, req.w, req.d)
    ensures var o := db[District(req.w, req.d)].nextOrder;
      k in WriteKeys(Item(tid, InvokeNewOrder(req, db))) <==>
        k == District(req.w, req.d) || k == Order(req.w, req.d, o) || k == NewOrder(req.w, req.d, o) || OfLines(req, k)
  {
    hide InvokeNewOrder, Rate, LineAmount, StockAfter, OfLines, LineWrites;
    NewOrderWritesAt(req, db);
    var all := InvokeNewOrder(req, db).writeSet;
    forall p | 3 <= p < |all| ensures OfLines(req, all[p].key) { OtherWrites(req, db, p); }
    assert all[0] in all && all[1] in all && all[2] in all;
    if OfLines(req, k) { LineKeyWritten(req, db, k); }
  }

  lemma LineKeyWritten(req: Request, db: Db, k: Key)
    requires req.NewOrderRequest? && InvokeNewOrder(req, db).Finished? && OfLines(req, k)
    ensures exists x :: x in InvokeNewOrder(req, db).writeSet && x.key == k
  {
    hide InvokeNewOrder, Rate, LineAmount, StockAfter;
    var l :| l in req.lines && (k == Stock(l.supply, l.item) || k == OrderLine(req.w, req.d, req.d, l.number));
    var i :| 0 <= i < |req.lines| && req.lines[i] == l;
    LineWritten(req, db, i);
    var all := InvokeNewOrder(req, db).writeSet;
    assert all[3 + 2 * i] in all && all[4 + 2 * i] in all;
  }

  /* ---- two lines on the same stock ---- */

  predicate SameStock(l: Line, m: Line) {
    l.supply == m.supply && l.item == m.item
  }

  // What the lines order from the stock of line l together.
  function Ordered(lines: seq<Line>, l: Line): int {
    if lines == [] then 0
    else Ordered(lines[..|lines| - 1], l) + if SameStock(lines[|lines| - 1], l) then lines[|lines| - 1].quantity else 0
  }

  lemma {:induction false} OrderedBounds(lines: seq<Line>, l: Line)
    requires forall j :: 0 <= j < |lines| ==> lines[j].quantity > 0
    ensures Ordered(lines, l) >= 0
    ensures Ordered(lines, l) == 0 <==> forall j :: 0 <= j < |lines| ==> !SameStock(lines[j], l)
  {
    if lines != [] { OrderedBounds(lines[..|lines| - 1], l); }
  }

  lemma {:induction false} OrderedFromLast(lines: seq<Line>, i: nat)
    requires LastOnStock(lines, i)
    ensures Ordered(lines, lines[i]) == Ordered(lines[..i], lines[i]) + lines[i].quantity
  {
    var n := |lines| - 1;
    if i < n {
      assert lines[..n][..i] == lines[..i];
      OrderedFromLast(lines[..n], i);
    }
  }

  // Reads see the store and not the writes of the same transaction, so of several
  // lines on one stock only the last one is counted: the stock sells what was ordered
  // exactly if no earlier line is on it.
  lemma SoldIff(req: Request, db: Db, i: nat)
    requires req.NewOrderRequest? && InvokeNewOrder(req, db).Finished? && LastOnStock(req.lines, i)
    requires forall j :: 0 <= j < |req.lines| ==> req.lines[j].quantity > 0
    ensures var db', l := Apply(db, Batch(InvokeNewOrder(req, db).writeSet)), req.lines[i];
      && HasStock(db, l.supply, l.item) && HasStock(db', l.supply, l.item)
      && var k := Stock(l.supply, l.item);
      (db'[k].sold == db[k].sold + Ordered(req.lines, l) <==>
         forall j :: 0 <= j < |req.lines| && j != i ==> !SameStock(req.lines[j], l))
  {
    hide InvokeNewOrder, Apply, Batch, Ordered;
    StockAfterOrder(req, db, i);
    OrderedFromLast(req.lines, i);
    OrderedBounds(req.lines[..i], req.lines[i]);
  }

  /* ---- over every run ---- */

  // No stock is below 10.
  ghost predicate StockOk(db: Db) {
    forall s, i :: HasStock(db, s, i) ==> db[Stock(s, i)].inStock >= 10
  }

  // Lines order at most 91 pieces each.
  ghost predicate Modest(req: Request) {
    req.NewOrderRequest? ==> forall l :: l in req.lines ==> l.quantity <= 91
  }

  // Customers stay, and what each one owes plus what each one has paid stays the same.
  ghost predicate CustomersKept(db: Db, db': Db) {
    forall w, d, c ::
      && (HasCustomer(db', w, d, c) <==> HasCustomer(db, w, d, c))
      && (HasCustomer(db, w, d, c) ==>
            var k := Customer(w, d, c);
            db'[k].balance + db'[k].ytdPayment == db[k].balance + db[k].ytdPayment)
  }

  lemma {:induction false} LastLine(lines: seq<Line>, l: Line) returns (i: nat)
    requires l in lines
    ensures LastOnStock(lines, i) && SameStock(lines[i], l)
  {
    i := |lines| - 1;
    if !SameStock(lines[i], l) {
      assert lines == lines[..i] + [lines[i]];
      i := LastLine(lines[..i], l);
    }
  }

  lemma NewOrderKeeps(req: Request, db: Db)
    requires req.NewOrderRequest? && InvokeNewOrder(req, db).Finished?
    ensures var db' := Apply(db, Batch(InvokeNewOrder(req, db).writeSet));
      CustomersKept(db, db') && (StockOk(db) && Modest(req) ==> StockOk(db'))
  {
    hide InvokeNewOrder, Apply, Batch;
    var db' := Apply(db, Batch(InvokeNewOrder(req, db).writeSet));
    NewOrderRows(req, db);
    forall w, d, c ensures Get(db', Customer(w, d, c)) == Get(db, Customer(w, d, c)) {
      assert !OfLines(req, Customer(w, d, c));
    }
    if StockOk(db) && Modest(req) {
      forall s, j | HasStock(db', s, j) ensures db'[Stock(s, j)].inStock >= 10 {
        if OfLines(req, Stock(s, j)) {
          var l :| l in req.lines && Stock(s, j) == Stock(l.supply, l.item);
          var i := LastLine(req.lines, l);
          assert req.lines[i] in req.lines;
          StockAfterOrder(req, db, i);
        } else {
          assert Get(db', Stock(s, j)) == Get(db, Stock(s, j));
        }
      }
    }
  }

  lemma PaymentKeeps(req: Request, db: Db)
    requires req.PaymentRequest? && InvokePayment(req, db).Finished?
    ensures var db' := Apply(db, Batch(InvokePayment(req, db).writeSet));
      CustomersKept(db, db') && (StockOk(db) ==> StockOk(db'))
  {
    hide InvokePayment, Apply, Batch, Payer;
    var db' := Apply(db, Batch(InvokePayment(req, db).writeSet));
    PaymentRows(req, db);
    var p := Payer(req, db).value;
    assert forall s, j :: Get(db', Stock(s, j)) == Get(db, Stock(s, j));
    forall w, d, c
      ensures HasCustomer(db', w, d, c) <==> HasCustomer(db, w, d, c)
      ensures HasCustomer(db, w, d, c) ==>
        var k := Customer(w, d, c);
        db'[k].balance + db'[k].ytdPayment == db[k].balance + db[k].ytdPayment
    {
      var k, who := Customer(w, d, c), db[Customer(req.cw, req.cd, p)];
      assert k != Customer(req.cw, req.cd, p) ==> Get(db', k) == Get(db, k);
      assert k == Customer(req.cw, req.cd, p) ==>
        Get(db', k) == Some(CustomerRow(who.discount, who.balance - req.amount, who.ytdPayment + req.amount,
                                        who.payments + 1.0));
    }
  }

  lemma CustomersKeptTransitive(a: Db, b: Db, c: Db)
    requires CustomersKept(a, b) && CustomersKept(b, c)
    ensures CustomersKept(a, c)
  {
  }

  lemma {:induction false} SerialKeeps(db: Db, reqs: seq<Tagged>, order: seq<nat>)
    ensures var d := RunSerially(db, Txns(reqs), order);
      && CustomersKept(db, d)
      && (StockOk(db) && (forall i :: 0 <= i < |reqs| ==> Modest(reqs[i].req)) ==> StockOk(d))
  {
    hide CustomersKept, StockOk, InvokeNewOrder, InvokePayment, Apply, Batch, Modest;
    if order == [] {
      CustomersStay(db);
    } else {
      var front, i := order[..|order| - 1], order[|order| - 1];
      SerialKeeps(db, reqs, front);
      var d := RunSerially(db, Txns(reqs), front);
      if i < |reqs| && Invoke(reqs[i].req, d).Finished? {
        if reqs[i].req.NewOrderRequest? { NewOrderKeeps(reqs[i].req, d); } else { PaymentKeeps(reqs[i].req, d); }
        CustomersKeptTransitive(db, d, Apply(d, Batch(Invoke(reqs[i].req, d).writeSet)));
      }
    }
  }

  lemma CustomersStay(db: Db)
    ensures CustomersKept(db, db)
  {
  }

  lemma BatchKeeps(db: Db, reqs: seq<Tagged>, db': Db)
    requires DistinctTids(Execute(db, Txns(reqs))) && BatchResult(db, Execute(db, Txns(reqs)), db')
    ensures CustomersKept(db, db')
    ensures StockOk(db) && (forall i :: 0 <= i < |reqs| ==> Modest(reqs[i].req)) ==> StockOk(db')
  {
    hide CustomersKept, StockOk, Modest, ReadLocal, BatchResult, Commits, Invoke;
    var batch := Txns(reqs);
    forall i | 0 <= i < |batch| ensures ReadLocal(batch[i].code) {
      InvokeReadLocal(reqs[i].req);
    }
    var order := SerialOrderExists(Execute(db, batch));
    Serializable(db, batch, order, db');
    SerialKeeps(db, reqs, order);
  }

  // Over every run of batches, a customer's balance and payments add up to what they
  // did at the start, and stock that starts with at least 10 pieces never falls below.
  lemma {:induction false} RunKeeps(batches: seq<seq<Tagged>>, dbs: seq<Db>, m: nat)
    requires |dbs| == |batches| + 1 && m <= |batches|
    requires forall b :: 0 <= b < |batches| ==>
      && DistinctTids(Execute(dbs[b], Txns(batches[b])))
      && BatchResult(dbs[b], Execute(dbs[b], Txns(batches[b])), dbs[b + 1])
    ensures CustomersKept(dbs[0], dbs[m])
    ensures (forall b :: 0 <= b < |batches| ==> forall i :: 0 <= i < |batches[b]| ==> Modest(batches[b][i].req)) ==>
      StockOk(dbs[0]) ==> StockOk(dbs[m])
  {
    hide CustomersKept, StockOk, Modest, BatchResult, DistinctTids;
    if m == 0 {
      CustomersStay(dbs[0]);
    } else {
      RunKeeps(batches, dbs, m - 1);
      BatchKeeps(dbs[m - 1], batches[m - 1], dbs[m]);
      CustomersKeptTransitive(dbs[0], dbs[m - 1], dbs[m]);
    }
  }
}
