/**
  What becomes of order lines. They are keyed with the district id in the place
  of the order id, so all orders of a district share one set of line numbers.
 */
module TpccLines {
  import opened Store
  import opened Tpcc

  // The order lines that the store holds for a district.
  ghost function LineRows(db: Db, w: int, d: int): set<Key> {
    set k | k in db.Keys && k.OrderLine? && k.w == w && k.d == d
  }

  // The rows that a New-Order writes its lines to.
  ghost function NewRows(req: Request): set<Key>
    requires req.NewOrderRequest?
  {
    set l | l in req.lines :: OrderLine(req.w, req.d, req.d, l.number)
  }

  // A row that was written for one of the lines.
  ghost predicate RowOfLine(lines: seq<Line>, number: int, row: Value) {
    row.OrderLineRow? && exists l ::
      l in lines && l.number == number && l.item == row.item && l.supply == row.supply && l.quantity == row.quantity
  }

  /* ---- the writes ---- */

  lemma {:induction false} LineWritesAre(db: Db, w: int, d: int, rate: real, lines: seq<Line>)
    requires CollectLines(db, w, d, rate, lines).Collected?
    ensures var ws := CollectLines(db, w, d, rate, lines).writeSet;
      && (forall x :: x in ws && x.key.OrderLine? ==>
            && x.key.w == w && x.key.d == d && x.key.o == d && x.value.Some?
            && RowOfLine(lines, x.key.number, x.value.value))
      && (forall l :: l in lines ==> OrderLine(w, d, d, l.number) in Keys(ws))
  {
    if lines != [] {
      var front, l := lines[..|lines| - 1], lines[|lines| - 1];
      LineWritesAre(db, w, d, rate, front);
      var ws, ws' := CollectLines(db, w, d, rate, front).writeSet, CollectLines(db, w, d, rate, lines).writeSet;
      var more := LineWrites(db, w, d, rate, l);
      assert ws' == ws + more && lines == front + [l];
      assert more[1] in ws';
      forall x | x in ws' && x.key.OrderLine? ensures RowOfLineWrite(w, d, lines, x) {
        if x in ws {
          MoreLines(front, l, x.key.number, x.value.value);
        } else {
          assert x == more[1];
          assert l in lines;
        }
      }
      forall m | m in lines ensures OrderLine(w, d, d, m.number) in Keys(ws') {
        if m in front {
          var x :| x in ws && x.key == OrderLine(w, d, d, m.number);
          assert x in ws';
        }
      }
    }
  }

  ghost predicate RowOfLineWrite(w: int, d: int, lines: seq<Line>, x: Write<Key, Value>)
    requires x.key.OrderLine?
  {
    x.key.w == w && x.key.d == d && x.key.o == d && x.value.Some? && RowOfLine(lines, x.key.number, x.value.value)
  }

  lemma MoreLines(front: seq<Line>, l: Line, number: int, row: Value)
    requires RowOfLine(front, number, row)
    ensures RowOfLine(front + [l], number, row)
  {
    var m :| m in front && m.number == number && m.item == row.item && m.supply == row.supply &&
      m.quantity == row.quantity;
    assert m in front + [l];
  }

  lemma NewOrderLineWrites(req: Request, db: Db)
    requires req.NewOrderRequest? && InvokeNewOrder(req, db).Finished?
    ensures var all := InvokeNewOrder(req, db).writeSet;
      && (forall x :: x in all && x.key.OrderLine? ==> RowOfLineWrite(req.w, req.d, req.lines, x))
      && (forall l :: l in req.lines ==> OrderLine(req.w, req.d, req.d, l.number) in Keys(all))
  {
    hide CollectLines;
    var NewOrderRequest(w, d, c, lines) := req;
    var rate := Rate(db[Warehouse(w)], db[District(w, d)], db[Customer(w, d, c)]);
    LineWritesAre(db, w, d, rate, lines);
    var ws, all := CollectLines(db, w, d, rate, lines).writeSet, InvokeNewOrder(req, db).writeSet;
    forall x | x in all && x.key.OrderLine? ensures x in ws {}
    forall x | x in ws ensures x in all {}
  }

  /* ---- one New-Order ---- */

  // The rows it names hold lines of this order; every other line row stays.
  lemma NewOrderLines(req: Request, db: Db)
    requires req.NewOrderRequest? && InvokeNewOrder(req, db).Finished?
    ensures var db' := Apply(db, Batch(InvokeNewOrder(req, db).writeSet));
      && (forall k :: k in NewRows(req) ==> k in db' && RowOfLine(req.lines, k.number, db'[k]))
      && (forall k: Key :: k.OrderLine? && k !in NewRows(req) ==> Get(db', k) == Get(db, k))
  {
    hide InvokeNewOrder, Apply, Batch, Written;
    var all := InvokeNewOrder(req, db).writeSet;
    var db' := Apply(db, Batch(all));
    NewOrderLineWrites(req, db);
    forall k | k in NewRows(req) ensures k in db' && RowOfLine(req.lines, k.number, db'[k]) {
      WrittenFrom(all, k);
      BatchAt(db, all, k);
      assert RowOfLineWrite(req.w, req.d, req.lines, Write(k, Written(all, k)));
    }
    forall k: Key | k.OrderLine? && k !in NewRows(req) ensures Get(db', k) == Get(db, k) {
      BatchAt(db, all, k);
    }
  }

  // So the district gets as many more rows as the order has line numbers exactly
  // when none of these numbers is in use; otherwise earlier lines are lost.
  lemma LinesKeptIff(req: Request, db: Db)
    requires req.NewOrderRequest? && InvokeNewOrder(req, db).Finished?
    ensures var db' := Apply(db, Batch(InvokeNewOrder(req, db).writeSet));
      && LineRows(db', req.w, req.d) == LineRows(db, req.w, req.d) + NewRows(req)
      && (|LineRows(db', req.w, req.d)| == |LineRows(db, req.w, req.d)| + |NewRows(req)| <==>
        LineRows(db, req.w, req.d) !! NewRows(req))
  {
    hide InvokeNewOrder, Apply, Batch;
    NewOrderLines(req, db);
    var db' := Apply(db, Batch(InvokeNewOrder(req, db).writeSet));
    var before, after, rows := LineRows(db, req.w, req.d), LineRows(db', req.w, req.d), NewRows(req);
    forall k: Key ensures k in after <==> k in before || k in rows {
      if k.OrderLine? && k !in rows { assert Get(db', k) == Get(db, k); }
    }
    assert after == before + rows;
    assert |before + rows| + |before * rows| == |before| + |rows|;
  }

  // Two New-Orders of a district, one after the other, starting without lines:
  // the district ends up with the union of their line numbers, and a number that
  // both use holds a line of the second order.
  lemma TwoOrdersShareLines(first: Request, second: Request, db: Db)
    requires first.NewOrderRequest? && second.NewOrderRequest? && first.w == second.w && first.d == second.d
    requires LineRows(db, first.w, first.d) == {} && InvokeNewOrder(first, db).Finished?
    ensures var db1 := Apply(db, Batch(InvokeNewOrder(first, db).writeSet));
      InvokeNewOrder(second, db1).Finished? ==>
        var db2 := Apply(db1, Batch(InvokeNewOrder(second, db1).writeSet));
        && LineRows(db2, first.w, first.d) == NewRows(first) + NewRows(second)
        && (|LineRows(db2, first.w, first.d)| == |NewRows(first)| + |NewRows(second)| <==>
          NewRows(first) !! NewRows(second))
        && (forall k :: k in NewRows(first) && k in NewRows(second) ==>
          k in db2 && RowOfLine(second.lines, k.number, db2[k]))
  {
    hide InvokeNewOrder, Apply, Batch, LineRows, NewRows, RowOfLine;
    LinesKeptIff(first, db);
    var db1 := Apply(db, Batch(InvokeNewOrder(first, db).writeSet));
    if InvokeNewOrder(second, db1).Finished? {
      LinesKeptIff(second, db1);
      NewOrderLines(second, db1);
    }
  }
}
