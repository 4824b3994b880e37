/**
  The read-only reports of canteen-automation-backend/server.js over the orders
  table: GET /daily-wastage (a LEFT JOIN of prepared quantities against the
  day's orders) and GET /api/dailyMetrics (three aggregates whose NULLs the
  handler turns into zeros).
*/
module Reports {
  import opened Wrappers
  import opened OrderService

  // ------------------------------------------------------------- wastage

  /** A row of `daily_item_quantity`. */
  datatype PreparedRow = PreparedRow(itemName: string, quantityPrepared: int, date: string)

  /** One row of the wastage report. */
  datatype WastageRow = WastageRow(itemName: string, quantityPrepared: int, quantityOrdered: int, wastage: int)

  /** The grouping key `diq.item_name, diq.quantity_prepared`. */
  datatype GroupKey = GroupKey(itemName: string, quantityPrepared: int)

  /** Reference definition: the quantity ordered of an item on a day, 0 when there are no orders. */
  function OrderedOn(orders: seq<OrderRow>, name: string, date: string): int {
    if orders == [] then 0
    else (if orders[0].itemName == name && Day(orders[0].createdAt) == date then orders[0].quantity else 0)
         + OrderedOn(orders[1..], name, date)
  }

  /** `WHERE diq.date = ?`. */
  function PreparedOn(prepared: seq<PreparedRow>, date: string): (r: seq<PreparedRow>)
    ensures forall p :: p in r <==> p in prepared && p.date == date
  {
    if prepared == [] then []
    else (if prepared[0].date == date then [prepared[0]] else []) + PreparedOn(prepared[1..], date)
  }

  /** The date filter keeps each row on its own and in order. */
  lemma {:induction false} PreparedOnAppend(a: seq<PreparedRow>, b: seq<PreparedRow>, date: string)
    ensures PreparedOn(a + b, date) == PreparedOn(a, date) + PreparedOn(b, date)
  {
    if a == [] {
      assert a + b == b;
    } else {
      assert (a + b)[1..] == a[1..] + b;
      PreparedOnAppend(a[1..], b, date);
    }
  }

  /** A single prepared row is kept exactly when it carries the date. */
  lemma PreparedOnOne(p: PreparedRow, date: string)
    ensures PreparedOn([p], date) == if p.date == date then [p] else []
  {
    assert [p][1..] == [];
  }

  function KeyOf(p: PreparedRow): GroupKey {
    GroupKey(p.itemName, p.quantityPrepared)
  }

  /** The groups of the GROUP BY, each once, in the order their first row appears. */
  function Groups(ps: seq<PreparedRow>): (r: seq<GroupKey>)
    ensures forall i, j :: 0 <= i < j < |r| ==> r[i] != r[j]
    ensures forall k :: k in r <==> exists p :: p in ps && KeyOf(p) == k
  {
    if ps == [] then []
    else
      var pre := ps[..|ps| - 1];
      var last := ps[|ps| - 1];
      assert ps == pre + [last];
      var g := Groups(pre);
      if KeyOf(last) in g then g else g + [KeyOf(last)]
  }

  /** How many prepared rows fall in a group: the LEFT JOIN pairs each of them with every matching order. */
  function Multiplicity(ps: seq<PreparedRow>, k: GroupKey): nat {
    if ps == [] then 0
    else (if KeyOf(ps[0]) == k then 1 else 0) + Multiplicity(ps[1..], k)
  }

  /**
    The query as written: every prepared row of a group is joined with every
    order of that item on the date, so `SUM(o.quantity)` adds the day's orders
    once per prepared row of the group.
  */
  function WastageAsWritten(prepared: seq<PreparedRow>, orders: seq<OrderRow>, date: string): (r: seq<WastageRow>)
    ensures |r| == |Wastage(prepared, orders, date)|
    ensures forall i :: 0 <= i < |r| ==>
      var w := Wastage(prepared, orders, date)[i];
      var m := Multiplicity(PreparedOn(prepared, date), GroupKey(w.itemName, w.quantityPrepared));
      && r[i].itemName == w.itemName
      && r[i].quantityPrepared == w.quantityPrepared
      && m >= 1
      && r[i].quantityOrdered == m * w.quantityOrdered
      && r[i].wastage == r[i].quantityPrepared - r[i].quantityOrdered
  {
    var ps := PreparedOn(prepared, date);
    var groups := Groups(ps);
    var r := seq(|groups|, i requires 0 <= i < |groups| =>
      var k := groups[i];
      var ordered := Multiplicity(ps, k) * OrderedOn(orders, k.itemName, date);
      WastageRow(k.itemName, k.quantityPrepared, ordered, k.quantityPrepared - ordered));
    forall i | 0 <= i < |groups|
      ensures Multiplicity(ps, groups[i]) >= 1
    {
      assert groups[i] in groups;
      var p :| p in ps && KeyOf(p) == groups[i];
      MultiplicityOfPresent(ps, p);
    }
    r
  }

  /** A group with a prepared row in it is joined at least once. */
  lemma {:induction false} MultiplicityOfPresent(ps: seq<PreparedRow>, p: PreparedRow)
    requires p in ps
    ensures Multiplicity(ps, KeyOf(p)) >= 1
  {
    if ps[0] != p {
      assert p in ps[1..];
      MultiplicityOfPresent(ps[1..], p);
    }
  }

  /**
    The report as intended: for each prepared (item, quantity) of the date, the
    quantity ordered that day and the difference, which is not clamped at zero.
  */
  function Wastage(prepared: seq<PreparedRow>, orders: seq<OrderRow>, date: string): (r: seq<WastageRow>)
    ensures forall w :: w in r ==> PreparedRow(w.itemName, w.quantityPrepared, date) in prepared
    ensures forall w :: w in r ==> w.quantityOrdered == OrderedOn(orders, w.itemName, date)
    ensures forall w :: w in r ==> w.wastage == w.quantityPrepared - w.quantityOrdered
    ensures forall p :: p in prepared && p.date == date ==>
      exists w :: w in r && w.itemName == p.itemName && w.quantityPrepared == p.quantityPrepared
    ensures forall i, j :: 0 <= i < j < |r| ==>
      (r[i].itemName, r[i].quantityPrepared) != (r[j].itemName, r[j].quantityPrepared)
  {
    var ps := PreparedOn(prepared, date);
    var groups := Groups(ps);
    var r := seq(|groups|, i requires 0 <= i < |groups| =>
      var k := groups[i];
      var ordered := OrderedOn(orders, k.itemName, date);
      WastageRow(k.itemName, k.quantityPrepared, ordered, k.quantityPrepared - ordered));
    assert forall i :: 0 <= i < |r| ==> GroupKey(r[i].itemName, r[i].quantityPrepared) == groups[i];
    assert forall w :: w in r ==> PreparedRow(w.itemName, w.quantityPrepared, date) in prepared by {
      forall w | w in r ensures PreparedRow(w.itemName, w.quantityPrepared, date) in prepared {
        var i :| 0 <= i < |r| && r[i] == w;
        assert groups[i] in groups;
        var p :| p in ps && KeyOf(p) == groups[i];
        assert p == PreparedRow(w.itemName, w.quantityPrepared, date);
      }
    }
    forall p | p in prepared && p.date == date
      ensures exists w :: w in r && w.itemName == p.itemName && w.quantityPrepared == p.quantityPrepared
    {
      assert p in ps;
      assert KeyOf(p) in groups;
      var i :| 0 <= i < |groups| && groups[i] == KeyOf(p);
      assert r[i] in r;
    }
    r
  }

  /** An item with no orders that day is wasted in full. */
  lemma {:induction false} NoOrdersMeansAllWasted(orders: seq<OrderRow>, name: string, date: string)
    requires forall o :: o in orders ==> o.itemName != name || Day(o.createdAt) != date
    ensures OrderedOn(orders, name, date) == 0
  {
    if orders != [] {
      assert orders[0] in orders;
      NoOrdersMeansAllWasted(orders[1..], name, date);
    }
  }

  /** No (item, quantity) is recorded twice. */
  predicate NoDuplicateKeys(ps: seq<PreparedRow>) {
    forall i, j :: 0 <= i < j < |ps| ==> KeyOf(ps[i]) != KeyOf(ps[j])
  }

  lemma {:induction false} MultiplicityOfLoneRow(ps: seq<PreparedRow>, k: GroupKey)
    requires NoDuplicateKeys(ps)
    requires exists p :: p in ps && KeyOf(p) == k
    ensures Multiplicity(ps, k) == 1
  {
    if KeyOf(ps[0]) == k {
      assert forall i :: 0 <= i < |ps[1..]| ==> KeyOf(ps[1..][i]) != k;
      MultiplicityOfAbsent(ps[1..], k);
    } else {
      MultiplicityOfLoneRow(ps[1..], k);
    }
  }

  lemma {:induction false} MultiplicityOfAbsent(ps: seq<PreparedRow>, k: GroupKey)
    requires forall i :: 0 <= i < |ps| ==> KeyOf(ps[i]) != k
    ensures Multiplicity(ps, k) == 0
  {
    if ps != [] {
      MultiplicityOfAbsent(ps[1..], k);
    }
  }

  /** When no (item, quantity) is recorded twice for the date, the query as written gives the intended report. */
  lemma AsWrittenAgreesWithoutDuplicates(prepared: seq<PreparedRow>, orders: seq<OrderRow>, date: string)
    requires NoDuplicateKeys(PreparedOn(prepared, date))
    ensures WastageAsWritten(prepared, orders, date) == Wastage(prepared, orders, date)
  {
    var ps := PreparedOn(prepared, date);
    var groups := Groups(ps);
    var asWritten, intended := WastageAsWritten(prepared, orders, date), Wastage(prepared, orders, date);
    assert |asWritten| == |groups| == |intended|;
    forall i | 0 <= i < |groups| ensures asWritten[i] == intended[i] {
      assert groups[i] in groups;
      MultiplicityOfLoneRow(ps, groups[i]);
    }
  }

  /** Two identical prepared rows and one order of 3: the query as written reports 6 ordered, not 3. */
  lemma DuplicatePreparedRowDoublesOrdered()
    ensures var prepared := [PreparedRow("Tea", 10, "2024-11-25"), PreparedRow("Tea", 10, "2024-11-25")];
      var orders := [OrderRow(1, "Tea", Some(1000), 3, false, "2024-11-25 11:46:48")];
      && WastageAsWritten(prepared, orders, "2024-11-25") == [WastageRow("Tea", 10, 6, 4)]
      && Wastage(prepared, orders, "2024-11-25") == [WastageRow("Tea", 10, 3, 7)]
  {
    DuplicatedTeaGroup();
    OneTeaOrder();
  }

  /** The two identical prepared rows of the example form one group, joined twice. */
  lemma DuplicatedTeaGroup()
    ensures var prepared := [PreparedRow("Tea", 10, "2024-11-25"), PreparedRow("Tea", 10, "2024-11-25")];
      && PreparedOn(prepared, "2024-11-25") == prepared
      && Groups(prepared) == [GroupKey("Tea", 10)]
      && Multiplicity(prepared, GroupKey("Tea", 10)) == 2
  {
    var prepared := [PreparedRow("Tea", 10, "2024-11-25"), PreparedRow("Tea", 10, "2024-11-25")];
    assert PreparedOn(prepared[1..], "2024-11-25") == prepared[1..];
    assert prepared[..1] == [prepared[0]];
    assert Groups(prepared[..1]) == [GroupKey("Tea", 10)] by {
      assert prepared[..1][..0] == [];
    }
    assert prepared[1..][1..] == [];
  }

  /** The example's one order of 3 Tea is the day's whole Tea order sum. */
  lemma OneTeaOrder()
    ensures OrderedOn([OrderRow(1, "Tea", Some(1000), 3, false, "2024-11-25 11:46:48")], "Tea", "2024-11-25") == 3
  {
    var orders := [OrderRow(1, "Tea", Some(1000), 3, false, "2024-11-25 11:46:48")];
    assert Day(orders[0].createdAt) == "2024-11-25";
    assert orders[1..] == [];
  }

  /** GET /daily-wastage: a missing or empty `date` answers 400; otherwise the report. */
  function DailyWastage(date: Option<string>, prepared: seq<PreparedRow>, orders: seq<OrderRow>)
    : (r: Result<seq<WastageRow>, Status>)
    ensures r.Failure? <==> date == None || date == Some("")
    ensures r.Failure? ==> r.error == BadRequest
    ensures r.Success? ==> r.value == Wastage(prepared, orders, date.value)
    ensures r.Success? && NoDuplicateKeys(PreparedOn(prepared, date.value)) ==>
      r.value == WastageAsWritten(prepared, orders, date.value)
  {
    match date
    case None => Failure(BadRequest)
    case Some(d) =>
      if d == "" then Failure(BadRequest)
      else
        assert NoDuplicateKeys(PreparedOn(prepared, d)) ==>
          WastageAsWritten(prepared, orders, d) == Wastage(prepared, orders, d) by {
          if NoDuplicateKeys(PreparedOn(prepared, d)) {
            AsWrittenAgreesWithoutDuplicates(prepared, orders, d);
          }
        }
        Success(Wastage(prepared, orders, d))
  }

  // ------------------------------------------------------- daily metrics

  /** The single row of the metrics query; SUM over no rows is NULL, COUNT is 0. */
  datatype MetricsRow = MetricsRow(totalSales: Option<int>, totalOrders: nat, totalItems: Option<int>)

  /** The response of GET /api/dailyMetrics. */
  datatype Metrics = Metrics(totalSales: int, totalOrders: int, totalItems: int)

  /** `WHERE DATE(createdAt) = CURDATE()`. */
  function OnDay(orders: seq<OrderRow>, today: string): (r: seq<OrderRow>)
    ensures forall o :: o in r <==> o in orders && Day(o.createdAt) == today
  {
    if orders == [] then []
    else (if Day(orders[0].createdAt) == today then [orders[0]] else []) + OnDay(orders[1..], today)
  }

  /** The day filter keeps each order row on its own and in order. */
  lemma {:induction false} OnDayAppend(a: seq<OrderRow>, b: seq<OrderRow>, today: string)
    ensures OnDay(a + b, today) == OnDay(a, today) + OnDay(b, today)
  {
    if a == [] {
      assert a + b == b;
    } else {
      assert (a + b)[1..] == a[1..] + b;
      OnDayAppend(a[1..], b, today);
    }
  }

  /** A single row is kept exactly when it falls on the day. */
  lemma OnDayOne(o: OrderRow, today: string)
    ensures OnDay([o], today) == if Day(o.createdAt) == today then [o] else []
  {
    assert [o][1..] == [];
  }

  /** What a row adds to `SUM(price * quantity)`: nothing when its price is NULL. */
  function LineSales(o: OrderRow): int {
    match o.price
    case Some(p) => p * o.quantity
    case None => 0
  }

  function Sales(rows: seq<OrderRow>): int {
    if rows == [] then 0 else LineSales(rows[0]) + Sales(rows[1..])
  }

  /**
    The `SUM(price * quantity)` column: SQL's SUM skips NULL terms and is NULL
    itself when every term is NULL, on no rows included.
  */
  function SalesColumn(rows: seq<OrderRow>): (v: Option<int>)
    ensures v.None? <==> forall o :: o in rows ==> o.price.None?
    ensures v.None? ==> Sales(rows) == 0
    ensures v.Some? ==> v.value == Sales(rows)
  {
    if rows == [] then None
    else
      var rest := SalesColumn(rows[1..]);
      assert forall o :: o in rows ==> o == rows[0] || o in rows[1..];
      match (rows[0].price, rest)
      case (None, _) => rest
      case (Some(_), None) => Some(LineSales(rows[0]))
      case (Some(_), Some(t)) => Some(LineSales(rows[0]) + t)
  }

  function Quantity(rows: seq<OrderRow>): int {
    if rows == [] then 0 else rows[0].quantity + Quantity(rows[1..])
  }

  function OrderIds(rows: seq<OrderRow>): (ids: set<int>)
    ensures forall id :: id in ids <==> exists o :: o in rows && o.orderId == id
  {
    if rows == [] then {} else {rows[0].orderId} + OrderIds(rows[1..])
  }

  /** `SUM(price * quantity)`, `COUNT(DISTINCT order_id)`, `SUM(quantity)` over today's rows. */
  function DailyMetricsQuery(orders: seq<OrderRow>, today: string): MetricsRow {
    var rows := OnDay(orders, today);
    if rows == [] then MetricsRow(None, 0, None)
    else MetricsRow(SalesColumn(rows), |OrderIds(rows)|, Some(Quantity(rows)))
  }

  /** `v || 0` on a column value: NULL becomes 0 and a number stays as it is. */
  function OrZero(v: Option<int>): (n: int)
    ensures v.Some? ==> n == v.value
    ensures v.None? ==> n == 0
  {
    match v
    case None => 0
    case Some(x) => if x != 0 then x else 0
  }

  /** GET /api/dailyMetrics: the day's sales, distinct orders and items, zero on a day without orders. */
  function DailyMetrics(orders: seq<OrderRow>, today: string): (m: Metrics)
    ensures OnDay(orders, today) == [] ==> m == Metrics(0, 0, 0)
    ensures m.totalSales == Sales(OnDay(orders, today))
    ensures m.totalItems == Quantity(OnDay(orders, today))
    ensures m.totalOrders == |OrderIds(OnDay(orders, today))|
  {
    var q := DailyMetricsQuery(orders, today);
    Metrics(OrZero(q.totalSales), q.totalOrders, OrZero(q.totalItems))
  }

  lemma {:induction false} SalesAppend(a: seq<OrderRow>, b: seq<OrderRow>)
    ensures Sales(a + b) == Sales(a) + Sales(b)
  {
    if a == [] {
      assert a + b == b;
    } else {
      assert (a + b)[0] == a[0];
      assert (a + b)[1..] == a[1..] + b;
      SalesAppend(a[1..], b);
    }
  }

  lemma {:induction false} QuantityAppend(a: seq<OrderRow>, b: seq<OrderRow>)
    ensures Quantity(a + b) == Quantity(a) + Quantity(b)
  {
    if a == [] {
      assert a + b == b;
    } else {
      assert (a + b)[0] == a[0];
      assert (a + b)[1..] == a[1..] + b;
      QuantityAppend(a[1..], b);
    }
  }

  /**
    A row of today with a NULL price adds nothing to the sales, while the
    item total counts its quantity and the order count its order id.
  */
  lemma UnpricedRowCountsButSellsNothing(orders: seq<OrderRow>, o: OrderRow, today: string)
    requires o.price.None? && Day(o.createdAt) == today
    ensures var before := DailyMetrics(orders, today);
      var after := DailyMetrics(orders + [o], today);
      && after.totalSales == before.totalSales
      && after.totalItems == before.totalItems + o.quantity
      && after.totalOrders == |OrderIds(OnDay(orders, today)) + {o.orderId}|
  {
    var rows := OnDay(orders, today);
    OnDayAppend(orders, [o], today);
    OnDayOne(o, today);
    assert OnDay(orders + [o], today) == rows + [o];
    SalesAppend(rows, [o]);
    QuantityAppend(rows, [o]);
    assert Sales([o]) == 0 && Quantity([o]) == o.quantity by {
      assert [o][1..] == [];
    }
    OrderIdsAppendOne(rows, o);
  }

  lemma OrderIdsAppendOne(rows: seq<OrderRow>, o: OrderRow)
    ensures OrderIds(rows + [o]) == OrderIds(rows) + {o.orderId}
  {
    forall id | id in OrderIds(rows + [o]) ensures id in OrderIds(rows) + {o.orderId} {
      var r :| r in rows + [o] && r.orderId == id;
      assert r in rows || r == o;
    }
    forall id | id in OrderIds(rows) ensures id in OrderIds(rows + [o]) {
      var r :| r in rows && r.orderId == id;
      assert r in rows + [o];
    }
    assert o in rows + [o];
  }

  lemma {:induction false} DistinctOrdersAtMostRows(rows: seq<OrderRow>)
    ensures |OrderIds(rows)| <= |rows|
  {
    if rows != [] {
      DistinctOrdersAtMostRows(rows[1..]);
    }
  }

  lemma {:induction false} RowsAtMostQuantity(rows: seq<OrderRow>)
    requires forall o :: o in rows ==> o.quantity >= 1
    ensures |rows| <= Quantity(rows)
  {
    if rows != [] {
      assert rows[0] in rows;
      RowsAtMostQuantity(rows[1..]);
    }
  }

  /** When every line has at least one unit, the day never counts more orders than items. */
  lemma OrdersAtMostItems(orders: seq<OrderRow>, today: string)
    requires forall o :: o in orders ==> o.quantity >= 1
    ensures DailyMetrics(orders, today).totalOrders <= DailyMetrics(orders, today).totalItems
  {
    var rows := OnDay(orders, today);
    DistinctOrdersAtMostRows(rows);
    RowsAtMostQuantity(rows);
  }
}
