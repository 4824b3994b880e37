/**
  Order submission and daily-item insertion in canteen-automation-backend/server.js:
  the request guards, the rows handed to the bulk INSERT, and the stored order
  row that the delivery update and the reports read.
*/
module OrderService {
  import opened Wrappers
  import opened JsValues

  /** The outcome of a handler, by HTTP status. */
  datatype Status = Ok | BadRequest | NotFound | ServerError

  /** One tuple of `INSERT INTO orders (order_id, item_name, price, quantity, delivered, createdAt) VALUES ?`. */
  datatype InsertRow = InsertRow(
    orderId: JsValue, itemName: JsValue, price: JsValue, quantity: JsValue, delivered: int, createdAt: string)

  /**
    A row of the `orders` table as the delivery update and the reports see it.
    `createdAt` is the 'YYYY-MM-DD HH:MM:SS' text the handler writes. `price`
    is None for a NULL price: the page sends a price it cannot parse as `null`,
    and the handler inserts it as it comes.
  */
  datatype OrderRow = OrderRow(
    orderId: int, itemName: string, price: Option<int>, quantity: int, delivered: bool, createdAt: string)

  /** `DATE(createdAt)`: the 'YYYY-MM-DD' part of the timestamp. */
  function Day(createdAt: string): string {
    if |createdAt| >= 10 then createdAt[..10] else createdAt
  }

  /** `item => [orderId, item.itemName, item.price, item.quantity, item.delivered ? 1 : 0, createdAt]`. */
  function ItemRow(orderId: JsValue, item: JsValue, createdAt: string): Result<InsertRow, Status> {
    match (Prop(item, "itemName"), Prop(item, "price"), Prop(item, "quantity"), Prop(item, "delivered"))
    case (Success(name), Success(price), Success(quantity), Success(delivered)) =>
      Success(InsertRow(orderId, name, price, quantity, if Truthy(delivered) then 1 else 0, createdAt))
    case _ => Failure(ServerError)
  }

  /**
    `items.map(...)`: one row per item, in item order, all with the same order id
    and timestamp. A null element makes the property read throw; Express answers
    an exception thrown by a handler with status 500.
  */
  function BuildRows(orderId: JsValue, items: seq<JsValue>, createdAt: string): (r: Result<seq<InsertRow>, Status>)
    ensures r.Failure? <==> exists k :: 0 <= k < |items| && items[k] in {Null, Undefined}
    ensures r.Failure? ==> r.error == ServerError
    ensures r.Success? ==> |r.value| == |items|
    ensures r.Success? ==> forall k :: 0 <= k < |items| ==>
      && r.value[k].orderId == orderId
      && r.value[k].createdAt == createdAt
      && Prop(items[k], "itemName") == Success(r.value[k].itemName)
      && Prop(items[k], "price") == Success(r.value[k].price)
      && Prop(items[k], "quantity") == Success(r.value[k].quantity)
      && r.value[k].delivered in {0, 1}
      && (r.value[k].delivered == 1 <==> Truthy(Prop(items[k], "delivered").value))
  {
    if items == [] then Success([])
    else
      match (ItemRow(orderId, items[0], createdAt), BuildRows(orderId, items[1..], createdAt))
      case (Success(row), Success(rest)) => Success([row] + rest)
      case _ => Failure(ServerError)
  }

  /**
    POST /submitOrder up to the INSERT: the guard `!orderId || !items ||
    !Array.isArray(items)` answers 400; otherwise the rows to insert. The
    handler reads only `orderId` and `items`; a `userEmail` in the body is ignored.
  */
  function SubmitOrder(body: Body, createdAt: string): (r: Result<seq<InsertRow>, Status>)
    ensures r == Failure(BadRequest) <==>
      !Truthy(Field(body, "orderId")) || !Truthy(Field(body, "items")) || !Field(body, "items").Arr?
    ensures Truthy(Field(body, "orderId")) && Truthy(Field(body, "items")) && Field(body, "items").Arr? ==>
      r == BuildRows(Field(body, "orderId"), Field(body, "items").elems, createdAt)
    ensures r.Success? ==> |r.value| == |Field(body, "items").elems|
    ensures r.Success? ==> forall row :: row in r.value ==> row.orderId == body["orderId"] && row.createdAt == createdAt
  {
    var orderId := Field(body, "orderId");
    var items := Field(body, "items");
    if !Truthy(orderId) || !Truthy(items) || !items.Arr? then Failure(BadRequest)
    else BuildRows(orderId, items.elems, createdAt)
  }

  /**
    The status POST /submitOrder answers with. An empty `items` array makes
    `VALUES ?` expand to an empty list, which is not valid SQL, so the database
    rejects it; `dbAccepts` stands for the outcome of a well-formed INSERT.
  */
  function SubmitOrderStatus(body: Body, createdAt: string, dbAccepts: bool): (s: Status)
    ensures s in {Ok, BadRequest, ServerError}
    ensures s == BadRequest <==> SubmitOrder(body, createdAt) == Failure(BadRequest)
    ensures s == Ok <==> SubmitOrder(body, createdAt).Success? && SubmitOrder(body, createdAt).value != [] && dbAccepts
    ensures Field(body, "items") == Arr([]) ==> s != Ok
  {
    match SubmitOrder(body, createdAt)
    case Failure(e) => e
    case Success(rows) => if rows != [] && dbAccepts then Ok else ServerError
  }

  /** The row inserted by POST /daily-item. */
  datatype DailyItem = DailyItem(itemName: JsValue, quantityPrepared: JsValue, date: JsValue)

  /** POST /daily-item: `!item_name || !quantity_prepared || !date` answers 400. */
  function DailyItemInsert(body: Body): (r: Result<DailyItem, Status>)
    ensures r.Failure? <==>
      !Truthy(Field(body, "item_name")) || !Truthy(Field(body, "quantity_prepared")) || !Truthy(Field(body, "date"))
    ensures r.Failure? ==> r.error == BadRequest
    ensures r.Success? ==>
      r == Success(DailyItem(body["item_name"], body["quantity_prepared"], body["date"]))
  {
    var itemName := Field(body, "item_name");
    var quantityPrepared := Field(body, "quantity_prepared");
    var date := Field(body, "date");
    if !Truthy(itemName) || !Truthy(quantityPrepared) || !Truthy(date) then Failure(BadRequest)
    else Success(DailyItem(itemName, quantityPrepared, date))
  }

  /** A prepared quantity of zero is refused like a missing one. */
  lemma ZeroPreparedIsRejected(body: Body)
    requires "quantity_prepared" in body && body["quantity_prepared"] == Num(0)
    ensures DailyItemInsert(body) == Failure(BadRequest)
  {
  }
}
