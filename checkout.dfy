/**
  The hand-over between Canteen-Automation-System-Website/cart.js and
  canteen-automation-backend/server.js: `JSON.stringify` of the submission
  `submitOrder` sends, and what POST /submitOrder makes of it.
*/
module Checkout {
  import opened Wrappers
  import opened JsValues
  import opened OrderService
  import opened Prices
  import opened ShoppingCart

  /** `JSON.stringify` writes a NaN price as `null`. */
  function EncodePrice(price: Option<int>): (v: JsValue)
    ensures v == Null <==> price.None?
    ensures price.Some? ==> v == Num(price.value)
  {
    match price
    case Some(p) => Num(p)
    case None => Null
  }

  function EncodeItem(item: PayloadItem): JsValue {
    Obj(map[
      "itemName" := Str(item.itemName),
      "price" := EncodePrice(item.price),
      "quantity" := Str(item.quantity),
      "createdAt" := Str(item.createdAt)])
  }

  function EncodeItems(items: seq<PayloadItem>): (vs: seq<JsValue>)
    ensures |vs| == |items|
    ensures forall k :: 0 <= k < |items| ==> vs[k] == EncodeItem(items[k])
  {
    seq(|items|, k requires 0 <= k < |items| => EncodeItem(items[k]))
  }

  /** The request body the server parses from the submission. */
  function EncodeSubmission(s: Submission): Body {
    map[
      "userEmail" := Str(s.payload.userEmail),
      "user_email" := Str(s.userEmailField),
      "orderId" := Num(s.payload.orderId),
      "items" := Arr(EncodeItems(s.payload.items))]
  }

  /** The items of a sent order are objects, so no property read throws. */
  lemma EncodedItemsAreObjects(items: seq<PayloadItem>)
    ensures forall k :: 0 <= k < |items| ==> EncodeItems(items)[k] !in {Null, Undefined}
  {
  }

  /** What the server's property reads find in an encoded item; it has no `delivered`. */
  lemma EncodedItemProps(item: PayloadItem)
    ensures Prop(EncodeItem(item), "itemName") == Success(Str(item.itemName))
    ensures Prop(EncodeItem(item), "price") == Success(EncodePrice(item.price))
    ensures Prop(EncodeItem(item), "quantity") == Success(Str(item.quantity))
    ensures Prop(EncodeItem(item), "delivered") == Success(Undefined)
  {
    assert "delivered" !in EncodeItem(item).fields;
  }

  lemma SubmissionPassesGuard(s: Submission, createdAt: string)
    requires s.payload.orderId != 0 && |s.payload.items| > 0
    ensures SubmitOrder(EncodeSubmission(s), createdAt)
      == BuildRows(Num(s.payload.orderId), EncodeItems(s.payload.items), createdAt)
  {
    var body := EncodeSubmission(s);
    assert |"orderId"| != |"items"|;
    assert Field(body, "orderId") == Num(s.payload.orderId);
    assert Field(body, "items") == Arr(EncodeItems(s.payload.items));
    assert Truthy(Field(body, "orderId")) && Truthy(Field(body, "items"));
  }

  /**
    A submission with a non-zero order id and at least one item passes the
    server's guard, and the server builds one row per item, in item order,
    carrying the item's name, price and quantity text, undelivered.
  */
  lemma ServerAcceptsSubmission(s: Submission, createdAt: string)
    requires s.payload.orderId != 0 && |s.payload.items| > 0
    ensures var r := SubmitOrder(EncodeSubmission(s), createdAt);
      && r.Success?
      && |r.value| == |s.payload.items|
      && forall k :: 0 <= k < |s.payload.items| ==>
        && r.value[k].orderId == Num(s.payload.orderId)
        && r.value[k].itemName == Str(s.payload.items[k].itemName)
        && r.value[k].price == EncodePrice(s.payload.items[k].price)
        && r.value[k].quantity == Str(s.payload.items[k].quantity)
        && r.value[k].delivered == 0
        && r.value[k].createdAt == createdAt
  {
    var items := s.payload.items;
    var encoded := EncodeItems(items);
    SubmissionPassesGuard(s, createdAt);
    EncodedItemsAreObjects(items);
    var r := BuildRows(Num(s.payload.orderId), encoded, createdAt);
    assert r.Success?;
    forall k | 0 <= k < |items|
      ensures r.value[k].itemName == Str(items[k].itemName)
      ensures r.value[k].price == EncodePrice(items[k].price)
      ensures r.value[k].quantity == Str(items[k].quantity)
      ensures r.value[k].delivered == 0
    {
      EncodedItemProps(items[k]);
      assert encoded[k] == EncodeItem(items[k]);
    }
  }

  /**
    Whenever a purchase sends something (the clock reading is never 0), the
    server accepts it and stores one row per cart row, in cart order, with the
    row's title and raw quantity text.
  */
  lemma PurchaseReachesServer(rows: seq<CartRow>, cookie: string, createdAt: string, now: int, serverTime: string)
    requires now != 0
    requires PurchaseOutcome(rows, cookie, createdAt, now).Some?
    ensures var s := PurchaseOutcome(rows, cookie, createdAt, now).value;
      var r := SubmitOrder(EncodeSubmission(s), serverTime);
      && r.Success?
      && |r.value| == |rows|
      && SubmitOrderStatus(EncodeSubmission(s), serverTime, true) == Ok
      && forall k :: 0 <= k < |rows| ==>
        && r.value[k].orderId == Num(now)
        && r.value[k].itemName == Str(rows[k].title)
        && r.value[k].quantity == Str(QuantityText(rows[k].quantity))
        && r.value[k].delivered == 0
  {
    var s := PurchaseOutcome(rows, cookie, createdAt, now).value;
    PurchaseOutcomeShape(rows, cookie, createdAt, now);
    OrderItemsFollowRows(rows, createdAt);
    assert s.payload.items == OrderItems(rows, createdAt);
    ServerAcceptsSubmission(s, serverTime);
  }
}
