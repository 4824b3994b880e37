/**
  The shopping cart of Canteen-Automation-System-Website/cart.js. The page's
  `cartItems` container is an ordered list of cart rows; the handlers append a
  row, remove one, clamp a quantity, recompute the total, build the order
  payload and finally clear the container. The cookie text, the timestamp text
  and the clock reading are inputs.
*/
module ShoppingCart {
  import opened Wrappers
  import opened Prices
  import opened Cookies

  /** One `.cart-row`: the title, the price text as shown, the image and the quantity input. */
  datatype CartRow = CartRow(title: string, priceText: string, imageSrc: string, quantity: Quantity)

  /** `parseFloat(priceText.replace(/[^\d.-]/g, ''))`, in minor units; None stands for NaN. */
  function PriceOf(row: CartRow): Option<int> {
    ParsePrice(FilterPriceText(row.priceText))
  }

  /** What a row adds to the total: price times quantity when both parse, otherwise nothing. */
  function RowAmount(row: CartRow): int {
    match (PriceOf(row), ParseQuantity(row.quantity))
    case (Some(p), Some(q)) => p * q
    case _ => 0
  }

  /** The sum of the row amounts, in minor units. */
  function CartTotal(rows: seq<CartRow>): int {
    if rows == [] then 0 else CartTotal(rows[..|rows| - 1]) + RowAmount(rows[|rows| - 1])
  }

  /** Rows whose price or quantity does not parse add nothing: a cart of such rows totals 0. */
  lemma {:induction false} CartTotalOfUnparsedRows(rows: seq<CartRow>)
    requires forall k :: 0 <= k < |rows| ==> PriceOf(rows[k]).None? || ParseQuantity(rows[k].quantity).None?
    ensures CartTotal(rows) == 0
  {
    if rows != [] {
      var init := rows[..|rows| - 1];
      assert forall k :: 0 <= k < |init| ==> init[k] == rows[k];
      CartTotalOfUnparsedRows(init);
    }
  }

  /** Rows with no negative price and no negative quantity give no negative total. */
  lemma {:induction false} CartTotalNonNegative(rows: seq<CartRow>)
    requires forall k :: 0 <= k < |rows| ==> RowAmount(rows[k]) >= 0
    ensures CartTotal(rows) >= 0
  {
    if rows != [] {
      var init := rows[..|rows| - 1];
      assert forall k :: 0 <= k < |init| ==> init[k] == rows[k];
      CartTotalNonNegative(init);
    }
  }

  predicate HasTitle(rows: seq<CartRow>, title: string) {
    exists k :: 0 <= k < |rows| && rows[k].title == title
  }

  /** No two rows carry the same title. */
  predicate DistinctTitles(rows: seq<CartRow>) {
    forall j, k :: 0 <= j < k < |rows| ==> rows[j].title != rows[k].title
  }

  lemma {:induction false} CartTotalAppend(a: seq<CartRow>, b: seq<CartRow>)
    ensures CartTotal(a + b) == CartTotal(a) + CartTotal(b)
    decreases |b|
  {
    if b != [] {
      var b' := b[..|b| - 1];
      var last := b[|b| - 1];
      assert (a + b)[..|a + b| - 1] == a + b';
      assert (a + b)[|a + b| - 1] == last;
      calc {
        CartTotal(a + b);
        CartTotal(a + b') + RowAmount(last);
        { CartTotalAppend(a, b'); }
        CartTotal(a) + CartTotal(b') + RowAmount(last);
        CartTotal(a) + CartTotal(b);
      }
    } else {
      assert a + b == a;
    }
  }

  /** The total of the first i + 1 rows adds row i to the total of the first i. */
  lemma CartTotalOfPrefix(rows: seq<CartRow>, i: nat)
    requires i < |rows|
    ensures CartTotal(rows[..i + 1]) == CartTotal(rows[..i]) + RowAmount(rows[i])
  {
    var prefix := rows[..i + 1];
    assert prefix[..|prefix| - 1] == rows[..i] && prefix[|prefix| - 1] == rows[i];
  }

  lemma CartTotalOfOne(row: CartRow)
    ensures CartTotal([row]) == RowAmount(row)
  {
    assert [row][..0] == [];
  }

  lemma TotalAroundRow(pre: seq<CartRow>, x: CartRow, post: seq<CartRow>)
    ensures CartTotal(pre + [x] + post) == CartTotal(pre + post) + RowAmount(x)
  {
    CartTotalAppend(pre + [x], post);
    CartTotalAppend(pre, [x]);
    CartTotalOfOne(x);
    CartTotalAppend(pre, post);
  }

  lemma SplitAtRow(rows: seq<CartRow>, i: nat)
    requires i < |rows|
    ensures rows == rows[..i] + [rows[i]] + rows[i + 1..]
  {
  }

  /** Removing a row takes exactly that row's amount off the total. */
  lemma RemoveTakesRowAmount(rows: seq<CartRow>, i: nat)
    requires i < |rows|
    ensures CartTotal(rows[..i] + rows[i + 1..]) == CartTotal(rows) - RowAmount(rows[i])
  {
    SplitAtRow(rows, i);
    TotalAroundRow(rows[..i], rows[i], rows[i + 1..]);
  }

  /** A new row starts with quantity 1, so it adds its price, or nothing when the price is NaN. */
  lemma AddAddsPrice(rows: seq<CartRow>, title: string, priceText: string, imageSrc: string)
    ensures var row := CartRow(title, priceText, imageSrc, Value(1));
      CartTotal(rows + [row]) == CartTotal(rows) + (match PriceOf(row) case Some(p) => p case None => 0)
  {
    var row := CartRow(title, priceText, imageSrc, Value(1));
    CartTotalAppend(rows, [row]);
    CartTotalOfOne(row);
  }

  /** A row showing a menu price (a currency glyph, then the amount) adds price times quantity. */
  lemma DisplayedRowAmount(title: string, glyph: char, m: int, imageSrc: string, q: int)
    requires !IsPriceChar(glyph)
    ensures RowAmount(CartRow(title, [glyph] + AmountText(m), imageSrc, Value(q))) == m * q
  {
    DisplayedPriceParses(glyph, m);
  }

  // ------------------------------------------------------------ order payload

  /** One element of `items` as `prepareOrderData` pushes it. */
  datatype PayloadItem = PayloadItem(itemName: string, price: Option<int>, quantity: string, createdAt: string)

  /** The object `prepareOrderData` returns. */
  datatype OrderPayload = OrderPayload(orderId: int, userEmail: string, items: seq<PayloadItem>)

  /** What `submitOrder` sends: the payload with the `user_email` field it adds. */
  datatype Submission = Submission(payload: OrderPayload, userEmailField: string)

  /** The cookie both readers look up. */
  const EmailCookie := "userEmail"

  /** The quantity travels as the raw input text. */
  function ItemOf(row: CartRow, createdAt: string): PayloadItem {
    PayloadItem(row.title, PriceOf(row), QuantityText(row.quantity), createdAt)
  }

  /** The items of the payload: one per row, in row order, all with one timestamp. */
  function OrderItems(rows: seq<CartRow>, createdAt: string): (items: seq<PayloadItem>)
    ensures |items| == |rows|
  {
    if rows == [] then [] else OrderItems(rows[..|rows| - 1], createdAt) + [ItemOf(rows[|rows| - 1], createdAt)]
  }

  /** `userEmail || "unknown"`: undefined and the empty text both fall back. */
  function FallbackEmail(cookieValue: Option<string>): (e: string)
    ensures e != ""
    ensures cookieValue.Some? && cookieValue.value != "" ==> e == cookieValue.value
    ensures !(cookieValue.Some? && cookieValue.value != "") ==> e == "unknown"
  {
    match cookieValue
    case Some(v) => if v != "" then v else "unknown"
    case None => "unknown"
  }

  /** The payload `prepareOrderData` builds for the given rows: null for an empty cart. */
  function OrderPayloadFor(rows: seq<CartRow>, cookie: string, createdAt: string, now: int): Option<OrderPayload> {
    if rows == [] then None
    else Some(OrderPayload(now, FallbackEmail(GetCookie(cookie, EmailCookie)), OrderItems(rows, createdAt)))
  }

  /** Each payload item carries its row's title, price and raw quantity, and the shared timestamp. */
  lemma {:induction false} OrderItemsFollowRows(rows: seq<CartRow>, createdAt: string)
    ensures forall k :: 0 <= k < |rows| ==>
      && OrderItems(rows, createdAt)[k].itemName == rows[k].title
      && OrderItems(rows, createdAt)[k].price == PriceOf(rows[k])
      && OrderItems(rows, createdAt)[k].quantity == QuantityText(rows[k].quantity)
      && OrderItems(rows, createdAt)[k].createdAt == createdAt
  {
    if rows != [] {
      OrderItemsFollowRows(rows[..|rows| - 1], createdAt);
    }
  }

  /** No two payload items name the same item. */
  predicate DistinctItemNames(items: seq<PayloadItem>) {
    forall j, k :: 0 <= j < k < |items| ==> items[j].itemName != items[k].itemName
  }

  /** A cart whose titles are distinct, as `addItemToCart` keeps it, orders each item once. */
  lemma DistinctRowsGiveDistinctItems(rows: seq<CartRow>, createdAt: string)
    requires DistinctTitles(rows)
    ensures DistinctItemNames(OrderItems(rows, createdAt))
  {
    OrderItemsFollowRows(rows, createdAt);
  }

  lemma EmailCookieIsPlain()
    ensures PlainName(EmailCookie)
  {
    assert EmailCookie == ['u', 's', 'e', 'r', 'E', 'm', 'a', 'i', 'l'];
  }

  /** `getCookieValue('userEmail')`. */
  function EmailCookieValue(cookie: string): string {
    EmailCookieIsPlain();
    GetCookieValue(cookie, EmailCookie)
  }

  /**
    The guard of `submitOrder`: without a non-empty `userEmail` cookie, as the
    regular-expression reader finds it, nothing is sent; otherwise the payload
    goes out with that value as `user_email`.
  */
  function SubmitGuard(payload: OrderPayload, cookie: string): (s: Option<Submission>)
    ensures s.Some? <==> EmailCookieValue(cookie) != ""
    ensures s.Some? ==> s.value == Submission(payload, EmailCookieValue(cookie))
  {
    var email := EmailCookieValue(cookie);
    if email == "" then None else Some(Submission(payload, email))
  }

  /** What a purchase sends for the given rows: nothing for an empty cart or a missing email. */
  function PurchaseOutcome(rows: seq<CartRow>, cookie: string, createdAt: string, now: int): Option<Submission> {
    match OrderPayloadFor(rows, cookie, createdAt, now)
    case None => None
    case Some(payload) => SubmitGuard(payload, cookie)
  }

  /** An empty cart never sends anything; a sent order has one item per row and a non-empty email. */
  lemma PurchaseOutcomeShape(rows: seq<CartRow>, cookie: string, createdAt: string, now: int)
    ensures rows == [] ==> PurchaseOutcome(rows, cookie, createdAt, now) == None
    ensures PurchaseOutcome(rows, cookie, createdAt, now).Some? ==>
      var s := PurchaseOutcome(rows, cookie, createdAt, now).value;
      && |s.payload.items| == |rows| > 0
      && s.payload.orderId == now
      && s.payload.userEmail != ""
      && s.userEmailField != ""
  {
  }

  // --------------------------------------------------------------- the cart

  class Cart {
    /** The rows of the `cartItems` container, in document order. */
    var rows: seq<CartRow>

    ghost predicate Valid()
      reads this
    {
      DistinctTitles(rows)
    }

    constructor()
      ensures rows == [] && Valid()
    {
      rows := [];
    }

    /**
      `addItemToCart`: a title already in the cart is refused (the alert) and
      nothing changes; a new title is appended as a row with quantity 1.
    */
    method AddItemToCart(title: string, priceText: string, imageSrc: string) returns (added: bool)
      modifies this
      ensures added <==> !HasTitle(old(rows), title)
      ensures added ==> rows == old(rows) + [CartRow(title, priceText, imageSrc, Value(1))]
      ensures !added ==> rows == old(rows)
      ensures HasTitle(rows, title)
      ensures old(Valid()) ==> Valid()
    {
      var i := 0;
      while i < |rows|
        invariant 0 <= i <= |rows|
        invariant forall k :: 0 <= k < i ==> rows[k].title != title
      {
        if rows[i].title == title {
          return false;
        }
        i := i + 1;
      }
      rows := rows + [CartRow(title, priceText, imageSrc, Value(1))];
      added := true;
      assert rows[|rows| - 1].title == title;
    }

    /** `updateCartTotal`: the sum over the rows whose price and quantity both parse. */
    method UpdateCartTotal() returns (total: int)
      ensures total == CartTotal(rows)
    {
      total := 0;
      var i := 0;
      while i < |rows|
        invariant 0 <= i <= |rows|
        invariant total == CartTotal(rows[..i])
      {
        CartTotalOfPrefix(rows, i);
        var price := PriceOf(rows[i]);
        var quantity := ParseQuantity(rows[i].quantity);
        if price.Some? && quantity.Some? {
          total := total + price.value * quantity.value;
        }
        i := i + 1;
      }
      assert rows[..|rows|] == rows;
    }

    /** `addToCartClicked`: add the shop item, then recompute the total. */
    method AddToCartClicked(title: string, priceText: string, imageSrc: string) returns (total: int)
      modifies this
      ensures !HasTitle(old(rows), title) ==> rows == old(rows) + [CartRow(title, priceText, imageSrc, Value(1))]
      ensures HasTitle(old(rows), title) ==> rows == old(rows)
      ensures total == CartTotal(rows)
      ensures old(Valid()) ==> Valid()
    {
      var _ := AddItemToCart(title, priceText, imageSrc);
      total := UpdateCartTotal();
    }

    /** `removeCartItem`: the clicked row leaves the container; the others keep their order. */
    method RemoveCartItem(i: nat) returns (total: int)
      requires i < |rows|
      modifies this
      ensures rows == old(rows)[..i] + old(rows)[i + 1..]
      ensures total == CartTotal(old(rows)) - RowAmount(old(rows)[i])
      ensures old(Valid()) ==> Valid()
    {
      RemoveTakesRowAmount(rows, i);
      rows := rows[..i] + rows[i + 1..];
      total := UpdateCartTotal();
    }

    /** `quantityChanged`: the entered value, replaced by 1 when it is NaN or not positive. */
    method QuantityChanged(i: nat, entered: Quantity) returns (total: int)
      requires i < |rows|
      modifies this
      ensures rows == old(rows)[i := old(rows)[i].(quantity := ClampQuantity(entered))]
      ensures total == CartTotal(rows)
      ensures old(Valid()) ==> Valid()
    {
      rows := rows[i := rows[i].(quantity := ClampQuantity(entered))];
      total := UpdateCartTotal();
    }

    /**
      `prepareOrderData`: null for an empty cart; otherwise one item per row,
      the clock reading as order id and the `userEmail` cookie (or "unknown").
    */
    method PrepareOrderData(cookie: string, createdAt: string, now: int) returns (payload: Option<OrderPayload>)
      ensures payload == OrderPayloadFor(rows, cookie, createdAt, now)
      ensures payload.None? <==> rows == []
      ensures Valid() && payload.Some? ==> DistinctItemNames(payload.value.items)
    {
      var userEmail := GetCookie(cookie, EmailCookie);
      var items: seq<PayloadItem> := [];
      var i := 0;
      while i < |rows|
        invariant 0 <= i <= |rows|
        invariant items == OrderItems(rows[..i], createdAt)
      {
        assert rows[..i + 1][..i] == rows[..i];
        items := items + [ItemOf(rows[i], createdAt)];
        i := i + 1;
      }
      assert rows[..|rows|] == rows;
      if Valid() {
        DistinctRowsGiveDistinctItems(rows, createdAt);
      }
      if |items| > 0 {
        payload := Some(OrderPayload(now, FallbackEmail(userEmail), items));
      } else {
        payload := None;
      }
    }

    /**
      `purchaseClicked`: recompute the total, build the payload, send it when
      the email guard lets it through, and empty the cart. In the page the cart
      stays full when getCookie throws, which this model leaves out.
    */
    method PurchaseClicked(cookie: string, createdAt: string, now: int) returns (sent: Option<Submission>)
      modifies this
      ensures sent == PurchaseOutcome(old(rows), cookie, createdAt, now)
      ensures rows == [] && Valid()
    {
      var _ := UpdateCartTotal();
      var orderData := PrepareOrderData(cookie, createdAt, now);
      sent := None;
      if orderData.Some? {
        sent := SubmitGuard(orderData.value, cookie);
      }
      // The page removes the first child of the `cartItems` container until none is left.
      while rows != []
        decreases |rows|
      {
        rows := rows[1..];
      }
    }
  }
}
