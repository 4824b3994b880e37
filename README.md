# Canteen automation: backend rules and client cart, in Dafny

This project models the logic of the canteen automation system. It has two
parts: the Express backend (`canteen-automation-backend/server.js`) and the
browser cart (`Canteen-Automation-System-Website/cart.js`). It proves what
these parts promise.

Backend:

- **Seasonal ranking** (`/api/seasonalData`):
  - the month-to-season table and the lookup of the current season;
  - the loop that picks the four seasons ending with the current one;
  - the per-season group-by-sum of quantities;
  - the stable sort by quantity, descending;
  - the `top5` / `bottom5` slices.
- **Order submission** (`/submitOrder`): the request guard and the rows handed
  to the bulk `INSERT`, including the 500 for a null item and for an empty
  item list.
- **Delivery update** (`/api/updateDeliveryStatus`): the request guard, and the
  `UPDATE … WHERE order_id = ? AND item_name = ?` as an in-place update of an
  orders table. The 404 answer comes when no row matches.
- **Daily item** (`/daily-item`): the request guard.
- **Wastage report** (`/daily-wastage`): the left join of prepared quantities
  against the day's orders, as the query is written and as it is evidently
  meant.
- **Daily metrics** (`/api/dailyMetrics`): the three aggregates and the
  handler's null-to-zero defaulting.

Client:

- The cart is a class holding the ordered sequence of cart rows. Its methods
  mirror the handlers:
  - add, which refuses a duplicate title;
  - remove;
  - quantity clamp;
  - the total, a loop;
  - the order payload, a loop;
  - purchase, which clears the cart with a loop.
- String routines:
  - the price-text filter `/[^\d.-]/g`;
  - `parseFloat` of the filtered text, in minor units;
  - the two cookie readers: the `split`-based `getCookie` and the
    regular-expression `getCookieValue`.
- `checkout.dfy` connects the two sides. A cart purchase, encoded as JSON, is
  accepted by the backend's `/submitOrder` guard and becomes one row per cart
  row.

Modelling choices:

- JavaScript numbers that carry money are integers in minor units (paise).
  With whole minor units, `Math.round(total * 100) / 100` changes nothing.
- Request bodies are JSON values with JavaScript truthiness (`JsValues`). A
  property read on `null`/`undefined` is a TypeError, which Express answers
  with 500.
- The clock (`new Date()`), the cookie text (`document.cookie`) and the
  database's success are parameters.

Where the code and the system's stated behaviour disagree, the model follows
the code:

- The system's stated behaviour is that adding an item already in the cart
  raises its quantity. `addItemToCart` (cart.js:76-81) shows an alert and
  changes nothing.
- The system's stated behaviour is that the server rejects an order without
  `userEmail`. The handler reads only `orderId` and `items` (server.js:46, 51),
  so the model ignores the email fields.

Files:

- `wrappers.dfy`: Option and Result.
- `json.dfy`: module `JsValues`.
- `seasons.dfy`: module `Seasons`.
- `ranking.dfy`: module `SeasonRanking`.
- `orders.dfy`: module `OrderService`.
- `delivery.dfy`: module `Delivery`.
- `reports.dfy`: module `Reports`.
- `prices.dfy`: module `Prices`.
- `cookies.dfy`: module `Cookies`.
- `cart.dfy`: module `ShoppingCart`.
- `checkout.dfy`: module `Checkout`.

## Model

| member | source | states |
|---|---|---|
| Seasons.MonthInExactlyOneSeason | canteen-automation-backend/server.js:248-253 | every month 1..12 lies in some season, and in only one |
| Seasons.FindSeasonIndex | canteen-automation-backend/server.js:259-261 | `findIndex`: the first season (in key order) whose months include the month, or -1 exactly when none does |
| Seasons.CurrentSeasonFound | canteen-automation-backend/server.js:255-261 | for a month 1..12 the lookup never yields -1 and names the season containing the month |
| Seasons.WindowCoversEverySeasonOnce | canteen-automation-backend/server.js:262-266 | the four seasons ending at any season are all four seasons, pairwise distinct, in cyclic Spring→Summer→Autumn→Winter order |
| Seasons.SelectSeasons | canteen-automation-backend/server.js:255-266 | the unshift loop yields 4 seasons, each season exactly once, consecutive ones in cyclic order, the last one containing the current month |
| SeasonRanking.InSeason | canteen-automation-backend/server.js:269-270 | a row is kept iff its month is one of the season's months |
| SeasonRanking.InSeasonAppend | canteen-automation-backend/server.js:270 | the filter keeps rows in their order: filtering a concatenation is the concatenation of the filtered parts |
| SeasonRanking.InSeasonOne | canteen-automation-backend/server.js:270 | a single row is kept, once, exactly when its month is in the season |
| SeasonRanking.Aggregate | canteen-automation-backend/server.js:273-276 | the entries name exactly the items of the rows, each once, in first-appearance order, with the sum of the item's quantities |
| SeasonRanking.SumForAbsent | canteen-automation-backend/server.js:273-276 | an item with no rows sums to 0 |
| SeasonRanking.AddRowSummarises | canteen-automation-backend/server.js:273-275 | one reduce step (`(acc[name] \|\| 0) + total_quantity`) keeps the summary invariant for the longer prefix |
| SeasonRanking.InsertByTotal | canteen-automation-backend/server.js:279 | inserting after all entries with a strictly larger total keeps the list non-increasing and is a permutation with the new entry added |
| SeasonRanking.SortByTotalDesc | canteen-automation-backend/server.js:279 | the sorted entries are non-increasing by total and a permutation of the input |
| SeasonRanking.SortIsStable | canteen-automation-backend/server.js:279 | for every total, the entries with that total keep their input order (`Array.prototype.sort` is stable) |
| SeasonRanking.SortIsUnique | canteen-automation-backend/server.js:279 | any non-increasing arrangement that keeps the order of ties is this sort's result, so the reference sort is the one JavaScript produces |
| SeasonRanking.Top5 | canteen-automation-backend/server.js:283 | `slice(0, 5)` holds the first min(5,n) entries in order; on a sorted list none of them has a smaller total than an entry left out |
| SeasonRanking.Bottom5 | canteen-automation-backend/server.js:284 | `slice(-5)` holds the last min(5,n) entries in order; on a sorted list none of them has a larger total than an entry left out |
| SeasonRanking.RankingIsSeasonSlice | canteen-automation-backend/server.js:279-285 | both slices hold min(5,n) of the season's n sorted entries, every ranked entry is a season item with its season sum, top5 totals at least every later entry and bottom5 at most every earlier one |
| SeasonRanking.EmptySeasonHasEmptyRanking | canteen-automation-backend/server.js:270-285 | a season with no rows in its months has empty top5 and bottom5 |
| SeasonRanking.SlicesOverlap | canteen-automation-backend/server.js:283-284 | with fewer than 10 entries, the fifth-or-last entry is in both slices |
| SeasonRanking.TopAndBottomOverlap | canteen-automation-backend/server.js:283-284 | a season with 1 to 9 items has an entry in both top5 and bottom5 |
| SeasonRanking.SeasonalData | canteen-automation-backend/server.js:255-287 | the report's selected seasons are those of the selection loop, and each selected season maps to its ranking |
| OrderService.BuildRows | canteen-automation-backend/server.js:55-62 | one row per item in item order with the same orderId and createdAt, the item's fields, delivered 1 iff truthy else 0; a null or undefined item makes it fail with 500 |
| OrderService.SubmitOrder | canteen-automation-backend/server.js:46-62 | 400 iff orderId is falsy, items is falsy or items is not an array; otherwise exactly the rows `items.map` builds, one per item, carrying the body's orderId |
| OrderService.SubmitOrderStatus | canteen-automation-backend/server.js:51-75 | 400 exactly as the guard says; Ok iff the rows build, are non-empty and the database accepts the INSERT; every other case is 500; an empty items array never answers Ok |
| OrderService.DailyItemInsert | canteen-automation-backend/server.js:181-187 | 400 iff any of item_name, quantity_prepared, date is falsy; otherwise the three values are inserted |
| OrderService.ZeroPreparedIsRejected | canteen-automation-backend/server.js:183-185 | a prepared quantity of 0 is falsy, so the daily-item request is refused with 400 |
| Delivery.SetDelivered | canteen-automation-backend/server.js:98 | the UPDATE keeps the table's length, can change only the delivered flag of a row, and changes only rows that match both keys |
| Delivery.AffectedRows | canteen-automation-backend/server.js:98-106 | affectedRows is at most the number of rows, and equals it iff every row matches both keys |
| Delivery.SetDeliveredChangesOnlyMatches | canteen-automation-backend/server.js:98 | the UPDATE keeps the table's length, sets delivered on every row matching both order_id and item_name, and leaves every other row unchanged |
| Delivery.NoAffectedRowsIffNoMatch | canteen-automation-backend/server.js:98-108 | affectedRows is 0 iff no row matches both keys |
| Delivery.SetDeliveredIdempotent | canteen-automation-backend/server.js:98 | running the same UPDATE twice leaves the table as running it once |
| Delivery.SetDeliveredKeepsMatches | canteen-automation-backend/server.js:98 | the UPDATE does not change which rows match, so the count of matches is the same afterwards |
| Delivery.OrdersTable.UpdateDeliveryStatus | canteen-automation-backend/server.js:91-111 | 400 iff delivered is not a boolean or order_id/item_name is falsy, and then the table is unchanged; otherwise the table becomes the UPDATE's result and the answer is 404 iff no row matched |
| Reports.PreparedOnAppend | canteen-automation-backend/server.js:218 | the `WHERE diq.date = ?` filter keeps rows in their order: filtering a concatenation filters each part |
| Reports.PreparedOnOne | canteen-automation-backend/server.js:218 | a single prepared row is kept, once, exactly when it carries the date |
| Reports.WastageAsWritten | canteen-automation-backend/server.js:205-220 | the query as written has the intended report's rows and keys, but each quantity_ordered is the intended one times the number (at least 1) of prepared rows in the group, and wastage is prepared minus that |
| Reports.Wastage | canteen-automation-backend/server.js:205-220 | one row per prepared (item, quantity) of the date: quantity_ordered is the sum of that item's orders on the date (0 if none), wastage is prepared minus ordered without clamping, keys are distinct |
| Reports.NoOrdersMeansAllWasted | canteen-automation-backend/server.js:209-210 | with no orders for the item that day, quantity_ordered is 0 (the IFNULL) |
| Reports.AsWrittenAgreesWithoutDuplicates | canteen-automation-backend/server.js:205-220 | when no two prepared rows of the date share item and quantity, the query as written gives the intended report |
| Reports.DuplicatePreparedRowDoublesOrdered | canteen-automation-backend/server.js:205-220 | two identical prepared rows and one order of 3: the query as written reports 6 ordered, the intended report 3 |
| Reports.DailyWastage | canteen-automation-backend/server.js:199-228 | 400 iff the date is missing or empty; otherwise the intended wastage report for that date, which is what the query as written returns whenever no (item, quantity) is prepared twice that date |
| Reports.OnDayAppend | canteen-automation-backend/server.js:122 | the `WHERE DATE(createdAt) = CURDATE()` filter keeps rows in their order: filtering a concatenation filters each part |
| Reports.OnDayOne | canteen-automation-backend/server.js:122 | a single order row is kept, once, exactly when it was created that day |
| Reports.DailyMetrics | canteen-automation-backend/server.js:116-136 | totals are the sales (over rows whose price is not NULL), item count and distinct order count of today's rows, and all three are 0 on a day without orders (the `\|\| 0` over NULL sums) |
| Reports.SalesColumn | canteen-automation-backend/server.js:118 | `SUM(price * quantity)` is NULL exactly when every row's price is NULL (no rows included), and otherwise the sum over the rows whose price is not NULL |
| Reports.UnpricedRowCountsButSellsNothing | canteen-automation-backend/server.js:116-136 | a row of today with a NULL price leaves the sales unchanged, while the item total counts its quantity and the order count its order id |
| Reports.OrdersAtMostItems | canteen-automation-backend/server.js:116-136 | when every row has quantity at least 1, totalOrders never exceeds totalItems |
| JsValues.Prop | canteen-automation-backend/server.js:55-61 | reading a property fails exactly on null and undefined, and yields an object's own field |
| Prices.FilterPriceText | Canteen-Automation-System-Website/cart.js:107 | the result holds only digits, `.` and `-`, and exactly as many of each as the input |
| Prices.FilterPriceTextAppend | Canteen-Automation-System-Website/cart.js:107 | the filter works character by character, so it keeps the order of what it keeps |
| Prices.FilterKeepsPriceText | Canteen-Automation-System-Website/cart.js:107 | text made only of kept characters passes unchanged |
| Prices.FilterPriceTextIdempotent | Canteen-Automation-System-Website/cart.js:107 | filtering twice is filtering once |
| Prices.ParsePrice | Canteen-Automation-System-Website/cart.js:107-108 | `parseFloat` of the empty text or a lone `-` is NaN, a negative amount needs a leading `-`, and a leading `-` never gives a positive amount |
| Prices.ParseUnsigned | Canteen-Automation-System-Website/cart.js:108 | the parsed amount of a digits prefix is never negative |
| Prices.TrailingTextIgnored | Canteen-Automation-System-Website/cart.js:108 | `parseFloat` reads the longest numeric prefix: an amount followed by anything that does not start with a digit reads as the amount |
| Prices.PriceRoundTrip | Canteen-Automation-System-Website/cart.js:107-108 | every amount written with two decimals (and a sign when negative) parses back to itself |
| Prices.DisplayedPriceParses | Canteen-Automation-System-Website/cart.js:107-108 | a menu price shown as a currency glyph followed by the amount filters and parses to the amount |
| Prices.ClampQuantity | Canteen-Automation-System-Website/cart.js:55-57 | a NaN or non-positive quantity becomes 1, any other is kept |
| Prices.ClampIdempotent | Canteen-Automation-System-Website/cart.js:55-57 | clamping twice is clamping once |
| Cookies.IndexOf | Canteen-Automation-System-Website/cart.js:128 | the leftmost occurrence of the separator, or -1 when there is none |
| Cookies.JoinSplit | Canteen-Automation-System-Website/cart.js:128-129 | `split` loses nothing: joining the pieces with the separator gives the text back |
| Cookies.SplitPiecesAvoidSeparator | Canteen-Automation-System-Website/cart.js:128-129 | no piece of a split contains the separator |
| Cookies.SplitInTwo | Canteen-Automation-System-Website/cart.js:128-129 | the split has exactly two pieces iff the separator occurs once, and the second piece is what follows it |
| Cookies.BeforeSemicolon | Canteen-Automation-System-Website/cart.js:129 | `split(';').shift()` is the longest `;`-free prefix: the whole text, or the text up to its first `;` |
| Cookies.GetCookie | Canteen-Automation-System-Website/cart.js:126-130 | a value getCookie returns never holds a `;` |
| Cookies.GetCookieFindsLoneOccurrence | Canteen-Automation-System-Website/cart.js:126-130 | getCookie finds a value iff `"; name="` occurs once in `"; " + cookie`, and the value is what follows up to the next `;` |
| Cookies.GetCookieOfSingleCookie | Canteen-Automation-System-Website/cart.js:126-130 | a cookie text `name=value` with a `;`-free value reads back as the value |
| Cookies.GetCookieOfRepeatedName | Canteen-Automation-System-Website/cart.js:126-130 | a name set twice makes getCookie return undefined |
| Cookies.AfterEquals | Canteen-Automation-System-Website/cart.js:165 | `\s*name\s*=` at a position either fails or ends just after an `=`, with the name after the skipped white space and only white space between the name and the `=` |
| Cookies.AfterEqualsOfName | Canteen-Automation-System-Website/cart.js:165 | the converse: when only white space precedes the name and only white space lies between the name and an `=`, `\s*name\s*=` ends just after that `=` |
| Cookies.MatchAt | Canteen-Automation-System-Website/cart.js:165 | the pattern matches at a position iff `\s*name\s*=` does and a non-`;` character follows the `=`; the capture is the `[^;]` run after the `=`, non-empty, with its leading white space dropped except for the one white-space character given back when the run is all white space |
| Cookies.Capture | Canteen-Automation-System-Website/cart.js:165 | a match begins at the start (`^`, tried first) or at a `;` followed by a match, and its capture is non-empty and `;`-free |
| Cookies.FirstFrom | Canteen-Automation-System-Website/cart.js:165 | the search returns the least position at or after its start where a match begins, or -1 when there is none |
| Cookies.GetCookieValue | Canteen-Automation-System-Website/cart.js:164-167 | `''` iff no position begins a match; otherwise the capture of the leftmost match, which is `;`-free and occurs in the text after the name |
| Cookies.GetCookieValueWithSpaceBeforeEquals | Canteen-Automation-System-Website/cart.js:164-167 | white space may stand between the name and the `=`: `name =value` reads as the value |
| Cookies.LeftmostCaptureIsTheValue | Canteen-Automation-System-Website/cart.js:164-167 | whenever a match begins at j and at no earlier position, getCookieValue returns the capture at j |
| Cookies.GetCookieValueOfSecondCookie | Canteen-Automation-System-Website/cart.js:164-167 | in `other=v1; name=v2` with a different plain name `other`, getCookieValue skips the first cookie and returns v2 |
| Cookies.ReadersAgreeOnSingleCookie | Canteen-Automation-System-Website/cart.js:126-167 | on a single cookie `name=value` whose value is non-empty, `;`-free and starts with no white space, both readers yield the value |
| ShoppingCart.CartTotalOfUnparsedRows | Canteen-Automation-System-Website/cart.js:98-116 | rows whose price or quantity does not parse add nothing, so a cart of such rows totals 0 |
| ShoppingCart.CartTotalNonNegative | Canteen-Automation-System-Website/cart.js:98-116 | rows with no negative amount give no negative total |
| ShoppingCart.CartTotalAppend | Canteen-Automation-System-Website/cart.js:101-114 | the total of two row lists put together is the sum of their totals |
| ShoppingCart.RemoveTakesRowAmount | Canteen-Automation-System-Website/cart.js:47-50 | removing a row lowers the total by exactly that row's amount |
| ShoppingCart.AddAddsPrice | Canteen-Automation-System-Website/cart.js:82-93 | an appended row (quantity 1) raises the total by its price, or by nothing when the price is NaN |
| ShoppingCart.DisplayedRowAmount | Canteen-Automation-System-Website/cart.js:104-113 | a row showing a menu price for amount m with quantity q adds m·q |
| ShoppingCart.FallbackEmail | Canteen-Automation-System-Website/cart.js:155 | `userEmail \|\| "unknown"` keeps a non-empty cookie value and is "unknown" for a missing or empty one |
| ShoppingCart.OrderItemsFollowRows | Canteen-Automation-System-Website/cart.js:134-147 | payload item k carries row k's title, parsed price, quantity text and the shared createdAt |
| ShoppingCart.SubmitGuard | Canteen-Automation-System-Website/cart.js:169-177 | an order is sent iff getCookieValue('userEmail') is non-empty, and then it is the payload with that value as its `user_email` field |
| ShoppingCart.DistinctRowsGiveDistinctItems | Canteen-Automation-System-Website/cart.js:76-81 | a cart whose titles are distinct (which addItemToCart keeps) orders each item name once |
| ShoppingCart.PurchaseOutcomeShape | Canteen-Automation-System-Website/cart.js:31-45 | an empty cart sends nothing; a sent order has one item per row, the clock reading as id and non-empty email fields |
| ShoppingCart.Cart.AddItemToCart | Canteen-Automation-System-Website/cart.js:71-96 | a title already present leaves the cart unchanged; a new title is appended as one row with quantity 1, earlier rows unchanged; titles stay distinct |
| ShoppingCart.Cart.UpdateCartTotal | Canteen-Automation-System-Website/cart.js:98-116 | the loop's total is the sum of price × quantity over rows where both parse (0 for an empty cart) |
| ShoppingCart.Cart.AddToCartClicked | Canteen-Automation-System-Website/cart.js:61-69 | adds the item as addItemToCart does and returns the new total |
| ShoppingCart.Cart.RemoveCartItem | Canteen-Automation-System-Website/cart.js:47-51 | exactly the clicked row is removed, the others keep their order, and the total drops by that row's amount |
| ShoppingCart.Cart.QuantityChanged | Canteen-Automation-System-Website/cart.js:53-59 | only row i changes, its quantity becomes the clamped entry, and the total is recomputed |
| ShoppingCart.Cart.PrepareOrderData | Canteen-Automation-System-Website/cart.js:120-162 | null iff the cart is empty; otherwise one item per row in row order, the clock reading as orderId and the getCookie email or "unknown"; in a cart with distinct titles no item name repeats |
| ShoppingCart.Cart.PurchaseClicked | Canteen-Automation-System-Website/cart.js:31-45 | sends what the payload and the email guard allow, and leaves the cart empty unless getCookie throws (left out, see below) |
| Checkout.EncodePrice | Canteen-Automation-System-Website/cart.js:186 | `JSON.stringify` writes a NaN price as null and a number as itself |
| Checkout.ServerAcceptsSubmission | canteen-automation-backend/server.js:46-62 | a sent order with a non-zero id and items passes the server's guard; the server builds one row per item with its name, price and quantity, undelivered |
| Checkout.PurchaseReachesServer | Canteen-Automation-System-Website/cart.js:31-45 | whenever a purchase sends an order, the server answers Ok (given a working database) and stores one row per cart row in cart order, with the row's title and quantity text |

## Left out

- I/O is not modelled: Express routing, the MySQL pool and its reconnect timer, response shaping beyond the status, `alert`, `console.log`, the `fetch` call, `localStorage.setItem` and the DOM event wiring in `ready`. They are plumbing around the modelled logic.
- The clock is a parameter: the current month, the `createdAt` texts and `Date.getTime()` are inputs.
- `OrderService.SubmitOrderStatus` takes whether a well-formed INSERT succeeds as a parameter (the 500 of server.js:69-74).
- `Delivery.OrdersTable.UpdateDeliveryStatus` does not model the 500 answered when the UPDATE fails (server.js:101-104); its answers are 400, 404 and success.
- `OrderService.DailyItemInsert` does not model the 500 answered when the INSERT fails (server.js:189-192).
- `Reports.DailyWastage` does not model the 500 answered when the query fails (server.js:224-227).
- `Reports.DailyWastage` answers with the intended report (`Reports.Wastage`), while the handler runs the query as written (`Reports.WastageAsWritten`). Its contract proves the two agree whenever no (item, quantity) is prepared twice for the date; the Findings row shows where they differ.
- `Reports.DailyMetrics` does not model the 500 answered when the query fails (server.js:126-129).
- `SeasonRanking.SeasonalData` does not model the 500 answered when the query fails (server.js:243-246).
- GET `/api/orders`, the itemMetrics query, `/register` and `/login` are not modelled. They are thin SQL pass-throughs or wrap bcrypt.
- The Python forecast services are not part of this model. They are pandas/Prophet model fitting and batch I/O.
- SQL comparisons use exact equality of values of the same kind. MySQL's implicit conversions between strings and numbers and its collation rules are not modelled.
- `Reports.Wastage` returns the groups in first-appearance order. SQL leaves the row order of GROUP BY unspecified, so that order is not a promise of the query.
- `SeasonRanking.SeasonalData` treats item names as ordinary keys. JavaScript lists integer-like object keys first, and that ordering is not modelled.
- `SeasonRanking.Aggregate` and `SeasonRanking.SeasonalData` treat the accumulator `{}` (server.js:273-276) as an empty dictionary. In the page it inherits `Object.prototype`, which the model does not capture. An item named after an inherited property such as `constructor`, `toString` or `valueOf` starts from that function instead of 0, so its total becomes a string and sorts on a NaN comparison. An item named `__proto__` is dropped from top5 and bottom5, because the assignment to it is ignored.
- `Prices.ParsePrice` models `parseFloat` exactly only for amounts with at most two decimals. A prefix with more decimals reads as NaN (None), because amounts are whole minor units. IEEE rounding is not modelled.
- `Prices.ParseQuantity`: the quantity input holds an integer or nothing. Fractional and exponent forms such as `2.5` or `1e2` are not modelled. The payload carries the integer's plain decimal text (`Prices.QuantityText`), not the input's raw `value`, so "02" or " 2" travels as "2".
- `Cookies.GetCookie` leaves out `decodeURIComponent`. Its URIError on a malformed escape is not modelled either.
- `ShoppingCart.Cart.PurchaseClicked` and `ShoppingCart.Cart.PrepareOrderData` inherit that gap. A malformed escape such as `userEmail=100%` makes getCookie throw (cart.js:129). The purchase then stops before the clearing loop (cart.js:42-44): nothing is sent and the cart stays full, whereas the model sends and empties it. The model's payload also carries the email undecoded (`a%40b.com` where the page sends `a@b.com`).
- `Cookies.GetCookieValue` requires the cookie name to be made of letters, digits and `_`, because the name is pasted into the regular expression. `\s` is limited to the ASCII white-space characters.
- `ShoppingCart.Cart.UpdateCartTotal` returns the total in minor units. The `"&#8377;" + total` text written into the page is not modelled.
- `Reports.DailyWastage` reads the `date` query parameter as an optional string. Express can also deliver an array for a repeated parameter; that case is not modelled.

## Findings

| source | as written | input that shows it | evidently intended | confidence | as-written member | corrected member |
|---|---|---|---|---|---|---|
| canteen-automation-backend/server.js:205-220 | each prepared row of a (item, quantity) group joins every order of the item that day, so `SUM(o.quantity)` counts the day's orders once per duplicate prepared row | two `daily_item_quantity` rows ("Tea", 10, 2024-11-25) and one order of 3 Tea that day: reported ordered 6, wastage 4 | ordered 3, wastage 7: the day's orders counted once per group | medium, not executed | Reports.WastageAsWritten (shown by Reports.DuplicatePreparedRowDoublesOrdered) | Reports.Wastage |
