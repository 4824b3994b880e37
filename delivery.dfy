/**
  POST /api/updateDeliveryStatus (canteen-automation-backend/server.js): the
  request guard and `UPDATE orders SET delivered = ? WHERE order_id = ? AND
  item_name = ?` over the orders table, which the statement changes in place.
*/
module Delivery {
  import opened JsValues
  import opened OrderService

  /**
    The WHERE clause: the bound order id and item name equal the row's columns.
    A bound value of another kind than the column (a text order id, a numeric
    item name) is taken to match nothing.
  */
  predicate Matches(row: OrderRow, orderId: JsValue, itemName: JsValue) {
    orderId == Num(row.orderId) && itemName == Str(row.itemName)
  }

  /** The table after the UPDATE: matching rows get the new flag, all others stay as they were. */
  function SetDelivered(rows: seq<OrderRow>, orderId: JsValue, itemName: JsValue, delivered: bool): (r: seq<OrderRow>)
    ensures |r| == |rows|
    ensures forall i :: 0 <= i < |rows| ==> r[i] == rows[i].(delivered := r[i].delivered)
    ensures forall i :: 0 <= i < |rows| && r[i] != rows[i] ==> Matches(rows[i], orderId, itemName)
  {
    seq(|rows|, i requires 0 <= i < |rows| =>
      if Matches(rows[i], orderId, itemName) then rows[i].(delivered := delivered) else rows[i])
  }

  /** `results.affectedRows`: the driver reports matched rows, so this counts the rows the WHERE selects. */
  function AffectedRows(rows: seq<OrderRow>, orderId: JsValue, itemName: JsValue): (n: nat)
    ensures n <= |rows|
    ensures n == |rows| <==> forall i :: 0 <= i < |rows| ==> Matches(rows[i], orderId, itemName)
  {
    if rows == [] then 0
    else
      assert forall i :: 1 <= i < |rows| ==> rows[i] == rows[1..][i - 1];
      (if Matches(rows[0], orderId, itemName) then 1 else 0) + AffectedRows(rows[1..], orderId, itemName)
  }

  /** The UPDATE touches exactly the matching rows, and in those only the delivered flag. */
  lemma SetDeliveredChangesOnlyMatches(rows: seq<OrderRow>, orderId: JsValue, itemName: JsValue, d: bool)
    ensures |SetDelivered(rows, orderId, itemName, d)| == |rows|
    ensures forall i :: 0 <= i < |rows| && !Matches(rows[i], orderId, itemName) ==>
      SetDelivered(rows, orderId, itemName, d)[i] == rows[i]
    ensures forall i :: 0 <= i < |rows| && Matches(rows[i], orderId, itemName) ==>
      SetDelivered(rows, orderId, itemName, d)[i] == rows[i].(delivered := d)
  {
  }

  /** No row is affected exactly when no row matches, and then the table is unchanged. */
  lemma {:induction false} NoAffectedRowsIffNoMatch(rows: seq<OrderRow>, orderId: JsValue, itemName: JsValue)
    ensures AffectedRows(rows, orderId, itemName) == 0 <==>
      forall i :: 0 <= i < |rows| ==> !Matches(rows[i], orderId, itemName)
  {
    if AffectedRows(rows, orderId, itemName) == 0 {
      NoneAffectedNoneMatch(rows, orderId, itemName);
    }
    if forall i :: 0 <= i < |rows| ==> !Matches(rows[i], orderId, itemName) {
      NoMatchNoneAffected(rows, orderId, itemName);
    }
  }

  lemma {:induction false} NoneAffectedNoneMatch(rows: seq<OrderRow>, orderId: JsValue, itemName: JsValue)
    requires AffectedRows(rows, orderId, itemName) == 0
    ensures forall i :: 0 <= i < |rows| ==> !Matches(rows[i], orderId, itemName)
  {
    if rows != [] {
      NoneAffectedNoneMatch(rows[1..], orderId, itemName);
      forall i | 1 <= i < |rows| ensures rows[i] == rows[1..][i - 1] {}
    }
  }

  lemma {:induction false} NoMatchNoneAffected(rows: seq<OrderRow>, orderId: JsValue, itemName: JsValue)
    requires forall i :: 0 <= i < |rows| ==> !Matches(rows[i], orderId, itemName)
    ensures AffectedRows(rows, orderId, itemName) == 0
  {
    if rows != [] {
      forall i | 0 <= i < |rows[1..]| ensures !Matches(rows[1..][i], orderId, itemName) {
        assert rows[1..][i] == rows[i + 1];
      }
      NoMatchNoneAffected(rows[1..], orderId, itemName);
    }
  }

  /** Running the same update twice is the same as running it once. */
  lemma SetDeliveredIdempotent(rows: seq<OrderRow>, orderId: JsValue, itemName: JsValue, d: bool)
    ensures SetDelivered(SetDelivered(rows, orderId, itemName, d), orderId, itemName, d)
         == SetDelivered(rows, orderId, itemName, d)
  {
  }

  /** The update leaves the set of matching rows as it was: a repeat affects as many rows. */
  lemma {:induction false} SetDeliveredKeepsMatches(rows: seq<OrderRow>, orderId: JsValue, itemName: JsValue, d: bool)
    ensures AffectedRows(SetDelivered(rows, orderId, itemName, d), orderId, itemName)
         == AffectedRows(rows, orderId, itemName)
  {
    if rows != [] {
      SetDeliveredSplits(rows, orderId, itemName, d);
      SetDeliveredKeepsMatches(rows[1..], orderId, itemName, d);
    }
  }

  /** The update of a non-empty table is the update of its first row followed by the update of the rest. */
  lemma SetDeliveredSplits(rows: seq<OrderRow>, orderId: JsValue, itemName: JsValue, d: bool)
    requires rows != []
    ensures var after := SetDelivered(rows, orderId, itemName, d);
      && after[1..] == SetDelivered(rows[1..], orderId, itemName, d)
      && Matches(after[0], orderId, itemName) == Matches(rows[0], orderId, itemName)
  {
    var after := SetDelivered(rows, orderId, itemName, d);
    var tail := SetDelivered(rows[1..], orderId, itemName, d);
    forall i | 0 <= i < |tail| ensures after[1..][i] == tail[i] {
      assert rows[1..][i] == rows[i + 1];
    }
  }

  /** The `orders` table, which the handler updates in place. */
  class OrdersTable {
    var rows: seq<OrderRow>

    constructor (initial: seq<OrderRow>)
      ensures rows == initial
    {
      rows := initial;
    }

    /**
      `typeof delivered !== 'boolean' || !order_id || !item_name` answers 400
      and changes nothing; otherwise the UPDATE runs, and 404 is answered when
      it matched no row.
    */
    method UpdateDeliveryStatus(orderId: JsValue, itemName: JsValue, delivered: JsValue) returns (status: Status)
      modifies this
      ensures status == BadRequest <==> !delivered.Bool? || !Truthy(orderId) || !Truthy(itemName)
      ensures status == BadRequest ==> rows == old(rows)
      ensures status != BadRequest ==> rows == SetDelivered(old(rows), orderId, itemName, delivered.b)
      ensures status != BadRequest ==>
        (status == NotFound <==> forall i :: 0 <= i < |old(rows)| ==> !Matches(old(rows)[i], orderId, itemName))
      ensures status in {Ok, BadRequest, NotFound}
    {
      if !delivered.Bool? || !Truthy(orderId) || !Truthy(itemName) {
        return BadRequest;
      }
      var affectedRows := AffectedRows(rows, orderId, itemName);
      NoAffectedRowsIffNoMatch(rows, orderId, itemName);
      rows := SetDelivered(rows, orderId, itemName, delivered.b);
      if affectedRows == 0 {
        return NotFound;
      }
      status := Ok;
    }
  }
}
