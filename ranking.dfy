/**
  The seasonal ranking of /api/seasonalData (canteen-automation-backend/server.js):
  the per-item, per-month rows of the grouped query are filtered to a season's
  months, summed per item in first-appearance order (a JavaScript object keyed
  by item name), sorted stably by total quantity, descending, and cut into the
  first five and the last five entries.
*/
module SeasonRanking {
  import opened Seasons

  /** One row of `SELECT item_name, SUM(quantity) AS total_quantity, MONTH(createdAt) AS month ... GROUP BY ...`. */
  datatype MonthRow = MonthRow(itemName: string, totalQuantity: int, month: int)

  /** One `[item, total]` pair of `Object.entries(aggregatedData)`. */
  datatype Entry = Entry(item: string, total: int)

  /** What the report holds for one season. */
  datatype Ranking = Ranking(top5: seq<Entry>, bottom5: seq<Entry>)

  /** The response body: the four seasons and the ranking of each. */
  datatype SeasonalReport = SeasonalReport(selectedSeasons: seq<Season>, seasonData: map<Season, Ranking>)

  function Min(a: int, b: int): int { if a <= b then a else b }

  // ---------------------------------------------------------------- filter

  /** `results.filter(item => months.includes(item.month))`. */
  function InSeason(rows: seq<MonthRow>, s: Season): (r: seq<MonthRow>)
    ensures forall x :: x in r <==> x in rows && x.month in Months(s)
    ensures |r| <= |rows|
  {
    if rows == [] then []
    else (if rows[0].month in Months(s) then [rows[0]] else []) + InSeason(rows[1..], s)
  }

  /** The filter keeps rows in order: filtering a concatenation filters each part. */
  lemma {:induction false} InSeasonAppend(a: seq<MonthRow>, b: seq<MonthRow>, s: Season)
    ensures InSeason(a + b, s) == InSeason(a, s) + InSeason(b, s)
  {
    if a == [] {
      assert a + b == b;
    } else {
      var head := if a[0].month in Months(s) then [a[0]] else [];
      ConsAppend(a, b);
      InSeasonAppend(a[1..], b, s);
      ConcatAssoc(head, InSeason(a[1..], s), InSeason(b, s));
    }
  }

  lemma ConsAppend<T>(a: seq<T>, b: seq<T>)
    requires a != []
    ensures (a + b)[0] == a[0] && (a + b)[1..] == a[1..] + b
  {
  }

  lemma ConcatAssoc<T>(x: seq<T>, y: seq<T>, z: seq<T>)
    ensures x + (y + z) == (x + y) + z
  {
  }

  /** A single row is kept exactly when its month is in the season. */
  lemma InSeasonOne(x: MonthRow, s: Season)
    ensures InSeason([x], s) == if x.month in Months(s) then [x] else []
  {
    assert [x][1..] == [];
  }

  // ---------------------------------------------------------- aggregation

  /** The item names of the rows, in row order. */
  function RowItems(rows: seq<MonthRow>): (r: seq<string>)
    ensures |r| == |rows|
    ensures forall k :: 0 <= k < |rows| ==> r[k] == rows[k].itemName
  {
    seq(|rows|, k requires 0 <= k < |rows| => rows[k].itemName)
  }

  /** The keys of the aggregate, in entry order. */
  function EntryItems(es: seq<Entry>): (r: seq<string>)
    ensures |r| == |es|
    ensures forall k :: 0 <= k < |es| ==> r[k] == es[k].item
  {
    seq(|es|, k requires 0 <= k < |es| => es[k].item)
  }

  /** An object has each key once. */
  predicate DistinctItems(es: seq<Entry>) {
    forall i, j :: 0 <= i < j < |es| ==> es[i].item != es[j].item
  }

  /** Reference definition: the sum of `total_quantity` over the rows of one item. */
  function SumFor(rows: seq<MonthRow>, name: string): int {
    if rows == [] then 0
    else SumFor(rows[..|rows| - 1], name)
         + (if rows[|rows| - 1].itemName == name then rows[|rows| - 1].totalQuantity else 0)
  }

  lemma InTail(rows: seq<MonthRow>, name: string)
    requires rows != [] && name in RowItems(rows) && rows[0].itemName != name
    ensures name in RowItems(rows[1..])
  {
    var k :| 0 <= k < |rows| && RowItems(rows)[k] == name;
    assert k != 0;
    assert RowItems(rows[1..])[k - 1] == name;
  }

  /** Reference definition: the position of the first row of an item. */
  function FirstIndex(rows: seq<MonthRow>, name: string): (k: nat)
    requires name in RowItems(rows)
    ensures k < |rows| && rows[k].itemName == name
    ensures forall j :: 0 <= j < k ==> rows[j].itemName != name
  {
    if rows[0].itemName == name then 0
    else
      InTail(rows, name);
      var k := FirstIndex(rows[1..], name);
      assert forall j :: 1 <= j <= k ==> rows[j] == rows[1..][j - 1];
      1 + k
  }

  /** Where `name` is a key of the aggregate, or -1. */
  function IndexOfItem(es: seq<Entry>, name: string): (i: int)
    ensures -1 <= i < |es|
    ensures i == -1 <==> name !in EntryItems(es)
    ensures i != -1 ==> es[i].item == name
  {
    if es == [] then -1
    else if es[|es| - 1].item == name then |es| - 1
    else
      assert EntryItems(es) == EntryItems(es[..|es| - 1]) + [es[|es| - 1].item];
      IndexOfItem(es[..|es| - 1], name)
  }

  /** One step of the reduce: `seasonAcc[item_name] = (seasonAcc[item_name] || 0) + total_quantity`. */
  function AddRow(acc: seq<Entry>, row: MonthRow): seq<Entry> {
    var i := IndexOfItem(acc, row.itemName);
    if i == -1 then acc + [Entry(row.itemName, row.totalQuantity)]
    else acc[i := Entry(row.itemName, acc[i].total + row.totalQuantity)]
  }

  /** The keys of the aggregate are exactly the items of the rows. */
  ghost predicate SameKeys(es: seq<Entry>, rows: seq<MonthRow>) {
    forall name :: name in EntryItems(es) <==> name in RowItems(rows)
  }

  /** Each key's value is the sum of its rows. */
  predicate TotalsAreSums(es: seq<Entry>, rows: seq<MonthRow>) {
    forall i :: 0 <= i < |es| ==> es[i].total == SumFor(rows, es[i].item)
  }

  /** Keys come in the order of their first rows. */
  predicate FirstAppearanceOrder(es: seq<Entry>, rows: seq<MonthRow>) {
    forall i, j :: 0 <= i < j < |es| ==>
      && es[i].item in RowItems(rows) && es[j].item in RowItems(rows)
      && FirstIndex(rows, es[i].item) < FirstIndex(rows, es[j].item)
  }

  /**
    What an aggregate of `rows` must be: each key once, exactly the items of
    the rows, each with the sum of its rows, keys in first-appearance order.
  */
  ghost predicate Summarises(es: seq<Entry>, rows: seq<MonthRow>) {
    DistinctItems(es) && SameKeys(es, rows) && TotalsAreSums(es, rows) && FirstAppearanceOrder(es, rows)
  }

  lemma RowItemsSnoc(rows: seq<MonthRow>)
    requires rows != []
    ensures RowItems(rows) == RowItems(rows[..|rows| - 1]) + [rows[|rows| - 1].itemName]
  {
  }

  lemma {:induction false} SumForAbsent(rows: seq<MonthRow>, name: string)
    requires name !in RowItems(rows)
    ensures SumFor(rows, name) == 0
  {
    if rows != [] {
      RowItemsSnoc(rows);
      SumForAbsent(rows[..|rows| - 1], name);
    }
  }

  lemma FirstIndexOfPrefix(rows: seq<MonthRow>, name: string)
    requires rows != []
    requires name in RowItems(rows[..|rows| - 1])
    ensures name in RowItems(rows)
    ensures FirstIndex(rows, name) == FirstIndex(rows[..|rows| - 1], name)
  {
    var pre := rows[..|rows| - 1];
    RowItemsSnoc(rows);
    var b := FirstIndex(pre, name);
    assert rows[b] == pre[b];
  }

  /** The first row of an item that no earlier row has is the last row. */
  lemma FirstIndexOfNew(rows: seq<MonthRow>)
    requires rows != []
    requires rows[|rows| - 1].itemName !in RowItems(rows[..|rows| - 1])
    ensures rows[|rows| - 1].itemName in RowItems(rows)
    ensures FirstIndex(rows, rows[|rows| - 1].itemName) == |rows| - 1
  {
    var pre := rows[..|rows| - 1];
    var name := rows[|rows| - 1].itemName;
    forall j | 0 <= j < |pre| ensures rows[j].itemName != name {
      assert pre[j] == rows[j];
      assert RowItems(pre)[j] == rows[j].itemName;
    }
    assert RowItems(rows)[|pre|] == name;
    var k := FirstIndex(rows, name);
    assert rows[|pre|].itemName == name;
    assert k <= |pre|;
    assert k >= |pre|;
  }

  /** Adding the last row's quantity to the sums over the rows before it. */
  lemma SumForSnoc(rows: seq<MonthRow>, name: string)
    requires rows != []
    ensures SumFor(rows, name) == SumFor(rows[..|rows| - 1], name)
      + (if rows[|rows| - 1].itemName == name then rows[|rows| - 1].totalQuantity else 0)
  {
  }

  lemma NewItemKeys(acc: seq<Entry>, rows: seq<MonthRow>)
    requires rows != [] && SameKeys(acc, rows[..|rows| - 1])
    ensures SameKeys(acc + [Entry(rows[|rows| - 1].itemName, rows[|rows| - 1].totalQuantity)], rows)
  {
    var r := acc + [Entry(rows[|rows| - 1].itemName, rows[|rows| - 1].totalQuantity)];
    RowItemsSnoc(rows);
    assert EntryItems(r) == EntryItems(acc) + [rows[|rows| - 1].itemName];
  }

  lemma NewItemDistinct(acc: seq<Entry>, e: Entry)
    requires DistinctItems(acc) && e.item !in EntryItems(acc)
    ensures DistinctItems(acc + [e])
  {
    forall a | 0 <= a < |acc| ensures acc[a].item != e.item {
      assert EntryItems(acc)[a] == acc[a].item;
    }
  }

  lemma NewItemTotals(acc: seq<Entry>, rows: seq<MonthRow>)
    requires rows != [] && TotalsAreSums(acc, rows[..|rows| - 1])
    requires rows[|rows| - 1].itemName !in RowItems(rows[..|rows| - 1])
    requires forall a :: 0 <= a < |acc| ==> acc[a].item != rows[|rows| - 1].itemName
    ensures TotalsAreSums(acc + [Entry(rows[|rows| - 1].itemName, rows[|rows| - 1].totalQuantity)], rows)
  {
    var last := rows[|rows| - 1];
    var r := acc + [Entry(last.itemName, last.totalQuantity)];
    SumForAbsent(rows[..|rows| - 1], last.itemName);
    forall i | 0 <= i < |r| ensures r[i].total == SumFor(rows, r[i].item) {
      SumForSnoc(rows, r[i].item);
    }
  }

  lemma NewItemOrder(acc: seq<Entry>, rows: seq<MonthRow>)
    requires rows != [] && SameKeys(acc, rows[..|rows| - 1])
    requires FirstAppearanceOrder(acc, rows[..|rows| - 1])
    requires rows[|rows| - 1].itemName !in RowItems(rows[..|rows| - 1])
    ensures FirstAppearanceOrder(acc + [Entry(rows[|rows| - 1].itemName, rows[|rows| - 1].totalQuantity)], rows)
  {
    var pre := rows[..|rows| - 1];
    var r := acc + [Entry(rows[|rows| - 1].itemName, rows[|rows| - 1].totalQuantity)];
    FirstIndexOfNew(rows);
    forall a | 0 <= a < |acc|
      ensures acc[a].item in RowItems(rows)
      ensures FirstIndex(rows, acc[a].item) == FirstIndex(pre, acc[a].item) < |pre|
    {
      assert EntryItems(acc)[a] == acc[a].item;
      FirstIndexOfPrefix(rows, acc[a].item);
    }
    forall i, j | 0 <= i < j < |r|
      ensures r[i].item in RowItems(rows) && r[j].item in RowItems(rows)
      ensures FirstIndex(rows, r[i].item) < FirstIndex(rows, r[j].item)
    {
      assert r[i] == acc[i];
      if j < |acc| {
        assert r[j] == acc[j];
      }
    }
  }

  /** A new item goes at the end, with its row's quantity. */
  lemma AddNewItemSummarises(acc: seq<Entry>, rows: seq<MonthRow>)
    requires rows != []
    requires Summarises(acc, rows[..|rows| - 1])
    requires IndexOfItem(acc, rows[|rows| - 1].itemName) == -1
    ensures Summarises(acc + [Entry(rows[|rows| - 1].itemName, rows[|rows| - 1].totalQuantity)], rows)
  {
    var last := rows[|rows| - 1];
    assert last.itemName !in RowItems(rows[..|rows| - 1]);
    NewItemDistinct(acc, Entry(last.itemName, last.totalQuantity));
    NewItemKeys(acc, rows);
    NewItemTotals(acc, rows);
    NewItemOrder(acc, rows);
  }

  lemma KnownItemKeys(acc: seq<Entry>, rows: seq<MonthRow>, i: nat, e: Entry)
    requires rows != [] && SameKeys(acc, rows[..|rows| - 1])
    requires i < |acc| && acc[i].item == rows[|rows| - 1].itemName && e.item == acc[i].item
    ensures SameKeys(acc[i := e], rows)
  {
    RowItemsSnoc(rows);
    assert EntryItems(acc[i := e]) == EntryItems(acc);
    assert EntryItems(acc)[i] == acc[i].item;
  }

  lemma KnownItemTotals(acc: seq<Entry>, rows: seq<MonthRow>, i: nat)
    requires rows != [] && TotalsAreSums(acc, rows[..|rows| - 1]) && DistinctItems(acc)
    requires i < |acc| && acc[i].item == rows[|rows| - 1].itemName
    ensures TotalsAreSums(acc[i := Entry(acc[i].item, acc[i].total + rows[|rows| - 1].totalQuantity)], rows)
  {
    var r := acc[i := Entry(acc[i].item, acc[i].total + rows[|rows| - 1].totalQuantity)];
    forall k | 0 <= k < |r| ensures r[k].total == SumFor(rows, r[k].item) {
      SumForSnoc(rows, r[k].item);
      if k != i {
        assert acc[k].item != acc[i].item;
      }
    }
  }

  lemma KnownItemOrder(acc: seq<Entry>, rows: seq<MonthRow>, i: nat, e: Entry)
    requires rows != [] && SameKeys(acc, rows[..|rows| - 1])
    requires FirstAppearanceOrder(acc, rows[..|rows| - 1])
    requires i < |acc| && e.item == acc[i].item
    ensures FirstAppearanceOrder(acc[i := e], rows)
  {
    var pre := rows[..|rows| - 1];
    var r := acc[i := e];
    forall a | 0 <= a < |acc|
      ensures acc[a].item in RowItems(rows)
      ensures r[a].item == acc[a].item
      ensures FirstIndex(rows, acc[a].item) == FirstIndex(pre, acc[a].item)
    {
      assert EntryItems(acc)[a] == acc[a].item;
      FirstIndexOfPrefix(rows, acc[a].item);
    }
  }

  /** A known item keeps its place and gains the row's quantity. */
  lemma AddKnownItemSummarises(acc: seq<Entry>, rows: seq<MonthRow>, i: nat)
    requires rows != []
    requires Summarises(acc, rows[..|rows| - 1])
    requires i < |acc| && acc[i].item == rows[|rows| - 1].itemName
    ensures Summarises(acc[i := Entry(acc[i].item, acc[i].total + rows[|rows| - 1].totalQuantity)], rows)
  {
    var e := Entry(acc[i].item, acc[i].total + rows[|rows| - 1].totalQuantity);
    assert DistinctItems(acc[i := e]);
    KnownItemKeys(acc, rows, i, e);
    KnownItemTotals(acc, rows, i);
    KnownItemOrder(acc, rows, i, e);
  }

  lemma AddRowSummarises(acc: seq<Entry>, rows: seq<MonthRow>)
    requires rows != []
    requires Summarises(acc, rows[..|rows| - 1])
    ensures Summarises(AddRow(acc, rows[|rows| - 1]), rows)
  {
    var last := rows[|rows| - 1];
    var i := IndexOfItem(acc, last.itemName);
    var r := AddRow(acc, last);
    if i == -1 {
      AddNewItemSummarises(acc, rows);
      assert r == acc + [Entry(last.itemName, last.totalQuantity)];
    } else {
      AddKnownItemSummarises(acc, rows, i);
      assert r == acc[i := Entry(acc[i].item, acc[i].total + last.totalQuantity)];
    }
  }


  /**
    The reduce over the season's rows, left to right. Keys appear once, in the
    order of their first row; each key's value is the sum of its rows.
  */
  function Aggregate(rows: seq<MonthRow>): (r: seq<Entry>)
    ensures Summarises(r, rows)
  {
    if rows == [] then []
    else
      var acc := Aggregate(rows[..|rows| - 1]);
      AddRowSummarises(acc, rows);
      AddRow(acc, rows[|rows| - 1])
  }

  // ---------------------------------------------------------------- sort

  predicate SortedByTotalDesc(es: seq<Entry>) {
    forall i, j :: 0 <= i < j < |es| ==> es[i].total >= es[j].total
  }

  lemma SortedCons(h: Entry, rest: seq<Entry>)
    requires SortedByTotalDesc(rest)
    requires forall x :: x in rest ==> x.total <= h.total
    ensures SortedByTotalDesc([h] + rest)
  {
    var r := [h] + rest;
    forall i, j | 0 <= i < j < |r|
      ensures r[i].total >= r[j].total
    {
      assert r[j] == rest[j - 1];
      if i > 0 {
        assert r[i] == rest[i - 1];
      } else {
        assert rest[j - 1] in rest;
      }
    }
  }

  lemma HeadBoundsSorted(e: Entry, es: seq<Entry>)
    requires SortedByTotalDesc(es)
    requires es == [] || e.total >= es[0].total
    ensures forall x :: x in es ==> x.total <= e.total
  {
    forall x | x in es
      ensures x.total <= e.total
    {
      var k :| 0 <= k < |es| && es[k] == x;
      assert es[0].total >= es[k].total;
    }
  }

  lemma InsertedBelowHead(e: Entry, es: seq<Entry>, rest: seq<Entry>)
    requires es != [] && SortedByTotalDesc(es) && e.total < es[0].total
    requires multiset(rest) == multiset(es[1..]) + multiset{e}
    ensures forall x :: x in rest ==> x.total <= es[0].total
  {
    forall x | x in rest
      ensures x.total <= es[0].total
    {
      assert x in multiset(rest);
      if x != e {
        assert x in multiset(es[1..]);
        var k :| 0 <= k < |es[1..]| && es[1..][k] == x;
        assert es[k + 1] == x;
      }
    }
  }

  /** Places `e` before the first entry whose total is not larger. */
  function InsertByTotal(e: Entry, es: seq<Entry>): (r: seq<Entry>)
    requires SortedByTotalDesc(es)
    ensures SortedByTotalDesc(r)
    ensures multiset(r) == multiset(es) + multiset{e}
    ensures |r| == |es| + 1
  {
    if es == [] || e.total >= es[0].total then
      HeadBoundsSorted(e, es);
      SortedCons(e, es);
      [e] + es
    else
      var rest := InsertByTotal(e, es[1..]);
      assert es == [es[0]] + es[1..];
      InsertedBelowHead(e, es, rest);
      SortedCons(es[0], rest);
      [es[0]] + rest
  }

  /**
    `Object.entries(aggregatedData).sort(([, a], [, b]) => b - a)`: the
    engine's sort is stable, so this insertion sort is its reference.
  */
  function SortByTotalDesc(es: seq<Entry>): (r: seq<Entry>)
    ensures SortedByTotalDesc(r)
    ensures multiset(r) == multiset(es)
    ensures |r| == |es|
  {
    if es == [] then []
    else
      assert es == [es[0]] + es[1..];
      InsertByTotal(es[0], SortByTotalDesc(es[1..]))
  }

  /** The entries with total `t`, in their order. */
  function WithTotal(es: seq<Entry>, t: int): seq<Entry> {
    if es == [] then []
    else (if es[0].total == t then [es[0]] else []) + WithTotal(es[1..], t)
  }

  lemma {:induction false} WithTotalAppend(a: seq<Entry>, b: seq<Entry>, t: int)
    ensures WithTotal(a + b, t) == WithTotal(a, t) + WithTotal(b, t)
  {
    if a == [] {
      assert a + b == b;
    } else {
      var h := if a[0].total == t then [a[0]] else [];
      calc {
        WithTotal(a + b, t);
        { assert (a + b)[0] == a[0]; assert (a + b)[1..] == a[1..] + b; }
        h + WithTotal(a[1..] + b, t);
        { WithTotalAppend(a[1..], b, t); }
        h + (WithTotal(a[1..], t) + WithTotal(b, t));
        (h + WithTotal(a[1..], t)) + WithTotal(b, t);
        WithTotal(a, t) + WithTotal(b, t);
      }
    }
  }

  lemma WithTotalSingle(x: Entry, t: int)
    ensures WithTotal([x], t) == if x.total == t then [x] else []
  {
    assert [x][1..] == [];
  }

  /** Two entries with different totals never both land in one group. */
  lemma SwapDistinctTotals(x: Entry, y: Entry, s: seq<Entry>, t: int)
    requires x.total != y.total
    ensures WithTotal([y], t) + (WithTotal([x], t) + s) == WithTotal([x], t) + (WithTotal([y], t) + s)
  {
    WithTotalSingle(x, t);
    WithTotalSingle(y, t);
    if x.total == t {
      assert WithTotal([y], t) == [];
      assert [] + ([x] + s) == [x] + s;
      assert [x] + ([] + s) == [x] + s;
    } else {
      assert WithTotal([x], t) == [];
      assert [] + s == s;
    }
  }

  lemma {:induction false} InsertKeepsTieOrder(e: Entry, es: seq<Entry>, t: int)
    requires SortedByTotalDesc(es)
    ensures WithTotal(InsertByTotal(e, es), t) == WithTotal([e], t) + WithTotal(es, t)
  {
    if es == [] || e.total >= es[0].total {
      WithTotalAppend([e], es, t);
    } else {
      var rest := InsertByTotal(e, es[1..]);
      assert InsertByTotal(e, es) == [es[0]] + rest;
      calc {
        WithTotal(InsertByTotal(e, es), t);
        WithTotal([es[0]] + rest, t);
        { WithTotalAppend([es[0]], rest, t); }
        WithTotal([es[0]], t) + WithTotal(rest, t);
        { InsertKeepsTieOrder(e, es[1..], t); }
        WithTotal([es[0]], t) + (WithTotal([e], t) + WithTotal(es[1..], t));
        { SwapDistinctTotals(e, es[0], WithTotal(es[1..], t), t); }
        WithTotal([e], t) + (WithTotal([es[0]], t) + WithTotal(es[1..], t));
        { WithTotalAppend([es[0]], es[1..], t); assert es == [es[0]] + es[1..]; }
        WithTotal([e], t) + WithTotal(es, t);
      }
    }
  }

  /** Stability: entries with equal totals keep their first-appearance order. */
  lemma {:induction false} SortIsStable(es: seq<Entry>, t: int)
    ensures WithTotal(SortByTotalDesc(es), t) == WithTotal(es, t)
  {
    if es != [] {
      var sortedTail := SortByTotalDesc(es[1..]);
      calc {
        WithTotal(SortByTotalDesc(es), t);
        WithTotal(InsertByTotal(es[0], sortedTail), t);
        { InsertKeepsTieOrder(es[0], sortedTail, t); }
        WithTotal([es[0]], t) + WithTotal(sortedTail, t);
        { SortIsStable(es[1..], t); }
        WithTotal([es[0]], t) + WithTotal(es[1..], t);
        { WithTotalAppend([es[0]], es[1..], t); assert es == [es[0]] + es[1..]; }
        WithTotal(es, t);
      }
    }
  }

  lemma {:induction false} WithTotalNonEmpty(es: seq<Entry>, k: nat)
    requires k < |es|
    ensures WithTotal(es, es[k].total) != []
  {
    if k > 0 {
      WithTotalNonEmpty(es[1..], k - 1);
    }
  }

  lemma {:induction false} WithTotalMember(es: seq<Entry>, t: int, x: Entry)
    requires x in WithTotal(es, t)
    ensures x in es && x.total == t
  {
    if es != [] && !(es[0].total == t && x == es[0]) {
      WithTotalMember(es[1..], t, x);
    }
  }

  /** Sequences with the same groups are empty together. */
  lemma SameTiesEmptyTogether(a: seq<Entry>, b: seq<Entry>)
    requires forall t :: WithTotal(a, t) == WithTotal(b, t)
    ensures a == [] <==> b == []
  {
    if a != [] {
      WithTotalNonEmpty(a, 0);
      assert WithTotal(b, a[0].total) != [];
    }
    if b != [] {
      WithTotalNonEmpty(b, 0);
      assert WithTotal(a, b[0].total) != [];
    }
  }

  /** In a sorted sequence the head has the largest total. */
  lemma SortedHeadIsMax(es: seq<Entry>, x: Entry)
    requires SortedByTotalDesc(es) && x in es
    ensures x.total <= es[0].total
  {
    var k :| 0 <= k < |es| && es[k] == x;
    if k > 0 {
      assert es[0].total >= es[k].total;
    }
  }

  /** A sorted sequence's head is the first entry of the largest group. */
  lemma SortedHeadLeadsItsGroup(es: seq<Entry>, x: Entry)
    requires SortedByTotalDesc(es) && es != []
    requires x in WithTotal(es, x.total)
    ensures es[0].total >= x.total
  {
    WithTotalMember(es, x.total, x);
    SortedHeadIsMax(es, x);
  }

  lemma SameTiesSameHead(a: seq<Entry>, b: seq<Entry>)
    requires SortedByTotalDesc(a) && SortedByTotalDesc(b) && a != [] && b != []
    requires forall t :: WithTotal(a, t) == WithTotal(b, t)
    ensures a[0] == b[0]
  {
    var ta, tb := a[0].total, b[0].total;
    WithTotalNonEmpty(a, 0);
    WithTotalNonEmpty(b, 0);
    assert WithTotal(a, ta)[0] == a[0];
    assert WithTotal(b, tb)[0] == b[0];
    assert WithTotal(b, ta)[0] == a[0];
    assert WithTotal(a, tb)[0] == b[0];
    SortedHeadLeadsItsGroup(b, a[0]);
    SortedHeadLeadsItsGroup(a, b[0]);
    assert WithTotal(b, ta)[0] == b[0];
  }

  lemma SameTiesSameTails(a: seq<Entry>, b: seq<Entry>)
    requires a != [] && b != [] && a[0] == b[0]
    requires forall t :: WithTotal(a, t) == WithTotal(b, t)
    ensures forall t :: WithTotal(a[1..], t) == WithTotal(b[1..], t)
  {
    forall t ensures WithTotal(a[1..], t) == WithTotal(b[1..], t) {
      var head := if a[0].total == t then [a[0]] else [];
      assert WithTotal(a, t) == head + WithTotal(a[1..], t);
      assert WithTotal(b, t) == head + WithTotal(b[1..], t);
      assert WithTotal(a[1..], t) == WithTotal(a, t)[|head|..];
      assert WithTotal(b[1..], t) == WithTotal(b, t)[|head|..];
    }
  }

  /**
    The sort is determined by these three facts: two sequences that are both
    sorted by total, descending, and agree on the order of each group of equal
    totals are the same sequence.
  */
  lemma {:induction false} SortedWithSameTiesAreEqual(a: seq<Entry>, b: seq<Entry>)
    requires SortedByTotalDesc(a) && SortedByTotalDesc(b)
    requires forall t :: WithTotal(a, t) == WithTotal(b, t)
    ensures a == b
  {
    SameTiesEmptyTogether(a, b);
    if a != [] {
      SameTiesSameHead(a, b);
      SameTiesSameTails(a, b);
      SortedWithSameTiesAreEqual(a[1..], b[1..]);
      assert a == [a[0]] + a[1..] && b == [b[0]] + b[1..];
    }
  }

  /** Any sorted, tie-preserving arrangement of the entries is the sort's result. */
  lemma SortIsUnique(es: seq<Entry>, r: seq<Entry>)
    requires SortedByTotalDesc(r)
    requires forall t :: WithTotal(r, t) == WithTotal(es, t)
    ensures r == SortByTotalDesc(es)
  {
    forall t ensures WithTotal(r, t) == WithTotal(SortByTotalDesc(es), t) {
      SortIsStable(es, t);
    }
    SortedWithSameTiesAreEqual(r, SortByTotalDesc(es));
  }

  // -------------------------------------------------------------- slices

  /**
    `sortedItems.slice(0, 5)`: the first five entries, or all of them when
    there are fewer; on a sorted list, none of them sells less than an entry
    left out.
  */
  function Top5(sorted: seq<Entry>): (r: seq<Entry>)
    ensures |r| == Min(5, |sorted|)
    ensures forall i :: 0 <= i < |r| ==> r[i] == sorted[i]
    ensures SortedByTotalDesc(sorted) ==>
      forall i, j :: 0 <= i < |r| <= j < |sorted| ==> r[i].total >= sorted[j].total
  {
    sorted[..Min(5, |sorted|)]
  }

  /**
    `sortedItems.slice(-5)`: a negative start counts from the end and stops at
    0, so the last five entries, or all of them when there are fewer; on a
    sorted list, none of them sells more than an entry left out.
  */
  function Bottom5(sorted: seq<Entry>): (r: seq<Entry>)
    ensures |r| == Min(5, |sorted|)
    ensures forall i :: 0 <= i < |r| ==> r[i] == sorted[|sorted| - |r| + i]
    ensures SortedByTotalDesc(sorted) ==>
      forall i, j :: 0 <= i < |r| && 0 <= j < |sorted| - |r| ==> r[i].total <= sorted[j].total
  {
    sorted[|sorted| - Min(5, |sorted|)..]
  }

  /** The season's sorted aggregate. */
  function SeasonEntries(results: seq<MonthRow>, s: Season): seq<Entry> {
    SortByTotalDesc(Aggregate(InSeason(results, s)))
  }

  /** `acc[season] = { top5, bottom5 }`. */
  function RankSeason(results: seq<MonthRow>, s: Season): Ranking {
    var sorted := SeasonEntries(results, s);
    Ranking(Top5(sorted), Bottom5(sorted))
  }

  /**
    Both slices hold min(5, n) of the season's n entries; every ranked entry
    is an item sold in the season's months, with the sum of its quantities
    over those months; top5 holds at least as much as every entry after it,
    and bottom5 at most as much as every entry before it.
  */
  lemma RankingIsSeasonSlice(results: seq<MonthRow>, s: Season)
    ensures var sorted := SeasonEntries(results, s);
      var r := RankSeason(results, s);
      && |r.top5| == |r.bottom5| == Min(5, |sorted|)
      && (forall e :: e in sorted ==>
            e.item in RowItems(InSeason(results, s)) && e.total == SumFor(InSeason(results, s), e.item))
      && (forall e :: e in r.top5 || e in r.bottom5 ==> e in sorted)
      && (forall i, j :: 0 <= i < |r.top5| <= j < |sorted| ==> r.top5[i].total >= sorted[j].total)
      && (forall i, j :: 0 <= i < |r.bottom5| && 0 <= j < |sorted| - |r.bottom5| ==>
            r.bottom5[i].total <= sorted[j].total)
  {
    var rows := InSeason(results, s);
    var agg := Aggregate(rows);
    var sorted := SeasonEntries(results, s);
    forall e | e in sorted
      ensures e.item in RowItems(rows) && e.total == SumFor(rows, e.item)
    {
      assert e in multiset(sorted);
      assert e in agg;
      var i :| 0 <= i < |agg| && agg[i] == e;
      assert EntryItems(agg)[i] == e.item;
    }
  }

  /** A season with no rows in its months yields empty top5 and bottom5. */
  lemma EmptySeasonHasEmptyRanking(results: seq<MonthRow>, s: Season)
    requires forall x :: x in results ==> x.month !in Months(s)
    ensures RankSeason(results, s) == Ranking([], [])
  {
  }

  lemma SlicesOverlap(sorted: seq<Entry>)
    requires 0 < |sorted| < 10
    ensures sorted[Min(5, |sorted|) - 1] in Top5(sorted)
    ensures sorted[Min(5, |sorted|) - 1] in Bottom5(sorted)
  {
    var n, m := |sorted|, Min(5, |sorted|);
    assert Top5(sorted)[m - 1] == sorted[m - 1];
    assert Bottom5(sorted)[m - 1 - (n - m)] == sorted[m - 1];
  }

  /** With fewer than ten ranked items (and at least one), top5 and bottom5 share an entry. */
  lemma TopAndBottomOverlap(results: seq<MonthRow>, s: Season)
    requires 0 < |SeasonEntries(results, s)| < 10
    ensures exists e :: e in RankSeason(results, s).top5 && e in RankSeason(results, s).bottom5
  {
    var sorted := SeasonEntries(results, s);
    SlicesOverlap(sorted);
    var e := sorted[Min(5, |sorted|) - 1];
    assert e in RankSeason(results, s).top5 && e in RankSeason(results, s).bottom5;
  }

  /** The whole /api/seasonalData computation after the query. */
  method SeasonalData(results: seq<MonthRow>, currentMonth: int) returns (report: SeasonalReport)
    requires IsMonth(currentMonth)
    ensures |report.selectedSeasons| == 4
    ensures currentMonth in Months(report.selectedSeasons[3])
    ensures forall k :: 0 <= k < 3 ==> Next(report.selectedSeasons[k]) == report.selectedSeasons[k + 1]
    ensures forall s :: s in report.selectedSeasons && s in report.seasonData
    ensures forall s :: s in report.seasonData ==> report.seasonData[s] == RankSeason(results, s)
  {
    var selectedSeasons := SelectSeasons(currentMonth);
    var seasonData := map s | s in selectedSeasons :: RankSeason(results, s);
    report := SeasonalReport(selectedSeasons, seasonData);
  }
}

