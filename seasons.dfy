/**
  The fixed month-to-season table of the seasonal report and the choice of the
  four seasons it covers (canteen-automation-backend/server.js, /api/seasonalData).
*/
module Seasons {

  datatype Season = Spring | Summer | Autumn | Winter

  /** `Object.keys(seasons)`: the seasons in the order the table declares them. */
  const SeasonNames: seq<Season> := [Spring, Summer, Autumn, Winter]

  /** The months of each season, 1-indexed, as the table lists them. */
  function Months(s: Season): seq<int> {
    match s
    case Spring => [3, 4, 5]
    case Summer => [6, 7, 8]
    case Autumn => [9, 10, 11]
    case Winter => [12, 1, 2]
  }

  /** A calendar month as `new Date().getMonth() + 1` yields it. */
  predicate IsMonth(m: int) { 1 <= m <= 12 }

  /** Each of the twelve months lies in exactly one season. */
  lemma MonthInExactlyOneSeason(m: int)
    requires IsMonth(m)
    ensures exists s :: m in Months(s)
    ensures forall s, t :: m in Months(s) && m in Months(t) ==> s == t
  {
    var home := if 3 <= m <= 5 then Spring else if 6 <= m <= 8 then Summer else if 9 <= m <= 11 then Autumn else Winter;
    forall s ensures m in Months(s) <==> s == home {
      match s
      case Spring => assert m in Months(s) <==> 3 <= m <= 5;
      case Summer => assert m in Months(s) <==> 6 <= m <= 8;
      case Autumn => assert m in Months(s) <==> 9 <= m <= 11;
      case Winter => assert m in Months(s) <==> m == 12 || m == 1 || m == 2;
    }
    assert m in Months(home);
  }

  /**
    `seasonNames.findIndex(season => seasons[season].includes(m))`, searched
    from position `from`: the first index whose season holds `m`, or -1.
  */
  function FindSeasonIndex(m: int, from: nat := 0): (i: int)
    requires from <= |SeasonNames|
    decreases |SeasonNames| - from
    ensures i == -1 || from <= i < |SeasonNames|
    ensures i != -1 ==> m in Months(SeasonNames[i])
    ensures i != -1 ==> forall k :: from <= k < i ==> m !in Months(SeasonNames[k])
    ensures i == -1 <==> forall k :: from <= k < |SeasonNames| ==> m !in Months(SeasonNames[k])
  {
    if from == |SeasonNames| then -1
    else if m in Months(SeasonNames[from]) then from
    else FindSeasonIndex(m, from + 1)
  }

  /** For a real month the search always succeeds, at the month's own season. */
  lemma CurrentSeasonFound(m: int)
    requires IsMonth(m)
    ensures 0 <= FindSeasonIndex(m) < 4
    ensures m in Months(SeasonNames[FindSeasonIndex(m)])
  {
    MonthInExactlyOneSeason(m);
    var s :| m in Months(s);
    var k := match s case Spring => 0 case Summer => 1 case Autumn => 2 case Winter => 3;
    assert SeasonNames[k] == s;
  }

  /** The season that follows `s` in the cycle Spring, Summer, Autumn, Winter, Spring. */
  function Next(s: Season): Season {
    match s
    case Spring => Summer
    case Summer => Autumn
    case Autumn => Winter
    case Winter => Spring
  }

  /** The four seasons ending at index `last` of the table, in table order (cyclically). */
  function WindowEndingAt(last: int): seq<Season>
    requires 0 <= last < 4
  {
    [SeasonNames[(last - 3) % 4], SeasonNames[(last - 2) % 4], SeasonNames[(last - 1) % 4], SeasonNames[last]]
  }

  lemma WindowCoversEverySeasonOnce(last: int)
    requires 0 <= last < 4
    ensures forall s :: s in WindowEndingAt(last)
    ensures forall j, k :: 0 <= j < k < 4 ==> WindowEndingAt(last)[j] != WindowEndingAt(last)[k]
    ensures forall k :: 0 <= k < 3 ==> Next(WindowEndingAt(last)[k]) == WindowEndingAt(last)[k + 1]
  {
    var w := WindowEndingAt(last);
    if last == 0 {
      assert (0 - 3) % 4 == 1 && (0 - 2) % 4 == 2 && (0 - 1) % 4 == 3;
      assert w == [Summer, Autumn, Winter, Spring];
    } else if last == 1 {
      assert (1 - 3) % 4 == 2 && (1 - 2) % 4 == 3 && (1 - 1) % 4 == 0;
      assert w == [Autumn, Winter, Spring, Summer];
    } else if last == 2 {
      assert (2 - 3) % 4 == 3 && (2 - 2) % 4 == 0 && (2 - 1) % 4 == 1;
      assert w == [Winter, Spring, Summer, Autumn];
    } else {
      assert (3 - 3) % 4 == 0 && (3 - 2) % 4 == 1 && (3 - 1) % 4 == 2;
      assert w == [Spring, Summer, Autumn, Winter];
    }
    forall s ensures s in w {
      assert s == w[0] || s == w[1] || s == w[2] || s == w[3];
    }
  }

  /** An index between -4 and 3 brought back into the table, as `% 4` does. */
  function Wrap(x: int): (r: int)
    requires -4 <= x < 4
    ensures 0 <= r < 4 && r == x % 4
  {
    if x < 0 then x + 4 else x
  }

  /** The last `n` seasons of the cycle up to and including index `last`, oldest first. */
  function SeasonsUpTo(last: int, n: nat): (r: seq<Season>)
    requires 0 <= last < 4 && n <= 4
    ensures |r| == n
  {
    if n == 0 then [] else [SeasonNames[Wrap(last - (n - 1))]] + SeasonsUpTo(last, n - 1)
  }

  lemma FourSeasonsUpTo(last: int)
    requires 0 <= last < 4
    ensures SeasonsUpTo(last, 4) == WindowEndingAt(last)
  {
    assert SeasonsUpTo(last, 1) == [SeasonNames[last]];
    assert SeasonsUpTo(last, 2) == [SeasonNames[(last - 1) % 4]] + SeasonsUpTo(last, 1);
    assert SeasonsUpTo(last, 3) == [SeasonNames[(last - 2) % 4]] + SeasonsUpTo(last, 2);
    assert SeasonsUpTo(last, 4) == [SeasonNames[(last - 3) % 4]] + SeasonsUpTo(last, 3);
  }

  /** Stepping the index back by one, modulo four, as the loop does. */
  lemma StepBack(start: int, i: int, c: int)
    requires 0 <= start < 4 && 0 <= i < 4 && c == Wrap(start - i)
    ensures (c - 1 + 4) % 4 == Wrap(start - (i + 1))
  {
    if c == 0 {
      assert (c - 1 + 4) % 4 == 3;
    } else {
      assert (c - 1 + 4) % 4 == c - 1;
    }
  }

  /** What the loop's four steps leave: the window ending at the current season. */
  lemma SelectedWindow(m: int, start: int, selected: seq<Season>)
    requires 0 <= start < 4 && m in Months(SeasonNames[start])
    requires selected == SeasonsUpTo(start, 4)
    ensures |selected| == 4
    ensures m in Months(selected[3])
    ensures forall k :: 0 <= k < 3 ==> Next(selected[k]) == selected[k + 1]
    ensures forall s :: s in selected
    ensures forall j, k :: 0 <= j < k < 4 ==> selected[j] != selected[k]
  {
    FourSeasonsUpTo(start);
    WindowCoversEverySeasonOnce(start);
    assert selected[3] == SeasonNames[start];
  }

  /**
    The loop of /api/seasonalData that picks the current season and the three
    before it: four times, `unshift` the season at `currentSeasonIndex`, then
    step the index back by one modulo four.
  */
  method SelectSeasons(currentMonth: int) returns (selected: seq<Season>)
    requires IsMonth(currentMonth)
    ensures |selected| == 4
    ensures currentMonth in Months(selected[3])
    ensures forall k :: 0 <= k < 3 ==> Next(selected[k]) == selected[k + 1]
    ensures forall s :: s in selected
    ensures forall j, k :: 0 <= j < k < 4 ==> selected[j] != selected[k]
  {
    CurrentSeasonFound(currentMonth);
    var start := FindSeasonIndex(currentMonth);
    var currentSeasonIndex := start;
    selected := [];
    var i := 0;
    while i < 4
      invariant 0 <= i <= 4
      invariant currentSeasonIndex == Wrap(start - i)
      invariant selected == SeasonsUpTo(start, i)
    {
      selected := [SeasonNames[currentSeasonIndex]] + selected;
      StepBack(start, i, currentSeasonIndex);
      currentSeasonIndex := (currentSeasonIndex - 1 + |SeasonNames|) % |SeasonNames|;
      i := i + 1;
    }
    SelectedWindow(currentMonth, start, selected);
  }
}
