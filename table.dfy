/**
 * The breakpoint table of the AQI orb and the lookup of the row that
 * applies to a PM2.5 concentration.
 *
 * Concentrations are Dafny `real`s: this idealises the program's floating
 * point numbers (12.1 is exactly 12.1 here, and there is no NaN or infinity).
 */
module AqiTable {

  /** An RGB colour. Channels are reals because the interpolated colours are floats. */
  datatype Color = Color(r: real, g: real, b: real)

  /**
   * One calibration row: the PM2.5 range (bot, top], the AQI range
   * [minAqi, maxAqi] it maps to, and the anchor colour of the row.
   */
  datatype Row = Row(bot: real, top: real, minAqi: int, maxAqi: int, anchor: Color)

  /** Colour shown when no recent reading is available. */
  const OfflineColor := Color(0.0, 0.0, 255.0)

  /**
   * The table. Row 0 (a zero-width range) is never read. Row 9 is never
   * selected, but its anchor is the end colour when row 8 is selected.
   */
  const Table: seq<Row> := [
    Row(    0.0,      0.0,   0,    0, Color(  0.0, 128.0,  0.0)),
    Row(    0.0,     12.1,   0,   50, Color(  0.0, 128.0,  0.0)),
    Row(   12.1,     35.5,  51,  100, Color( 64.0,  64.0,  0.0)),
    Row(   35.5,     55.5, 101,  150, Color(192.0,  64.0,  0.0)),
    Row(   55.5,    150.5, 151,  200, Color(192.0,   0.0,  0.0)),
    Row(  150.5,    250.5, 201,  300, Color(192.0,   0.0, 16.0)),
    Row(  250.5,    350.5, 301,  400, Color( 24.0,   0.0,  4.0)),
    Row(  350.5,    500.5, 401,  500, Color( 24.0,   0.0,  4.0)),
    Row(  500.5,  99999.9, 501,  999, Color( 24.0,   0.0,  4.0)),
    Row(99999.9, 100000.0, 999, 1000, Color( 24.0,   0.0,  4.0))
  ]

  /** Index of the last row the lookup may return (the row before the top sentinel). */
  const LastRow := |Table| - 2

  /** Each row starts where the previous one ends. */
  ghost predicate Contiguous(t: seq<Row>)
  {
    forall i :: 1 <= i < |t| ==> t[i].bot == t[i - 1].top
  }

  /** The row tops strictly increase down the table. */
  ghost predicate TopsIncreasing(t: seq<Row>)
  {
    forall i, j :: 0 <= i < j < |t| ==> t[i].top < t[j].top
  }

  /** Every row other than the sentinels has a non-empty range, so the fraction never divides by zero. */
  ghost predicate InnerRowsNonEmpty(t: seq<Row>)
  {
    forall i :: 1 <= i < |t| - 1 ==> t[i].bot < t[i].top
  }

  /** Every row's AQI range is ordered and non-negative. */
  ghost predicate AqiRangesOrdered(t: seq<Row>)
  {
    forall i :: 0 <= i < |t| ==> 0 <= t[i].minAqi <= t[i].maxAqi
  }

  /** Consecutive inner rows cover consecutive AQI ranges: a row's min is one above the previous row's max. */
  ghost predicate AqiRangesAdjacent(t: seq<Row>)
  {
    forall i :: 2 <= i < |t| - 1 ==> t[i].minAqi == t[i - 1].maxAqi + 1
  }

  /** Every anchor channel lies in [0, 192]. */
  ghost predicate AnchorsBounded(t: seq<Row>)
  {
    forall i :: 0 <= i < |t| ==>
      0.0 <= t[i].anchor.r <= 192.0 && 0.0 <= t[i].anchor.g <= 192.0 && 0.0 <= t[i].anchor.b <= 192.0
  }

  /** The last inner row and the top sentinel share their anchor colour. */
  ghost predicate LastAnchorsEqual(t: seq<Row>)
  {
    |t| >= 2 && t[|t| - 2].anchor == t[|t| - 1].anchor
  }

  lemma RowIndexCases(k: int)
    requires 0 <= k < |Table|
    ensures k == 0 || k == 1 || k == 2 || k == 3 || k == 4 || k == 5 || k == 6 || k == 7 || k == 8 || k == 9
  {
  }

  /** The structural invariants of the breakpoint table. */
  lemma TableInvariants()
    ensures |Table| == 10
    ensures Contiguous(Table)
    ensures TopsIncreasing(Table)
    ensures InnerRowsNonEmpty(Table)
    ensures AqiRangesOrdered(Table)
    ensures AqiRangesAdjacent(Table)
    ensures AnchorsBounded(Table)
    ensures LastAnchorsEqual(Table)
  {
    forall i | 1 <= i < |Table| ensures Table[i].bot == Table[i - 1].top { RowIndexCases(i); }
    forall i, j | 0 <= i < j < |Table| ensures Table[i].top < Table[j].top { RowIndexCases(i); RowIndexCases(j); }
    forall i | 0 <= i < |Table| ensures 0 <= Table[i].minAqi <= Table[i].maxAqi { RowIndexCases(i); }
    forall i | 0 <= i < |Table|
      ensures 0.0 <= Table[i].anchor.r <= 192.0 && 0.0 <= Table[i].anchor.g <= 192.0 && 0.0 <= Table[i].anchor.b <= 192.0
    {
      RowIndexCases(i);
    }
    forall i | 2 <= i < |Table| - 1 ensures Table[i].minAqi == Table[i - 1].maxAqi + 1 { RowIndexCases(i); }
  }

  /** The facts about one inner row (and its neighbours) that the interpolation needs. */
  lemma InnerRow(i: int)
    requires 1 <= i <= LastRow
    ensures Table[i].bot < Table[i].top
    ensures 0 <= Table[i].minAqi <= Table[i].maxAqi
    ensures Table[i].bot == Table[i - 1].top
    ensures i == 1 ==> Table[i].bot == 0.0
    ensures 1 < i ==> Table[i].minAqi == Table[i - 1].maxAqi + 1
    ensures i == LastRow ==> Table[i].anchor == Table[i + 1].anchor
  {
    RowIndexCases(i);
  }

  /** Every anchor channel lies in [0, 192]. */
  lemma AnchorBounded(k: int)
    requires 0 <= k < |Table|
    ensures 0.0 <= Table[k].anchor.r <= 192.0 && 0.0 <= Table[k].anchor.g <= 192.0 && 0.0 <= Table[k].anchor.b <= 192.0
    ensures Table[k].anchor.b <= 16.0
  {
    RowIndexCases(k);
  }

  /** Row maxima never decrease. */
  lemma MaxAqiIncreasing(i: int, j: int)
    requires 0 <= i <= j < |Table|
    ensures Table[i].maxAqi <= Table[j].maxAqi
  {
    RowIndexCases(i);
    RowIndexCases(j);
  }

  /**
   * The linear search from row i on: the first row at or after i whose top
   * is at least x, or LastRow when no inner row qualifies.
   */
  function RowFrom(x: real, i: int): (r: int)
    requires 1 <= i <= LastRow
    ensures i <= r <= LastRow
    ensures x <= Table[r].top || r == LastRow
    ensures forall j :: i <= j < r ==> Table[j].top < x
    decreases LastRow - i
  {
    if x <= Table[i].top then i
    else if i + 1 <= LastRow then RowFrom(x, i + 1)
    else LastRow
  }

  /**
   * The applicable row for x: the smallest i in 1..LastRow with
   * x <= Table[i].top, or LastRow if there is none. Never a sentinel row.
   */
  function RowNum(x: real): (r: int)
    ensures 1 <= r <= LastRow
    ensures x <= Table[r].top || r == LastRow
    ensures forall j :: 1 <= j < r ==> Table[j].top < x
  {
    RowFrom(x, 1)
  }

  /** The lookup as the program writes it: a loop over the inner rows with an early return. */
  method FindRowNum(x: real) returns (i: int)
    ensures 1 <= i <= LastRow
    ensures x <= Table[i].top || i == LastRow
    ensures forall j :: 1 <= j < i ==> Table[j].top < x
    ensures i == RowNum(x)
  {
    for k := 1 to |Table| - 1
      invariant forall j :: 1 <= j < k ==> Table[j].top < x
    {
      if x <= Table[k].top {
        RowNumUnique(x, k);
        return k;
      }
    }
    RowNumUnique(x, LastRow);
    return LastRow;
  }

  /** The two clauses of RowNum's contract determine the row uniquely. */
  lemma RowNumUnique(x: real, i: int)
    requires 1 <= i <= LastRow
    requires x <= Table[i].top || i == LastRow
    requires forall j :: 1 <= j < i ==> Table[j].top < x
    ensures i == RowNum(x)
  {
    var r := RowNum(x);
    assert x <= Table[r].top || r == LastRow;
  }

  /** The row following the selected one is always inside the table. */
  lemma NextRowInBounds(x: real)
    ensures 0 <= RowNum(x) + 1 < |Table|
  {
  }

  /** Every x <= 0 falls into row 1. */
  lemma NonPositiveUsesFirstRow(x: real)
    requires x <= 0.0
    ensures RowNum(x) == 1
  {
  }

  /** Every x above the last inner row's top falls into the last inner row. */
  lemma AboveRangeUsesLastRow(x: real)
    requires x > Table[LastRow].top
    ensures RowNum(x) == LastRow
  {
    TableInvariants();
  }

  /** For 0 < x <= 99999.9 the selected row brackets x: bot < x <= top. */
  lemma Bracketing(x: real)
    requires 0.0 < x <= Table[LastRow].top
    ensures Table[RowNum(x)].bot < x <= Table[RowNum(x)].top
  {
    TableInvariants();
    var i := RowNum(x);
    if i > 1 {
      assert Table[i - 1].top < x;
    }
  }

  /** For x >= 0 the selected row starts at or below x. */
  lemma BotBelow(x: real)
    requires x >= 0.0
    ensures Table[RowNum(x)].bot <= x
  {
    TableInvariants();
    var i := RowNum(x);
    if i > 1 {
      assert Table[i - 1].top < x;
    }
  }

  /** The lookup selects inner row k for every x above row k-1's top and at most row k's top. */
  lemma RowNumWithin(x: real, k: int)
    requires 1 <= k <= LastRow
    requires Table[k - 1].top < x <= Table[k].top
    ensures RowNum(x) == k
  {
    TableInvariants();
    RowNumUnique(x, k);
  }

  /** At an inner row's top, the lookup selects that very row. */
  lemma RowNumAtTop(k: int)
    requires 1 <= k <= LastRow
    ensures RowNum(Table[k].top) == k
  {
    TableInvariants();
    RowNumUnique(Table[k].top, k);
  }
}
