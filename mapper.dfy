/**
 * The PM2.5 to AQI and PM2.5 to colour mapping: a linear interpolation
 * inside the row the lookup selects. Nothing is clamped.
 */
module AqiMapper {
  import opened AqiTable
  import opened Truncation

  /** Position of x inside the row's PM2.5 range: 0 at bot, 1 at top (outside [0, 1] when x is outside). */
  function Fraction(row: Row, x: real): (f: real)
    requires row.bot < row.top
    ensures f * (row.top - row.bot) == x - row.bot
  {
    (x - row.bot) / (row.top - row.bot)
  }

  /** Linear interpolation from a to b by f: a at f = 0, b at f = 1. */
  function Lerp(a: real, b: real, f: real): (v: real)
    ensures f == 0.0 ==> v == a
    ensures f == 1.0 ==> v == b
  {
    a + f * (b - a)
  }

  /** The AQI before truncation: the selected row's AQI range interpolated by the fraction. */
  function RawAqi(x: real): (v: real)
    ensures Table[RowNum(x)].bot <= x ==> Table[RowNum(x)].minAqi as real <= v
    ensures x <= Table[RowNum(x)].top ==> v <= Table[RowNum(x)].maxAqi as real
  {
    var i := RowNum(x);
    InnerRow(i);
    AqiInRow(Table[i], x);
    Lerp(Table[i].minAqi as real, Table[i].maxAqi as real, Fraction(Table[i], x))
  }

  /** Interpolating a row's AQI range at x stays within it on the side where x stays within the PM2.5 range. */
  lemma AqiInRow(row: Row, x: real)
    requires row.bot < row.top && row.minAqi <= row.maxAqi
    ensures var v := Lerp(row.minAqi as real, row.maxAqi as real, Fraction(row, x));
      (row.bot <= x ==> row.minAqi as real <= v) && (x <= row.top ==> v <= row.maxAqi as real)
  {
    var f := Fraction(row, x);
    FractionRange(row, x);
    LerpEnds(row.minAqi as real, row.maxAqi as real);
    if row.bot <= x {
      LerpMonotone(row.minAqi as real, row.maxAqi as real, 0.0, f);
    }
    if x <= row.top {
      LerpMonotone(row.minAqi as real, row.maxAqi as real, f, 1.0);
    }
  }

  /** The AQI for a PM2.5 value: the interpolated value truncated toward zero, as int() does. */
  function Aqi(x: real): (aqi: int)
    ensures x >= 0.0 ==> aqi >= 0
    ensures x < 0.0 ==> aqi <= 0
  {
    AqiSign(x);
    TruncToInt(RawAqi(x))
  }

  /**
   * The colour for a PM2.5 value: the offline colour for negative input,
   * otherwise the selected row's anchor moved toward the next row's anchor
   * by the fraction.
   */
  function Rgb(x: real): (c: Color)
    ensures x < 0.0 ==> c == OfflineColor
  {
    if x < 0.0 then OfflineColor
    else
      var i := RowNum(x);
      InnerRow(i);
      var f := Fraction(Table[i], x);
      var c1 := Table[i].anchor;
      var c2 := Table[i + 1].anchor;
      Color(Lerp(c1.r, c2.r, f), Lerp(c1.g, c2.g, f), Lerp(c1.b, c2.b, f))
  }

  // ----- arithmetic on one row -----

  /** Where x lies relative to the row decides where the fraction lies relative to 0 and 1. */
  lemma FractionRange(row: Row, x: real)
    requires row.bot < row.top
    ensures row.bot <= x ==> Fraction(row, x) >= 0.0
    ensures x < row.bot ==> Fraction(row, x) < 0.0
    ensures x <= row.top ==> Fraction(row, x) <= 1.0
    ensures x > row.top ==> Fraction(row, x) > 1.0
    ensures Fraction(row, row.top) == 1.0
    ensures Fraction(row, row.bot) == 0.0
  {
    var w := row.top - row.bot;
    assert Fraction(row, row.top) == w / w == 1.0;
    var q := Fraction(row, x);
    assert q * w == x - row.bot;
    assert (q - 1.0) * w == x - row.top;
    ProductSign(q - 1.0, w);
  }

  lemma ProductSign(p: real, w: real)
    requires w > 0.0
    ensures p <= 0.0 ==> p * w <= 0.0
    ensures p < 0.0 ==> p * w < 0.0
  {
  }

  /** The fraction grows with x. */
  lemma FractionMonotone(row: Row, x: real, y: real)
    requires row.bot < row.top
    requires x <= y
    ensures Fraction(row, x) <= Fraction(row, y)
  {
    var w := row.top - row.bot;
    var p, q := Fraction(row, x), Fraction(row, y);
    assert p * w == x - row.bot;
    assert q * w == y - row.bot;
    assert (q - p) * w == y - x;
    ProductSign(q - p, w);
  }

  /**
   * Both end points in one call. Lerp's own ensures say the same, but only
   * once a Lerp term at 0 or 1 is in view; this lemma puts those terms there.
   */
  lemma LerpEnds(a: real, b: real)
    ensures Lerp(a, b, 0.0) == a && Lerp(a, b, 1.0) == b
  {
  }

  /** For an ordered range, the interpolation grows with the fraction. */
  lemma LerpMonotone(a: real, b: real, f: real, g: real)
    requires a <= b && f <= g
    ensures Lerp(a, b, f) <= Lerp(a, b, g)
  {
    var d := b - a;
    assert (g - f) * d >= 0.0;
  }

  /** v lies between a and b, in either order. */
  ghost predicate Between(v: real, a: real, b: real)
  {
    (a <= v <= b) || (b <= v <= a)
  }

  /** A fraction in [0, 1] interpolates to a value between the end points. */
  lemma LerpBetween(a: real, b: real, f: real)
    requires 0.0 <= f <= 1.0
    ensures Between(Lerp(a, b, f), a, b)
  {
    if a <= b {
      LerpMonotone(a, b, 0.0, f);
      LerpMonotone(a, b, f, 1.0);
    } else {
      assert Lerp(a, b, f) == Lerp(b, a, 1.0 - f);
      LerpMonotone(b, a, 0.0, 1.0 - f);
      LerpMonotone(b, a, 1.0 - f, 1.0);
    }
  }

  // ----- AQI properties -----

  /** Non-negative input gives a non-negative raw AQI; negative input a non-positive one. */
  lemma AqiSign(x: real)
    ensures x >= 0.0 ==> RawAqi(x) >= 0.0
    ensures x < 0.0 ==> RawAqi(x) <= 0.0
  {
    var i := RowNum(x);
    InnerRow(i);
    var row := Table[i];
    FractionRange(row, x);
    if x < 0.0 {
      NonPositiveUsesFirstRow(x);
      InnerRow(1);
      LerpMonotone(row.minAqi as real, row.maxAqi as real, Fraction(row, x), 0.0);
    } else {
      BotBelow(x);
      LerpMonotone(row.minAqi as real, row.maxAqi as real, 0.0, Fraction(row, x));
    }
  }

  /** The AQI of a concentration of zero is zero. */
  lemma AqiAtZero()
    ensures Aqi(0.0) == 0
  {
    NonPositiveUsesFirstRow(0.0);
    InnerRow(1);
    var row := Table[1];
    FractionRange(row, 0.0);
    assert RawAqi(0.0) == Lerp(row.minAqi as real, row.maxAqi as real, 0.0);
  }

  /** At an inner row's top the fraction is 1, so the AQI is that row's max. */
  lemma AqiAtRowTop(k: int)
    requires 1 <= k <= LastRow
    ensures Aqi(Table[k].top) == Table[k].maxAqi
  {
    InnerRow(k);
    RowNumAtTop(k);
    var row := Table[k];
    FractionRange(row, row.top);
    LerpEnds(row.minAqi as real, row.maxAqi as real);
    assert RawAqi(row.top) == row.maxAqi as real;
    TruncOfInt(row.maxAqi);
  }

  /** The row tops among the program's own test inputs; each gives its row's max, not the next row's min. */
  lemma AqiAtBoundaries()
    ensures Aqi(12.1) == 50
    ensures Aqi(35.5) == 100
    ensures Aqi(500.5) == 500
  {
    AqiAtRowTop(1);
    AqiAtRowTop(2);
    AqiAtRowTop(7);
  }

  /** At or below the selected row's top, the AQI is at most that row's max. */
  lemma AqiAtMostRowMax(x: real)
    requires x <= Table[RowNum(x)].top
    ensures Aqi(x) <= Table[RowNum(x)].maxAqi
  {
    var i := RowNum(x);
    InnerRow(i);
    var row := Table[i];
    FractionRange(row, x);
    LerpMonotone(row.minAqi as real, row.maxAqi as real, Fraction(row, x), 1.0);
    LerpEnds(row.minAqi as real, row.maxAqi as real);
    TruncMonotone(RawAqi(x), row.maxAqi as real);
    TruncOfInt(row.maxAqi);
  }

  /** At or above the selected row's bot, the AQI is at least that row's min. */
  lemma AqiAtLeastRowMin(x: real)
    requires Table[RowNum(x)].bot <= x
    ensures Table[RowNum(x)].minAqi <= Aqi(x)
  {
    var i := RowNum(x);
    InnerRow(i);
    var row := Table[i];
    FractionRange(row, x);
    LerpMonotone(row.minAqi as real, row.maxAqi as real, 0.0, Fraction(row, x));
    LerpEnds(row.minAqi as real, row.maxAqi as real);
    TruncMonotone(row.minAqi as real, RawAqi(x));
    TruncOfInt(row.minAqi);
  }

  /** Within [bot, top] of the selected row the AQI lies within [min, max] of that row. */
  lemma AqiWithinRow(x: real)
    requires Table[RowNum(x)].bot <= x <= Table[RowNum(x)].top
    ensures Table[RowNum(x)].minAqi <= Aqi(x) <= Table[RowNum(x)].maxAqi
  {
    AqiAtMostRowMax(x);
    AqiAtLeastRowMin(x);
  }

  /** The AQI never decreases as the concentration grows, across row boundaries too. */
  lemma AqiMonotone(x: real, y: real)
    requires x <= y
    ensures Aqi(x) <= Aqi(y)
  {
    var i, j := RowNum(x), RowNum(y);
    assert i <= j;
    if i == j {
      InnerRow(i);
      var row := Table[i];
      FractionMonotone(row, x, y);
      LerpMonotone(row.minAqi as real, row.maxAqi as real, Fraction(row, x), Fraction(row, y));
      TruncMonotone(RawAqi(x), RawAqi(y));
    } else {
      // x is at or below row i's top; y is above row j-1's top, which is row j's bot
      InnerRow(j);
      AqiAtMostRowMax(x);
      assert Table[j - 1].top < y;
      AqiAtLeastRowMin(y);
      MaxAqiIncreasing(i, j - 1);
    }
  }

  /** Negative input extrapolates below zero and int() truncates toward zero: -1 gives -4 (floor would give -5). */
  lemma AqiOfMinusOne()
    ensures Aqi(-1.0) == -4
  {
    NonPositiveUsesFirstRow(-1.0);
    InnerRow(1);
    assert Fraction(Table[1], -1.0) == -1.0 / 12.1;
    assert RawAqi(-1.0) == -500.0 / 121.0;
    TruncIsNotFloor();
  }

  /** Above 99999.9 the last inner row is extrapolated: the value before truncation exceeds 999, so the AQI is at least 999. */
  lemma AqiAboveRange(x: real)
    requires x > Table[LastRow].top
    ensures RowNum(x) == LastRow
    ensures RawAqi(x) > 999.0
    ensures Aqi(x) >= 999
  {
    AboveRangeUsesLastRow(x);
    InnerRow(LastRow);
    var row := Table[LastRow];
    FractionRange(row, x);
    var f := Fraction(row, x);
    assert (f - 1.0) * 498.0 > 0.0;
    assert RawAqi(x) == 999.0 + (f - 1.0) * 498.0;
    LerpMonotone(501.0, 999.0, 1.0, Fraction(row, x));
    LerpEnds(501.0, 999.0);
    TruncMonotone(999.0, RawAqi(x));
    TruncOfInt(999);
  }

  /** The largest of the program's test inputs, 1000000, extrapolates to 5503. */
  lemma AqiOfAMillion()
    ensures Aqi(1000000.0) == 5503
  {
    AboveRangeUsesLastRow(1000000.0);
    InnerRow(LastRow);
    assert Fraction(Table[LastRow], 1000000.0) == 999499.5 / 99499.4;
    assert RawAqi(1000000.0) == 2737999752.0 / 497497.0;
  }

  /**
   * The program's own test inputs just below a row top stay in that row and
   * truncate to just below the row's max (34.4 gives 97, row 2's max is 100).
   */
  lemma AqiBelowRowTops()
    ensures Aqi(12.0) == 49
    ensures Aqi(34.4) == 97
    ensures Aqi(55.4) == 149
    ensures Aqi(150.4) == 199
    ensures Aqi(250.4) == 299
    ensures Aqi(350.4) == 399
    ensures Aqi(500.4) == 499
  {
    RowNumWithin(12.0, 1);
    InnerRow(1);
    assert RawAqi(12.0) == 6000.0 / 121.0;
    RowNumWithin(34.4, 2);
    InnerRow(2);
    assert RawAqi(34.4) == 51.0 + 10927.0 / 234.0;
    RowNumWithin(55.4, 3);
    InnerRow(3);
    assert RawAqi(55.4) == 149.755;
    RowNumWithin(150.4, 4);
    InnerRow(4);
    assert RawAqi(150.4) == 151.0 + 4650.1 / 95.0;
    RowNumWithin(250.4, 5);
    InnerRow(5);
    assert RawAqi(250.4) == 299.901;
    RowNumWithin(350.4, 6);
    InnerRow(6);
    assert RawAqi(350.4) == 399.901;
    RowNumWithin(500.4, 7);
    InnerRow(7);
    assert RawAqi(500.4) == 401.0 + 14840.1 / 150.0;
  }

  // ----- colour properties -----

  /** Every negative concentration maps to the offline colour, written out as (0, 0, 255). */
  lemma RgbOfNegative(x: real)
    requires x < 0.0
    ensures Rgb(x) == Color(0.0, 0.0, 255.0)
  {
  }

  /** A concentration of zero gives row 1's anchor, (0, 128, 0), untouched by the fraction. */
  lemma RgbAtZero()
    ensures Rgb(0.0) == Color(0.0, 128.0, 0.0)
  {
    NonPositiveUsesFirstRow(0.0);
    InnerRow(1);
    FractionRange(Table[1], 0.0);
    LerpEnds(0.0, 0.0);
    LerpEnds(128.0, 64.0);
  }

  /** At an inner row's top the colour is the next row's anchor. */
  lemma RgbAtRowTop(k: int)
    requires 1 <= k <= LastRow
    ensures Rgb(Table[k].top) == Table[k + 1].anchor
  {
    InnerRow(k);
    RowNumAtTop(k);
    FractionRange(Table[k], Table[k].top);
    InnerRow(1);
    assert Table[k].top > 0.0;
    var c1, c2 := Table[k].anchor, Table[k + 1].anchor;
    LerpEnds(c1.r, c2.r);
    LerpEnds(c1.g, c2.g);
    LerpEnds(c1.b, c2.b);
  }

  /**
   * For x >= 0 every channel lies between the anchors of the selected row
   * and the next one, and hence within [0, 192].
   */
  lemma RgbBetweenAnchors(x: real)
    requires x >= 0.0
    ensures var i := RowNum(x);
      Between(Rgb(x).r, Table[i].anchor.r, Table[i + 1].anchor.r) &&
      Between(Rgb(x).g, Table[i].anchor.g, Table[i + 1].anchor.g) &&
      Between(Rgb(x).b, Table[i].anchor.b, Table[i + 1].anchor.b)
    ensures 0.0 <= Rgb(x).r <= 192.0 && 0.0 <= Rgb(x).g <= 192.0 && 0.0 <= Rgb(x).b <= 16.0
  {
    var i := RowNum(x);
    InnerRow(i);
    AnchorBounded(i);
    AnchorBounded(i + 1);
    var row := Table[i];
    var f := Fraction(row, x);
    var c1, c2 := row.anchor, Table[i + 1].anchor;
    BotBelow(x);
    FractionRange(row, x);
    if i < LastRow {
      assert f <= 1.0;
      LerpBetween(c1.r, c2.r, f);
      LerpBetween(c1.g, c2.g, f);
      LerpBetween(c1.b, c2.b, f);
    } else {
      assert c1 == c2;
    }
  }

  /** The colour is the offline colour exactly when the concentration is negative. */
  lemma RgbOfflineIffNegative(x: real)
    ensures Rgb(x) == OfflineColor <==> x < 0.0
  {
    if x >= 0.0 {
      RgbBetweenAnchors(x);
    }
  }
}
