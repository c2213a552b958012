/**
 * One pass of the render loop: the colour for the shared PM2.5 value,
 * dimmed for the LEDs and dimmed further at night. The wall-clock hour is
 * a parameter; painting the LEDs is not modelled (the result is the colour
 * that would be painted).
 */
module Render {
  import opened AqiTable
  import opened Truncation
  import opened AqiMapper

  /** LEDs are dimmed from after EveningHour until before MorningHour (24-hour clock). */
  const EveningHour := 20
  const MorningHour := 6

  /** Night is before MorningHour or after EveningHour; hour 20 itself is still day. */
  predicate IsNight(hour: int)
    ensures IsNight(hour) <==> !(MorningHour <= hour <= EveningHour)
  {
    hour < MorningHour || hour > EveningHour
  }

  /** Baseline dimming: each channel divided by 4 (a float division, no truncation). */
  function Quarter(c: Color): (d: Color)
    ensures 4.0 * d.r == c.r && 4.0 * d.g == c.g && 4.0 * d.b == c.b
  {
    Color(c.r / 4.0, c.g / 4.0, c.b / 4.0)
  }

  /** Night dimming: each channel divided by 3 and truncated toward zero. */
  function NightDim(c: Color): (d: Color)
    ensures d.r == d.r.Floor as real && d.g == d.g.Floor as real && d.b == d.b.Floor as real
    ensures c.r >= 0.0 ==> 0.0 <= d.r <= c.r / 3.0 < d.r + 1.0
    ensures c.g >= 0.0 ==> 0.0 <= d.g <= c.g / 3.0 < d.g + 1.0
    ensures c.b >= 0.0 ==> 0.0 <= d.b <= c.b / 3.0 < d.b + 1.0
  {
    Color(TruncToInt(c.r / 3.0) as real, TruncToInt(c.g / 3.0) as real, TruncToInt(c.b / 3.0) as real)
  }

  /** The colour the render loop paints for a PM2.5 value at a given hour. */
  function RenderColor(pm25: real, hour: int): (c: Color)
    requires 0 <= hour <= 23
    ensures pm25 >= 0.0 && !IsNight(hour) ==> c == Quarter(Rgb(pm25))
    ensures pm25 >= 0.0 && IsNight(hour) ==> c == NightDim(Quarter(Rgb(pm25)))
    ensures pm25 < 0.0 && !IsNight(hour) ==> c == Color(0.0, 0.0, 255.0)
    ensures pm25 < 0.0 && IsNight(hour) ==> c == Color(0.0, 0.0, 85.0)
  {
    RgbOfflineIffNegative(pm25);
    var rgb := Rgb(pm25);
    var dimmed := if rgb != OfflineColor then Quarter(rgb) else rgb;
    if IsNight(hour) then NightDim(dimmed) else dimmed
  }

  /** Night dimming divides by 3 and truncates: the baseline-dimmed (48, 32, 0) becomes (16, 10, 0). */
  lemma NightDimExample()
    ensures NightDim(Color(48.0, 32.0, 0.0)) == Color(16.0, 10.0, 0.0)
  {
  }

  /**
   * The night-dimmed channel of a non-negative value c is the whole number of
   * times 3 fits into c: NightDim's per-channel fact for a single value.
   */
  lemma NightDimChannel(c: real)
    requires c >= 0.0
    ensures 0.0 <= TruncToInt(c / 3.0) as real <= c / 3.0 < TruncToInt(c / 3.0) as real + 1.0
  {
  }

  /** Hours 6 to 20 inclusive are day, all others night: IsNight with the constants written out. */
  lemma NightHours(hour: int)
    requires 0 <= hour <= 23
    ensures IsNight(hour) <==> (hour <= 5 || hour >= 21)
  {
  }

  /**
   * For an online reading every painted channel is within [0, 48] by day
   * and within [0, 16] at night; the blue channel never exceeds 4.
   */
  lemma RenderBounded(pm25: real, hour: int)
    requires pm25 >= 0.0 && 0 <= hour <= 23
    ensures var c := RenderColor(pm25, hour);
      0.0 <= c.r <= 48.0 && 0.0 <= c.g <= 48.0 && 0.0 <= c.b <= 4.0
    ensures IsNight(hour) ==> var c := RenderColor(pm25, hour);
      c.r <= 16.0 && c.g <= 16.0 && c.b <= 1.0
  {
    RgbBetweenAnchors(pm25);
    var q := Quarter(Rgb(pm25));
    assert 0.0 <= q.r <= 48.0 && 0.0 <= q.g <= 48.0 && 0.0 <= q.b <= 4.0;
    if IsNight(hour) {
      NightDimBounded(q);
    }
  }

  /** Night dimming of a baseline-dimmed colour keeps each channel at most a third of its bound. */
  lemma NightDimBounded(c: Color)
    requires 0.0 <= c.r <= 48.0 && 0.0 <= c.g <= 48.0 && 0.0 <= c.b <= 4.0
    ensures var d := NightDim(c); 0.0 <= d.r <= 16.0 && 0.0 <= d.g <= 16.0 && 0.0 <= d.b <= 1.0
  {
    TruncWithin(c.r / 3.0, 0, 16);
    TruncWithin(c.g / 3.0, 0, 16);
    NightDimChannel(c.b);
  }

  /** The painted colour for an online reading is never the offline colour, at any hour. */
  lemma OnlineNeverLooksOffline(pm25: real, hour: int)
    requires pm25 >= 0.0 && 0 <= hour <= 23
    ensures RenderColor(pm25, hour) != OfflineColor
  {
    RenderBounded(pm25, hour);
  }
}
