# AQI orb: PM2.5 to AQI to LED colour, in Dafny

This project models the core of the AQI orb, a small program that polls a
PurpleAir sensor for its PM2.5 concentration and paints a NeoPixel strip in
a colour that shows the current air quality. The model covers:

- the breakpoint table (10 rows: PM2.5 range, AQI range, anchor colour;
  rows 0 and 9 are sentinels) and the lookup of the row that applies to a
  concentration (`table.dfy`, module `AqiTable`);
- Python's `int()` on a float, which truncates toward zero
  (`truncate.dfy`, module `Truncation`);
- the linear interpolation of the AQI and of the colour inside the selected
  row, with no clamping (`mapper.dfy`, module `AqiMapper`);
- the poller thread: one cycle takes the outcome of a fetch (a response
  with a status and a body that parses or not, a timeout, any other
  exception) and updates the shared PM2.5 value and the consecutive-failure
  counter; after more than 8 failures the value is forced to the offline
  value -1 (`poller.dfy`, module `Poller`, class `AqiThread`);
- one pass of the render loop: the colour is divided by 4 unless it is the
  offline colour, and at night (before 06:00 or after 20:59) every channel
  is divided by 3 and truncated (`render.dfy`, module `Render`);
- how the two fit together: what the LEDs show after an outage or after
  malformed responses (`orb.dfy`, module `Orb`).

Concentrations, fractions and colour channels are Dafny `real`s. This
idealises the program's floats: 12.1 is exactly 12.1, and there is no
rounding, NaN or infinity.

Points of the code's behaviour that are easy to misread:

- The AQI is truncated toward zero by `int()`: a PM2.5 of -1 gives -4,
  where a floor would give -5.
- At a row's top the lookup still selects that row (`pm25 <= top`), so the
  fraction is 1 and the AQI is that row's max: 12.1 gives 50 (row 1's max,
  not row 2's min 51), 35.5 gives 100, 500.5 gives 500.
- The offline colour skips the division by 4 but is night-dimmed like any
  other colour, to (0, 0, 85).
- On a 200 response the counter is reset to 0 before the body is parsed,
  so a 200 whose body fails to parse leaves the counter at 1, whatever it
  was before. Malformed 200 responses alone therefore never force the
  offline value.
- A non-200 status raises inside `get_sensor` while the error is logged
  (an int is added to a str), so it is counted by the bare `except` rather
  than by the `else` branch; either way the counter goes up by one.
- The comment beside `EVENING_HOUR` and `MORNING_HOUR` (line 16) says the
  LEDs are dimmed from the evening hour through the morning hour, but the
  test at line 246 (`hr < 6 or hr > 20`) leaves hours 20 and 6 undimmed;
  the model follows the test.
- `REQUEST_TIMEOUT_SEC` (30) is only printed (line 172); it is never passed
  to `requests.get` (line 111), so the `Timeout` branch is practically
  unreachable and a stalled request stalls the cycle without counting a
  failure. `TimedOut` models that branch as written; the model assumes no
  bound on how long a fetch takes.
- By day the colour handed to the LEDs is the float quotient `c / 4`; it is
  not rounded to integers by the code (only night dimming truncates).

## Model

| member | source | states |
|---|---|---|
| AqiTable.TableInvariants | aqi-orb.py:76-87 | the table has 10 rows; each row's bot is the previous row's top; tops strictly increase; inner rows have bot < top; every AQI range is ordered and non-negative; for rows 2..8, a row's min is one above the previous row's max; anchor channels lie in [0,192]; rows 8 and 9 share their anchor |
| AqiTable.InnerRow | aqi-orb.py:76-87 | for an inner row i (1..8): bot < top (so the divisions at lines 134 and 147 are safe), 0 <= min <= max, bot equals row i-1's top, row 1 starts at 0, for rows 2..8 min is row i-1's max + 1, row 8's anchor equals row 9's |
| AqiTable.AnchorBounded | aqi-orb.py:76-87 | every anchor channel is in [0,192] and every blue channel at most 16 |
| AqiTable.MaxAqiIncreasing | aqi-orb.py:76-87 | row maxima never decrease down the table |
| AqiTable.RowFrom | aqi-orb.py:121-126 | the search from row i returns a row in i..8 whose top is at least x (or row 8), with every row it skipped having top < x |
| AqiTable.RowNum | aqi-orb.py:119-126 | the result is the smallest i in 1..8 with x <= table[i].top, or 8 if there is none; never a sentinel row |
| AqiTable.FindRowNum | aqi-orb.py:119-126 | the loop with early return computes exactly that smallest row (or 8), and agrees with RowNum |
| AqiTable.RowNumUnique | aqi-orb.py:119-126 | the two clauses of the lookup's contract determine the row uniquely |
| AqiTable.NextRowInBounds | aqi-orb.py:151 | row RowNum(x)+1 is always inside the table, for every x |
| AqiTable.NonPositiveUsesFirstRow | aqi-orb.py:121-124 | every x <= 0 selects row 1 |
| AqiTable.AboveRangeUsesLastRow | aqi-orb.py:125-126 | every x above 99999.9 selects row 8 |
| AqiTable.Bracketing | aqi-orb.py:121-124 | for 0 < x <= 99999.9 the selected row satisfies bot < x <= top |
| AqiTable.BotBelow | aqi-orb.py:121-124 | for x >= 0 the selected row's bot is at most x |
| AqiTable.RowNumWithin | aqi-orb.py:121-124 | every x in (top of row k-1, top of row k] selects inner row k |
| AqiTable.RowNumAtTop | aqi-orb.py:121-124 | at an inner row's top the lookup selects that same row |
| Truncation.TruncToInt | aqi-orb.py:137 | int(): for v >= 0 the result is the largest integer <= v, for v < 0 the smallest integer >= v |
| Truncation.TruncOfInt | aqi-orb.py:137 | int() of a whole number is that number |
| Truncation.TruncMonotone | aqi-orb.py:137 | int() is monotone |
| Truncation.TruncTowardZero | aqi-orb.py:137 | int() keeps the sign: non-negative in, non-negative out; non-positive in, non-positive out |
| Truncation.TruncWithin | aqi-orb.py:247 | integer bounds on v are bounds on int(v) |
| Truncation.TruncIsNotFloor | aqi-orb.py:137 | int(-500/121) is -4 while floor gives -5 |
| AqiMapper.Fraction | aqi-orb.py:134 | the fraction f scaled by the row's width is x's distance above the row's bot: f * (top - bot) == x - bot |
| AqiMapper.RawAqi | aqi-orb.py:130-137 | before truncation, the interpolated AQI is at least the selected row's min when x is at or above its bot, and at most its max when x is at or below its top |
| AqiMapper.AqiInRow | aqi-orb.py:134-137 | the same two bounds for any row with a non-empty range and ordered AQI range |
| AqiMapper.FractionRange | aqi-orb.py:134 | the fraction is >= 0 from bot on, < 0 below bot, <= 1 up to top, > 1 above top, exactly 0 at bot and 1 at top |
| AqiMapper.FractionMonotone | aqi-orb.py:134 | the fraction grows with x |
| AqiMapper.Lerp | aqi-orb.py:137-157 | the interpolation a + f * (b - a) used at lines 137 and 155-157 meets its end points: a at f = 0, b at f = 1 |
| AqiMapper.LerpEnds | aqi-orb.py:137 | interpolation by 0 gives the start, by 1 the end |
| AqiMapper.LerpMonotone | aqi-orb.py:137 | over an ordered range the interpolation grows with the fraction |
| AqiMapper.LerpBetween | aqi-orb.py:155-157 | a fraction in [0,1] gives a value between the two end points |
| AqiMapper.Aqi | aqi-orb.py:129-137 | non-negative PM2.5 gives a non-negative AQI, negative PM2.5 a non-positive one |
| AqiMapper.AqiSign | aqi-orb.py:129-137 | the same sign facts for the value before truncation |
| AqiMapper.AqiAtZero | aqi-orb.py:212 | the AQI of 0.0 is 0 |
| AqiMapper.AqiAtRowTop | aqi-orb.py:129-137 | at each inner row's top the AQI is that row's max |
| AqiMapper.AqiAtBoundaries | aqi-orb.py:212 | 12.1 gives 50, 35.5 gives 100, 500.5 gives 500 |
| AqiMapper.AqiAtMostRowMax | aqi-orb.py:129-137 | at or below the selected row's top the AQI is at most its max |
| AqiMapper.AqiAtLeastRowMin | aqi-orb.py:129-137 | at or above the selected row's bot the AQI is at least its min |
| AqiMapper.AqiWithinRow | aqi-orb.py:129-137 | for x in [bot, top] of the selected row the AQI lies in [min, max] of that row |
| AqiMapper.AqiMonotone | aqi-orb.py:129-137 | x <= y implies Aqi(x) <= Aqi(y), across row boundaries too |
| AqiMapper.AqiOfMinusOne | aqi-orb.py:134-137 | no clamping and truncation toward zero: the AQI of -1 is -4 |
| AqiMapper.AqiAboveRange | aqi-orb.py:125-137 | above 99999.9 the lookup uses row 8, the value before truncation exceeds 999 (it extrapolates past the row's max), and the AQI is at least 999 |
| AqiMapper.AqiBelowRowTops | aqi-orb.py:212 | 12.0, 34.4, 55.4, 150.4, 250.4, 350.4 and 500.4 stay in their row and give 49, 97, 149, 199, 299, 399 and 499 |
| AqiMapper.AqiOfAMillion | aqi-orb.py:212 | the AQI of 1000000 is 5503 |
| AqiMapper.Rgb | aqi-orb.py:140-158 | negative input gives the offline colour |
| AqiMapper.RgbOfNegative | aqi-orb.py:141-142 | every x < 0 gives (0, 0, 255) |
| AqiMapper.RgbAtZero | aqi-orb.py:143-158 | 0.0 gives (0, 128, 0) |
| AqiMapper.RgbAtRowTop | aqi-orb.py:143-158 | at each inner row's top the colour is the next row's anchor |
| AqiMapper.RgbBetweenAnchors | aqi-orb.py:143-158 | for x >= 0 each channel lies between the anchors of rows i and i+1, hence in [0,192] (blue in [0,16]) |
| AqiMapper.RgbOfflineIffNegative | aqi-orb.py:140-158 | the colour is the offline colour if and only if x < 0 |
| Poller.IsCountedFailure | aqi-orb.py:174-189 | the outcomes that add one to the counter without resetting it first (line 176) are exactly those other than a 200 response; a malformed 200 is reset and then incremented (see IsMalformedOk) |
| Poller.IsMalformedOk | aqi-orb.py:174-178 | a malformed 200 response is not among the counted failures |
| Poller.Next | aqi-orb.py:173-191 | a 200 with a reading sets (value, 0); a bad status, timeout or exception adds 1 to the counter and keeps the value unless the counter passes 8; a malformed 200 gives counter 1 and keeps the value; after any cycle a counter above 8 means the value is -1 |
| Poller.RunAll | aqi-orb.py:170-192 | over a run of n cycles the counter grows by at most n, and after a non-empty run a counter above 8 means the value is -1 |
| Poller.OfflineUntilReading | aqi-orb.py:55 | starting from the value -1, it stays -1 through every cycle until a 200 response with a reading |
| Poller.RunAllAppend | aqi-orb.py:170-192 | a run of cycles extended by one outcome is one more cycle |
| Poller.RunKeepsOfflineInvariant | aqi-orb.py:190-191 | "counter above 8 implies value -1" holds after every non-empty run and is kept by every run |
| Poller.ConsecutiveFailures | aqi-orb.py:181-191 | n failures in a row add n to the counter, and the value becomes -1 exactly when the counter passes 8 |
| Poller.NineFailuresForceOffline | aqi-orb.py:164 | from counter 0, 9 consecutive failures give value -1 |
| Poller.EightFailuresKeepReading | aqi-orb.py:164 | from counter 0, 8 consecutive failures keep the last value |
| Poller.MalformedOkNeverOffline | aqi-orb.py:174-189 | any non-empty run of malformed 200 responses ends with counter 1 and the value untouched |
| Poller.SuccessRecovers | aqi-orb.py:174-178 | a successful cycle after any history gives the new value with counter 0 |
| Poller.AqiThread.constructor | aqi-orb.py:55 | the shared value starts at -1 and the counter at 0 |
| Poller.AqiThread.Step | aqi-orb.py:171-191 | the imperative cycle (reset the counter, then parse; increment on failure; force -1 over the tolerance) leaves exactly the state Next gives, and the invariant |
| Poller.AqiThread.Run | aqi-orb.py:166-192 | the thread body resets the counter, runs one cycle per outcome, and ends in the state RunAll gives from the old value and counter 0 |
| Render.IsNight | aqi-orb.py:246 | night is every hour outside 6..20 inclusive |
| Render.Quarter | aqi-orb.py:241 | each channel of the result is a quarter of the input's (4 * result == input) |
| Render.NightDim | aqi-orb.py:247 | every channel of the result is a whole number and, for a non-negative input channel c, the largest whole number at most c / 3 |
| Render.RenderColor | aqi-orb.py:233-247 | for PM2.5 >= 0: by day the colour divided by 4, at night that divided by 3 and truncated; for PM2.5 < 0: (0, 0, 255) by day and (0, 0, 85) at night |
| Render.NightDimExample | aqi-orb.py:247 | night dimming turns (48, 32, 0) into (16, 10, 0) |
| Render.NightDimChannel | aqi-orb.py:247 | a night-dimmed non-negative channel is the whole part of c / 3 |
| Render.NightHours | aqi-orb.py:17-18 | night is hours 0..5 and 21..23; hours 6..20, including 20, are day |
| Render.RenderBounded | aqi-orb.py:237-247 | for an online reading the painted channels are in [0,48] (blue [0,4]) by day and at most 16 (blue at most 1) at night |
| Render.NightDimBounded | aqi-orb.py:247 | night dimming of a colour in [0,48]x[0,48]x[0,4] gives channels in [0,16]x[0,16]x[0,1] |
| Render.OnlineNeverLooksOffline | aqi-orb.py:237-247 | an online reading is never painted the offline colour |
| Orb.SustainedOutageShowsOffline | aqi-orb.py:190-191 | after 9 consecutive failures from counter 0 the orb shows (0, 0, 255) by day and (0, 0, 85) at night |
| Orb.MalformedOkKeepsColour | aqi-orb.py:174-178 | malformed 200 responses alone leave the painted colour as it was |
| Orb.StartsOffline | aqi-orb.py:55 | for a poller starting at -1 (line 55), at every cycle until the first 200 response with a reading the orb shows (0, 0, 255) by day and (0, 0, 85) at night |

## Left out

- Fetching from the sensor (`get_sensor` and the `requests` library, aqi-orb.py:104-116): HTTP I/O; each fetch is an `Outcome` value instead.
- Parsing the body with `r.json()` and `float(...)`: library calls; a body either yields a reading or is `Malformed`.
- NaN and infinity: a body holding "nan" would be stored and then make `int()` raise inside the same `try`, counting as a failure; the stored value would also reach `pm25_to_aqi(g_pm25)` in the render loop (line 233), which is outside any `try`, so `int()` would raise there and end the render loop. Reals have no such values.
- The NeoPixel driver (`board`, `neopixel`, `neopixels.fill`): hardware output; the model's output is the colour that would be painted.
- Threads, the keep-running flag, the signal handler, `time.sleep` and `sys.exit`: concurrency and process lifecycle; each poller cycle is a call of `Step`, and the render pass is a function of the shared value.
- `datetime.now()`: the clock; the hour is a parameter in 0..23.
- The AQI that the render loop and the poller compute only for debug output, the debug printing and the `DEBUG_AQI`/`DEBUG_RGB` demo loops: output only. Every input of the `DEBUG_AQI` loop (line 212) has a lemma: 0.0 (`AqiAtZero`), the row tops (`AqiAtRowTop`, three of them also in `AqiAtBoundaries`), the values just below them (`AqiBelowRowTops`) and 1000000 (`AqiOfAMillion`). Of the `DEBUG_RGB` range (line 218) only the negative inputs (`RgbOfNegative`) and 0 (`RgbAtZero`) have concrete lemmas; the others are covered by the bounds of `RgbBetweenAnchors`.
