# ElPris price window and chart, in Dafny

A model of `src/ElPris.h` from m5-elpris. This is the firmware of an M5Paper
e-ink display that shows Danish hourly electricity spot prices (price area
DK1) for yesterday, today and tomorrow. The model covers four parts:

- **Timestamps** (`apitime.dfy`, module `ApiTime`). `parseApiTime` reads the
  API's `YYYY-MM-DDTHH:MM:SS` with `sscanf("%d-%d-%dT%d:%d:%d")` into a C
  `struct tm`. The format is modelled as a list of directives, either a `%d`
  conversion or a literal character. The scanner reads digit runs. The model
  also has the inverse, zero-padded formatting, for the round trip.
- **Day buckets** (`buckets.dfy`, module `Buckets`). A `struct Prices` is a
  flag, a count and 25 fixed slots. `fetchPrices` fills one from the outcome
  of the HTTP request and JSON decoding, which arrives as a `Response` value.
- **The three-bucket window** (`window.dfy`, module `PriceWindow`).
  `ElPris::update` is a pure transition. The results of the three possible
  `fetchPrices` calls are parameters. `src/main.cpp` makes one `ElPris`
  per boot and calls `update` once on it (`Initial` is that fresh object).
  `Run` applies successive calls of `update` to one `ElPris` object.
- **The chart** (`series.dfy` and `layout.dfy`, modules `PriceSeries` and
  `ChartLayout`). `ElPris::draw` up to the canvas covers three steps:
  - building the two-day series in the 50-slot buffer and finding the
    current hour;
  - the zero-inclusive price scale;
  - every bar, line and label, with its pixel position and grey level.

  The result is a `Plan` of drawing primitives, not canvas calls.

`basics.dfy` holds `Option`, `Result`, C++ truncating division (`CDiv`) and
the division facts the geometry proofs use.

Prices are `float` kroner in the source. The model uses integer thousandths
of a krone, the precision the display prints. The source computes y
coordinates in `float` and truncates them to `int`. The model truncates the
exact quotient instead.

## Model

| member | source | states |
|---|---|---|
| `Basics.CDivTruncates` | src/ElPris.h:142 | C++ integer division truncates toward zero: the remainder has the dividend's sign and is smaller than the divisor, so negating the dividend negates the quotient, unlike Dafny's flooring `/` |
| `ApiTime.Scan` | src/ElPris.h:266-267 | a format that `sscanf` fills completely yields exactly one number per `%d` conversion |
| `ApiTime.ParseApiTime` | src/ElPris.h:262-277 | `tm_isdst` is -1; year and month are rebased by 1900 and 1, so they are at least -1900 and -1; the other fields are non-negative (which values are read is stated by `ApiTime.ParseWithTrailingText`) |
| `ApiTime.ParseWithTrailingText` | src/ElPris.h:264-275 | six digit fields laid out as `%d-%d-%dT%d:%d:%d`, followed by nothing or by any text not starting with a digit, are well-formed and parse to the six fields' values (year less 1900, month less 1, `tm_isdst` -1): `sscanf` ignores the trailing text |
| `ApiTime.OffsetIgnoredExample` | src/ElPris.h:264-275 | "2024-01-23T00:00:00" followed by "+01:00" parses to 23 January 2024, 00:00:00, the offset ignored |
| `ApiTime.ParseFormatRoundTrip` | src/ElPris.h:264-275 | any six naturals (see Left out for the source's 32-bit bound) formatted zero-padded as `YYYY-MM-DDTHH:MM:SS` are well-formed and parse back to the same numbers, with year less 1900, month less 1 and `tm_isdst` -1 |
| `ApiTime.OutOfRangeFieldsPassThrough` | src/ElPris.h:269-274 | no range check is made: "2024-13-40T99:99:99" parses to month 12 (0-based), day 40, 99:99:99 |
| `Buckets.FetchPrices` | src/ElPris.h:200-260 | on a non-200 status or a JSON error the bucket is the default one: unavailable, 0 entries. Otherwise it is available and holds one entry per array element, in array order, with the parsed time. With at most 25 elements every slot written is inside the array |
| `PriceWindow.Requests` | src/ElPris.h:61-77 | after the shift, yesterday is fetched exactly when it is missing and no shift happened; today exactly when the bucket moving into today's slot is missing; tomorrow exactly when it is missing and the hour is at least 13 |
| `PriceWindow.Update` | src/ElPris.h:58-79 | `lastUpdate` becomes now. On a day change yesterday becomes the old today and today the old tomorrow, unless missing. Without a day change each present bucket is kept. Tomorrow is replaced only when missing from 13:00 |
| `PriceWindow.UpdateReplacesOnlyRequested` | src/ElPris.h:66-77 | each slot after the shift is replaced by its fetch result exactly when requested, and a present bucket is never requested or overwritten |
| `PriceWindow.NoShiftWithoutToday` | src/ElPris.h:61 | with today's bucket missing nothing shifts, whatever the date, and today is fetched |
| `PriceWindow.UpdateKeepsValid` | src/ElPris.h:58-79 | every bucket stays a 25-slot array with a count within it |
| `PriceWindow.UpdateFillsMissing` | src/ElPris.h:66-77 | when every fetch made succeeds, yesterday and today are present afterwards, and tomorrow too from 13:00 |
| `PriceWindow.UpdateSettles` | src/ElPris.h:58-79 | after successful fetches a second update at the same time requests nothing and changes nothing |
| `PriceWindow.FirstUpdateAfterBoot` | src/ElPris.h:58-79 | on a fresh object (src/main.cpp:17, 44) nothing shifts; yesterday and today are always fetched and tomorrow only from 13:00, so before 13:00 tomorrow's slot stays empty |
| `PriceWindow.SameDayOfLaterMonthDoesNotShift` | src/ElPris.h:61-64 | an update on 5 February after one on 5 January does not shift, because only `tm_mday` is compared: every present bucket stays in its slot |
| `PriceWindow.SkippedDaysShiftOnce` | src/ElPris.h:61-64 | three days skipped still shift by only one slot, because the code only compares `tm_mday` for inequality |
| `PriceWindow.ShiftDuplicatesTomorrow` | src/ElPris.h:61-77 | on a day change with tomorrow present, the old tomorrow bucket lands in both the today and tomorrow slots and tomorrow is not fetched |
| `PriceWindow.DuplicateIsPermanent` | src/ElPris.h:58-79 | once today and tomorrow hold the same present bucket, no sequence of later `update` calls on the same object changes either slot |
| `PriceWindow.StaleTomorrowExample` | src/ElPris.h:58-79 | concrete trace on one object: buckets for days 1, 2 and 3, an update on day 2, then any further updates; day 3's prices stay in both today and tomorrow |
| `PriceWindow.UpdateCorrected` | src/ElPris.h:58-79 | with tomorrow emptied by the shift: the same as `update` without a day change; on a day change yesterday is the old today and tomorrow is fetched from 13:00, or empty before |
| `PriceWindow.CorrectedShiftDoesNotDuplicate` | src/ElPris.h:61-77 | with the correction the old tomorrow moves to today only: before 13:00 tomorrow is empty, from 13:00 it is the fresh fetch |
| `PriceWindow.CorrectedLeavesDuplicate` | src/ElPris.h:61-77 | the duplicated state of `DuplicateIsPermanent` is left at the next day change from 13:00 |
| `PriceSeries.LastHourIndex` | src/ElPris.h:91-96 | the index of the last entry stamped with the current hour, or -1: that entry has the hour and no later one does |
| `PriceSeries.SeriesShape` | src/ElPris.h:86-116 | the chart is drawn exactly when today is present together with tomorrow or yesterday. The series is the two buckets' entries end to end (today and tomorrow when tomorrow is present, else yesterday and today) and fits the 50-slot buffer. The current index lies in today's part at an entry of the current hour, last among today's, or is -1 |
| `PriceSeries.NoCurrentHourWhenUnmatched` | src/ElPris.h:109-114 | the current index is -1 exactly when no entry of today's bucket carries the current hour |
| `PriceSeries.EmptyTodayExample` | src/ElPris.h:102-116 | with yesterday present and today present but empty, the series is drawn with current index -1 |
| `PriceSeries.CopyEntries` | src/ElPris.h:97-99 | a bucket's entries land, in order, in the buffer from the given offset on, and the earlier part of the buffer is kept |
| `PriceSeries.CopyTracking` | src/ElPris.h:109-114 | the same copy, and the recorded index is the buffer position of the last entry of the current hour, or -1 |
| `PriceSeries.CollectSeries` | src/ElPris.h:83-116 | the buffer loops build exactly the reference series `SeriesOf`, early return included |
| `ChartLayout.MinPrice` | src/ElPris.h:121-127 | the scale's bottom is at most 0, at most every price, and is 0 or one of the prices |
| `ChartLayout.MaxPrice` | src/ElPris.h:121-127 | the scale's top is at least 0, at least every price, and is 0 or one of the prices |
| `ChartLayout.FlatScaleIffAllZero` | src/ElPris.h:121-127 | the scale is a single value, making the y divisor 0, exactly when every price is 0 |
| `ChartLayout.PriceYInside` | src/ElPris.h:168 | every price on the scale gets a y between the frame's top and bottom edges |
| `ChartLayout.PriceYMonotone` | src/ElPris.h:168 | a higher price gets a smaller or equal y, so it is drawn higher up |
| `ChartLayout.PriceYEndpoints` | src/ElPris.h:152 | the top of the scale maps to the frame's top edge and the bottom of the scale to its bottom edge |
| `ChartLayout.BarXIncreasing` | src/ElPris.h:167 | with at least one pixel per step, later entries are strictly further right |
| `ChartLayout.BarXInside` | src/ElPris.h:142 | with at least one pixel per step, every entry's x is strictly between the frame's left and right edges |
| `ChartLayout.LabelledFrom` | src/ElPris.h:138-141 | the labelled entries, in increasing order, are exactly those at the current hour or at an hour divisible by 6 more than two entries from it |
| `ChartLayout.LabelsKeepClearOfNow` | src/ElPris.h:139-140 | the current entry is labelled, and every other labelled entry is at least three entries from it |
| `ChartLayout.HourLabels` | src/ElPris.h:138-150 | one hour label per labelled entry, in order, centred under the entry's x below the frame, black for the current hour and grey 10 otherwise |
| `ChartLayout.BarsInsideFrame` | src/ElPris.h:165-172 | with at least one pixel per step and a frame of non-negative height, every bar of prices on the scale is vertical, strictly between the frame's left and right edges, with its top at or below the top edge, and the bars go strictly left to right in series order |
| `ChartLayout.PlanBars` | src/ElPris.h:165-172 | one vertical bar per entry, from its price's y down to the frame's bottom edge, black exactly for the current entry; under the conditions of `BarsInsideFrame` the bars lie inside the frame, left to right |
| `ChartLayout.YNowInside` | src/ElPris.h:152 | the current price's y lies between the frame's top and bottom edges when the frame's height is non-negative |
| `ChartLayout.MakePlan` | src/ElPris.h:151-177 | the scale runs from the lowest to the highest price with 0 included. With at least one pixel per step and a frame of non-negative height, the bars are vertical, inside the frame and left to right, black exactly for the current entry. The now line spans the frame at the current bar's top, which lies between the frame's edges. A scale label is printed exactly when it is more than two font heights from that line, and then its text never overlaps the current price's text. The hour labels are those of `LabelledFrom`, in order |
| `ChartLayout.Layout` | src/ElPris.h:118-177 | the layout fails with `NoCurrentHour` exactly when the current index is outside the series, and with `FlatScale` exactly when every price is 0. Otherwise it is the plan |
| `ChartLayout.BarsFollowPrices` | src/ElPris.h:165-172 | a higher price never has a lower bar top |
| `ChartLayout.ExtremeBars` | src/ElPris.h:168-171 | the highest price's bar reaches the frame's top edge, and the lowest price's bar has no height |
| `ChartLayout.EmptyTodayReported` | src/ElPris.h:152 | the window of `EmptyTodayExample`, where the source indexes `allPrices[-1]`, is reported as `NoCurrentHour` |
| `ChartLayout.LayoutExample` | src/ElPris.h:134-172 | three hours at 0.010, 0.020 and 0.030 kr, the middle one current, on the 960 x 540 panel: bars at x 242, 445 and 647 with tops at y 346, 203 and 60, both scale labels and one hour label |
| `ChartLayout.Draw` | src/ElPris.h:81-177 | the early return (`PricesMissing`) happens exactly when today is missing, or both tomorrow and yesterday are; otherwise the result is the layout of the collected series |

## Left out

- HTTP transfer, URL building with `strftime`, JSON decoding and `Serial` logging (src/ElPris.h:201-243). These are foreign libraries. Their outcome is the `Response` parameter of `FetchPrices`: a status code and a payload that is malformed, not an array, or an array of elements.
- A JSON element without `DKK_per_kWh` or `time_start`. ArduinoJson would read 0 or a null string; a null string reaching `sscanf` is undefined. Elements always carry both fields in the model.
- Buckets.FetchPrices requires at most 25 elements and a well-formed `time_start` in each. With more, the source writes past `prices[25]`; with a malformed timestamp, `sscanf` leaves the fields uninitialised. Both are undefined behaviour, not an error the code handles.
- ApiTime.ParseApiTime requires a timestamp that fills all six conversions, for the same reason. The scanner reads unsigned digit runs only: `%d`'s sign and leading white space are not modelled, since the API never sends them.
- ApiTime.ParseApiTime reads every `%d` into an unbounded natural. The source reads into 32-bit `int` fields (src/ElPris.h:265-267), and `sscanf` on a digit run above 2147483647 is undefined behaviour; the model gives such a run its full value.
- ApiTime.ParseFormatRoundTrip holds for any six naturals in the model. For the source it is meaningful only for fields up to 2147483647, because of the 32-bit `int` fields above.
- `getNow`, `getDay` and the time zone (src/ElPris.h:37-56). They read the clock through libc `time`, `mktime` and `localtime_r`. The current time is a parameter (`now`) of `Update` and `Draw`.
- The canvas: `drawLine`, `drawString`, `setTextColor`, `setTextSize`, `pushCanvas`. `textWidth` and `fontHeight` are parameters. The plan lists the primitives in the order `draw` issues them.
- The header text with the date and the battery voltage (src/ElPris.h:179-188). These are `strftime` formatting and a hardware read.
- Float rounding. Prices are integer thousandths, and y coordinates truncate the exact quotient instead of a `float` one. `String(x, 3)` formatting is represented by the `Amount` label.
- src/main.cpp: Wi-Fi, NTP and the deep-sleep loop. Each boot builds a fresh `ElPris` (src/main.cpp:17), calls `update` and then `draw` once on the 960 x 540 canvas (src/main.cpp:42-45) and powers off (src/main.cpp:58).
- Persistence of the buckets, calendar-date matching of buckets, DST-aware day arithmetic, a `MalformedTimestamp` error and omitting zero-height bars. The code has none of these, and the model adds none: buckets live only in RAM for one boot, shift by index on a `tm_mday` change, malformed timestamps are excluded by precondition, and every bar is drawn.

## Findings

| source | as written | input that shows it | evidently intended | confidence | as-written member | corrected member |
|---|---|---|---|---|---|---|
| src/ElPris.h:61-64 | the day-change shift copies today to yesterday and tomorrow to today, but leaves the tomorrow slot holding the same, still available bucket, so tomorrow is never fetched again | one object holding buckets for days 1, 2, 3 and `lastUpdate` on day 1; an `update` on day 2 and any number after | the shift empties tomorrow's slot, so it is fetched from 13:00 | low: latent, because `main.cpp` makes a fresh object per boot and calls `update` once on it before powering off (`PriceWindow.FirstUpdateAfterBoot`); not executed | `PriceWindow.StaleTomorrowExample` | `PriceWindow.UpdateCorrected` |
| src/ElPris.h:152 | `allPrices[iPriceNow]` is read with `iPriceNow == -1` when no entry of today carries the current hour | yesterday present; today's fetch got status 200 with an empty or non-array payload, so today is available with 0 entries | rendering stops and reports that there is no current hour | medium: needs an empty or non-array answer from the API; not executed | `PriceSeries.EmptyTodayExample` | `ChartLayout.EmptyTodayReported` |
| src/ElPris.h:143 | y divides by `maxPrice - minPrice`, which is 0 when every price is 0 (0 is always on the scale), so a NaN is converted to `int` | a series whose prices are all 0.000 kr, current hour present | rendering stops on a degenerate scale | low: needs two days of exactly zero prices; not executed | `ChartLayout.FlatScaleIffAllZero` | `ChartLayout.Layout` |

In the model, `Draw` uses the corrected chart (`Layout` with its `NoCurrentHour` and `FlatScale` errors). `PriceWindow.Update` stays as written, and `PriceWindow.UpdateCorrected` is its corrected partner.
