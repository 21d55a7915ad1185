# Play-count heat-map calendar: a Dafny model

This project models the core of a media-player panel that draws a
GitHub-style contribution calendar of daily music plays. The core covers:

- the `YYYY-MM-DD` day key (`formatDate`);
- the play-count dictionary, which grows by one on each local play and by
  additive merges of counts fetched from a Last.fm-compatible service;
- the 42-slot month grid and its five colour buckets;
- the pointer-to-day lookup behind the hover tooltip;
- month navigation with the arrows;
- the tally that turns a weekly-track-chart response into per-day counts,
  and the time range that the request asks for.

The host's `Date` object becomes pure proleptic-Gregorian arithmetic
(`Gregorian`). `MakeDay` there follows section 21.4.1.28 of ECMA-262, so
`new Date(y, m + 1, 0)` and `setMonth` fold months and days as JavaScript
does for every year from 100 on. The `Date` constructor also reads a year of
0 to 99 as 1900 to 1999; that mapping is not modelled (see "## Left out").

Modules, leaf first:

| module | file | what it holds |
|---|---|---|
| `Wrappers` | wrappers.dfy | `Option`, for `null` and missing JSON fields |
| `Gregorian` | gregorian.dfy | leap years, month lengths, day numbers, ECMAScript `MakeDay`, weekdays |
| `DateKey` | date_key.dfy | `FormatDate`, its decoder `Decode`, round trip and injectivity |
| `PlayCounts` | play_counts.dfy | `CountFor` (absent = 0), `Incremented`, `Merged`, totals |
| `Layout` | layout.dfy | constants, `ColorIndex`, the `DrawCalendar` slot loop |
| `HitTest` | hit_test.dfy | `getDayAtPosition` as written and corrected |
| `Navigation` | navigation.dfy | `setMonth` on the displayed date; the intended month cursor |
| `Scrobbles` | scrobbles.dfy | the response datatypes, the tally loop, the requested range |
| `Panel` | panel.dfy | class `HeatmapPanel`: `playCounts`, `currentDate`, `config` and the handlers that change them |

In four places the code does not do what the widget evidently intends. The
model follows the code in each and shows the difference under "## Findings":

- The hover tooltip should name the day under the pointer. The lookup counts
  rows differently from the painter and lands one week late.
- The tooltip should stay silent beside the grid. The lookup does not bound
  the column, so the area right of Saturday answers with next week's days.
- Each arrow should step one month. The displayed date keeps today's day of
  month, so from a 29th, 30th or 31st an arrow can skip a month.
- The request should cover the displayed month through the end of its last
  day. It ends when the last day begins.

The code has no key decoder and no date validation: `formatDate` formats
whatever numbers it is given. `DateKey.Decode` is here only as the inverse
that the proofs use.

## Model

| member | source | states |
|---|---|---|
| Gregorian.DaysInMonth | main.js:111 | A month has 28 to 31 days. February has 29 exactly in a leap year and 28 otherwise. |
| Gregorian.YearLength | main.js:110-111 | Day numbers of successive New Year's days differ by 366 for a leap year and 365 otherwise. This matches the month table. |
| Gregorian.DayZeroIsLastDay | main.js:111 | `new Date(y, m + 1, 0)` is the last day of month `m`, December included (the year rolls). It lies one day before the first of the next month. |
| Gregorian.Weekday | main.js:112 | `getDay()` of a date is in 0..6. |
| Gregorian.NextMonthWeekday | main.js:112 | The weekday of the first of the next month is this month's first weekday plus its length, modulo 7. |
| Gregorian.MakeDay | main.js:110-111 | Definition: the day number of `new Date(y, m, d)` after ECMAScript MakeDay folds the month into the year. Properties are in DayZeroIsLastDay, MonthBoundaries and NextMonthWeekday. |
| Gregorian.MonthBoundaries | scripts/utils.js:5-6 | `new Date(y, m + 1, 0)` is `DaysInMonth - 1` days after `new Date(y, m, 1)`, and `new Date(y, m + 1, 1)` is `DaysInMonth` days after it. |
| Gregorian.EpochAnchor | scripts/utils.js:7 | 1970-01-01 has the Unix-epoch day number and fell on a Thursday (4). |
| Gregorian.DayNumberInjective | main.js:110 | Two valid dates with the same day number are equal, so a day number identifies one date. |
| DateKey.FormatDate | main.js:169-171 | Definition: the year in decimal (with `-` when negative), then month and day padded to two digits, joined by `-`. Properties are in FormatDateDecodes, FormatDateInjective and FormatDateShape. |
| DateKey.KeyOf | scripts/utils.js:28 | Definition: the inline key, i.e. `formatDate` of a local date with a 1-based month. Properties are in KeyOfDecodes and TallyKeysAreDayKeys. |
| DateKey.PadTwo | main.js:170 | `padStart(2, '0')` yields only digits, at least two of them, and exactly two below 100. |
| DateKey.FormatDateDecodes | main.js:169-171 | Decoding `formatDate(y, m, d)` gives back exactly (y, m, d), for every year including negative ones. |
| DateKey.FormatDateInjective | main.js:169-171 | Distinct (year, month, day) triples never share a key. |
| DateKey.FormatDateShape | main.js:170 | A four-digit year with month and day below 100 gives ten characters: `-` at positions 4 and 7, digits elsewhere. |
| DateKey.KeyOfDecodes | scripts/utils.js:28 | The inline key of a local date is `formatDate` of that date with a 1-based month. It decodes to that date. |
| PlayCounts.CountFor | main.js:134 | Definition: `playCounts[key] \|\| 0`, the count of a key with absent read as 0. The count contracts below are stated with it. |
| PlayCounts.Incremented | main.js:232 | One more play on the key (absent = 0). The key set gains the key. Every other count is unchanged. |
| PlayCounts.Merged | main.js:247-249 | The keys are the union of both key sets. Each count is the stored count plus the fetched count (absent = 0). |
| PlayCounts.TotalIncremented | main.js:232 | A local play raises the total number of plays by exactly one. |
| PlayCounts.TotalMerged | main.js:247-249 | After a merge, the total is the old total plus the fetched total. |
| PlayCounts.MergeSequential | main.js:247-249 | Merging two results in turn equals merging their sum once. |
| PlayCounts.MergeCommutes | main.js:247-249 | The order in which two results are merged does not matter. |
| PlayCounts.MergeTwiceAdds | main.js:247-249 | Merging {A:2} then {A:3} raises A by 5. Merging the same result twice counts it twice. |
| PlayCounts.MergeMonotone | main.js:247-249 | A merge never lowers a count or drops a key. Keys absent from the fetched map keep their counts. |
| Layout.ColorIndex | main.js:137 | The bucket `min(floor(count/3), 4)` indexes `COLORS`. It is the largest r <= 4 with 3r <= count. |
| Layout.ColorThresholds | main.js:137 | Counts 0-2 give bucket 0, 3 gives 1, and 12 or more give 4. |
| Layout.ColorIndexMonotone | main.js:137 | More plays never give a lighter bucket. |
| Layout.DrawCalendar | main.js:124-149 | The loop paints exactly `daysInMonth` cells. Day k+1 sits in slot `startDay + k` (below 42), at column `slot % 7` and row `1 + slot / 7`, i.e. x = col*17, y = 45 + row*17. Each cell carries its key and its count's bucket. |
| HitTest.DayAtPosition | main.js:173-195 | Null exactly when y < 45 or the computed day is outside 1..daysInMonth. Otherwise it returns that day's key, its count (absent = 0), and the grid-aligned corner of the 17-pixel slot holding the pointer. |
| HitTest.PointerResolvesOneWeekLater | main.js:177-182 | A pointer on the painted square of day d reports day d+7 (null when d+7 > last), anchored at the square under the pointer. |
| HitTest.BandAnswersForFirstWeek | main.js:174-178 | The empty band between the labels and the first painted row answers with a first-week day. The corrected lookup answers null there. |
| HitTest.RightOfGridWraps | main.js:176-178 | With no bound on the column, a pointer 119 pixels further right reports the same day and count as the pointer one row lower. So the area beside the grid answers with next week's days, while the corrected lookup answers null there. |
| HitTest.DayAtPositionCorrected | main.js:173-195 | The same lookup with rows counted as painted (first row = 1) and the column bounded to the seven painted columns: null left or right of the grid, above y = 62 or outside the month, same key, count and corner otherwise. |
| HitTest.CorrectedInvertsLayout | main.js:177-178 | With rows counted as painted, a pointer on the square of day d reports day d at that square's corner. |
| Navigation.SetMonth | main.js:216 | `setMonth(m)` gives the valid date whose day number is ECMAScript MakeDay(year, m, day). The month folds into the year, and a day past the month's end spills into the next month. |
| Navigation.PreviousMonth | main.js:216 | Definition: `setMonth(getMonth() - 1)`. Properties are in PreviousMonthCases and the round-trip lemmas. |
| Navigation.NextMonth | main.js:222 | Definition: `setMonth(getMonth() + 1)`. Properties are in NextMonthCases and the round-trip lemmas. |
| Navigation.PreviousMonthCases | main.js:216 | The left arrow keeps the day in the previous month when that month has it. Otherwise the day spills back into the date's own month. |
| Navigation.NextMonthCases | main.js:222 | The right arrow keeps the day in the next month when that month has it. Otherwise the day spills one month further. |
| Navigation.ForwardUndoesBackIff | main.js:216-222 | Back then forward restores the date if and only if its day of month exists in the previous month. |
| Navigation.BackUndoesForwardIff | main.js:216-222 | Forward then back restores the date if and only if its day of month exists in the next month. |
| Navigation.YearRollover | main.js:216-222 | December steps forward to January of the next year. January steps back to December of the previous year. The day of month is kept. |
| Navigation.StepWhenDayFits | main.js:216-222 | For days 1-28 each arrow changes only the month (and the year at the ends), keeping the day. |
| Navigation.RoundTripWhenDayFits | main.js:216-222 | For days 1-28, back-then-forward and forward-then-back restore the date. |
| Navigation.JanuaryThirtyFirstSkipsFebruary | main.js:222 | From 2025-01-31 the right arrow lands on 2025-03-03, so this click skips February 2025. |
| Navigation.BackThenForwardDrifts | main.js:216 | From 2025-03-31, back gives 2025-03-03 and forward then gives 2025-04-03. The round trip fails. |
| Navigation.Advance | main.js:216-222 | The intended cursor step: a valid month whose 12*year + month moves by exactly delta. |
| Navigation.AdvanceRoundTrip | main.js:216-222 | Advance by -1 then +1, and +1 then -1, always restore the cursor, across year ends too. |
| Navigation.SetMonthFollowsAdvance | main.js:216-222 | For days 1-28, `setMonth(getMonth() + delta)` moves (year, month) exactly as `Advance` does and keeps the day. |
| Scrobbles.TrackList | scripts/utils.js:21-23 | Definition: `Array.isArray(track) ? track : [track]`. Properties are in SingleIsOneElementList and NullTrackDiscardsAll. |
| Scrobbles.Tally | scripts/utils.js:25-31 | Definition: the `plays` dictionary after the forEach has visited the tracks in order. Properties are in TallyCountsPlays, TallyTotal, UndatedTrackIgnored and SameTimestampTwice. |
| Scrobbles.Resolved | scripts/utils.js:16-37 | Definition: the value the fetch resolves with for each response shape. CountPlays is proved equal to it, and NullTrackDiscardsAll and SingleIsOneElementList state its failure and normalisation cases. |
| Scrobbles.CountTracks | scripts/utils.js:25-31 | The forEach loop returns the tally of the list, or fails exactly when an element is null (`track.date` throws). |
| Scrobbles.CountPlays | scripts/utils.js:16-37 | The fetch resolves with the tally of the normalised list. It resolves with {} for unparsable text, a null document, a missing chart or track, or any throw. |
| Scrobbles.TallyCountsPlays | scripts/utils.js:25-31 | Each day's count equals the number of dated tracks on that day. A day is a key exactly when it has one. |
| Scrobbles.TallyTotal | scripts/utils.js:25-31 | The counts sum to the number of tracks with a truthy `date.uts`. |
| Scrobbles.UndatedTrackIgnored | scripts/utils.js:26 | A track without a play time changes nothing, wherever it stands in the list. |
| Scrobbles.TallyKeysAreDayKeys | scripts/utils.js:28 | Every result key decodes to an existing date with a 1-based month, the same shape the panel stores. |
| Scrobbles.SameTimestampTwice | scripts/utils.js:27-29 | Two tracks with the same `uts` give one key with count 2. |
| Scrobbles.SingleIsOneElementList | scripts/utils.js:21-23 | A lone track object is counted exactly as a one-element array. |
| Scrobbles.NullTrackDiscardsAll | scripts/utils.js:34-37 | A null element anywhere in the array makes the result {}, even for tracks counted before it. |
| Scrobbles.RequestRange | scripts/utils.js:5-8 | `from` < `to`, and `to - from` is exactly one day short of the month's length in seconds. |
| Scrobbles.RequestRangeMissesLastDay | scripts/utils.js:6-8 | `to` is the midnight that opens the month's last day. That whole day, up to the next month's first midnight, lies after `to`. |
| Scrobbles.CorrectedRangeCoversMonth | scripts/utils.js:6-8 | Ending at the next month's first midnight spans the whole month and contains every one of its days. |
| Panel.FetchEnabled | main.js:239 | Definition: the guard of `refreshData`, i.e. key and user name truthy and the key not the placeholder. Properties are in DefaultConfigNeverFetches and RefreshData. |
| Panel.DefaultConfigNeverFetches | main.js:239 | The placeholder configuration, or any configuration whose key is the placeholder, never passes the fetch guard. |
| Panel.HeatmapPanel.constructor | main.js:40-56 | Starts on today's date. A missing configuration becomes the placeholders, and missing or unreadable counts become {}. |
| Panel.HeatmapPanel.OnPlaybackNewTrack | main.js:228-235 | The counts become `Incremented(old counts, today's key)`, so the total rises by one. Date and config are unchanged. |
| Panel.HeatmapPanel.MergeFetched | main.js:247-249 | The key-by-key loop leaves the counts equal to `Merged(old counts, fetched)`, and the total rises by the fetched total. |
| Panel.HeatmapPanel.RefreshData | main.js:238-254 | Under the guard: requests the displayed month's range and merges the resolved tally. Without the guard: requests nothing and changes nothing. |
| Panel.HeatmapPanel.ShowPreviousMonth | main.js:216 | The displayed date becomes `setMonth(getMonth() - 1)` of the old one. |
| Panel.HeatmapPanel.ShowNextMonth | main.js:222 | The displayed date becomes `setMonth(getMonth() + 1)` of the old one. |

## Left out

- Drawing is not modelled: `on_paint`, the header, the weekday labels, the tooltip, the hover outline, fonts, colour values as pixels and `toLocaleString` month names. These are host drawing calls. `DrawCalendar` returns the cells it would paint.
- Asset paths and package lookup are left out. They only locate images.
- Reading and writing the configuration and counts files is host I/O. A read is modelled as an optional parameter of the constructor. For the counts, absent stands for a missing, corrupt or `null` file, which `|| {}` turns into {}. For the configuration, absent stands for a read that throws, which installs the placeholders. `savePlayCounts` and every `window.Repaint()` are omitted.
- The network request is not modelled: URL building, `XMLHttpRequest`, `readyState`/`status` handling and the Promise. A completed request is the `Payload` parameter of `RefreshData`. A request that never completes, or completes with another status, never resolves in the source, and the model does not cover that case.
- The hourly timer and overlapping in-flight fetches are asynchronous scheduling. A fetch and its merge happen as one atomic step.
- The arrow hit boxes and mouse-move glue (`on_mouse_lbtn_up` beyond `setMonth`, `on_mouse_move`, `on_size`) are UI event glue. In the source a click on an arrow also calls `refreshData`. In the model that is a separate call to `RefreshData` after `ShowPreviousMonth`/`ShowNextMonth`.
- Scrobbles.CountPlays: converting `uts` to a local date (`parseInt`, the multiplication by 1000, the host time zone) is the parameter `localDate`, which always yields an existing date. A `uts` that `parseInt` cannot read gives `NaN-NaN-NaN` keys in the source, and the model does not capture that.
- Scrobbles.RequestRange: local time is UTC shifted by a fixed offset. Daylight-saving changes inside the month are not modelled.
- Other JSON shapes are not modelled: a `track` or `date` holding a number or string, or a document that is an array. They take the same paths as a missing field and are folded into the `Option` fields.
- The time-of-day part of `currentDate` and the range limits of JavaScript dates are not modelled. Navigation only reads the calendar date.
- Panel.HeatmapPanel.constructor: a configuration file that reads as `null` without throwing is not modelled. There `config` stays `null`, no default is written, and every later `refreshData` throws on `config.apiKey`. The model has no `null` configuration and gives that case no behaviour.
- Years 0 to 99 in the `Date` constructor are not modelled. There `new Date(y, m, d)` reads the year as 1900 + y, but `setMonth` does not. The model uses the year as given, so `DaysInMonth`, `Weekday` (as used by `DrawCalendar` and `DayAtPosition`) and `RequestRange` differ from the source for a displayed year below 100. That year is reached only after roughly 24,000 clicks back.
- The panel keeps the source's own behaviour throughout (`DayAtPosition`, `SetMonth`, `RequestRange`). The corrected members stand beside them and are not wired into the panel.

## Findings

| source | as written | input that shows it | evidently intended | confidence | as-written member | corrected member |
|---|---|---|---|---|---|---|
| main.js:177-178 | The lookup counts rows from 0 at the top of the grid band (y = 45). The painter starts its row counter at 1, so the first week is drawn at y = 62. | February 2026 starts on a Sunday. A pointer at (5, 65) is on the square of 2026-02-01 but is reported as 2026-02-08. A pointer on the last week reports nothing. | Report the day whose square is under the pointer. | not executed; high | HitTest.PointerResolvesOneWeekLater | HitTest.CorrectedInvertsLayout |
| main.js:222 | `setMonth(getMonth() + 1)` on a date that keeps today's day of month overflows into the following month when the day does not exist in the target month. | On 2025-01-31 the right arrow shows March 2025, so this click skips February 2025. On 2025-03-31, left then right shows April. | Move the displayed month by one, independent of the day. | not executed; high | Navigation.JanuaryThirtyFirstSkipsFebruary | Navigation.AdvanceRoundTrip |
| main.js:176 | The column `floor(x / 17)` is never bounded. | February 2026 starts on a Sunday. A pointer at (125, 65) lies right of the Saturday column, on no square, and is reported as 2026-02-15. | Report nothing beside the seven painted columns. | not executed; medium | HitTest.RightOfGridWraps | HitTest.DayAtPositionCorrected |
| scripts/utils.js:6 | `to` is `new Date(year, month, 0)`: midnight opening the month's last day. | For March 2025, `to` is 2025-03-31 00:00 local time. Plays during March 31 fall outside the range. | End the range at the midnight opening the next month. | not executed; medium | Scrobbles.RequestRangeMissesLastDay | Scrobbles.CorrectedRangeCoversMonth |
