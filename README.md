# SimpleDateRangePicker in Dafny

A model of the logic in `SimpleDateRangePicker`, a React component for picking a date range. The
component shows one month as rows of day numbers. Clicking a day sets the range's `from` or `to`
date, and each click fires the `onChangeFrom` / `onChangeTo` callbacks of the embedding page. Two
text inputs mirror the two dates as `MM/dd/yyyy`. Every day cell gets one of three backgrounds:
a bound, inside the range, or plain.

The files:

- `wrappers.dfy`, module `Wrappers`: `Option`, which stands for a value that may be `undefined`.
- `dates.dfy`, module `Dates`: calendar days as (year, month 1..12, day) triples.
  - Month lengths come from ECMAScript's cumulative day counts.
  - `DayNumber` is ECMAScript's day number of a midnight date. The model proves that comparing two
    `Date`s, which compares their time values, is the lexicographic order of the triples.
  - `Normalize` rolls an out-of-month day into the neighbouring months, as `MakeDay` does. This is
    what `setDate`, `setMonth` and `new Date(y, m, 0)` do. It is proved to agree with `MakeDay`'s
    day-number arithmetic.
  - Days in month, and month navigation.
- `date_format.dfy`, module `DateFormat`: date-fns' `format(d, 'MM/dd/yyyy')`. Month and day
  get at least two digits, and the year of era at least four. Reading the fields back gives the
  month, the day of month and the year of era, so within one era it gives the date.
- `grid.dfy`, module `Grid`: the week-building loops of `render`, as a loop-based method, proved
  against a closed-form grid.
- `selection.dfy`, module `Selection`: the `dayClicked` transition as a pure function over the
  four state fields, the callbacks it fires, and the classification of day cells. The lemmas give
  each branch, the invariants a click keeps, and where the order of the range breaks.
- `picker.dfy`, module `Picker`: the component as a class. Its fields are `fromDate`, `toDate`,
  `fromDateValue`, `toDateValue` and `currentCalendarDate`. The methods update them as the click
  handler and the buttons do, except that navigation follows `Dates.ShiftMonth` (see Left out). Each is proved against the pure functions above.

Behaviour of the component that the model keeps as it is:

- With only `from` set, a click compares the day of month alone (line 138). If the calendar shows an
  earlier month than `from`'s, and that month has a day after `from`'s day of month, the new `to` can
  come before `from`. `Selection.CrossMonthClickInvertsRange` shows this: `from` is 5 April 2024,
  March is shown, and clicking the 10th makes 10 March the `to`. With `from`'s month or a later one
  shown, the test keeps the order. `Selection.OnlyFromOrderedIff` proves that, for clicks on cells of
  the grid, these two conditions together are exactly the case in which some click inverts the range.
- The grid has no weekday offset and no padding: day 1 always starts the first row. The last row
  holds the remaining one to seven days.
- A cell is a bound when its `MM/dd/yyyy` text equals a bound's text (line 240). date-fns prints the
  year of era, so year 0 prints like year 1. The text then means the same calendar day only within
  one era (`DateFormat.FormatConflatesEras`, `DateFormat.FormatInjective`).

The component has no selection policies, availability windows, weekday padding or checks on typed
dates, and neither does the model.

## Model

| member | source | states |
|---|---|---|
| `Dates.MonthLength` | src/SimpleDateRangePicker.tsx:88 | Month lengths are Gregorian: 30 for April, June, September and November; 29 or 28 for February by the leap rule; 31 otherwise. |
| `Dates.Normalize` | src/SimpleDateRangePicker.tsx:93-94 | `setDate(day)` always gives a real calendar day, and gives `(y, m, day)` itself when the month has that day. |
| `Dates.NormalizeDayNumber` | src/SimpleDateRangePicker.tsx:93-94 | The normalised date lies `day - 1` days after the first of the month, as `MakeDay` computes it. |
| `Dates.BeforeIffDayNumber` | src/SimpleDateRangePicker.tsx:98 | For midnight dates, time-value comparison is lexicographic (year, month, day) order, and equal time values mean equal dates. |
| `Dates.AddMonths` | src/SimpleDateRangePicker.tsx:83 | A month-index overflow carries into the year: the count of months since year 0 moves by exactly `delta`. |
| `Dates.ConstructorYear` | src/SimpleDateRangePicker.tsx:88 | The `Date` constructor reads years 0 to 99 as 1900 to 1999 and keeps others. The year it makes has the same leap-ness, except for year 0, which is a leap year while 1900 is not. |
| `Dates.DaysInMonthAsWritten` | src/SimpleDateRangePicker.tsx:88 | Day 0 of the next month is the last day of the shown month, in the year the `Date` constructor makes of it (years 0..99 read as 1900..1999). |
| `Dates.DaysInMonth` | src/SimpleDateRangePicker.tsx:88 | Day 0 of the next month, taken in the shown year itself, is the Gregorian length of the month. |
| `Dates.DaysInMonthAsWrittenYearZero` | src/SimpleDateRangePicker.tsx:88 | Finding: the component gives February of year 0 28 days; the calendar gives it 29. |
| `Dates.DaysInMonthAsWrittenAgrees` | src/SimpleDateRangePicker.tsx:88 | Every other month of every year gets its Gregorian length from the component's expression. |
| `Dates.SetMonth` | src/SimpleDateRangePicker.tsx:75-85 | `setMonth(getMonth() +- 1)` gives a real day, and keeps the day of month when the target month has it. |
| `Dates.NavigateNextSkipsFebruary` | src/SimpleDateRangePicker.tsx:83 | Finding: "next" from 31 January 2023 shows 3 March 2023. |
| `Dates.NavigateBackStaysInMarch` | src/SimpleDateRangePicker.tsx:77 | Finding: "previous" from 31 March 2023 shows 3 March 2023. |
| `Dates.ShiftMonth` | src/SimpleDateRangePicker.tsx:75-85 | Intended navigation: the shown month is exactly `delta` months away, and the day of month is clamped to the month's length. |
| `Dates.SetMonthAgreesWithShiftMonth` | src/SimpleDateRangePicker.tsx:75-85 | When the target month has the day, the component's navigation and the intended one give the same date. |
| `Dates.ShiftMonthForwardBack` | src/SimpleDateRangePicker.tsx:75-85 | Intended navigation forward and then back returns to the month one started from. |
| `DateFormat.Format` | src/SimpleDateRangePicker.tsx:101 | The text is `MM/dd/yyyy`: slashes at positions 2 and 5, at least 10 characters. |
| `DateFormat.FormatFields` | src/SimpleDateRangePicker.tsx:101 | Reading the three fields back gives the month, the day of month and the year of era (round trip). |
| `DateFormat.FormatEqualIff` | src/SimpleDateRangePicker.tsx:240 | Two dates have equal text exactly when month, day and year of era agree. |
| `DateFormat.FormatInjective` | src/SimpleDateRangePicker.tsx:240 | Within one era, equal text means the same calendar day, and the converse. |
| `DateFormat.FormatConflatesEras` | src/SimpleDateRangePicker.tsx:240 | 1 January of year 0 and 1 January of year 1 have the same text. |
| `Grid.BuildWeeks` | src/SimpleDateRangePicker.tsx:164-187 | For any month length above 7, the two loops and the remainder branch build exactly the ceil(n/7)-row grid of days 1..n. |
| `Grid.MonthWeeksCoverMonth` | src/SimpleDateRangePicker.tsx:166-186 | The rows concatenated are `[1, 2, ..., n]`: every day exactly once, in ascending order. |
| `Grid.MonthWeeksShape` | src/SimpleDateRangePicker.tsx:167-187 | There are ceil(n/7) rows. The first starts at day 1, every row but the last has 7 days, and the last has 1 to 7. |
| `Selection.ClickedDate` | src/SimpleDateRangePicker.tsx:93-94 | The date of a clicked cell (also built at lines 233-234) is a real day. It is day `day` of the shown month when the month has that day, and in general lies `day - 1` days after the first of the shown month. |
| `Selection.Click` | src/SimpleDateRangePicker.tsx:91-160 | After any click `from` is set. A click keeps bounds that are real days real. It fires one or two callbacks. |
| `Selection.ClickWithoutFrom` | src/SimpleDateRangePicker.tsx:128-136 | With no `from`, the clicked date and its text become `from`. `to` is unchanged. Only `onChangeFrom(clicked)` fires. |
| `Selection.ClickWithOnlyFrom` | src/SimpleDateRangePicker.tsx:138-157 | With only `from` set: if `from`'s day of month is below the clicked day, `to` becomes the clicked date and only `onChangeTo` fires. Otherwise, equal day included, `from` is replaced and only `onChangeFrom` fires. |
| `Selection.ClickWithBoth` | src/SimpleDateRangePicker.tsx:97-123 | With both set: a date after `to` becomes `to`, and only `onChangeTo` fires. Any other date becomes `from`, `to` and its text are cleared, and `onChangeFrom(clicked)` then `onChangeTo(undefined)` fire. |
| `Selection.ClickKeepsMirrors` | src/SimpleDateRangePicker.tsx:97-159 | If each text input showed its bound's formatted date (or `''`) before a click, it still does after. |
| `Selection.InitialState` | src/SimpleDateRangePicker.tsx:30-37 | The initial state has empty texts for unset bounds and is ordered. |
| `Selection.ClickWithBothKeepsOrder` | src/SimpleDateRangePicker.tsx:97-123 | With both bounds set and `from <= to`, every click leaves the range ordered (a reset leaves `to` unset). |
| `Selection.ClickFromMonthOnwardOrders` | src/SimpleDateRangePicker.tsx:138-147 | With only `from` set and `from`'s month or a later one shown, any click that sets `to` makes it strictly after `from`. |
| `Selection.ClickInEarlierMonthInverts` | src/SimpleDateRangePicker.tsx:138-147 | With only `from` set and an earlier month shown that has a day after `from`'s day of month, clicking that next day's cell makes `to` come before `from`. |
| `Selection.OnlyFromOrderedIff` | src/SimpleDateRangePicker.tsx:138-157 | With only `from` set, every click on a cell of the grid keeps the range ordered exactly when the shown month is not before `from`'s, or has no day after `from`'s day of month. |
| `Selection.ClickKeepsOrder` | src/SimpleDateRangePicker.tsx:91-160 | From an ordered state of real days, every click gives an ordered state, provided a click with only `from` set is not on a month before `from`'s. |
| `Selection.CrossMonthClickInvertsRange` | src/SimpleDateRangePicker.tsx:138-147 | When a different month is shown, the day-of-month test can make `to` earlier than `from`. |
| `Selection.ClickOnFromDayReanchors` | src/SimpleDateRangePicker.tsx:148-157 | Clicking `from`'s own day of month re-anchors `from` to that day of the shown month and leaves `to` unset. |
| `Selection.Classify` | src/SimpleDateRangePicker.tsx:236-241 | A cell is a bound when its text equals a bound's text, else inside the range when it lies strictly between both bounds, else plain. Only a cell inside a proper range (`from` before `to`) is marked as in range, and a bound cell needs a bound. |
| `Selection.ClassifyEndpointIff` | src/SimpleDateRangePicker.tsx:236-240 | Within one era, a cell is a bound exactly when its date is the same calendar day as `from` or `to`. |
| `Selection.ClassifyInRangeIff` | src/SimpleDateRangePicker.tsx:240-241 | Within one era, a cell is inside the range exactly when both bounds are set and `from < day < to`. |
| `Selection.NoInRangeWithoutProperRange` | src/SimpleDateRangePicker.tsx:241 | No cell is inside the range while either bound is unset or `from` is not before `to`. |
| `Picker.SimpleDateRangePicker.constructor` | src/SimpleDateRangePicker.tsx:28-39 | The component starts with both bounds unset, both texts empty, and today's month shown. |
| `Picker.SimpleDateRangePicker.DayClicked` | src/SimpleDateRangePicker.tsx:91-160 | The fields become the next state of `Selection.Click`, and the callbacks it fires are returned in order. The shown month is unchanged, `from` is set, and mirrors that agreed still agree. |
| `Picker.SimpleDateRangePicker.NavigateBack` | src/SimpleDateRangePicker.tsx:75-79 | The shown date becomes the intended previous month (`Dates.ShiftMonth` by -1). Nothing else changes. |
| `Picker.SimpleDateRangePicker.NavigateNext` | src/SimpleDateRangePicker.tsx:81-85 | The shown date becomes the intended next month (`Dates.ShiftMonth` by +1). Nothing else changes. |
| `Picker.SimpleDateRangePicker.ShowToday` | src/SimpleDateRangePicker.tsx:252 | The "Today" button shows the month of the given current date. Nothing else changes. |
| `Picker.SimpleDateRangePicker.DaysInShownMonth` | src/SimpleDateRangePicker.tsx:87-89 | Returns the Gregorian length of the shown month, which is between 28 and 31. |
| `Picker.SimpleDateRangePicker.Render` | src/SimpleDateRangePicker.tsx:162-243 | Returns the week rows of the shown month and, for every day in them, the cell class `Selection.Classify` gives it. |
| `Picker.YearZeroFebruaryRows` | src/SimpleDateRangePicker.tsx:88-187 | For February of year 0 the component's month length lays out 4 week rows, the calendar's length 5. |

## Left out

- Text-input handlers `onChangeFrom` / `onChangeTo` (lines 53-73): they rely on engine-dependent `new Date(string)` parsing. They also never touch `fromDate` / `toDate`, so the mirror invariant is stated over clicks only.
- Outside-click handling (lines 41-51): the `document` listener, `handleOutsideClick`, `showCalendar` and `calendarRef` are DOM plumbing.
- Rendering: JSX, MUI `Paper` / `Button` / `TextField`, `InputMask`, the weekday names and the colours. The model keeps only the cell class behind each colour.
- The month and year label (line 213): `toLocaleString` is locale-dependent display.
- React `setState` batching: each branch of `dayClicked` is one atomic update of the fields.
- Time of day: every date is taken at midnight. `newDate` copies the shown date's clock time, and "Today" resets that time, which the model ignores.
- The callback props are taken to be present, as the props interface requires. The model returns the calls the component makes; what the page does with them is not modelled.
- The range of JavaScript time values (about 273,790 years either side of 1970) is not modelled: years are unbounded.
- `src/App.tsx` is page composition that formats the callback values for display.
- Picker.SimpleDateRangePicker.NavigateBack: it uses the intended `Dates.ShiftMonth`, not the component's `setMonth` rollover (see Findings). The rollover itself is `Dates.SetMonth`.
- Picker.SimpleDateRangePicker.NavigateNext: likewise uses `Dates.ShiftMonth`, not the rollover of `Dates.SetMonth` (see Findings).
- Picker.SimpleDateRangePicker.DaysInShownMonth: it uses the corrected `Dates.DaysInMonth`. This differs from the component only for February of year 0 (see Findings).
- Picker.SimpleDateRangePicker.Render: its rows come from the corrected month length, so for February of year 0 it gives 5 rows where the component renders 4 (`Picker.YearZeroFebruaryRows`, see Findings).
- Selection.ClassifyEndpointIff: stated for dates of one era, because the text comparison it models conflates year y with year 1 - y.
- Selection.ClassifyInRangeIff: stated for dates of one era, for the same reason.

## Findings

| source | as written | input that shows it | evidently intended | confidence | as-written member | corrected member |
|---|---|---|---|---|---|---|
| src/SimpleDateRangePicker.tsx:88 | `new Date(year, month + 1, 0)` goes through the `Date` constructor, which reads years 0 to 99 as 1900 to 1999 | the calendar shows February of year 0 | 29 days, since year 0 is a Gregorian leap year; the grid shows 28 | not executed | `Dates.DaysInMonthAsWrittenYearZero` | `Dates.DaysInMonth` |
| src/SimpleDateRangePicker.tsx:83 | `setMonth(getMonth() + 1)` keeps the day of month, so a day the next month lacks rolls over | the shown date is 31 January 2023 and "next" is pressed | February 2023 is shown; the month shown is March | not executed | `Dates.NavigateNextSkipsFebruary` | `Dates.ShiftMonth` |
| src/SimpleDateRangePicker.tsx:77 | `setMonth(getMonth() - 1)` keeps the day of month, so a day the previous month lacks rolls over | the shown date is 31 March 2023 and "previous" is pressed | February 2023 is shown; March stays | not executed | `Dates.NavigateBackStaysInMarch` | `Dates.ShiftMonth` |
