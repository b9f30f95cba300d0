# Habit tracker core, modelled in Dafny

The tracker is a single browser page (`script.js`). It keeps an ordered list of
habit texts, a per-day record of which habit indices were checked on that day,
and a selected day. From these it paints a month calendar. Every day up to
today gets a status band: perfect, success, fail, or fail with neon. It also
draws a progress circle for the selected day and year and month progress
indicators. This project models the rule set under that page:

- `Rounding` — `Math.round(n / d)` (and `toFixed(0)` of a non-negative ratio)
  as an exact integer function, `RoundRatio`.
- `Calendar` — Gregorian calendar arithmetic over (year, month 0–11, day)
  triples. It covers the leap-year test, year and month lengths, the ordinal
  day of the year, and a day number (days since 1 January of year 1) that
  orders dates. It also gives the weekday that `getDay` returns and the year
  and month progress percentages. A `Date` value is the day-only key that
  `toDateString()` gives the page.
- `Status` — the band of one day. `DayBand` classifies by exact integer
  comparisons. `BandOfPercentage` transcribes the source's percentage test
  literally over rationals, and `DayBandMatchesPercentage` proves the two
  agree for every input. `HabitProgress` is the figure the progress circle
  shows.
- `JsBuiltins` — the JavaScript built-ins the store is written with:
  `trim` (with ECMAScript's whitespace set), `indexOf`, and `splice(start, 1)`.
  A negative start counts back from the end; a start past the end removes
  nothing.
- `Tracker` — the class `HabitStore` with fields `habits`, `completions` and
  `selectedDate`. Its methods are `AddHabit`, `DeleteHabit`, `ToggleHabit`,
  `SelectDate`, the month grid `RenderCalendar` (a blank cell per weekday
  before the 1st, then one cell per day), and `SelectedDayProgress`.
  `IsChecked` is the per-habit checkbox state of the habit list
  (script.js:138). `CompletedCount` is the day's list length, whatever the
  list holds (script.js:86, 204). The pure functions `Toggled` and
  `ToggleCompletions` specify the toggle. The client method
  `StaleCompletionsAfterDelete` walks through two habits being checked and
  then deleted.

Three points about what the code does, which the model keeps:

- Deleting a habit only splices the habit list. The completion record keeps
  its old indices; nothing is removed or renumbered. A day's count is the
  length of its list, so after a delete the list can be longer than the habit
  list. Such a day is classified as success (`OverfullDayIsSuccess`), and the
  circle can read 200% (`StaleCompletionsAfterDelete`).
- A day's completions are a list, not a set. `toggleHabit` edits it with
  `indexOf`, `splice` and `push`. The model keeps the list and proves what
  holds when it has no duplicates.
- There are no per-day tasks, no streaks, no blocking of edits to past days,
  and no upgrading of stored habits. The model does not add them.

## Model

| member | source | states |
|---|---|---|
| `Rounding.RoundRatio` | script.js:49 | the result is the integer nearest n / d, a half rounding up: 2n − d < 2d·r ≤ 2n + d |
| `Calendar.IsLeapYear` | script.js:39 | the Gregorian leap-year rule; its consequences are stated by `DaysInYear`, `KnownMonthLengths` and `FourHundredYearCycle` |
| `Calendar.DaysInYear` | script.js:40 | a year has 365 or 366 days, and 366 exactly when it is a leap year |
| `Calendar.DaysInMonth` | script.js:66 | every month has 28 to 31 days; 29 exactly for February of a leap year, 28 exactly for February of a common year, 30 exactly for April, June, September and November |
| `Calendar.MonthsFillYear` | script.js:39-40 | the twelve month lengths add up to the year length, 366 in a leap year and 365 otherwise |
| `Calendar.FourHundredYearCycle` | script.js:39 | the leap-year rule repeats every 400 years, and 400 years are exactly 146097 days |
| `Calendar.YearStep` | script.js:39-40 | January 1 of the next year comes exactly DaysInYear days after January 1 of this year |
| `Calendar.LastDayPrecedesNextMonth` | script.js:48 | the last day of a month is the day before the first of the next month, January of the next year after December ("day 0 of the next month") |
| `Calendar.DayOfYear` | script.js:35-38 | the ordinal day of the year; `DayOfYearIsDaysSinceDec31` and `DayOfYearBounds` state what it is |
| `Calendar.DayOfYearIsDaysSinceDec31` | script.js:35-38 | on an existing date the ordinal day is the number of days between December 31 of the previous year and the date |
| `Calendar.DayNumber` | script.js:83-95 | the count of days from 1 January of year 1; `LastDayPrecedesNextMonth`, `OnOrBeforeIsLexicographic` and `DayNumberInjective` state how it orders and identifies days |
| `Calendar.OnOrBefore` | script.js:95 | `thisDate <= today` for two dates at midnight; `OnOrBeforeIsLexicographic` states it is the (year, month, day) order |
| `Calendar.DayOfYearBounds` | script.js:35-38 | on an existing date the ordinal day lies in 1..DaysInYear; January 1 is day 1; only December 31 is the last day |
| `Calendar.OnOrBeforeIsLexicographic` | script.js:95 | the comparison `thisDate <= today` by day number holds exactly when (year, month, day) is lexicographically at most today's |
| `Calendar.DayNumberInjective` | script.js:83-84 | two existing dates with the same day number are the same date, so a day key names exactly one day |
| `Calendar.Weekday` | script.js:65 | the weekday of the first of the month, the number of leading blank cells, lies in 0..6 |
| `Calendar.WeekdayOfNextMonth` | script.js:65-66 | the next month starts DaysInMonth weekdays (mod 7) after this month's first |
| `Calendar.WeekdayRepeatsEvery400Years` | script.js:65 | a date 400 years later falls on the same weekday |
| `Calendar.KnownWeekdays` | script.js:65 | 1 January 2024 is a Monday (1), 14 October 2026 a Wednesday (3), 29 February 2000 a Tuesday (2) |
| `Calendar.KnownMonthLengths` | script.js:66 | February has 29 days in 2024 and 2000 and 28 in 2023 and 1900 |
| `Calendar.YearPercent` | script.js:41 | the ordinal day as a whole percentage of the year length; `YearPercentBounds` states its range and when it reads 100 |
| `Calendar.YearPercentBounds` | script.js:35-41 | on an existing date the year percent lies in 0..100; it is 100 exactly on the last two days of the year, from 99.5% up |
| `Calendar.MonthPercent` | script.js:47-49 | the day of the month as a whole percentage of the month length; `MonthPercentBounds` states its range and when it reads 100 |
| `Calendar.MonthPercentBounds` | script.js:47-49 | on an existing date the month percent lies in 1..100, and it is 100 exactly on the last day of the month |
| `Status.DayBand` | script.js:95-109 | no band exactly when there are no habits or the day is after today; otherwise exactly one band: perfect iff completed == habits, success iff not perfect and 100·completed ≥ 60·habits, fail with neon iff nothing completed, plain fail iff 0 < 100·completed < 60·habits; 60% and 100% go to the higher band |
| `Status.Percentage` | script.js:88-92 | the rational percentage completed / habits · 100; `PercentageScaled` and `PercentageThresholds` state its value at the thresholds |
| `Status.BandOfPercentage` | script.js:88-109 | the source's band decision on that percentage, read literally; `DayBandMatchesPercentage` equates it with `DayBand` |
| `Status.PercentageThresholds` | script.js:88-102 | the rational percentage completed / habits · 100 equals 100 iff completed == habits, is at least 60 iff 100·completed ≥ 60·habits, and is 0 iff completed == 0 |
| `Status.DayBandMatchesPercentage` | script.js:86-109 | the integer classification equals the source's test on the percentage, for every count, habit count and date |
| `Status.DayBandMonotone` | script.js:96-108 | with at most as many entries as habits, completing more never gives a worse band (fail+neon < fail < success < perfect) |
| `Status.OverfullDayIsSuccess` | script.js:86-101 | a list longer than the habit list, as a delete leaves behind, is classified success, not perfect |
| `Status.HabitProgress` | script.js:195-213 | with no habits the circle shows 0% and 0/0; otherwise completed/total and the percentage rounded to nearest, halves up |
| `Status.HabitProgressBounds` | script.js:204-207 | with entries not exceeding habits the percentage lies in 0..100; it is 100 when all are done, 0 when none, and at least 100 for an overfull list |
| `Status.RoundedHundredIsNotPerfect` | script.js:207 | with 199 of 200 habits done the circle reads 100% while the day's band is success |
| `JsBuiltins.TrimStart` | script.js:153 | the result is a suffix of the input; everything removed is whitespace; it does not start with whitespace |
| `JsBuiltins.TrimEnd` | script.js:153 | the result is a prefix of the input; everything removed is whitespace; it does not end with whitespace |
| `JsBuiltins.Trim` | script.js:153-154 | the input is the trimmed text between a run of leading and a run of trailing whitespace; the trimmed text is empty exactly when the input is all whitespace, otherwise it starts and ends with a non-whitespace character |
| `JsBuiltins.TrimIdempotent` | script.js:153 | trimming trimmed text changes nothing |
| `JsBuiltins.IndexOf` | script.js:179 | the result is −1 exactly when the element is absent; otherwise it is the position of the first occurrence |
| `JsBuiltins.SpliceStart` | script.js:167 | the position `splice(start, 1)` acts on lies within 0..length; `SpliceOne` states each case of the start |
| `JsBuiltins.SpliceOne` | script.js:167 | for a start inside the array, exactly that element is removed; the length drops by one and the others keep their order; a negative start counts from the end; a start past the end removes nothing |
| `JsBuiltins.RemovedAtMultiset` | script.js:167 | removing one position keeps every other element: the multiset loses exactly the removed element |
| `Tracker.CompletedCount` | script.js:86 | the length of the day's list, 0 for a day without one; `OverfullDayIsSuccess` and `StaleCompletionsAfterDelete` show it counts stale entries |
| `Tracker.DayList` | script.js:176-177 | the day's list, an absent day reading as the empty list `toggleHabit` creates; `ToggleCompletions` states its use |
| `Tracker.Toggled` | script.js:179-184 | a present index loses its first occurrence, the rest staying in order; an absent index is appended at the end |
| `Tracker.ToggleCompletions` | script.js:176-184 | after a toggle the selected day is present in the record (created empty if it was absent), its list is toggled, and every other day is unchanged |
| `Tracker.ToggledMembership` | script.js:179-184 | a toggle changes the membership of no other index; on a list without duplicates it flips the toggled index's membership |
| `Tracker.ToggledKeepsNoDuplicates` | script.js:179-184 | a list without duplicates has none after a toggle |
| `Tracker.ToggleTwiceAbsent` | script.js:179-184 | toggling an unlisted index twice gives back exactly the original list |
| `Tracker.ToggleTwiceSameElements` | script.js:179-184 | on a list without duplicates two toggles of one index restore the same elements; an index that was checked comes back at the end of the list |
| `Tracker.ToggleTwiceWithDuplicate` | script.js:179-184 | with a duplicated index two toggles do not restore the list: [i, i] becomes [] |
| `Tracker.ToggleCompletionsTwice` | script.js:177-184 | two toggles of one index on one day leave other days unchanged; an absent day ends with an empty list; a duplicate-free day ends with the same indices |
| `Tracker.HabitStore.IsChecked` | script.js:138 | whether a habit's checkbox is ticked for the selected day; `ToggleHabit` states how a toggle changes it |
| `Tracker.HabitStore.DayCell` | script.js:79-116 | the cell painted for one day of the viewed month; `RenderCalendar` states its band, selection and number |
| `Tracker.HabitStore.constructor` | script.js:25-28 | the store starts with the saved habits and completions, and today selected |
| `Tracker.HabitStore.SelectDate` | script.js:119 | clicking a day selects it and changes nothing else |
| `Tracker.HabitStore.AddHabit` | script.js:152-156 | blank or whitespace-only input changes nothing; otherwise exactly the trimmed text is appended at the end; completions and the selected day stay unchanged |
| `Tracker.HabitStore.DeleteHabit` | script.js:165-167 | the habit list becomes `splice(index, 1)` of the old one; for an index in range exactly that habit goes and the rest keep their order; completions are not touched |
| `Tracker.HabitStore.ToggleHabit` | script.js:175-184 | completions become the toggle of the selected day's list; other habits' checked state is unchanged; a duplicate-free list stays duplicate-free and the toggled habit's checked state flips; habits and the selected day stay unchanged |
| `Tracker.HabitStore.RenderCalendar` | script.js:65-116 | the grid has as many leading blanks as the weekday of the 1st, then one cell per day of the month, numbered in order; each day cell's band is the day's DayBand and is absent exactly when there are no habits or the day is after today; a cell is selected exactly when it is the selected date |
| `Tracker.HabitStore.SelectedDayProgress` | script.js:195-207 | with no habits the circle shows 0/0 at 0%; otherwise the selected day's list length over the habit count, and a percentage within half a point of 100 · length / habits, a half rounding up |

## Left out

- All DOM work is presentation and is not modelled. This covers element lookups, `innerHTML`/`classList`/`style` painting, the degree conversions, month names, and clearing the input box.
- The event listeners are wiring, not logic. Month navigation with `setMonth` and the initial render calls are left out for the same reason. Only the state change of a day click (`SelectDate`) is modelled.
- `localStorage` and `JSON` persistence are browser I/O. The saved habits and completions are constructor parameters, and saving after each change is not modelled.
- The `confirm` dialog of `deleteHabit` is a user interaction. Only the confirmed branch is modelled.
- The clock (`new Date()`) is a parameter: `today` for the calendar and the date given to the progress functions.
- `DayOfYear`: the source counts days as whole milliseconds since December 31 divided by the length of a day. A daylight-saving shift can make that floor one day smaller just after midnight. The model counts calendar days.
- `new Date(y, m, d)` maps years 0–99 to 1900–1999. That quirk is not modelled. Years are taken as they are, proleptic Gregorian.
- `toDateString()` keys are replaced by `Date` triples. One day gives one key (`DayNumberInjective`). A locale string is not modelled.
- Floating point is not modelled. Percentages are exact rationals or integers. For the band thresholds (60% and 100%) the IEEE result agrees with the exact one (for example, 3/5·100 is exactly 60); the year and month percents never fall on an exact half, so their rounding agrees too. This is not proved for arbitrary habit counts.
- `HabitProgress`: where completed / total · 100 is exactly a half, the double product can fall just below it, and the circle then shows one less than the model. The first case is 23 of 40 habits: 57.49999999999999 rounds to 57, while the model gives 58. The model states the exact rounding.
- `YearPercent`: `toFixed(0)` returns a string; the model returns its integer value.
- `renderHabits` builds list rows. Only the checked state of a row (`IsChecked`) is modelled.
- The toggle index is not checked against the habit list, because the source does not check it. Any integer can be recorded.
