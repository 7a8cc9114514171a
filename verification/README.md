# Timesheet widget: hours, saved days and weekly totals

A Dafny model of the logic in the timesheet widget of CineStock
(`components/TimesheetWidget.tsx`). A crew member enters the date of a
working day, a call time, a meal time, an end time and whether the meal was
shortened. The widget:

- works out the hours of the day (`calculateHours`). A shift whose end reads
  earlier than its start runs past midnight. A meal break of an hour is taken
  off, or half an hour when the meal was shortened.
- saves the day into the project's list of time logs (`handleSaveLog`). The
  log's id is `date + "_" + email`, so saving again replaces the user's log
  for that day.
- deletes a log by id (`handleDeleteLog`).
- lists the signed-in user's own logs, newest date string first (`myLogs`).
- groups those logs by ISO 8601 week (`getWeekNumber`, `weeklyData`). Each
  group holds its logs and the sum of their hours, and the groups are sorted
  by week key, greatest first.

Modules:

- `Strings` (strings.dfy): decimal digit strings, zero-padded numbers, and
  `StrLess`, the string order that `localeCompare` gives on the digit, hyphen
  and letter strings compared here.
- `Sequences` (sequences.dfy): `filter`, a stable sort by a string key with
  the greatest key first, and sums.
- `Clock` (clock.dfy): "HH:MM" readings and `calculateHours`.
- `Calendar` (calendar.dfy): day numbers as `Date.UTC` counts them, the
  Thursday rule of ISO 8601 weeks, `getWeekNumber`, and "YYYY-MM-DD" strings.
- `TimeLogs` (timelogs.dfy): the log records, save, delete and `myLogs`.
- `Grouping` (grouping.dfy): the grouping loop of `weeklyData` for any key. It
  is a method over a map and a list of keys in insertion order, which is the
  order `Object.entries` gives.
- `WeeklyReport` (weekly.dfy): the week key and `weeklyData` itself.

Conventions:

- A value that may be `null` or `undefined` is an `Option`. This covers the
  signed-in user and `project.timeLogs`.
- `handleSaveLog` returns `None` when it returns without writing, and
  otherwise the list it writes.
- `handleDeleteLog` returns the list it writes.
- Hours are mathematical reals.

## Model

| member | source | states |
|---|---|---|
| Clock.CalculateHours | components/TimesheetWidget.tsx:17-38 | the hours are never negative; they are 0 when the start or the end is empty; the hours in minutes plus the meal deduction stay under one day |
| Clock.ToMinutes | components/TimesheetWidget.tsx:20-24 | an "HH:MM" reading becomes a minute of the day, below 1440 |
| Clock.FromMinutesRoundTrip | components/TimesheetWidget.tsx:20-24 | every minute of the day, written as "HH:MM" and read back, is itself |
| Clock.ToMinutesRoundTrip | components/TimesheetWidget.tsx:20-24 | every "HH:MM" reading is the reading of its own minute, so two readings name the same minute only if they are equal |
| Clock.ShiftSpanIsForwardDistance | components/TimesheetWidget.tsx:27-31 | after the overnight wrap the span lies in [0, 1439], equals (end - start) mod 1440, and moving the start forward by it lands on the end |
| Clock.CalculateHoursWorked | components/TimesheetWidget.tsx:17-38 | for two readings, the hours are ((end - start) mod 1440 - deduction) / 60, or 0 when that is not positive |
| Clock.MealTimeIgnored | components/TimesheetWidget.tsx:17-38 | the meal time never affects the hours; only the short-meal flag does |
| Clock.ShortMealAddsHalfHour | components/TimesheetWidget.tsx:34-35 | on a shift of an hour or more, a shortened meal gives exactly 0.5 hours more than a full one |
| Clock.Examples | components/TimesheetWidget.tsx:17-38 | 09:00-18:00 gives 8 hours (8.5 with a short meal); 22:00-06:00 gives 7; an empty start or end gives 0 |
| TimeLogs.LogIdInjective | components/TimesheetWidget.tsx:44 | for "YYYY-MM-DD" dates, two ids are equal if and only if the dates and the emails are |
| TimeLogs.DeleteLog | components/TimesheetWidget.tsx:71-75 | a log is kept if and only if it is stored and has another id; every copy of a kept log is kept; no log with the id remains |
| TimeLogs.DeleteKeepsOrder | components/TimesheetWidget.tsx:73 | deleting from a concatenation deletes from each part, so the kept logs stay in their order |
| TimeLogs.DeleteAbsent | components/TimesheetWidget.tsx:73 | deleting an id no log has leaves the list unchanged |
| TimeLogs.DeleteIdempotent | components/TimesheetWidget.tsx:73 | deleting twice is deleting once |
| TimeLogs.DeleteKeepsUniqueIds | components/TimesheetWidget.tsx:73 | a list with unique ids still has unique ids after a delete |
| TimeLogs.SaveLog | components/TimesheetWidget.tsx:40-61 | nothing is written if and only if the call time or the end time is empty or nobody is signed in; otherwise the list is the other logs in their order, then the new log, which is the only one with its id; the new log carries the user's fields, the form's fields, and the hours `calculateHours` gives |
| TimeLogs.DeleteAfterSave | components/TimesheetWidget.tsx:60-61 | deleting the saved day's id after a save gives the same list as deleting it before |
| TimeLogs.SaveIdempotent | components/TimesheetWidget.tsx:40-61 | saving the same form twice writes what saving it once writes |
| TimeLogs.SaveKeepsInvariants | components/TimesheetWidget.tsx:44-61 | when every stored log has a unique id equal to date_email of its own fields, the same holds after a save |
| TimeLogs.SaveLeavesOneLogPerDay | components/TimesheetWidget.tsx:44-61 | when every stored log is filed under its own id, after a save the user's log for that date is the new one and no other |
| TimeLogs.MyLogs | components/TimesheetWidget.tsx:86-91 | a log is listed if and only if someone is signed in, the log is stored and it is that user's; each such log is listed as often as it is stored; the date strings never increase down the list |
| TimeLogs.MyLogsNewestFirst | components/TimesheetWidget.tsx:90 | for "YYYY-MM-DD" dates, a log listed earlier is never dated before a log listed later |
| Calendar.DaysFromCivil | components/TimesheetWidget.tsx:79 | the day number of a date lies within its year's days |
| Calendar.DaysFromCivilOrder | components/TimesheetWidget.tsx:79 | one date comes before another in calendar order if and only if its day number is smaller |
| Calendar.EpochIsDayZero | components/TimesheetWidget.tsx:79-80 | 1970-01-01 is day 0, the day `Date.UTC` counts from, and `getUTCDay` gives 4 (Thursday) for it |
| Calendar.NextDateIsNextDay | components/TimesheetWidget.tsx:79 | the day after any date, across month and year ends, has the next day number |
| Calendar.WeekThursday | components/TimesheetWidget.tsx:80 | the day moved to the Thursday of its Monday-to-Sunday week is within three days of it and is a Thursday |
| Calendar.GetWeekNumber | components/TimesheetWidget.tsx:78-84 | the week-year is the year holding the date's Thursday and lies within a year of the date's year; the week is one plus the number of whole weeks from January 1 of that year to the Thursday, and lies in 1..53 |
| Calendar.January4IsInWeekOne | components/TimesheetWidget.tsx:78-84 | January 4 of every year is in week 1 of that year |
| Calendar.SameWeekIffSameThursday | components/TimesheetWidget.tsx:78-84 | two dates get the same week if and only if they share a Thursday |
| Calendar.NextWeek | components/TimesheetWidget.tsx:78-84 | seven days later, the week goes up by one, or the year turns over to week 1 after week 52 or 53 |
| Calendar.WeekOrderIsChronological | components/TimesheetWidget.tsx:78-84 | a date in an earlier week, by week-year then week, is an earlier date |
| Calendar.WeekYearInRange | components/TimesheetWidget.tsx:83 | dates of years 1..9999 have week-years in 0..9999 |
| Calendar.ParseDate | components/TimesheetWidget.tsx:97 | a "YYYY-MM-DD" string names a valid date of years 1..9999 |
| Calendar.DateStringOrder | components/TimesheetWidget.tsx:90 | for "YYYY-MM-DD" strings, string order is calendar order, in both directions |
| Sequences.Filter | components/TimesheetWidget.tsx:60 | an element is kept if and only if it is in the input and passes; the result is no longer than the input |
| Sequences.FilterAppend | components/TimesheetWidget.tsx:60 | filtering a concatenation filters each part, so kept elements keep their relative order |
| Sequences.FilterMultiset | components/TimesheetWidget.tsx:89 | a kept element is kept as often as it occurs, and an element that fails is not kept at all |
| Sequences.SortDescBy | components/TimesheetWidget.tsx:90 | the result is a permutation of the input with no key less than the key after it |
| Sequences.SortDescByDistinct | components/TimesheetWidget.tsx:107 | with distinct keys, the sorted keys strictly decrease |
| Sequences.SumSortDescBy | components/TimesheetWidget.tsx:107 | sorting does not change a sum over the elements |
| Sequences.SortDescByStable | components/TimesheetWidget.tsx:90 | the sort is stable: the elements with any one key come out in the order they went in |
| Grouping.InGroup | components/TimesheetWidget.tsx:101-102 | a log is in a key's group if and only if it is among the logs met and has that key |
| Grouping.SumEntriesUpdate | components/TimesheetWidget.tsx:103 | raising one group's total raises the sum over all groups by the same amount |
| Grouping.KeysOfMembers | components/TimesheetWidget.tsx:101-102 | every log's key is set, and every key that is set has at least one log |
| Grouping.GroupedStep | components/TimesheetWidget.tsx:101-103 | one more log keeps the loop invariant: the keys are the keys of the logs met, each listed once in the order first met; each group holds exactly its key's logs in order, with their sum; the group totals add up to the hours of all logs met |
| Grouping.GroupBy | components/TimesheetWidget.tsx:94-107 | the keys strictly decrease; each group holds exactly its key's logs, in order, at least one, with the sum of their hours; every log has a group; the group totals add up to all the hours; there are no more groups than logs |
| Grouping.GroupedReport | components/TimesheetWidget.tsx:107 | the entries of a finished grouping, sorted with the greatest key first, satisfy everything `GroupBy` promises |
| Grouping.ExactlyOneGroup | components/TimesheetWidget.tsx:96-104 | every log lands in one group and in no other |
| WeeklyReport.WeekKey | components/TimesheetWidget.tsx:99 | the key is 8 characters: a 4-digit year, "-W", and a 2-digit week, which read back as the year and the week |
| WeeklyReport.WeekKeyAsWritten | components/TimesheetWidget.tsx:99 | the key as the widget writes it: the year in its shortest decimal form, "-W", then the week in its shortest decimal form, each reading back as the number |
| WeeklyReport.WeekKeyAsWrittenInjective | components/TimesheetWidget.tsx:99 | two keys as written are equal if and only if the weeks are |
| WeeklyReport.KeyOf | components/TimesheetWidget.tsx:97-99 | the padded key of a log starts with a digit if and only if its date is a "YYYY-MM-DD" string; any other date gets "NaN-WNaN", as an invalid date prints |
| WeeklyReport.KeyOfAsWritten | components/TimesheetWidget.tsx:97-99 | the key as the widget writes it starts with a digit if and only if the date is a "YYYY-MM-DD" string; any other date gets "NaN-WNaN" |
| WeeklyReport.SameGroupsAsWritten | components/TimesheetWidget.tsx:97-103 | two logs share a key as written if and only if they share a padded key, so both keys give the same groups |
| Strings.PadDigitsOrder | components/TimesheetWidget.tsx:99 | zero-padded numbers of one width compare as strings exactly as they compare as numbers |
| WeeklyReport.WeekKeyOrder | components/TimesheetWidget.tsx:107 | one padded key is less than another if and only if its week comes first; two keys are equal if and only if the weeks are |
| WeeklyReport.SameKeyIffSameWeek | components/TimesheetWidget.tsx:97-99 | two dated logs share a key if and only if their dates share a Monday-to-Sunday week |
| WeeklyReport.KeyOrderIsDateOrder | components/TimesheetWidget.tsx:97-107 | a dated log under a smaller key is dated before one under a greater key |
| WeeklyReport.WeeksNineAndTen | components/TimesheetWidget.tsx:78-84 | 2024-02-26 is in week 9 of 2024, and 2024-03-04, seven days later, is in week 10 |
| WeeklyReport.KeysOfWeeksNineAndTen | components/TimesheetWidget.tsx:99 | the key as written is "2024-W9" for week 9 of 2024 and "2024-W10" for week 10 |
| WeeklyReport.WeekTenSortsBelowWeekNine | components/TimesheetWidget.tsx:107 | "2024-W10" sorts below "2024-W9" |
| WeeklyReport.AsWrittenKeysMisorder | components/TimesheetWidget.tsx:99-107 | with the keys as written, the later week 10 sorts below week 9; with padded keys it sorts above |
| WeeklyReport.WeeklyDataAsWritten | components/TimesheetWidget.tsx:93-108 | the report as the widget computes it: `GroupBy`'s promises under the unpadded key of line 99, so its groups are listed by that key, greatest first |
| WeeklyReport.WeeklyData | components/TimesheetWidget.tsx:93-108 | the corrected report: `GroupBy`'s promises under the padded week key, so the groups run newest week first (`GroupsNewestFirst`) |
| WeeklyReport.WeeklyDataForUser | components/TimesheetWidget.tsx:86-108 | the corrected report over `myLogs`: every log of the signed-in user is in exactly the group of its week, the keys strictly decrease, each group holds its week's logs in order with their sum; nobody signed in gives no groups; every log shown is a stored log of the signed-in user, under its own week's key; the group totals add up to the hours of the user's logs |
| WeeklyReport.GroupsNewestFirst | components/TimesheetWidget.tsx:107 | with padded keys, every dated log of a group is dated after every dated log of the groups below it |

## Left out

- Rendering, the form's input handlers and the icons are left out. So is the
  sort at line 233, which sorts each week's logs by date while rendering.
- The writes through `updateProjectDetails` are left out. That covers the
  network and the project store behind it. The model returns the list that
  would be written.
- The default date of the form reads the clock, so it is left out. The date
  is a parameter of the form.
- `window.confirm` in `handleDeleteLog` is left out. `TimeLogs.DeleteLog`
  models the confirmed path. Declining writes nothing.
- Time zones are left out. `new Date("YYYY-MM-DD")` is midnight UTC, and
  `getWeekNumber` reads it back with the local getters. The model takes the
  date the string names, which is what those getters give at or east of UTC.
  West of UTC they give the previous day.
- Calendar.GetWeekNumber: `Date.UTC` reads years 0 to 99 as 1900 to 1999.
  The model computes the week of the year itself for those years.
- Clock.CalculateHours: needs both readings to be "HH:MM" whenever both are
  non-empty, which is what a time input gives. The NaN the source computes
  for other text is not modelled.
- WeeklyReport.KeyOf: any date text other than "YYYY-MM-DD" gets the key
  "NaN-WNaN", as an invalid date does. JavaScript's date parser also accepts
  some other forms.
- Hours are reals, not binary floating point. The rounding of `/ 60` and of
  the running `+=` is not modelled, and neither is the `toFixed(2)` display.
- `localeCompare` is modelled as code-unit order. On the digit, hyphen and
  letter strings compared here, locale collation agrees with that order.
- The authentication screen, project selection, image utilities and Firebase
  set-up are not part of this model.

## Findings

| source | as written | input that shows it | evidently intended | confidence | as-written member | corrected member |
|---|---|---|---|---|---|---|
| components/TimesheetWidget.tsx:99 | the week key `${year}-W${week}` writes the week without zero padding, and line 107 sorts the keys as strings, greatest first | logs dated 2024-02-26 (week 9) and 2024-03-04 (week 10) get the keys "2024-W9" and "2024-W10"; "2024-W10" sorts below "2024-W9", so the earlier week is listed first | weeks listed newest first, as the comment at line 106 says; ISO 8601 writes week dates as "2024-W09", which sorts as the weeks do | high, not executed | WeeklyReport.AsWrittenKeysMisorder | WeeklyReport.WeekKeyOrder |

The model keys the weekly groups with the padded key `WeeklyReport.WeekKey`.
`WeeklyReport.WeekKeyAsWritten` is the key as the widget writes it, and
`WeeklyReport.WeeklyDataAsWritten` is the report the widget builds with it.
`WeeklyReport.SameGroupsAsWritten` shows the two reports group the logs alike,
so only the order of the groups differs.
