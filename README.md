# Escalated case tracker — a verified model of its case logic

The tracker is a single-page browser app. It keeps a list of escalated cases in the browser's
storage. Each case has an organisation number, a department, the date it was escalated, a
description, a due date and a status (`open` or `returned`). The app:

- computes the due date as 7 business days (Monday to Friday) after escalation;
- colours each open case green, yellow or red by its age in business days;
- lists the cases under a status filter, sorted by due date;
- marks cases returned or reopens them, deletes them, and creates new ones from a form.

This project models that logic in Dafny, with the DOM and the storage plumbing taken out, and
proves what the code promises about it. The modules follow the parts of `app.js`:

- `Text` (text.dfy): `String(n)`, `padStart(2, "0")` and `trim()`, with the facts about them
  that the date text and the form depend on.
- `CivilDate` (civil.dfy): a `Date` is either invalid (time value NaN) or a day number, with
  day 0 being 1970-01-01. It includes:
  - the proleptic Gregorian calendar behind `getFullYear`/`getMonth`/`getDate`;
  - `new Date("YYYY-MM-DD")`, as `ParseDate`;
  - `formatDate`, with round trips in both directions. The text form is the calendar date
    in extended format of ISO 8601:2004, section 4.1.2.2.
- `Calendar` (calendar.dfy): `getDay`, and `addBusinessDays` and `businessDaysBetween` as
  methods with `while` loops. Each is proved against a function: the n-th business day, and
  the business age.
- `Escalation` (escalation.dfy): `computeStatusInfo`, with its thresholds 5 and 7, the
  three buckets and the badge label.
- `Cases` (cases.dfy): the case record and the two whole-list edits, the `map` of
  `updateCaseStatus` and the `filter` of `deleteCase`.
- `Projection` (projection.dfy): the non-DOM part of `renderCases`:
  - the status filter;
  - the stable sort by due date, as an insertion sort proved sorted, a permutation and
    stable;
  - the rows with their colour, days text, status pill and toggle.
- `Store` (store.dfy): `loadCases`/`saveCases` over an abstract storage value, the
  validation and record building of `handleFormSubmit`, and a `CaseStore` class. Every
  operation of the class reads the whole saved list, computes the new one and saves it back.

Parameters stand in for what the code reads from its environment:

- the current day (`new Date()`) is `today`;
- the id (`Date.now().toString()`) is `id`;
- the form's input values are a `Form`;
- the value read from storage and parsed as JSON is a `Blob`.

## Model

| member | source | states |
|---|---|---|
| Text.NatText | app.js:57-58 | `String(n)` of a non-negative number is a non-empty digit string without a leading zero unless n is 0. |
| Text.NatTextRoundTrip | app.js:57-58 | The numeral `String(n)` reads back as n. |
| Text.NatTextOfDigits | app.js:56-59 | A digit string without a leading zero is the numeral of its own value. |
| Text.IntText | app.js:56-59 | `${year}` of a non-negative year is its numeral. |
| Text.PadStart2 | app.js:57-58 | `padStart(2, "0")` gives at least two characters: the input at the end, zeros before it. |
| Text.IsTrimmable | app.js:205-208 | The characters `trim()` removes: the ECMAScript WhiteSpace and LineTerminator characters (tab to carriage return, space, no-break space, the Unicode space separators, line and paragraph separators, and the byte order mark). |
| Text.TwoDigitField | app.js:57-58 | A month or day below 100, padded, is exactly two digits reading back as its value. |
| Text.TwoDigitFieldOfDigits | app.js:57-58 | Two digits worth 1..99 are what padding prints for their value. |
| Text.DigitsValueLowerBound | app.js:57-58 | A digit string without a leading zero is worth at least 1. |
| Text.Trim | app.js:205-208 | `trim()` cuts only whitespace off both ends. The result has no whitespace at either end and is empty exactly when the input is all whitespace. |
| Text.LeadingSpace | app.js:205-208 | The count of leading whitespace characters: all of them whitespace, and the next one not. |
| Text.TrailingSpace | app.js:205-208 | The count of trailing whitespace characters: all of them whitespace, and the one before not. |
| Text.TrimShape | app.js:205-208 | Cutting the leading and trailing whitespace splits the text into blank ends and a middle that starts and ends with a non-whitespace character, if any. |
| Text.TrimIdempotent | app.js:205-208 | Trimming twice is trimming once. |
| CivilDate.DaysBeforeMonth | app.js:56-58 | Days before month 13 are the whole year. |
| CivilDate.DaysBeforeMonthStep | app.js:56-58 | Month m + 1 starts `DaysInMonth(y, m)` days after month m. |
| CivilDate.FloorStep | app.js:56 | Year y adds one multiple of 4, 100 or 400 to the count below it exactly when it is one. |
| CivilDate.YearStartStep | app.js:56 | January 1 of consecutive years lies 365 or 366 days apart, by the Gregorian leap rule. |
| CivilDate.DivisorChain | app.js:56 | A year divisible by 400 is divisible by 100, and one divisible by 100 is divisible by 4, as the leap rule takes for granted. |
| CivilDate.YearStartMonotone | app.js:56 | Years start in increasing order. |
| CivilDate.YearStartAfterEpoch | app.js:56 | The k-th year after 1970 starts within 366 k days. |
| CivilDate.YearStartBeforeEpoch | app.js:56 | The k-th year before 1970 starts at least 365 k days earlier. |
| CivilDate.YearBelow | app.js:56 | Every day lies on or after the start of some year. |
| CivilDate.YearUpFrom | app.js:56 | Searching up from a year that starts no later than day z finds the year containing z. |
| CivilDate.YearOf | app.js:56 | `getFullYear`: the year containing day z. |
| CivilDate.YearOfUnique | app.js:56 | Only one year contains a given day. |
| CivilDate.MonthOf | app.js:57 | `getMonth() + 1`: the month of the year containing day doy. |
| CivilDate.MonthOfUnique | app.js:57 | Only one month contains a given day of the year. |
| CivilDate.DayOfMonthInRange | app.js:58 | The day of the month the getters report lies between 1 and the length of its month. |
| CivilDate.CivilOf | app.js:56-58 | The year, month and day the getters report form a real date that names day z again. |
| CivilDate.CivilOfDayNumber | app.js:56-58 | Every real date is the calendar date of its own day number. |
| CivilDate.DayNumberInjective | app.js:56-58 | Different real dates have different day numbers. |
| CivilDate.ParseDate | app.js:19 | `new Date(s)` is a day only for text of the `YYYY-MM-DD` shape. |
| CivilDate.FormatDate | app.js:54-60 | `formatDate` is `""` exactly for an invalid date. |
| CivilDate.FormatDateFields | app.js:54-60 | For a four-digit year, `formatDate` prints `YYYY-MM-DD`. Its fields read back as the year, the month (1..12) and the day. |
| CivilDate.FormatDateAnyYear | app.js:54-60 | For every year, `formatDate` prints `${year}`, a dash, the month as two digits, a dash and the day as two digits; both fields read back as the month and the day. |
| CivilDate.CivilTextAnyYear | app.js:56-59 | The text of any real date has that layout. |
| CivilDate.CivilText | app.js:59 | `${year}-${month}-${day}` from the year's numeral and the padded month and day; never empty. |
| CivilDate.DashedLayout | app.js:59 | In `y-m-d` with two-digit fields, the year text, the dashes and both fields sit at fixed offsets after the year. |
| CivilDate.CivilTextFields | app.js:56-59 | A real date with a four-digit year prints as `YYYY-MM-DD`, no leading zero, with fields reading back as year, month and day. |
| CivilDate.IsoTextOfFields | app.js:56-59 | The fields of a `YYYY-MM-DD` text, printed again, give that text. |
| CivilDate.ParseFormatRoundTrip | app.js:54-60 | Parsing what `formatDate` printed gives the same day. |
| CivilDate.FormatParseRoundTrip | app.js:54-60 | Printing a parsed `YYYY-MM-DD` date gives back the text. |
| Calendar.Weekday | app.js:23 | `getDay` is 0..6, Sunday 0, Saturday 6. Day 0 (1970-01-01) is a Thursday. |
| Calendar.WeekdaySucc | app.js:22-23 | The next calendar day has the next weekday. |
| Calendar.WeekendLastsTwoDays | app.js:24 | No three calendar days in a row are all weekend days. |
| Calendar.CountsAsBusinessDay | app.js:24 | The test `day !== 0 && day !== 6` of both loops (also app.js:46): true on Monday to Friday, false at the weekend, and true for an invalid date, whose `getDay()` is NaN. |
| Calendar.BusinessDaysIn | app.js:44-50 | The number of weekdays among the days lo..hi-1, never more than the number of days. Both loops are proved against it. |
| Calendar.NextDay | app.js:22 | `setDate(getDate() + 1)` moves a day on by one, and an invalid date stays invalid. |
| Calendar.BusinessDaysInSplit | app.js:44-50 | Counting weekdays over a range is counting over its two halves. |
| Calendar.BusinessDaysInMonotone | app.js:44-50 | A longer range holds at least as many weekdays. |
| Calendar.NoBusinessDaysIn | app.js:44-50 | A range of weekend days holds no weekday. |
| Calendar.NextBusinessDay | app.js:21-27 | The first weekday after z is at most 3 days later, and nothing in between is a weekday. |
| Calendar.CountToNextBusinessDay | app.js:21-27 | Moving on to the next weekday adds exactly one to the count. |
| Calendar.NthBusinessDayAfter | app.js:18-29 | For n > 0, the n-th weekday after z is after z and a weekday. |
| Calendar.NthBusinessDayCount | app.js:18-29 | Exactly n weekdays lie in (z, n-th weekday after z]. |
| Calendar.NthBusinessDayUnique | app.js:18-29 | A weekday after z with exactly n weekdays in (z, it] is the n-th one. |
| Calendar.LaterBusinessDayCountsMore | app.js:44-50 | Extending a range to a later weekday adds at least one weekday to the count. |
| Calendar.BusinessDaysLater | app.js:18-29 | `addBusinessDays` as a value: a day exactly when the start is a day. |
| Calendar.AddBusinessDays | app.js:18-29 | The loop ends on the n-th weekday after the start. n = 0 gives the start. For n > 0 the result is later, a weekday, with exactly n weekdays in (start, result]. An invalid start stays invalid. |
| Calendar.AdvanceBusinessDays | app.js:20-28 | The loop from a parsed start ends on the n-th weekday after it, with the same guarantees. |
| Calendar.AddedDaysReachNth | app.js:21-28 | Where the loop stops is that n-th weekday. |
| Calendar.BusinessAge | app.js:39-51 | The age is 0 for an invalid date or an end before the start. |
| Calendar.BusinessDaysBetween | app.js:31-52 | The loop counts weekdays in [start, end], less one, clamped at 0 (`Math.max(count - 1, 0)`). The result is 0 for invalid dates and for an end before the start. |
| Calendar.BusinessAgeSameDay | app.js:42-51 | `businessDaysBetween(d, d)` is 0, on a weekday or a weekend day alike. |
| Calendar.BusinessAgeFromBusinessDay | app.js:42-51 | From a weekday, the age is the number of weekdays after the start, up to and including the end. |
| Calendar.AgeBeyondNthBusinessDay | app.js:42-51 | From a weekday, any weekday after the n-th one is more than n business days later. |
| Calendar.BusinessAgeMonotone | app.js:42-51 | Ages never decrease as the end date moves on. |
| Calendar.BusinessAgeBound | app.js:42-51 | A case is never more business days old than calendar days old. |
| Calendar.BusinessAgeAtNthBusinessDay | app.js:18-51 | On the n-th weekday after escalation a case is n days old, or n - 1 when escalated at a weekend. |
| Calendar.DueDateExample | app.js:18-29 | 2024-01-01 (a Monday) plus 7 business days is 2024-01-10. |
| Calendar.SeventhBusinessDayExample | app.js:18-29 | The weekend of 6 and 7 January 2024 is skipped. |
| Calendar.DueDateTextExample | app.js:54-60 | `formatDate` prints that due day as "2024-01-10". |
| Calendar.ParseJanuary2024 | app.js:19 | A `2024-01-DD` text parses to 2024-01-01's day number plus DD - 1. |
| Calendar.ParseFirstExample | app.js:19 | "2024-01-01" parses to day 19723. |
| Calendar.ParseTenthExample | app.js:19 | "2024-01-10" parses to day 19732. |
| Escalation.DayCountTextReadsBack | app.js:136-138 | The days text starts with a numeral reading back as the age. The unit is singular exactly when the age is 1. |
| Escalation.DayCountText | app.js:66 | `${days} business day${days === 1 ? "" : "s"}`, also printed for returned rows (app.js:136-138). Its partner is DayCountTextReadsBack. |
| Escalation.BucketOf | app.js:68-76 | Yellow from 5 to 7 business days inclusive, red above 7, green otherwise; Classify states the three ranges. |
| Escalation.Classify | app.js:64-76 | Green/"OK" for 0..4, yellow/"warning" for 5..7, red/"overdue" from 8. The label is the days text, then the bucket word in parentheses. |
| Escalation.LabelDeterminesBucket | app.js:66-75 | The three labels differ, so the label alone tells the bucket. |
| Escalation.ComputeStatusInfo | app.js:62-79 | The default-then-reassign code gives the classification of the business age on day `today`. An invalid date is green. |
| Escalation.SeverityGrowsWithTime | app.js:62-79 | A case never becomes less severe as the days pass. |
| Escalation.DueDateIsLastWarningDay | app.js:68 | A case escalated on a weekday is still yellow on its due date. |
| Escalation.OverdueAfterDueDate | app.js:72 | A case escalated on a weekday is red on every weekday after its due date. |
| Escalation.WeekendEscalationWarnsLonger | app.js:64-76 | A case escalated at a weekend is 6 days old on its due date. It is yellow one weekday later and red only the weekday after that. |
| Cases.Ids | app.js:184-195 | The ids of the list, one per case, in order. |
| Cases.WithStatus | app.js:184-186 | Same length. A case with the id gets the new status, and every other case is unchanged. |
| Cases.Without | app.js:195 | The result holds exactly the cases whose id differs. |
| Cases.CountId | app.js:195 | No case has the id exactly when the count is 0. |
| Cases.WithStatusUnknownId | app.js:184-186 | An id no case has leaves the list identical. |
| Cases.WithStatusKeepsAllButStatus | app.js:184-186 | The update changes no id, no order and no field but `status`. Matching cases get the new status. |
| Cases.WithStatusKeepsUniqueIds | app.js:184-186 | Unique ids stay unique. |
| Cases.WithStatusIdempotent | app.js:184-186 | Setting a status twice is setting it once. |
| Cases.WithStatusUndo | app.js:184-186 | Mark as returned, then reopen (or the reverse), restores the list. |
| Cases.WithoutConcat | app.js:195 | Deleting from a concatenation deletes from each part, so the kept cases stay in their original order. |
| Cases.WithoutRemovesCount | app.js:195 | Exactly the cases with that id are removed. |
| Cases.WithoutUnknownId | app.js:195 | Deleting an unknown id is a no-op. |
| Cases.WithoutNoMatch | app.js:195 | A filter that matches no case keeps the list identical. |
| Cases.WithoutKeepsUniqueIds | app.js:195 | Deleting keeps ids unique. |
| Cases.AppendFreshKeepsUniqueIds | app.js:216-227 | Appending a case with a new id keeps ids unique. |
| Cases.DeleteUndoesAppend | app.js:195 | Deleting a case just appended under a new id gives back the list before it. |
| Projection.SelectMembers | app.js:88-93 | A case is shown exactly when it is stored and the filter keeps it: "open" keeps the open cases, "returned" the returned ones, anything else everything. |
| Projection.Select | app.js:88-93 | "open" keeps the open cases, "returned" the returned ones, in stored order; any other filter keeps every case. Its partners are SelectMembers, SelectSubMultiset, SelectConcat and SelectAll. |
| Projection.SelectSubMultiset | app.js:88-93 | The filter only drops cases: it never repeats or invents one. |
| Projection.SelectConcat | app.js:88-93 | The filter keeps stored order: filtering a concatenation filters each part in turn. |
| Projection.SelectKeyedOn | app.js:88-93 | Filtering and then taking the cases due on one day gives the same list, in the same order, as taking that day's cases and then filtering. |
| Projection.SelectAll | app.js:88 | A filter other than the two statuses shows the stored list unchanged. |
| Projection.OpenAndReturnedPartition | app.js:89-92 | Every case appears under exactly one of "open" and "returned". |
| Projection.Insert | app.js:95-99 | Inserting into a sorted list keeps it sorted and adds exactly that element. |
| Projection.SortedAppend | app.js:95-99 | Appending an element due no earlier than all others keeps a list sorted. |
| Projection.DueKey | app.js:96-97 | `new Date(c.dueDate)`, the value the sort compares. |
| Projection.KeyLe | app.js:95-99 | The comparator's order: an unparseable due date first, parsed ones by day. |
| Projection.KeyLeTotalOrder | app.js:95-99 | That order is reflexive, total, antisymmetric and transitive, and on parsed dates it is the order of `aDue - bDue`. |
| Projection.SortedLastBound | app.js:95-99 | In a sorted list no case is due after the last, so none after a case due no earlier than it. |
| Projection.SortedSplit | app.js:95-99 | Without its last case a sorted list stays sorted, and no case in it is due after that last one. |
| Projection.SortBy | app.js:95-99 | The sort result is in non-decreasing due-date order and a permutation of its input. |
| Projection.KeyedOnConcat | app.js:95-99 | The cases with a given due date in a concatenation are those of each part. |
| Projection.KeyedOnSnoc | app.js:95-99 | Appending one case adds it to the cases of its due date and to no other. |
| Projection.KeyedOnMovesPast | app.js:95-99 | Moving a case past one with another due date leaves the cases of each due date in the same order. |
| Projection.InsertKeyedOn | app.js:95-99 | Insertion puts an element after every element with the same due date. |
| Projection.SortByStable | app.js:95-99 | The sort is stable: cases due the same day keep their order. |
| Projection.SortByOfSorted | app.js:95-99 | An already sorted list is left as it is. |
| Projection.RowFor | app.js:103-164 | The row shows the case and its parsed due date. Only open rows get a colour, the bucket's, and the badge label. Returned rows show the plain days text. The pill says Open or Returned. The button sets the other status. |
| Projection.DueCellShowsStoredDate | app.js:104-126 | The due column prints a stored `YYYY-MM-DD` due date whose year does not start with 0 exactly as stored (`String(year)` would drop such a zero), and nothing for one that does not parse. |
| Projection.Items | app.js:103 | The cases of the rows, in order. |
| Projection.RowsOf | app.js:103-179 | One row per shown case, in the same order, each built from the case's status info on day `today`. |
| Projection.DueCellText | app.js:104-126 | The due column's text `formatDate(new Date(item.dueDate))`. DueCellShowsStoredDate says what it prints. |
| Projection.RowsOfAt | app.js:103-105 | Row k shows case k with its status info for `today`. |
| Projection.ItemsOfRows | app.js:103 | The rows list the cases they were built from, in that order. |
| Projection.RowsOfSnoc | app.js:103-105 | The rows of one more case are the rows before it plus that case's row. |
| Projection.BuildRows | app.js:103-179 | The `forEach` builds one row per case, top to bottom. |
| Projection.BuildView | app.js:88-139 | The table holds the selected cases, sorted by due date, as a permutation of the selection. Cases due on the same day keep their stored order. Every row's case is stored and kept by the filter. Exactly the open rows are coloured. |
| Projection.ViewOrder | app.js:95-103 | The rows list the selection in due-date order, as a permutation of it. |
| Projection.ViewSelection | app.js:88-103 | Every row shows a stored case the filter keeps. |
| Projection.ViewStable | app.js:88-99 | Cases due on the same day appear in the table in their stored order. |
| Projection.ViewSeverity | app.js:109-139 | Exactly the rows of open cases are coloured. |
| Projection.ShownIsSelected | app.js:88-99 | Every case of the sorted selection is stored and kept by the filter. |
| Store.LoadCases | app.js:3-12 | An array gives its cases. A missing, empty, unparseable or non-array value gives `[]`. |
| Store.MissingRequiredField | app.js:205-212 | The form is rejected exactly when the trimmed org number, the department or the escalation date is empty; the description may be empty. |
| Store.DueDateText | app.js:214-222 | `formatDate(addBusinessDays(dateEscalated, n))`: the printed n-th business day after the parsed date, `""` when the date does not parse. |
| Store.NewCase | app.js:216-224 | No case for a missing field; otherwise the record the form creates. NewCaseFields and NewCaseFieldsTrimmed state its fields. |
| Store.SavedBlob | app.js:14-16 | Loading what `saveCases` stored gives the list back. |
| Store.ReloadIsStable | app.js:3-16 | A load-save round leaves a good value unchanged and replaces a damaged one with `[]`. |
| Store.CreateCase | app.js:205-224 | No case when the trimmed org number, the department or the date is empty. Otherwise the trimmed fields, the date as entered, status open, the given id, and `formatDate(addBusinessDays(date, 7))` as due date. |
| Store.NewCaseFields | app.js:205-224 | A created case is open, with the given id and due date, the department and date as entered, and a non-blank org number with no whitespace at either end. |
| Store.NewCaseFieldsTrimmed | app.js:205-208 | Org number and description are stored trimmed: trimming again changes nothing. |
| Store.DueDayReadsBack | app.js:214-222 | The stored due text parses back to the day `addBusinessDays` computed. |
| Store.NewCaseSortsByDueDay | app.js:214-222 | So the sort orders a created case by that day. |
| Store.NewCaseDueAfterEscalation | app.js:214-222 | For an escalation date that parses and a due day in the years 1000 to 9999, the stored due date is a day strictly after the escalation date. |
| Store.DueDateTextWithoutDate | app.js:214-222 | An unparseable escalation date gives an empty due date, which the sort puts first. |
| Store.NewCaseStartsGreen | app.js:62-79 | A new case is green on the day it is escalated. |
| Store.NewCaseExample | app.js:205-224 | " 123 ", "Sales", "2024-01-01" and an empty description give org number "123" and due date "2024-01-10". |
| Store.DueDateTextOfExample | app.js:214-222 | The due text for 2024-01-01 is "2024-01-10". |
| Store.TrimExample | app.js:205-208 | " 123 " trims to "123". |
| Store.CaseStore.constructor | app.js:3-16 | The store starts from the value in storage. |
| Store.CaseStore.SaveCases | app.js:14-16 | After saving, loading gives the saved list. |
| Store.CaseStore.UpdateCaseStatus | app.js:182-187 | Load, map, save: the saved list is the status update of the loaded one. Unique ids stay unique. |
| Store.CaseStore.DeleteCase | app.js:193-196 | Load, filter, save: the saved list is the loaded one without the id, shorter by that id's count. Unique ids stay unique. |
| Store.CaseStore.SubmitCase | app.js:205-228 | A missing field leaves the storage untouched. Otherwise exactly the new case is appended after all loaded ones, and a new id keeps ids unique. |
| Store.CaseStore.RenderCases | app.js:85-139 | The rows built from the loaded list, without changing the storage. |
| Store.SubmitThenDelete | app.js:193-228 | Deleting the case just submitted under a new id gives back the list before it. |
| Store.SubmittedCaseIsListedOpen | app.js:88-93 | A submitted case is listed under every filter except "returned". |

## Left out

- The DOM is not modelled: table building, CSS class strings, buttons and listeners
  (app.js:101-179), `setActiveFilterButton`, `initFilters`, the re-render after each edit,
  and `form.reset()` with the default date (app.js:230-235). CSS classes are the three
  `Bucket` tags instead of `age-*`/`badge-*` strings.
- `localStorage` and JSON are left out as foreign I/O. `Blob` says only what `loadCases`
  distinguishes: no value (null or ""), unparseable text, a non-array value, or an array.
  Array elements are taken to be well-formed cases.
- The `fetch("/.auth/me")` identity lookup is left out as network I/O that is only displayed.
- `Date.now()` and `new Date()` are wall-clock reads. They are parameters (`id`, `today`).
  Ids need not be fresh; the uniqueness results say what a fresh id buys.
- CivilDate.ParseDate: `new Date(s)` accepts many formats; the model only accepts `YYYY-MM-DD` naming
  a real date and calls everything else invalid. The time of day and time zones are dropped:
  `new Date("YYYY-MM-DD")` is UTC midnight while `end` is local midnight (app.js:32-37).
  The model treats both as the same calendar day, so it matches the code only where local
  time is UTC. Elsewhere, with d the escalation day and t today:
  - East of UTC, `current` starts after local midnight of d and `end` is local midnight of t,
    so the loop counts the weekdays in [d, t - 1] (app.js:40-50). The code's age is one lower
    than the model's exactly when t is a weekday and some weekday lies in [d, t - 1];
    otherwise both give the same age.
  - West of UTC, `start` and `current` fall on the evening of d - 1 (app.js:32, 43), so the
    loop counts the weekdays in [d - 1, t - 1]. `addBusinessDays` counts from d - 1 as well
    (app.js:19-23), and `formatDate` prints local fields (app.js:56-58). The due column
    `formatDate(new Date(item.dueDate))` (app.js:104, 126) then prints the day before the
    stored text, unlike `Projection.DueCellShowsStoredDate`, which holds at UTC only.
- Projection.KeyLe: the comparator `aDue - bDue` is NaN for an unparseable due date. That makes
  JavaScript's order implementation-defined. The model puts such cases before all others
  instead.
- Projection.SortBy: `filtered.sort` sorts in place, and under a filter other than "open"
  or "returned" the array it sorts is the loaded list itself. The model sorts a value. That
  array is never saved back, so the saved list is the same either way.
- Statuses other than "open" and "returned" cannot be represented (`Status` has two values);
  the code only ever writes these two.
- Calendar.Weekday: day numbers are unbounded integers. JavaScript's time-value range
  (±8.64e15 ms) is not modelled.
- CivilDate.ParseFormatRoundTrip: stated for four-digit years only, because `formatDate`
  prints other years without the `YYYY` shape.
- Store.DueDayReadsBack: four-digit years only, for the same reason.
- Store.NewCaseSortsByDueDay: due days in the years 1000 to 9999 only, because it rests on
  `DueDayReadsBack`.
- Store.NewCaseDueAfterEscalation: due days in the years 1000 to 9999 only, for the same
  reason.
- CivilDate.FormatDateFields: the `YYYY-MM-DD` shape is stated for four-digit years only,
  because `String(year)` prints other years with fewer or more digits or with a minus sign.
  For every year, `CivilDate.FormatDateAnyYear` states the year, dash, two-digit month,
  dash, two-digit day layout.
- CivilDate.FormatParseRoundTrip: excludes years written with a leading zero, because
  `String(year)` drops it.
