# Recurrence engine of a to-do server, modelled in Dafny

The server stores to-do tasks whose due dates are 8-digit `YYYYMMDD` strings,
the basic calendar-date form of ISO 8601. A task may carry a repeat rule.
When the task is created or marked done, the rule decides the next due date:

- `d N`: every N days;
- `y`: yearly;
- `w 1,3,...`: on listed weekdays;
- `m 15,-1[ 1,6]`: on days of the month, optionally only in listed months.

This project models that engine and the callers that use it:

- `repeattask/repeat.go`: the four rules and `lastDayOfMonth`;
- `repeattask/update.go`: `UpdateDate`, which advances a task that is marked done;
- `db/types.go`: the `Task` record, the table of rule letters and `NewTask`, which checks a new task and fixes its first due date;
- `lib/helpers.go`: the storage layout, `IsDate` and `ParseTime`, which turn a `DD.MM.YYYY` search string into the storage layout.

Layout of the Dafny modules:

- `results.dfy` (`Results`): `Option` and `Result`. An error carries the exact message the Go code returns.
- `gostrings.dfy` (`GoStrings`): the parts of Go's `strings`, `strconv` and `sort` that the rules call, on byte strings. These are `strings.ReplaceAll` of one byte, `strings.Split` on one byte, `strconv.Atoi` with its 64-bit range, and `sort.Strings` with byte-wise order.
- `gotime.dfy` (`GoTime`): Go's `time` package at day granularity. A time is a day number counted from 0001-01-01 in the proleptic Gregorian calendar. `GoDate` is `time.Date`, which normalises the month and then adds the day linearly, so day 0 is the last day of the previous month. `CivilOf` is its inverse, `AddDate` is `t.AddDate`, `Weekday` counts Sunday as 0, and `Parse` and `Format` work on the layout elements `2006`, `01` and `02` plus literal bytes.
- `helpers.dfy` (`Helpers`): `Layout`, what parsing and formatting in that layout mean, `IsDate` and `ParseTime`.
- `steps.dfy` (`Steps`): stepping a day number forward by a fixed interval until it is not before a bound.
- `repeat.dfy` (`Repeat`): the four rules.
  - Each rule is specified by a function: `NextDaily`, `RepeatY`, `NextWeekly` and `NextMonthly`.
  - `RepeatD`, `RepeatW` and `RepeatM` keep the source's loops as methods. Each is proved equal to its function.
  - The lemmas state what those functions promise.
- `update.dfy` (`Update`): `UpdateDate`.
- `tasks.dfy` (`Tasks`): `Task`, the rule letters and `NewTask`.

Today's date (`time.Now()` truncated to midnight) is a parameter `now` everywhere.

The code's own behaviour, modelled as it is, includes these points:

- A monthly day selector of 0 and a month of 0 are accepted, because the checks are `-2..31` and `0..12` (repeattask/repeat.go:125, 199).
- The monthly rule without a month list behaves as follows:
  - when the anchor is before today, it checks every selector and then returns no dates and no error (repeattask/repeat.go:135-147, 168);
  - when the anchor is not before today, only the first selector is used, because of the return inside the loop (repeattask/repeat.go:149-165).

  So a rule such as `m 15,-1` with an anchor before today gives no dates.
- Weekly dates are 1 to 7 days strictly after the reference day, never the reference day itself (repeattask/repeat.go:81-97).
- The yearly fallback into today's year can still be before today (repeattask/repeat.go:53-54).
- `UpdateDate` with a monthly rule, or with any letter other than `d`, `y` or `w`, returns the empty string and no error (repeattask/update.go:31).
- Among the modelled functions only `NewTask` rejects an unknown rule letter ("unknown rule", db/types.go:37-39). `UpdateDate` returns "" and no error for it, and the rule functions themselves ignore the letter.
- Only the space byte is removed from daily and weekly rules. Monthly rules are cut at spaces and nothing is removed from them (repeattask/repeat.go:19, 66, 112).

## Model

| member | source | states |
|---|---|---|
| Helpers.Layout | lib/helpers.go:10 | The storage layout "20060102"; Helpers.LayoutChunks states how it reads |
| Helpers.LayoutChunks | lib/helpers.go:10 | The storage layout reads as a four-digit year, a two-digit month and a two-digit day, with nothing between them |
| Helpers.ParseLayout | repeattask/repeat.go:14 | Parsing in the storage layout succeeds exactly on eight digits YYYYMMDD that name a real calendar day, and yields that day |
| Helpers.FormatLayout | repeattask/repeat.go:42 | A day of the years 0..9999 formats as eight digits whose fields are its year, month and day |
| Helpers.ParseFormat | lib/helpers.go:10 | Parsing the formatted text of a day of the years 0..9999 gives the day back |
| Helpers.FormatParse | lib/helpers.go:10 | Formatting a parsed day gives back exactly the text that was parsed |
| Helpers.ParsedYear | lib/helpers.go:10 | A parsed day lies in the years 0..9999 |
| Helpers.FormatOrder | repeattask/repeat.go:101 | For days of the years 0..9999, byte-wise order of their YYYYMMDD texts is chronological order, in both directions |
| Helpers.SearchLayoutChunks | lib/helpers.go:36 | The search layout reads as a two-digit day, a dot, a two-digit month, a dot and a four-digit year |
| Helpers.ParseSearchLayout | lib/helpers.go:36 | Parsing DD.MM.YYYY succeeds exactly on two digits, a dot, two digits, a dot and four digits naming a real day, and yields that day |
| Helpers.IsDate | lib/helpers.go:35-38 | True exactly on a well-formed DD.MM.YYYY text naming a real day |
| Helpers.ParseTime | lib/helpers.go:40-47 | Succeeds exactly when IsDate holds. Otherwise the error is "invalid date". On success the result is the same day as the fields reordered YYYY, MM, DD, which is a valid storage-layout date |
| Helpers.ParseTimeRewrites | lib/helpers.go:41-46 | Formatting the parsed search date in the storage layout is the same as reordering its digit fields |
| GoStrings.RemoveAll | repeattask/repeat.go:19 | Removing spaces leaves no space, keeps every other byte with its multiplicity, and leaves a text without spaces unchanged |
| GoStrings.RemoveAllAppend | repeattask/repeat.go:19 | Removal distributes over concatenation, so the remaining bytes keep their order; with the one-byte cases this fixes the result |
| GoStrings.Split | repeattask/repeat.go:67 | Splitting yields one more piece than there are separators, and no piece holds the separator |
| GoStrings.SplitJoin | repeattask/repeat.go:67 | Joining the pieces of a split with the separator gives back the original text |
| GoStrings.Atoi | repeattask/repeat.go:21 | Accepts exactly an optional sign followed by one or more decimal digits whose signed value fits 64 bits, and yields that value |
| GoStrings.AtoiRejectsNonDigit | repeattask/repeat.go:21 | A byte other than a digit anywhere after the first position makes the text fail to convert |
| GoStrings.AtoiRejectsLead | repeattask/repeat.go:21 | The empty text, a bare '+' or '-', and a text starting with a byte other than a digit or a sign fail to convert |
| GoStrings.AtoiPlus | repeattask/repeat.go:21 | A '+' followed by the decimal spelling of a 64-bit integer n converts to n |
| GoStrings.AtoiLeadingZero | repeattask/repeat.go:21 | A leading '0' before digits does not change what converts |
| GoStrings.AtoiSigned | repeattask/repeat.go:21 | Every 64-bit integer's decimal spelling, with a leading '-' when negative, is read back as that integer |
| GoStrings.SortStrings | repeattask/repeat.go:101 | Sorting returns a byte-wise ascending permutation of its input |
| GoStrings.InsertSorted | repeattask/repeat.go:101 | Inserting into a sorted list keeps it sorted |
| GoTime.GoDate | repeattask/repeat.go:137 | time.Date with month and day normalised; GoTime.GoDateOfValid, GoTime.GoDateDayZero and GoTime.GoDateOverflow state where it lands |
| GoTime.CivilOf | repeattask/repeat.go:226 | The year, month and day of a day number: a valid calendar date that builds back to it, and GoTime.CivilOfDaysFromCivil gives the other direction |
| GoTime.AddDate | repeattask/repeat.go:34 | t.AddDate; GoTime.AddDateDays and Repeat.AddYears state its effect |
| GoTime.Weekday | repeattask/repeat.go:82 | The Go weekday, Sunday 0, in 0..6; Repeat.NextWeekday states the day it picks has the wanted weekday |
| GoTime.Parse | repeattask/repeat.go:14 | time.Parse; Helpers.ParseLayout and Helpers.ParseSearchLayout state what it accepts and yields |
| GoTime.Format | repeattask/repeat.go:42 | t.Format; Helpers.FormatLayout, Helpers.FormatParse and Helpers.FormatOrder state what it writes |
| GoTime.AppendInt | repeattask/repeat.go:42 | Go's appendInt; GoTime.AppendIntDigits states that a number below 10^width is written as exactly width digits with that value |
| GoTime.CivilOfDaysFromCivil | repeattask/repeat.go:226 | Splitting a day number into year, month and day inverts building it from a valid calendar date |
| GoTime.DateOrderIsCalendarOrder | repeattask/repeat.go:36 | A day is before another exactly when its calendar date is earlier |
| GoTime.AddDateDays | repeattask/repeat.go:34 | Adding N days moves the day number by N across month and year ends |
| GoTime.GoDateDayZero | repeattask/repeat.go:129-133 | Day 0 or -1 of the following month is the last or second-to-last day of a month |
| GoTime.GoDateOverflow | repeattask/repeat.go:155-156 | A day number past the end of a month continues into the next month |
| Steps.Advance | repeattask/repeat.go:36-40 | Stepping ends not before the start nor before the bound, and either no step was taken or the last step started before the bound |
| Steps.AdvanceMultiple | repeattask/repeat.go:37-39 | Stepping moves the date by a whole number of intervals |
| Steps.AdvanceLeast | repeattask/repeat.go:37-39 | Stepping stops at the first whole step that is not before the bound |
| Repeat.LastDayOfMonth | repeattask/repeat.go:225-229 | The last day of a date's month is that month's length, 28 to 31, leap years counted |
| Repeat.MonthEnd | repeattask/repeat.go:227-228 | One month on and one day back from the first of a month is the last day of that month |
| Repeat.DailyInterval | repeattask/repeat.go:19-28 | The interval read after the letter lies in 1..400, and its errors are only "bad day value" and "invalid day change"; Repeat.DailyIntervalText says which text gives which |
| Repeat.DailyIntervalText | repeattask/repeat.go:19-28 | After spaces are removed, the text after the letter gives "bad day value" exactly when it is not a 64-bit integer text, and otherwise is accepted exactly when its integer lies in 1..400, as that interval |
| Repeat.DailyIntervalSigned | repeattask/repeat.go:19-28 | "d" followed by a spelled 64-bit integer is accepted exactly for 1..400 with that interval; any other integer gives "invalid day change" |
| Repeat.DailyDueBounds | repeattask/repeat.go:30-42 | The daily due date is not before today and is a whole number of intervals after the anchor. It is strictly after the anchor unless anchor is today and the interval is 1. Either it is the first step or the previous step was before today |
| Repeat.DailyDueLeast | repeattask/repeat.go:34-40 | The daily due date is the earliest step of at least one interval from the anchor that is not before today |
| Repeat.NextDaily | repeattask/repeat.go:13-43 | The daily rule as a function; Repeat.RepeatD computes it and Repeat.NextDailyOk, Repeat.DailyInterval and Repeat.DailyDueBounds state its errors and value |
| Repeat.DailyDue | repeattask/repeat.go:30-42 | The daily due date; Repeat.DailyDueBounds and Repeat.DailyDueLeast state what it is |
| Repeat.NextDailyOk | repeattask/repeat.go:13-43 | For a parsed anchor and a valid interval, the daily rule yields the formatted daily due date |
| Repeat.RepeatD | repeattask/repeat.go:13-43 | The loop computes the daily rule, errors included: "invalid date", then "bad day value", then "invalid day change" |
| Repeat.DailyDay | repeattask/repeat.go:30-40 | The short cut and the stepping loop give the daily due date |
| Repeat.StepUntil | repeattask/repeat.go:36-40 | The loop steps the date forward by the interval until it is not before today |
| Repeat.AddDays | repeattask/repeat.go:34 | AddDate with days only adds that many days |
| Repeat.AnniversaryOf | repeattask/repeat.go:54 | The same month and day in another year is that date, except that 29 February in a common year becomes 1 March |
| Repeat.AddYears | repeattask/repeat.go:51 | Adding years keeps month and day, with 29 February becoming 1 March in a common year |
| Repeat.YearlyDue | repeattask/repeat.go:51-57 | The yearly due date; Repeat.YearlyDueProperties states what it is |
| Repeat.YearlyDueProperties | repeattask/repeat.go:51-57 | The yearly due date is strictly after the anchor. It is the anniversary in the next year, unless that is before today. In that case today's year is later than the anchor's and the result is the anniversary in today's year |
| Repeat.RepeatY | repeattask/repeat.go:45-58 | The yearly rule fails only on an unparseable anchor, with "invalid date", and otherwise yields the formatted yearly due date. The rule text is ignored |
| Repeat.Reference | repeattask/repeat.go:81-97 | The weekly reference day is the later of anchor and today |
| Repeat.WeekdayTokens | repeattask/repeat.go:66-67 | A weekly rule has at least one token |
| Repeat.WeekdayOf | repeattask/repeat.go:72-79 | An accepted weekday token lies in 1..7, and its errors are only "bad day value" and "invalid day"; Repeat.WeekdayOfText says which token gives which |
| Repeat.WeekdayOfText | repeattask/repeat.go:72-79 | A weekday token gives "bad day value" exactly when it is not a 64-bit integer text, and otherwise is accepted exactly when its integer lies in 1..7, as that weekday |
| Repeat.WeekdayOfSigned | repeattask/repeat.go:72-79 | A spelled integer is accepted as a weekday exactly when it lies in 1..7, and is read as itself; any other integer gives "invalid day" |
| Repeat.NextWeekday | repeattask/repeat.go:81-97 | The date for weekday k is 1 to 7 days after the reference and falls on Go weekday k mod 7 |
| Repeat.NextWeekdayIsFirst | repeattask/repeat.go:81-97 | It is the first day after the reference that falls on that weekday |
| Repeat.WeeklyDue | repeattask/repeat.go:71-99 | One date per token, each 1 to 7 days after the reference and on its token's weekday |
| Repeat.WeeklyScanOk | repeattask/repeat.go:71-79 | The token loop succeeds exactly when every token is a weekday 1..7 |
| Repeat.WeeklyScanError | repeattask/repeat.go:72-79 | The loop fails with the error of the first bad token |
| Repeat.WeeklyScanValue | repeattask/repeat.go:71-99 | On success the loop appends the formatted weekly dates in token order |
| Repeat.WeeklyOutcome | repeattask/repeat.go:60-104 | The weekly rule succeeds exactly on a parsed anchor with all tokens valid. Its errors are "invalid date", "bad day value" or "invalid day". On success it returns one date per token, duplicates kept, sorted, as a permutation of the formatted weekly dates |
| Repeat.NextWeekly | repeattask/repeat.go:60-104 | The weekly rule as a function; Repeat.RepeatW computes it and Repeat.WeeklyOutcome, Repeat.NextWeeklyValue and Repeat.WeeklyAfterNow state its errors and dates |
| Repeat.NextWeeklyValue | repeattask/repeat.go:60-104 | On valid input the weekly rule is the sorted list of the formatted weekly dates |
| Repeat.WeeklyFirstIsEarliest | repeattask/repeat.go:101-103 | The first date of the sorted weekly result is the earliest weekly date |
| Repeat.WeeklyAfterNow | repeattask/repeat.go:81-97 | Every weekly date is after today |
| Repeat.RepeatW | repeattask/repeat.go:60-104 | The loop with its appends and final sort computes the weekly rule, errors included |
| Repeat.AppendWeekday | repeattask/repeat.go:82-96 | Each token appends exactly the formatted date of its weekday after the reference |
| Repeat.Earliest | repeattask/update.go:28 | The earliest of a list of dates is in the list and no later than any of them |
| Repeat.MonthDayOf | repeattask/repeat.go:120-133 | An accepted day selector lies in -1..31 after mapping -1 to 0 and -2 to -1. Its errors are only "invalid day value" and "invalid day"; Repeat.MonthDayOfText says which token gives which |
| Repeat.MonthDayOfText | repeattask/repeat.go:120-133 | A day token gives "invalid day value" exactly when it is not a 64-bit integer text, and otherwise is accepted exactly when its integer lies in -2..31, negative selectors moved up by one |
| Repeat.MonthDayOfSigned | repeattask/repeat.go:120-133 | A spelled integer is accepted as a day selector exactly in -2..31, 0 included. Negative selectors move up by one, and others give "invalid day" |
| Repeat.MonthOf | repeattask/repeat.go:194-201 | An accepted month lies in 0..12, and its errors are only "invalid month value" and "invalid month"; Repeat.MonthOfText says which token gives which |
| Repeat.MonthOfText | repeattask/repeat.go:194-201 | A month token gives "invalid month value" exactly when it is not a 64-bit integer text, and otherwise is accepted exactly when its integer lies in 0..12, as that month |
| Repeat.MonthOfSigned | repeattask/repeat.go:194-201 | A spelled integer is accepted as a month exactly in 0..12, 0 included, and any other gives "invalid month" |
| Repeat.MonthlyDate | repeattask/repeat.go:135-160 | The date a selector picks from a reference day; Repeat.MonthlyDateOffset, Repeat.MonthlyLastDays and Repeat.MonthlySameMonth state which day that is |
| Repeat.MonthlyDateOffset | repeattask/repeat.go:135-160 | A selector gives no date exactly when it equals the reference's day of month. A larger selector within the month gives that day of the month. Any other gives that many days past the month's end, which is after the reference for a positive selector |
| Repeat.MonthlyLastDays | repeattask/repeat.go:129-133 | Selectors -1 and -2 give the last and second-to-last day of the reference's month |
| Repeat.MonthlyLastDayIsAnchor | repeattask/repeat.go:150-151 | On the last day of a month, the selector -1 gives that same day |
| Repeat.MonthlySameMonth | repeattask/repeat.go:154-158 | A selector past the reference's day but within the month gives that day of the same month |
| Repeat.DaysOnlyScan | repeattask/repeat.go:114-169 | The selector loop without months; Repeat.DaysOnlyBeforeNow and Repeat.DaysOnlyFirstSelector state its two cases |
| Repeat.DayCheck | repeattask/repeat.go:119-128 | Checking every selector succeeds exactly when all are valid, yields nothing, and fails only with the day errors |
| Repeat.DaysOnlyBeforeNow | repeattask/repeat.go:119-168 | With the anchor before today, the rule without months only checks the selectors and returns no dates |
| Repeat.DaysOnlyFirstSelector | repeattask/repeat.go:149-165 | With the anchor not before today, only the first selector is used: its error, or at most one date |
| Repeat.MonthlyWithoutMonths | repeattask/repeat.go:114-169 | The monthly rule without months matches one of those two cases, by whether the anchor is before today |
| Repeat.PairDate | repeattask/repeat.go:203-213 | The date written for one pair; Repeat.PairDateNotBeforeNow and Repeat.PairDateFallsOn state what it is |
| Repeat.MonthsScan | repeattask/repeat.go:193-214 | The month loop; Repeat.MonthsScanResult and Repeat.MonthsScanEntries state its outcome and entries |
| Repeat.DaysScan | repeattask/repeat.go:177-215 | The loop over the pairs; Repeat.DaysScanOk, Repeat.DaysScanCount and Repeat.DaysScanPairDates state its outcome, size and entries |
| Repeat.MonthsScanResult | repeattask/repeat.go:193-214 | The month loop succeeds exactly when every month is valid, fails only with the month errors, and appends one date per month |
| Repeat.DaysScanOk | repeattask/repeat.go:177-215 | The pair loop succeeds exactly when every selector is valid and, if there is one, every month too. It fails only with the day or month errors |
| Repeat.DaysScanCount | repeattask/repeat.go:177-215 | The pair loop appends one date per selector and month pair |
| Repeat.MonthsScanEntries | repeattask/repeat.go:193-214 | The month loop keeps what was written before and appends, for each listed month in order, that day of the month in some year, moved to today's year or the next when it falls before today |
| Repeat.DaysScanPairDates | repeattask/repeat.go:177-215 | The day loop writes one block per day selector, in order, each holding that day's pair date for every month in order |
| Repeat.DaysScanStep | repeattask/repeat.go:177-215 | One round of the day loop keeps what was written, appends the first selector's block of pair dates, and continues from the state it leaves |
| Repeat.PairDateFallsOn | repeattask/repeat.go:203-213 | For a day 1..28 and a month 1..12 every pair date falls on that month and day, whatever its year |
| Repeat.PairDateNotBeforeNow | repeattask/repeat.go:203-213 | For a real month and a positive day, a pair date moved forward is not before today |
| Repeat.MonthsScanNotBefore | repeattask/repeat.go:193-214 | With real months and a positive day, every date the month loop appends is not before today |
| Repeat.DaysScanNotBefore | repeattask/repeat.go:177-215 | With positive days and real months, the pair loop succeeds and no appended date is before today |
| Repeat.DaysInMonthsOutcome | repeattask/repeat.go:171-220 | With a month list, the rule succeeds exactly when days and months are valid. It yields one date per pair, sorted, and is a permutation of the pair dates the loops write, one block per day selector with one entry per month |
| Repeat.DaysInMonthsNotBefore | repeattask/repeat.go:203-217 | With positive days and real months, every date is not before today |
| Repeat.MonthlyOutcome | repeattask/repeat.go:106-223 | The monthly rule fails only with "invalid date" or a day or month error. More than two space-separated parts give no dates and no error |
| Repeat.NextMonthly | repeattask/repeat.go:106-223 | The monthly rule as a function; Repeat.RepeatM computes it and Repeat.MonthlyOutcome, Repeat.MonthlyWithoutMonths and Repeat.MonthlyWithMonths state its outcome |
| Repeat.MonthlyWithMonths | repeattask/repeat.go:171-220 | With a month list the rule succeeds exactly on valid days and months. It gives one date per pair, sorted, as a permutation of the pair dates, none before today when days and months are positive |
| Repeat.RepeatM | repeattask/repeat.go:106-223 | The nested loops with their early return compute the monthly rule, errors included |
| Repeat.MonthDaysOnly | repeattask/repeat.go:114-169 | The loop over the selectors without months computes its specification, including the early return |
| Repeat.AppendMonthDay | repeattask/repeat.go:135-160 | Each selector appends the formatted date it picks, or nothing on the reference's own day |
| Repeat.MonthDaysInMonths | repeattask/repeat.go:171-220 | The nested loop over selectors and months, then the sort, computes the rule with a month list |
| Repeat.ScanMonths | repeattask/repeat.go:193-214 | The inner loop overwrites the running date per month and appends each pair's date |
| Repeat.AppendPair | repeattask/repeat.go:205-213 | A pair appends its own date, or the date moved to today's or next year when it is before today |
| Update.UpdateDate | repeattask/update.go:7-32 | UpdateDate as a function; Update.UpdateDateDispatch, Update.UpdateDateWeekly, Update.UpdateDateWeeklyEarliest and Update.UpdateDateDaily state it |
| Update.UpdateDateDispatch | repeattask/update.go:10-31 | `d` gives the daily rule and `y` the yearly rule, errors passed through. Any letter other than `d`, `y` or `w` gives the empty string and no error |
| Update.UpdateDateWeekly | repeattask/update.go:23-28 | `w` fails exactly when the weekly rule fails, with its message. Otherwise it gives a date after today |
| Update.UpdateDateWeeklyEarliest | repeattask/update.go:23-28 | `w` gives the earliest of the weekly dates |
| Update.UpdateDateDaily | repeattask/update.go:11-16 | A successful `d` gives the formatted daily due date of a parsed anchor and a valid interval, not before today |
| Tasks.Task | db/types.go:11-17 | The task record with its five text fields |
| Tasks.Mapping | db/types.go:34 | The rule-letter table; Tasks.KnownLetters states which letters it accepts |
| Tasks.NewTask | db/types.go:36-88 | NewTask as a function; Tasks.NewTaskAccepts and the lemmas below state its outcome and fields |
| Tasks.KnownLetters | db/types.go:34 | The rule letters are exactly d, y, w and m |
| Tasks.NewTaskAccepts | db/types.go:36-88 | A task is accepted exactly when its rule letter is known, it has a title, and its date is empty or parses and its daily, yearly or weekly rule succeeds. Errors are the six possible messages |
| Tasks.NewTaskCheckOrder | db/types.go:37-54 | "unknown rule" is reported before a missing title, and a missing title before "invalid date" |
| Tasks.NewTaskKeepsFields | db/types.go:47-85 | An accepted task whose rule is empty, not monthly, or given with an empty date has no id and keeps its title, comment and rule |
| Tasks.NewTaskMonthly | db/types.go:64-87 | A monthly rule that passes the checks yields the zero Task and no error |
| Tasks.NewTaskOnce | db/types.go:47-62 | Without a rule the due date is today for an empty date. Otherwise it is the later of the date and today |
| Tasks.NewTaskEmptyDate | db/types.go:47-48 | With an empty date, a known rule or none and a title, the task is dated today and keeps title, comment and rule, the monthly rule included |
| Tasks.NewTaskNotBefore | db/types.go:47-85 | With no rule or a daily or weekly rule, the due date is not before today, and a weekly one is after today |
| Tasks.NewTaskAgreesWithUpdate | db/types.go:64-85 | For daily, yearly and weekly rules, NewTask stores exactly the date UpdateDate computes |

## Left out

- HTTP routing, JSON encoding, JWT signing, SQL storage and server start-up are not part of this model. Neither are `MakeHTTP` and `WriteJSON`, which only write responses.
- Reading the clock (`time.Now()`): today's date at midnight is the parameter `now`.
- Time zones, times of day, nanoseconds and the monotonic clock are not modelled. Every time is midnight UTC, and times compare as day numbers.
- Strings are sequences of bytes, each held as one `char`. No Unicode is involved.
- Go's `time.Parse` and `Format` are modelled only for the layout elements the source uses (`2006`, `01`, `02`) and literal bytes.
  - The day is checked against the month length as Go does.
  - Years are written as Go's appendInt writes them: at least four digits, with a '-' before a negative year. The properties that rest on the eight-digit text (Helpers.FormatOrder, Repeat.WeeklyFirstIsEarliest, Update.UpdateDateWeeklyEarliest) hold only for the years 0..9999, because longer or signed years do not sort chronologically. Every date that parses lies in those years.
- A nil slice and an empty slice are the same sequence.
- On an error the Go functions also return an empty value: a zero `Task`, an empty string or a nil slice. `Result` carries only the message.
- `sort.Strings` is modelled by a value-level insertion sort in byte-wise order. Go's in-place sort is library code whose output is the same ordered permutation.
- Repeat.MonthlyDate: uses the month length `DaysIn` where the source calls `lastDayOfMonth`. The two are proved equal by `Repeat.LastDayOfMonth`.
- Update.UpdateDateDaily: does not repeat the statement that the due date is a whole number of intervals after the anchor. That is stated by `Repeat.DailyDueBounds` about the same function.
- Update.UpdateDateWeeklyEarliest: requires that the reference day plus a week stays in the year 9999. After that, eight-digit texts would no longer sort chronologically.
- Repeat.WeeklyFirstIsEarliest: has the same requirement, for the same reason.
- Repeat.DaysScanPairDates: names each entry's month, day and moving rule but not the year it starts from. That year follows the running date that the loop overwrites pair by pair (repeattask/repeat.go:203), which Repeat.DaysScan itself fixes.
- Repeat.YearlyDueProperties: does not say the yearly result is not before today. The source's fallback into today's year can be before today.
