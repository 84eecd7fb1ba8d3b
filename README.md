# Recurrence engine of the task scheduler, in Dafny

The scheduler stores tasks with a date in the `20060102` layout and an
optional repeat rule in a small language. `d N` means every N days (1..400).
`y` means every year. `w 1,5` means on these weekdays, with 1 = Monday and
7 = Sunday. `m 1,-1 2,8` means on these days of the month (`-1` is the last
day, `-2` the second-to-last), optionally only in the listed months.

`NextDate(now, dstart, repeat)` parses the start date, parses the rule with
`parseRepeat`, and steps forward from the start to the first date strictly
after `now` that the rule accepts. It returns that date's text.
`checkDate` applies the date policy before a task is stored.

This project models two revisions of that engine:
- the current one (`pkg/api/nextDate.go`), in full;
- the older one (`pkg/api/nextdate.go`), with its parser, its calculator and
  the places where its behaviour differs from the current revision.

It also models `checkDate` (`pkg/api/add_ask.go`) on a `Task` object whose
date field it updates in place.

Layout, one module per file:

| file | module | what it holds |
|---|---|---|
| `outcomes.dfy` | `Outcomes` | `Option`, `Result` |
| `gostrings.dfy` | `GoStrings` | `strings.Fields`, `strings.Split`, `strings.TrimSpace`, `strconv.Atoi` / `Itoa` |
| `calendar.dfy` | `Calendar` | proleptic Gregorian dates, day numbers, `AddDate` by days and by one year, weekdays |
| `dateformat.dfy` | `DateFormat` | `time.Parse` / `Format` with the `20060102` layout, Go's string `<` |
| `rules.dfy` | `Rules` | the rule letters, `repeatTypes`, `Parsed`, the error values |
| `parser.dfy`, `parser_facts.dfy` | `Parser`, `ParserFacts` | current `parseRepeat` (function and imperative method) and what it guarantees |
| `daily.dfy`, `yearly.dfy`, `weekly.dfy`, `monthly.dfy` | `DailyRule`, `YearlyRule`, `WeeklyRule`, `MonthlyRule` | each branch of `NextDate`: a loop method proved equal to a closed-form function, and the first-match property of that function |
| `scheduler.dfy` | `Scheduler` | current `NextDate` |
| `scenarios.dfy` | `Scenarios` | the four examples in the comment above `NextDate`, and one `m -2` example |
| `legacy_parser.dfy`, `legacy_facts.dfy`, `legacy_nextdate.dfy` | `LegacyParser`, `LegacyFacts`, `LegacyScheduler` | the older revision, and its contrasts with the current one |
| `tasks.dfy` | `TaskDates` | `db.Task` as a class, `checkDate` |

Design in brief:
- **Dates.** A date is `Date(year, month, day)`.
  - `DayNumber` counts days from 0000-01-01.
  - `After` compares day numbers: Go's `time.After` on midnight instants.
  - `Weekday` is 0 for Sunday, like `time.Weekday`.
  - `AddDays(d, n)` is `AddDate(0, 0, n)`; `AddYear` is `AddDate(1, 0, 0)`, which turns February 29th into March 1st in a common year.
- **Loops.** Every loop of the source is a `method` with a `while` loop. The
  `ensures` of each equates its result with a specification function, for
  example `DailyNext`, `WeeklyNext` or `MonthlyNext`. Lemmas then prove that
  this function gives the FIRST date after `now` (and on or after the start)
  that the rule accepts. They also prove it is unique.
- **Tables.** The source fills fixed-size boolean tables and scans with them:
  `[7]bool` of weekdays, `[32]bool` of month days, `[13]bool` of months,
  `[8]bool` in the older revision. The model fills an `array<bool>` the same
  way, and the loop invariants relate the array to the parsed lists.
- **Non-termination.** Some inputs make the source loop forever:
  - in the current revision, a monthly rule that no date satisfies, such as `m 31 2`;
  - in the older revision, `d 0` before now, and a weekly rule listing only 7 (Sunday).

  The model describes exactly which inputs stop (`Satisfiable`, `Returns`,
  `LegacyEnds`) and requires them. Lemmas exhibit inputs that do not stop.
- **Panics.** A Go panic in the older revision is the outcome `Panicked`.
  Two inputs cause one:
  - the index `rParams[1]` when a monthly rule has one parameter;
  - a negative index into the day table.

Where the source and its documentation part ways, the model follows the source:
- `isSecondLastDayOfMonth` asks whether the day after next lies in another
  month, so it also holds on the LAST day of a month.
  - `MonthlyRule.SecondLastDayExactly` states this.
  - `Scenarios.SecondLastOnLastDay` shows `m -2` stopping at January 31st.
- The third example in the comment above `NextDate` (`"20240116"`, `m 16,5`
  gives `20240205`) holds only for a `now` from 2024-01-16 to 2024-02-04.
  With an earlier `now`, the start date itself is the answer
  (`Scenarios.MonthlyStartItself`). `Scenarios.MonthlyNextFifth` proves the
  example with now = 2024-01-26.
- `checkDate` formats and parses with an identifier `Dateformat` that the
  package does not declare; its only layout constant is `DATEFORMAT`
  (`pkg/api/api.go:8`). The model uses that layout.

## Model

Rows list the members that carry a contract. The definitions they are about have no row of their own:
`Calendar.After` (`afterNow`), `MonthlyRule.IsLastDayOfMonth`, `MonthlyRule.IsSecondLastDayOfMonth`,
`MonthlyRule.ValidMonthlyDate`, and the specification functions `Parser.Parse`, `Scheduler.NextDateOf`,
`LegacyParser.LegacyParse`, `LegacyScheduler.LegacyNextDateOf` and `TaskDates.CheckDateOf`.
The rows for `Calendar.DayNumberOrder`, `MonthlyRule.LastDayExactly`, `MonthlyRule.SecondLastDayExactly`,
`MonthlyRule.TableTest`, `Parser.ParseRepeat`, `Scheduler.NextDate`, `LegacyScheduler.LegacyNextDate`
and `TaskDates.CheckDate` state what these definitions mean.

| member | source | states |
|---|---|---|
| Calendar.AddDaysNumber | pkg/api/nextDate.go:40 | adding n days to a real date gives a real date exactly n day numbers later |
| Calendar.AddYearFields | pkg/api/nextDate.go:49 | `AddDate(1, 0, 0)` keeps month and day, except that February 29th becomes March 1st of a common year |
| Calendar.AddYearNumber | pkg/api/nextDate.go:49 | adding a year moves to the next year and strictly later in time |
| Calendar.DayNumberOrder | pkg/api/nextDate.go:268-270 | `After` on real dates is calendar order (year, month, day), and equal day numbers mean equal dates |
| Calendar.WeekdayAddDays | pkg/api/nextDate.go:65-70 | n days later the weekday has advanced by n modulo 7 |
| GoStrings.Fields | pkg/api/nextDate.go:129 | every field is non-empty and free of white space |
| GoStrings.FieldsKeepsText | pkg/api/nextDate.go:129 | the fields, put back together, are the input without its white space |
| GoStrings.FieldsOfWordThen | pkg/api/nextDate.go:129 | a non-empty run of non-space characters that ends the input or meets white space is one whole field, so `Fields` splits exactly at white space |
| GoStrings.FieldsSkipsSpace | pkg/api/nextDate.go:129 | leading white space yields no field |
| GoStrings.FieldsEmpty | pkg/api/nextDate.go:129-132 | there are no fields exactly when the input is all white space |
| GoStrings.Split | pkg/api/nextDate.go:171 | one more piece than separators, and no piece contains the separator |
| GoStrings.SplitJoin | pkg/api/nextDate.go:171 | joining the pieces with the separator gives back the input |
| GoStrings.TrimSpaceSlice | pkg/api/nextDate.go:180 | the trimmed item is a slice of the item with only white space cut off each end, and it neither starts nor ends with white space |
| GoStrings.AtoiItoa | pkg/api/nextDate.go:147 | `strconv.Atoi` reads back every integer `strconv.Itoa` writes |
| GoStrings.AtoiAcceptsWordsOnly | pkg/api/nextDate.go:147 | whatever `Atoi` accepts is a non-empty word without white space |
| DateFormat.ParseFormat | pkg/api/nextDate.go:113 | the formatted text of a real date with a four-digit year parses back to that date |
| DateFormat.FormatParse | pkg/api/nextDate.go:28 | a text that `time.Parse` accepts is a real date with a four-digit year, and formatting it gives the text back |
| DateFormat.FormatLess | pkg/api/add_ask.go:72 | for four-digit years, Go's `<` on the texts is the date order |
| Parser.ParseItem | pkg/api/nextDate.go:179-194 | an item that parses is in its list's range |
| Parser.Collect | pkg/api/nextDate.go:179-196 | a successful list has one value per item, each the item's own value |
| Parser.CollectOk | pkg/api/nextDate.go:179-196 | a list parses exactly when every item does |
| Parser.CollectFirstError | pkg/api/nextDate.go:179-194 | a list that fails reports the error of its first bad item |
| Parser.ParseList | pkg/api/nextDate.go:179-196 | the item loop returns the list's values, or the first bad item's error |
| Parser.ParseRepeat | pkg/api/nextDate.go:122-266 | the imperative `parseRepeat` returns what `Parse` specifies |
| ParserFacts.ParseItemsInRange | pkg/api/nextDate.go:189-193 | a parsed list has one in-range value per item |
| ParserFacts.ParseWeeklyWellFormed | pkg/api/nextDate.go:166-197 | an accepted weekly rule has 1 to 7 weekdays in 1..7 and no months |
| ParserFacts.ParseMonthlyWellFormed | pkg/api/nextDate.go:202-261 | an accepted monthly rule has days in 1..31 or -1/-2, and months in 1..12 |
| ParserFacts.ParseFieldsWellFormed | pkg/api/nextDate.go:133-263 | every rule the parser accepts is well formed for its letter |
| ParserFacts.ParseWellFormed | pkg/api/nextDate.go:122-266 | every accepted repeat string gives a well-formed rule |
| ParserFacts.ItemErrorIsSpecific | pkg/api/nextDate.go:180-191 | a bad item gives its list's own error or a syntax error |
| ParserFacts.ItemErrorsAreSpecific | pkg/api/nextDate.go:179-194 | a bad list gives its own error or a syntax error, never another rule's error |
| ParserFacts.FirstErrorIndex | pkg/api/nextDate.go:179-194 | if some item is bad, there is a first bad item |
| ParserFacts.ParseFieldsEmpty | pkg/api/nextDate.go:129-132 | "repeat is empty" is reported for no fields and only then |
| ParserFacts.ParseBlank | pkg/api/nextDate.go:125-132 | a repeat string gives "repeat is empty" exactly when it is empty or all white space |
| ParserFacts.ParseUnknownType | pkg/api/nextDate.go:136-138 | a first field that is not a rule letter gives "invalid repeat type" |
| ParserFacts.ParseDailyExactly | pkg/api/nextDate.go:142-156 | `d` accepts exactly one integer parameter in 1..400 |
| ParserFacts.ParseYearlyExactly | pkg/api/nextDate.go:158-162 | `y` is accepted exactly without parameters |
| ParserFacts.ParseWeeklyExactly | pkg/api/nextDate.go:166-197 | `w` accepts exactly one parameter of at most seven comma items, all weekdays |
| ParserFacts.ParseMonthlyExactly | pkg/api/nextDate.go:202-261 | `m` accepts one or two parameters; the days must parse, the months must parse when given, and they default to none |
| ParserFacts.ItoaWord | pkg/api/nextDate.go:147 | a written integer is a non-empty word without spaces or commas |
| ParserFacts.CommaListWord | pkg/api/nextDate.go:171 | a written list is a non-empty word without spaces |
| ParserFacts.SplitCommaList | pkg/api/nextDate.go:171 | splitting a written list on commas gives its items |
| ParserFacts.ParseIntTexts | pkg/api/nextDate.go:179-196 | the item loop reads back a written list of in-range values |
| ParserFacts.ParseRenderWeekly | pkg/api/nextDate.go:166-197 | a well-formed weekly rule, written out, parses to itself |
| ParserFacts.ParseRenderMonthDays | pkg/api/nextDate.go:202-261 | a well-formed monthly rule without months, written out, parses to itself |
| ParserFacts.MonthlyRenderFields | pkg/api/nextDate.go:129-134 | a written monthly rule with months splits into the letter, the days and the months |
| ParserFacts.ParseRenderMonthDaysMonths | pkg/api/nextDate.go:202-261 | a well-formed monthly rule with months, written out, parses to itself |
| ParserFacts.ParseRender | pkg/api/nextDate.go:122-266 | every well-formed rule, written in the rule language, parses back to itself |
| DailyRule.DailySteps | pkg/api/nextDate.go:39-44 | the loop takes the least number of steps, at least one, that carries the start past now |
| DailyRule.StepsUnique | pkg/api/nextDate.go:39-44 | that least step count is unique |
| DailyRule.OccurrenceNumber | pkg/api/nextDate.go:40 | k steps of n days land k*n days after the start |
| DailyRule.DailyNextFirst | pkg/api/nextDate.go:38-45 | the result is strictly after now and after the start, and no earlier step is after now |
| DailyRule.DailyZeroStuck | pkg/api/nextdate.go:38-45 | with a step of 0 days and a start not after now, no step is ever after now |
| DailyRule.DailyExit | pkg/api/nextDate.go:39-44 | the step where the loop breaks is the rule's date |
| DailyRule.NextDaily | pkg/api/nextDate.go:38-45 | the loop returns the first step after now |
| YearlyRule.YearsLater | pkg/api/nextDate.go:48-53 | repeated `AddDate(1, 0, 0)` gives real dates |
| YearlyRule.YearsLaterFields | pkg/api/nextDate.go:49 | after k years the date is the anniversary in year start + k; a February 29th start becomes March 1st |
| YearlyRule.AnniversaryAfter | pkg/api/nextDate.go:50 | an anniversary is after now exactly from a computable first year on |
| YearlyRule.YearlyNextFirst | pkg/api/nextDate.go:47-54 | the result is the first anniversary strictly after now, at least a year after the start |
| YearlyRule.YearlyExit | pkg/api/nextDate.go:48-53 | the year where the loop breaks gives the rule's date |
| YearlyRule.NextYearly | pkg/api/nextDate.go:47-54 | the loop returns the first anniversary after now |
| WeeklyRule.DaysToSelected | pkg/api/nextDate.go:63-71 | the gap to the next selected weekday is less than a week |
| WeeklyRule.DaysToSelectedFinds | pkg/api/nextDate.go:63-71 | that gap reaches a selected weekday, and none is skipped |
| WeeklyRule.ScanBaseFacts | pkg/api/nextDate.go:63-70 | the first day on or after the start that is after now; every earlier day from the start is not after now |
| WeeklyRule.WeeklyNextMatches | pkg/api/nextDate.go:56-72 | the result is a real date after now on a listed weekday, at most six days past that first day |
| WeeklyRule.WeeklyNextFirst | pkg/api/nextDate.go:56-72 | no date from the start up to the result is after now on a listed weekday |
| WeeklyRule.WeeklyStartMatches | pkg/api/nextDate.go:63-68 | a start after now on a listed weekday is its own answer |
| WeeklyRule.WeeklyStartItself | pkg/api/nextDate.go:63-68 | the start is the answer exactly when it is after now on a listed weekday |
| WeeklyRule.NextWeekly | pkg/api/nextDate.go:56-72 | filling the weekday table (7 to index 0) and scanning returns the weekly rule's date |
| WeeklyRule.ScanWeekly | pkg/api/nextDate.go:63-71 | the day-by-day scan with the weekday table returns the weekly rule's date |
| MonthlyRule.LastDayExactly | pkg/api/nextDate.go:272-274 | `isLastDayOfMonth` holds exactly on the month's last day |
| MonthlyRule.SecondLastDayExactly | pkg/api/nextDate.go:276-278 | `isSecondLastDayOfMonth` holds exactly on the last two days of the month |
| MonthlyRule.SatisfiableWitness | pkg/api/nextDate.go:102-110 | a satisfiable rule has a match after now within a bounded number of years |
| MonthlyRule.MatchSatisfiable | pkg/api/nextDate.go:102-110 | a rule with any match is satisfiable, so `Satisfiable` is exactly the condition under which the scan stops |
| MonthlyRule.FebruaryThirtyFirstNeverMatches | pkg/api/nextDate.go:102-110 | `m 31 2` matches no date, so the scan never stops |
| MonthlyRule.MonthlyFirstUnique | pkg/api/nextDate.go:102-110 | the first match is unique |
| MonthlyRule.ScanDaysFirst | pkg/api/nextDate.go:102-110 | the bounded scan finds the first match when one lies within its bound |
| MonthlyRule.MonthlyNextFirst | pkg/api/nextDate.go:74-111 | for a satisfiable rule, the result is the first date on or after the start that is after now and accepted |
| MonthlyRule.MonthlyNextExactly | pkg/api/nextDate.go:74-111 | any first match is the result |
| MonthlyRule.ListedAppend | pkg/api/nextDate.go:81-99 | a list with one more item lists exactly one more value |
| MonthlyRule.BuildDayTable | pkg/api/nextDate.go:75-90 | the table marks exactly the listed days 1..31; the flags record -1 and -2 |
| MonthlyRule.BuildMonthTable | pkg/api/nextDate.go:78-100 | the month table marks the listed months, or all twelve when none are listed |
| MonthlyRule.TableTest | pkg/api/nextDate.go:103-105 | the tables and `validMonthlyDate` accept a date exactly when the rule does |
| MonthlyRule.ScanMonthly | pkg/api/nextDate.go:102-110 | the day-by-day scan returns the first match on or after the start |
| MonthlyRule.NextMonthly | pkg/api/nextDate.go:74-111 | building the tables and scanning returns the first match |
| Scheduler.NextOfAfter | pkg/api/nextDate.go:38-111 | every branch returns a real date after now and on or after the start; daily and yearly results are after the start |
| Scheduler.NextDateErrors | pkg/api/nextDate.go:27-36 | a bad start date is reported first, then the parser's error, and nothing else fails |
| Scheduler.ParseFieldsErrors | pkg/api/nextDate.go:122-266 | the parser never reports the date error |
| Scheduler.NextDateIsLater | pkg/api/nextDate.go:27-114 | a result is the text of a date after now and on or after the start; for four-digit years it is also greater than now as text |
| Scheduler.ParseFormatYear | pkg/api/nextDate.go:113 | a result text that parses again has a four-digit year |
| Scheduler.DigitsAtLeast | pkg/api/nextDate.go:113 | a year of at least 10^(k-1) is written with at least k digits |
| Scheduler.NextDate | pkg/api/nextDate.go:27-114 | parse, branch and format return what `NextDateOf` specifies |
| Scenarios.Written | pkg/api/nextDate.go:27-36 | a start date and rule written in their own syntax reach the rule's branch |
| Scenarios.MonthlyWritten | pkg/api/nextDate.go:74-113 | a known first monthly match is what `NextDate` returns |
| Scenarios.YearlyFromLeapDay | pkg/api/nextDate.go:23 | `y` from 20240229 gives 20250301 |
| Scenarios.DailyWeek | pkg/api/nextDate.go:24 | `d 7` from 20240113 gives 20240120 |
| Scenarios.MonthlyStartItself | pkg/api/nextDate.go:25 | `m 16,5` from 20240116 with now = 20240101 gives the start, 20240116 |
| Scenarios.FifthIsFirst | pkg/api/nextDate.go:25 | with now = 20240126, February 5th is the first match of `m 16,5` |
| Scenarios.MonthlyNextFifth | pkg/api/nextDate.go:25 | `m 16,5` from 20240116 with now = 20240126 gives 20240205 |
| Scenarios.EighteenthIsFirst | pkg/api/nextDate.go:26 | with now = 20240210, February 18th is the first match of `m -1,18` |
| Scenarios.MonthlyEighteenth | pkg/api/nextDate.go:26 | `m -1,18` from 20240201 with now = 20240210 gives 20240218 |
| Scenarios.SecondLastOnLastDay | pkg/api/nextDate.go:276-278 | `m -2` from 20240101 with now = 20240130 gives 20240131, the last day |
| LegacyParser.LegacyItem | pkg/api/nextdate.go:155-165 | an untrimmed item that the older parser accepts is in its list's range |
| LegacyParser.LegacyItemResultAt | pkg/api/nextdate.go:155-166 | each item's result is that item's own parse |
| LegacyParser.LegacyParseList | pkg/api/nextdate.go:182-193 | the older item loop returns the list's values, or the first bad item's error |
| LegacyParser.LegacyParseRepeat | pkg/api/nextdate.go:101-216 | the imperative older `parseRepeat` returns, or panics, as `LegacyParse` specifies |
| LegacyFacts.LegacyItemsInRange | pkg/api/nextdate.go:155-166 | a parsed list has one in-range value per item |
| LegacyFacts.LegacyItemErrors | pkg/api/nextdate.go:155-166 | a bad list gives its own error or a syntax error |
| LegacyFacts.LegacyParseErrors | pkg/api/nextdate.go:101-216 | the older parser never reports the date error |
| LegacyFacts.LegacyParseWellFormed | pkg/api/nextdate.go:101-216 | an accepted rule has the older shape: `d` in 0..400, weekdays 1..7, month days -31..31, at least one month |
| LegacyFacts.LegacyPanicsExactly | pkg/api/nextdate.go:175-179 | the older parser panics exactly on `m` with a single parameter |
| LegacyFacts.LegacyDailyExactly | pkg/api/nextdate.go:118-132 | the older `d` accepts exactly one space-separated integer in 0..400 |
| LegacyFacts.LegacyWeeklyExactly | pkg/api/nextdate.go:142-169 | the older `w` reads only the first parameter: at most seven items, all weekdays |
| LegacyFacts.DailyZeroContrast | pkg/api/nextdate.go:128 | `d 0` is accepted by the older parser and rejected by the current one |
| LegacyFacts.LegacyTrailingSpace | pkg/api/nextdate.go:108 | a trailing space makes the older `d N` fail |
| LegacyFacts.CurrentTrailingSpace | pkg/api/nextDate.go:129 | the current parser ignores a trailing space after `d N` |
| LegacyFacts.TrailingSpaceContrast | pkg/api/nextdate.go:108 | the revisions disagree on `d N ` |
| LegacyFacts.LegacyDoubleSpace | pkg/api/nextdate.go:108 | two spaces after `w` make the older parser read an empty item and fail |
| LegacyFacts.CurrentDoubleSpace | pkg/api/nextDate.go:129 | the current parser accepts `w  N` |
| LegacyFacts.LegacyExtraWeekday | pkg/api/nextdate.go:142-147 | the older `w` ignores an extra parameter |
| LegacyFacts.CurrentExtraWeekday | pkg/api/nextDate.go:167-169 | the current `w` rejects an extra parameter |
| LegacyFacts.ExtraWeekdayContrast | pkg/api/nextdate.go:142-147 | the revisions disagree on `w N x` |
| LegacyFacts.MonthOneParamContrast | pkg/api/nextdate.go:179 | `m D` panics in the older parser and is accepted by the current one |
| LegacyFacts.LegacyIntTexts | pkg/api/nextdate.go:182-207 | the older item loop reads back a written list of in-range values |
| LegacyFacts.LegacyReadsDaily | pkg/api/nextdate.go:118-132 | the older parser reads a written current daily rule as itself |
| LegacyFacts.LegacyReadsWeekly | pkg/api/nextdate.go:142-169 | the older parser reads a written current weekly rule as itself |
| LegacyFacts.LegacyReadsMonthDays | pkg/api/nextdate.go:179 | a written current monthly rule without months makes the older parser panic |
| LegacyFacts.LegacyMonthlyRead | pkg/api/nextdate.go:174-211 | three space-separated fields with good lists give the older monthly rule |
| LegacyFacts.LegacyReadsMonthDaysMonths | pkg/api/nextdate.go:174-211 | the older parser reads a written current monthly rule with months as itself |
| LegacyFacts.LegacyReadsRender | pkg/api/nextdate.go:101-216 | every written current rule is read as itself by the older parser, except a monthly rule without months, which panics |
| LegacyScheduler.SansSunday | pkg/api/nextdate.go:57-60 | listed weekdays without 7 stay in 1..6 |
| LegacyScheduler.SansSundayOn | pkg/api/nextdate.go:57-64 | the `[8]bool` table consulted at `Weekday()` (0..6) selects exactly the listed days other than 7 |
| LegacyScheduler.WeeklyEndsSans | pkg/api/nextdate.go:62-67 | the older weekly loop stops exactly when some weekday 1..6 is listed |
| LegacyScheduler.LegacyWeeklyFirst | pkg/api/nextdate.go:56-68 | the result is strictly after the start, after now, on a listed weekday other than Sunday, and the first such date |
| LegacyScheduler.LegacyWeeklyMatchNeedsWorkday | pkg/api/nextdate.go:64 | any date the older weekly loop stops at needs a listed weekday in 1..6 |
| LegacyScheduler.LegacyNextWeekly | pkg/api/nextdate.go:56-68 | filling the `[8]bool` table and stepping one day before each test returns the older weekly date |
| LegacyScheduler.LegacyDayTable | pkg/api/nextdate.go:73-75 | filling the day table panics exactly on a negative day; otherwise it marks the listed days |
| LegacyScheduler.LegacyNextMonthly | pkg/api/nextdate.go:70-90 | the older monthly branch panics exactly on a negative day; otherwise it returns the first match from the day after the start |
| LegacyScheduler.LegacyNextOfAfter | pkg/api/nextdate.go:38-90 | each older branch returns a real date after now; `d 0` returns the start itself, every other rule a date after it |
| LegacyScheduler.LegacyNextDateErrors | pkg/api/nextdate.go:27-36 | a bad start date is reported first; the call panics exactly when the parser or the monthly table panics; otherwise the parser's error passes through |
| LegacyScheduler.LegacyNextDate | pkg/api/nextdate.go:27-93 | the older `NextDate` returns, or panics, as `LegacyNextDateOf` specifies |
| LegacyScheduler.RevisionsAgree | pkg/api/nextdate.go:38-54 | for daily and yearly rules written in the current syntax, both revisions give the same answer |
| LegacyScheduler.MonthlyContrast | pkg/api/nextdate.go:70-90 | a monthly rule that the current revision answers makes the older one panic exactly when it has no months or lists -1 or -2 |
| LegacyScheduler.SundayContrast | pkg/api/nextdate.go:59-64 | `w 7` reaches a Sunday in the current revision, and no date ever matches it in the older one |
| TaskDates.Task.constructor | pkg/db/task.go:11-17 | a task holds the five given fields |
| TaskDates.CheckDateInvalid | pkg/api/add_ask.go:53-59 | the date error is returned exactly when the defaulted date does not parse; an empty date becomes today, which parses |
| TaskDates.CheckDateRuleErrors | pkg/api/add_ask.go:65-70 | with a good date and a rule, the call fails exactly when the rule does not parse, with the parser's error, whatever the date |
| TaskDates.CheckDatePastPlain | pkg/api/add_ask.go:72-75 | a past date without a rule becomes today |
| TaskDates.CheckDatePastRepeat | pkg/api/add_ask.go:72-77 | a past date with a rule becomes the rule's next date, which is after today |
| TaskDates.CheckDateKeeps | pkg/api/add_ask.go:72-80 | a date on or after today is kept |
| TaskDates.CheckDateNotPast | pkg/api/add_ask.go:49-81 | after a successful check the date field holds a real date that is not before today |
| TaskDates.CheckDate | pkg/api/add_ask.go:49-81 | `checkDate` changes only the task's date, to what `CheckDateOf` specifies, and returns its error |

## Left out

- The clock: `time.Now()` in `checkDate` is the parameter `now`.
- Time of day and zones:
  - `now` is a calendar date and `After` compares days.
  - A `now` with any time of day, midnight included, gives the same comparisons with midnight dates, so the day comparison is exact once zones are set aside.
  - Time zones are not modelled.
- Years: negative years and years above 9999 in the start date are not modelled, because `time.Parse` with this layout reads exactly four year digits. Results in years above 9999 are formatted with more digits, as Go does.
- `strconv.Atoi`: values outside the 64-bit range are not modelled as range errors; an integer of any size is read.
- Go's error values: they are collapsed into the `Error` datatype, one constructor per message. A `time.Parse` error is `InvalidDate`, and a `strconv.Atoi` error is `SyntaxError(item)`.
- `parseRepeat` returns a partly filled `*Parsed` together with an error. The model drops that value, since no caller reads it.
- HTTP handlers (`nextDateHandler`, the task handlers), authentication, JSON and the database are not part of this model. `db.Task` appears only as the object `checkDate` updates.
- Scheduler.NextDate: requires `Returns`. A monthly rule that no date satisfies (for example `m 31 2`) makes the source loop forever, and divergence is not modelled. `MonthlyRule.FebruaryThirtyFirstNeverMatches` exhibits such a rule.
- MonthlyRule.NextMonthly: requires `Satisfiable`, for the same reason.
- DailyRule.NextDaily: requires a step of at least one day, or a start after now. The older revision's `d 0` with a start not after now loops forever (`DailyRule.DailyZeroStuck`).
- LegacyScheduler.LegacyNextDate: requires `LegacyReturns`, which excludes the older loops that never stop: `d 0` before now, `w` listing only 7, and an unsatisfiable monthly rule without negative days.
- LegacyScheduler.LegacyNextWeekly: requires a listed weekday in 1..6; with only 7 listed, the loop never stops (`LegacyScheduler.SundayContrast`).
- LegacyScheduler.LegacyNextMonthly: says nothing about the returned date when it panics, since Go returns nothing then.
- TaskDates.CheckDate: requires `Returns` for the task's rule, so that `NextDate` stops.
