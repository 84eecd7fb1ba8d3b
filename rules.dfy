/**
 * What both revisions of the recurrence engine share: the four rule letters,
 * the parsed-rule record and the errors the parser and calculator report.
 */
module Rules {

  const WEEKDAY: string := "w"
  const DAY: string := "d"
  const MONTH: string := "m"
  const YEAR: string := "y"

  /** `repeatTypes`, in the source's order. */
  const RepeatTypes: seq<string> := [WEEKDAY, DAY, MONTH, YEAR]

  /**
   * `Parsed`: the rule letter, the day numbers (the interval for `d`, the
   * weekdays for `w`, the days of the month for `m`) and the month numbers.
   */
  datatype Parsed = Parsed(rType: string, days: seq<int>, months: seq<int>)

  /** The errors of `NextDate` and `parseRepeat`, one per distinct message. */
  datatype Error =
    | InvalidDate                // time.Parse rejected the start date
    | RepeatEmpty                // "repeat is empty"
    | InvalidRepeatType          // "invalid repeat type"
    | InvalidDayParams           // "invalid day repeat params"
    | InvalidYearParams          // "invalid year repeat params"
    | InvalidWeekdayParams       // "invalid weekday repeat params"
    | InvalidMonthParams         // "invalid month repeat params"
    | SyntaxError(text: string)  // strconv.Atoi could not read `text`
}
