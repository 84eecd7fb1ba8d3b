/**
 * `checkDate` (pkg/api/add_ask.go): the date policy applied to a task before
 * it is stored. An empty date becomes today; a date that does not parse is
 * an error; a non-empty repeat rule is evaluated, and its error returned,
 * whatever the date; a date before today, compared as text, becomes today
 * without a rule and the rule's next date with one. Today is the clock's
 * date, passed in as `now`.
 */
module TaskDates {
  import opened Outcomes
  import opened Calendar
  import opened Rules
  import opened Parser
  import opened DateFormat
  import opened Scheduler

  /** `db.Task`: the record a handler fills from the request and stores. */
  class Task {
    var id: string
    var date: string
    var title: string
    var comment: string
    var repeat: string

    constructor (id: string, date: string, title: string, comment: string, repeat: string)
      ensures this.id == id && this.date == date && this.title == title
      ensures this.comment == comment && this.repeat == repeat
    {
      this.id := id;
      this.date := date;
      this.title := title;
      this.comment := comment;
      this.repeat := repeat;
    }
  }

  /** What `checkDate` leaves in the date field, and the error it returns. */
  datatype Checked = Checked(date: string, error: Option<Error>)

  /** The date field once an empty one has been set to today. */
  function Defaulted(date: string, now: Date): string {
    if date == "" then Format(now) else date
  }

  /** What `checkDate` does to a task with this date and rule on the day `now`. */
  function CheckDateOf(date: string, repeat: string, now: Date): Checked {
    var today := Format(now);
    var d := Defaulted(date, now);
    if ParseDate(d).None? then Checked(d, Some(InvalidDate))
    else if repeat != "" && NextDateOf(now, d, repeat).Err? then Checked(d, Some(NextDateOf(now, d, repeat).error))
    else if StrLess(d, today) then Checked(if repeat == "" then today else NextDateOf(now, d, repeat).value, None)
    else Checked(d, None)
  }

  // ---------------------------------------------------------------------
  // What the policy guarantees

  /**
   * The date error is reported exactly when the (defaulted) date does not
   * parse; an empty date is today's, which always parses.
   */
  lemma CheckDateInvalid(date: string, repeat: string, now: Date)
    ensures CheckDateOf(date, repeat, now).error == Some(InvalidDate) <==> ParseDate(Defaulted(date, now)).None?
    ensures Valid(now) && now.year < 10000 ==> ParseDate(Defaulted("", now)) == Some(now)
  {
    NextDateErrors(now, Defaulted(date, now), repeat);
    if Valid(now) && now.year < 10000 {
      ParseFormat(now);
    }
  }

  /**
   * With a date that parses and a non-empty rule, the rule is checked
   * whether or not the date is in the past: the call fails exactly when the
   * rule does not parse, with the parser's error.
   */
  lemma CheckDateRuleErrors(date: string, repeat: string, now: Date)
    requires ParseDate(Defaulted(date, now)).Some? && repeat != ""
    ensures CheckDateOf(date, repeat, now).error.Some? <==> Parse(repeat).Err?
    ensures Parse(repeat).Err? ==> CheckDateOf(date, repeat, now) == Checked(Defaulted(date, now), Some(Parse(repeat).error))
  {
    NextDateErrors(now, Defaulted(date, now), repeat);
  }

  /** A past date without a rule becomes today. */
  lemma CheckDatePastPlain(date: string, now: Date)
    requires ParseDate(Defaulted(date, now)).Some? && StrLess(Defaulted(date, now), Format(now))
    ensures CheckDateOf(date, "", now) == Checked(Format(now), None)
  {
  }

  /**
   * A past date with a rule that parses becomes the rule's next date, which
   * is a real date strictly after today, and later than today as text.
   */
  lemma CheckDatePastRepeat(date: string, repeat: string, now: Date)
    requires Valid(now) && now.year < 10000 && repeat != "" && Parse(repeat).Ok?
    requires ParseDate(Defaulted(date, now)).Some? && Returns(Defaulted(date, now), repeat)
    requires StrLess(Defaulted(date, now), Format(now))
    ensures CheckDateOf(date, repeat, now).error == None
    ensures CheckDateOf(date, repeat, now).date == NextDateOf(now, Defaulted(date, now), repeat).value
    ensures exists x :: Valid(x) && After(x, now) && CheckDateOf(date, repeat, now).date == Format(x)
    ensures ParseDate(CheckDateOf(date, repeat, now).date).Some?
            ==> StrLess(Format(now), CheckDateOf(date, repeat, now).date)
  {
    var d := Defaulted(date, now);
    NextDateErrors(now, d, repeat);
    NextDateIsLater(now, d, repeat);
  }

  /** A date on or after today is kept when the rule, if any, parses. */
  lemma CheckDateKeeps(date: string, repeat: string, now: Date)
    requires ParseDate(Defaulted(date, now)).Some? && !StrLess(Defaulted(date, now), Format(now))
    requires repeat == "" || Parse(repeat).Ok?
    ensures CheckDateOf(date, repeat, now) == Checked(Defaulted(date, now), None)
  {
    NextDateErrors(now, Defaulted(date, now), repeat);
  }

  /** After a successful check the date field holds a real date that is not before today. */
  lemma CheckDateNotPast(date: string, repeat: string, now: Date)
    requires Valid(now) && now.year < 10000
    requires repeat != "" ==> Returns(Defaulted(date, now), repeat)
    requires CheckDateOf(date, repeat, now).error == None
    ensures exists x :: Valid(x) && DayNumber(now) <= DayNumber(x) && CheckDateOf(date, repeat, now).date == Format(x)
  {
    var today := Format(now);
    var d := Defaulted(date, now);
    var r := CheckDateOf(date, repeat, now).date;
    FormatParse(d);
    var start := ParseDate(d).value;
    if StrLess(d, today) {
      if repeat == "" {
        assert Valid(now) && r == Format(now);
      } else {
        NextDateErrors(now, d, repeat);
        NextDateIsLater(now, d, repeat);
      }
    } else {
      FormatLess(start, now);
      assert Valid(start) && r == Format(start);
    }
  }

  // ---------------------------------------------------------------------
  // The source's control flow

  /**
   * `checkDate(task)`: default the date, check it, evaluate the rule, and
   * move a past date forward. Only the date field ever changes.
   */
  method CheckDate(task: Task, now: Date) returns (err: Option<Error>)
    requires Valid(now)
    requires task.repeat != "" ==> Returns(Defaulted(task.date, now), task.repeat)
    modifies task
    ensures task.date == CheckDateOf(old(task.date), old(task.repeat), now).date
    ensures err == CheckDateOf(old(task.date), old(task.repeat), now).error
    ensures task.id == old(task.id) && task.title == old(task.title)
    ensures task.comment == old(task.comment) && task.repeat == old(task.repeat)
  {
    var today := Format(now);
    if task.date == "" {
      task.date := today;
    }
    if ParseDate(task.date).None? {
      return Some(InvalidDate);
    }
    var next := "";
    if task.repeat != "" {
      var r := NextDate(now, task.date, task.repeat);
      if r.Err? {
        return Some(r.error);
      }
      next := r.value;
    }
    if StrLess(task.date, today) {
      if task.repeat == "" {
        task.date := today;
      } else {
        task.date := next;
      }
    }
    return None;
  }
}
