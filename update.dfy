/** repeattask/update.go: advancing a task's date when it is marked done. */
module Update {
  import opened Results
  import opened GoStrings
  import opened GoTime
  import opened Helpers
  import opened Repeat

  /** UpdateDate, with `now` (today at midnight) as a parameter: the rule's
      first character picks the rule; a weekly rule gives its first, that is
      earliest, date; any other letter, the monthly one included, gives the
      empty string and no error. */
  function UpdateDate(now: Date, date: string, repeat: string): Result<string>
    requires |repeat| >= 1
  {
    match repeat[0]
    case 'd' =>
      RemoveAllFirst(repeat, ' ');
      NextDaily(now, date, repeat)
    case 'y' => RepeatY(now, date, repeat)
    case 'w' =>
      RemoveAllFirst(repeat, ' ');
      WeeklyOutcome(now, date, repeat);
      (match NextWeekly(now, date, repeat)
       case Err(e) => Err(e)
       case Ok(next) => Ok(next[0]))
    case _ => Ok("")
  }

  /** The daily and yearly rules pass their result and error through
      unchanged; a letter other than d, y and w leaves the date alone. */
  lemma UpdateDateDispatch(now: Date, date: string, repeat: string)
    requires |repeat| >= 1
    ensures repeat[0] == 'd' ==>
      RemoveAll(repeat, ' ') != "" && UpdateDate(now, date, repeat) == NextDaily(now, date, repeat)
    ensures repeat[0] == 'y' ==> UpdateDate(now, date, repeat) == RepeatY(now, date, repeat)
    ensures repeat[0] !in {'d', 'y', 'w'} ==> UpdateDate(now, date, repeat) == Ok("")
  {
    if repeat[0] == 'd' {
      RemoveAllFirst(repeat, ' ');
    }
  }

  /** A weekly rule fails exactly when RepeatW does, with its error, and
      otherwise gives a day after now... */
  lemma UpdateDateWeekly(now: Date, date: string, repeat: string)
    requires |repeat| >= 1 && repeat[0] == 'w'
    ensures RemoveAll(repeat, ' ') != ""
    ensures UpdateDate(now, date, repeat).Err? <==> NextWeekly(now, date, repeat).Err?
    ensures UpdateDate(now, date, repeat).Err? ==>
      UpdateDate(now, date, repeat).msg == NextWeekly(now, date, repeat).msg
    ensures UpdateDate(now, date, repeat).Ok? ==>
      NotBefore(UpdateDate(now, date, repeat).value, now + 1)
  {
    RemoveAllFirst(repeat, ' ');
    WeeklyOutcome(now, date, repeat);
    if NextWeekly(now, date, repeat).Ok? {
      var next := NextWeekly(now, date, repeat).value;
      assert UpdateDate(now, date, repeat) == Ok(next[0]);
      WeeklyAfterNow(now, date, repeat);
      assert NotBefore(next[0], now + 1);
    }
  }

  /** ... the earliest of its dates. */
  lemma UpdateDateWeeklyEarliest(now: Date, date: string, repeat: string)
    requires |repeat| >= 1 && repeat[0] == 'w' && RemoveAll(repeat, ' ') != ""
    requires Parse(Layout, date).Some? && AllWeekdays(WeekdayTokens(repeat))
    requires Reference(Parse(Layout, date).value, now) + 7 < YearStart(10000)
    ensures UpdateDate(now, date, repeat)
      == Ok(Format(Layout, Earliest(WeeklyDue(WeekdayTokens(repeat), Reference(Parse(Layout, date).value, now)))))
  {
    WeeklyFirstIsEarliest(now, date, repeat);
  }

  /** A daily rule that checks out moves the date to the anchor's first
      step not before now (DailyDueBounds says it is a whole number of
      intervals after the anchor). */
  lemma UpdateDateDaily(now: Date, date: string, repeat: string)
    requires |repeat| >= 1 && repeat[0] == 'd'
    requires UpdateDate(now, date, repeat).Ok?
    ensures Parse(Layout, date).Some?
    ensures RemoveAll(repeat, ' ') != "" && DailyInterval(repeat).Ok?
    ensures UpdateDate(now, date, repeat).value
      == Format(Layout, DailyDue(Parse(Layout, date).value, DailyInterval(repeat).value, now))
    ensures DailyDue(Parse(Layout, date).value, DailyInterval(repeat).value, now) >= now
  {
    UpdateDateDispatch(now, date, repeat);
    assert NextDaily(now, date, repeat).Ok?;
    DailyDueBounds(Parse(Layout, date).value, DailyInterval(repeat).value, now);
  }
}
