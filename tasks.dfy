/** db/types.go: the task record and NewTask, which checks a task about to
    be stored and fixes its first due date. */
module Tasks {
  import opened Results
  import opened GoStrings
  import opened GoTime
  import opened Helpers
  import opened Repeat
  import opened Update

  /** A stored task; every field is the text the JSON API carries. */
  datatype Task = Task(id: string, date: string, title: string, comment: string, repeat: string)

  /** Go's zero Task: every field empty. */
  const ZeroTask: Task := Task("", "", "", "", "")

  /** The rule letters NewTask accepts. */
  const Mapping: map<char, bool> := map['d' := true, 'y' := true, 'w' := true, 'm' := true]

  /** Indexing a Go map yields false for a missing key. */
  predicate Known(c: char)
  {
    c in Mapping && Mapping[c]
  }

  lemma KnownLetters(c: char)
    ensures Known(c) <==> c in {'d', 'y', 'w', 'm'}
  {
  }

  /** NewTask, with `now` (today at midnight) as a parameter. The checks run in
      the source's order: the rule letter, the title, an empty date, the date's
      format, then the rule itself. A monthly rule passes the checks and yields
      the zero Task without an error, as the source does. */
  function NewTask(now: Date, date: string, title: string, comment: string, repeat: string): Result<Task>
  {
    if |repeat| != 0 && !Known(repeat[0]) then Err("unknown rule")
    else if title == "" then Err("title should not be empty")
    else if date == "" then Ok(Task("", Format(Layout, now), title, comment, repeat))
    else
      match Parse(Layout, date)
      case None => Err("invalid date")
      case Some(d) =>
        if repeat == "" then
          if !(d < now) then Ok(Task("", date, title, comment, repeat))
          else Ok(Task("", Format(Layout, now), title, comment, repeat))
        else
          match repeat[0]
          case 'd' =>
            RemoveAllFirst(repeat, ' ');
            (match NextDaily(now, date, repeat)
             case Err(e) => Err(e)
             case Ok(next) => Ok(Task("", next, title, comment, repeat)))
          case 'y' =>
            (match RepeatY(now, date, repeat)
             case Err(e) => Err(e)
             case Ok(next) => Ok(Task("", next, title, comment, repeat)))
          case 'w' =>
            RemoveAllFirst(repeat, ' ');
            WeeklyOutcome(now, date, repeat);
            (match NextWeekly(now, date, repeat)
             case Err(e) => Err(e)
             case Ok(next) => Ok(Task("", next[0], title, comment, repeat)))
          case _ => Ok(ZeroTask)
  }

  /** The conditions a task must meet, in terms of the date rules: a known
      rule letter (or none), a title, and a date that is empty or parses and
      that its daily, yearly or weekly rule accepts. */
  ghost predicate Acceptable(now: Date, date: string, title: string, repeat: string)
  {
    && (|repeat| == 0 || Known(repeat[0]))
    && title != ""
    && (date == "" ||
        (Parse(Layout, date).Some? &&
         (|repeat| == 0 || repeat[0] == 'm' || UpdateDate(now, date, repeat).Ok?)))
  }

  /** NewTask succeeds exactly on acceptable input, and its errors are the
      checks' own or those of the date rules. */
  lemma NewTaskAccepts(now: Date, date: string, title: string, comment: string, repeat: string)
    ensures NewTask(now, date, title, comment, repeat).Ok? <==> Acceptable(now, date, title, repeat)
    ensures NewTask(now, date, title, comment, repeat).Err? ==>
      NewTask(now, date, title, comment, repeat).msg in
        {"unknown rule", "title should not be empty", "invalid date",
         "bad day value", "invalid day change", "invalid day"}
  {
    if |repeat| != 0 && Known(repeat[0]) && title != "" && date != "" && Parse(Layout, date).Some? {
      KnownLetters(repeat[0]);
      UpdateDateDispatch(now, date, repeat);
      if repeat[0] == 'w' {
        UpdateDateWeekly(now, date, repeat);
        WeeklyOutcome(now, date, repeat);
      }
    }
  }

  /** The checks come in order: a bad rule letter is reported even when the
      title is empty, and a missing title even when the date is malformed. */
  lemma NewTaskCheckOrder(now: Date, date: string, title: string, comment: string, repeat: string)
    ensures |repeat| != 0 && !Known(repeat[0]) ==>
      NewTask(now, date, title, comment, repeat) == Err("unknown rule")
    ensures (|repeat| == 0 || Known(repeat[0])) && title == "" ==>
      NewTask(now, date, title, comment, repeat) == Err("title should not be empty")
    ensures (|repeat| == 0 || Known(repeat[0])) && title != "" && date != "" && Parse(Layout, date).None? ==>
      NewTask(now, date, title, comment, repeat) == Err("invalid date")
  {
  }

  /** Unless a monthly rule comes with a date, a task NewTask accepts keeps
      its title, comment and rule, and has no id yet. */
  lemma NewTaskKeepsFields(now: Date, date: string, title: string, comment: string, repeat: string)
    requires NewTask(now, date, title, comment, repeat).Ok?
    requires |repeat| == 0 || repeat[0] != 'm' || date == ""
    ensures var task := NewTask(now, date, title, comment, repeat).value;
      task.id == "" && task.title == title && task.comment == comment && task.repeat == repeat
  {
  }

  /** Without a date, a task with a known rule or none and a title is due
      today, and the rule is not evaluated; this holds for a monthly rule too. */
  lemma NewTaskEmptyDate(now: Date, title: string, comment: string, repeat: string)
    requires |repeat| == 0 || Known(repeat[0])
    requires title != ""
    ensures NewTask(now, "", title, comment, repeat) == Ok(Task("", Format(Layout, now), title, comment, repeat))
  {
  }

  /** A monthly rule that passes the checks yields the zero Task. */
  lemma NewTaskMonthly(now: Date, date: string, title: string, comment: string, repeat: string)
    requires |repeat| >= 1 && repeat[0] == 'm'
    requires title != "" && Parse(Layout, date).Some?
    ensures NewTask(now, date, title, comment, repeat) == Ok(ZeroTask)
  {
    ParseLayout(date);
  }

  /** Without a rule the task is due on its own date or today, whichever is
      later; an empty date means today. */
  lemma NewTaskOnce(now: Date, date: string, title: string, comment: string)
    requires title != ""
    requires date == "" || Parse(Layout, date).Some?
    ensures NewTask(now, date, title, comment, "").Ok?
    ensures date == "" ==> NewTask(now, date, title, comment, "").value.date == Format(Layout, now)
    ensures date != "" ==>
      NewTask(now, date, title, comment, "").value.date == Format(Layout, Reference(Parse(Layout, date).value, now))
  {
    if date != "" {
      FormatParse(date);
    }
  }

  /** With a daily or weekly rule, or none, an accepted task is never due
      before today (a weekly one not before tomorrow). */
  lemma NewTaskNotBefore(now: Date, date: string, title: string, comment: string, repeat: string)
    requires NewTask(now, date, title, comment, repeat).Ok?
    requires |repeat| == 0 || repeat[0] in {'d', 'w'}
    ensures NotBefore(NewTask(now, date, title, comment, repeat).value.date, now)
    ensures |repeat| >= 1 && repeat[0] == 'w' && date != "" ==>
      NotBefore(NewTask(now, date, title, comment, repeat).value.date, now + 1)
  {
    var task := NewTask(now, date, title, comment, repeat).value;
    if date == "" {
      assert task.date == Format(Layout, now);
    } else if |repeat| == 0 {
      NewTaskOnce(now, date, title, comment);
      assert task.date == Format(Layout, Reference(Parse(Layout, date).value, now));
    } else if repeat[0] == 'd' {
      UpdateDateDispatch(now, date, repeat);
      assert UpdateDate(now, date, repeat) == Ok(task.date);
      UpdateDateDaily(now, date, repeat);
    } else {
      UpdateDateWeekly(now, date, repeat);
      assert UpdateDate(now, date, repeat) == Ok(task.date);
      var d :| d >= now + 1 && task.date == Format(Layout, d);
      assert d >= now;
    }
  }

  /** For a daily, yearly or weekly rule and a given date, the due date
      NewTask stores is the one UpdateDate computes when the task is done. */
  lemma NewTaskAgreesWithUpdate(now: Date, date: string, title: string, comment: string, repeat: string)
    requires NewTask(now, date, title, comment, repeat).Ok?
    requires |repeat| >= 1 && repeat[0] in {'d', 'y', 'w'} && date != ""
    ensures UpdateDate(now, date, repeat) == Ok(NewTask(now, date, title, comment, repeat).value.date)
  {
    UpdateDateDispatch(now, date, repeat);
    if repeat[0] == 'w' {
      UpdateDateWeekly(now, date, repeat);
    }
  }
}
