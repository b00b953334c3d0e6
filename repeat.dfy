/** repeattask/repeat.go: the four recurrence rules. A rule reads the task's
    date (its anchor) in Layout, validates the rule string and computes when
    the task is next due, relative to `now`, today at midnight. */
module Repeat {
  import opened Results
  import opened GoStrings
  import opened GoTime
  import opened Helpers
  import opened Steps

  // ---------------------------------------------------------------------
  // lastDayOfMonth
  // ---------------------------------------------------------------------

  /** lastDayOfMonth(t): the day before the first of the next month, read
      back as a day of month, is the length of t's month. */
  function LastDayOfMonth(t: Date): (n: int)
    ensures n == DaysIn(Year(t), Month(t))
    ensures 28 <= n <= 31
  {
    var first := GoDate(Year(t), Month(t), 1);
    var last := AddDate(first, 0, 1, -1);
    MonthEnd(Year(t), Month(t), first, last);
    Day(last)
  }

  /** The day before the first of the next month is the month's last day. */
  lemma MonthEnd(year: int, month: int, first: Date, last: Date)
    requires 1 <= month <= 12
    requires first == GoDate(year, month, 1) && last == AddDate(first, 0, 1, -1)
    ensures Day(last) == DaysIn(year, month)
  {
    CivilOfGoDate(Civil(year, month, 1), first);
    NextMonthDayZero(year, month, first, last);
    CivilOfDayZero(year, month, 0, last);
  }

  /** Adding a month and subtracting a day from the first of a month gives
      day 0 of the next month. */
  lemma NextMonthDayZero(year: int, month: int, first: Date, last: Date)
    requires 1 <= month <= 12 && CivilOf(first) == Civil(year, month, 1)
    requires last == AddDate(first, 0, 1, -1)
    ensures last == GoDate(year, month + 1, -0)
  {
  }

  // ---------------------------------------------------------------------
  // Daily rule: "d <n>"
  // ---------------------------------------------------------------------

  /** When a daily task anchored at `t` with interval `days` is next due. */
  function DailyDue(t: Date, days: int, now: Date): Date
    requires days >= 1
  {
    if t == now && days == 1 then now else Advance(t + days, days, now)
  }

  /** The next due date is not before now and lies a whole number of
      intervals after the anchor; it is strictly after the anchor except that
      a task due every day and anchored today stays today. */
  lemma DailyDueBounds(t: Date, days: int, now: Date)
    requires days >= 1
    ensures DailyDue(t, days, now) >= now
    ensures (DailyDue(t, days, now) - t) % days == 0
    ensures DailyDue(t, days, now) > t <==> !(t == now && days == 1)
    ensures DailyDue(t, days, now) - days == t || DailyDue(t, days, now) - days < now
  {
    if !(t == now && days == 1) {
      var r := Advance(t + days, days, now);
      AdvanceMultiple(t + days, days, now);
      ModStep(r - (t + days), days);
      assert (r - (t + days)) + days == r - t;
    }
  }

  /** ... and it is the earliest such date after the anchor. */
  lemma DailyDueLeast(t: Date, days: int, now: Date, k: nat)
    requires days >= 1 && k >= 1 && t + k * days >= now
    ensures DailyDue(t, days, now) <= t + k * days
  {
    if !(t == now && days == 1) {
      assert (t + days) + (k - 1) * days == t + k * days;
      AdvanceLeast(t + days, days, now, k - 1);
    }
  }

  /** The interval of a daily rule: the text after the rule letter, spaces
      removed, as a decimal integer in 1..400. */
  function DailyInterval(repeat: string): (r: Result<int>)
    requires RemoveAll(repeat, ' ') != ""
    ensures r.Ok? ==> 1 <= r.value <= 400
    ensures r.Err? ==> r.msg == "bad day value" || r.msg == "invalid day change"
  {
    match Atoi(RemoveAll(repeat, ' ')[1..])
    case None => Err("bad day value")
    case Some(days) =>
      if days < 1 || days > 400 then Err("invalid day change") else Ok(days)
  }

  /** A daily rule "d" followed by the decimal spelling of an integer is
      accepted exactly for 1..400, with that interval; any other integer is
      an invalid day change. */
  lemma DailyIntervalSigned(n: int)
    requires MinInt64 <= n <= MaxInt64
    ensures RemoveAll("d" + Signed(n), ' ') != ""
    ensures DailyInterval("d" + Signed(n)).Ok? <==> 1 <= n <= 400
    ensures DailyInterval("d" + Signed(n)).Ok? ==> DailyInterval("d" + Signed(n)).value == n
    ensures DailyInterval("d" + Signed(n)).Err? ==> DailyInterval("d" + Signed(n)).msg == "invalid day change"
  {
    var s := "d" + Signed(n);
    SignedHasNoSpace(n);
    assert ' ' !in s by {
      forall i | 0 <= i < |s|
        ensures s[i] != ' '
      {
        if i > 0 {
          assert s[i] == Signed(n)[i - 1];
        }
      }
    }
    assert s[1..] == Signed(n);
    AtoiSigned(n);
  }

  /** For any text after the letter: "bad day value" exactly when it is not
      an integer text within the 64-bit range, and otherwise an interval
      exactly when its integer lies in 1..400. */
  lemma DailyIntervalText(repeat: string)
    requires RemoveAll(repeat, ' ') != ""
    ensures var text := RemoveAll(repeat, ' ')[1..];
      && (DailyInterval(repeat) == Err("bad day value")
          <==> !(IsIntegerText(text) && MinInt64 <= IntegerValue(text) <= MaxInt64))
      && (DailyInterval(repeat).Ok? <==> IsIntegerText(text) && 1 <= IntegerValue(text) <= 400)
      && (DailyInterval(repeat).Ok? ==> DailyInterval(repeat).value == IntegerValue(text))
  {
  }

  /** RepeatD: the next due date of a daily task, in Layout. The anchor is
      checked before the rule. */
  function NextDaily(now: Date, date: string, repeat: string): (r: Result<string>)
    requires Parse(Layout, date).Some? ==> RemoveAll(repeat, ' ') != ""
  {
    match Parse(Layout, date)
    case None => Err("invalid date")
    case Some(t) =>
      match DailyInterval(repeat)
      case Err(e) => Err(e)
      case Ok(days) => Ok(Format(Layout, DailyDue(t, days, now)))
  }

  /** RepeatD, stepping the anchor forward one interval at a time. */
  method RepeatD(now: Date, date: string, repeat: string) returns (r: Result<string>)
    requires Parse(Layout, date).Some? ==> RemoveAll(repeat, ' ') != ""
    ensures r == NextDaily(now, date, repeat)
  {
    var parsed := Parse(Layout, date);
    if parsed.None? {
      return Err("invalid date");
    }
    var t := parsed.value;
    var interval := DailyInterval(repeat);
    if interval.Err? {
      return Err(interval.msg);
    }
    NextDailyOk(now, date, repeat);
    var due := DailyDay(now, t, interval.value);
    return Ok(Format(Layout, due));
  }

  /** The tail of RepeatD once the anchor and the interval are known: the
      day it formats. */
  method DailyDay(now: Date, t: Date, days: int) returns (due: Date)
    requires days >= 1
    ensures due == DailyDue(t, days, now)
  {
    if t == now && days == 1 {
      return now;
    }
    due := AddDays(t, days);
    due := StepUntil(due, days, now);
  }

  lemma NextDailyOk(now: Date, date: string, repeat: string)
    requires Parse(Layout, date).Some? && RemoveAll(repeat, ' ') != "" && DailyInterval(repeat).Ok?
    ensures NextDaily(now, date, repeat)
      == Ok(Format(Layout, DailyDue(Parse(Layout, date).value, DailyInterval(repeat).value, now)))
  {
  }

  /** The loop of RepeatD: add the interval while the date is before now. */
  method StepUntil(t0: Date, days: int, now: Date) returns (t: Date)
    requires days >= 1
    ensures t == Advance(t0, days, now)
  {
    t := t0;
    while t < now
      invariant Advance(t, days, now) == Advance(t0, days, now)
      decreases now - t
    {
      AdvanceStep(t, days, now);
      t := AddDays(t, days);
    }
  }

  /** t.AddDate(0, 0, days). */
  method AddDays(t: Date, days: int) returns (u: Date)
    ensures u == t + days
  {
    AddDateDays(t, days);
    u := AddDate(t, 0, 0, days);
  }

  // ---------------------------------------------------------------------
  // Yearly rule: "y"
  // ---------------------------------------------------------------------

  /** Month and day of `c` carried into `year`, with February 29 becoming
      March 1 in a common year. */
  function Anniversary(c: Civil, year: int): Civil
  {
    if Valid(Civil(year, c.month, c.day)) then Civil(year, c.month, c.day)
    else Civil(year, 3, 1)
  }

  /** time.Date(year, month, day) on the month and day of a real calendar
      day is their anniversary in `year`. */
  lemma AnniversaryOf(c: Civil, year: int, u: Date)
    requires Valid(c) && u == GoDate(year, c.month, c.day)
    ensures CivilOf(u) == Anniversary(c, year)
  {
    if Valid(Civil(year, c.month, c.day)) {
      CivilOfGoDate(Civil(year, c.month, c.day), u);
    } else {
      assert c.month == 2 && c.day == 29;
      GoDateInYear(year, 2, 29);
      GoDateInYear(year, 3, 1);
      MonthStartStep(year, 2);
      CivilOfGoDate(Civil(year, 3, 1), u);
    }
  }

  /** t.AddDate(years, 0, 0) lands on the anniversary of t in the target year. */
  lemma AddYears(t: Date, years: int)
    ensures CivilOf(AddDate(t, years, 0, 0)) == Anniversary(CivilOf(t), Year(t) + years)
  {
    AnniversaryOf(CivilOf(t), Year(t) + years, AddDate(t, years, 0, 0));
  }

  /** When a yearly task anchored at `t` is next due. */
  function YearlyDue(t: Date, now: Date): Date
  {
    var next := AddDate(t, 1, 0, 0);
    if next < now then AddDate(t, Year(now) - Year(t), 0, 0) else next
  }

  /** The next yearly date is after the anchor. It is the anniversary in the
      next year unless that is before now; then it is the anniversary in
      now's year, which may itself still be before now. */
  lemma YearlyDueProperties(t: Date, now: Date)
    ensures YearlyDue(t, now) > t
    ensures AddDate(t, 1, 0, 0) >= now ==>
      CivilOf(YearlyDue(t, now)) == Anniversary(CivilOf(t), Year(t) + 1)
    ensures AddDate(t, 1, 0, 0) < now ==>
      Year(now) > Year(t) && CivilOf(YearlyDue(t, now)) == Anniversary(CivilOf(t), Year(now))
  {
    var next := AddDate(t, 1, 0, 0);
    AddYears(t, 1);
    AddYears(t, Year(now) - Year(t));
    DateOrderIsCalendarOrder(t, next);
    if next < now {
      DateOrderIsCalendarOrder(now, next);
      DateOrderIsCalendarOrder(t, YearlyDue(t, now));
    }
  }

  /** RepeatY: the rule text after the letter is ignored; only an anchor that
      does not parse is an error. */
  function RepeatY(now: Date, date: string, repeat: string): (r: Result<string>)
    ensures r.Err? <==> Parse(Layout, date).None?
    ensures r.Err? ==> r.msg == "invalid date"
    ensures r.Ok? ==> r.value == Format(Layout, YearlyDue(Parse(Layout, date).value, now))
  {
    match Parse(Layout, date)
    case None => Err("invalid date")
    case Some(t) => Ok(Format(Layout, YearlyDue(t, now)))
  }

  // ---------------------------------------------------------------------
  // Token lists
  // ---------------------------------------------------------------------

  /** Every token of a rule passes `check`. */
  predicate AllValid(tokens: seq<string>, check: string -> Result<int>)
  {
    forall i :: 0 <= i < |tokens| ==> check(tokens[i]).Ok?
  }

  lemma AllValidCons(tokens: seq<string>, check: string -> Result<int>)
    requires tokens != []
    ensures AllValid(tokens, check) <==> check(tokens[0]).Ok? && AllValid(tokens[1..], check)
  {
    var rest := tokens[1..];
    if check(tokens[0]).Ok? && AllValid(rest, check) {
      forall i | 0 <= i < |tokens| ensures check(tokens[i]).Ok? {
        if i > 0 {
          assert tokens[i] == rest[i - 1];
        }
      }
    }
  }

  /** The position of the first token that fails `check`. */
  lemma FirstInvalid(tokens: seq<string>, check: string -> Result<int>) returns (j: int)
    requires !AllValid(tokens, check)
    ensures 0 <= j < |tokens| && check(tokens[j]).Err?
    ensures forall i :: 0 <= i < j ==> check(tokens[i]).Ok?
  {
    j := 0;
    while check(tokens[j]).Ok?
      invariant 0 <= j < |tokens|
      invariant forall i :: 0 <= i < j ==> check(tokens[i]).Ok?
      decreases |tokens| - j
    {
      j := j + 1;
    }
  }

  // ---------------------------------------------------------------------
  // Weekly rule: "w <days>"
  // ---------------------------------------------------------------------

  /** The day a weekly rule counts from: the later of the anchor and now. */
  function Reference(t: Date, now: Date): (ref: Date)
    ensures ref >= t && ref >= now
    ensures ref == t || ref == now
  {
    if t < now then now else t
  }

  /** The weekday tokens of a weekly rule: the text after the letter, spaces
      removed, cut at the commas. There is always at least one. */
  function WeekdayTokens(repeat: string): (tokens: seq<string>)
    requires RemoveAll(repeat, ' ') != ""
    ensures |tokens| >= 1
  {
    Split(RemoveAll(repeat, ' ')[1..], ',')
  }

  /** A weekday token: an integer from 1 (Monday) to 7 (Sunday). */
  function WeekdayOf(token: string): (r: Result<int>)
    ensures r.Ok? ==> 1 <= r.value <= 7
    ensures r.Err? ==> r.msg == "bad day value" || r.msg == "invalid day"
  {
    match Atoi(token)
    case None => Err("bad day value")
    case Some(day) => if day < 1 || day > 7 then Err("invalid day") else Ok(day)
  }

  /** A day after `ref`, at most a week later, that falls on weekday `day`;
      7 stands for Sunday, weekday 0. */
  function NextWeekday(ref: Date, day: int): (d: Date)
    requires 1 <= day <= 7
    ensures ref < d <= ref + 7
    ensures Weekday(d) == day % 7
  {
    var k := day - Weekday(ref);
    if k > 0 then ref + k else ref + k + 7
  }

  /** No earlier day after `ref` falls on that weekday. */
  lemma NextWeekdayIsFirst(ref: Date, day: int, e: Date)
    requires 1 <= day <= 7 && ref < e && Weekday(e) == day % 7
    ensures NextWeekday(ref, day) <= e
  {
  }

  /** The loop of RepeatW from some token on: the dates collected in `next`
      so far, extended by one date per remaining token, or the error of the
      first bad token. */
  function WeeklyScan(tokens: seq<string>, ref: Date, next: seq<string>): Result<seq<string>>
    decreases |tokens|
  {
    if tokens == [] then Ok(next)
    else
      match WeekdayOf(tokens[0])
      case Err(e) => Err(e)
      case Ok(day) => WeeklyScan(tokens[1..], ref, next + [Format(Layout, NextWeekday(ref, day))])
  }

  predicate AllWeekdays(tokens: seq<string>)
  {
    AllValid(tokens, WeekdayOf)
  }

  /** The due days of valid weekday tokens, one per token, in token order:
      each within the week after `ref` and on the token's weekday. */
  function WeeklyDue(tokens: seq<string>, ref: Date): (dates: seq<Date>)
    requires AllWeekdays(tokens)
    ensures |dates| == |tokens|
    ensures forall i :: 0 <= i < |tokens| ==>
      ref < dates[i] <= ref + 7 && Weekday(dates[i]) == WeekdayOf(tokens[i]).value % 7
  {
    seq(|tokens|, i requires 0 <= i < |tokens| => NextWeekday(ref, WeekdayOf(tokens[i]).value))
  }

  /** The days written in Layout, in order. */
  function FormatAll(dates: seq<Date>): (fs: seq<string>)
    ensures |fs| == |dates|
  {
    if dates == [] then [] else [Format(Layout, dates[0])] + FormatAll(dates[1..])
  }

  lemma {:induction false} FormatAllAt(dates: seq<Date>, k: int)
    requires 0 <= k < |dates|
    ensures FormatAll(dates)[k] == Format(Layout, dates[k])
  {
    if k > 0 {
      FormatAllAt(dates[1..], k - 1);
      assert dates[1..][k - 1] == dates[k];
    }
  }

  /** The scan succeeds exactly when every token names a weekday ... */
  lemma {:induction false} WeeklyScanOk(tokens: seq<string>, ref: Date, next: seq<string>)
    ensures WeeklyScan(tokens, ref, next).Ok? <==> AllWeekdays(tokens)
  {
    if tokens != [] {
      AllValidCons(tokens, WeekdayOf);
      if WeekdayOf(tokens[0]).Ok? {
        WeeklyScanOk(tokens[1..], ref, next + [Format(Layout, NextWeekday(ref, WeekdayOf(tokens[0]).value))]);
      }
    }
  }

  /** ... and then appends the formatted due days in token order. */
  lemma {:induction false} WeeklyScanValue(tokens: seq<string>, ref: Date, next: seq<string>)
    requires AllWeekdays(tokens)
    ensures WeeklyScan(tokens, ref, next) == Ok(next + FormatAll(WeeklyDue(tokens, ref)))
  {
    if tokens == [] {
      assert next + [] == next;
    } else {
      AllValidCons(tokens, WeekdayOf);
      var first := Format(Layout, NextWeekday(ref, WeekdayOf(tokens[0]).value));
      WeeklyScanValue(tokens[1..], ref, next + [first]);
      WeeklyScanCons(tokens, ref, next);
    }
  }

  lemma WeeklyScanCons(tokens: seq<string>, ref: Date, next: seq<string>)
    requires tokens != [] && AllWeekdays(tokens)
    requires var first := Format(Layout, NextWeekday(ref, WeekdayOf(tokens[0]).value));
      AllWeekdays(tokens[1..]) &&
      WeeklyScan(tokens[1..], ref, next + [first])
      == Ok((next + [first]) + FormatAll(WeeklyDue(tokens[1..], ref)))
    ensures WeeklyScan(tokens, ref, next) == Ok(next + FormatAll(WeeklyDue(tokens, ref)))
  {
    var first := Format(Layout, NextWeekday(ref, WeekdayOf(tokens[0]).value));
    WeeklyScanUnfold(tokens, ref, next);
    WeeklyDueCons(tokens, ref);
    AppendAssoc(next, [first], FormatAll(WeeklyDue(tokens[1..], ref)));
  }

  lemma WeeklyScanUnfold(tokens: seq<string>, ref: Date, next: seq<string>)
    requires tokens != [] && WeekdayOf(tokens[0]).Ok?
    ensures WeeklyScan(tokens, ref, next)
      == WeeklyScan(tokens[1..], ref, next + [Format(Layout, NextWeekday(ref, WeekdayOf(tokens[0]).value))])
  {
  }

  /** One step of the scan. */
  lemma WeeklyScanStep(tokens: seq<string>, i: int, ref: Date, next: seq<string>)
    requires 0 <= i < |tokens|
    ensures WeekdayOf(tokens[i]).Err? ==>
      WeeklyScan(tokens[i..], ref, next) == Err(WeekdayOf(tokens[i]).msg)
    ensures WeekdayOf(tokens[i]).Ok? ==>
      WeeklyScan(tokens[i..], ref, next)
      == WeeklyScan(tokens[i + 1..], ref, next + [Format(Layout, NextWeekday(ref, WeekdayOf(tokens[i]).value))])
  {
    assert tokens[i..][0] == tokens[i] && tokens[i..][1..] == tokens[i + 1..];
  }

  lemma WeeklyDueCons(tokens: seq<string>, ref: Date)
    requires tokens != [] && AllWeekdays(tokens)
    ensures AllWeekdays(tokens[1..])
    ensures FormatAll(WeeklyDue(tokens, ref))
      == [Format(Layout, NextWeekday(ref, WeekdayOf(tokens[0]).value))] + FormatAll(WeeklyDue(tokens[1..], ref))
  {
    AllValidCons(tokens, WeekdayOf);
    var dates, rest := WeeklyDue(tokens, ref), WeeklyDue(tokens[1..], ref);
    forall i | 0 <= i < |rest| ensures rest[i] == dates[i + 1] {
      assert tokens[1..][i] == tokens[i + 1];
    }
    assert rest == dates[1..];
  }


  /** The error is that of the first token that does not name a weekday. */
  lemma {:induction false} WeeklyScanError(tokens: seq<string>, ref: Date, next: seq<string>, j: int)
    requires 0 <= j < |tokens| && WeekdayOf(tokens[j]).Err?
    requires forall i :: 0 <= i < j ==> WeekdayOf(tokens[i]).Ok?
    ensures WeeklyScan(tokens, ref, next) == Err(WeekdayOf(tokens[j]).msg)
  {
    if j > 0 {
      var rest := tokens[1..];
      assert rest[j - 1] == tokens[j];
      forall i | 0 <= i < j - 1 ensures WeekdayOf(rest[i]).Ok? {
        assert rest[i] == tokens[i + 1];
      }
      WeeklyScanError(rest, ref, next + [Format(Layout, NextWeekday(ref, WeekdayOf(tokens[0]).value))], j - 1);
    }
  }

  /** RepeatW: the due days of a weekly rule, formatted and sorted. The
      anchor is checked first, then the tokens in order. */
  function NextWeekly(now: Date, date: string, repeat: string): Result<seq<string>>
    requires Parse(Layout, date).Some? ==> RemoveAll(repeat, ' ') != ""
  {
    match Parse(Layout, date)
    case None => Err("invalid date")
    case Some(t) =>
      match WeeklyScan(WeekdayTokens(repeat), Reference(t, now), [])
      case Err(e) => Err(e)
      case Ok(next) => Ok(SortStrings(next))
  }

  /** A weekly rule fails on a bad anchor or a bad token, with that error;
      otherwise it gives one date per token, duplicates kept, sorted, and
      these are the formatted due days. */
  lemma WeeklyOutcome(now: Date, date: string, repeat: string)
    requires Parse(Layout, date).Some? ==> RemoveAll(repeat, ' ') != ""
    ensures NextWeekly(now, date, repeat).Ok? <==>
      Parse(Layout, date).Some? && AllWeekdays(WeekdayTokens(repeat))
    ensures NextWeekly(now, date, repeat).Err? ==>
      NextWeekly(now, date, repeat).msg in {"invalid date", "bad day value", "invalid day"}
    ensures NextWeekly(now, date, repeat).Ok? ==>
      var tokens := WeekdayTokens(repeat);
      var dates := WeeklyDue(tokens, Reference(Parse(Layout, date).value, now));
      var next := NextWeekly(now, date, repeat).value;
      && |next| == |tokens| >= 1
      && Sorted(next)
      && multiset(next) == multiset(FormatAll(dates))
  {
    if Parse(Layout, date).Some? {
      var t := Parse(Layout, date).value;
      var tokens := WeekdayTokens(repeat);
      WeeklyScanOk(tokens, Reference(t, now), []);
      if !AllWeekdays(tokens) {
        var j := FirstInvalid(tokens, WeekdayOf);
        WeeklyScanError(tokens, Reference(t, now), [], j);
      } else {
        WeeklyScanValue(tokens, Reference(t, now), []);
        assert [] + FormatAll(WeeklyDue(tokens, Reference(t, now))) == FormatAll(WeeklyDue(tokens, Reference(t, now)));
      }
    }
  }

  /** The earliest of some days. */
  function Earliest(dates: seq<Date>): (m: Date)
    requires |dates| >= 1
    ensures m in dates
    ensures forall i :: 0 <= i < |dates| ==> m <= dates[i]
  {
    if |dates| == 1 then dates[0]
    else
      var rest := Earliest(dates[1..]);
      if dates[0] <= rest then dates[0] else rest
  }

  /** Sorting the formatted days of the years 0..9999 puts the earliest
      first. */
  lemma SortedFirstIsEarliest(dates: seq<Date>)
    requires |dates| >= 1
    requires forall i :: 0 <= i < |dates| ==> InFourDigitYears(dates[i])
    ensures |SortStrings(FormatAll(dates))| >= 1
    ensures SortStrings(FormatAll(dates))[0] == Format(Layout, Earliest(dates))
  {
    var fs := FormatAll(dates);
    var v := SortStrings(fs);
    assert v[0] in multiset(fs);
    var j :| 0 <= j < |fs| && fs[j] == v[0];
    var m := Earliest(dates);
    var k :| 0 <= k < |dates| && dates[k] == m;
    assert fs[k] in multiset(v);
    FormatAllAt(dates, j);
    FormatAllAt(dates, k);
    SortedFirstIsLeast(v, fs[k]);
    FourDigitYears(dates[j]);
    FourDigitYears(dates[k]);
    FormatOrder(dates[j], dates[k]);
    assert dates[j] == m;
  }

  /** The first of the sorted weekly dates is the earliest due day, as long
      as the week after the reference stays within the years 0..9999. */
  lemma WeeklyFirstIsEarliest(now: Date, date: string, repeat: string)
    requires Parse(Layout, date).Some? && RemoveAll(repeat, ' ') != ""
    requires AllWeekdays(WeekdayTokens(repeat))
    requires Reference(Parse(Layout, date).value, now) + 7 < YearStart(10000)
    ensures var ref := Reference(Parse(Layout, date).value, now);
      && NextWeekly(now, date, repeat).Ok?
      && |NextWeekly(now, date, repeat).value| >= 1
      && NextWeekly(now, date, repeat).value[0]
         == Format(Layout, Earliest(WeeklyDue(WeekdayTokens(repeat), ref)))
  {
    var ref := Reference(Parse(Layout, date).value, now);
    ParsedInFourDigitYears(date);
    SortedFirstIsEarliest(WeeklyDue(WeekdayTokens(repeat), ref));
    NextWeeklyValue(now, date, repeat);
  }

  /** With a valid anchor and valid tokens, RepeatW's result is the sorted
      formatted weekly dates. */
  lemma NextWeeklyValue(now: Date, date: string, repeat: string)
    requires Parse(Layout, date).Some? && RemoveAll(repeat, ' ') != ""
    requires AllWeekdays(WeekdayTokens(repeat))
    ensures NextWeekly(now, date, repeat)
      == Ok(SortStrings(FormatAll(WeeklyDue(WeekdayTokens(repeat), Reference(Parse(Layout, date).value, now)))))
  {
    var ref := Reference(Parse(Layout, date).value, now);
    var fs := FormatAll(WeeklyDue(WeekdayTokens(repeat), ref));
    WeeklyScanValue(WeekdayTokens(repeat), ref, []);
    assert [] + fs == fs;
  }

  /** Every weekly date is after now. */
  lemma WeeklyAfterNow(now: Date, date: string, repeat: string)
    requires Parse(Layout, date).Some? && RemoveAll(repeat, ' ') != ""
    requires NextWeekly(now, date, repeat).Ok?
    ensures AllNotBefore(NextWeekly(now, date, repeat).value, now + 1)
  {
    var t := Parse(Layout, date).value;
    var ref := Reference(t, now);
    var tokens := WeekdayTokens(repeat);
    WeeklyOutcome(now, date, repeat);
    var dates := WeeklyDue(tokens, ref);
    var fs := FormatAll(dates);
    forall k | 0 <= k < |fs| ensures NotBefore(fs[k], now + 1) {
      FormatAllAt(dates, k);
    }
    AllNotBeforePermutation(fs, NextWeekly(now, date, repeat).value, now + 1);
  }

  /** RepeatW, appending one date per token and sorting at the end. */
  method RepeatW(now: Date, date: string, repeat: string) returns (r: Result<seq<string>>)
    requires Parse(Layout, date).Some? ==> RemoveAll(repeat, ' ') != ""
    ensures r == NextWeekly(now, date, repeat)
  {
    var parsed := Parse(Layout, date);
    if parsed.None? {
      return Err("invalid date");
    }
    var t := parsed.value;
    var rule := RemoveAll(repeat, ' ');
    var days := Split(rule[1..], ',');
    assert days == WeekdayTokens(repeat);
    ghost var ref := Reference(t, now);
    var next: seq<string> := [];
    var i := 0;
    while i < |days|
      invariant 0 <= i <= |days|
      invariant WeeklyScan(days[i..], ref, next) == WeeklyScan(days, ref, [])
    {
      WeeklyScanStep(days, i, ref, next);
      var day := WeekdayOf(days[i]);
      if day.Err? {
        return Err(day.msg);
      }
      if t < now {
        next := AppendWeekday(next, now, day.value);
      }
      if !(t < now) {
        next := AppendWeekday(next, t, day.value);
      }
      i := i + 1;
    }
    next := SortStrings(next);
    return Ok(next);
  }

  /** One weekday token of RepeatW, counted from `from`: the offset from
      its weekday, moved a week on when it is not positive. */
  method AppendWeekday(next: seq<string>, from: Date, day: int) returns (next': seq<string>)
    requires 1 <= day <= 7
    ensures next' == next + [Format(Layout, NextWeekday(from, day))]
  {
    next' := next;
    if day - Weekday(from) > 0 {
      var d := AddDays(from, day - Weekday(from));
      assert d == NextWeekday(from, day);
      next' := next' + [Format(Layout, d)];
    }
    if day - Weekday(from) <= 0 {
      var d := AddDays(from, day - Weekday(from) + 7);
      assert d == NextWeekday(from, day);
      next' := next' + [Format(Layout, d)];
    }
  }

  // ---------------------------------------------------------------------
  // Monthly rule: "m <days>[ <months>]"
  // ---------------------------------------------------------------------

  /** A day selector: an integer from -2 to 31. The selectors -1 (last day)
      and -2 (second-to-last day) become the day numbers 0 and -1, which
      time.Date counts back from the first of the following month. 0 itself
      passes the check too. */
  function MonthDayOf(token: string): (r: Result<int>)
    ensures r.Ok? ==> -1 <= r.value <= 31
    ensures r.Err? ==> r.msg == "invalid day value" || r.msg == "invalid day"
  {
    match Atoi(token)
    case None => Err("invalid day value")
    case Some(day) =>
      if day > 31 || day < -2 then Err("invalid day")
      else if day == -1 then Ok(0)
      else if day == -2 then Ok(-1)
      else Ok(day)
  }

  /** A month selector: an integer from 0 to 12; 0 passes the check and
      time.Date reads it as December of the year before. */
  function MonthOf(token: string): (r: Result<int>)
    ensures r.Ok? ==> 0 <= r.value <= 12
    ensures r.Err? ==> r.msg == "invalid month value" || r.msg == "invalid month"
  {
    match Atoi(token)
    case None => Err("invalid month value")
    case Some(month) => if month > 12 || month < 0 then Err("invalid month") else Ok(month)
  }

  /** Read back from its decimal spelling, a weekday token is accepted
      exactly in 1..7; any other integer is an invalid day. */
  lemma WeekdayOfSigned(n: int)
    requires MinInt64 <= n <= MaxInt64
    ensures WeekdayOf(Signed(n)).Ok? <==> 1 <= n <= 7
    ensures WeekdayOf(Signed(n)).Ok? ==> WeekdayOf(Signed(n)).value == n
    ensures WeekdayOf(Signed(n)).Err? ==> WeekdayOf(Signed(n)).msg == "invalid day"
  {
    AtoiSigned(n);
  }

  /** A day selector spelled in decimal is accepted exactly in -2..31;
      negative selectors count back from the end of the month, so -1
      selects day number 0 like the selector 0 itself. */
  lemma MonthDayOfSigned(n: int)
    requires MinInt64 <= n <= MaxInt64
    ensures MonthDayOf(Signed(n)).Ok? <==> -2 <= n <= 31
    ensures MonthDayOf(Signed(n)).Ok? ==>
      MonthDayOf(Signed(n)).value == if n < 0 then n + 1 else n
    ensures MonthDayOf(Signed(n)).Err? ==> MonthDayOf(Signed(n)).msg == "invalid day"
  {
    AtoiSigned(n);
  }

  /** A month spelled in decimal is accepted exactly in 0..12. */
  lemma MonthOfSigned(n: int)
    requires MinInt64 <= n <= MaxInt64
    ensures MonthOf(Signed(n)).Ok? <==> 0 <= n <= 12
    ensures MonthOf(Signed(n)).Ok? ==> MonthOf(Signed(n)).value == n
    ensures MonthOf(Signed(n)).Err? ==> MonthOf(Signed(n)).msg == "invalid month"
  {
    AtoiSigned(n);
  }

  /** Any weekday token: "bad day value" exactly when it is not an integer
      text within the 64-bit range, and otherwise a weekday exactly when its
      integer lies in 1..7. */
  lemma WeekdayOfText(token: string)
    ensures WeekdayOf(token) == Err("bad day value")
      <==> !(IsIntegerText(token) && MinInt64 <= IntegerValue(token) <= MaxInt64)
    ensures WeekdayOf(token).Ok? <==> IsIntegerText(token) && 1 <= IntegerValue(token) <= 7
    ensures WeekdayOf(token).Ok? ==> WeekdayOf(token).value == IntegerValue(token)
  {
  }

  /** Any day selector token: "invalid day value" exactly when it is not an
      integer text within the 64-bit range, and otherwise a selector exactly
      when its integer lies in -2..31, negative ones moved up by one. */
  lemma MonthDayOfText(token: string)
    ensures MonthDayOf(token) == Err("invalid day value")
      <==> !(IsIntegerText(token) && MinInt64 <= IntegerValue(token) <= MaxInt64)
    ensures MonthDayOf(token).Ok? <==> IsIntegerText(token) && -2 <= IntegerValue(token) <= 31
    ensures MonthDayOf(token).Ok? ==>
      MonthDayOf(token).value == if IntegerValue(token) < 0 then IntegerValue(token) + 1 else IntegerValue(token)
  {
  }

  /** Any month token: "invalid month value" exactly when it is not an
      integer text within the 64-bit range, and otherwise a month exactly
      when its integer lies in 0..12. */
  lemma MonthOfText(token: string)
    ensures MonthOf(token) == Err("invalid month value")
      <==> !(IsIntegerText(token) && MinInt64 <= IntegerValue(token) <= MaxInt64)
    ensures MonthOf(token).Ok? <==> IsIntegerText(token) && 0 <= IntegerValue(token) <= 12
    ensures MonthOf(token).Ok? ==> MonthOf(token).value == IntegerValue(token)
  {
  }

  predicate AllMonthDays(tokens: seq<string>)
  {
    AllValid(tokens, MonthDayOf)
  }

  predicate AllMonths(tokens: seq<string>)
  {
    AllValid(tokens, MonthOf)
  }

  /** The day that selector `day` picks for a rule counted from `from`:
      none on `from`'s own day of month; the next month's for a smaller
      selector or one past the end of the month (lastDayOfMonth, which is
      DaysIn); this month's otherwise. */
  function MonthlyDate(from: Date, day: int): Option<Date>
  {
    if day < Day(from) then Some(GoDate(Year(from), Month(from) + 1, day))
    else if day > Day(from) then
      if DaysIn(Year(from), Month(from)) < day then Some(GoDate(Year(from), Month(from) + 1, day))
      else Some(GoDate(Year(from), Month(from), day))
    else None
  }

  /** time.Date(year, month + 1, d) counts d days on from the last day of
      `month`. */
  lemma NextMonthOffset(t: Date, d: int, u: Date)
    requires u == GoDate(Year(t), Month(t) + 1, d)
    ensures u == t - Day(t) + DaysIn(Year(t), Month(t)) + d
  {
    GoDateShift(Year(t), Month(t) + 1, d);
    GoDateDayZero(Year(t), Month(t), 0);
  }

  /** time.Date(year, month, d) counts d days on from the day before the
      first of `month`. */
  lemma ThisMonthOffset(t: Date, d: int, u: Date)
    requires u == GoDate(Year(t), Month(t), d)
    ensures u == t - Day(t) + d
  {
    GoDateInYear(Year(t), Month(t), d);
  }

  /** The selected day as an offset: inside the month when the selector is
      past `from`'s day and within the month, otherwise counted on from the
      month's last day. So a positive selector picks a day after `from`, and
      a later month unless it is past `from`'s day and within the month. */
  lemma MonthlyDateOffset(from: Date, day: int)
    ensures MonthlyDate(from, day).None? <==> day == Day(from)
    ensures MonthlyDate(from, day).Some? ==>
      MonthlyDate(from, day).value
      == if Day(from) < day <= DaysIn(Year(from), Month(from)) then from - Day(from) + day
         else from - Day(from) + DaysIn(Year(from), Month(from)) + day
    ensures day >= 1 && day != Day(from) ==> MonthlyDate(from, day).value > from
    ensures day >= 1 && day != Day(from) && !(Day(from) < day <= DaysIn(Year(from), Month(from))) ==>
      MonthlyDate(from, day).value > from - Day(from) + DaysIn(Year(from), Month(from))
  {
    var y, m := Year(from), Month(from);
    if day < Day(from) || (day > Day(from) && LastDayOfMonth(from) < day) {
      NextMonthOffset(from, day, GoDate(y, m + 1, day));
    } else if day > Day(from) {
      ThisMonthOffset(from, day, GoDate(y, m, day));
    }
  }

  /** Selector -1 picks the last day of `from`'s month and -2 the day before,
      whatever `from`'s day. */
  lemma MonthlyLastDays(from: Date, day: int)
    requires day == 0 || day == -1
    ensures MonthlyDate(from, day).Some?
    ensures CivilOf(MonthlyDate(from, day).value)
      == Civil(Year(from), Month(from), DaysIn(Year(from), Month(from)) + day)
  {
    var u := GoDate(Year(from), Month(from) + 1, day);
    assert MonthlyDate(from, day) == Some(u);
    CivilOfDayZero(Year(from), Month(from), -day, u);
  }

  /** On the last day of its month, selector -1 gives the anchor itself
      back, not a day after it. */
  lemma MonthlyLastDayIsAnchor(from: Date)
    requires Day(from) == DaysIn(Year(from), Month(from))
    ensures MonthlyDate(from, 0) == Some(from)
  {
    NextMonthOffset(from, 0, GoDate(Year(from), Month(from) + 1, 0));
  }

  /** A selector past `from`'s day and within the month picks that day of
      the same month. */
  lemma MonthlySameMonth(from: Date, day: int)
    requires Day(from) < day <= DaysIn(Year(from), Month(from))
    ensures MonthlyDate(from, day).Some?
    ensures CivilOf(MonthlyDate(from, day).value) == Civil(Year(from), Month(from), day)
  {
    CivilOfGoDate(Civil(Year(from), Month(from), day), GoDate(Year(from), Month(from), day));
  }

  /** The dates one selector contributes, formatted. */
  function DayList(d: Option<Date>): seq<string>
  {
    match d
    case None => []
    case Some(u) => [Format(Layout, u)]
  }

  /** The check of every day selector, in order: the first bad one's error. */
  function DayCheck(tokens: seq<string>): (r: Result<seq<string>>)
    ensures r.Ok? <==> AllMonthDays(tokens)
    ensures r.Ok? ==> r.value == []
    ensures r.Err? ==> r.msg == "invalid day value" || r.msg == "invalid day"
    decreases |tokens|
  {
    if tokens == [] then Ok([])
    else
      AllValidCons(tokens, MonthDayOf);
      match MonthDayOf(tokens[0])
      case Err(e) => Err(e)
      case Ok(_) => DayCheck(tokens[1..])
  }

  /** The loop of the rule without a month list from some selector on,
      with the dates appended so far: while the anchor is before now each
      selector is checked and its day, counted from now, appended; those
      dates are dropped at the end. Otherwise the first selector's day,
      counted from the anchor, is returned at once. */
  function DaysOnlyScan(tokens: seq<string>, t: Date, now: Date, next: seq<string>): Result<seq<string>>
    decreases |tokens|
  {
    if tokens == [] then Ok([])
    else
      match MonthDayOf(tokens[0])
      case Err(e) => Err(e)
      case Ok(day) =>
        if t < now then DaysOnlyScan(tokens[1..], t, now, next + DayList(MonthlyDate(now, day)))
        else Ok(SortStrings(next + DayList(MonthlyDate(t, day))))
  }

  lemma DaysOnlyScanStep(tokens: seq<string>, i: int, t: Date, now: Date, next: seq<string>)
    requires 0 <= i < |tokens|
    ensures MonthDayOf(tokens[i]).Err? ==>
      DaysOnlyScan(tokens[i..], t, now, next) == Err(MonthDayOf(tokens[i]).msg)
    ensures MonthDayOf(tokens[i]).Ok? && t < now ==>
      DaysOnlyScan(tokens[i..], t, now, next)
      == DaysOnlyScan(tokens[i + 1..], t, now, next + DayList(MonthlyDate(now, MonthDayOf(tokens[i]).value)))
    ensures MonthDayOf(tokens[i]).Ok? && !(t < now) ==>
      DaysOnlyScan(tokens[i..], t, now, next)
      == Ok(SortStrings(next + DayList(MonthlyDate(t, MonthDayOf(tokens[i]).value))))
  {
    assert tokens[i..][0] == tokens[i] && tokens[i..][1..] == tokens[i + 1..];
  }

  /** With the anchor before now, the rule without a month list checks
      every selector and returns nothing. */
  lemma {:induction false} DaysOnlyBeforeNow(tokens: seq<string>, t: Date, now: Date, next: seq<string>)
    requires t < now
    ensures DaysOnlyScan(tokens, t, now, next) == DayCheck(tokens)
  {
    if tokens != [] && MonthDayOf(tokens[0]).Ok? {
      DaysOnlyBeforeNow(tokens[1..], t, now, next + DayList(MonthlyDate(now, MonthDayOf(tokens[0]).value)));
    }
  }

  /** Otherwise only the first selector is read: it gives its error, or
      the at most one day it picks. */
  lemma DaysOnlyFirstSelector(tokens: seq<string>, t: Date, now: Date)
    requires !(t < now) && tokens != []
    ensures MonthDayOf(tokens[0]).Err? ==>
      DaysOnlyScan(tokens, t, now, []) == Err(MonthDayOf(tokens[0]).msg)
    ensures MonthDayOf(tokens[0]).Ok? ==>
      DaysOnlyScan(tokens, t, now, []) == Ok(DayList(MonthlyDate(t, MonthDayOf(tokens[0]).value)))
  {
    if MonthDayOf(tokens[0]).Ok? {
      var picked := DayList(MonthlyDate(t, MonthDayOf(tokens[0]).value));
      assert [] + picked == picked;
      SortShort(picked);
    }
  }

  /** The loop over the months for one day selector: the running date is
      overwritten with that day of each month in its own year, and a pair
      that falls before now is moved to now's year, or the next one when
      its month has already begun. */
  datatype PairState = PairState(t: Date, next: seq<string>)

  function PairDate(t: Date, month: int, day: int, now: Date): Date
  {
    if t < now then
      if month <= Month(now) then GoDate(Year(now) + 1, month, day)
      else GoDate(Year(now), month, day)
    else t
  }

  function MonthsScan(months: seq<string>, day: int, now: Date, st: PairState): Result<PairState>
    decreases |months|
  {
    if months == [] then Ok(st)
    else
      match MonthOf(months[0])
      case Err(e) => Err(e)
      case Ok(month) =>
        var t := GoDate(Year(st.t), month, day);
        MonthsScan(months[1..], day, now, PairState(t, st.next + [Format(Layout, PairDate(t, month, day, now))]))
  }

  /** The outer loop over the day selectors. */
  function DaysScan(days: seq<string>, months: seq<string>, now: Date, st: PairState): Result<PairState>
    decreases |days|
  {
    if days == [] then Ok(st)
    else
      match MonthDayOf(days[0])
      case Err(e) => Err(e)
      case Ok(day) =>
        match MonthsScan(months, day, now, st)
        case Err(e) => Err(e)
        case Ok(st') => DaysScan(days[1..], months, now, st')
  }

  /** The month loop fails exactly on a bad month, and otherwise appends
      one date per month. */
  lemma {:induction false} MonthsScanResult(months: seq<string>, day: int, now: Date, st: PairState)
    ensures MonthsScan(months, day, now, st).Ok? <==> AllMonths(months)
    ensures MonthsScan(months, day, now, st).Err? ==>
      MonthsScan(months, day, now, st).msg in {"invalid month value", "invalid month"}
    ensures MonthsScan(months, day, now, st).Ok? ==>
      |MonthsScan(months, day, now, st).value.next| == |st.next| + |months|
  {
    if months != [] {
      AllValidCons(months, MonthOf);
      if MonthOf(months[0]).Ok? {
        var t := GoDate(Year(st.t), MonthOf(months[0]).value, day);
        MonthsScanResult(months[1..], day, now,
          PairState(t, st.next + [Format(Layout, PairDate(t, MonthOf(months[0]).value, day, now))]));
      }
    }
  }

  /** The day loop fails exactly on a bad day, or on a bad month once there
      is a day, ... */
  lemma {:induction false} DaysScanOk(days: seq<string>, months: seq<string>, now: Date, st: PairState)
    ensures DaysScan(days, months, now, st).Ok? <==>
      AllMonthDays(days) && (days == [] || AllMonths(months))
    ensures DaysScan(days, months, now, st).Err? ==>
      DaysScan(days, months, now, st).msg
      in {"invalid day value", "invalid day", "invalid month value", "invalid month"}
  {
    if days != [] {
      AllValidCons(days, MonthDayOf);
      if MonthDayOf(days[0]).Ok? {
        var day := MonthDayOf(days[0]).value;
        MonthsScanResult(months, day, now, st);
        if MonthsScan(months, day, now, st).Ok? {
          DaysScanOk(days[1..], months, now, MonthsScan(months, day, now, st).value);
        }
      }
    }
  }

  /** ... and otherwise appends one date per day and month. */
  lemma {:induction false} DaysScanCount(days: seq<string>, months: seq<string>, now: Date, st: PairState)
    requires DaysScan(days, months, now, st).Ok?
    ensures |DaysScan(days, months, now, st).value.next| == |st.next| + |days| * |months|
  {
    if days != [] {
      var day := MonthDayOf(days[0]).value;
      MonthsScanResult(months, day, now, st);
      var st' := MonthsScan(months, day, now, st).value;
      DaysScanCount(days[1..], months, now, st');
      DistribStep(|days[1..]|, |months|);
    }
  }

  /** `s` is the date the month loop writes for `day` in `month`: that day of
      the month in some year, moved by PairDate when it falls before now. */
  ghost predicate IsPairDate(s: string, month: int, day: int, now: Date)
  {
    exists y :: s == Format(Layout, PairDate(GoDate(y, month, day), month, day, now))
  }

  /** One pair date per month, in the order of the month list. */
  ghost predicate MonthPairDates(block: seq<string>, months: seq<string>, day: int, now: Date)
    decreases |months|
  {
    if months == [] then block == []
    else
      && MonthOf(months[0]).Ok?
      && |block| >= 1
      && IsPairDate(block[0], MonthOf(months[0]).value, day, now)
      && MonthPairDates(block[1..], months[1..], day, now)
  }

  /** A day that every month has, in a real month, lands on that month and
      day whichever year the pair date ends up in. */
  lemma PairDateFallsOn(y: int, month: int, day: int, now: Date)
    requires 1 <= month <= 12 && 1 <= day <= 28
    ensures Month(PairDate(GoDate(y, month, day), month, day, now)) == month
    ensures Day(PairDate(GoDate(y, month, day), month, day, now)) == day
  {
    var u := PairDate(GoDate(y, month, day), month, day, now);
    var year := if GoDate(y, month, day) >= now then y
      else if month <= Month(now) then Year(now) + 1 else Year(now);
    assert u == GoDate(year, month, day);
    GoDateOfValid(Civil(year, month, day));
  }

  /** `next` is one block per day selector, in order, each block holding that
      day's pair date for every month. */
  ghost predicate PairDates(next: seq<string>, days: seq<string>, months: seq<string>, now: Date)
    decreases |days|
  {
    if days == [] then next == []
    else
      && MonthDayOf(days[0]).Ok?
      && |next| >= |months|
      && MonthPairDates(next[..|months|], months, MonthDayOf(days[0]).value, now)
      && PairDates(next[|months|..], days[1..], months, now)
  }

  /** The month loop for one day appends, after what was there, one pair
      date per month in order. */
  lemma {:induction false} MonthsScanEntries(months: seq<string>, day: int, now: Date, st: PairState)
    requires AllMonths(months)
    ensures MonthsScan(months, day, now, st).Ok?
    ensures var next := MonthsScan(months, day, now, st).value.next;
      && |next| == |st.next| + |months|
      && next[..|st.next|] == st.next
      && MonthPairDates(next[|st.next|..], months, day, now)
    decreases |months|
  {
    MonthsScanResult(months, day, now, st);
    if months == [] {
      var next := MonthsScan(months, day, now, st).value.next;
      assert next == st.next;
    } else {
      AllValidCons(months, MonthOf);
      var month := MonthOf(months[0]).value;
      var t := GoDate(Year(st.t), month, day);
      var x := Format(Layout, PairDate(t, month, day, now));
      var st' := PairState(t, st.next + [x]);
      MonthsScanEntries(months[1..], day, now, st');
      var next := MonthsScan(months, day, now, st).value.next;
      assert next == MonthsScan(months[1..], day, now, st').value.next;
      AppendedAt(next, st.next, x);
      assert IsPairDate(x, month, day, now);
    }
  }

  /** Where `next` starts with `a + [x]`: after `a` comes `x`, then the rest
      of `next`. */
  lemma AppendedAt<T>(next: seq<T>, a: seq<T>, x: T)
    requires |a| < |next| && next[..|a| + 1] == a + [x]
    ensures next[..|a|] == a
    ensures |next[|a|..]| >= 1 && next[|a|..][0] == x
    ensures next[|a|..][1..] == next[|a| + 1..]
  {
    assert next[..|a|] == next[..|a| + 1][..|a|];
    assert next[|a|] == next[..|a| + 1][|a|];
  }

  /** Where `next` starts with `b` and `b` with `a`: `next` starts with `a`,
      and after `a` comes the rest of `b`, then the rest of `next`. */
  lemma PrefixSplit<T>(next: seq<T>, a: seq<T>, b: seq<T>)
    requires |a| <= |b| <= |next| && next[..|b|] == b && b[..|a|] == a
    ensures next[..|a|] == a
    ensures next[|a|..][..|b| - |a|] == b[|a|..]
    ensures next[|a|..][|b| - |a|..] == next[|b|..]
  {
    assert next[..|a|] == next[..|b|][..|a|];
  }

  /** The day loop writes one block of pair dates per day selector. */
  lemma {:induction false} DaysScanPairDates(days: seq<string>, months: seq<string>, now: Date, st: PairState)
    requires DaysScan(days, months, now, st).Ok?
    ensures var next := DaysScan(days, months, now, st).value.next;
      && |next| >= |st.next|
      && next[..|st.next|] == st.next
      && PairDates(next[|st.next|..], days, months, now)
    decreases |days|
  {
    var next := DaysScan(days, months, now, st).value.next;
    if days == [] {
      assert next == st.next;
      assert next[|st.next|..] == [];
    } else {
      DaysScanStep(days, months, now, st);
      var st' := MonthsScan(months, MonthDayOf(days[0]).value, now, st).value;
      DaysScanPairDates(days[1..], months, now, st');
      PrefixSplit(next, st.next, st'.next);
      PairDatesCons(next[|st.next|..], days, months, now);
    }
  }

  /** One round of the day loop: the first selector's month loop succeeds,
      keeps what was written, appends that selector's block, and the day
      loop goes on from the state it leaves. */
  lemma DaysScanStep(days: seq<string>, months: seq<string>, now: Date, st: PairState)
    requires days != [] && DaysScan(days, months, now, st).Ok?
    ensures MonthDayOf(days[0]).Ok?
    ensures var r := MonthsScan(months, MonthDayOf(days[0]).value, now, st);
      && r.Ok?
      && DaysScan(days[1..], months, now, r.value) == DaysScan(days, months, now, st)
      && |r.value.next| == |st.next| + |months|
      && r.value.next[..|st.next|] == st.next
      && MonthPairDates(r.value.next[|st.next|..], months, MonthDayOf(days[0]).value, now)
  {
    DaysScanOk(days, months, now, st);
    MonthsScanEntries(months, MonthDayOf(days[0]).value, now, st);
  }

  /** A block of pair dates for the first day, then blocks for the others. */
  lemma PairDatesCons(w: seq<string>, days: seq<string>, months: seq<string>, now: Date)
    requires days != [] && MonthDayOf(days[0]).Ok? && |w| >= |months|
    requires MonthPairDates(w[..|months|], months, MonthDayOf(days[0]).value, now)
    requires PairDates(w[|months|..], days[1..], months, now)
    ensures PairDates(w, days, months, now)
  {
  }

  /** A pair of a day 1..31 and a month 1..12 never falls before now: a
      pair before now moves to a later year, or later in now's year. */
  lemma PairDateNotBeforeNow(t: Date, month: int, day: int, now: Date)
    requires 1 <= month <= 12 && day >= 1
    ensures PairDate(t, month, day, now) >= now
  {
    if t < now {
      var c := CivilOf(now);
      DaysFromCivilBounds(c);
      if month <= Month(now) {
        GoDateInYear(Year(now) + 1, month, day);
        MonthStartMonotone(Year(now) + 1, 1, month);
      } else {
        GoDateInYear(Year(now), month, day);
        MonthStartMonotone(Year(now), Month(now) + 1, month);
      }
    }
  }

  /** The string is the formatted form of a day not before now. */
  ghost predicate NotBefore(s: string, now: Date)
  {
    exists d: Date :: d >= now && s == Format(Layout, d)
  }

  ghost predicate AllNotBefore(next: seq<string>, now: Date)
  {
    forall k :: 0 <= k < |next| ==> NotBefore(next[k], now)
  }

  predicate PositiveMonths(months: seq<string>)
  {
    forall i :: 0 <= i < |months| ==> MonthOf(months[i]).Ok? && MonthOf(months[i]).value >= 1
  }

  predicate PositiveDays(days: seq<string>)
  {
    forall i :: 0 <= i < |days| ==> MonthDayOf(days[i]).Ok? && MonthDayOf(days[i]).value >= 1
  }

  lemma AllNotBeforeAppend(next: seq<string>, d: Date, now: Date)
    requires AllNotBefore(next, now) && d >= now
    ensures AllNotBefore(next + [Format(Layout, d)], now)
  {
    var next' := next + [Format(Layout, d)];
    forall k | 0 <= k < |next'| ensures NotBefore(next'[k], now) {
      if k == |next| {
        assert next'[k] == Format(Layout, d);
      } else {
        assert next'[k] == next[k];
      }
    }
  }

  /** With days 1..31 and months 1..12 only, no date of the month loop is
      before now. */
  lemma {:induction false} MonthsScanNotBefore(months: seq<string>, day: int, now: Date, st: PairState)
    requires day >= 1 && PositiveMonths(months) && AllNotBefore(st.next, now)
    ensures MonthsScan(months, day, now, st).Ok?
    ensures AllNotBefore(MonthsScan(months, day, now, st).value.next, now)
  {
    if months != [] {
      var month := MonthOf(months[0]).value;
      var t := GoDate(Year(st.t), month, day);
      PairDateNotBeforeNow(t, month, day, now);
      AllNotBeforeAppend(st.next, PairDate(t, month, day, now), now);
      assert PositiveMonths(months[1..]) by {
        forall i | 0 <= i < |months[1..]| ensures MonthOf(months[1..][i]).Ok? && MonthOf(months[1..][i]).value >= 1 {
          assert months[1..][i] == months[i + 1];
        }
      }
      MonthsScanNotBefore(months[1..], day, now,
        PairState(t, st.next + [Format(Layout, PairDate(t, month, day, now))]));
    }
  }

  lemma {:induction false} DaysScanNotBefore(days: seq<string>, months: seq<string>, now: Date, st: PairState)
    requires PositiveDays(days) && PositiveMonths(months) && AllNotBefore(st.next, now)
    ensures DaysScan(days, months, now, st).Ok?
    ensures AllNotBefore(DaysScan(days, months, now, st).value.next, now)
  {
    if days != [] {
      var day := MonthDayOf(days[0]).value;
      MonthsScanNotBefore(months, day, now, st);
      assert PositiveDays(days[1..]) by {
        forall i | 0 <= i < |days[1..]| ensures MonthDayOf(days[1..][i]).Ok? && MonthDayOf(days[1..][i]).value >= 1 {
          assert days[1..][i] == days[i + 1];
        }
      }
      DaysScanNotBefore(days[1..], months, now, MonthsScan(months, day, now, st).value);
    }
  }

  /** The rule with a month list: one date per day and month, sorted. */
  function DaysInMonths(days: seq<string>, months: seq<string>, t: Date, now: Date): Result<seq<string>>
  {
    match DaysScan(days, months, now, PairState(t, []))
    case Err(e) => Err(e)
    case Ok(st) => Ok(SortStrings(st.next))
  }

  /** RepeatM: the anchor is checked first; the rule after its first two
      characters is cut at spaces into the day selectors and an optional
      month list. */
  function NextMonthly(now: Date, date: string, repeat: string): Result<seq<string>>
    requires Parse(Layout, date).Some? ==> |repeat| >= 2
  {
    match Parse(Layout, date)
    case None => Err("invalid date")
    case Some(t) =>
      var parts := MonthlyParts(repeat);
      if |parts| == 1 then DaysOnlyScan(Split(parts[0], ','), t, now, [])
      else if |parts| == 2 then DaysInMonths(Split(parts[0], ','), Split(parts[1], ','), t, now)
      else Ok([])
  }

  /** The parts of a monthly rule after its first two characters. */
  function MonthlyParts(repeat: string): (parts: seq<string>)
    requires |repeat| >= 2
    ensures |parts| >= 1
  {
    Split(repeat[2..], ' ')
  }

  /** A monthly rule fails only with the anchor's, a day selector's or a
      month's error; with more than two parts it gives nothing. */
  lemma MonthlyOutcome(now: Date, date: string, repeat: string)
    requires Parse(Layout, date).Some? ==> |repeat| >= 2
    ensures NextMonthly(now, date, repeat).Err? ==>
      NextMonthly(now, date, repeat).msg
      in {"invalid date", "invalid day value", "invalid day", "invalid month value", "invalid month"}
    ensures Parse(Layout, date).Some? && |MonthlyParts(repeat)| > 2 ==>
      NextMonthly(now, date, repeat) == Ok([])
  {
    if Parse(Layout, date).Some? {
      var t := Parse(Layout, date).value;
      var parts := MonthlyParts(repeat);
      if |parts| == 1 {
        var tokens := Split(parts[0], ',');
        if t < now {
          DaysOnlyBeforeNow(tokens, t, now, []);
        } else {
          DaysOnlyFirstSelector(tokens, t, now);
        }
      } else if |parts| == 2 {
        DaysScanOk(Split(parts[0], ','), Split(parts[1], ','), now, PairState(t, []));
      }
    }
  }

  /** Without a month list: an anchor before now gives nothing once every
      selector checks out; otherwise the first selector alone decides, and
      it gives at most one day. */
  lemma MonthlyWithoutMonths(now: Date, date: string, repeat: string)
    requires Parse(Layout, date).Some? && |repeat| >= 2 && |MonthlyParts(repeat)| == 1
    ensures var t := Parse(Layout, date).value;
      var tokens := Split(MonthlyParts(repeat)[0], ',');
      && (t < now ==> NextMonthly(now, date, repeat) == DayCheck(tokens))
      && (!(t < now) && MonthDayOf(tokens[0]).Err? ==>
            NextMonthly(now, date, repeat) == Err(MonthDayOf(tokens[0]).msg))
      && (!(t < now) && MonthDayOf(tokens[0]).Ok? ==>
            NextMonthly(now, date, repeat) == Ok(DayList(MonthlyDate(t, MonthDayOf(tokens[0]).value))))
  {
    var t := Parse(Layout, date).value;
    var tokens := Split(MonthlyParts(repeat)[0], ',');
    if t < now {
      DaysOnlyBeforeNow(tokens, t, now, []);
    } else {
      DaysOnlyFirstSelector(tokens, t, now);
    }
  }

  /** A permutation of formatted days not before now is one too. */
  lemma AllNotBeforePermutation(a: seq<string>, b: seq<string>, now: Date)
    requires AllNotBefore(a, now) && multiset(a) == multiset(b)
    ensures AllNotBefore(b, now)
  {
    forall k | 0 <= k < |b| ensures NotBefore(b[k], now) {
      assert b[k] in multiset(a);
      var j :| 0 <= j < |a| && a[j] == b[k];
    }
  }

  /** With a month list: every selector and month must check out; then
      there is one date per day and month, sorted, and with days 1..31 and
      months 1..12 only none of them is before now. */
  lemma MonthlyWithMonths(now: Date, date: string, repeat: string)
    requires Parse(Layout, date).Some? && |repeat| >= 2 && |MonthlyParts(repeat)| == 2
    ensures var days := Split(MonthlyParts(repeat)[0], ',');
      var months := Split(MonthlyParts(repeat)[1], ',');
      var r := NextMonthly(now, date, repeat);
      && (r.Ok? <==> AllMonthDays(days) && AllMonths(months))
      && (r.Ok? ==> |r.value| == |days| * |months| && Sorted(r.value))
      && (r.Ok? ==>
            var next := DaysScan(days, months, now, PairState(Parse(Layout, date).value, [])).value.next;
            PairDates(next, days, months, now) && multiset(r.value) == multiset(next))
      && (PositiveDays(days) && PositiveMonths(months) ==> r.Ok? && AllNotBefore(r.value, now))
  {
    var t := Parse(Layout, date).value;
    var days := Split(MonthlyParts(repeat)[0], ',');
    var months := Split(MonthlyParts(repeat)[1], ',');
    assert NextMonthly(now, date, repeat) == DaysInMonths(days, months, t, now);
    DaysInMonthsOutcome(days, months, t, now);
    if PositiveDays(days) && PositiveMonths(months) {
      DaysInMonthsNotBefore(days, months, t, now);
    }
  }

  /** Every (day, month) pair gives one date, and the result is those pair
      dates, sorted. */
  lemma DaysInMonthsOutcome(days: seq<string>, months: seq<string>, t: Date, now: Date)
    requires days != []
    ensures DaysInMonths(days, months, t, now).Ok? <==> AllMonthDays(days) && AllMonths(months)
    ensures DaysInMonths(days, months, t, now).Ok? ==>
      |DaysInMonths(days, months, t, now).value| == |days| * |months|
      && Sorted(DaysInMonths(days, months, t, now).value)
    ensures DaysInMonths(days, months, t, now).Ok? ==>
      var next := DaysScan(days, months, now, PairState(t, [])).value.next;
      PairDates(next, days, months, now)
      && multiset(DaysInMonths(days, months, t, now).value) == multiset(next)
  {
    var st := PairState(t, []);
    DaysScanOk(days, months, now, st);
    if DaysScan(days, months, now, st).Ok? {
      DaysScanCount(days, months, now, st);
      DaysScanPairDates(days, months, now, st);
      var next := DaysScan(days, months, now, st).value.next;
      assert next[|st.next|..] == next;
    }
  }

  /** With positive days and months, no pair date is before now. */
  lemma DaysInMonthsNotBefore(days: seq<string>, months: seq<string>, t: Date, now: Date)
    requires PositiveDays(days) && PositiveMonths(months)
    ensures DaysInMonths(days, months, t, now).Ok?
    ensures AllNotBefore(DaysInMonths(days, months, t, now).value, now)
  {
    var st := PairState(t, []);
    DaysScanNotBefore(days, months, now, st);
    var next := DaysScan(days, months, now, st).value.next;
    AllNotBeforePermutation(next, SortStrings(next), now);
  }

  /** RepeatM as a sequence of loops. */
  method RepeatM(now: Date, date: string, repeat: string) returns (r: Result<seq<string>>)
    requires Parse(Layout, date).Some? ==> |repeat| >= 2
    ensures r == NextMonthly(now, date, repeat)
  {
    var parsed := Parse(Layout, date);
    if parsed.None? {
      return Err("invalid date");
    }
    var t := parsed.value;
    var daysMonths := Split(repeat[2..], ' ');
    assert daysMonths == MonthlyParts(repeat);
    if |daysMonths| == 1 {
      var days := Split(daysMonths[0], ',');
      r := MonthDaysOnly(now, t, days);
      return;
    }
    if |daysMonths| == 2 {
      var days := Split(daysMonths[0], ',');
      var months := Split(daysMonths[1], ',');
      r := MonthDaysInMonths(now, t, days, months);
      return;
    }
    return Ok([]);
  }

  /** The loop of the rule without a month list. */
  method MonthDaysOnly(now: Date, t: Date, days: seq<string>) returns (r: Result<seq<string>>)
    ensures r == DaysOnlyScan(days, t, now, [])
  {
    var next: seq<string> := [];
    var i := 0;
    while i < |days|
      invariant 0 <= i <= |days|
      invariant DaysOnlyScan(days[i..], t, now, next) == DaysOnlyScan(days, t, now, [])
    {
      DaysOnlyScanStep(days, i, t, now, next);
      var day := MonthDayOf(days[i]);
      if day.Err? {
        return Err(day.msg);
      }
      if t < now {
        next := AppendMonthDay(next, now, day.value);
      }
      if !(t < now) {
        next := AppendMonthDay(next, t, day.value);
        next := SortStrings(next);
        return Ok(next);
      }
      i := i + 1;
    }
    return Ok([]);
  }

  /** One day selector counted from `from`. */
  method AppendMonthDay(next: seq<string>, from: Date, day: int) returns (next': seq<string>)
    ensures next' == next + DayList(MonthlyDate(from, day))
  {
    next' := next;
    if day < Day(from) {
      next' := next' + [Format(Layout, GoDate(Year(from), Month(from) + 1, day))];
    }
    if day > Day(from) {
      if LastDayOfMonth(from) < day {
        next' := next' + [Format(Layout, GoDate(Year(from), Month(from) + 1, day))];
      } else {
        next' := next' + [Format(Layout, GoDate(Year(from), Month(from), day))];
      }
    }
  }

  /** The nested loops of the rule with a month list. */
  method MonthDaysInMonths(now: Date, t0: Date, days: seq<string>, months: seq<string>)
    returns (r: Result<seq<string>>)
    ensures r == DaysInMonths(days, months, t0, now)
  {
    var t, next := t0, [];
    var i := 0;
    while i < |days|
      invariant 0 <= i <= |days|
      invariant DaysScan(days[i..], months, now, PairState(t, next)) == DaysScan(days, months, now, PairState(t0, []))
    {
      assert days[i..][0] == days[i] && days[i..][1..] == days[i + 1..];
      var day := MonthDayOf(days[i]);
      if day.Err? {
        return Err(day.msg);
      }
      var scanned := ScanMonths(months, day.value, now, t, next);
      if scanned.Err? {
        return Err(scanned.msg);
      }
      t, next := scanned.value.t, scanned.value.next;
      i := i + 1;
    }
    next := SortStrings(next);
    return Ok(next);
  }

  /** The inner loop over the months for one day. */
  method ScanMonths(months: seq<string>, day: int, now: Date, t0: Date, next0: seq<string>)
    returns (r: Result<PairState>)
    ensures r == MonthsScan(months, day, now, PairState(t0, next0))
  {
    var t, next := t0, next0;
    var j := 0;
    while j < |months|
      invariant 0 <= j <= |months|
      invariant MonthsScan(months[j..], day, now, PairState(t, next)) == MonthsScan(months, day, now, PairState(t0, next0))
    {
      MonthsScanStep(months, j, day, now, PairState(t, next));
      var month := MonthOf(months[j]);
      if month.Err? {
        return Err(month.msg);
      }
      t := GoDate(Year(t), month.value, day);
      next := AppendPair(next, t, month.value, day, now);
      j := j + 1;
    }
    return Ok(PairState(t, next));
  }

  /** One day and month pair: the overwritten date, or its move past now. */
  method AppendPair(next: seq<string>, t: Date, month: int, day: int, now: Date) returns (next': seq<string>)
    ensures next' == next + [Format(Layout, PairDate(t, month, day, now))]
  {
    if t < now {
      if month <= Month(now) {
        next' := next + [Format(Layout, GoDate(Year(now) + 1, month, day))];
      } else {
        next' := next + [Format(Layout, GoDate(Year(now), month, day))];
      }
    } else {
      next' := next + [Format(Layout, t)];
    }
  }

  lemma MonthsScanStep(months: seq<string>, j: int, day: int, now: Date, st: PairState)
    requires 0 <= j < |months|
    ensures MonthOf(months[j]).Err? ==>
      MonthsScan(months[j..], day, now, st) == Err(MonthOf(months[j]).msg)
    ensures MonthOf(months[j]).Ok? ==>
      var t := GoDate(Year(st.t), MonthOf(months[j]).value, day);
      MonthsScan(months[j..], day, now, st)
      == MonthsScan(months[j + 1..], day, now,
           PairState(t, st.next + [Format(Layout, PairDate(t, MonthOf(months[j]).value, day, now))]))
  {
    assert months[j..][0] == months[j] && months[j..][1..] == months[j + 1..];
  }
}
