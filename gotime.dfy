/** The part of Go's `time` package that the recurrence rules use, at day
    granularity: every time is midnight UTC, so a time is a day number. */
module GoTime {
  import opened Results
  import opened GoStrings

  /** Days since 0001-01-01 in the proleptic Gregorian calendar; negative
      numbers are earlier days. `t.Before(u)` is `t < u`, and `t == u` on two
      midnight UTC times is equality of day numbers. */
  type Date = int

  /** A calendar day as year, month (1 = January) and day of month. */
  datatype Civil = Civil(year: int, month: int, day: int)

  predicate IsLeap(year: int)
  {
    year % 4 == 0 && (year % 100 != 0 || year % 400 == 0)
  }

  function YearLength(year: int): int
  {
    if IsLeap(year) then 366 else 365
  }

  /** Go's daysIn: the length of a month. */
  function DaysIn(year: int, month: int): (n: int)
    requires 1 <= month <= 12
    ensures 28 <= n <= 31
  {
    if month == 2 then (if IsLeap(year) then 29 else 28)
    else if month == 4 || month == 6 || month == 9 || month == 11 then 30
    else 31
  }

  predicate Valid(c: Civil)
  {
    1 <= c.month <= 12 && 1 <= c.day <= DaysIn(c.year, c.month)
  }

  /** Days of the year before the first of `month`; month 13 closes the year.
      The non-leap column is Go's `daysBefore` table. */
  function MonthStart(year: int, month: int): int
    requires 1 <= month <= 13
  {
    var before :=
      match month
      case 1 => 0
      case 2 => 31
      case 3 => 59
      case 4 => 90
      case 5 => 120
      case 6 => 151
      case 7 => 181
      case 8 => 212
      case 9 => 243
      case 10 => 273
      case 11 => 304
      case 12 => 334
      case 13 => 365;
    if IsLeap(year) && month >= 3 then before + 1 else before
  }

  /** The day number of January 1 of `year`. */
  function YearStart(year: int): Date
  {
    var p := year - 1;
    365 * p + p / 4 - p / 100 + p / 400
  }

  /** The day number of (year, month, day) for a month already in 1..12; the
      day is added as an offset, so day 0 is the day before the first. */
  function DaysFromCivil(year: int, month: int, day: int): Date
    requires 1 <= month <= 12
  {
    YearStart(year) + MonthStart(year, month) + day - 1
  }

  /** time.Date(year, month, day, 0, 0, 0, 0, time.UTC): the month is first
      brought into 1..12 by carrying whole years (floor division), then the day
      is counted from the first of that month, so out-of-range days roll into
      the neighbouring months. */
  function GoDate(year: int, month: int, day: int): Date
  {
    DaysFromCivil(year + (month - 1) / 12, (month - 1) % 12 + 1, day)
  }

  // ---------------------------------------------------------------------
  // From a day number back to year, month and day
  // ---------------------------------------------------------------------

  /** The year holding day `t`: 400-year cycles of 146097 days, then
      centuries of 36524 days (the last one a day longer), 4-year blocks of
      1461 days (the last one of a short century a day shorter), years. */
  function YearOf(t: Date): int
  {
    var era := t / 146097;
    var doe := t % 146097;
    var cent := if doe / 36524 < 3 then doe / 36524 else 3;
    var r1 := doe - 36524 * cent;
    var quad := r1 / 1461;
    var r2 := r1 % 1461;
    var yq := if r2 / 365 < 3 then r2 / 365 else 3;
    400 * era + 100 * cent + 4 * quad + yq + 1
  }

  lemma YearStartOfParts(era: int, cent: int, quad: int, yq: int)
    requires 0 <= cent <= 3 && 0 <= quad <= 24 && 0 <= yq <= 3
    ensures YearStart(400 * era + 100 * cent + 4 * quad + yq + 1)
         == 146097 * era + 36524 * cent + 1461 * quad + 365 * yq
  {
    var p := 400 * era + 100 * cent + 4 * quad + yq;
    assert p / 4 == 100 * era + 25 * cent + quad;
    assert p / 100 == 4 * era + cent;
    assert p / 400 == era;
  }

  /** Floor division by a positive constant steps up by one exactly when the
      numerator reaches a multiple. */
  lemma DivStep(n: int, k: int)
    requires k == 4 || k == 100 || k == 400
    ensures (n + 1) / k == n / k + (if (n + 1) % k == 0 then 1 else 0)
  {
    var q, r := n / k, n % k;
    assert n == k * q + r && 0 <= r < k;
    if r == k - 1 {
      assert n + 1 == k * (q + 1);
    } else {
      assert n + 1 == k * q + (r + 1);
    }
  }

  /** Consecutive years are a year's length apart. */
  lemma YearStartStep(year: int)
    ensures YearStart(year + 1) == YearStart(year) + YearLength(year)
  {
    DivStep(year - 1, 4);
    DivStep(year - 1, 100);
    DivStep(year - 1, 400);
  }

  /** The pieces YearOf cuts day `t` into, with their ranges. */
  lemma YearOfParts(t: Date) returns (era: int, cent: int, quad: int, yq: int, doy: int)
    ensures 0 <= cent <= 3 && 0 <= quad <= 24 && 0 <= yq <= 3 && 0 <= doy <= 365
    ensures t == 146097 * era + 36524 * cent + 1461 * quad + 365 * yq + doy
    ensures YearOf(t) == 400 * era + 100 * cent + 4 * quad + yq + 1
    ensures doy == 365 ==> yq == 3 && (quad < 24 || cent == 3)
  {
    era := t / 146097;
    var doe := t % 146097;
    cent := if doe / 36524 < 3 then doe / 36524 else 3;
    var r1 := doe - 36524 * cent;
    assert 0 <= r1 <= 36524;
    assert cent < 3 ==> r1 < 36524;
    quad := r1 / 1461;
    var r2 := r1 % 1461;
    yq := if r2 / 365 < 3 then r2 / 365 else 3;
    doy := r2 - 365 * yq;
  }

  /** The last year of a 4-year block is a leap year unless it closes a
      century that does not close a 400-year cycle. */
  lemma LeapOfParts(era: int, cent: int, quad: int)
    requires 0 <= cent <= 3 && 0 <= quad <= 24
    requires quad < 24 || cent == 3
    ensures IsLeap(400 * era + 100 * cent + 4 * quad + 4)
  {
    var year := 400 * era + 100 * cent + 4 * quad + 4;
    assert year == 4 * (100 * era + 25 * cent + quad + 1);
    if quad < 24 {
      assert year == 100 * (4 * era + cent) + (4 * quad + 4);
    } else {
      assert year == 400 * (era + 1);
    }
  }

  /** Day `t` lies inside the year YearOf computes for it. */
  lemma YearOfBounds(t: Date)
    ensures YearStart(YearOf(t)) <= t < YearStart(YearOf(t) + 1)
  {
    var era, cent, quad, yq, doy := YearOfParts(t);
    var year := YearOf(t);
    YearStartOfParts(era, cent, quad, yq);
    YearStartStep(year);
    if doy == 365 {
      LeapOfParts(era, cent, quad);
    }
  }

  /** Consecutive months are a month's length apart. */
  lemma MonthStartStep(year: int, month: int)
    requires 1 <= month <= 12
    ensures MonthStart(year, month + 1) == MonthStart(year, month) + DaysIn(year, month)
  {
  }

  lemma {:induction false} MonthStartMonotone(year: int, a: int, b: int)
    requires 1 <= a <= b <= 13
    ensures MonthStart(year, a) <= MonthStart(year, b)
    decreases b - a
  {
    if a < b {
      MonthStartStep(year, a);
      MonthStartMonotone(year, a + 1, b);
    }
  }

  lemma {:induction false} YearStartMonotone(a: int, b: int)
    requires a <= b
    ensures YearStart(a) <= YearStart(b)
    decreases b - a
  {
    if a < b {
      YearStartStep(a);
      YearStartMonotone(a + 1, b);
    }
  }

  /** The month holding day `doy` of `year` (0 = January 1). */
  function FindMonth(year: int, doy: int, m: int): (r: int)
    requires 1 <= m <= 12 && 0 <= doy < MonthStart(year, m + 1)
    ensures 1 <= r <= m && MonthStart(year, r) <= doy < MonthStart(year, r + 1)
    decreases m
  {
    if m == 1 || MonthStart(year, m) <= doy then m else FindMonth(year, doy, m - 1)
  }

  /** `t.Date()`: the calendar day of a day number, which is a real day and
      which DaysFromCivil maps back to `t`. */
  function CivilOf(t: Date): (c: Civil)
    ensures Valid(c)
    ensures DaysFromCivil(c.year, c.month, c.day) == t
  {
    var year := YearOf(t);
    YearOfBounds(t);
    YearStartStep(year);
    var doy := t - YearStart(year);
    var m := FindMonth(year, doy, 12);
    MonthStartStep(year, m);
    Civil(year, m, doy - MonthStart(year, m) + 1)
  }

  /** A real calendar day lies in its own year and month. */
  lemma DaysFromCivilBounds(c: Civil)
    requires Valid(c)
    ensures YearStart(c.year) <= DaysFromCivil(c.year, c.month, c.day) < YearStart(c.year + 1)
    ensures MonthStart(c.year, c.month)
         <= DaysFromCivil(c.year, c.month, c.day) - YearStart(c.year)
         < MonthStart(c.year, c.month + 1)
  {
    MonthStartStep(c.year, c.month);
    MonthStartMonotone(c.year, c.month + 1, 13);
    YearStartStep(c.year);
  }

  /** Later real days have larger day numbers. */
  lemma DaysFromCivilStrictlyIncreasing(a: Civil, b: Civil)
    requires Valid(a) && Valid(b)
    requires CivilBefore(a, b)
    ensures DaysFromCivil(a.year, a.month, a.day) < DaysFromCivil(b.year, b.month, b.day)
  {
    DaysFromCivilBounds(a);
    DaysFromCivilBounds(b);
    if a.year < b.year {
      YearStartMonotone(a.year + 1, b.year);
    } else if a.month < b.month {
      MonthStartMonotone(a.year, a.month + 1, b.month);
    }
  }

  /** Calendar order: by year, then month, then day. */
  predicate CivilBefore(a: Civil, b: Civil)
  {
    a.year < b.year
    || (a.year == b.year && a.month < b.month)
    || (a.year == b.year && a.month == b.month && a.day < b.day)
  }

  /** CivilOf undoes DaysFromCivil on real days: the two are inverses. */
  lemma CivilOfDaysFromCivil(c: Civil)
    requires Valid(c)
    ensures CivilOf(DaysFromCivil(c.year, c.month, c.day)) == c
  {
    var d := CivilOf(DaysFromCivil(c.year, c.month, c.day));
    if CivilBefore(c, d) {
      DaysFromCivilStrictlyIncreasing(c, d);
    } else if CivilBefore(d, c) {
      DaysFromCivilStrictlyIncreasing(d, c);
    }
  }

  /** Day numbers follow calendar order. */
  lemma DateOrderIsCalendarOrder(t: Date, u: Date)
    ensures t < u <==> CivilBefore(CivilOf(t), CivilOf(u))
  {
    var a, b := CivilOf(t), CivilOf(u);
    if CivilBefore(a, b) {
      DaysFromCivilStrictlyIncreasing(a, b);
    } else if CivilBefore(b, a) {
      DaysFromCivilStrictlyIncreasing(b, a);
    }
  }

  /** A later day is never in an earlier year. */
  lemma YearMonotone(t: Date, u: Date)
    requires t <= u
    ensures Year(t) <= Year(u)
  {
    DateOrderIsCalendarOrder(t, u);
  }

  // ---------------------------------------------------------------------
  // Accessors and arithmetic of time.Time
  // ---------------------------------------------------------------------

  /** The days of the years 0 through 9999, the ones four year digits can
      name. */
  predicate InFourDigitYears(t: Date)
  {
    YearStart(0) <= t < YearStart(10000)
  }

  lemma FourDigitYears(t: Date)
    ensures InFourDigitYears(t) <==> 0 <= Year(t) <= 9999
  {
    var year := YearOf(t);
    YearOfBounds(t);
    assert Year(t) == year;
    if year < 0 {
      YearStartMonotone(year + 1, 0);
    } else if year > 9999 {
      YearStartMonotone(10000, year);
    } else {
      YearStartMonotone(0, year);
      YearStartMonotone(year + 1, 10000);
    }
  }

  function Year(t: Date): int
  {
    CivilOf(t).year
  }

  function Month(t: Date): (m: int)
    ensures 1 <= m <= 12
  {
    CivilOf(t).month
  }

  function Day(t: Date): (d: int)
    ensures 1 <= d <= DaysIn(Year(t), Month(t))
  {
    CivilOf(t).day
  }

  /** t.Weekday(): Sunday is 0. January 1 of year 1 was a Monday. */
  function Weekday(t: Date): (w: int)
    ensures 0 <= w <= 6
  {
    (t + 1) % 7
  }

  /** t.AddDate(years, months, days). */
  function AddDate(t: Date, years: int, months: int, days: int): Date
  {
    GoDate(Year(t) + years, Month(t) + months, Day(t) + days)
  }

  /** Adding days with AddDate moves the day number by exactly that much. */
  lemma AddDateDays(t: Date, days: int)
    ensures AddDate(t, 0, 0, days) == t + days
  {
    var c := CivilOf(t);
    GoDateInYear(c.year, c.month, c.day + days);
  }

  /** time.Date on a real calendar day needs no normalisation. */
  lemma GoDateOfValid(c: Civil)
    requires Valid(c)
    ensures GoDate(c.year, c.month, c.day) == DaysFromCivil(c.year, c.month, c.day)
    ensures CivilOf(GoDate(c.year, c.month, c.day)) == c
  {
    assert (c.month - 1) / 12 == 0 && (c.month - 1) % 12 + 1 == c.month;
    CivilOfDaysFromCivil(c);
  }

  /** The calendar day of time.Date on a real calendar day is that day. */
  lemma CivilOfGoDate(c: Civil, u: Date)
    requires Valid(c) && u == GoDate(c.year, c.month, c.day)
    ensures CivilOf(u) == c
  {
    GoDateOfValid(c);
  }

  /** time.Date with a month already in 1..12 needs no carry into the year. */
  lemma GoDateInYear(year: int, month: int, day: int)
    requires 1 <= month <= 12
    ensures GoDate(year, month, day) == DaysFromCivil(year, month, day)
  {
    assert (month - 1) / 12 == 0 && (month - 1) % 12 + 1 == month;
  }

  /** Day 0 of the month after `month` is the last day of `month`, and day -1
      the one before it. */
  lemma GoDateDayZero(year: int, month: int, k: int)
    requires 1 <= month <= 12 && 0 <= k < 28
    ensures GoDate(year, month + 1, -k) == DaysFromCivil(year, month, DaysIn(year, month) - k)
  {
    MonthStartStep(year, month);
    if month == 12 {
      YearStartStep(year);
      assert GoDate(year, 13, -k) == DaysFromCivil(year + 1, 1, -k);
    } else {
      GoDateInYear(year, month + 1, -k);
    }
  }

  /** ... read back as a calendar day. */
  lemma CivilOfDayZero(year: int, month: int, k: int, u: Date)
    requires 1 <= month <= 12 && 0 <= k < 28 && u == GoDate(year, month + 1, -k)
    ensures CivilOf(u) == Civil(year, month, DaysIn(year, month) - k)
  {
    GoDateDayZero(year, month, k);
    CivilOfDaysFromCivil(Civil(year, month, DaysIn(year, month) - k));
  }

  /** time.Date counts the day as an offset within the month. */
  lemma GoDateShift(year: int, month: int, day: int)
    ensures GoDate(year, month, day) == GoDate(year, month, 0) + day
  {
  }

  /** A day past the end of its month rolls into the next month. */
  lemma GoDateOverflow(year: int, month: int, day: int)
    requires 1 <= month <= 12 && DaysIn(year, month) < day
    ensures GoDate(year, month, day) == GoDate(year, month + 1, day - DaysIn(year, month))
  {
    var k := day - DaysIn(year, month);
    GoDateInYear(year, month, day);
    MonthStartStep(year, month);
    if month == 12 {
      YearStartStep(year);
      GoDateDecember(year, k);
    } else {
      GoDateInYear(year, month + 1, k);
    }
  }

  /** Month 13 is January of the next year. */
  lemma GoDateDecember(year: int, day: int)
    ensures GoDate(year, 13, day) == DaysFromCivil(year + 1, 1, day)
  {
    assert (13 - 1) / 12 == 1 && (13 - 1) % 12 + 1 == 1;
  }

  // ---------------------------------------------------------------------
  // Layouts: time.Parse and Time.Format
  // ---------------------------------------------------------------------

  /** The layout elements this program's layouts use: "2006" (a four-digit
      year), "01" (a two-digit month) and "02" (a two-digit day of month);
      any other byte of a layout stands for itself. */
  datatype Chunk = LongYear | ZeroMonth | ZeroDay | Lit(c: char)

  /** A layout string cut into its elements, left to right. */
  function Chunks(layout: string): seq<Chunk>
    decreases |layout|
  {
    if layout == [] then []
    else if |layout| >= 4 && layout[..4] == "2006" then [LongYear] + Chunks(layout[4..])
    else if |layout| >= 2 && layout[..2] == "01" then [ZeroMonth] + Chunks(layout[2..])
    else if |layout| >= 2 && layout[..2] == "02" then [ZeroDay] + Chunks(layout[2..])
    else [Lit(layout[0])] + Chunks(layout[1..])
  }

  /** The fields read so far; a month or day of -1 has not been read. */
  datatype Fields = Fields(year: int, month: int, day: int)

  /** Reads `value` element by element: a year is four digits, a month or
      day exactly two digits, a month outside 1..12 is an error, a literal
      byte must match, and nothing may be left over. */
  function ParseFields(chunks: seq<Chunk>, value: string, f: Fields): (r: Option<Fields>)
    requires f.month == -1 || 1 <= f.month <= 12
    ensures r.Some? ==> r.value.month == -1 || 1 <= r.value.month <= 12
    decreases |chunks|
  {
    if chunks == [] then
      if value == [] then Some(f) else None
    else
      match chunks[0]
      case LongYear =>
        if |value| < 4 || !AllDigits(value[..4]) then None
        else ParseFields(chunks[1..], value[4..], f.(year := DecimalValue(value[..4])))
      case ZeroMonth =>
        if |value| < 2 || !AllDigits(value[..2]) then None
        else
          var month := DecimalValue(value[..2]);
          if month <= 0 || 12 < month then None
          else ParseFields(chunks[1..], value[2..], f.(month := month))
      case ZeroDay =>
        if |value| < 2 || !AllDigits(value[..2]) then None
        else ParseFields(chunks[1..], value[2..], f.(day := DecimalValue(value[..2])))
      case Lit(c) =>
        if |value| == 0 || value[0] != c then None
        else ParseFields(chunks[1..], value[1..], f)
  }

  /** time.Parse(layout, value): the fields, with January and day 1 standing
      in for a missing month or day, must name a real day; the result is
      midnight UTC of that day. */
  function Parse(layout: string, value: string): Option<Date>
  {
    match ParseFields(Chunks(layout), value, Fields(0, -1, -1))
    case None => None
    case Some(f) =>
      var month := if f.month < 0 then 1 else f.month;
      var day := if f.day < 0 then 1 else f.day;
      if day < 1 || DaysIn(f.year, month) < day then None
      else Some(GoDate(f.year, month, day))
  }

  /** Go's appendInt(b, x, width): a '-' for a negative number, then its
      digits padded with leading zeros to `width`. */
  function AppendInt(x: int, width: nat): string
  {
    (if x < 0 then "-" else "") + ZeroPad(Decimal(if x < 0 then -x else x), width)
  }

  function FormatChunks(chunks: seq<Chunk>, c: Civil): string
  {
    if chunks == [] then []
    else
      var head :=
        match chunks[0]
        case LongYear => AppendInt(c.year, 4)
        case ZeroMonth => AppendInt(c.month, 2)
        case ZeroDay => AppendInt(c.day, 2)
        case Lit(ch) => [ch];
      head + FormatChunks(chunks[1..], c)
  }

  /** t.Format(layout). */
  function Format(layout: string, t: Date): string
  {
    FormatChunks(Chunks(layout), CivilOf(t))
  }

  /** A number below 10^width written with appendInt is exactly `width`
      digits with that value, and every such digit string is written so. */
  lemma AppendIntDigits(x: int, width: nat)
    requires (width == 2 && 0 <= x < 100) || (width == 4 && 0 <= x < 10000)
    ensures |AppendInt(x, width)| == width && AllDigits(AppendInt(x, width))
    ensures DecimalValue(AppendInt(x, width)) == x
  {
    DecimalLength(x);
    DecimalValueZeroPad(Decimal(x), width);
    DecimalValueOfDecimal(x);
    assert AppendInt(x, width) == ZeroPad(Decimal(x), width);
  }
}
