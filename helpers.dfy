/** lib/helpers.go: the layout in which every date is stored and exchanged,
    and the conversion of dates typed as DD.MM.YYYY into that layout. */
module Helpers {
  import opened Results
  import opened GoStrings
  import opened GoTime

  /** Go's reference-time spelling of YYYYMMDD, the basic calendar-date
      format of ISO 8601. */
  const Layout: string := "20060102"

  /** The layout IsDate and ParseTime read: DD.MM.YYYY. */
  const SearchLayout: string := "02.01.2006"

  lemma LayoutChunks()
    ensures Chunks(Layout) == [LongYear, ZeroMonth, ZeroDay]
  {
    var l := Layout;
    assert l[..4] == "2006" && l[4..] == "0102";
    var m := l[4..];
    assert m[..4] != "2006" by { assert m[0] != '2'; }
    assert m[..2] == "01" && m[2..] == "02";
    var d := m[2..];
    assert d[..2] == "02" && d[2..] == "";
  }

  lemma SearchLayoutChunks()
    ensures Chunks(SearchLayout) == [ZeroDay, Lit('.'), ZeroMonth, Lit('.'), LongYear]
  {
    DotMonthYearChunks();
    assert SearchLayout == "02" + ".01.2006";
    DayChunk(".01.2006");
  }

  /** A layout that starts with "02" starts with a zero-padded day. */
  lemma DayChunk(rest: string)
    ensures Chunks("02" + rest) == [ZeroDay] + Chunks(rest)
  {
    var l := "02" + rest;
    assert l[0] == '0';
    assert l[..2] == "02" && l[2..] == rest;
  }

  /** The tail ".01.2006" of the search layout. */
  lemma DotMonthYearChunks()
    ensures Chunks(".01.2006") == [Lit('.'), ZeroMonth, Lit('.'), LongYear]
  {
    var a := ".01.2006";
    MonthYearChunks();
    assert a[..4] != "2006" && a[..2] != "01" && a[..2] != "02" by { assert a[0] == '.'; }
    assert a[1..] == "01.2006";
  }

  lemma MonthYearChunks()
    ensures Chunks("01.2006") == [ZeroMonth, Lit('.'), LongYear]
  {
    var b := "01.2006";
    DotYearChunks();
    assert b[..4] != "2006" by { assert b[0] != '2'; }
    assert b[..2] == "01" && b[2..] == ".2006";
  }

  lemma DotYearChunks()
    ensures Chunks(".2006") == [Lit('.'), LongYear]
  {
    var c := ".2006";
    assert c[..4] != "2006" && c[..2] != "01" && c[..2] != "02" by { assert c[0] == '.'; }
    assert c[1..] == "2006";
    var d := c[1..];
    assert d[..4] == "2006" && d[4..] == "";
  }

  lemma AllDigitsConcat(a: string, b: string)
    ensures AllDigits(a + b) <==> AllDigits(a) && AllDigits(b)
  {
    if AllDigits(a) && AllDigits(b) {
      forall i | 0 <= i < |a + b|
        ensures IsDigit((a + b)[i])
      {
        if i >= |a| {
          assert (a + b)[i] == b[i - |a|];
        }
      }
    }
    if AllDigits(a + b) {
      forall i | 0 <= i < |a|
        ensures IsDigit(a[i])
      {
        assert (a + b)[i] == a[i];
      }
      forall i | 0 <= i < |b|
        ensures IsDigit(b[i])
      {
        assert (a + b)[|a| + i] == b[i];
      }
    }
  }

  // ---------------------------------------------------------------------
  // The basic layout YYYYMMDD
  // ---------------------------------------------------------------------

  /** The year, month and day an eight-digit string spells. */
  function BasicCivil(s: string): Civil
    requires |s| == 8 && AllDigits(s)
  {
    Civil(DecimalValue(s[..4]), DecimalValue(s[4..6]), DecimalValue(s[6..]))
  }

  /** Eight digits YYYYMMDD that name a real calendar day. */
  predicate IsBasicDate(s: string)
  {
    |s| == 8 && AllDigits(s) && Valid(BasicCivil(s))
  }

  lemma ParseDayField(v: string, f: Fields)
    requires f.month == -1 || 1 <= f.month <= 12
    ensures ParseFields([ZeroDay], v, f)
      == if |v| == 2 && AllDigits(v) then Some(f.(day := DecimalValue(v))) else None
  {
    var ch := [ZeroDay];
    assert ch[1..] == [];
    if |v| == 2 {
      assert v[..2] == v && v[2..] == [];
    }
    if |v| >= 2 {
      assert v[..2] + v[2..] == v;
      AllDigitsConcat(v[..2], v[2..]);
    }
  }

  lemma ParseMonthDayFields(v: string, f: Fields)
    requires f.month == -1 || 1 <= f.month <= 12
    ensures ParseFields([ZeroMonth, ZeroDay], v, f)
      == if |v| == 4 && AllDigits(v) && 1 <= DecimalValue(v[..2]) <= 12
         then Some(f.(month := DecimalValue(v[..2]), day := DecimalValue(v[2..])))
         else None
  {
    var ch := [ZeroMonth, ZeroDay];
    assert ch[1..] == [ZeroDay];
    if |v| >= 2 && AllDigits(v[..2]) && 1 <= DecimalValue(v[..2]) <= 12 {
      ParseDayField(v[2..], f.(month := DecimalValue(v[..2])));
    }
    if |v| >= 2 {
      assert v[..2] + v[2..] == v;
      AllDigitsConcat(v[..2], v[2..]);
    }
  }

  lemma ParseBasicFields(s: string)
    ensures ParseFields([LongYear, ZeroMonth, ZeroDay], s, Fields(0, -1, -1))
      == if |s| == 8 && AllDigits(s) && 1 <= DecimalValue(s[4..6]) <= 12
         then Some(Fields(DecimalValue(s[..4]), DecimalValue(s[4..6]), DecimalValue(s[6..])))
         else None
  {
    var ch := [LongYear, ZeroMonth, ZeroDay];
    assert ch[1..] == [ZeroMonth, ZeroDay];
    if |s| >= 4 && AllDigits(s[..4]) {
      var v := s[4..];
      ParseMonthDayFields(v, Fields(DecimalValue(s[..4]), -1, -1));
      if |v| == 4 {
        assert v[..2] == s[4..6] && v[2..] == s[6..];
      }
    }
    if |s| >= 4 {
      assert s[..4] + s[4..] == s;
      AllDigitsConcat(s[..4], s[4..]);
    }
  }

  /** time.Parse(Layout, s) accepts exactly eight digits naming a real day,
      and gives that day. */
  lemma ParseLayout(s: string)
    ensures Parse(Layout, s).Some? <==> IsBasicDate(s)
    ensures IsBasicDate(s) ==> CivilOf(Parse(Layout, s).value) == BasicCivil(s)
  {
    LayoutChunks();
    ParseBasicFields(s);
    if IsBasicDate(s) {
      GoDateOfValid(BasicCivil(s));
    }
  }

  lemma FormatBasicCivil(c: Civil)
    requires Valid(c) && 0 <= c.year <= 9999
    ensures var s := FormatChunks([LongYear, ZeroMonth, ZeroDay], c);
      && |s| == 8 && AllDigits(s) && BasicCivil(s) == c
      && DecimalValue(s) == c.year * 10000 + c.month * 100 + c.day
  {
    var a, b, e := AppendInt(c.year, 4), AppendInt(c.month, 2), AppendInt(c.day, 2);
    AppendIntDigits(c.year, 4);
    AppendIntDigits(c.month, 2);
    AppendIntDigits(c.day, 2);
    var ch := [LongYear, ZeroMonth, ZeroDay];
    assert ch[1..] == [ZeroMonth, ZeroDay] && ch[1..][1..] == [ZeroDay] && ch[1..][1..][1..] == [];
    var s := FormatChunks(ch, c);
    assert FormatChunks(ch[1..][1..][1..], c) == [];
    assert FormatChunks(ch[1..][1..], c) == e;
    assert FormatChunks(ch[1..], c) == b + e;
    assert s == a + (b + e);
    assert s == (a + b) + e;
    AllDigitsConcat(a, b);
    AllDigitsConcat(a + b, e);
    assert s[..4] == a && s[4..6] == b && s[6..] == e;
    DecimalValueAppend2(a, b);
    DecimalValueAppend2(a + b, e);
  }

  /** A day of the years 0..9999 formats as eight digits that spell its
      year, month and day. */
  lemma FormatLayout(t: Date)
    requires 0 <= Year(t) <= 9999
    ensures IsBasicDate(Format(Layout, t))
    ensures BasicCivil(Format(Layout, t)) == CivilOf(t)
    ensures DecimalValue(Format(Layout, t)) == Year(t) * 10000 + Month(t) * 100 + Day(t)
  {
    LayoutChunks();
    FormatBasicCivil(CivilOf(t));
  }

  /** Parsing a formatted day gives the day back. */
  lemma ParseFormat(t: Date)
    requires 0 <= Year(t) <= 9999
    ensures Parse(Layout, Format(Layout, t)) == Some(t)
  {
    FormatLayout(t);
    ParseLayout(Format(Layout, t));
    var u := Parse(Layout, Format(Layout, t)).value;
    assert CivilOf(u) == CivilOf(t);
    CivilOfInjective(u, t);
  }

  lemma CivilOfInjective(t: Date, u: Date)
    requires CivilOf(t) == CivilOf(u)
    ensures t == u
  {
    DateOrderIsCalendarOrder(t, u);
    DateOrderIsCalendarOrder(u, t);
  }

  /** A parsed day lies in the years 0..9999. */
  lemma ParsedInFourDigitYears(s: string)
    requires Parse(Layout, s).Some?
    ensures InFourDigitYears(Parse(Layout, s).value)
  {
    ParsedYear(s);
    FourDigitYears(Parse(Layout, s).value);
  }

  lemma ParsedYear(s: string)
    requires Parse(Layout, s).Some?
    ensures 0 <= Year(Parse(Layout, s).value) <= 9999
  {
    ParseLayout(s);
    DecimalValueBound(s[..4]);
    assert Pow10(4) == 10000;
  }

  /** Formatting a parsed day gives the text back. */
  lemma FormatParse(s: string)
    requires Parse(Layout, s).Some?
    ensures Format(Layout, Parse(Layout, s).value) == s
  {
    ParseLayout(s);
    var t := Parse(Layout, s).value;
    ParsedYear(s);
    FormatLayout(t);
    BasicCivilInjective(Format(Layout, t), s);
  }

  /** Two YYYYMMDD spellings with the same fields are the same text. */
  lemma BasicCivilInjective(s: string, f: string)
    requires |s| == 8 && AllDigits(s) && |f| == 8 && AllDigits(f)
    requires BasicCivil(s) == BasicCivil(f)
    ensures s == f
  {
    DecimalValueInjective(s[..4], f[..4]);
    DecimalValueInjective(s[4..6], f[4..6]);
    DecimalValueInjective(s[6..], f[6..]);
    assert s == s[..4] + s[4..6] + s[6..];
    assert f == f[..4] + f[4..6] + f[6..];
  }

  /** For days of the years 0..9999 the byte-wise order of their YYYYMMDD
      spellings is the order of the days, so sorting the strings sorts the
      dates. */
  lemma FormatOrder(t: Date, u: Date)
    requires 0 <= Year(t) <= 9999 && 0 <= Year(u) <= 9999
    ensures LexLe(Format(Layout, t), Format(Layout, u)) <==> t <= u
  {
    FormatLayout(t);
    FormatLayout(u);
    LexLeDigits(Format(Layout, t), Format(Layout, u));
    DateOrderIsCalendarOrder(u, t);
  }

  // ---------------------------------------------------------------------
  // The search layout DD.MM.YYYY, IsDate and ParseTime
  // ---------------------------------------------------------------------

  /** DD.MM.YYYY: two digits, a dot, two digits, a dot, four digits, naming a
      real calendar day. */
  predicate IsSearchDate(s: string)
  {
    && |s| == 10 && s[2] == '.' && s[5] == '.'
    && AllDigits(s[..2]) && AllDigits(s[3..5]) && AllDigits(s[6..])
    && Valid(SearchCivil(s))
  }

  /** The year, month and day a DD.MM.YYYY string spells. */
  function SearchCivil(s: string): Civil
    requires |s| == 10 && AllDigits(s[..2]) && AllDigits(s[3..5]) && AllDigits(s[6..])
  {
    Civil(DecimalValue(s[6..]), DecimalValue(s[3..5]), DecimalValue(s[..2]))
  }

  lemma ParseYearField(v: string, f: Fields)
    requires f.month == -1 || 1 <= f.month <= 12
    ensures ParseFields([LongYear], v, f)
      == if |v| == 4 && AllDigits(v) then Some(f.(year := DecimalValue(v))) else None
  {
    var ch := [LongYear];
    assert ch[1..] == [];
    if |v| == 4 {
      assert v[..4] == v && v[4..] == [];
    }
  }

  lemma ParseDotYear(v: string, f: Fields)
    requires f.month == -1 || 1 <= f.month <= 12
    ensures ParseFields([Lit('.'), LongYear], v, f)
      == if |v| == 5 && v[0] == '.' && AllDigits(v[1..])
         then Some(f.(year := DecimalValue(v[1..]))) else None
  {
    var ch := [Lit('.'), LongYear];
    assert ch[1..] == [LongYear];
    if |v| >= 1 && v[0] == '.' {
      ParseYearField(v[1..], f);
    }
  }

  lemma ParseMonthDotYear(v: string, f: Fields)
    requires f.month == -1 || 1 <= f.month <= 12
    ensures ParseFields([ZeroMonth, Lit('.'), LongYear], v, f)
      == if |v| == 7 && AllDigits(v[..2]) && 1 <= DecimalValue(v[..2]) <= 12
            && v[2] == '.' && AllDigits(v[3..])
         then Some(f.(month := DecimalValue(v[..2]), year := DecimalValue(v[3..])))
         else None
  {
    var ch := [ZeroMonth, Lit('.'), LongYear];
    assert ch[1..] == [Lit('.'), LongYear];
    if |v| >= 2 && AllDigits(v[..2]) && 1 <= DecimalValue(v[..2]) <= 12 {
      ParseDotYear(v[2..], f.(month := DecimalValue(v[..2])));
      if |v| >= 3 {
        assert v[2..][1..] == v[3..];
      }
    }
  }

  lemma ParseDotMonthDotYear(v: string, f: Fields)
    requires f.month == -1 || 1 <= f.month <= 12
    ensures ParseFields([Lit('.'), ZeroMonth, Lit('.'), LongYear], v, f)
      == if |v| == 8 && v[0] == '.' && AllDigits(v[1..3]) && 1 <= DecimalValue(v[1..3]) <= 12
            && v[3] == '.' && AllDigits(v[4..])
         then Some(f.(month := DecimalValue(v[1..3]), year := DecimalValue(v[4..])))
         else None
  {
    var ch := [Lit('.'), ZeroMonth, Lit('.'), LongYear];
    assert ch[1..] == [ZeroMonth, Lit('.'), LongYear];
    if |v| >= 1 && v[0] == '.' {
      var w := v[1..];
      ParseMonthDotYear(w, f);
      if |w| >= 3 {
        assert w[..2] == v[1..3] && w[3..] == v[4..] && w[2] == v[3];
      }
    }
  }

  lemma ParseSearchFields(s: string)
    ensures ParseFields([ZeroDay, Lit('.'), ZeroMonth, Lit('.'), LongYear], s, Fields(0, -1, -1))
      == if && |s| == 10 && AllDigits(s[..2]) && s[2] == '.' && AllDigits(s[3..5])
            && 1 <= DecimalValue(s[3..5]) <= 12 && s[5] == '.' && AllDigits(s[6..])
         then Some(Fields(DecimalValue(s[6..]), DecimalValue(s[3..5]), DecimalValue(s[..2])))
         else None
  {
    var ch := [ZeroDay, Lit('.'), ZeroMonth, Lit('.'), LongYear];
    assert ch[1..] == [Lit('.'), ZeroMonth, Lit('.'), LongYear];
    if |s| >= 2 && AllDigits(s[..2]) {
      var v := s[2..];
      ParseDotMonthDotYear(v, Fields(0, -1, DecimalValue(s[..2])));
      if |v| >= 4 {
        assert v[1..3] == s[3..5] && v[4..] == s[6..] && v[0] == s[2] && v[3] == s[5];
      }
    }
  }

  /** time.Parse("02.01.2006", s) accepts exactly DD.MM.YYYY naming a real
      day, and gives that day. */
  lemma ParseSearchLayout(s: string)
    ensures Parse(SearchLayout, s).Some? <==> IsSearchDate(s)
    ensures IsSearchDate(s) ==> CivilOf(Parse(SearchLayout, s).value) == SearchCivil(s)
  {
    SearchLayoutChunks();
    ParseSearchFields(s);
    if IsSearchDate(s) {
      GoDateOfValid(SearchCivil(s));
    }
  }

  /** IsDate(s): whether `s` parses in the DD.MM.YYYY layout. */
  function IsDate(s: string): (b: bool)
    ensures b <==> IsSearchDate(s)
  {
    ParseSearchLayout(s);
    Parse(SearchLayout, s).Some?
  }

  /** ParseTime(s): the day `s` names in DD.MM.YYYY, rewritten as YYYYMMDD
      (the same digits, reordered); anything else is "invalid date". */
  function ParseTime(s: string): (r: Result<string>)
    ensures r.Ok? <==> IsDate(s)
    ensures r.Err? ==> r.msg == "invalid date"
    ensures r.Ok? ==> r.value == s[6..] + s[3..5] + s[..2] && IsBasicDate(r.value)
  {
    match Parse(SearchLayout, s)
    case None => Err("invalid date")
    case Some(t) =>
      ParseTimeRewrites(s);
      Ok(Format(Layout, t))
  }

  lemma ParseTimeRewrites(s: string)
    requires Parse(SearchLayout, s).Some?
    ensures IsSearchDate(s)
    ensures Format(Layout, Parse(SearchLayout, s).value) == s[6..] + s[3..5] + s[..2]
    ensures IsBasicDate(s[6..] + s[3..5] + s[..2])
  {
    ParseSearchLayout(s);
    var t := Parse(SearchLayout, s).value;
    var r := s[6..] + s[3..5] + s[..2];
    assert r[..4] == s[6..] && r[4..6] == s[3..5] && r[6..] == s[..2];
    AllDigitsConcat(s[6..], s[3..5]);
    AllDigitsConcat(s[6..] + s[3..5], s[..2]);
    assert IsBasicDate(r);
    ParseLayout(r);
    assert CivilOf(Parse(Layout, r).value) == CivilOf(t);
    CivilOfInjective(Parse(Layout, r).value, t);
    FormatParse(r);
  }
}
