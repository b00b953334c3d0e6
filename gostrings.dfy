/** The pieces of Go's `strings`, `strconv` and `sort` packages that the
    recurrence rules use. A Go string is a sequence of bytes; here it is a
    Dafny `string` whose every character stands for one byte. */
module GoStrings {
  import opened Results

  const MinInt64: int := -0x8000_0000_0000_0000
  const MaxInt64: int := 0x7fff_ffff_ffff_ffff

  // ---------------------------------------------------------------------
  // strings.ReplaceAll(s, old, "") for a one-byte `old`
  // ---------------------------------------------------------------------

  /** `s` with every occurrence of `c` deleted. */
  function RemoveAll(s: string, c: char): (r: string)
    ensures c !in r
    ensures |r| + multiset(s)[c] == |s|
    ensures forall x :: x != c ==> multiset(r)[x] == multiset(s)[x]
    ensures c !in s ==> r == s
  {
    if s == [] then []
    else
      assert s == [s[0]] + s[1..];
      if s[0] == c then RemoveAll(s[1..], c) else [s[0]] + RemoveAll(s[1..], c)
  }

  /** A first byte other than `c` stays first. */
  lemma RemoveAllFirst(s: string, c: char)
    requires s != [] && s[0] != c
    ensures RemoveAll(s, c) != [] && RemoveAll(s, c)[0] == s[0]
  {
  }

  /** Deleting distributes over concatenation, so the bytes that stay keep
      their order: with the one-byte cases this fixes the result. */
  lemma {:induction false} RemoveAllAppend(a: string, b: string, c: char)
    ensures RemoveAll(a + b, c) == RemoveAll(a, c) + RemoveAll(b, c)
    decreases |a|
  {
    if a == [] {
      assert a + b == b;
    } else {
      assert (a + b)[0] == a[0] && (a + b)[1..] == a[1..] + b;
      RemoveAllAppend(a[1..], b, c);
    }
  }

  /** The decimal spelling of an integer holds no space. */
  lemma SignedHasNoSpace(n: int)
    ensures ' ' !in Signed(n)
  {
    var s := if n < 0 then Decimal(-n) else Decimal(n);
    assert forall i :: 0 <= i < |s| ==> IsDigit(s[i]);
    if n < 0 {
      assert Signed(n) == "-" + s;
      assert forall i :: 0 <= i < |Signed(n)| ==> Signed(n)[i] != ' ' by {
        forall i | 0 <= i < |Signed(n)|
          ensures Signed(n)[i] != ' '
        {
          if i > 0 {
            assert Signed(n)[i] == s[i - 1];
          }
        }
      }
    }
  }

  // ---------------------------------------------------------------------
  // strings.Split(s, sep) for a one-byte `sep`
  // ---------------------------------------------------------------------

  /** Number of occurrences of `c` in `s`. */
  function Count(s: string, c: char): nat
  {
    multiset(s)[c]
  }

  lemma AppendAssoc<T>(a: seq<T>, b: seq<T>, c: seq<T>)
    ensures (a + b) + c == a + (b + c)
  {
  }

  /** The inverse of Split: the parts glued back together with `sep`. */
  function Join(parts: seq<string>, sep: char): string
    requires |parts| >= 1
  {
    if |parts| == 1 then parts[0] else parts[0] + [sep] + Join(parts[1..], sep)
  }

  /** The pieces of `s` between the occurrences of `sep`: one more piece than
      there are separators, none of them holding `sep`. `Split("", sep)` is
      `[""]`. */
  function Split(s: string, sep: char): (parts: seq<string>)
    ensures |parts| == Count(s, sep) + 1
    ensures forall i :: 0 <= i < |parts| ==> sep !in parts[i]
  {
    if s == [] then [""]
    else
      assert s == [s[0]] + s[1..];
      var rest := Split(s[1..], sep);
      if s[0] == sep then
        [""] + rest
      else
        var parts := [[s[0]] + rest[0]] + rest[1..];
        assert parts[1..] == rest[1..];
        parts
  }

  /** Gluing the pieces back with `sep` gives `s` again. */
  lemma {:induction false} SplitJoin(s: string, sep: char)
    ensures Join(Split(s, sep), sep) == s
  {
    if s != [] {
      SplitJoin(s[1..], sep);
      if s[0] == sep {
        SplitJoinAtSep(s, sep);
      } else {
        SplitJoinInPiece(s, sep);
      }
    }
  }

  lemma SplitJoinAtSep(s: string, sep: char)
    requires s != [] && s[0] == sep
    requires Join(Split(s[1..], sep), sep) == s[1..]
    ensures Join(Split(s, sep), sep) == s
  {
    var rest := Split(s[1..], sep);
    assert Split(s, sep)[1..] == rest;
    assert s == [s[0]] + s[1..];
  }

  lemma SplitJoinInPiece(s: string, sep: char)
    requires s != [] && s[0] != sep
    requires Join(Split(s[1..], sep), sep) == s[1..]
    ensures Join(Split(s, sep), sep) == s
  {
    var rest := Split(s[1..], sep);
    var parts := [[s[0]] + rest[0]] + rest[1..];
    assert Split(s, sep) == parts;
    JoinGrowsFirst(rest, [s[0]], sep);
    assert s == [s[0]] + s[1..];
  }

  /** Putting `pre` in front of the first piece puts it in front of the whole. */
  lemma JoinGrowsFirst(parts: seq<string>, pre: string, sep: char)
    requires |parts| >= 1
    ensures Join([pre + parts[0]] + parts[1..], sep) == pre + Join(parts, sep)
  {
    var grown := [pre + parts[0]] + parts[1..];
    if |parts| > 1 {
      assert grown[1..] == parts[1..];
    }
  }

  // ---------------------------------------------------------------------
  // Decimal digits
  // ---------------------------------------------------------------------

  predicate IsDigit(c: char)
  {
    '0' <= c <= '9'
  }

  predicate AllDigits(s: string)
  {
    forall i :: 0 <= i < |s| ==> IsDigit(s[i])
  }

  function DigitValue(c: char): int
  {
    c as int - '0' as int
  }

  function DigitChar(d: int): (c: char)
    requires 0 <= d <= 9
    ensures IsDigit(c) && DigitValue(c) == d
  {
    ('0' as int + d) as char
  }

  /** The value of a string of decimal digits, most significant first. */
  function DecimalValue(s: string): (v: nat)
    requires AllDigits(s)
  {
    if s == [] then 0 else DecimalValue(s[..|s| - 1]) * 10 + DigitValue(s[|s| - 1])
  }

  /** The shortest decimal spelling of `u`. */
  function Decimal(u: nat): (s: string)
    ensures |s| >= 1 && AllDigits(s)
    ensures u < 10 <==> |s| == 1
  {
    if u < 10 then [DigitChar(u)] else Decimal(u / 10) + [DigitChar(u % 10)]
  }

  lemma {:induction false} DecimalValueOfDecimal(u: nat)
    ensures DecimalValue(Decimal(u)) == u
  {
    if u >= 10 {
      DecimalValueOfDecimal(u / 10);
      var s := Decimal(u);
      assert s[..|s| - 1] == Decimal(u / 10);
    }
  }

  /** `s` preceded by enough '0's to be `width` long. */
  function ZeroPad(s: string, width: nat): (r: string)
    ensures |r| == if |s| < width then width else |s|
    ensures AllDigits(s) ==> AllDigits(r)
  {
    if |s| < width then seq(width - |s|, _ => '0') + s else s
  }

  lemma {:induction false} DecimalValueLeadingZero(s: string)
    requires AllDigits(s)
    ensures AllDigits("0" + s) && DecimalValue("0" + s) == DecimalValue(s)
    decreases |s|
  {
    if s != [] {
      var t := "0" + s;
      assert t[..|t| - 1] == "0" + s[..|s| - 1];
      DecimalValueLeadingZero(s[..|s| - 1]);
    }
  }

  /** Leading zeros do not change a decimal value. */
  lemma {:induction false} DecimalValueZeroPad(s: string, width: nat)
    requires AllDigits(s)
    ensures DecimalValue(ZeroPad(s, width)) == DecimalValue(s)
    decreases width
  {
    if |s| < width {
      var zeros := seq(width - |s|, _ => '0');
      if width - |s| > 1 {
        DecimalValueZeroPad(s, width - 1);
        assert ZeroPad(s, width) == "0" + ZeroPad(s, width - 1);
        DecimalValueLeadingZero(ZeroPad(s, width - 1));
      } else {
        assert ZeroPad(s, width) == "0" + s;
        DecimalValueLeadingZero(s);
      }
    }
  }

  /** Numbers below 10^k take at most k digits. */
  lemma DecimalLength(u: nat)
    ensures u < 100 ==> |Decimal(u)| <= 2
    ensures u < 10000 ==> |Decimal(u)| <= 4
  {
    if u >= 10 {
      assert Decimal(u) == Decimal(u / 10) + [DigitChar(u % 10)];
      if u >= 100 {
        assert Decimal(u / 10) == Decimal(u / 100) + [DigitChar(u / 10 % 10)];
        if u >= 1000 {
          assert Decimal(u / 100) == Decimal(u / 1000) + [DigitChar(u / 100 % 10)];
        }
      }
    }
  }

  function Pow10(n: nat): (p: nat)
    ensures p >= 1
  {
    if n == 0 then 1 else 10 * Pow10(n - 1)
  }

  /** k digits hold a value below 10^k. */
  lemma {:induction false} DecimalValueBound(s: string)
    requires AllDigits(s)
    ensures DecimalValue(s) < Pow10(|s|)
    decreases |s|
  {
    if s != [] {
      DecimalValueBound(s[..|s| - 1]);
    }
  }

  /** Two digit strings of one length with one value are the same string. */
  lemma {:induction false} DecimalValueInjective(s: string, t: string)
    requires |s| == |t| && AllDigits(s) && AllDigits(t)
    requires DecimalValue(s) == DecimalValue(t)
    ensures s == t
    decreases |s|
  {
    if s != [] {
      var n := |s| - 1;
      DecimalValueLast(s);
      DecimalValueLast(t);
      LastDigit(DecimalValue(s[..n]), DigitValue(s[n]), DecimalValue(t[..n]), DigitValue(t[n]));
      DecimalValueInjective(s[..n], t[..n]);
      SameInitAndLast(s, t);
    }
  }

  /** The value of a digit string is that of all but its last digit, times
      ten, plus the last digit. */
  lemma DecimalValueLast(s: string)
    requires s != [] && AllDigits(s)
    ensures AllDigits(s[..|s| - 1]) && 0 <= DigitValue(s[|s| - 1]) <= 9
    ensures DecimalValue(s) == DecimalValue(s[..|s| - 1]) * 10 + DigitValue(s[|s| - 1])
  {
  }

  lemma SameInitAndLast(s: string, t: string)
    requires |s| == |t| >= 1
    requires s[..|s| - 1] == t[..|t| - 1] && DigitValue(s[|s| - 1]) == DigitValue(t[|t| - 1])
    ensures s == t
  {
    var n := |s| - 1;
    assert s == s[..n] + [s[n]] && t == t[..n] + [t[n]];
  }

  /** A value and a last digit are determined by the number they make. */
  lemma LastDigit(a: nat, x: int, b: nat, y: int)
    requires 0 <= x <= 9 && 0 <= y <= 9
    requires a * 10 + x == b * 10 + y
    ensures a == b && x == y
  {
  }

  /** Comparing two strings whose first parts have one length: the first
      parts decide unless they are equal. */
  lemma {:induction false} LexLeAppend(a: string, b: string, c: string, d: string)
    requires |a| == |c|
    ensures LexLe(a + b, c + d) == if a == c then LexLe(b, d) else LexLe(a, c)
    decreases |a|
  {
    if a == [] {
      assert a + b == b && c + d == d;
    } else {
      assert (a + b)[0] == a[0] && (c + d)[0] == c[0];
      assert (a + b)[1..] == a[1..] + b && (c + d)[1..] == c[1..] + d;
      if a[0] == c[0] {
        LexLeAppend(a[1..], b, c[1..], d);
        assert a == [a[0]] + a[1..] && c == [c[0]] + c[1..];
        assert a == c <==> a[1..] == c[1..];
      }
    }
  }

  /** On digit strings of one length, byte-wise order is numeric order. */
  lemma {:induction false} LexLeDigits(s: string, t: string)
    requires |s| == |t| && AllDigits(s) && AllDigits(t)
    ensures LexLe(s, t) <==> DecimalValue(s) <= DecimalValue(t)
    decreases |s|
  {
    if s != [] {
      var n := |s| - 1;
      LexLeDigits(s[..n], t[..n]);
      assert s == s[..n] + [s[n]] && t == t[..n] + [t[n]];
      LexLeAppend(s[..n], [s[n]], t[..n], [t[n]]);
      if s[..n] != t[..n] {
        if DecimalValue(s[..n]) == DecimalValue(t[..n]) {
          DecimalValueInjective(s[..n], t[..n]);
        }
      }
    }
  }

  /** Appending two digits multiplies the value so far by 100. */
  lemma DecimalValueAppend2(a: string, b: string)
    requires AllDigits(a) && AllDigits(b) && |b| == 2
    ensures AllDigits(a + b)
    ensures DecimalValue(a + b) == DecimalValue(a) * 100 + DecimalValue(b)
  {
    var ab := a + b;
    var a1 := a + [b[0]];
    assert ab[..|ab| - 1] == a1 && ab[|ab| - 1] == b[1];
    assert DecimalValue(ab) == DecimalValue(a1) * 10 + DigitValue(b[1]);
    assert a1[..|a1| - 1] == a && a1[|a1| - 1] == b[0];
    assert DecimalValue(a1) == DecimalValue(a) * 10 + DigitValue(b[0]);
    assert b[..1] == [b[0]] && [b[0]][..0] == [];
    assert DecimalValue([b[0]]) == DigitValue(b[0]);
    assert DecimalValue(b) == DecimalValue(b[..1]) * 10 + DigitValue(b[1]);
  }

  // ---------------------------------------------------------------------
  // strconv.Atoi
  // ---------------------------------------------------------------------

  /** The integer syntax strconv.Atoi reads: an optional '+' or '-', then
      one or more decimal digits, and nothing else. */
  predicate IsIntegerText(s: string)
  {
    |s| >= 1
    && (IsDigit(s[0]) || (|s| >= 2 && (s[0] == '-' || s[0] == '+')))
    && forall i :: 1 <= i < |s| ==> IsDigit(s[i])
  }

  /** The integer an integer text spells, its sign applied. */
  function IntegerValue(s: string): int
    requires IsIntegerText(s)
  {
    if s[0] == '-' then -(DecimalValue(s[1..]) as int)
    else if s[0] == '+' then DecimalValue(s[1..])
    else DecimalValue(s)
  }

  /** strconv.Atoi: an optional sign, then one or more decimal digits, with a
      value that fits Go's 64-bit `int`; anything else is an error. */
  function Atoi(s: string): (r: Option<int>)
    ensures r.Some? ==> MinInt64 <= r.value <= MaxInt64
    ensures r.Some? ==> |s| >= 1 && (IsDigit(s[0]) || s[0] == '-' || s[0] == '+')
    ensures r.Some? <==> IsIntegerText(s) && MinInt64 <= IntegerValue(s) <= MaxInt64
    ensures r.Some? ==> r.value == IntegerValue(s)
  {
    var body := if |s| > 0 && (s[0] == '-' || s[0] == '+') then s[1..] else s;
    if |body| == 0 || !AllDigits(body) then None
    else
      var magnitude: int := DecimalValue(body);
      var v := if s[0] == '-' then -magnitude else magnitude;
      if v < MinInt64 || MaxInt64 < v then None else Some(v)
  }

  /** The decimal spelling of any integer, with a '-' for negatives
      (what strconv.Itoa gives). */
  function Signed(n: int): string
  {
    if n < 0 then "-" + Decimal(-n) else Decimal(n)
  }

  /** Atoi reads back every 64-bit integer from its decimal spelling. */
  lemma AtoiSigned(n: int)
    requires MinInt64 <= n <= MaxInt64
    ensures Atoi(Signed(n)) == Some(n)
  {
    if n < 0 {
      AtoiNegative(n);
    } else {
      AtoiNonNegative(n);
    }
  }

  /** A byte other than a digit after the first position makes Atoi fail,
      whatever the rest of the text. */
  lemma AtoiRejectsNonDigit(s: string, i: int)
    requires 0 < i < |s| && !IsDigit(s[i])
    ensures Atoi(s).None?
  {
  }

  /** The empty text, a bare sign, and a text that starts with a byte other
      than a digit or a sign make Atoi fail. */
  lemma AtoiRejectsLead(s: string)
    requires s == [] || s == "-" || s == "+" || (!IsDigit(s[0]) && s[0] != '-' && s[0] != '+')
    ensures Atoi(s).None?
  {
  }

  /** An explicit '+' reads as the unsigned spelling. */
  lemma AtoiPlus(n: int)
    requires 0 <= n <= MaxInt64
    ensures Atoi("+" + Decimal(n)) == Some(n)
  {
    var s := "+" + Decimal(n);
    assert s[1..] == Decimal(n);
    DecimalValueOfDecimal(n);
  }

  /** Leading zeros do not change what Atoi reads from digits. */
  lemma AtoiLeadingZero(s: string)
    requires s != [] && AllDigits(s)
    ensures Atoi("0" + s) == Atoi(s)
  {
    DecimalValueLeadingZero(s);
  }

  lemma AtoiNegative(n: int)
    requires MinInt64 <= n < 0
    ensures Atoi("-" + Decimal(-n)) == Some(n)
  {
    var s := "-" + Decimal(-n);
    assert s[0] == '-' && s[1..] == Decimal(-n);
    DecimalValueOfDecimal(-n);
  }

  lemma AtoiNonNegative(n: int)
    requires 0 <= n <= MaxInt64
    ensures Atoi(Decimal(n)) == Some(n)
  {
    var s := Decimal(n);
    assert IsDigit(s[0]);
    DecimalValueOfDecimal(n);
  }

  // ---------------------------------------------------------------------
  // Byte-wise string order and sort.Strings
  // ---------------------------------------------------------------------

  /** Go's `a <= b` on strings: byte by byte, a proper prefix first. */
  predicate LexLe(a: string, b: string)
  {
    if a == [] then true
    else if b == [] then false
    else if a[0] != b[0] then a[0] < b[0]
    else LexLe(a[1..], b[1..])
  }

  lemma {:induction false} LexLeTotal(a: string, b: string)
    ensures LexLe(a, b) || LexLe(b, a)
  {
    if a != [] && b != [] && a[0] == b[0] {
      LexLeTotal(a[1..], b[1..]);
    }
  }

  lemma {:induction false} LexLeTransitive(a: string, b: string, c: string)
    requires LexLe(a, b) && LexLe(b, c)
    ensures LexLe(a, c)
  {
    if a != [] && b != [] && c != [] && a[0] == b[0] && b[0] == c[0] {
      LexLeTransitive(a[1..], b[1..], c[1..]);
    }
  }

  lemma {:induction false} LexLeAntisymmetric(a: string, b: string)
    requires LexLe(a, b) && LexLe(b, a)
    ensures a == b
  {
    if a != [] && b != [] {
      LexLeAntisymmetric(a[1..], b[1..]);
      assert a == [a[0]] + a[1..] && b == [b[0]] + b[1..];
    }
  }

  predicate Sorted(s: seq<string>)
  {
    forall i, j :: 0 <= i < j < |s| ==> LexLe(s[i], s[j])
  }

  /** `x` placed before the first element it does not exceed. */
  function Insert(x: string, s: seq<string>): (r: seq<string>)
    ensures multiset(r) == multiset(s) + multiset{x}
  {
    if s == [] then [x]
    else if LexLe(x, s[0]) then [x] + s
    else
      assert s == [s[0]] + s[1..];
      [s[0]] + Insert(x, s[1..])
  }

  lemma {:induction false} InsertSorted(x: string, s: seq<string>)
    requires Sorted(s)
    ensures Sorted(Insert(x, s))
  {
    if s == [] {
    } else if LexLe(x, s[0]) {
      forall j | 0 <= j < |s| ensures LexLe(x, s[j]) {
        if j > 0 {
          LexLeTransitive(x, s[0], s[j]);
        }
      }
      ConsSorted(x, s);
    } else {
      InsertSorted(x, s[1..]);
      HeadBelowInsert(x, s);
      ConsSorted(s[0], Insert(x, s[1..]));
    }
  }

  /** A string no greater than any of a sorted list stays sorted in front. */
  lemma ConsSorted(a: string, s: seq<string>)
    requires Sorted(s)
    requires forall j :: 0 <= j < |s| ==> LexLe(a, s[j])
    ensures Sorted([a] + s)
  {
    var r := [a] + s;
    forall i, j | 0 <= i < j < |r| ensures LexLe(r[i], r[j]) {
      assert r[j] == s[j - 1];
      if i > 0 {
        assert r[i] == s[i - 1];
      }
    }
  }

  /** When `x` goes after the head, the head is below everything after it. */
  lemma HeadBelowInsert(x: string, s: seq<string>)
    requires Sorted(s) && s != [] && !LexLe(x, s[0])
    ensures forall j :: 0 <= j < |Insert(x, s[1..])| ==> LexLe(s[0], Insert(x, s[1..])[j])
  {
    var rest := Insert(x, s[1..]);
    LexLeTotal(x, s[0]);
    forall j | 0 <= j < |rest| ensures LexLe(s[0], rest[j]) {
      assert rest[j] in multiset(rest);
      if rest[j] != x {
        assert rest[j] in multiset(s[1..]);
        var k :| 0 <= k < |s[1..]| && s[1..][k] == rest[j];
        assert s[k + 1] == rest[j];
      }
    }
  }

  /** sort.Strings: the same strings, in ascending byte-wise order. */
  function SortStrings(s: seq<string>): (r: seq<string>)
    ensures multiset(r) == multiset(s)
    ensures |r| == |s|
    ensures Sorted(r)
  {
    if s == [] then []
    else
      assert s == [s[0]] + s[1..];
      var r := Insert(s[0], SortStrings(s[1..]));
      InsertSorted(s[0], SortStrings(s[1..]));
      assert |r| == |multiset(r)|;
      r
  }

  /** Sorting is idle on fewer than two strings. */
  lemma SortShort(s: seq<string>)
    requires |s| <= 1
    ensures SortStrings(s) == s
  {
  }

  /** The first string of a sorted list is the least of them all. */
  lemma SortedFirstIsLeast(s: seq<string>, x: string)
    requires Sorted(s) && x in s
    ensures LexLe(s[0], x)
  {
    var k :| 0 <= k < |s| && s[k] == x;
    if k == 0 {
      LexLeReflexive(x);
    }
  }

  lemma {:induction false} LexLeReflexive(a: string)
    ensures LexLe(a, a)
  {
    if a != [] {
      LexLeReflexive(a[1..]);
    }
  }
}
