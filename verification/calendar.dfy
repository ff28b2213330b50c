/** Gregorian calendar dates as the ledger uses them: the "yyyyMMdd" text form,
    the range of .NET's DateTime (years 1 to 9999), and day-by-day stepping. */
module Calendar {
  import opened Results
  import opened Digits

  datatype Date = Date(year: int, month: int, day: int)

  predicate IsLeapYear(y: int) {
    y % 4 == 0 && (y % 100 != 0 || y % 400 == 0)
  }

  /** January, March, May, July, August, October and December. */
  predicate HasThirtyOneDays(m: int) {
    m == 1 || m == 3 || m == 5 || m == 7 || m == 8 || m == 10 || m == 12
  }

  /** DateTime.DaysInMonth: the length of month `m` of year `y`. */
  function DaysInMonth(y: int, m: int): (n: int)
    requires 1 <= m <= 12
    ensures 28 <= n <= 31
    ensures n == 31 <==> HasThirtyOneDays(m)
    ensures m == 2 ==> n <= 29 && (n == 29 <==> IsLeapYear(y))
    ensures m != 2 && !HasThirtyOneDays(m) ==> n == 30
  {
    if m == 2 then (if IsLeapYear(y) then 29 else 28)
    else if m == 4 || m == 6 || m == 9 || m == 11 then 30
    else 31
  }

  /** The twelve months make up a year of 365 days, or 366 exactly in a leap year. */
  lemma YearLength(y: int)
    ensures DaysInMonth(y, 1) + DaysInMonth(y, 2) + DaysInMonth(y, 3) + DaysInMonth(y, 4)
            + DaysInMonth(y, 5) + DaysInMonth(y, 6) + DaysInMonth(y, 7) + DaysInMonth(y, 8)
            + DaysInMonth(y, 9) + DaysInMonth(y, 10) + DaysInMonth(y, 11) + DaysInMonth(y, 12)
            == if IsLeapYear(y) then 366 else 365
  {
  }

  /** A real calendar day (any year). */
  predicate WellFormed(d: Date) {
    1 <= d.month <= 12 && 1 <= d.day <= DaysInMonth(d.year, d.month)
  }

  /** A day a DateTime can hold. */
  predicate ValidDate(d: Date) {
    1 <= d.year <= 9999 && WellFormed(d)
  }

  /** The date read as the integer yyyyMMdd; comparing keys compares days. */
  function Key(d: Date): int {
    d.year * 10000 + d.month * 100 + d.day
  }

  /** `a` is the same day as `b` or earlier (DateTime's `<=`). */
  predicate DateLe(a: Date, b: Date) {
    Key(a) <= Key(b)
  }

  /** Key order is the chronological (year, month, day) order. */
  lemma KeyIsChronological(a: Date, b: Date)
    requires WellFormed(a) && WellFormed(b)
    ensures Key(a) < Key(b) <==>
              a.year < b.year
              || (a.year == b.year && a.month < b.month)
              || (a.year == b.year && a.month == b.month && a.day < b.day)
    ensures Key(a) == Key(b) <==> a == b
  {
  }

  /** DateTime.AddDays(1). */
  function NextDay(d: Date): (r: Date)
    requires WellFormed(d)
    ensures WellFormed(r)
    ensures Key(d) < Key(r)
    ensures r.year == d.year || (r.year == d.year + 1 && r.month == 1 && r.day == 1)
  {
    if d.day < DaysInMonth(d.year, d.month) then Date(d.year, d.month, d.day + 1)
    else if d.month < 12 then Date(d.year, d.month + 1, 1)
    else Date(d.year + 1, 1, 1)
  }

  /** NextDay skips no day: nothing lies strictly between a day and the next. */
  lemma NextDayIsSuccessor(d: Date, x: Date)
    requires WellFormed(d) && WellFormed(x)
    requires Key(d) < Key(x)
    ensures Key(NextDay(d)) <= Key(x)
  {
    var n := NextDay(d);
    KeyIsChronological(d, x);
    KeyIsChronological(n, x);
    if d.day < DaysInMonth(d.year, d.month) {
      assert n == Date(d.year, d.month, d.day + 1);
    } else if d.month < 12 {
      assert n == Date(d.year, d.month + 1, 1);
    } else {
      assert n == Date(d.year + 1, 1, 1);
    }
  }

  /** DateTime.ToString("yyyyMMdd"). */
  function Format(d: Date): (s: string)
    requires ValidDate(d)
    ensures |s| == 8
    ensures AllDigits(s)
  {
    FixedDigits(d.year, 4) + FixedDigits(d.month, 2) + FixedDigits(d.day, 2)
  }

  /** DateTime.TryParseExact(s, "yyyyMMdd", ...): eight digits read as year,
      month and day, accepted only when they name a day DateTime can hold. */
  function ParseExact(s: string): (r: Option<Date>)
    ensures r.Some? ==> ValidDate(r.value)
    ensures r.Some? ==> |s| == 8 && AllDigits(s)
  {
    if |s| == 8 && AllDigits(s) then
      var d := Date(DigitsValue(s[..4]), DigitsValue(s[4..6]), DigitsValue(s[6..]));
      if ValidDate(d) then Some(d) else None
    else
      None
  }

  /** The source's date check: length 8, parses, and formats back to itself. */
  predicate IsValidDateFormat(s: string) {
    if |s| != 8 then false
    else
      match ParseExact(s)
      case None => false
      case Some(d) => Format(d) == s
  }

  /** Parsing undoes formatting. */
  lemma ParseFormat(d: Date)
    requires ValidDate(d)
    ensures ParseExact(Format(d)) == Some(d)
  {
    var s := Format(d);
    FieldValue(d.year, 4);
    FieldValue(d.month, 2);
    FieldValue(d.day, 2);
    assert s[..4] == FixedDigits(d.year, 4);
    assert s[4..6] == FixedDigits(d.month, 2);
    assert s[6..] == FixedDigits(d.day, 2);
  }

  /** A field narrower than its width is read back unchanged. */
  lemma FieldValue(n: nat, w: nat)
    requires n < Pow10(w)
    ensures DigitsValue(FixedDigits(n, w)) == n
  {
    FixedDigitsValue(n, w);
    ModUnique(n, Pow10(w), 0, n);
  }

  /** Formatting undoes parsing, so the source's re-format comparison never fails. */
  lemma FormatParse(s: string)
    requires ParseExact(s).Some?
    ensures Format(ParseExact(s).value) == s
  {
    var d := ParseExact(s).value;
    assert FixedDigits(d.year, 4) == s[..4] by {
      DigitsValueFixed(s[..4]);
    }
    assert FixedDigits(d.month, 2) == s[4..6] by {
      DigitsValueFixed(s[4..6]);
    }
    assert FixedDigits(d.day, 2) == s[6..] by {
      DigitsValueFixed(s[6..]);
    }
    assert s == s[..4] + s[4..6] + s[6..];
  }

  /** Two different days never share a yyyyMMdd text. */
  lemma FormatInjective(a: Date, b: Date)
    requires ValidDate(a) && ValidDate(b)
    requires Format(a) == Format(b)
    ensures a == b
  {
    ParseFormat(a);
    ParseFormat(b);
  }

  /** The date check accepts exactly the texts of DateTime days. */
  lemma IsValidDateFormatCorrect(s: string)
    ensures IsValidDateFormat(s) <==> exists d :: ValidDate(d) && Format(d) == s
  {
    if IsValidDateFormat(s) {
      var d := ParseExact(s).value;
      assert ValidDate(d) && Format(d) == s;
    }
    if exists d :: ValidDate(d) && Format(d) == s {
      var d :| ValidDate(d) && Format(d) == s;
      ParseFormat(d);
    }
  }

  /** The re-format comparison adds nothing: the check is "length 8 and TryParseExact succeeds". */
  lemma IsValidDateFormatIsParse(s: string)
    ensures IsValidDateFormat(s) <==> ParseExact(s).Some?
  {
    if ParseExact(s).Some? {
      FormatParse(s);
    }
  }

  /** The yyyyMMdd text read as a number is the date's key, so ordering the
      texts numerically orders the days. */
  lemma FormatValue(d: Date)
    requires ValidDate(d)
    ensures DigitsValue(Format(d)) == Key(d)
  {
    FieldValue(d.year, 4);
    FieldValue(d.month, 2);
    FieldValue(d.day, 2);
    ThreeFieldsValue(FixedDigits(d.year, 4), FixedDigits(d.month, 2), FixedDigits(d.day, 2));
  }

  /** Comparing two accepted texts character by character orders them as
      their days: the order the rule table is sorted by is the calendar order. */
  lemma FormatOrder(a: Date, b: Date)
    requires ValidDate(a) && ValidDate(b)
    ensures LexLess(Format(a), Format(b)) <==> Key(a) < Key(b)
  {
    FormatValue(a);
    FormatValue(b);
    LexLessIsValueOrder(Format(a), Format(b));
  }

  /** A four-, a two- and a two-digit field side by side. */
  lemma ThreeFieldsValue(y: string, m: string, d: string)
    requires |y| == 4 && |m| == 2 && |d| == 2
    requires AllDigits(y) && AllDigits(m) && AllDigits(d)
    ensures DigitsValue(y + m + d) == DigitsValue(y) * 10000 + DigitsValue(m) * 100 + DigitsValue(d)
  {
    assert Pow10(2) == 100;
    DigitsValueAppend(y, m);
    DigitsValueAppend(y + m, d);
  }

  /** ParseExact on eight digits, field by field. */
  lemma ParseDigits(s: string)
    requires |s| == 8 && AllDigits(s)
    ensures var d := Date(DigitValue(s[0]) * 1000 + DigitValue(s[1]) * 100 + DigitValue(s[2]) * 10 + DigitValue(s[3]),
                          DigitValue(s[4]) * 10 + DigitValue(s[5]),
                          DigitValue(s[6]) * 10 + DigitValue(s[7]));
            ParseExact(s) == if ValidDate(d) then Some(d) else None
  {
    var y := s[..4];
    assert DigitsValue(y) == DigitValue(s[0]) * 1000 + DigitValue(s[1]) * 100 + DigitValue(s[2]) * 10 + DigitValue(s[3]) by {
      DigitsValueFour(y);
      DigitsValueTwo(y[..2]);
      DigitsValueTwo(y[2..]);
    }
    assert DigitsValue(s[4..6]) == DigitValue(s[4]) * 10 + DigitValue(s[5]) by {
      DigitsValueTwo(s[4..6]);
    }
    assert DigitsValue(s[6..]) == DigitValue(s[6]) * 10 + DigitValue(s[7]) by {
      DigitsValueTwo(s[6..]);
    }
  }

  /** 29 February exists in 2024. */
  lemma LeapDayAccepted()
    ensures IsValidDateFormat("20240229")
  {
    ParseDigits("20240229");
    IsValidDateFormatIsParse("20240229");
  }

  /** 29 February does not exist in 2023. */
  lemma NonLeapDayRejected()
    ensures !IsValidDateFormat("20230229")
  {
    assert !ValidDate(Date(2023, 2, 29)) by {
      assert !IsLeapYear(2023);
    }
    ParseDigits("20230229");
    assert ParseExact("20230229") == None;
  }

  /** "20230626" is read as 26 June 2023. */
  lemma SampleDateText()
    ensures ParseExact("20230626") == Some(Date(2023, 6, 26))
    ensures IsValidDateFormat("20230626")
  {
    var d := Date(2023, 6, 26);
    assert ValidDate(d);
    ParseDigits("20230626");
    assert ParseExact("20230626") == Some(d);
    IsValidDateFormatIsParse("20230626");
  }

  /** Month 13 and year 0 are refused, and so is any text that is not eight digits. */
  lemma MalformedDatesRejected()
    ensures !IsValidDateFormat("20231301")
    ensures !IsValidDateFormat("00000101")
    ensures !IsValidDateFormat("2023061")
    ensures !IsValidDateFormat("2023-6-1")
  {
    assert ParseExact("20231301") == None by {
      ParseDigits("20231301");
    }
    assert ParseExact("00000101") == None by {
      ParseDigits("00000101");
    }
    assert !IsDigit("2023-6-1"[4]);
  }
}
