/** Dates as the modelled code uses Python's `datetime`: the three
    `strptime` formats it parses, the one `strftime` format it writes,
    `replace(year=1900)`, and the comparison of two dates of the year 1900. */
module Dates {
  import opened Wrappers
  import opened Text

  /** A `datetime` at midnight: only the calendar date matters here. */
  datatype Date = Date(day: int, month: int, year: int)

  /** A `datetime` of the year 1900 at midnight. The zodiac table's endpoints
      and a birth date whose year was replaced are of this kind. */
  datatype DayMonth = DayMonth(day: int, month: int)

  /** The Gregorian rule that `datetime` follows. */
  predicate IsLeapYear(year: int) {
    year % 4 == 0 && (year % 100 != 0 || year % 400 == 0)
  }

  function DaysInMonth(month: int, year: int): (n: int)
    requires 1 <= month <= 12
    ensures 28 <= n <= 31
    ensures n == 29 <==> month == 2 && IsLeapYear(year)
  {
    if month == 2 then (if IsLeapYear(year) then 29 else 28)
    else if month in {4, 6, 9, 11} then 30
    else 31
  }

  /** The dates `datetime` can hold (years MINYEAR = 1 to MAXYEAR = 9999). */
  predicate ValidDate(d: Date) {
    1 <= d.year <= 9999 && 1 <= d.month <= 12 && 1 <= d.day <= DaysInMonth(d.month, d.year)
  }

  /** 1900 is not a leap year, so 29 February is not a day of it. */
  predicate ValidDayMonth(dm: DayMonth) {
    ValidDate(Date(dm.day, dm.month, 1900))
  }

  /** A `%d` field of `strptime`: one or two digits worth 1 to 31, or a
      space followed by a digit 1 to 9. */
  function DayField(s: string): (r: Option<int>)
    ensures r.Some? ==> 1 <= r.value <= 31
  {
    if |s| == 2 && s[0] == ' ' && '1' <= s[1] <= '9' then Some(s[1] as int - '0' as int)
    else if 1 <= |s| <= 2 && AllDigits(s) && 1 <= DecimalValue(s) <= 31 then Some(DecimalValue(s))
    else None
  }

  /** A `%m` field of `strptime`: one or two digits worth 1 to 12. */
  function MonthField(s: string): (r: Option<int>)
    ensures r.Some? ==> 1 <= r.value <= 12
  {
    if 1 <= |s| <= 2 && AllDigits(s) && 1 <= DecimalValue(s) <= 12 then Some(DecimalValue(s))
    else None
  }

  /** A `%Y` field of `strptime`: exactly four digits. */
  function YearField(s: string): (r: Option<int>)
    ensures r.Some? ==> 0 <= r.value <= 9999
  {
    if |s| == 4 && AllDigits(s) then Some(DecimalValue(s)) else None
  }

  /** Builds the `datetime` that `strptime` returns once the fields matched:
      a day past the end of its month, or the year 0, raises ValueError. */
  function MakeDate(day: int, month: int, year: int, text: string): (r: Result<Date>)
    requires 1 <= month <= 12
    ensures r.Ok? <==> ValidDate(Date(day, month, year))
    ensures r.Ok? ==> r.value == Date(day, month, year)
  {
    if 1 <= year <= 9999 && 1 <= day <= DaysInMonth(month, year) then Ok(Date(day, month, year))
    else Err(ValueError(text))
  }

  /** `datetime.strptime(s, "%d.%m")`: the year defaults to 1900, so
      `"29.02"` raises like `"32.01"` does. No separator can occur inside a
      field, so the text matches the format exactly when it splits on `.`
      into a day field and a month field. */
  function ParseDayDotMonth(s: string): (r: Result<DayMonth>)
    ensures r.Ok? ==> ValidDayMonth(r.value)
  {
    var f := Split(s, '.');
    if |f| == 2 && DayField(f[0]).Some? && MonthField(f[1]).Some? then
      var day := DayField(f[0]).value;
      var month := MonthField(f[1]).value;
      if day <= DaysInMonth(month, 1900) then Ok(DayMonth(day, month)) else Err(ValueError(s))
    else Err(ValueError(s))
  }

  /** `datetime.strptime(s, "%d-%m-%Y")`. */
  function ParseDayMonthYear(s: string): (r: Result<Date>)
    ensures r.Ok? ==> ValidDate(r.value)
  {
    var f := Split(s, '-');
    if |f| == 3 && DayField(f[0]).Some? && MonthField(f[1]).Some? && YearField(f[2]).Some? then
      MakeDate(DayField(f[0]).value, MonthField(f[1]).value, YearField(f[2]).value, s)
    else Err(ValueError(s))
  }

  /** `datetime.strptime(s, "%Y-%m-%d")`, the form of a profile page's
      birth date. */
  function ParseYearMonthDay(s: string): (r: Result<Date>)
    ensures r.Ok? ==> ValidDate(r.value)
  {
    var f := Split(s, '-');
    if |f| == 3 && YearField(f[0]).Some? && MonthField(f[1]).Some? && DayField(f[2]).Some? then
      MakeDate(DayField(f[2]).value, MonthField(f[1]).value, YearField(f[0]).value, s)
    else Err(ValueError(s))
  }

  /** `d.strftime("%d-%m-%Y")`: every field zero-padded. */
  function FormatDayMonthYear(d: Date): (r: string)
    requires ValidDate(d)
    ensures |r| == 10 && r[2] == '-' && r[5] == '-'
    ensures AllDigits(r[..2]) && AllDigits(r[3..5]) && AllDigits(r[6..])
  {
    PadDecimal(d.day, 2) + "-" + PadDecimal(d.month, 2) + "-" + PadDecimal(d.year, 4)
  }

  /** The three fields of a formatted date are what `split('-')` returns. */
  lemma FormatFields(d: Date)
    requires ValidDate(d)
    ensures Split(FormatDayMonthYear(d), '-')
         == [PadDecimal(d.day, 2), PadDecimal(d.month, 2), PadDecimal(d.year, 4)]
  {
    var parts := [PadDecimal(d.day, 2), PadDecimal(d.month, 2), PadDecimal(d.year, 4)];
    forall k | 0 <= k < 3 ensures '-' !in parts[k] {
      assert AllDigits(parts[k]);
    }
    assert Join(parts, '-') == FormatDayMonthYear(d) by {
      assert Join(parts[2..], '-') == parts[2];
      assert Join(parts[1..], '-') == parts[1] + "-" + parts[2];
    }
    SplitJoin(parts, '-');
  }

  lemma DayFieldOfPad(n: int)
    requires 0 <= n < 100
    ensures DayField(PadDecimal(n, 2)) == if 1 <= n <= 31 then Some(n) else None
  {
    assert Pow10(2) == 100;
    DecimalOfPad(n, 2);
    assert IsDigit(PadDecimal(n, 2)[0]);
  }

  lemma MonthFieldOfPad(n: int)
    requires 1 <= n <= 12
    ensures MonthField(PadDecimal(n, 2)) == Some(n)
  {
    assert Pow10(2) == 100;
    DecimalOfPad(n, 2);
  }

  lemma YearFieldOfPad(n: int)
    requires 0 <= n <= 9999
    ensures YearField(PadDecimal(n, 4)) == Some(n)
  {
    assert Pow10(4) == 10000;
    DecimalOfPad(n, 4);
  }

  /** Parsing with `%d-%m-%Y` what `strftime("%d-%m-%Y")` wrote gives the
      same date back. */
  lemma FormatThenParse(d: Date)
    requires ValidDate(d)
    ensures ParseDayMonthYear(FormatDayMonthYear(d)) == Ok(d)
  {
    FormatFields(d);
    DayFieldOfPad(d.day);
    MonthFieldOfPad(d.month);
    YearFieldOfPad(d.year);
    ParseDayMonthYearOfFields(FormatDayMonthYear(d), PadDecimal(d.day, 2), PadDecimal(d.month, 2), PadDecimal(d.year, 4));
  }

  lemma ParseDayMonthYearOfFields(s: string, dayText: string, monthText: string, yearText: string)
    requires Split(s, '-') == [dayText, monthText, yearText]
    requires DayField(dayText).Some? && MonthField(monthText).Some? && YearField(yearText).Some?
    ensures ParseDayMonthYear(s)
         == MakeDate(DayField(dayText).value, MonthField(monthText).value, YearField(yearText).value, s)
  {
  }

  /** Line 66 of the scraper: a `YYYY-MM-DD` birth date becomes `DD-MM-YYYY`,
      the form that the classifier parses back. It raises exactly when the
      input is not a valid `%Y-%m-%d` date, and reading its output with
      `%d-%m-%Y` gives the date read from the input. */
  function ConvertBirthDate(s: string): (r: Result<string>)
    ensures r.Ok? <==> ParseYearMonthDay(s).Ok?
    ensures r.Ok? ==> ParseDayMonthYear(r.value) == ParseYearMonthDay(s)
    ensures r.Ok? ==> r.value == FormatDayMonthYear(ParseYearMonthDay(s).value)
    ensures r.Err? ==> r == Err(ValueError(s))
  {
    match ParseYearMonthDay(s)
    case Ok(d) =>
      FormatThenParse(d);
      Ok(FormatDayMonthYear(d))
    case Err(e) => Err(e)
  }

  /** `d.replace(year=1900)`: fails for 29 February and for no other date. */
  function ReplaceYear1900(d: Date): (r: Option<DayMonth>)
    requires ValidDate(d)
    ensures r.None? <==> d.month == 2 && d.day == 29
    ensures r.Some? ==> r.value == DayMonth(d.day, d.month) && ValidDayMonth(r.value)
  {
    if d.day <= DaysInMonth(d.month, 1900) then Some(DayMonth(d.day, d.month)) else None
  }

  /** `a <= b` on two `datetime`s of the year 1900: month first, then day. */
  predicate NotAfter(a: DayMonth, b: DayMonth) {
    a.month < b.month || (a.month == b.month && a.day <= b.day)
  }

  /** Days of 1900 before the first of month `m + 1`. */
  function DaysBefore(m: int): (n: int)
    requires 0 <= m <= 12
    ensures n >= 28 * m
  {
    if m == 0 then 0 else DaysBefore(m - 1) + DaysInMonth(m, 1900)
  }

  /** The position of a day in the year 1900, counted from 1 on 1 January. */
  function DayOfYear(dm: DayMonth): int
    requires ValidDayMonth(dm)
  {
    DaysBefore(dm.month - 1) + dm.day
  }

  lemma {:induction false} DaysBeforeGrows(m: int, n: int)
    requires 0 <= m <= n <= 12
    ensures DaysBefore(m) + 28 * (n - m) <= DaysBefore(n)
    decreases n - m
  {
    if m < n {
      DaysBeforeGrows(m, n - 1);
    }
  }

  /** Comparing month first and day second orders the days of the year
      chronologically, which is how `datetime` compares. */
  lemma NotAfterIsChronological(a: DayMonth, b: DayMonth)
    requires ValidDayMonth(a) && ValidDayMonth(b)
    ensures NotAfter(a, b) <==> DayOfYear(a) <= DayOfYear(b)
  {
    if a.month < b.month {
      EarlierMonthIsEarlier(a, b);
    } else if b.month < a.month {
      EarlierMonthIsEarlier(b, a);
    }
  }

  /** Every day of an earlier month comes before every day of a later one. */
  lemma EarlierMonthIsEarlier(a: DayMonth, b: DayMonth)
    requires ValidDayMonth(a) && ValidDayMonth(b) && a.month < b.month
    ensures DayOfYear(a) < DayOfYear(b)
  {
    DayOfYearInMonth(a);
    DayOfYearInMonth(b);
    DaysBeforeGrows(a.month, b.month - 1);
  }

  /** A day's position lies within its month's stretch of the year. */
  lemma DayOfYearInMonth(dm: DayMonth)
    requires ValidDayMonth(dm)
    ensures DaysBefore(dm.month - 1) < DayOfYear(dm) <= DaysBefore(dm.month)
  {
    assert DaysBefore(dm.month) == DaysBefore(dm.month - 1) + DaysInMonth(dm.month, 1900);
  }

  /** What `strptime(s, "%d.%m")` does with a day text and a month text
      around the dot: a date of 1900 when both fields match and the day
      exists in that month, ValueError otherwise. */
  lemma ParseDayDotMonthFields(s: string, dayText: string, monthText: string)
    requires '.' !in dayText && '.' !in monthText
    requires s == dayText + "." + monthText
    ensures ParseDayDotMonth(s)
         == if DayField(dayText).Some? && MonthField(monthText).Some?
               && ValidDayMonth(DayMonth(DayField(dayText).value, MonthField(monthText).value))
            then Ok(DayMonth(DayField(dayText).value, MonthField(monthText).value))
            else Err(ValueError(s))
  {
    SplitTwo(dayText, monthText, '.');
  }

  /** `"21.03"` is read as 21 March. */
  lemma ParseDayDotMonthAccepts()
    ensures ParseDayDotMonth("21.03") == Ok(DayMonth(21, 3))
  {
    assert DayField("21") == Some(21) by { assert PadDecimal(21, 2) == "21"; DayFieldOfPad(21); }
    assert MonthField("03") == Some(3) by { assert PadDecimal(3, 2) == "03"; MonthFieldOfPad(3); }
    ParseDayDotMonthFields("21.03", "21", "03");
  }

  /** `"32.01"` has no day field: it raises ValueError rather than being skipped. */
  lemma ParseDayDotMonthRejectsDay32()
    ensures ParseDayDotMonth("32.01") == Err(ValueError("32.01"))
  {
    assert DayField("32") == None by { assert PadDecimal(32, 2) == "32"; DayFieldOfPad(32); }
    ParseDayDotMonthFields("32.01", "32", "01");
  }

  /** `"29.02"` matches the format but is no day of 1900: ValueError. */
  lemma ParseDayDotMonthRejectsFeb29()
    ensures ParseDayDotMonth("29.02") == Err(ValueError("29.02"))
  {
    assert DayField("29") == Some(29) by { assert PadDecimal(29, 2) == "29"; DayFieldOfPad(29); }
    assert MonthField("02") == Some(2) by { assert PadDecimal(2, 2) == "02"; MonthFieldOfPad(2); }
    assert !ValidDayMonth(DayMonth(29, 2)) by { assert !IsLeapYear(1900); }
    ParseDayDotMonthFields("29.02", "29", "02");
  }

  /** What `strptime(s, "%Y-%m-%d")` does with three texts between dashes. */
  lemma ParseYearMonthDayFields(s: string, yearText: string, monthText: string, dayText: string)
    requires '-' !in yearText && '-' !in monthText && '-' !in dayText
    requires s == yearText + "-" + monthText + "-" + dayText
    ensures ParseYearMonthDay(s)
         == if YearField(yearText).Some? && MonthField(monthText).Some? && DayField(dayText).Some?
            then MakeDate(DayField(dayText).value, MonthField(monthText).value, YearField(yearText).value, s)
            else Err(ValueError(s))
  {
    SplitThree(yearText, monthText, dayText, '-');
  }

  /** `"1985-03-21"` is read as 21 March 1985. */
  lemma ParseYearMonthDayExample()
    ensures ParseYearMonthDay("1985-03-21") == Ok(Date(21, 3, 1985))
  {
    assert YearField("1985") == Some(1985) by {
      assert PadDecimal(1985, 4) == "1985";
      YearFieldOfPad(1985);
    }
    assert MonthField("03") == Some(3) by { assert PadDecimal(3, 2) == "03"; MonthFieldOfPad(3); }
    assert DayField("21") == Some(21) by { assert PadDecimal(21, 2) == "21"; DayFieldOfPad(21); }
    ParseYearMonthDayFields("1985-03-21", "1985", "03", "21");
  }

  lemma FormatDayMonthYearExample()
    ensures FormatDayMonthYear(Date(21, 3, 1985)) == "21-03-1985"
  {
  }

  /** Line 66 on a zero-padded birth date only reorders its three fields:
      `YYYY-MM-DD` becomes `DD-MM-YYYY` with the same digits. */
  lemma ConvertBirthDateSwapsFields(yearText: string, monthText: string, dayText: string)
    requires |yearText| == 4 && |monthText| == 2 && |dayText| == 2
    requires AllDigits(yearText) && AllDigits(monthText) && AllDigits(dayText)
    requires ConvertBirthDate(yearText + "-" + monthText + "-" + dayText).Ok?
    ensures ConvertBirthDate(yearText + "-" + monthText + "-" + dayText)
         == Ok(dayText + "-" + monthText + "-" + yearText)
  {
    DigitsHoldNoDash(yearText);
    DigitsHoldNoDash(monthText);
    DigitsHoldNoDash(dayText);
    ParseYearMonthDayFields(yearText + "-" + monthText + "-" + dayText, yearText, monthText, dayText);
    PadOfDecimal(yearText);
    PadOfDecimal(monthText);
    PadOfDecimal(dayText);
  }

  lemma DigitsHoldNoDash(s: string)
    requires AllDigits(s)
    ensures '-' !in s
  {
  }

  /** A profile page's `1985-03-21` becomes `21-03-1985`. */
  lemma ConvertBirthDateExample()
    ensures ConvertBirthDate("1985-03-21") == Ok("21-03-1985")
  {
    ParseYearMonthDayExample();
    FormatDayMonthYearExample();
  }
}
