/** `get_zodiac_sign`: the sign of a birth date, looked up in the zodiac
    table with the year ignored. */
module Classifier {
  import opened Wrappers
  import opened Dates
  import opened ZodiacTable

  /** Line 34: `start_date <= birth_date <= end_date`, inclusive at both ends. */
  predicate InRange(row: ZodiacRow, day: DayMonth)
    ensures InRange(row, day) ==> NotAfter(row.start, row.end)
  {
    NotAfter(row.start, day) && NotAfter(day, row.end)
  }

  /** A row whose range runs across the new year (start after end). */
  predicate Wraps(row: ZodiacRow) {
    !NotAfter(row.start, row.end)
  }

  /** The sign of the first row, in table order, whose range holds `day`. */
  function FirstMatch(table: seq<ZodiacRow>, day: DayMonth): (r: Option<string>)
    ensures r.Some? ==> exists j :: 0 <= j < |table| && InRange(table[j], day) && table[j].sign == r.value
    ensures r.None? ==> forall j :: 0 <= j < |table| ==> !InRange(table[j], day)
  {
    if table == [] then None
    else if InRange(table[0], day) then Some(table[0].sign)
    else FirstMatch(table[1..], day)
  }

  /** Line 37: on or after 22 December, or on or before 19 January. */
  predicate InCapricornFallback(day: DayMonth)
    ensures 1 <= day.month <= 12 ==>
      (InCapricornFallback(day) <==> (day.month == 12 && day.day >= 22) || (day.month == 1 && day.day <= 19))
  {
    NotAfter(DayMonth(22, 12), day) || NotAfter(day, DayMonth(19, 1))
  }

  /** Lines 33-39 once the year is 1900: the first matching row's sign; when
      none matches, "Steinbock" for the days around the new year and no sign
      for any other day. */
  function SignOfDay(table: seq<ZodiacRow>, day: DayMonth): (r: Option<string>)
    ensures FirstMatch(table, day).Some? ==> r == FirstMatch(table, day)
    ensures FirstMatch(table, day).None? && 1 <= day.month <= 12 ==>
      (r == Some("Steinbock") <==> (day.month == 12 && day.day >= 22) || (day.month == 1 && day.day <= 19))
    ensures FirstMatch(table, day).None? ==> r == None || r == Some("Steinbock")
  {
    match FirstMatch(table, day)
    case Some(sign) => Some(sign)
    case None => if InCapricornFallback(day) then Some("Steinbock") else None
  }

  /** Lines 30-39 on a `DD-MM-YYYY` text: a text that is not such a date
      raises, and so does 29 February, whose year cannot become 1900. */
  function ZodiacSignOf(birthDate: string, table: seq<ZodiacRow>): (r: Result<Option<string>>)
    ensures r.Err? <==> ParseDayMonthYear(birthDate).Err?
                        || (ParseDayMonthYear(birthDate).value.month == 2
                            && ParseDayMonthYear(birthDate).value.day == 29)
    ensures r.Ok? ==>
      var d := ParseDayMonthYear(birthDate).value;
      r.value == SignOfDay(table, DayMonth(d.day, d.month))
  {
    var date :- ParseDayMonthYear(birthDate);
    match ReplaceYear1900(date)
    case None => Err(ValueError(birthDate))
    case Some(day) => Ok(SignOfDay(table, day))
  }

  /** Lines 30-39: the loop over the table with its early return. */
  method GetZodiacSign(birthDate: string, zodiacSigns: seq<ZodiacRow>) returns (r: Result<Option<string>>)
    ensures r == ZodiacSignOf(birthDate, zodiacSigns)
  {
    var parsed := ParseDayMonthYear(birthDate);
    if parsed.Err? {
      return Err(parsed.error);
    }
    var replaced := ReplaceYear1900(parsed.value);
    if replaced.None? {
      return Err(ValueError(birthDate));
    }
    var day := replaced.value;
    var i := 0;
    while i < |zodiacSigns|
      invariant 0 <= i <= |zodiacSigns|
      invariant FirstMatch(zodiacSigns, day) == FirstMatch(zodiacSigns[i..], day)
    {
      if InRange(zodiacSigns[i], day) {
        return Ok(Some(zodiacSigns[i].sign));
      }
      assert zodiacSigns[i..][1..] == zodiacSigns[i + 1..];
      i := i + 1;
    }
    if InCapricornFallback(day) {
      return Ok(Some("Steinbock"));
    }
    return Ok(None);
  }

  /** Index of the first row whose range holds `day`, or `|table|`. */
  function FirstMatchIndex(table: seq<ZodiacRow>, day: DayMonth): (k: nat)
    ensures k <= |table|
    ensures k < |table| ==> InRange(table[k], day)
    ensures forall j :: 0 <= j < k ==> !InRange(table[j], day)
  {
    if table == [] then 0
    else if InRange(table[0], day) then 0
    else 1 + FirstMatchIndex(table[1..], day)
  }

  /** The lookup returns the sign of the least index whose range holds the
      day, and nothing exactly when no row's range holds it. */
  lemma {:induction false} FirstMatchIsLeastIndex(table: seq<ZodiacRow>, day: DayMonth)
    ensures var k := FirstMatchIndex(table, day);
      FirstMatch(table, day) == if k < |table| then Some(table[k].sign) else None
    ensures FirstMatch(table, day).None? <==> forall j :: 0 <= j < |table| ==> !InRange(table[j], day)
  {
    if table != [] && !InRange(table[0], day) {
      FirstMatchIsLeastIndex(table[1..], day);
      var k := FirstMatchIndex(table[1..], day);
      if k < |table[1..]| {
        assert table[1..][k] == table[k + 1];
      }
      if FirstMatch(table, day).None? {
        forall j | 0 <= j < |table| ensures !InRange(table[j], day) {
          if j > 0 {
            assert table[j] == table[1..][j - 1];
          }
        }
      }
    }
  }

  /** `datetime` comparison is a total order: `<=` is transitive. */
  lemma NotAfterTransitive(a: DayMonth, b: DayMonth, c: DayMonth)
    requires NotAfter(a, b) && NotAfter(b, c)
    ensures NotAfter(a, c)
  {
  }

  /** A row whose range runs across the new year holds no day at all. */
  lemma WrappingRowNeverMatches(row: ZodiacRow, day: DayMonth)
    requires Wraps(row)
    ensures !InRange(row, day)
  {
    if InRange(row, day) {
      NotAfterTransitive(row.start, day, row.end);
    }
  }

  /** The table without its new-year-spanning rows. */
  function WithoutWrapping(table: seq<ZodiacRow>): (r: seq<ZodiacRow>)
    ensures forall k :: 0 <= k < |r| ==> !Wraps(r[k])
    ensures forall row :: row in r <==> row in table && !Wraps(row)
  {
    if table == [] then []
    else if Wraps(table[0]) then WithoutWrapping(table[1..])
    else [table[0]] + WithoutWrapping(table[1..])
  }

  /** Rows that run across the new year can be dropped from the table
      without changing any lookup: only the fallback of line 37 ever yields
      their days' sign. */
  lemma {:induction false} WrappingRowsAreDead(table: seq<ZodiacRow>, day: DayMonth)
    ensures FirstMatch(table, day) == FirstMatch(WithoutWrapping(table), day)
  {
    if table != [] {
      WrappingRowsAreDead(table[1..], day);
      if Wraps(table[0]) {
        WrappingRowNeverMatches(table[0], day);
      } else {
        assert ([table[0]] + WithoutWrapping(table[1..]))[1..] == WithoutWrapping(table[1..]);
      }
    }
  }

  /** Removing the spanning rows keeps the other rows in table order: it
      acts on each stretch of the table separately. */
  lemma {:induction false} WithoutWrappingAppend(a: seq<ZodiacRow>, b: seq<ZodiacRow>)
    ensures WithoutWrapping(a + b) == WithoutWrapping(a) + WithoutWrapping(b)
  {
    if a == [] {
      assert a + b == b;
    } else {
      assert (a + b)[0] == a[0] && (a + b)[1..] == a[1..] + b;
      WithoutWrappingAppend(a[1..], b);
    }
  }

  /** The Capricorn row as a table would write it, 22.12 - 19.01, is one of
      those rows: a table holding only it still classifies every day by the
      fallback alone. */
  lemma CapricornRowNeverMatches(day: DayMonth)
    ensures SignOfDay([ZodiacRow("Steinbock", DayMonth(22, 12), DayMonth(19, 1))], day)
         == SignOfDay([], day)
  {
    var row := ZodiacRow("Steinbock", DayMonth(22, 12), DayMonth(19, 1));
    WrappingRowNeverMatches(row, day);
    assert [row][1..] == [];
  }

  /** With two rows, 21-03-1985 gets the sign of the first row holding
      21 March. */
  lemma ClassifyFirstRowExample()
    ensures ZodiacSignOf("21-03-1985",
              [ZodiacRow("Widder", DayMonth(21, 3), DayMonth(19, 4)),
               ZodiacRow("Fische", DayMonth(19, 2), DayMonth(20, 3))]) == Ok(Some("Widder"))
  {
    assert FormatDayMonthYear(Date(21, 3, 1985)) == "21-03-1985";
    FormatThenParse(Date(21, 3, 1985));
  }

  /** With an empty table, 05-01-1990 still gets "Steinbock". */
  lemma ClassifyFallbackExample()
    ensures ZodiacSignOf("05-01-1990", []) == Ok(Some("Steinbock"))
  {
    assert FormatDayMonthYear(Date(5, 1, 1990)) == "05-01-1990";
    FormatThenParse(Date(5, 1, 1990));
  }

  /** 29 February of any leap year raises instead of yielding a sign. */
  lemma LeapDayRaises(birthDate: string, table: seq<ZodiacRow>)
    requires ParseDayMonthYear(birthDate).Ok?
    requires ParseDayMonthYear(birthDate).value.day == 29
    requires ParseDayMonthYear(birthDate).value.month == 2
    ensures ZodiacSignOf(birthDate, table) == Err(ValueError(birthDate))
  {
  }
}
