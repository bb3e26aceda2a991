/** Lines 77-96: turning the rows of the drivers table into driver records.
    The HTML is given as what BeautifulSoup extracts from each row, and the
    profile-page fetch as a function from link to birthday text. */
module Drivers {
  import opened Wrappers
  import opened Text
  import opened Dates
  import opened ZodiacTable
  import opened Classifier
  import opened Aggregator

  /** An `<a>` tag of the driver cell: its stripped text and its `href`. */
  datatype Anchor = Anchor(text: string, href: string)

  /** The first `<td>` of a table row: its anchors in document order and
      its whole stripped text. */
  datatype Cell = Cell(anchors: seq<Anchor>, text: string)

  /** Line 83: profile links are made absolute with this prefix. */
  const WikipediaPrefix: string := "https://en.wikipedia.org"

  /** Line 84: links through the `/w/` script path (pages that do not exist
      yet) carry no profile. */
  const ScriptPath: string := "/w/"

  /** The birthday of the profile page at a link, as the stripped text of
      its `bday` span, or None when no attempt found one. */
  type BirthdayLookup = string -> Option<string>

  /** Lines 65-67: the profile's `YYYY-MM-DD` birthday as `DD-MM-YYYY`;
      a birthday that is not such a date raises, since the `except` clause
      catches request errors only. */
  function BirthDateAt(link: string, bday: BirthdayLookup): (r: Result<Option<string>>)
    ensures bday(link).None? ==> r == Ok(None)
    ensures bday(link).Some? ==> (r.Ok? <==> ParseYearMonthDay(bday(link).value).Ok?)
    ensures r.Ok? && r.value.Some? ==>
      ParseDayMonthYear(r.value.value) == ParseYearMonthDay(bday(link).value)
    ensures bday(link).Some? && r.Ok? ==>
      r.value == Some(FormatDayMonthYear(ParseYearMonthDay(bday(link).value).value))
  {
    match bday(link)
    case None => Ok(None)
    case Some(text) =>
      var date :- ConvertBirthDate(text);
      Ok(Some(date))
  }

  /** Line 84 tests the absolute link, but the prefix never contributes to
      an occurrence of `/w/`: the test is a test on the `href` alone. */
  lemma ScriptPathInLink(href: string)
    ensures Contains(WikipediaPrefix + href, ScriptPath) <==> Contains(href, ScriptPath)
  {
    forall i | 0 <= i < |WikipediaPrefix| ensures !(ScriptPath <= WikipediaPrefix[i..] + href) {
      var t := WikipediaPrefix[i..] + href;
      assert t[0] == WikipediaPrefix[i];
      if i + 1 < |WikipediaPrefix| {
        assert t[1] == WikipediaPrefix[i + 1];
      }
    }
    ContainsBehindPrefix(WikipediaPrefix, href, ScriptPath);
  }

  /** Lines 81-95: the record of one row. With fewer than two anchors the
      cell text is the name and nothing else is known; otherwise the second
      anchor gives the name and the link, a `/w/` link is dropped together
      with the birth date and sign, and any other link is followed for the
      birth date, which then gives the sign. */
  function DecideRow(cell: Cell, bday: BirthdayLookup, table: seq<ZodiacRow>): (r: Result<Driver>)
    ensures |cell.anchors| <= 1 ==> r == Ok(Driver(cell.text, None, None, None))
    ensures |cell.anchors| > 1 && Contains(cell.anchors[1].href, ScriptPath) ==>
      r == Ok(Driver(cell.anchors[1].text, None, None, None))
    ensures |cell.anchors| > 1 && !Contains(cell.anchors[1].href, ScriptPath) ==>
      var link := WikipediaPrefix + cell.anchors[1].href;
      && (r.Ok? <==> BirthDateAt(link, bday).Ok?
                     && (BirthDateAt(link, bday).value.Some? ==> ZodiacSignOf(BirthDateAt(link, bday).value.value, table).Ok?))
      && (r.Ok? ==> && r.value.name == cell.anchors[1].text
                    && r.value.link == Some(link)
                    && r.value.birthDate == BirthDateAt(link, bday).value
                    && (r.value.birthDate.None? ==> r.value.sign.None?)
                    && (r.value.birthDate.Some? ==>
                          r.value.sign == ZodiacSignOf(r.value.birthDate.value, table).value))
  {
    if |cell.anchors| > 1 then
      var name := cell.anchors[1].text;
      var link := WikipediaPrefix + cell.anchors[1].href;
      ScriptPathInLink(cell.anchors[1].href);
      if Contains(link, ScriptPath) then Ok(Driver(name, None, None, None))
      else
        var birthDate :- BirthDateAt(link, bday);
        var sign :- if birthDate.Some? && birthDate.value != ""
                    then ZodiacSignOf(birthDate.value, table)
                    else Ok(None);
        Ok(Driver(name, Some(link), birthDate, sign))
    else Ok(Driver(cell.text, None, None, None))
  }

  /** The first row whose decision raises, or `|cells|` when none does. */
  function FirstFailing(cells: seq<Cell>, bday: BirthdayLookup, table: seq<ZodiacRow>): (k: nat)
    ensures k <= |cells|
    ensures k < |cells| ==> DecideRow(cells[k], bday, table).Err?
    ensures forall j :: 0 <= j < k ==> DecideRow(cells[j], bday, table).Ok?
  {
    if cells == [] then 0
    else if DecideRow(cells[0], bday, table).Err? then 0
    else 1 + FirstFailing(cells[1..], bday, table)
  }

  /** The `drivers` list after the loop over the data rows: one record per
      row in table order, unless some row raises, in which case the first
      such row's exception ends the run. */
  function DriversOf(cells: seq<Cell>, bday: BirthdayLookup, table: seq<ZodiacRow>): (r: Result<seq<Driver>>)
    ensures var k := FirstFailing(cells, bday, table);
      if k < |cells| then r == Err(DecideRow(cells[k], bday, table).error)
      else r.Ok? && |r.value| == |cells|
           && forall i :: 0 <= i < |cells| ==> DecideRow(cells[i], bday, table) == Ok(r.value[i])
  {
    if cells == [] then Ok([])
    else
      var init := cells[..|cells| - 1];
      var last := cells[|cells| - 1];
      var k := FirstFailing(cells, bday, table);
      var k0 := FirstFailing(init, bday, table);
      assert forall j :: 0 <= j < |init| ==> init[j] == cells[j];
      assert k0 < |init| ==> k == k0;
      assert k0 == |init| ==> k >= k0;
      var drivers :- DriversOf(init, bday, table);
      var driver :- DecideRow(last, bday, table);
      Ok(drivers + [driver])
  }

  /** Lines 78-96: the loop that appends one record per data row. */
  method ScrapeDrivers(cells: seq<Cell>, bday: BirthdayLookup, table: seq<ZodiacRow>)
    returns (r: Result<seq<Driver>>)
    ensures r == DriversOf(cells, bday, table)
  {
    var drivers: seq<Driver> := [];
    for i := 0 to |cells|
      invariant DriversOf(cells[..i], bday, table) == Ok(drivers)
    {
      var driver := DecideRow(cells[i], bday, table);
      DriversOfExtend(cells, bday, table, i);
      if driver.Err? {
        DriversOfStopsAtError(cells, bday, table, i + 1);
        return Err(driver.error);
      }
      drivers := drivers + [driver.value];
    }
    assert cells[..|cells|] == cells;
    return Ok(drivers);
  }

  /** The loop's step: the records of the first `i` rows and the next row. */
  lemma DriversOfExtend(cells: seq<Cell>, bday: BirthdayLookup, table: seq<ZodiacRow>, i: nat)
    requires i < |cells|
    ensures DriversOf(cells[..i + 1], bday, table)
         == (var drivers :- DriversOf(cells[..i], bday, table);
             var driver :- DecideRow(cells[i], bday, table);
             Ok(drivers + [driver]))
  {
    assert cells[..i + 1][..i] == cells[..i];
  }

  /** A row that raises ends the run: the rows after it are never decided. */
  lemma {:induction false} DriversOfStopsAtError(cells: seq<Cell>, bday: BirthdayLookup, table: seq<ZodiacRow>, n: nat)
    requires n <= |cells| && DriversOf(cells[..n], bday, table).Err?
    ensures DriversOf(cells, bday, table) == DriversOf(cells[..n], bday, table)
    decreases |cells|
  {
    if n < |cells| {
      var init := cells[..|cells| - 1];
      assert init[..n] == cells[..n];
      DriversOfStopsAtError(init, bday, table, n);
    } else {
      assert cells[..n] == cells;
    }
  }

  /** A sign the classifier can produce from `table`: one of its rows' signs
      or the hard-coded fallback. */
  ghost predicate SignOfTable(table: seq<ZodiacRow>, sign: string) {
    sign == "Steinbock" || exists j :: 0 <= j < |table| && table[j].sign == sign
  }

  /** A driver record carries no sign but one the table or the fallback
      gives. */
  lemma DriverSignFromTable(cell: Cell, bday: BirthdayLookup, table: seq<ZodiacRow>, d: Driver)
    requires DecideRow(cell, bday, table) == Ok(d) && d.sign.Some?
    ensures SignOfTable(table, d.sign.value)
  {
    var date := ParseDayMonthYear(d.birthDate.value).value;
    var day := DayMonth(date.day, date.month);
    FirstMatchIsLeastIndex(table, day);
  }

  /** Every group of the final report is named after a sign of the table or
      after the fallback sign, and none of the drivers of a successful run
      is missing from it unless it has no sign. */
  lemma ReportSignsComeFromTable(cells: seq<Cell>, bday: BirthdayLookup, table: seq<ZodiacRow>)
    requires DriversOf(cells, bday, table).Ok?
    ensures var drivers := DriversOf(cells, bday, table).value;
      && (forall g | g in SortBySizeDesc(Grouped(drivers)) :: SignOfTable(table, g.sign))
      && TotalSize(SortBySizeDesc(Grouped(drivers))) == LabelledCount(drivers)
  {
    var drivers := DriversOf(cells, bday, table).value;
    var groups := Grouped(drivers);
    GroupedIsGroupsOf(drivers);
    GroupedKeepsEveryLabelledDriver(drivers);
    forall g | g in groups ensures SignOfTable(table, g.sign) {
      var k :| 0 <= k < |groups| && groups[k] == g;
      var i := FirstIndexOf(drivers, g.sign);
      DriverSignFromTable(cells[i], bday, table, drivers[i]);
    }
    forall g | g in SortBySizeDesc(groups) ensures SignOfTable(table, g.sign) {
      assert g in multiset(groups);
    }
    SortKeepsTotalSize(groups);
  }
}
