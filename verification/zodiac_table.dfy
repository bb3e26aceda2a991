/** `load_zodiac_signs`: reading the zodiac range table. The file is given
    as its sequence of lines; opening it is not part of this model. */
module ZodiacTable {
  import opened Wrappers
  import opened Text
  import opened Dates

  /** One table entry: a sign and the first and last day of its range, both
      as dates of 1900. */
  datatype ZodiacRow = ZodiacRow(sign: string, start: DayMonth, end: DayMonth)

  /** What a line after the two header lines contributes to the table. */
  datatype LineOutcome = Skipped | Entry(row: ZodiacRow) | Raises(error: PyError)

  /** One line: `<sign> | <DD.MM> - <DD.MM>`. A line that does not split into
      two fields on `|`, or whose second field does not split into two
      tokens on `-`, is skipped; a token that is no day of 1900 raises. */
  function ParseLine(line: string): (o: LineOutcome)
    ensures o.Entry? ==> ValidDayMonth(o.row.start) && ValidDayMonth(o.row.end)
    ensures o.Raises? ==> o.error.ValueError?
  {
    var parts := Split(Strip(line), '|');
    if |parts| != 2 then Skipped
    else
      var sign := Strip(parts[0]);
      var range := Split(Strip(parts[1]), '-');
      if |range| != 2 then Skipped
      else
        match ParseDayDotMonth(Strip(range[0]))
        case Err(e) => Raises(e)
        case Ok(start) =>
          match ParseDayDotMonth(Strip(range[1]))
          case Err(e) => Raises(e)
          case Ok(end) => Entry(ZodiacRow(sign, start, end))
  }

  /** Each line parsed on its own by `parse`, in file order. */
  function MapLines(body: seq<string>, parse: string -> LineOutcome): (os: seq<LineOutcome>)
    ensures |os| == |body|
    ensures forall i :: 0 <= i < |body| ==> os[i] == parse(body[i])
  {
    seq(|body|, i requires 0 <= i < |body| => parse(body[i]))
  }

  /** Each line after the header, parsed on its own. */
  function Outcomes(body: seq<string>): (os: seq<LineOutcome>)
    ensures |os| == |body|
    ensures forall i :: 0 <= i < |body| ==> os[i] == ParseLine(body[i])
  {
    MapLines(body, ParseLine)
  }

  /** Taking parsed lines in file order: their entries, or the exception of
      the first line that raises. */
  function Collect(os: seq<LineOutcome>): Result<seq<ZodiacRow>> {
    if os == [] then Ok([]) else Step(os[0], Collect(os[1..]))
  }

  /** The entries of the lines after the header, in file order, or the
      exception of the first line that raises. */
  function ReadRows(body: seq<string>): Result<seq<ZodiacRow>> {
    Collect(Outcomes(body))
  }

  /** `rows` in front of a result's rows; an exception stays as it is. */
  function Prepend(rows: seq<ZodiacRow>, r: Result<seq<ZodiacRow>>): Result<seq<ZodiacRow>> {
    match r
    case Ok(more) => Ok(rows + more)
    case Err(e) => Err(e)
  }

  /** Reading one stretch of lines and then another: an exception in the
      first ends the reading, otherwise the rows of both in order. */
  function Chain(first: Result<seq<ZodiacRow>>, rest: Result<seq<ZodiacRow>>): Result<seq<ZodiacRow>> {
    match first
    case Err(e) => Err(e)
    case Ok(rows) => Prepend(rows, rest)
  }

  /** What one line adds in front of the rows read after it. */
  function Step(o: LineOutcome, rest: Result<seq<ZodiacRow>>): Result<seq<ZodiacRow>> {
    match o
    case Skipped => rest
    case Raises(e) => Err(e)
    case Entry(row) => Prepend([row], rest)
  }

  /** Lines 12-27: the loop that appends one entry per accepted line. The
      first two lines are dropped unread, and a file with fewer lines makes
      `next(file)` raise StopIteration. */
  method LoadZodiacSigns(lines: seq<string>) returns (r: Result<seq<ZodiacRow>>)
    ensures |lines| < 2 ==> r == Err(StopIteration)
    ensures |lines| >= 2 ==> r == ReadRows(lines[2..])
  {
    if |lines| < 2 {
      return Err(StopIteration);
    }
    var zodiacSigns: seq<ZodiacRow> := [];
    var i := 2;
    assert lines[2..i] == [];
    while i < |lines|
      invariant 2 <= i <= |lines|
      invariant ReadRows(lines[2..i]) == Ok(zodiacSigns)
    {
      var outcome := ParseLine(lines[i]);
      SliceNext(lines, 2, i);
      ReadRowsExtend(lines[2..i], lines[i], zodiacSigns);
      if outcome.Raises? {
        SliceAt(lines, 2, i + 1);
        ReadRowsStopsAtError(lines[2..i + 1], lines[i + 1..], outcome.error);
        return Err(outcome.error);
      }
      if outcome.Entry? {
        zodiacSigns := zodiacSigns + [outcome.row];
      }
      i := i + 1;
    }
    assert lines[2..i] == lines[2..];
    return Ok(zodiacSigns);
  }

  /** The loop's step: the rows read so far, followed by the next line. */
  lemma ReadRowsExtend(body: seq<string>, line: string, rows: seq<ZodiacRow>)
    requires ReadRows(body) == Ok(rows)
    ensures ReadRows(body + [line]) == match ParseLine(line)
                                       case Skipped => Ok(rows)
                                       case Raises(e) => Err(e)
                                       case Entry(row) => Ok(rows + [row])
  {
    MapLinesExtend(body, line, ParseLine);
    CollectExtend(Outcomes(body), ParseLine(line), rows);
  }

  lemma MapLinesExtend(body: seq<string>, line: string, parse: string -> LineOutcome)
    ensures MapLines(body + [line], parse) == MapLines(body, parse) + [parse(line)]
  {
    MapLinesAppend(body, [line], parse);
    assert MapLines([line], parse) == [parse(line)];
  }

  lemma CollectExtend(os: seq<LineOutcome>, o: LineOutcome, rows: seq<ZodiacRow>)
    requires Collect(os) == Ok(rows)
    ensures Collect(os + [o]) == match o
                                 case Skipped => Ok(rows)
                                 case Raises(e) => Err(e)
                                 case Entry(row) => Ok(rows + [row])
  {
    CollectAppend(os, [o]);
    assert [o][1..] == [];
    if o.Entry? {
      assert [o.row] + [] == [o.row];
    }
    assert rows + [] == rows;
  }

  /** An exception ends the reading: the lines after it are never read. */
  lemma ReadRowsStopsAtError(a: seq<string>, b: seq<string>, e: PyError)
    requires ReadRows(a) == Err(e)
    ensures ReadRows(a + b) == Err(e)
  {
    ReadRowsAppend(a, b);
  }

  lemma SliceNext<T>(s: seq<T>, i: nat, j: nat)
    requires i <= j < |s|
    ensures s[i..j + 1] == s[i..j] + [s[j]]
  {
  }

  lemma SliceAt<T>(s: seq<T>, i: nat, j: nat)
    requires i <= j <= |s|
    ensures s[i..] == s[i..j] + s[j..]
  {
  }

  /** The parsed lines of two stretches are those of each, one after the
      other. */
  lemma OutcomesAppend(a: seq<string>, b: seq<string>)
    ensures Outcomes(a + b) == Outcomes(a) + Outcomes(b)
  {
    MapLinesAppend(a, b, ParseLine);
  }

  lemma MapLinesAppend(a: seq<string>, b: seq<string>, parse: string -> LineOutcome)
    ensures MapLines(a + b, parse) == MapLines(a, parse) + MapLines(b, parse)
  {
    forall i | 0 <= i < |a + b|
      ensures MapLines(a + b, parse)[i] == (MapLines(a, parse) + MapLines(b, parse))[i]
    {
      if i < |a| {
        assert (a + b)[i] == a[i];
      } else {
        assert (a + b)[i] == b[i - |a|];
      }
    }
  }

  /** The entries of the accepted lines, in file order. */
  function Entries(os: seq<LineOutcome>): seq<ZodiacRow> {
    if os == [] then []
    else (if os[0].Entry? then [os[0].row] else []) + Entries(os[1..])
  }

  /** Index of the first line that raises, or `|os|` when none does. */
  function FirstRaising(os: seq<LineOutcome>): (k: nat)
    ensures k <= |os|
    ensures k < |os| ==> os[k].Raises?
    ensures forall j :: 0 <= j < k ==> !os[j].Raises?
  {
    if os == [] then 0
    else if os[0].Raises? then 0
    else 1 + FirstRaising(os[1..])
  }

  /** Reading succeeds exactly when no line raises; it then holds one entry
      per accepted line, in file order; otherwise the exception is that of
      the first line that raises. */
  lemma ReadRowsCharacterized(body: seq<string>)
    ensures var os := Outcomes(body);
      var k := FirstRaising(os);
      ReadRows(body) == if k == |body| then Ok(Entries(os)) else Err(os[k].error)
  {
    CollectCharacterized(Outcomes(body));
  }

  lemma {:induction false} CollectCharacterized(os: seq<LineOutcome>)
    ensures var k := FirstRaising(os);
      Collect(os) == if k == |os| then Ok(Entries(os)) else Err(os[k].error)
  {
    if os != [] {
      CollectCharacterized(os[1..]);
      if !os[0].Raises? {
        var k := FirstRaising(os[1..]);
        assert FirstRaising(os) == k + 1;
        if os[0].Skipped? {
          assert Entries(os) == [] + Entries(os[1..]) == Entries(os[1..]);
        }
        if k < |os[1..]| {
          assert os[k + 1] == os[1..][k];
        }
      }
    }
  }

  /** Reading two stretches of lines one after the other is reading their
      concatenation: the table keeps file order, and an exception in the
      first stretch wins over anything in the second. */
  lemma ReadRowsAppend(a: seq<string>, b: seq<string>)
    ensures ReadRows(a + b) == Chain(ReadRows(a), ReadRows(b))
  {
    OutcomesAppend(a, b);
    CollectAppend(Outcomes(a), Outcomes(b));
  }

  lemma {:induction false} CollectAppend(x: seq<LineOutcome>, y: seq<LineOutcome>)
    ensures Collect(x + y) == Chain(Collect(x), Collect(y))
  {
    if x == [] {
      assert x + y == y;
      match Collect(y)
      case Ok(more) => assert [] + more == more;
      case Err(_) =>
    } else {
      assert (x + y)[0] == x[0];
      assert (x + y)[1..] == x[1..] + y;
      CollectAppend(x[1..], y);
      StepChain(x[0], Collect(x[1..]), Collect(y));
    }
  }

  /** One line in front of two chained stretches. */
  lemma StepChain(o: LineOutcome, first: Result<seq<ZodiacRow>>, rest: Result<seq<ZodiacRow>>)
    ensures Step(o, Chain(first, rest)) == Chain(Step(o, first), rest)
  {
    if o.Entry? && first.Ok? && rest.Ok? {
      assert [o.row] + (first.value + rest.value) == ([o.row] + first.value) + rest.value;
    }
  }

  /** A line whose stripped text does not hold exactly one `|` (for instance
      one with three `|`-separated fields) is skipped, not an error. */
  lemma PipeCountSkips(line: string)
    requires Count(line, '|') != 1
    ensures ParseLine(line) == Skipped
  {
    StripKeepsCount(line, '|');
  }

  /** The other half of the skip rule: a line with one `|` whose date field
      does not hold exactly one `-` is skipped, not an error, whatever
      whitespace surrounds it. */
  lemma DashCountSkips(sign: string, dates: string)
    requires '|' !in sign && '|' !in dates
    requires Count(dates, '-') != 1
    ensures ParseLine(sign + "|" + dates) == Skipped
  {
    assert sign + "|" + dates == sign + ['|'] + dates;
    var _, k := StripAroundSeparator(sign, dates, '|');
    assert dates == dates[..k] + dates[k..];
    CountAppend(dates[..k], dates[k..], '-');
    SpacesHoldNo(dates[k..], '-');
    StripKeepsCount(dates[..k], '-');
  }

  /** A line with one `|` whose date field holds exactly one `-` is never
      skipped, whatever whitespace surrounds its parts. */
  lemma OneOfEachNotSkipped(sign: string, dates: string)
    requires '|' !in sign && '|' !in dates
    requires Count(dates, '-') == 1
    ensures ParseLine(sign + "|" + dates) != Skipped
  {
    var a, b := SplitOnce(dates, '-');
    assert '|' !in a && '|' !in b;
    var line := sign + "|" + dates;
    assert line == sign + "|" + a + "-" + b;
    OneOfEachOutcome(sign, a, b);
    match ParseDayDotMonth(Strip(a)) {
      case Err(_) =>
      case Ok(_) =>
    }
  }

  /** A text holding its separator once is the two pieces of its split
      around it. */
  lemma SplitOnce(s: string, sep: char) returns (a: string, b: string)
    requires Count(s, sep) == 1
    ensures sep !in a && sep !in b && s == a + [sep] + b
    ensures Split(s, sep) == [a, b]
  {
    var parts := Split(s, sep);
    JoinSplit(s, sep);
    SplitPiecesSeparatorFree(s, sep);
    a, b := parts[0], parts[1];
    assert parts[1..] == [b];
  }

  /** What such a line yields: the stripped sign with the two days its
      stripped tokens stand for, or the ValueError of the first token that
      is no day of 1900. */
  lemma OneOfEachOutcome(sign: string, a: string, b: string)
    requires '|' !in sign && '|' !in a && '|' !in b && '-' !in a && '-' !in b
    ensures ParseLine(sign + "|" + a + "-" + b)
         == match ParseDayDotMonth(Strip(a))
            case Err(e) => Raises(e)
            case Ok(s) =>
              match ParseDayDotMonth(Strip(b))
              case Err(e) => Raises(e)
              case Ok(t) => Entry(ZodiacRow(Strip(sign), s, t))
  {
    var dates := a + "-" + b;
    assert sign + "|" + a + "-" + b == sign + ['|'] + dates;
    assert '|' !in dates;
    StripSplitTwo(sign, dates, '|');
    assert dates == a + ['-'] + b;
    StripSplitTwo(a, b, '-');
  }

  /** The skip rule both ways: a line is skipped exactly when it does not
      hold one `|`, or when the text after its `|` does not hold one `-`. */
  lemma SkipRule(line: string)
    ensures ParseLine(line) == Skipped
        <==> Count(line, '|') != 1 || Count(Split(line, '|')[1], '-') != 1
  {
    if Count(line, '|') != 1 {
      PipeCountSkips(line);
    } else {
      var sign, dates := SplitOnce(line, '|');
      assert line == sign + "|" + dates;
      if Count(dates, '-') != 1 {
        DashCountSkips(sign, dates);
      } else {
        OneOfEachNotSkipped(sign, dates);
      }
    }
  }

  /** Stripping whitespace does not remove any other character. */
  lemma StripKeepsCount(s: string, c: char)
    requires !IsSpace(c)
    ensures Count(Strip(s), c) == Count(s, c)
  {
    var i := LeadingSpaces(s);
    var t := s[i..];
    var j := ContentEnd(t);
    StripEnds(s);
    SpacesHoldNo(s[..i], c);
    SpacesHoldNo(t[j..], c);
    ThreeParts(s, i, j);
    CountAppend(s[..i], t[..j] + t[j..], c);
    CountAppend(t[..j], t[j..], c);
  }

  lemma SpacesHoldNo(s: string, c: char)
    requires AllSpace(s) && !IsSpace(c)
    ensures Count(s, c) == 0
  {
    CountAbsent(s, c);
  }

  /** A line written as `<sign> | <start> - <end>` is read back as that
      sign and the two dates its tokens stand for, or raises on the first
      token that is not a day of 1900. */
  lemma ParseWrittenLine(sign: string, start: string, end: string)
    requires Trimmed(sign) && Trimmed(start) && Trimmed(end)
    requires '|' !in sign && '|' !in start && '-' !in start && '|' !in end && '-' !in end
    ensures ParseLine(sign + " | " + start + " - " + end)
         == match ParseDayDotMonth(start)
            case Err(e) => Raises(e)
            case Ok(s) =>
              match ParseDayDotMonth(end)
              case Err(e) => Raises(e)
              case Ok(t) => Entry(ZodiacRow(sign, s, t))
  {
    WrittenRangeTrimmed(start + " - " + end, start, end);
    WrittenLineFields(sign + " | " + start + " - " + end, sign, start + " - " + end);
    WrittenRangeTokens(start + " - " + end, start, end);
    StripTrimmed(sign);
    StripTrimmed(start);
    StripTrimmed(end);
  }

  lemma WrittenLineFields(line: string, sign: string, dates: string)
    requires Trimmed(sign) && Trimmed(dates) && '|' !in sign && '|' !in dates
    requires line == sign + " | " + dates
    ensures Split(Strip(line), '|') == [sign + " ", " " + dates]
    ensures Strip(" " + dates) == dates
  {
    assert Trimmed(line);
    StripTrimmed(line);
    assert line == sign + " " + ['|'] + (" " + dates);
    SplitTwo(sign + " ", " " + dates, '|');
    StripTrimmed(dates);
  }

  lemma WrittenRangeTokens(dates: string, start: string, end: string)
    requires '-' !in start && '-' !in end
    requires dates == start + " - " + end
    ensures Split(dates, '-') == [start + " ", " " + end]
  {
    assert dates == (start + " ") + ['-'] + (" " + end);
    SplitTwo(start + " ", " " + end, '-');
  }

  lemma WrittenRangeTrimmed(dates: string, start: string, end: string)
    requires Trimmed(start) && Trimmed(end) && '|' !in start && '|' !in end
    requires dates == start + " - " + end
    ensures Trimmed(dates) && '|' !in dates
  {
    assert dates[0] == start[0] && dates[|dates| - 1] == end[|end| - 1];
  }
}
