# WRC drivers by zodiac sign — a Dafny model

`parse_wrc_drivers_from_wikipedia.py` scrapes Wikipedia's list of World
Rally Championship drivers. It follows each driver's profile link to read
the birthday. It gives every driver a zodiac sign from a table of date
ranges in `zodiac.txt`. Finally it prints how many drivers were born under
each sign, largest group first.

This project models the logic between the I/O:

- `wrappers.dfy`: `Option`, and `Result` carrying the two Python exceptions
  the core can raise (`StopIteration`, `ValueError`).
- `text.dfy`: the string operations the script relies on. These are
  `str.strip()`, `str.split(sep)`, `in` on strings, and decimal digit
  fields.
- `dates.dfy`: `datetime.strptime` with the formats `"%d.%m"`,
  `"%d-%m-%Y"` and `"%Y-%m-%d"`, and `strftime("%d-%m-%Y")`.
  - Fields are read as CPython's `_strptime` reads them. `%d` is one or two
    digits worth 1..31 (or a space and a digit). `%m` is worth 1..12. `%Y`
    is exactly four digits. The day must exist in its month, and the
    default year for `"%d.%m"` is 1900.
  - It also models `replace(year=1900)` and the comparison of two dates of
    1900.
- `zodiac_table.dfy`: `load_zodiac_signs`.
  - The file is given as its lines. The first two are skipped, and a file
    with fewer lines raises StopIteration.
  - A line that does not split into exactly two fields on `|`, or whose
    second field does not split into exactly two tokens on `-`, is skipped.
  - A token that is no day of 1900 raises ValueError and ends the loading.
- `classifier.dfy`: `get_zodiac_sign`.
  - The sign of the first table row whose range holds the day, with the
    year ignored.
  - When no row matches, "Steinbock" from 22 December to 19 January, and no
    sign on other days.
  - ValueError for a text that is not a `DD-MM-YYYY` date, and for
    29 February.
- `aggregator.dfy`: the grouping loop (lines 106-109) and line 112, which
  sorts the dict's items by the length of each sign's name list, largest
  first (`reverse=True`).
  - The `defaultdict` is kept as its keys in insertion order plus a map
    from sign to names.
  - The sort is Python's stable sort on the group size.
- `drivers.dfy`: the per-row decision of the main loop (lines 78-96) and
  the loop itself. A row's first cell is given as its anchors and its
  stripped text. The profile-page fetch is a function from link to the
  stripped text of the `bday` span.

Which members are functions and which are methods follows the script. The
four modelled loops of the script are methods, each proved equal to a specifying
function (three of them build a list or dict step by step; the one in
`GetZodiacSign` is a search with an early return):

- `LoadZodiacSigns`
- `GetZodiacSign`
- `GroupBySign`
- `ScrapeDrivers`

The properties are lemmas about those functions.

Two behaviours of the script are worth stating outright:

- **Wrapping rows.** A row that runs across the new year (22.12 - 19.01)
  matches no day. Line 34 tests `start <= day <= end`, so only the
  hard-coded fallback of line 37 yields "Steinbock" (`WrappingRowsAreDead`).
- **Malformed birthdays.** A malformed birthday ends the run. Line 66 sits
  outside any `except` for ValueError (`BirthDateAt`, `DriversOf`).

## Model

| member | source | states |
|---|---|---|
| ZodiacTable.LoadZodiacSigns | parse_wrc_drivers_from_wikipedia.py:12-27 | StopIteration for a file of fewer than two lines; otherwise the result of reading the lines after the two header lines |
| ZodiacTable.ReadRowsCharacterized | parse_wrc_drivers_from_wikipedia.py:17-26 | reading succeeds exactly when no line raises, and then yields one row per accepted line in file order; otherwise it yields the exception of the first line that raises |
| ZodiacTable.ReadRowsAppend | parse_wrc_drivers_from_wikipedia.py:17-26 | reading is line by line: reading two stretches of lines is reading the first, then the second, and an exception in the first ends it |
| ZodiacTable.ParseLine | parse_wrc_drivers_from_wikipedia.py:18-26 | one line's outcome: skipped, an entry whose start and end are days of 1900, or a ValueError |
| ZodiacTable.PipeCountSkips | parse_wrc_drivers_from_wikipedia.py:18-19 | a line that does not hold exactly one pipe character is skipped, never an error |
| ZodiacTable.DashCountSkips | parse_wrc_drivers_from_wikipedia.py:18-23 | a line with one pipe whose date field does not hold exactly one `-` is skipped, never an error, whatever whitespace surrounds it |
| ZodiacTable.OneOfEachOutcome | parse_wrc_drivers_from_wikipedia.py:18-26 | a line of a sign, a pipe, a token, a `-` and a token, with no further pipe or `-`, whatever whitespace surrounds its parts, yields the row of the stripped sign and the days of the stripped tokens, or the ValueError of the first stripped token that is no day of 1900 |
| ZodiacTable.OneOfEachNotSkipped | parse_wrc_drivers_from_wikipedia.py:18-23 | a line with one pipe character whose date field holds exactly one `-` is never skipped |
| ZodiacTable.SkipRule | parse_wrc_drivers_from_wikipedia.py:18-23 | a line is skipped if and only if it does not hold exactly one pipe character, or the text after its pipe does not hold exactly one `-` |
| ZodiacTable.StripKeepsCount | parse_wrc_drivers_from_wikipedia.py:18 | `strip()` removes whitespace only, so a line has as many pipe characters after stripping as before |
| ZodiacTable.ParseWrittenLine | parse_wrc_drivers_from_wikipedia.py:18-26 | a line written as a sign, a pipe and two dot-separated days joined by ` - ` yields the row (sign, start, end) when both are days of 1900, and raises ValueError otherwise |
| ZodiacTable.FirstRaising | parse_wrc_drivers_from_wikipedia.py:24-25 | the index of the least line that raises, and that no earlier line raises |
| Dates.ParseDayDotMonth | parse_wrc_drivers_from_wikipedia.py:24-25 | `strptime(s, "%d.%m")`: what it accepts is a day that exists in 1900 |
| Dates.ParseDayMonthYear | parse_wrc_drivers_from_wikipedia.py:31 | `strptime(s, "%d-%m-%Y")`: what it accepts is a date that exists |
| Dates.ParseYearMonthDay | parse_wrc_drivers_from_wikipedia.py:66 | `strptime(s, "%Y-%m-%d")`: what it accepts is a date that exists |
| Dates.FormatDayMonthYear | parse_wrc_drivers_from_wikipedia.py:66 | `strftime("%d-%m-%Y")`: ten characters, two-digit day and month and four-digit year, all digits, separated by `-` |
| Dates.ParseDayDotMonthAccepts | parse_wrc_drivers_from_wikipedia.py:24 | `strptime("21.03", "%d.%m")` is 21 March |
| Dates.ParseDayDotMonthRejectsDay32 | parse_wrc_drivers_from_wikipedia.py:24 | `"32.01"` raises ValueError |
| Dates.ParseDayDotMonthRejectsFeb29 | parse_wrc_drivers_from_wikipedia.py:24-25 | `"29.02"` raises ValueError, since 1900 is not a leap year |
| Dates.ParseDayDotMonthFields | parse_wrc_drivers_from_wikipedia.py:24-25 | a day text and a month text around a dot give that day of 1900 when both fields match and the day exists in that month, and ValueError otherwise |
| Dates.ParseYearMonthDayFields | parse_wrc_drivers_from_wikipedia.py:66 | three texts between dashes give the date they spell when all three fields match and the day exists, and ValueError otherwise |
| Dates.ParseYearMonthDayExample | parse_wrc_drivers_from_wikipedia.py:66 | `"1985-03-21"` is read as 21 March 1985 |
| Dates.FormatDayMonthYearExample | parse_wrc_drivers_from_wikipedia.py:66 | 21 March 1985 is written `"21-03-1985"` |
| Dates.ConvertBirthDate | parse_wrc_drivers_from_wikipedia.py:66 | raises ValueError exactly when the input is no `%Y-%m-%d` date; otherwise the output is the zero-padded `DD-MM-YYYY` text of the input's date, and reading it with `%d-%m-%Y` gives that date back |
| Dates.ConvertBirthDateSwapsFields | parse_wrc_drivers_from_wikipedia.py:66 | on a zero-padded `YYYY-MM-DD` text that is a date, the output is `DD-MM-YYYY` with the same digit fields |
| Dates.ConvertBirthDateExample | parse_wrc_drivers_from_wikipedia.py:66 | `"1985-03-21"` becomes `"21-03-1985"` |
| Dates.FormatThenParse | parse_wrc_drivers_from_wikipedia.py:31 | reading with `%d-%m-%Y` what `strftime("%d-%m-%Y")` wrote gives the same date back |
| Dates.FormatFields | parse_wrc_drivers_from_wikipedia.py:66 | a written date splits on `-` into its zero-padded day, month and year |
| Dates.ReplaceYear1900 | parse_wrc_drivers_from_wikipedia.py:32 | fails for 29 February and for no other date; otherwise keeps day and month |
| Dates.NotAfterIsChronological | parse_wrc_drivers_from_wikipedia.py:34 | comparing month first and day second orders the days of 1900 by their position in the year |
| Classifier.GetZodiacSign | parse_wrc_drivers_from_wikipedia.py:30-39 | the loop with its early return computes `ZodiacSignOf` |
| Classifier.ZodiacSignOf | parse_wrc_drivers_from_wikipedia.py:30-39 | raises exactly when the text is no `DD-MM-YYYY` date or is 29 February; otherwise yields the sign of its day and month |
| Classifier.SignOfDay | parse_wrc_drivers_from_wikipedia.py:33-39 | the first matching row's sign; with no match, "Steinbock" exactly from 22 December to 19 January, and no sign otherwise |
| Classifier.InRange | parse_wrc_drivers_from_wikipedia.py:34 | the inclusive test `start <= day <= end`; a row that holds some day has its start no later than its end |
| Classifier.FirstMatch | parse_wrc_drivers_from_wikipedia.py:33-35 | a sign found is the sign of some row whose range holds the day; no sign means no row's range holds it |
| Classifier.InCapricornFallback | parse_wrc_drivers_from_wikipedia.py:37 | for a real month, the test holds exactly from 22 December to 19 January |
| Classifier.FirstMatchIndex | parse_wrc_drivers_from_wikipedia.py:33-35 | the least index of a row whose range holds the day |
| Classifier.FirstMatchIsLeastIndex | parse_wrc_drivers_from_wikipedia.py:33-35 | the lookup yields the sign of the least matching row, and nothing exactly when no row's range holds the day |
| Classifier.NotAfterTransitive | parse_wrc_drivers_from_wikipedia.py:34 | the date comparison is transitive |
| Classifier.WrappingRowNeverMatches | parse_wrc_drivers_from_wikipedia.py:34 | a row whose start comes after its end holds no day |
| Classifier.WithoutWrapping | parse_wrc_drivers_from_wikipedia.py:33-35 | the table with its new-year-spanning rows removed keeps no such row |
| Classifier.WithoutWrappingAppend | parse_wrc_drivers_from_wikipedia.py:33-35 | removing the spanning rows acts on each stretch of the table separately, so the kept rows stay in table order |
| Classifier.WrappingRowsAreDead | parse_wrc_drivers_from_wikipedia.py:33-38 | dropping every new-year-spanning row changes no lookup |
| Classifier.CapricornRowNeverMatches | parse_wrc_drivers_from_wikipedia.py:36-38 | a table holding only `Steinbock 22.12 - 19.01` classifies every day as the empty table does, through the fallback |
| Classifier.ClassifyFirstRowExample | parse_wrc_drivers_from_wikipedia.py:33-35 | 21-03-1985 gets the first row whose range holds 21 March |
| Classifier.ClassifyFallbackExample | parse_wrc_drivers_from_wikipedia.py:37-38 | 05-01-1990 gets "Steinbock" from an empty table |
| Classifier.LeapDayRaises | parse_wrc_drivers_from_wikipedia.py:32 | 29 February of any year raises ValueError |
| Aggregator.GroupBySign | parse_wrc_drivers_from_wikipedia.py:106-109 | the dict loop yields `Grouped(drivers)`: its items in insertion order |
| Aggregator.AddDriverUpdates | parse_wrc_drivers_from_wikipedia.py:108-109 | one `zodiac_groups[sign].append(name)`: every key keeps its place; only the driver's own sign gets the name at the end of its list; a new sign becomes the last key with a one-name list; a driver without a sign changes nothing |
| Aggregator.GroupedHasNoEmptyGroup | parse_wrc_drivers_from_wikipedia.py:106-109 | no group of the dict is empty |
| Aggregator.IndexOfSign | parse_wrc_drivers_from_wikipedia.py:109 | the position of a key among the groups, or the number of groups when it is absent |
| Aggregator.FirstIndexOf | parse_wrc_drivers_from_wikipedia.py:107-109 | the least index of a driver with the sign |
| Aggregator.GroupedIsGroupsOf | parse_wrc_drivers_from_wikipedia.py:106-109 | one group per non-empty sign some driver carries and no other, distinct signs, each group's names those of its sign's drivers in driver order, and groups ordered by their sign's first occurrence |
| Aggregator.GroupedKeepsEveryLabelledDriver | parse_wrc_drivers_from_wikipedia.py:107-109 | the groups hold as many names as there are drivers with a sign |
| Aggregator.InsertPosition | parse_wrc_drivers_from_wikipedia.py:112 | the first position whose group is not larger than the inserted one |
| Aggregator.InsertBySize | parse_wrc_drivers_from_wikipedia.py:112 | inserting adds exactly the one group |
| Aggregator.SortBySizeDesc | parse_wrc_drivers_from_wikipedia.py:112 | the sorted report is a permutation of the groups |
| Aggregator.SortBySizeDescSorted | parse_wrc_drivers_from_wikipedia.py:112 | the report lists larger groups first |
| Aggregator.SortBySizeDescStable | parse_wrc_drivers_from_wikipedia.py:112 | the groups of each size keep their relative order (stable sort) |
| Aggregator.SortBySizeDescKeepsTies | parse_wrc_drivers_from_wikipedia.py:112 | groups of equal size stay in the order in which their signs first occur |
| Aggregator.ReportOrder | parse_wrc_drivers_from_wikipedia.py:106-112 | the report is a permutation of the groups with distinct signs, non-increasing in size, with ties in first-occurrence order |
| Aggregator.SortKeepsTotalSize | parse_wrc_drivers_from_wikipedia.py:112 | sorting neither adds nor drops a name |
| Drivers.BirthDateAt | parse_wrc_drivers_from_wikipedia.py:62-67 | None when no birthday is found; raises exactly when the birthday is no `%Y-%m-%d` date; otherwise the zero-padded `DD-MM-YYYY` text of the same date |
| Drivers.ScriptPathInLink | parse_wrc_drivers_from_wikipedia.py:83-84 | the prefixed link contains `/w/` exactly when the `href` does |
| Drivers.DecideRow | parse_wrc_drivers_from_wikipedia.py:81-95 | the record of a row in each of the three branches (at most one anchor, a `/w/` link, a profile link) |
| Drivers.FirstFailing | parse_wrc_drivers_from_wikipedia.py:78-96 | the least index of a row whose decision raises |
| Drivers.DriversOf | parse_wrc_drivers_from_wikipedia.py:78-96 | the first raising row's exception, or one record per row in table order |
| Drivers.ScrapeDrivers | parse_wrc_drivers_from_wikipedia.py:78-96 | the loop over the rows computes `DriversOf` |
| Drivers.DriverSignFromTable | parse_wrc_drivers_from_wikipedia.py:90 | a driver's sign is "Steinbock" or the sign of some table row |
| Drivers.ReportSignsComeFromTable | parse_wrc_drivers_from_wikipedia.py:74-112 | every group of the report carries a table sign or "Steinbock", and the report holds every driver that has a sign |
| Text.Strip | parse_wrc_drivers_from_wikipedia.py:18 | `str.strip()`: the result is never longer than the input |
| Text.Split | parse_wrc_drivers_from_wikipedia.py:18 | `str.split(sep)`: one more piece than the text has separators |
| Text.StripPadded | parse_wrc_drivers_from_wikipedia.py:18 | `strip()` removes exactly the surrounding whitespace of a trimmed text |
| Text.StripEnds | parse_wrc_drivers_from_wikipedia.py:18 | the stripped text neither starts nor ends with whitespace, and everything stripped off is whitespace |
| Text.SplitPiecesSeparatorFree | parse_wrc_drivers_from_wikipedia.py:18 | no piece returned by `split(sep)` holds `sep` |
| Text.JoinSplit | parse_wrc_drivers_from_wikipedia.py:18 | joining the pieces of `split(sep)` with `sep` gives the text back |
| Text.SplitJoin | parse_wrc_drivers_from_wikipedia.py:22 | splitting the join of separator-free pieces gives the pieces back |
| Text.ContainsAt | parse_wrc_drivers_from_wikipedia.py:84 | `sub in s` holds exactly when `sub` occurs in `s` at some index |
| Text.ContainsBehindPrefix | parse_wrc_drivers_from_wikipedia.py:84 | a prefix that cannot start an occurrence does not change whether a text contains a substring |
| Text.DecimalOfPad | parse_wrc_drivers_from_wikipedia.py:66 | a zero-padded number reads back as that number |

## Left out

- The HTTP requests and the retry loop with its two-second sleep (lines 42-43 and 55-71) are not modelled. A profile's birthday is given as a lookup from link to the stripped text of its `bday` span, or None when no attempt found one.
- BeautifulSoup parsing is not modelled (lines 46, 49, 61-62, 77, 79-80). A row is given as its first cell's anchors and stripped text. The header row is taken as already dropped.
- The IndexError for a row without a `<td>` is left out, because the HTML structure is not modelled.
- The KeyError for an anchor without `href` is left out for the same reason.
- Opening `zodiac.txt` is not modelled; the file is given as its lines (line 14).
- tqdm and all printing are left out (lines 78, 99-103 and 115-118): they only format output.
- The record is built with the key `"namee"` (line 96), but lines 101, 103 and 109 read `'name'`. The model keeps one name field and does not reproduce the KeyError that mismatch raises.
- Dates.DayField: only ASCII digits are modelled, where CPython's `\d` also accepts other Unicode decimal digits.
- Dates.YearField: likewise only ASCII digits, where CPython's `%Y` pattern `\d\d\d\d` also accepts other Unicode decimal digits.
- Dates.FormatDayMonthYear: always pads the year to four digits. On some platforms `strftime("%Y")` does not pad years below 1000.
- Text.IsSpace: the whitespace set of `str.strip()` is listed explicitly as Python's `str.isspace` characters.
