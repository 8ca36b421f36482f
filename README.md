# Berlin public holidays to CSV, modelled in Dafny

This project models the processing core of `bh_to_csv`, a scraper that reads
the yearly Berlin holiday tables from `publicholidays.de` and flattens them
into CSV rows. Everything between the network and the CSV writer is modelled:

- **Table extraction** (`data_from_table`, module `TableExtract`). The column
  names are the stripped header texts. The raw cell count of the first body
  row fixes the width. Rows of any other raw width are dropped, and blank
  cells are removed only after that test. A missing table or body is the
  `StructureNotFound` error.
- **Row zipping** (`row_lst_to_row_dicts`, module `Records`). Each row becomes
  a record of column name to cell. The last cell wins for a repeated name.
  Every row must be exactly as wide as the header (`SchemaMismatch`); an
  empty row list passes unchecked.
- **Date normalisation** (`process_dates_inplace`, module `Dates`). Each
  record's "Date" cell has the page's year appended. The result is read with
  `%d %b%Y` against the proleptic Gregorian calendar and replaced by the
  `isoformat()` text of the `datetime`, for example `2023-12-25T00:00:00`.
  The records live in an array that is rewritten in place and in loop order.
  A missing "Date" is `FormatDrift`; unreadable text is
  `DateParseError(text)`.
- **Year-range probing** (`get_bound_year`, module `Prober`). It walks from
  2019 toward later ("max") or earlier ("min") years while the page answers
  200 and the year is strictly between the limits.
- **Aggregation** (`get_berlin_holidays`, module `Aggregator`). It loops over
  the requested years in order. It skips a year only when the fetch returned
  no content, unions the column names and appends the rows.
- **Shared helpers.** Module `Text` holds Python's `str.strip()`, `str(int)`
  and decimal digits. Module `Fetching` holds the fetch results and
  `get_link_year`. Module `Common` holds the error kinds.

The network and the HTML parser are inputs, not code. A fetch is a function
from URL to one of three outcomes, after `simple_get`:

- `Page`: status 200 with the parsed page.
- `NoContent(status)`: a status other than 200 and -1, whose content is
  `None`.
- `Failed`: a `URLError` with status -1. Its content is the exception
  object, which is *not* `None`. It is therefore handed to the parser, which
  either reads a document from it (`ParsesAs`) or rejects it (`Unparseable`,
  the `NotMarkup` error).

A parsed page is reduced to the one table the scraper asks for: the raw `th`
texts, and the raw `td` texts of each `tr` of the first `tbody`.

The code behaves as follows where one might expect otherwise:

- Dates become `YYYY-MM-DDT00:00:00`, not a date-only text, because
  `isoformat()` is called on a `datetime`.
- The row width is the raw `td` count of the first row, blanks included, not
  the non-empty count.
- A failed fetch is not skipped by the aggregator. Only content `None` is.
- The prober stays strictly inside its limits, not within them inclusively.
- A one-digit day is accepted, not only a zero-padded one.
- The prober stops on any status other than 200. Only a failed request
  (status -1) steps back to the last year that served a page. Any other
  status, such as 204, still takes the step past the failing year. The
  result is then the year after it, which was never fetched, and the year
  before it served no page. A 204 for 2019 makes "max" return 2020.

## Model

| member | source | states |
|---|---|---|
| Text.Strip | bh_to_csv/__init__.py:33 | the stripped text is a slice of the input that neither starts nor ends with white space, and everything cut off on either side is white space |
| Text.StripBlank | bh_to_csv/__init__.py:39-44 | a cell strips to the empty string exactly when it is all white space, which is what makes it a blank cell |
| Text.NatStringRoundTrip | bh_to_csv/__init__.py:55 | the decimal text of a non-negative year reads back as that year |
| Text.DecimalStringInjective | bh_to_csv/__init__.py:71 | two integers with the same `str` text are equal, negatives included |
| Text.PaddedRoundTrip | bh_to_csv/__init__.py:57 | a zero-padded field of a number that fits reads back as the number and is all digits |
| Text.DigitsRoundTrip | bh_to_csv/__init__.py:55 | a digit string is below 10 to its length, and zero-padding its value to its length gives the string back |
| Text.NatStringIsPadded | bh_to_csv/__init__.py:55 | for a number with exactly `width` digits, `str` and zero padding to `width` agree |
| Fetching.Status | bh_to_csv/__init__.py:17-26 | the status is 200 exactly for a page and -1 exactly for a failed request |
| Fetching.Content | bh_to_csv/__init__.py:21-26 | the content is `None` exactly when the status is neither 200 nor -1; a page's content is its document and a failed request's content is its exception |
| Fetching.LinkYear | bh_to_csv/__init__.py:70-71 | the URL is the site prefix, the year's decimal text and the `-dates/` suffix |
| Fetching.LinkYearInjective | bh_to_csv/__init__.py:70-71 | different years give different URLs |
| TableExtract.DropEmpty | bh_to_csv/__init__.py:44 | the kept cells are non-empty cells of the row, and every non-empty cell is kept |
| TableExtract.DropEmptyAppend | bh_to_csv/__init__.py:44 | blanks are dropped cell by cell: a blank cell vanishes, any other stays, and a concatenation's result is the concatenation of the results, so order and repeated cells are kept |
| TableExtract.DataFromTable | bh_to_csv/__init__.py:29-45 | the row loop, with the width fixed by the first row, returns exactly the specified extraction, or the error for a missing table or body |
| TableExtract.MatchingIndices | bh_to_csv/__init__.py:37-43 | strictly increasing positions of exactly the rows of the given raw width |
| TableExtract.KeepWidthExact | bh_to_csv/__init__.py:37-44 | the kept rows are the cleaned rows at exactly those positions, in order |
| TableExtract.ExtractTableOk | bh_to_csv/__init__.py:33-44 | the columns are the stripped header texts; the rows are the cleaned body rows as wide as the first, in order; the first body row is always kept |
| TableExtract.KeptRowsShape | bh_to_csv/__init__.py:43-44 | no kept row holds an empty cell or is wider than the first row's raw width |
| TableExtract.ExtractTableMissing | bh_to_csv/__init__.py:31-34 | extraction fails exactly when the table or its body is missing |
| Records.RecordsExtend | bh_to_csv/__init__.py:67 | adding one more name and cell to a dict keeps it the zip of the longer rows, the new name overriding earlier ones |
| Records.RowDict | bh_to_csv/__init__.py:67 | the keys are exactly the column names, and each name maps to the cell at its last position |
| Records.RowListToRowDicts | bh_to_csv/__init__.py:62-67 | fails with `SchemaMismatch` exactly when some row's width differs from the header's; otherwise one such record per row, in order |
| Records.RowListEmpty | bh_to_csv/__init__.py:64-67 | an empty row list gives no records, whatever the column names |
| Dates.DaysInMonth | bh_to_csv/__init__.py:55 | the Gregorian month table: 30 days in April, June, September and November, 31 in the other months but February, and in February 29 in a leap year and 28 otherwise |
| Dates.MonthNumber | bh_to_csv/__init__.py:55 | `%b` gives month m exactly for the m-th English abbreviation and fails on any other text |
| Dates.SplitDate | bh_to_csv/__init__.py:55 | a successful split reassembles to the input as day, one space, three month characters and four year characters |
| Dates.SplitDateOf | bh_to_csv/__init__.py:55 | text built from a one- or two-digit day, a month and a year splits back into them |
| Dates.DayTextReads | bh_to_csv/__init__.py:55 | a day written with or without its leading zero is a valid `%d` token with that value |
| Dates.AbbreviationsDistinct | bh_to_csv/__init__.py:55 | no two months share an abbreviation |
| Dates.MonthNumberOf | bh_to_csv/__init__.py:55 | each month's abbreviation reads as that month |
| Dates.ParseDateText | bh_to_csv/__init__.py:55 | every valid date, its day padded or not, reads back as itself |
| Dates.ParseDateSound | bh_to_csv/__init__.py:55 | whatever is accepted is a valid calendar date, and the text is that date written one of the two ways |
| Dates.IsoFormatFields | bh_to_csv/__init__.py:56-57 | `isoformat()` is 19 characters: 4 year digits, '-', 2 month digits, '-', 2 day digits, 'T' and a zero time, the digits reading as the date |
| Dates.NormalizeRowErrors | bh_to_csv/__init__.py:52-58 | a row without "Date" fails with `FormatDrift`; a "Date" whose text with the year appended does not parse fails with `DateParseError` naming that text; a parsable one is rewritten |
| Dates.NormalizeRowFrame | bh_to_csv/__init__.py:52-58 | a successful row rewrite keeps every key and every other cell, and stores the ISO text of the valid date parsed from the cell and the year |
| Dates.NormalizeDayMonth | bh_to_csv/__init__.py:52-58 | for a four-digit year, a day-and-month cell becomes the ISO text of that date when the day exists in that month, and is a `DateParseError` when it does not (30 Feb, 29 Feb of a common year) |
| Dates.ParseDayMonthYear | bh_to_csv/__init__.py:55 | day, month abbreviation and four-digit year parse to that date exactly when it is a real calendar date |
| Dates.ChristmasExample | bh_to_csv/__init__.py:52-58 | "25 Dec" on the 2023 page becomes "2023-12-25T00:00:00" and nothing else in the row changes |
| Dates.ChristmasIso | bh_to_csv/__init__.py:57 | midnight of 25 December 2023 is "2023-12-25T00:00:00" |
| Dates.PaddedSamples | bh_to_csv/__init__.py:57 | the zero-padded fields of that example: "2023", "12" and "25" |
| Dates.RewriteAll | bh_to_csv/__init__.py:50-58 | a successful rewrite has one row per input row |
| Dates.RewriteAllOk | bh_to_csv/__init__.py:50-58 | the rows succeed together exactly when each row succeeds, and then row i is row i's rewrite |
| Dates.RewriteAllFirstError | bh_to_csv/__init__.py:50-58 | otherwise the error is that of the first failing row |
| Dates.ProcessDatesInPlace | bh_to_csv/__init__.py:48-59 | passes exactly when every row rewrites, leaving each array cell rewritten; on failure the error is the first failing row's, the rows before it are rewritten and it and the rows after it are untouched |
| Prober.BoundYear | bh_to_csv/__init__.py:74-92 | fails with `BadBoundType` exactly for a bound type other than "max" and "min" |
| Prober.GetBoundYear | bh_to_csv/__init__.py:74-92 | the probing loop returns exactly the walk's result, or the bound-type error; the years it fetches, in order, are exactly the walk's `Probes` (none for a bad bound type) |
| Prober.ProbesShape | bh_to_csv/__init__.py:79-91 | the walk fetches consecutive years from its start (2019 in `get_bound_year`), each once and each strictly inside the limits, and every fetch but the last returned 200 |
| Prober.ProbeResult | bh_to_csv/__init__.py:79-92 | the result is the start when nothing was fetched; one step back toward the anchor from a failed last fetch; the configured limit (never fetched) after a 200; one step past a last fetch with another status |
| Prober.ProbeFirstFailure | bh_to_csv/__init__.py:79-87 | when the first n years answer 200 and the next fails, the result is the year before the failing one |
| Prober.ProbeReachesLimit | bh_to_csv/__init__.py:79-92 | when every year up to the limit answers 200, the result is the limit |
| Prober.AnchorFails | bh_to_csv/__init__.py:76-87 | if 2019 itself fails, "max" gives 2018 and "min" gives 2020 |
| Prober.AnchorNoPage | bh_to_csv/__init__.py:79-92 | if 2019 answers a status other than 200 and -1, "max" gives 2020 and "min" gives 2018, years that were never fetched |
| Prober.LastYearScenario | bh_to_csv/__init__.py:74-92 | with the default limits, a site serving 2019 to 2025 and failing at 2026 has 2025 as its last year |
| Aggregator.ContentDocument | bh_to_csv/__init__.py:117-121 | only content `None`, that is a status other than 200 and -1, is skipped; a page is parsed as itself; a failed request's exception is parsed too, or rejected as `NotMarkup` |
| Aggregator.YearStep | bh_to_csv/__init__.py:116-126 | a year is skipped exactly when its fetch's status is neither 200 nor -1, the only case with no content |
| Aggregator.FailureProcessedAsPage | bh_to_csv/__init__.py:117-121 | a failed request whose exception parses is processed exactly as a page with that document, and is never skipped |
| Aggregator.HarvestPage | bh_to_csv/__init__.py:119-125 | extraction, zipping and in-place date rewriting of one page give exactly that page's harvest or its first error |
| Aggregator.GetBerlinHolidays | bh_to_csv/__init__.py:110-128 | the year loop, with its set of column names and its row list, returns exactly the in-order fold of the years' steps |
| Aggregator.GatherAppend | bh_to_csv/__init__.py:114-126 | running over two lists of years in turn is running over each and joining: the first error wins, the column sets are united, the rows concatenated |
| Aggregator.GatherStops | bh_to_csv/__init__.py:114-126 | once a prefix of the years fails, the whole run fails with the same error |
| Aggregator.GatherOk | bh_to_csv/__init__.py:114-126 | the run succeeds exactly when every year's step succeeds |
| Aggregator.GatherFirstError | bh_to_csv/__init__.py:114-126 | otherwise its error is that of the first failing year |
| Aggregator.GatherTotals | bh_to_csv/__init__.py:123-126 | a successful run has as many rows as the processed years contribute together, and its column set is the union of their column names |
| Aggregator.GatherKeys | bh_to_csv/__init__.py:123-126 | when each year's records are keyed by its own columns, every collected row has a "Date" and only collected column names as keys |
| Aggregator.RecordKeys | bh_to_csv/__init__.py:67 | a zipped record's keys are exactly the set of the column names |
| Aggregator.NormalizedRowsShape | bh_to_csv/__init__.py:125 | date normalisation keeps each record's key set and leaves a "Date" holding the ISO text of a valid date |
| Aggregator.HarvestShape | bh_to_csv/__init__.py:119-125 | a processed page gives the stripped header names and one record per kept table row, keyed by exactly those names, each with the ISO text of a valid date |
| Aggregator.BerlinHolidaysResult | bh_to_csv/__init__.py:110-128 | the run succeeds exactly when every year's step does; then its row count is the years' total, its columns are their union, and every row has a "Date" and only collected column names |
| Aggregator.YearContribution | bh_to_csv/__init__.py:118-126 | a year without content adds nothing, and a processed page adds as many rows as its table keeps |

## Left out

- `simple_get` (HTTP with a user-agent header and a 10-second timeout) is an
  input: the fetch function from URL to outcome. Which statuses `urlopen`
  raises on (it raises for HTTP errors, which then count as failures with
  status -1) is left to that function.
- Exceptions other than `URLError` are not modelled. `simple_get` does not
  catch them, so they end the run. Examples are a timeout or an incomplete
  read raised while `response.read()` reads the body. The fetch outcomes
  have no such case.
- BeautifulSoup is an input too. The lookup of the table by its class
  attributes and of the first `tbody`, and the `.text` of cells, are given
  as the parsed page. What the parser makes of an exception object passed
  as markup is a choice of the input (`ParsesAs` or `Unparseable`).
- `strptime` leniencies are not modelled: case-insensitive month names,
  any run of white space where the pattern has a space, the
  space-then-digit day form, and non-ASCII digits. The model accepts the
  strict form: a one- or two-digit day from 1 to 31, one space, a
  case-sensitive English abbreviation and exactly four digits.
- The `iso_format=False` branch of `process_dates_inplace` stores a
  `datetime` object and is used by no caller.
- `get_min_year` is never called; it probes upward like the "max" bound.
- The command-line entry point and CSV writing are I/O. This includes the
  default year range from the two bounds and the writer, which writes rows
  without a header line. The years given on the command line arrive as
  strings; the model takes them as integers.
- The `print` diagnostics have no effect on results.
- Dict identity is not modelled. `process_dates_inplace` mutates, and
  returns, the same dict objects that the caller holds. The model copies
  the records into a fresh array, rewrites that array in place and appends
  its contents.
- Aggregator.GetBerlinHolidays: on an error the partially updated column set
  is not returned, because the exception discards it in the Python code as well.
- The fetch is a function, so it answers the same URL the same way every
  time. A year listed twice gets the same outcome both times, while the
  Python code fetches the page again and may get a different answer.
- The repository's tests need the live network and are not modelled.
