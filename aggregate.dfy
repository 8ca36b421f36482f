/** `get_berlin_holidays`: fetch every requested year, process each page that
    has content, and collect the column names and the rows of all of them. */
module Aggregator {
  import opened Common
  import opened Fetching
  import opened TableExtract
  import opened Records
  import opened Dates

  /** What one processed year contributes: its column names and its rows
      with normalised dates. */
  datatype Harvest = Harvest(columns: seq<string>, rows: seq<Row>)

  /** What `get_berlin_holidays` returns: every column name seen in any
      year, and the rows of all years in year order. */
  datatype Holidays = Holidays(columns: set<string>, rows: seq<Row>)

  /** The names of a header as a set, as `set.update` adds them. */
  function ColumnSet(names: seq<string>): set<string>
  {
    set c | c in names
  }

  /** The document that a fetch's content is parsed into. Content `None` is
      skipped. A page parses as itself. The exception object of a failed
      request is also content: it is handed to the parser, which either reads
      a document from it or cannot use it. */
  function ContentDocument(f: Fetch): (r: Result<Option<Document>>)
    ensures r == Ok(None) <==> Status(f) != 200 && Status(f) != FAILURE_STATUS
    ensures f.Page? ==> r == Ok(Some(f.page))
    ensures f.Failed? && f.error.ParsesAs? ==> r == Ok(Some(f.error.doc))
    ensures f.Failed? && f.error.Unparseable? ==> r == Err(NotMarkup)
  {
    match Content(f)
    case None => Ok(None)
    case Some(ParsesAs(doc)) => Ok(Some(doc))
    case Some(Unparseable) => Err(NotMarkup)
  }

  /** One parsed page: extract the table, zip its rows with the column
      names, and normalise the dates for the page's year. */
  function YearHarvest(year: int, doc: Document): Result<Harvest>
  {
    match ExtractTable(doc)
    case Err(e) => Err(e)
    case Ok(x) =>
      match RowListToRowDicts(x.columns, x.rows)
      case Err(e) => Err(e)
      case Ok(dicts) =>
        match NormalizeRows(dicts, year)
        case Err(e) => Err(e)
        case Ok(rows) => Ok(Harvest(x.columns, rows))
  }

  /** One iteration of the year loop on the fetch of that year: skipped
      (`None`), a harvest, or the error that ends the whole run. Only a
      fetch without content is skipped; a failed request is processed
      like a page. */
  function YearStep(year: int, f: Fetch): (r: Result<Option<Harvest>>)
    ensures r == Ok(None) <==> Status(f) != 200 && Status(f) != FAILURE_STATUS
    ensures f.Failed? && f.error.Unparseable? ==> r == Err(NotMarkup)
  {
    match ContentDocument(f)
    case Err(e) => Err(e)
    case Ok(None) => Ok(None)
    case Ok(Some(doc)) =>
      match YearHarvest(year, doc)
      case Err(e) => Err(e)
      case Ok(hv) => Ok(Some(hv))
  }

  /** A failed request is not skipped: what the parser reads from its
      exception object goes through the same processing as a page. */
  lemma FailureProcessedAsPage(year: int, f: Fetch)
    requires f.Failed? && f.error.ParsesAs?
    ensures YearStep(year, f) == YearStep(year, Page(f.error.doc))
    ensures YearStep(year, f) != Ok(None)
  {
  }

  /** The year loop's step for each year, fetching that year's page. */
  function Steps(fetch: string -> Fetch): int -> Result<Option<Harvest>>
  {
    year => YearStep(year, fetch(LinkYear(year)))
  }

  /** Folds one step into the running result; the first error sticks. */
  function Absorb(acc: Result<Holidays>, step: Result<Option<Harvest>>): Result<Holidays>
  {
    match acc
    case Err(e) => Err(e)
    case Ok(h) =>
      match step
      case Err(e) => Err(e)
      case Ok(None) => Ok(h)
      case Ok(Some(hv)) => Ok(Holidays(h.columns + ColumnSet(hv.columns), h.rows + hv.rows))
  }

  /** The loop over `years`, in order, for any step function. */
  function Gather(years: seq<int>, step: int -> Result<Option<Harvest>>): Result<Holidays>
  {
    if years == [] then Ok(Holidays({}, []))
    else Absorb(Gather(years[..|years| - 1], step), step(years[|years| - 1]))
  }

  /** `get_berlin_holidays(years)`. */
  function BerlinHolidays(years: seq<int>, fetch: string -> Fetch): Result<Holidays>
  {
    Gather(years, Steps(fetch))
  }

  /** The body of the year loop on one parsed page: `data_from_table`,
      `row_lst_to_row_dicts` and `process_dates_inplace` on a fresh list of
      the records. */
  method HarvestPage(year: int, doc: Document) returns (r: Result<Harvest>)
    ensures r == YearHarvest(year, doc)
  {
    var extracted := DataFromTable(doc);
    if extracted.Err? {
      return Err(extracted.error);
    }
    var colNames := extracted.value.columns;
    var dicts := RowListToRowDicts(colNames, extracted.value.rows);
    if dicts.Err? {
      return Err(dicts.error);
    }
    var a := new Row[|dicts.value|](k requires 0 <= k < |dicts.value| => dicts.value[k]);
    assert a[..] == dicts.value;
    var outcome := ProcessDatesInPlace(a, year);
    if outcome.Fail? {
      return Err(outcome.error);
    }
    return Ok(Harvest(colNames, a[..]));
  }

  /** `get_berlin_holidays`, loop and all: each year's page is fetched; a
      year without content is skipped; otherwise the page is processed, its
      column names are added to `allColnames` and its records are appended
      to `holidaysData`. Any error ends the run. */
  method GetBerlinHolidays(years: seq<int>, fetch: string -> Fetch) returns (r: Result<Holidays>)
    ensures r == BerlinHolidays(years, fetch)
  {
    ghost var step := Steps(fetch);
    var holidaysData: seq<Row> := [];
    var allColnames: set<string> := {};
    var i := 0;
    while i < |years|
      invariant 0 <= i <= |years|
      invariant Gather(years[..i], step) == Ok(Holidays(allColnames, holidaysData))
    {
      var year := years[i];
      assert years[..i + 1][..i] == years[..i];
      var got := fetch(LinkYear(year));
      assert step(year) == YearStep(year, got);
      var content := Content(got);
      if content.Some? {
        if content.value.Unparseable? {
          GatherStops(years, step, i + 1);
          return Err(NotMarkup);
        }
        var harvest := HarvestPage(year, content.value.doc);
        if harvest.Err? {
          GatherStops(years, step, i + 1);
          return Err(harvest.error);
        }
        allColnames := allColnames + ColumnSet(harvest.value.columns);
        holidaysData := holidaysData + harvest.value.rows;
      }
      i := i + 1;
    }
    assert years[..i] == years;
    return Ok(Holidays(allColnames, holidaysData));
  }

  /** Combines the results of two runs as if they were one. */
  function Join(a: Result<Holidays>, b: Result<Holidays>): Result<Holidays>
  {
    match a
    case Err(e) => Err(e)
    case Ok(x) =>
      match b
      case Err(e) => Err(e)
      case Ok(y) => Ok(Holidays(x.columns + y.columns, x.rows + y.rows))
  }

  /** Running over `xs` and then `ys` is running over each and joining: the
      first error wins, the column sets are united and the rows are
      concatenated. */
  lemma {:induction false} GatherAppend(xs: seq<int>, ys: seq<int>, step: int -> Result<Option<Harvest>>)
    ensures Gather(xs + ys, step) == Join(Gather(xs, step), Gather(ys, step))
    decreases |ys|
  {
    if ys == [] {
      assert xs + ys == xs;
      if Gather(xs, step).Ok? {
        var x := Gather(xs, step).value;
        assert x.columns + {} == x.columns && x.rows + [] == x.rows;
      }
    } else {
      var n := |ys| - 1;
      assert (xs + ys)[..|xs + ys| - 1] == xs + ys[..n];
      assert (xs + ys)[|xs + ys| - 1] == ys[n];
      GatherAppend(xs, ys[..n], step);
      match step(ys[n])
      case Ok(Some(hv)) =>
        if Gather(xs, step).Ok? && Gather(ys[..n], step).Ok? {
          var x, y := Gather(xs, step).value, Gather(ys[..n], step).value;
          assert x.rows + y.rows + hv.rows == x.rows + (y.rows + hv.rows);
          assert x.columns + y.columns + ColumnSet(hv.columns) == x.columns + (y.columns + ColumnSet(hv.columns));
        }
      case _ =>
    }
  }

  /** Once a prefix of the years fails, the whole run fails with its error. */
  lemma GatherStops(years: seq<int>, step: int -> Result<Option<Harvest>>, k: int)
    requires 0 <= k <= |years| && Gather(years[..k], step).Err?
    ensures Gather(years, step) == Gather(years[..k], step)
  {
    assert years == years[..k] + years[k..];
    GatherAppend(years[..k], years[k..], step);
  }

  /** The run succeeds exactly when every year's step does. */
  lemma {:induction false} GatherOk(years: seq<int>, step: int -> Result<Option<Harvest>>)
    ensures Gather(years, step).Ok? <==> forall i :: 0 <= i < |years| ==> step(years[i]).Ok?
  {
    if years != [] {
      var n := |years| - 1;
      GatherOk(years[..n], step);
      assert forall i :: 0 <= i < n ==> years[..n][i] == years[i];
    }
  }

  /** Otherwise its error is that of the first failing year. */
  lemma {:induction false} GatherFirstError(years: seq<int>, step: int -> Result<Option<Harvest>>, k: int)
    requires 0 <= k < |years| && step(years[k]).Err?
    requires forall i :: 0 <= i < k ==> step(years[i]).Ok?
    ensures Gather(years, step) == Err(step(years[k]).error)
  {
    var prefix := years[..k + 1];
    assert prefix[..k] == years[..k];
    assert forall i :: 0 <= i < k ==> years[..k][i] == years[i];
    GatherOk(years[..k], step);
    GatherStops(years, step, k + 1);
  }

  /** The harvest of a step, or an empty one for a skipped or failed year. */
  function Harvested(s: Result<Option<Harvest>>): Harvest
  {
    if s.Ok? && s.value.Some? then s.value.value else Harvest([], [])
  }

  /** The number of rows the years contribute, year by year. */
  function RowTotal(years: seq<int>, step: int -> Result<Option<Harvest>>): nat
  {
    if years == [] then 0
    else RowTotal(years[..|years| - 1], step) + |Harvested(step(years[|years| - 1])).rows|
  }

  /** Every column name of every processed year. */
  function ColumnsSeen(years: seq<int>, step: int -> Result<Option<Harvest>>): set<string>
  {
    set i, c | 0 <= i < |years| && c in Harvested(step(years[i])).columns :: c
  }

  /** A successful run has as many rows as the processed years contribute
      together, and its column set is every column name any of them has. */
  lemma {:induction false} GatherTotals(years: seq<int>, step: int -> Result<Option<Harvest>>)
    requires Gather(years, step).Ok?
    ensures |Gather(years, step).value.rows| == RowTotal(years, step)
    ensures Gather(years, step).value.columns == ColumnsSeen(years, step)
  {
    if years != [] {
      var n := |years| - 1;
      var prefix := years[..n];
      GatherTotals(prefix, step);
      assert forall i :: 0 <= i < n ==> prefix[i] == years[i];
      var seen := ColumnsSeen(years, step);
      var last := ColumnSet(Harvested(step(years[n])).columns);
      assert seen == ColumnsSeen(prefix, step) + last by {
        forall c | c in seen ensures c in ColumnsSeen(prefix, step) + last {
          var i :| 0 <= i < |years| && c in Harvested(step(years[i])).columns;
          if i < n {
            assert c in Harvested(step(prefix[i])).columns;
          }
        }
        forall c | c in ColumnsSeen(prefix, step) ensures c in seen {
          var i :| 0 <= i < n && c in Harvested(step(prefix[i])).columns;
          assert c in Harvested(step(years[i])).columns;
        }
      }
    }
  }

  /** Every row of a harvested year has exactly that year's column names as
      keys, one of them "Date". */
  predicate WellKeyed(s: Result<Option<Harvest>>)
  {
    s.Ok? && s.value.Some? ==>
      forall k :: 0 <= k < |s.value.value.rows| ==>
        s.value.value.rows[k].Keys == ColumnSet(s.value.value.columns) && DATE_KEY in s.value.value.rows[k]
  }

  /** When every year's rows are well keyed, every collected row has a
      "Date" and no key outside the collected column set. */
  lemma {:induction false} GatherKeys(years: seq<int>, step: int -> Result<Option<Harvest>>)
    requires forall i :: 0 <= i < |years| ==> WellKeyed(step(years[i]))
    requires Gather(years, step).Ok?
    ensures var h := Gather(years, step).value;
            forall k :: 0 <= k < |h.rows| ==> h.rows[k].Keys <= h.columns && DATE_KEY in h.rows[k]
  {
    if years != [] {
      var n := |years| - 1;
      var prefix := years[..n];
      assert forall i :: 0 <= i < n ==> prefix[i] == years[i];
      GatherKeys(prefix, step);
      assert WellKeyed(step(years[n]));
    }
  }

  /** A record's keys are the set of its column names. */
  lemma RecordKeys(names: seq<string>, cells: seq<string>, r: Row)
    requires |names| == |cells| && IsRecordOf(names, cells, r)
    ensures r.Keys == ColumnSet(names)
  {
  }

  /** Normalising rows that share one key set keeps that key set, and
      leaves in each row a "Date" holding the ISO text of a valid date. */
  lemma NormalizedRowsShape(dicts: seq<Row>, year: int, keys: set<string>)
    requires forall k :: 0 <= k < |dicts| ==> dicts[k].Keys == keys
    requires NormalizeRows(dicts, year).Ok?
    ensures var rows := NormalizeRows(dicts, year).value;
            && |rows| == |dicts|
            && (forall k :: 0 <= k < |rows| ==>
                  rows[k].Keys == keys && DATE_KEY in rows[k]
                  && exists d :: ValidDate(d) && rows[k][DATE_KEY] == IsoFormat(d))
  {
    var f := DateRewriter(year);
    RewriteAllOk(dicts, f);
    var rows := NormalizeRows(dicts, year).value;
    forall k | 0 <= k < |rows|
      ensures rows[k].Keys == keys && DATE_KEY in rows[k]
      ensures exists d :: ValidDate(d) && rows[k][DATE_KEY] == IsoFormat(d)
    {
      assert f(dicts[k]) == NormalizeRow(dicts[k], year);
      NormalizeRowFrame(dicts[k], year);
    }
  }

  /** What one processed page yields: the stripped header names, one row
      per kept table row, each keyed by exactly those names, and each with
      a "Date" holding the ISO text of a valid date. */
  lemma HarvestShape(year: int, doc: Document)
    requires YearHarvest(year, doc).Ok?
    ensures var hv := YearHarvest(year, doc).value;
            var x := ExtractTable(doc).value;
            && hv.columns == x.columns
            && |hv.rows| == |x.rows|
            && (forall k :: 0 <= k < |hv.rows| ==>
                  hv.rows[k].Keys == ColumnSet(hv.columns) && DATE_KEY in hv.rows[k]
                  && exists d :: ValidDate(d) && hv.rows[k][DATE_KEY] == IsoFormat(d))
  {
    var x := ExtractTable(doc).value;
    var dicts := RowListToRowDicts(x.columns, x.rows).value;
    forall k | 0 <= k < |dicts| ensures dicts[k].Keys == ColumnSet(x.columns) {
      RecordKeys(x.columns, x.rows[k], dicts[k]);
    }
    NormalizedRowsShape(dicts, year, ColumnSet(x.columns));
  }

  /** `get_berlin_holidays` on a list of years: it succeeds exactly when
      every year's step does, the first failing year's error otherwise; on
      success it has the processed years' rows, in number, and their column
      names, and every row has a "Date" and only collected column names. */
  lemma BerlinHolidaysResult(years: seq<int>, fetch: string -> Fetch)
    ensures var step := Steps(fetch);
            var r := BerlinHolidays(years, fetch);
            && (r.Ok? <==> forall i :: 0 <= i < |years| ==> step(years[i]).Ok?)
            && (r.Ok? ==> |r.value.rows| == RowTotal(years, step)
                          && r.value.columns == ColumnsSeen(years, step)
                          && forall k :: 0 <= k < |r.value.rows| ==>
                               r.value.rows[k].Keys <= r.value.columns && DATE_KEY in r.value.rows[k])
  {
    var step := Steps(fetch);
    GatherOk(years, step);
    if BerlinHolidays(years, fetch).Ok? {
      GatherTotals(years, step);
      forall i | 0 <= i < |years| ensures WellKeyed(step(years[i])) {
        var f := fetch(LinkYear(years[i]));
        if step(years[i]).Ok? && step(years[i]).value.Some? {
          var doc := ContentDocument(f).value.value;
          HarvestShape(years[i], doc);
        }
      }
      GatherKeys(years, step);
    }
  }

  /** A year whose fetch has no content adds nothing; a year with a page
      adds its extracted table's rows. */
  lemma YearContribution(year: int, f: Fetch)
    ensures f.NoContent? ==> Harvested(YearStep(year, f)) == Harvest([], [])
    ensures f.Page? && YearStep(year, f).Ok? ==>
              |Harvested(YearStep(year, f)).rows| == |ExtractTable(f.page).value.rows|
  {
    if f.Page? && YearStep(year, f).Ok? {
      HarvestShape(year, f.page);
    }
  }
}
