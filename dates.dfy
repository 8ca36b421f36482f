/** `process_dates_inplace`: each row's "Date" cell, with the page's year
    appended, is read with the pattern `%d %b%Y` and replaced by the ISO 8601
    text of the resulting `datetime`. */
module Dates {
  import opened Common
  import opened Text
  import opened Records

  const DATE_KEY := "Date"

  const MONTH_ABBREVIATIONS: seq<string> :=
    ["Jan", "Feb", "Mar", "Apr", "May", "Jun", "Jul", "Aug", "Sep", "Oct", "Nov", "Dec"]

  /** A proleptic Gregorian calendar date, as `datetime` holds it. */
  datatype Date = Date(year: int, month: int, day: int)

  predicate IsLeapYear(y: int)
  {
    y % 4 == 0 && (y % 100 != 0 || y % 400 == 0)
  }

  function DaysInMonth(y: int, m: int): (n: int)
    requires 1 <= m <= 12
    ensures 28 <= n <= 31
    ensures m == 2 ==> (n == 29 <==> IsLeapYear(y))
    ensures m == 2 && !IsLeapYear(y) ==> n == 28
    ensures m == 4 || m == 6 || m == 9 || m == 11 ==> n == 30
    ensures m != 2 && m != 4 && m != 6 && m != 9 && m != 11 ==> n == 31
  {
    if m == 2 then (if IsLeapYear(y) then 29 else 28)
    else if m == 4 || m == 6 || m == 9 || m == 11 then 30
    else 31
  }

  /** The dates `datetime` accepts: years 1 to 9999, real days of real months. */
  predicate ValidDate(d: Date)
  {
    1 <= d.year <= 9999 && 1 <= d.month <= 12 && 1 <= d.day <= DaysInMonth(d.year, d.month)
  }

  /** `%b`: the number of an English month abbreviation. */
  function MonthNumber(token: string): (m: Option<int>)
    ensures m.Some? ==> 1 <= m.value <= 12 && MONTH_ABBREVIATIONS[m.value - 1] == token
    ensures m.None? ==> token !in MONTH_ABBREVIATIONS
  {
    MonthFrom(token, 0)
  }

  function MonthFrom(token: string, i: nat): (m: Option<int>)
    requires i <= 12
    ensures m.Some? ==> i < m.value <= 12 && MONTH_ABBREVIATIONS[m.value - 1] == token
    ensures m.None? ==> forall j :: i <= j < 12 ==> MONTH_ABBREVIATIONS[j] != token
    decreases 12 - i
  {
    if i == 12 then None
    else if MONTH_ABBREVIATIONS[i] == token then Some(i + 1)
    else MonthFrom(token, i + 1)
  }

  /** `%d`: one or two digits naming a day from 1 to 31. */
  predicate DayToken(t: string)
  {
    1 <= |t| <= 2 && AllDigits(t) && 1 <= DigitsValue(t) <= 31
  }

  /** The three fields of `%d %b%Y` text, before they are read. */
  datatype Fields = Fields(day: string, month: string, year: string)

  /** Cuts the text at the one space: one or two day characters (a space in
      the second position means a one-digit day), three month characters and
      four year characters, and nothing after them. */
  function SplitDate(s: string): (f: Option<Fields>)
    ensures f.Some? ==> s == f.value.day + " " + f.value.month + f.value.year
    ensures f.Some? ==> |f.value.month| == 3 && |f.value.year| == 4
  {
    var k := if |s| >= 2 && s[1] == ' ' then 1 else 2;
    if |s| != k + 8 || s[k] != ' ' then None
    else Some(Fields(s[..k], s[k + 1..k + 4], s[k + 4..]))
  }

  /** Text assembled from a one- or two-digit day, a three-letter month and
      four year characters splits back into them. */
  lemma SplitDateOf(day: string, month: string, year: string)
    requires |day| == 1 || (|day| == 2 && IsDigit(day[1]))
    requires |month| == 3 && |year| == 4
    ensures SplitDate(day + " " + month + year) == Some(Fields(day, month, year))
  {
    var s := day + " " + month + year;
    var k := |day|;
    assert s[..k] == day && s[k] == ' ' && s[k + 1..k + 4] == month && s[k + 4..] == year;
  }

  /** `datetime.strptime(s, "%d %b%Y")`: a day, one space, a month
      abbreviation, exactly four year digits and nothing more, naming a real
      calendar date. */
  function ParseDate(s: string): Option<Date>
  {
    match SplitDate(s)
    case None => None
    case Some(f) =>
      if !DayToken(f.day) || !AllDigits(f.year) then None
      else
        match MonthNumber(f.month)
        case None => None
        case Some(m) =>
          var d := Date(DigitsValue(f.year), m, DigitsValue(f.day));
          if ValidDate(d) then Some(d) else None
  }

  /** A day as the source site may write it: one digit, or zero-padded. */
  function DayText(day: int, padded: bool): (t: string)
    requires 1 <= day <= 31
  {
    if day < 10 && !padded then [DigitChar(day)] else Padded(day, 2)
  }

  /** The text of a date that `%d %b%Y` reads. */
  function DateText(d: Date, padded: bool): string
    requires ValidDate(d)
  {
    DayText(d.day, padded) + " " + MONTH_ABBREVIATIONS[d.month - 1] + Padded(d.year, 4)
  }

  /** `datetime.isoformat()` for a datetime at midnight:
      `YYYY-MM-DDT00:00:00`. */
  function IsoFormat(d: Date): string
    requires 0 <= d.year && 0 <= d.month && 0 <= d.day
  {
    Padded(d.year, 4) + "-" + Padded(d.month, 2) + "-" + Padded(d.day, 2) + "T00:00:00"
  }

  /** A written day is a day token that reads back as the day. */
  lemma DayTextReads(day: int, padded: bool)
    requires 1 <= day <= 31
    ensures var t := DayText(day, padded);
            DayToken(t) && DigitsValue(t) == day && (|t| == 1 || (|t| == 2 && IsDigit(t[1])))
  {
    var t := DayText(day, padded);
    if |t| == 1 {
      assert DigitsValue(t) == DigitsValue(t[..0]) * 10 + (t[0] as int - '0' as int);
    } else {
      PaddedRoundTrip(day, 2);
    }
  }

  /** No two months share an abbreviation. */
  lemma AbbreviationsDistinct()
    ensures forall i, j :: 0 <= i < j < 12 ==> MONTH_ABBREVIATIONS[i] != MONTH_ABBREVIATIONS[j]
  {
    var a := MONTH_ABBREVIATIONS;
    forall i, j | 0 <= i < j < 12 ensures a[i] != a[j] {
      assert a[i][0] != a[j][0] || a[i][1] != a[j][1] || a[i][2] != a[j][2];
    }
  }

  /** `%b` reads each month's abbreviation as that month. */
  lemma MonthNumberOf(m: int)
    requires 1 <= m <= 12
    ensures MonthNumber(MONTH_ABBREVIATIONS[m - 1]) == Some(m)
  {
    AbbreviationsDistinct();
    var r := MonthNumber(MONTH_ABBREVIATIONS[m - 1]);
    assert r.Some?;
  }

  /** Every valid date, day padded or not, reads back as itself. */
  lemma ParseDateText(d: Date, padded: bool)
    requires ValidDate(d)
    ensures ParseDate(DateText(d, padded)) == Some(d)
  {
    var day := DayText(d.day, padded);
    DayTextReads(d.day, padded);
    SplitDateOf(day, MONTH_ABBREVIATIONS[d.month - 1], Padded(d.year, 4));
    MonthNumberOf(d.month);
    PaddedRoundTrip(d.year, 4);
  }

  /** Whatever `%d %b%Y` accepts is a valid date written in one of the two
      ways DateText writes it. */
  lemma ParseDateSound(s: string)
    requires ParseDate(s).Some?
    ensures ValidDate(ParseDate(s).value)
    ensures s == DateText(ParseDate(s).value, false) || s == DateText(ParseDate(s).value, true)
  {
    var d := ParseDate(s).value;
    var f := SplitDate(s).value;
    assert s == f.day + " " + f.month + f.year;
    DigitsRoundTrip(f.year);
    assert f.year == Padded(d.year, 4);
    assert f.month == MONTH_ABBREVIATIONS[d.month - 1];
    DigitsRoundTrip(f.day);
    if |f.day| == 1 {
      assert DigitsValue(f.day) == DigitsValue(f.day[..0]) * 10 + (f.day[0] as int - '0' as int);
      assert f.day == [DigitChar(d.day)];
      assert f.day == DayText(d.day, false);
    } else {
      assert f.day == Padded(d.day, 2);
      assert f.day == DayText(d.day, true);
    }
  }

  /** `isoformat()` is the ISO 8601 extended date-and-time form: four year
      digits, two month digits, two day digits, separated by '-', then 'T'
      and a zero time of day. */
  lemma IsoFormatFields(d: Date)
    requires ValidDate(d)
    ensures var r := IsoFormat(d);
            && |r| == 19
            && r[4] == '-' && r[7] == '-' && r[10] == 'T'
            && AllDigits(r[..4]) && AllDigits(r[5..7]) && AllDigits(r[8..10])
            && DigitsValue(r[..4]) == d.year
            && DigitsValue(r[5..7]) == d.month
            && DigitsValue(r[8..10]) == d.day
            && r[11..] == "00:00:00"
  {
    var r := IsoFormat(d);
    var y, m, dd := Padded(d.year, 4), Padded(d.month, 2), Padded(d.day, 2);
    assert Power10(2) == 100 && Power10(4) == 10000;
    PaddedRoundTrip(d.year, 4);
    PaddedRoundTrip(d.month, 2);
    PaddedRoundTrip(d.day, 2);
    assert r == y + "-" + m + "-" + dd + "T00:00:00";
    assert r[..4] == y && r[5..7] == m && r[8..10] == dd;
  }

  /** One row of `process_dates_inplace`: the missing "Date" key is format
      drift; an unreadable date is a parse error on the combined text;
      otherwise only the "Date" cell changes, to the ISO text. */
  function NormalizeRow(row: Row, year: int): Result<Row>
  {
    if DATE_KEY !in row then Err(FormatDrift)
    else
      var text := row[DATE_KEY] + DecimalString(year);
      match ParseDate(text)
      case None => Err(DateParseError(text))
      case Some(d) => Ok(row[DATE_KEY := IsoFormat(d)])
  }

  /** The two ways a row fails: without a "Date" key it is format drift
      (the website changed), and with one whose text, year appended, does
      not read as a date it is a parse error naming that text. A row that
      has a readable "Date" is rewritten. */
  lemma NormalizeRowErrors(row: Row, year: int)
    ensures DATE_KEY !in row ==> NormalizeRow(row, year) == Err(FormatDrift)
    ensures DATE_KEY in row && ParseDate(row[DATE_KEY] + DecimalString(year)).None? ==>
              NormalizeRow(row, year) == Err(DateParseError(row[DATE_KEY] + DecimalString(year)))
    ensures DATE_KEY in row && ParseDate(row[DATE_KEY] + DecimalString(year)).Some? ==>
              NormalizeRow(row, year).Ok?
  {
  }

  /** A successful rewrite keeps every key and every other cell, and stores
      the ISO text of a valid date. */
  lemma NormalizeRowFrame(row: Row, year: int)
    requires NormalizeRow(row, year).Ok?
    ensures var r := NormalizeRow(row, year).value;
            && DATE_KEY in row
            && r.Keys == row.Keys
            && (forall key :: key in row && key != DATE_KEY ==> r[key] == row[key])
            && ParseDate(row[DATE_KEY] + DecimalString(year)).Some?
            && ValidDate(ParseDate(row[DATE_KEY] + DecimalString(year)).value)
            && r[DATE_KEY] == IsoFormat(ParseDate(row[DATE_KEY] + DecimalString(year)).value)
  {
    ParseDateSound(row[DATE_KEY] + DecimalString(year));
  }

  /** For a four-digit year, a day-and-month cell becomes the ISO text of
      that day in that year when the day exists, and is a parse error
      when it does not (the 30th of February, the 29th in a common year). */
  lemma NormalizeDayMonth(row: Row, year: int, day: int, month: int, padded: bool)
    requires 1000 <= year <= 9999 && 1 <= month <= 12 && 1 <= day <= 31
    requires DATE_KEY in row && row[DATE_KEY] == DayText(day, padded) + " " + MONTH_ABBREVIATIONS[month - 1]
    ensures day <= DaysInMonth(year, month) ==>
              NormalizeRow(row, year) == Ok(row[DATE_KEY := IsoFormat(Date(year, month, day))])
    ensures day > DaysInMonth(year, month) ==>
              NormalizeRow(row, year) == Err(DateParseError(row[DATE_KEY] + DecimalString(year)))
  {
    assert Power10(3) == 1000 && Power10(4) == 10000;
    NatStringIsPadded(year, 4);
    var text := row[DATE_KEY] + DecimalString(year);
    assert text == DayText(day, padded) + " " + MONTH_ABBREVIATIONS[month - 1] + Padded(year, 4);
    ParseDayMonthYear(day, month, year, padded);
  }

  /** The date parser on a day, a month abbreviation and a four-digit year:
      the date when that day exists in that month of that year, nothing
      otherwise. */
  lemma ParseDayMonthYear(day: int, month: int, year: int, padded: bool)
    requires 0 <= year <= 9999 && 1 <= month <= 12 && 1 <= day <= 31
    ensures ParseDate(DayText(day, padded) + " " + MONTH_ABBREVIATIONS[month - 1] + Padded(year, 4))
            == if ValidDate(Date(year, month, day)) then Some(Date(year, month, day)) else None
  {
    var dayText := DayText(day, padded);
    DayTextReads(day, padded);
    SplitDateOf(dayText, MONTH_ABBREVIATIONS[month - 1], Padded(year, 4));
    MonthNumberOf(month);
    PaddedRoundTrip(year, 4);
  }

  /** "25 Dec" on the 2023 page. */
  lemma ChristmasExample(row: Row, year: int)
    requires DATE_KEY in row && row[DATE_KEY] == "25 Dec" && year == 2023
    ensures NormalizeRow(row, year) == Ok(row[DATE_KEY := "2023-12-25T00:00:00"])
  {
    assert Padded(25, 2) == "25";
    assert DayText(25, true) + " " + MONTH_ABBREVIATIONS[11] == "25 Dec";
    NormalizeDayMonth(row, year, 25, 12, true);
    ChristmasIso();
  }

  /** Midnight of 25 December 2023 in `isoformat()`. */
  lemma ChristmasIso()
    ensures IsoFormat(Date(2023, 12, 25)) == "2023-12-25T00:00:00"
  {
    PaddedSamples();
  }

  lemma PaddedSamples()
    ensures Padded(2023, 4) == ['2', '0', '2', '3']
    ensures Padded(12, 2) == ['1', '2'] && Padded(25, 2) == ['2', '5']
  {
    assert Padded(1, 1) == ['1'];
    assert Padded(2, 1) == ['2'];
    assert Padded(20, 2) == ['2', '0'];
    assert Padded(202, 3) == ['2', '0', '2'];
  }

  /** Rewrites each row with `f`, in order; the first row that fails stops
      the whole list with its error. */
  function RewriteAll(rows: seq<Row>, f: Row -> Result<Row>): (r: Result<seq<Row>>)
    ensures r.Ok? ==> |r.value| == |rows|
  {
    if rows == [] then Ok([])
    else
      match f(rows[0])
      case Err(e) => Err(e)
      case Ok(row) =>
        match RewriteAll(rows[1..], f)
        case Err(e) => Err(e)
        case Ok(rest) => Ok([row] + rest)
  }

  /** The list succeeds exactly when every row does, row by row. */
  lemma {:induction false} RewriteAllOk(rows: seq<Row>, f: Row -> Result<Row>)
    ensures RewriteAll(rows, f).Ok? <==> forall i :: 0 <= i < |rows| ==> f(rows[i]).Ok?
    ensures RewriteAll(rows, f).Ok? ==>
              forall i :: 0 <= i < |rows| ==> RewriteAll(rows, f).value[i] == f(rows[i]).value
  {
    if rows != [] {
      var tail := rows[1..];
      RewriteAllOk(tail, f);
      assert forall i :: 1 <= i < |rows| ==> rows[i] == tail[i - 1];
    }
  }

  /** Otherwise the error is that of the first failing row. */
  lemma {:induction false} RewriteAllFirstError(rows: seq<Row>, f: Row -> Result<Row>, k: int)
    requires 0 <= k < |rows| && f(rows[k]).Err?
    requires forall i :: 0 <= i < k ==> f(rows[i]).Ok?
    ensures RewriteAll(rows, f) == Err(f(rows[k]).error)
  {
    if k > 0 {
      var tail := rows[1..];
      assert forall i :: 0 <= i < k - 1 ==> tail[i] == rows[i + 1];
      RewriteAllFirstError(tail, f, k - 1);
    }
  }

  /** `NormalizeRow` for one page's year, as a value. */
  function DateRewriter(year: int): Row -> Result<Row>
  {
    row => NormalizeRow(row, year)
  }

  /** The rows of `process_dates_inplace` in loop order. */
  function NormalizeRows(rows: seq<Row>, year: int): Result<seq<Row>>
  {
    RewriteAll(rows, DateRewriter(year))
  }

  /** `after` is `before` with its first `k` rows rewritten by `f` and the
      rest as they were. */
  ghost predicate RewrittenUpTo(before: seq<Row>, after: seq<Row>, k: int, f: Row -> Result<Row>)
  {
    && |after| == |before| && 0 <= k <= |before|
    && (forall j :: 0 <= j < k ==> f(before[j]).Ok? && after[j] == f(before[j]).value)
    && (forall j :: k <= j < |before| ==> after[j] == before[j])
  }

  /** Rewriting the next row extends the rewritten prefix by one. */
  lemma RewriteOneMore(before: seq<Row>, after: seq<Row>, k: int, f: Row -> Result<Row>)
    requires RewrittenUpTo(before, after, k, f) && k < |before| && f(before[k]).Ok?
    ensures RewrittenUpTo(before, after[k := f(before[k]).value], k + 1, f)
  {
  }

  /** `process_dates_inplace` on the list `a`, in place and in loop order.
      On success every row holds its rewritten value. On failure the error
      is that of the first failing row; the rows before it are already
      rewritten and it and the rows after it are untouched. */
  method ProcessDatesInPlace(a: array<Row>, year: int) returns (r: Outcome)
    modifies a
    ensures r.Pass? <==> NormalizeRows(old(a[..]), year).Ok?
    ensures r.Pass? ==> a[..] == NormalizeRows(old(a[..]), year).value
    ensures r.Fail? ==> NormalizeRows(old(a[..]), year) == Err(r.error)
    ensures r.Fail? ==> exists k :: 0 <= k < a.Length && RewrittenUpTo(old(a[..]), a[..], k, DateRewriter(year))
                                   && NormalizeRow(old(a[..])[k], year) == Err(r.error)
  {
    ghost var before := a[..];
    ghost var f := DateRewriter(year);
    var i := 0;
    while i < a.Length
      invariant 0 <= i <= a.Length
      invariant RewrittenUpTo(before, a[..], i, f)
    {
      // the "Date" check, the parse and the rewrite of one row
      var next := NormalizeRow(a[i], year);
      assert next == f(before[i]);
      if next.Err? {
        RewriteAllFirstError(before, f, i);
        assert RewrittenUpTo(before, a[..], i, f) && NormalizeRow(before[i], year) == Err(next.error);
        return Fail(next.error);
      }
      RewriteOneMore(before, a[..], i, f);
      a[i] := next.value;
      i := i + 1;
    }
    RewriteAllOk(before, f);
    return Pass;
  }
}
