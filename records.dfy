/** The table as the splitter sees it after `pd.read_csv`, the normalization that
    parses dates and derives the `year` and `month` columns, and the vocabulary
    shared by the strategies (strategies, archive entries, OCR content). */
module Records {
  import opened Wrappers
  import opened Decimal

  /** A calendar date as `pd.to_datetime` yields it. */
  datatype Date = Date(year: nat, month: nat, day: nat)

  /** The dates a pandas timestamp can hold have four-digit years and a real
      month and day; the format lemmas below assume this. */
  predicate Calendar(d: Date) {
    d.year < 10000 && 1 <= d.month <= 12 && 1 <= d.day <= 31
  }

  /** One parsed row; `None` is a cell pandas reads as missing. Cells are kept
      as the text `str(cell)` gives. Fields of columns the table lacks are
      never looked at. */
  datatype RawRow = RawRow(ocr: Option<string>, date: Option<string>,
                           newspaper: Option<string>, spatial: Option<string>)

  /** A parsed table: its column names and its rows in file order. */
  datatype Table = Table(columns: set<string>, rows: seq<RawRow>)

  /** A row after normalization, with the derived `year` and `month` columns. */
  datatype Record = Record(ocr: Option<string>, date: Option<Date>, year: Option<nat>,
                           month: string, newspaper: Option<string>, spatial: Option<string>)

  /** The five choices of the "Split by" box. */
  datatype Strategy = PerRow | PerMonth | PerYear | PerNewspaper | PerSpatial

  /** One file of the archive. */
  datatype Entry = Entry(name: string, content: string)

  /** The text `str(period)` gives for a missing month. */
  const MissingMonth: string := "NaT"

  /** The per-row base name of a row without a date. */
  const UnknownKey: string := "unknown"

  /** `to_period('M').astype(str)`: `YYYY-MM` for a date, `NaT` for a missing one. */
  function MonthLabel(d: Option<Date>): (r: string)
    ensures r == MissingMonth <==> d.None?
  {
    match d
    case None => MissingMonth
    case Some(x) =>
      var y := Pad(x.year, 4);
      assert (y + "-" + Pad(x.month, 2))[0] == y[0];
      y + "-" + Pad(x.month, 2)
  }

  /** A month label of a calendar date has the `YYYY-MM` shape and spells the
      date's year and month. */
  lemma MonthLabelShape(d: Date)
    requires Calendar(d)
    ensures var m := MonthLabel(Some(d));
      && |m| == 7 && m[4] == '-'
      && AllDigits(m[..4]) && AllDigits(m[5..])
      && ParseDec(m[..4]) == d.year && ParseDec(m[5..]) == d.month
  {
    PadWidth(d.year, 4);
    assert Pow10(2) == 100;
    PadWidth(d.month, 2);
    var m := MonthLabel(Some(d));
    assert m[..4] == Pad(d.year, 4);
    assert m[5..] == Pad(d.month, 2);
    PadRoundTrip(d.year, 4);
    PadRoundTrip(d.month, 2);
  }

  /** The date 2023-07-01 falls in the month labelled `2023-07`. */
  lemma MonthLabelExample()
    ensures MonthLabel(Some(Date(2023, 7, 1))) == "2023-07"
  {
  }

  /** The text has no underscore, the character that starts a counter suffix. */
  predicate NoUnderscore(s: string) {
    forall i :: 0 <= i < |s| ==> s[i] != '_'
  }

  /** `strftime('%Y-%m-%d')`. */
  function DateKey(d: Date): (r: string)
    ensures |r| > 0 && IsDigit(r[0])
    ensures NoUnderscore(r)
  {
    Pad(d.year, 4) + "-" + Pad(d.month, 2) + "-" + Pad(d.day, 2)
  }

  /** A date key of a calendar date is its month label followed by `-DD`. */
  lemma DateKeyShape(d: Date)
    requires Calendar(d)
    ensures var k := DateKey(d);
      && |k| == 10 && k[..7] == MonthLabel(Some(d)) && k[7] == '-'
      && AllDigits(k[8..]) && ParseDec(k[8..]) == d.day
  {
    PadWidth(d.year, 4);
    assert Pow10(2) == 100;
    PadWidth(d.month, 2);
    PadWidth(d.day, 2);
    var k := DateKey(d);
    assert k[..7] == MonthLabel(Some(d));
    assert k[8..] == Pad(d.day, 2);
    PadRoundTrip(d.day, 2);
  }

  /** The per-row base name: the date key, or `unknown` for a missing date.
      No base name contains an underscore. */
  function BaseKey(d: Option<Date>): (r: string)
    ensures r == UnknownKey <==> d.None?
    ensures NoUnderscore(r)
  {
    match d
    case None => UnknownKey
    case Some(x) =>
      assert DateKey(x)[0] != 'u';
      DateKey(x)
  }

  /** The file content of a row: its OCR text, or the empty string when missing. */
  function Content(ocr: Option<string>): (r: string)
    ensures ocr.Some? ==> r == ocr.value
    ensures ocr.None? ==> r == ""
  {
    ocr.GetOr("")
  }

  /** The file contents of the rows, in row order. */
  function Texts(records: seq<Record>): (texts: seq<string>)
    ensures |texts| == |records|
    ensures forall i :: 0 <= i < |records| ==> texts[i] == Content(records[i].ocr)
  {
    seq(|records|, i requires 0 <= i < |records| => Content(records[i].ocr))
  }

  /** Normalization of one row: the date cell through `parse` (a missing cell is
      a missing date), then `year` and `month` derived from the parsed date. */
  function Derive(row: RawRow, parse: string -> Option<Date>): (r: Record)
    ensures row.date.None? ==> r.date.None?
    ensures row.date.Some? ==> r.date == parse(row.date.value)
    ensures r.year.Some? <==> r.date.Some?
    ensures r.date.Some? ==> r.year.value == r.date.value.year
    ensures r.month == MissingMonth <==> r.date.None?
    ensures r.month == MonthLabel(r.date)
    ensures r.ocr == row.ocr && r.newspaper == row.newspaper && r.spatial == row.spatial
  {
    var date := match row.date
      case None => None
      case Some(raw) => parse(raw);
    var year := match date
      case None => None
      case Some(d) => Some(d.year);
    Record(row.ocr, date, year, MonthLabel(date), row.newspaper, row.spatial)
  }

  /** Normalization of the whole table, row by row, keeping the order. */
  function Normalize(rows: seq<RawRow>, parse: string -> Option<Date>): (r: seq<Record>)
    ensures |r| == |rows|
    ensures forall i :: 0 <= i < |rows| ==> r[i] == Derive(rows[i], parse)
  {
    seq(|rows|, i requires 0 <= i < |rows| => Derive(rows[i], parse))
  }
}
