/** The "Generate ZIP" action: column checks, normalization, and the strategy
    the user picked, producing the list of archive entries. */
module Splitter {
  import opened Wrappers
  import opened Records
  import opened PerRow
  import opened Grouping

  /** What one run shows the user: the column error, if any, and the archive
      offered for download, if any. */
  datatype Outcome = Outcome(error: Option<string>, archive: Option<seq<Entry>>)

  /** The column a strategy needs beyond `ocr` and `date`. */
  function ExtraColumn(s: Strategy): (c: Option<string>)
    ensures c.Some? <==> s == PerNewspaper || s == PerSpatial
    ensures s == PerNewspaper ==> c == Some("newspaper")
    ensures s == PerSpatial ==> c == Some("spatial")
  {
    match s
    case PerNewspaper => Some("newspaper")
    case PerSpatial => Some("spatial")
    case _ => None
  }

  /** One run on a parsed table, with `parse` standing for `pd.to_datetime`
      with `errors='coerce'`. A missing `ocr` column is reported first, then a
      missing `date` column, and neither produces an archive. A missing
      `newspaper` or `spatial` column is reported only for its own strategy,
      whose archive then holds no entry. */
  method Generate(t: Table, parse: string -> Option<Date>, s: Strategy) returns (r: Outcome)
    ensures "ocr" !in t.columns ==> r == Outcome(Some("ocr"), None)
    ensures "ocr" in t.columns && "date" !in t.columns ==> r == Outcome(Some("date"), None)
    ensures r.archive.None? <==> "ocr" !in t.columns || "date" !in t.columns
    ensures "ocr" in t.columns && "date" in t.columns ==>
      var records := Normalize(t.rows, parse);
      if s == PerRow then r == Outcome(None, Some(PerRowEntries(records)))
      else if ExtraColumn(s).Some? && ExtraColumn(s).value !in t.columns then r == Outcome(ExtraColumn(s), Some([]))
      else r == Outcome(None, Some(GroupedEntries(records, s)))
  {
    if "ocr" !in t.columns {
      return Outcome(Some("ocr"), None);
    } else if "date" !in t.columns {
      return Outcome(Some("date"), None);
    }
    var records := Normalize(t.rows, parse);
    var entries: seq<Entry>;
    if s == PerRow {
      var dateCounts;
      entries, dateCounts := SplitPerRow(records);
    } else if s == PerNewspaper && "newspaper" !in t.columns {
      return Outcome(Some("newspaper"), Some([]));
    } else if s == PerSpatial && "spatial" !in t.columns {
      return Outcome(Some("spatial"), Some([]));
    } else {
      entries := SplitGrouped(records, s);
    }
    return Outcome(None, Some(entries));
  }
}
