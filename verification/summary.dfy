/** The summary scraper: one row per module holding the module code and the
    texts of the non-blank footer cells of its grade table, under a fixed
    header row. Loading each module's page and reading its footer are given
    as their outcomes. */
module SummaryScraper {
  import opened Optional
  import opened Text
  import Seqs

  /** Reading a module's table footer once its page has loaded: the texts
      of its cells, or a failure (the table did not appear in time, or the
      footer could not be found). These failures are caught and turned
      into an error row. */
  datatype FooterFetch = FooterCells(cells: seq<string>) | FooterFailed

  /** A module's visit: loading its page can fail before the footer is read.
      That failure is not caught by `extract_summary_stats`, nor by the run,
      so it ends the run before the table is saved. */
  datatype ModuleFetch = PageLoadFailed | PageLoaded(footer: FooterFetch)

  /** The first row of the summary sheet. */
  const Header: seq<string> := ["Module", "Count", "Mean", "Std. Dev."]

  /** What stands in place of the values when the footer could not be
      read. */
  const ErrorMarker: string := "ERROR"

  /** A cell with some text once surrounding whitespace is removed. */
  predicate NotBlank(cell: string) {
    !AllSpace(cell)
  }

  /** The stripped text of every cell that is not blank, in the cells'
      order. */
  function NonBlankTexts(cells: seq<string>): (values: seq<string>)
    ensures |values| == |Seqs.Filter(cells, NotBlank)|
    ensures forall k :: 0 <= k < |values| ==> values[k] == Strip(Seqs.Filter(cells, NotBlank)[k])
    ensures forall k :: 0 <= k < |values| ==> Trimmed(values[k]) && values[k] != []
  {
    if |cells| == 0 then []
    else
      var init := cells[..|cells| - 1];
      var text := Strip(cells[|cells| - 1]);
      NonBlankTexts(init) + (if text != [] then [text] else [])
  }

  /** Cells that already hold trimmed, non-empty text are kept as they are. */
  lemma {:induction false} CleanCellsKept(cells: seq<string>)
    requires forall k :: 0 <= k < |cells| ==> Trimmed(cells[k]) && cells[k] != []
    ensures NonBlankTexts(cells) == cells
  {
    if |cells| > 0 {
      var init := cells[..|cells| - 1];
      var last := cells[|cells| - 1];
      assert cells == init + [last];
      assert forall k :: 0 <= k < |init| ==> init[k] == cells[k];
      CleanCellsKept(init);
      assert Strip(last) == last by {
        StripPadded([], last, []);
        assert [] + last + [] == last;
      }
      assert NonBlankTexts(cells) == NonBlankTexts(init) + [last];
    }
  }

  /** A footer whose cells are all blank contributes no values. */
  lemma {:induction false} BlankCellsDropped(cells: seq<string>)
    requires forall k :: 0 <= k < |cells| ==> AllSpace(cells[k])
    ensures NonBlankTexts(cells) == []
  {
    if |cells| > 0 {
      BlankCellsDropped(cells[..|cells| - 1]);
    }
  }

  /** `extract_summary_stats`: the module code followed by the footer's
      non-blank texts, or the code and the error marker when the footer
      could not be read. */
  function SummaryStatsRow(code: string, fetch: FooterFetch): (row: seq<string>)
    ensures |row| >= 1 && row[0] == code
    ensures fetch.FooterFailed? ==> row == [code, ErrorMarker]
    ensures fetch.FooterCells? ==>
      && |row| == 1 + |Seqs.Filter(fetch.cells, NotBlank)|
      && |row| == 1 + Seqs.Count(fetch.cells, NotBlank)
      && (forall k :: 1 <= k < |row| ==> row[k] == Strip(Seqs.Filter(fetch.cells, NotBlank)[k - 1]))
      && (forall k :: 1 <= k < |row| ==> Trimmed(row[k]) && row[k] != [])
  {
    match fetch
    case FooterFailed => [code, ErrorMarker]
    case FooterCells(cells) =>
      Seqs.CountIsFilterLength(cells, NotBlank);
      var values := NonBlankTexts(cells);
      assert forall k :: 1 <= k < 1 + |values| ==> ([code] + values)[k] == values[k - 1];
      [code] + values
  }

  /** A footer whose only non-blank text is the error marker gives the same
      row as a footer that could not be read: the sheet cannot tell them
      apart. */
  lemma ErrorRowAmbiguous(code: string)
    ensures SummaryStatsRow(code, FooterCells([ErrorMarker])) == SummaryStatsRow(code, FooterFailed)
  {
    assert Trimmed(ErrorMarker);
    CleanCellsKept([ErrorMarker]);
  }

  /** The rows of the modules, one per visit in the order visited, or
      nothing when some module's page failed to load. */
  function ModuleRows(visits: seq<(string, ModuleFetch)>): (rows: Option<seq<seq<string>>>)
    ensures rows.None? <==> exists i :: 0 <= i < |visits| && visits[i].1.PageLoadFailed?
    ensures rows.Some? ==> |rows.value| == |visits|
    ensures rows.Some? ==> forall i :: 0 <= i < |visits| ==>
      visits[i].1.PageLoaded? && rows.value[i] == SummaryStatsRow(visits[i].0, visits[i].1.footer)
  {
    if |visits| == 0 then Some([])
    else
      assert forall i :: 1 <= i < |visits| ==> visits[1..][i - 1] == visits[i];
      match visits[0].1
      case PageLoadFailed => None
      case PageLoaded(footer) =>
        match ModuleRows(visits[1..])
        case None => None
        case Some(rest) => Some([SummaryStatsRow(visits[0].0, footer)] + rest)
  }

  /** `summary_data` after the module loop of `run_summary_scraper`: the
      header, then one row per module in the order visited, each starting
      with its module's code. When a module's page fails to load the run
      stops with nothing saved. */
  function SummaryTable(visits: seq<(string, ModuleFetch)>): (table: Option<seq<seq<string>>>)
    ensures table.None? <==> exists i :: 0 <= i < |visits| && visits[i].1.PageLoadFailed?
    ensures table.Some? ==> |table.value| == 1 + |visits| && table.value[0] == Header
    ensures table.Some? ==> forall i :: 0 <= i < |visits| ==>
      && visits[i].1.PageLoaded?
      && table.value[i + 1] == SummaryStatsRow(visits[i].0, visits[i].1.footer)
      && table.value[i + 1][0] == visits[i].0
  {
    match ModuleRows(visits)
    case None => None
    case Some(rows) => Some([Header] + rows)
  }
}
