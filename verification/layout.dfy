/** Placing saved chart images on workbook sheets.

    - The extractor (`add_charts_to_excel`) puts a module's charts on the
      module's existing sheet: names ending ".png" but not "_resized.png",
      in sorted order, in column D, 25 rows apart from the sheet's first
      row.
    - The downloader (`generate_excel_from_charts`) makes one sheet per
      module folder and puts every file whose lower-cased name ends ".png",
      in sorted order, in column A, 20 rows apart from row 1.

    In both, an image that cannot be opened, resized or added is skipped
    without moving the next image down. Which files fail is given with the
    folder's listing. */
module Layout {
  import opened Optional
  import opened Text
  import Seqs
  import Sorting

  /** One image anchored at a cell. */
  datatype Placement = Placement(file: string, column: char, row: int)

  /** The folder of one module: its listing (in whatever order the file
      system gives) and the files whose placement fails. */
  datatype ChartDir = ChartDir(files: seq<string>, failing: set<string>)

  // ---------------------------------------------------------------------
  // Stacking images down a column
  // ---------------------------------------------------------------------

  /** The files of a list of placements, in order. */
  function Files(placed: seq<Placement>): (files: seq<string>)
    ensures |files| == |placed|
    ensures forall k :: 0 <= k < |placed| ==> files[k] == placed[k].file
  {
    if |placed| == 0 then [] else [placed[0].file] + Files(placed[1..])
  }

  /** The files that are placed successfully, in the order tried. */
  function Kept(files: seq<string>, failing: set<string>): (r: seq<string>)
    ensures forall f :: f in r <==> f in files && f !in failing
  {
    Seqs.Filter(files, f => f !in failing)
  }

  /** The loop of both functions: try each file in turn; on success anchor
      it at the current row and move the row down by `stride`. */
  function PlaceImages(files: seq<string>, failing: set<string>, column: char, row: int, stride: nat)
    : (placed: seq<Placement>)
    ensures |placed| == |Kept(files, failing)|
    ensures forall k :: 0 <= k < |placed| ==>
      placed[k] == Placement(Kept(files, failing)[k], column, row + stride * k)
  {
    if |files| == 0 then []
    else
      var rest := PlaceImages(files[1..], failing, column, if files[0] in failing then row else row + stride, stride);
      KeptFront(files, failing);
      if files[0] in failing then rest
      else
        StackShift(files[0], Kept(files[1..], failing), rest, column, row, stride);
        [Placement(files[0], column, row)] + rest
  }

  /** A stack that starts one stride further down, with one more image put
      on top, is a stack starting at `row`. */
  lemma StackShift(first: string, kept: seq<string>, rest: seq<Placement>, column: char, row: int, stride: nat)
    requires |rest| == |kept|
    requires forall k :: 0 <= k < |rest| ==> rest[k] == Placement(kept[k], column, (row + stride) + stride * k)
    ensures forall k :: 0 <= k <= |rest| ==>
      ([Placement(first, column, row)] + rest)[k] == Placement(([first] + kept)[k], column, row + stride * k)
  {
    forall k | 0 <= k <= |rest|
      ensures ([Placement(first, column, row)] + rest)[k] == Placement(([first] + kept)[k], column, row + stride * k)
    {
      if k > 0 {
        assert stride * k == stride * (k - 1) + stride;
      }
    }
  }

  lemma KeptFront(files: seq<string>, failing: set<string>)
    requires |files| > 0
    ensures Kept(files, failing) ==
      (if files[0] in failing then [] else [files[0]]) + Kept(files[1..], failing)
  {
    var p := f => f !in failing;
    assert files == [files[0]] + files[1..];
    Seqs.FilterAppend([files[0]], files[1..], p);
    assert Seqs.Filter([files[0]], p) == if files[0] in failing then [] else [files[0]] by {
      assert [files[0]][..0] == [];
    }
  }

  /** The placed files are the kept files, in the same order. */
  lemma PlacedFiles(files: seq<string>, failing: set<string>, column: char, row: int, stride: nat)
    ensures Files(PlaceImages(files, failing, column, row, stride)) == Kept(files, failing)
  {
    var placed := PlaceImages(files, failing, column, row, stride);
    assert forall k :: 0 <= k < |placed| ==> Files(placed)[k] == Kept(files, failing)[k];
  }

  /** Two listings of the same files keep the same files. */
  lemma KeptMultiset(a: seq<string>, b: seq<string>, failing: set<string>)
    requires multiset(a) == multiset(b)
    ensures multiset(Kept(a, failing)) == multiset(Kept(b, failing))
  {
    Seqs.FilterMultiset(a, b, f => f !in failing);
  }

  /** What stacking a sorted list gives: every placed file comes from the
      list and did not fail, every file that did not fail is placed, and the
      placed files stay sorted. */
  lemma PlacedFromSorted(ordered: seq<string>, failing: set<string>, column: char, row: int, stride: nat)
    requires Sorting.Sorted(ordered)
    ensures var placed := PlaceImages(ordered, failing, column, row, stride);
      && (forall k :: 0 <= k < |placed| ==> placed[k].file in ordered && placed[k].file !in failing)
      && (forall f :: f in ordered && f !in failing ==> exists k :: 0 <= k < |placed| && placed[k].file == f)
      && (forall k, l :: 0 <= k < l < |placed| ==> Sorting.LexLe(placed[k].file, placed[l].file))
  {
    var placed := PlaceImages(ordered, failing, column, row, stride);
    var kept := Kept(ordered, failing);
    Sorting.FilterKeepsSorted(ordered, f => f !in failing);
    assert forall k :: 0 <= k < |placed| ==> placed[k].file == kept[k];
    forall f | f in ordered && f !in failing
      ensures exists k :: 0 <= k < |placed| && placed[k].file == f
    {
      var k :| 0 <= k < |kept| && kept[k] == f;
      assert placed[k].file == f;
    }
  }

  // ---------------------------------------------------------------------
  // Extractor: add_charts_to_excel
  // ---------------------------------------------------------------------

  /** A file the extractor considers: a PNG that is not a resized copy. */
  predicate ExtractorCandidate(f: string) {
    EndsWith(f, ".png") && !EndsWith(f, "_resized.png")
  }

  /** Images are anchored in column D, 25 rows apart. */
  const ExtractorColumn: char := 'D'
  const ExtractorStride: nat := 25

  /** The images `add_charts_to_excel` adds to a module's sheet, or `None`
      where it returns False: no sheet for the module, no folder for it,
      or no candidate file in the folder. `minRow` is the sheet's first
      used row. */
  function AddChartsToSheet(sheetExists: bool, minRow: int, dir: Option<ChartDir>)
    : (r: Option<seq<Placement>>)
    ensures r.None? <==>
      !sheetExists || dir.None? || forall f :: f in dir.value.files ==> !ExtractorCandidate(f)
    ensures r.Some? ==> forall k :: 0 <= k < |r.value| ==>
      r.value[k].column == ExtractorColumn && r.value[k].row == minRow + ExtractorStride * k
    ensures r.Some? ==> forall k :: 0 <= k < |r.value| ==>
      var f := r.value[k].file;
      f in dir.value.files && ExtractorCandidate(f) && f !in dir.value.failing
    ensures r.Some? ==> forall f :: f in dir.value.files && ExtractorCandidate(f) && f !in dir.value.failing ==>
      exists k :: 0 <= k < |r.value| && r.value[k].file == f
    ensures r.Some? ==> forall k, l :: 0 <= k < l < |r.value| ==>
      Sorting.LexLe(r.value[k].file, r.value[l].file)
    ensures r.Some? ==>
      multiset(Files(r.value)) == multiset(Kept(Seqs.Filter(dir.value.files, ExtractorCandidate), dir.value.failing))
  {
    if !sheetExists || dir.None? then None
    else
      var candidates := Seqs.Filter(dir.value.files, ExtractorCandidate);
      if candidates == [] then None
      else
        assert candidates[0] in dir.value.files && ExtractorCandidate(candidates[0]);
        var ordered := Sorting.Sort(candidates);
        Sorting.SortMembers(candidates);
        PlacedFromSorted(ordered, dir.value.failing, ExtractorColumn, minRow, ExtractorStride);
        PlacedFiles(ordered, dir.value.failing, ExtractorColumn, minRow, ExtractorStride);
        KeptMultiset(ordered, candidates, dir.value.failing);
        Some(PlaceImages(ordered, dir.value.failing, ExtractorColumn, minRow, ExtractorStride))
  }

  /** The layout depends on which files the folder holds, not on the order
      the file system lists them in: placing the same charts twice gives
      the same anchors. */
  lemma ExtractorLayoutIgnoresListingOrder(sheetExists: bool, minRow: int, a: ChartDir, b: ChartDir)
    requires multiset(a.files) == multiset(b.files) && a.failing == b.failing
    ensures AddChartsToSheet(sheetExists, minRow, Some(a)) == AddChartsToSheet(sheetExists, minRow, Some(b))
  {
    Seqs.FilterMultiset(a.files, b.files, ExtractorCandidate);
    Sorting.SortIgnoresListingOrder(Seqs.Filter(a.files, ExtractorCandidate), Seqs.Filter(b.files, ExtractorCandidate));
    assert forall f :: f in a.files <==> f in b.files by {
      forall f ensures f in a.files <==> f in b.files {
        assert f in a.files <==> f in multiset(a.files);
        assert f in b.files <==> f in multiset(b.files);
      }
    }
  }

  // ---------------------------------------------------------------------
  // Resized copies and the clean-up at the end of a run
  // ---------------------------------------------------------------------

  /** The temporary copy made before an image is added. */
  predicate IsResizedCopy(f: string) {
    EndsWith(f, "_resized.png")
  }

  predicate Lasting(f: string) {
    !IsResizedCopy(f)
  }

  /** What the final clean-up deletes from a folder, and what it leaves. */
  function CleanupTargets(files: seq<string>): (r: seq<string>)
    ensures forall f :: f in r <==> f in files && IsResizedCopy(f)
  {
    Seqs.Filter(files, IsResizedCopy)
  }

  function AfterCleanup(files: seq<string>): (r: seq<string>)
    ensures forall f :: f in r <==> f in files && !IsResizedCopy(f)
  {
    Seqs.Filter(files, Lasting)
  }

  /** The clean-up removes nothing the extractor would place: its
      candidates are the same before and after. */
  lemma CleanupKeepsExtractorCandidates(files: seq<string>)
    ensures Seqs.Filter(AfterCleanup(files), ExtractorCandidate) == Seqs.Filter(files, ExtractorCandidate)
  {
    Seqs.FilterNarrowed(files, Lasting, ExtractorCandidate);
  }

  /** Every resized copy is also a PNG. */
  lemma ResizedCopyIsPng(f: string)
    requires IsResizedCopy(f)
    ensures EndsWith(f, ".png")
  {
    EndsWithLonger(f, "_resized", ".png");
  }

  /** A PNG name that does not have an underscore where "_resized.png"
      would start is a candidate. */
  lemma PlainPngIsCandidate(f: string)
    requires |f| >= 12 && f[|f| - 4..] == ".png" && f[|f| - 12] != '_'
    ensures ExtractorCandidate(f)
  {
    assert f[|f| - 12..][0] == f[|f| - 12];
  }

  // ---------------------------------------------------------------------
  // Downloader: generate_excel_from_charts
  // ---------------------------------------------------------------------

  /** A file the downloader considers: any name whose lower-cased form ends
      in ".png", resized copies included. */
  predicate DownloaderCandidate(f: string) {
    EndsWith(Lower(f), ".png")
  }

  /** A resized copy left from an earlier run is placed like any chart. */
  lemma ResizedCopyIsDownloaderCandidate(f: string)
    requires IsResizedCopy(f)
    ensures DownloaderCandidate(f)
  {
    ResizedCopyIsPng(f);
    var n := |f|;
    assert Lower(f)[n - 4..] == ".png" by {
      forall k | 0 <= k < 4 ensures Lower(f)[n - 4..][k] == ".png"[k] {
        assert Lower(f)[n - 4 + k] == LowerChar(f[n - 4 + k]);
        assert f[n - 4 + k] == f[n - 4..][k];
      }
    }
  }

  const DownloaderColumn: char := 'A'
  const DownloaderStride: nat := 20
  const DownloaderFirstRow: nat := 1

  /** The images placed on one module's sheet: all names sorted, the PNGs
      kept, each anchored 20 rows below the previous success from A1. */
  function SheetImages(dir: ChartDir): (placed: seq<Placement>)
    ensures forall k :: 0 <= k < |placed| ==>
      placed[k].column == DownloaderColumn && placed[k].row == DownloaderFirstRow + DownloaderStride * k
    ensures forall k :: 0 <= k < |placed| ==>
      var f := placed[k].file;
      f in dir.files && DownloaderCandidate(f) && f !in dir.failing
    ensures forall f :: f in dir.files && DownloaderCandidate(f) && f !in dir.failing ==>
      exists k :: 0 <= k < |placed| && placed[k].file == f
    ensures forall k, l :: 0 <= k < l < |placed| ==> Sorting.LexLe(placed[k].file, placed[l].file)
    ensures multiset(Files(placed)) == multiset(Kept(Seqs.Filter(dir.files, DownloaderCandidate), dir.failing))
  {
    var ordered := Sorting.Sort(dir.files);
    var pngs := Seqs.Filter(ordered, DownloaderCandidate);
    Sorting.SortMembers(dir.files);
    Sorting.FilterKeepsSorted(ordered, DownloaderCandidate);
    PlacedFromSorted(pngs, dir.failing, DownloaderColumn, DownloaderFirstRow, DownloaderStride);
    PlacedFiles(pngs, dir.failing, DownloaderColumn, DownloaderFirstRow, DownloaderStride);
    Seqs.FilterMultiset(ordered, dir.files, DownloaderCandidate);
    KeptMultiset(pngs, Seqs.Filter(dir.files, DownloaderCandidate), dir.failing);
    PlaceImages(pngs, dir.failing, DownloaderColumn, DownloaderFirstRow, DownloaderStride)
  }

  /** As for the extractor, the listing order does not matter. */
  lemma DownloaderLayoutIgnoresListingOrder(a: ChartDir, b: ChartDir)
    requires multiset(a.files) == multiset(b.files) && a.failing == b.failing
    ensures SheetImages(a) == SheetImages(b)
  {
    Sorting.SortIgnoresListingOrder(a.files, b.files);
  }

  /** One entry of the charts folder. */
  datatype Entry = PlainFile(name: string) | Folder(name: string, contents: ChartDir)

  /** A sheet of the downloader's workbook. */
  datatype Sheet = Sheet(title: string, images: seq<Placement>)

  predicate IsFolder(e: Entry) {
    e.Folder?
  }

  function SheetsFor(folders: seq<Entry>): (sheets: seq<Sheet>)
    requires forall e :: e in folders ==> e.Folder?
    ensures |sheets| == |folders|
    ensures forall i :: 0 <= i < |folders| ==>
      sheets[i] == Sheet(folders[i].name, SheetImages(folders[i].contents))
  {
    if |folders| == 0 then []
    else [Sheet(folders[0].name, SheetImages(folders[0].contents))] + SheetsFor(folders[1..])
  }

  /** The workbook of `generate_excel_from_charts`: one sheet per folder of
      the charts directory, in listing order; plain files are skipped. */
  function GenerateWorkbook(entries: seq<Entry>): (sheets: seq<Sheet>)
    ensures |sheets| == Seqs.Count(entries, IsFolder) == |Seqs.Filter(entries, IsFolder)|
    ensures forall i :: 0 <= i < |sheets| ==>
      var e := Seqs.Filter(entries, IsFolder)[i];
      e.Folder? && sheets[i] == Sheet(e.name, SheetImages(e.contents))
    ensures forall s :: s in sheets ==>
      exists e :: e in entries && e.Folder? && s == Sheet(e.name, SheetImages(e.contents))
    ensures forall e :: e in entries && e.Folder? ==>
      Sheet(e.name, SheetImages(e.contents)) in sheets
  {
    var folders := Seqs.Filter(entries, IsFolder);
    Seqs.CountIsFilterLength(entries, IsFolder);
    SheetsForFolders(folders, entries);
    SheetsInFolderOrder(folders);
    SheetsFor(folders)
  }

  /** The i-th sheet is made from the i-th folder. */
  lemma SheetsInFolderOrder(folders: seq<Entry>)
    requires forall e :: e in folders ==> e.Folder?
    ensures forall i :: 0 <= i < |SheetsFor(folders)| ==>
      var e := folders[i];
      e.Folder? && SheetsFor(folders)[i] == Sheet(e.name, SheetImages(e.contents))
  {
    forall i | 0 <= i < |SheetsFor(folders)|
      ensures folders[i].Folder?
    {
      assert folders[i] in folders;
    }
  }

  lemma SheetsForFolders(folders: seq<Entry>, entries: seq<Entry>)
    requires folders == Seqs.Filter(entries, IsFolder)
    ensures forall e :: e in folders <==> e in entries && e.Folder?
    ensures forall e :: e in folders ==> e.Folder?
    ensures forall s :: s in SheetsFor(folders) ==>
      exists e :: e in entries && e.Folder? && s == Sheet(e.name, SheetImages(e.contents))
    ensures forall e :: e in entries && e.Folder? ==>
      Sheet(e.name, SheetImages(e.contents)) in SheetsFor(folders)
  {
    EveryFolderHasSheet(folders);
    EverySheetHasFolder(folders);
  }

  lemma EveryFolderHasSheet(folders: seq<Entry>)
    requires forall e :: e in folders ==> e.Folder?
    ensures forall e :: e in folders ==> Sheet(e.name, SheetImages(e.contents)) in SheetsFor(folders)
  {
    var sheets := SheetsFor(folders);
    forall e | e in folders
      ensures Sheet(e.name, SheetImages(e.contents)) in sheets
    {
      var i :| 0 <= i < |folders| && folders[i] == e;
      assert sheets[i] == Sheet(e.name, SheetImages(e.contents));
    }
  }

  lemma EverySheetHasFolder(folders: seq<Entry>)
    requires forall e :: e in folders ==> e.Folder?
    ensures forall s :: s in SheetsFor(folders) ==>
      exists e :: e in folders && s == Sheet(e.name, SheetImages(e.contents))
  {
    var sheets := SheetsFor(folders);
    forall s | s in sheets
      ensures exists e :: e in folders && s == Sheet(e.name, SheetImages(e.contents))
    {
      var i :| 0 <= i < |sheets| && sheets[i] == s;
      assert folders[i] in folders;
    }
  }
}
