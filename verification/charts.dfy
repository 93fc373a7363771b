/** Chart capture for one module, in both scripts. The browser work (page
    loads, waits, scrolling, screenshots) is given as the outcome of each
    step; what is modelled is which files get written and under which names.

    - The extractor visits two page variants, GraphPage then SubmitResults,
      and saves at most one scatter chart from each, named after the variant.
    - The downloader visits GraphPage only, collects the scatter chart and
      the bar chart it finds, in that order, and names each file after its
      position in that list. */
module Charts {
  import opened Text
  import Seqs

  // ---------------------------------------------------------------------
  // Session expiry
  // ---------------------------------------------------------------------

  /** The redirect-to-login test: the lower-cased URL mentions "login" or
      "auth". */
  predicate LooksLikeLogin(url: string) {
    Contains(Lower(url), "login") || Contains(Lower(url), "auth")
  }

  /** The test holds exactly when one of the two words occurs somewhere in
      the lower-cased URL. */
  lemma LooksLikeLoginIff(url: string)
    ensures LooksLikeLogin(url) <==>
      (exists i: nat :: OccursAt(Lower(url), "login", i)) || (exists i: nat :: OccursAt(Lower(url), "auth", i))
  {
    ContainsIff(Lower(url), "login");
    assert Contains(Lower(url), "login") <==> (exists i: nat :: OccursAt(Lower(url), "login", i));
    ContainsIff(Lower(url), "auth");
    assert Contains(Lower(url), "auth") <==> (exists i: nat :: OccursAt(Lower(url), "auth", i));
  }

  /** The test ignores letter case. */
  lemma LooksLikeLoginIgnoresCase(url: string)
    ensures LooksLikeLogin(Lower(url)) == LooksLikeLogin(url)
  {
    LowerOfLower(Lower(url));
  }

  // ---------------------------------------------------------------------
  // Extractor: one scatter chart per page variant
  // ---------------------------------------------------------------------

  datatype PageVariant = GraphPage | SubmitResults

  /** The order the extractor visits the variants in. */
  const Variants: seq<PageVariant> := [GraphPage, SubmitResults]

  /** How the capture of one variant ended: the page failed to load, the
      chart did not appear before the wait ran out, the screenshot failed,
      or the chart was saved. */
  datatype Capture = PageError | ChartTimeout | ScreenshotFailed | Captured

  /** The capture outcome of each variant for one module. */
  datatype VariantOutcomes = VariantOutcomes(graph: Capture, submit: Capture)

  function OutcomeOf(o: VariantOutcomes, v: PageVariant): Capture {
    match v
    case GraphPage => o.graph
    case SubmitResults => o.submit
  }

  /** The part every extractor chart name starts with. */
  const ScatterStem: string := "ScatterChart_"

  /** The variant's number in the chart name. */
  function VariantDigit(v: PageVariant): char {
    match v
    case GraphPage => '1'
    case SubmitResults => '2'
  }

  /** "ScatterChart_1" for GraphPage, "ScatterChart_2" for SubmitResults. */
  function ChartName(v: PageVariant): string {
    ScatterStem + [VariantDigit(v)]
  }

  /** The file a variant's chart is saved as, inside the module's folder. */
  function ChartFile(v: PageVariant): (f: string)
    ensures EndsWith(f, ".png")
  {
    ChartName(v) + ".png"
  }

  /** The file name tells the variant: saving the same variant again
      overwrites its file instead of adding one. */
  lemma ChartFileInjective(v: PageVariant, w: PageVariant)
    ensures ChartFile(v) == ChartFile(w) <==> v == w
  {
    if v != w {
      assert ChartFile(v)[|ScatterStem|] == VariantDigit(v);
      assert ChartFile(w)[|ScatterStem|] == VariantDigit(w);
    }
  }

  /** The files the extractor's `save_charts_as_png` writes for one module,
      in visiting order; the returned count is their number. */
  function SaveVariantCharts(o: VariantOutcomes): (saved: seq<string>)
    ensures |saved| <= |Variants|
    ensures forall v :: ChartFile(v) in saved <==> OutcomeOf(o, v) == Captured
    ensures forall f :: f in saved ==> exists v :: f == ChartFile(v)
    ensures forall i, j :: 0 <= i < j < |saved| ==> saved[i] != saved[j]
    ensures |saved| == |Variants| ==> saved == [ChartFile(Variants[0]), ChartFile(Variants[1])]
  {
    ChartFileInjective(GraphPage, SubmitResults);
    (if o.graph == Captured then [ChartFile(GraphPage)] else [])
      + (if o.submit == Captured then [ChartFile(SubmitResults)] else [])
  }

  // ---------------------------------------------------------------------
  // Downloader: scatter chart and bar chart, named by position
  // ---------------------------------------------------------------------

  datatype ChartKind = ScatterChart | BarChart

  /** What one visit of a module's GraphPage gave the downloader. The visit
      fails as a whole when the page cannot be loaded or the module's
      folder cannot be created; otherwise each chart may be found or not,
      and each found chart's screenshot may succeed or not. */
  datatype PageVisit =
    | VisitFailed
    | Visited(scatterFound: bool, barFound: bool, folderCreated: bool, scatterShot: bool, barShot: bool)

  /** The screenshot of chart `k` succeeded during visit `v`. */
  predicate ShotTaken(v: PageVisit, k: ChartKind) {
    match v
    case VisitFailed => false
    case Visited(_, _, _, scatterShot, barShot) =>
      match k
      case ScatterChart => scatterShot
      case BarChart => barShot
  }

  /** `ShotTaken` as a test on charts, for counting. */
  function Shot(v: PageVisit): ChartKind -> bool {
    k => ShotTaken(v, k)
  }

  /** How many charts a visit saves, read off the visit directly: a chart
      counts when it was found and its screenshot succeeded, provided the
      page loaded and the folder was created. */
  function ShotsTaken(v: PageVisit): nat {
    match v
    case VisitFailed => 0
    case Visited(scatter, bar, folder, scatterShot, barShot) =>
      if !folder then 0
      else (if scatter && scatterShot then 1 else 0) + (if bar && barShot then 1 else 0)
  }

  /** `charts_found`: the charts present on the page, scatter before bar. */
  function ChartsFound(scatter: bool, bar: bool): (found: seq<ChartKind>)
    ensures |found| <= 2
    ensures ScatterChart in found <==> scatter
    ensures BarChart in found <==> bar
    ensures |found| == (if scatter then 1 else 0) + (if bar then 1 else 0)
    ensures scatter ==> found[0] == ScatterChart
  {
    (if scatter then [ScatterChart] else []) + (if bar then [BarChart] else [])
  }

  /** The name of the chart at position `i` of `charts_found`. */
  function PositionName(i: nat): string {
    "Chart_" + NatToString(i + 1) + ".png"
  }

  /** Different positions get different names. */
  lemma PositionNameInjective(i: nat, j: nat)
    ensures PositionName(i) == PositionName(j) <==> i == j
  {
    if PositionName(i) == PositionName(j) {
      var a := NatToString(i + 1);
      var b := NatToString(j + 1);
      assert |a| == |b|;
      assert a == PositionName(i)[6..6 + |a|];
      assert b == PositionName(j)[6..6 + |b|];
      NatToStringInjective(i + 1, j + 1);
    }
  }

  /** Screenshots of `found[i..]`, each saved under its position's name. */
  function SaveFrom(found: seq<ChartKind>, v: PageVisit, i: nat): (saved: seq<string>)
    requires i <= |found|
    ensures |saved| == Seqs.Count(found[i..], Shot(v))
    ensures forall j :: i <= j < |found| ==> (PositionName(j) in saved <==> ShotTaken(v, found[j]))
    ensures forall n :: n in saved ==> exists j :: i <= j < |found| && n == PositionName(j)
    ensures forall a, b :: 0 <= a < b < |saved| ==> saved[a] != saved[b]
    decreases |found| - i
  {
    if i == |found| then []
    else
      var rest := SaveFrom(found, v, i + 1);
      forall j | i + 1 <= j < |found| ensures PositionName(i) != PositionName(j) {
        PositionNameInjective(i, j);
      }
      assert PositionName(i) !in rest;
      CountFront(found, i, Shot(v));
      (if ShotTaken(v, found[i]) then [PositionName(i)] else []) + rest
  }

  /** Counting from position `i` is the first element's share plus the
      count from `i + 1`. */
  lemma CountFront(found: seq<ChartKind>, i: nat, p: ChartKind -> bool)
    requires i < |found|
    ensures Seqs.Count(found[i..], p) == (if p(found[i]) then 1 else 0) + Seqs.Count(found[i + 1..], p)
  {
    assert found[i..] == [found[i]] + found[i + 1..];
    Seqs.CountAppend([found[i]], found[i + 1..], p);
    assert [found[i]][..0] == [];
  }

  /** The files the downloader's `save_charts_as_png` writes for one module;
      the returned count is their number. */
  function DownloadCharts(v: PageVisit): (saved: seq<string>)
    ensures |saved| == ShotsTaken(v) && |saved| <= 2
    ensures forall a, b :: 0 <= a < b < |saved| ==> saved[a] != saved[b]
    ensures v.VisitFailed? ==> saved == []
    ensures v.Visited? ==>
      var found := ChartsFound(v.scatterFound, v.barFound);
      && |saved| <= |found|
      && (found == [] || !v.folderCreated ==> saved == [])
      && (v.folderCreated ==> forall j :: 0 <= j < |found| ==> (PositionName(j) in saved <==> ShotTaken(v, found[j])))
      && (forall n :: n in saved ==> exists j :: 0 <= j < |found| && n == PositionName(j))
  {
    match v
    case VisitFailed => []
    case Visited(scatter, bar, folder, _, _) =>
      var found := ChartsFound(scatter, bar);
      if found == [] || !folder then []
      else
        SaveAllCount(v);
        SaveFrom(found, v, 0)
  }

  /** Saving from the first position of `charts_found` saves one file per
      chart that was both found and shot. */
  lemma SaveAllCount(v: PageVisit)
    requires v.Visited? && v.folderCreated
    ensures |SaveFrom(ChartsFound(v.scatterFound, v.barFound), v, 0)| == ShotsTaken(v)
  {
    var found := ChartsFound(v.scatterFound, v.barFound);
    assert Seqs.Count(found, Shot(v)) == ShotsTaken(v) by {
      CountShots(v);
    }
    assert |SaveFrom(found, v, 0)| == Seqs.Count(found, Shot(v)) by {
      assert found[0..] == found;
    }
  }

  /** Among the charts found, those whose screenshot succeeded are the
      charts that were both found and shot. */
  lemma CountShots(v: PageVisit)
    requires v.Visited?
    ensures Seqs.Count(ChartsFound(v.scatterFound, v.barFound), Shot(v)) ==
      (if v.scatterFound && v.scatterShot then 1 else 0) + (if v.barFound && v.barShot then 1 else 0)
  {
    var first: seq<ChartKind> := if v.scatterFound then [ScatterChart] else [];
    var second: seq<ChartKind> := if v.barFound then [BarChart] else [];
    Seqs.CountAppend(first, second, Shot(v));
    assert [ScatterChart][..0] == [] && [BarChart][..0] == [];
  }

  /** With no scatter chart on the page, the bar chart takes the first
      name. */
  lemma BarChartAloneIsFirst(v: PageVisit)
    requires v.Visited? && !v.scatterFound && v.barFound && v.folderCreated && v.barShot
    ensures DownloadCharts(v) == ["Chart_1.png"]
  {
    var found := ChartsFound(false, true);
    assert found == [BarChart];
    assert SaveFrom(found, v, 1) == [];
    assert NatToString(1) == "1";
    assert PositionName(0) == "Chart_1.png";
  }

  /** With both charts found and saved, the scatter chart is the first file
      and the bar chart the second. */
  lemma BothChartsInOrder(v: PageVisit)
    requires v.Visited? && v.scatterFound && v.barFound && v.folderCreated && v.scatterShot && v.barShot
    ensures DownloadCharts(v) == ["Chart_1.png", "Chart_2.png"]
  {
    var found := ChartsFound(true, true);
    assert found == [ScatterChart, BarChart];
    assert SaveFrom(found, v, 2) == [];
    assert NatToString(1) == "1" && NatToString(2) == "2";
    assert PositionName(0) == "Chart_1.png";
    assert PositionName(1) == "Chart_2.png";
    assert SaveFrom(found, v, 1) == ["Chart_2.png"];
  }
}
