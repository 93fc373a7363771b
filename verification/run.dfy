/** The run over all modules.

    - The extractor's `main` reads each module's grade table and charts in
      turn, keeps the student rows (by module code) and the summary rows of
      the modules whose table had the required columns, counts the modules
      with at least one chart and the charts saved, and then assembles the
      workbook in two passes: tables first, then the charts of each module
      sheet.
    - The downloader's `download_all_charts` keeps the same two counters.

    Failures of one module never stop the run: a table that cannot be read
    is a module without data, and chart capture failures are outcomes of
    the capture itself. */
module Run {
  import opened Optional
  import Seqs
  import Grades
  import Charts
  import Layout
  import Sorting

  // ---------------------------------------------------------------------
  // Counters
  // ---------------------------------------------------------------------

  /** Modules with at least one chart saved, and charts saved in all. */
  datatype Tally = Tally(modules: nat, charts: nat)

  /** The counter update after one module: `if saved > 0`. */
  function Record(t: Tally, saved: nat): Tally {
    if saved > 0 then Tally(t.modules + 1, t.charts + saved) else t
  }

  predicate Positive(n: nat) {
    n > 0
  }

  function Sum(ns: seq<nat>): nat {
    if |ns| == 0 then 0 else Sum(ns[..|ns| - 1]) + ns[|ns| - 1]
  }

  /** The counters after a run whose modules saved `counts` charts each. */
  function TallyCounts(counts: seq<nat>): (t: Tally)
    ensures t.modules == |Seqs.Matching(counts, Positive)|
    ensures t.charts == Sum(counts)
    ensures t.modules <= |counts|
    ensures t.modules <= t.charts
  {
    if |counts| == 0 then Tally(0, 0)
    else
      var init := counts[..|counts| - 1];
      Seqs.CountIsMatchingSize(counts, Positive);
      Seqs.CountIsMatchingSize(init, Positive);
      Record(TallyCounts(init), counts[|counts| - 1])
  }

  /** When no module can save more than `most` charts, the total is at
      most `most` per counted module. */
  lemma {:induction false} TallyBounded(counts: seq<nat>, most: nat)
    requires forall i :: 0 <= i < |counts| ==> counts[i] <= most
    ensures TallyCounts(counts).charts <= most * TallyCounts(counts).modules
  {
    if |counts| > 0 {
      var init := counts[..|counts| - 1];
      var last := counts[|counts| - 1];
      assert forall i :: 0 <= i < |init| ==> init[i] == counts[i];
      TallyBounded(init, most);
      var t := TallyCounts(init);
      assert TallyCounts(counts) == Record(t, last);
      if last > 0 {
        assert t.charts + last <= most * t.modules + most;
        assert most * (t.modules + 1) == most * t.modules + most;
      }
    }
  }

  // ---------------------------------------------------------------------
  // The extractor's per-module results, kept by module code
  // ---------------------------------------------------------------------

  /** A Python dict from module code to student rows: keys in insertion
      order, values by key. */
  datatype GradeBook = GradeBook(keys: seq<string>, values: map<string, seq<Grades.StudentRecord>>)

  /** Each key once, and exactly the keys that have a value. */
  ghost predicate Valid(g: GradeBook) {
    && (forall i, j :: 0 <= i < j < |g.keys| ==> g.keys[i] != g.keys[j])
    && (forall c :: c in g.keys <==> c in g.values)
  }

  /** `all_grades[code] = students`: a new code goes to the end, a known
      code keeps its place and takes the new value. */
  function Put(g: GradeBook, code: string, students: seq<Grades.StudentRecord>): (r: GradeBook)
    requires Valid(g)
    ensures Valid(r)
    ensures code in r.values && r.values[code] == students
    ensures forall c :: c != code ==> (c in r.values <==> c in g.values)
    ensures forall c :: c != code && c in g.values ==> r.values[c] == g.values[c]
    ensures |g.keys| <= |r.keys| <= |g.keys| + 1
    ensures r.keys[..|g.keys|] == g.keys
  {
    GradeBook(if code in g.values then g.keys else g.keys + [code], g.values[code := students])
  }

  /** What the extractor met for one module: its code, the grade table if
      the page and its table could be read, and the capture outcome of each
      chart page. */
  datatype ModuleVisit = ModuleVisit(code: string, table: Option<Grades.Table>, charts: Charts.VariantOutcomes)

  /** What one module contributes to the run: its student rows and summary
      row when its table gave them, and the number of charts saved. */
  datatype ModuleResult = ModuleResult(code: string, grades: Option<(seq<Grades.StudentRecord>, Grades.SummaryRow)>, saved: nat)

  /** One module's work: `filter_grades_dataframe` on its table (nothing
      when the table could not be read) and `save_charts_as_png`. */
  function Visit(v: ModuleVisit): (r: ModuleResult)
    ensures r.code == v.code
    ensures r.saved <= 2
    ensures r.grades.Some? <==> Parsed(v)
    ensures r.grades.Some? ==> r.grades.value.1.code == v.code
    ensures r.saved == |Charts.SaveVariantCharts(v.charts)|
    ensures r.grades.Some? ==> r.grades == Grades.FilterGrades(v.table.value, v.code)
  {
    var g := if v.table.None? then None else Grades.FilterGrades(v.table.value, v.code);
    ModuleResult(v.code, g, |Charts.SaveVariantCharts(v.charts)|)
  }

  /** The table of a visit could be read and has both required columns. */
  predicate Parsed(v: ModuleVisit) {
    v.table.Some? && Grades.MatricKey in v.table.value.columns && Grades.GradeKey in v.table.value.columns
  }

  /** `rs` are results of the visits `vs`, position by position, as far as
      codes and data go. */
  predicate Corresponds(vs: seq<ModuleVisit>, rs: seq<ModuleResult>) {
    && |rs| == |vs|
    && forall i :: 0 <= i < |vs| ==>
      && rs[i].code == vs[i].code
      && (HasData(rs[i]) <==> Parsed(vs[i]))
      && (HasData(rs[i]) ==> rs[i].grades.value.1.code == vs[i].code)
  }

  /** Every module's work, in configuration order. */
  function Visits(vs: seq<ModuleVisit>): (rs: seq<ModuleResult>)
    ensures |rs| == |vs|
    ensures forall i :: 0 <= i < |vs| ==> rs[i] == Visit(vs[i])
  {
    if |vs| == 0 then [] else [Visit(vs[0])] + Visits(vs[1..])
  }

  /** The results line up with the visits they come from. */
  lemma VisitsCorrespond(vs: seq<ModuleVisit>)
    ensures Corresponds(vs, Visits(vs))
    ensures forall i :: 0 <= i < |vs| ==> Visits(vs)[i].saved == |Charts.SaveVariantCharts(vs[i].charts)|
  {
    var rs := Visits(vs);
    forall i | 0 <= i < |vs|
      ensures rs[i].code == vs[i].code
      ensures HasData(rs[i]) <==> Parsed(vs[i])
      ensures HasData(rs[i]) ==> rs[i].grades.value.1.code == vs[i].code
      ensures rs[i].saved == |Charts.SaveVariantCharts(vs[i].charts)|
    {
      assert rs[i] == Visit(vs[i]);
    }
  }

  predicate HasData(r: ModuleResult) {
    r.grades.Some?
  }

  function SavedCounts(rs: seq<ModuleResult>): (ns: seq<nat>)
    ensures |ns| == |rs|
    ensures forall i :: 0 <= i < |rs| ==> ns[i] == rs[i].saved
  {
    if |rs| == 0 then [] else SavedCounts(rs[..|rs| - 1]) + [rs[|rs| - 1].saved]
  }

  /** The state `main` carries from module to module. */
  datatype RunState = RunState(grades: GradeBook, summaries: seq<Grades.SummaryRow>, tally: Tally)

  /** One iteration of the module loop: grades and the summary row are
      kept only when the table gave them; the counters move only for a
      positive saved count. */
  function Step(st: RunState, r: ModuleResult): (next: RunState)
    requires Valid(st.grades)
    ensures Valid(next.grades)
    ensures forall c :: c in next.grades.values <==> c in st.grades.values || (HasData(r) && c == r.code)
    ensures HasData(r) ==> next.grades.values[r.code] == r.grades.value.0
    ensures forall c :: c != r.code && c in st.grades.values ==> next.grades.values[c] == st.grades.values[c]
    ensures !HasData(r) ==> next.summaries == st.summaries
    ensures HasData(r) ==> next.summaries == st.summaries + [r.grades.value.1]
    ensures next.tally == Record(st.tally, r.saved)
    ensures next.grades.keys ==
      if HasData(r) && r.code !in st.grades.values then st.grades.keys + [r.code] else st.grades.keys
  {
    var tally := Record(st.tally, r.saved);
    match r.grades
    case Some((students, summary)) =>
      RunState(Put(st.grades, r.code, students), st.summaries + [summary], tally)
    case None => RunState(st.grades, st.summaries, tally)
  }

  /** The module loop over the modules' results in configuration order. */
  function RunResults(rs: seq<ModuleResult>): (st: RunState)
    ensures Valid(st.grades)
    ensures st.tally == TallyCounts(SavedCounts(rs))
  {
    if |rs| == 0 then RunState(GradeBook([], map[]), [], Tally(0, 0))
    else
      var init := rs[..|rs| - 1];
      assert SavedCounts(rs)[..|rs| - 1] == SavedCounts(init);
      Step(RunResults(init), rs[|rs| - 1])
  }

  /** Some result of module `code` carries data. */
  predicate DataFor(rs: seq<ModuleResult>, code: string) {
    exists i :: 0 <= i < |rs| && rs[i].code == code && HasData(rs[i])
  }

  lemma DataForSnoc(rs: seq<ModuleResult>, code: string)
    requires |rs| > 0
    ensures DataFor(rs, code) <==>
      DataFor(rs[..|rs| - 1], code) || (HasData(rs[|rs| - 1]) && rs[|rs| - 1].code == code)
  {
    var init := rs[..|rs| - 1];
    if DataFor(rs, code) {
      var i :| 0 <= i < |rs| && rs[i].code == code && HasData(rs[i]);
      if i < |init| {
        assert init[i] == rs[i];
      }
    }
    if DataFor(init, code) {
      var i :| 0 <= i < |init| && init[i].code == code && HasData(init[i]);
      assert rs[i] == init[i];
    }
  }

  /** A module's students are kept exactly when some visit of that module
      had data. */
  lemma {:induction false} RunGradeKeys(rs: seq<ModuleResult>)
    ensures forall c :: c in RunResults(rs).grades.values <==> DataFor(rs, c)
  {
    if |rs| > 0 {
      var init := rs[..|rs| - 1];
      RunGradeKeys(init);
      assert RunResults(rs) == Step(RunResults(init), rs[|rs| - 1]);
      forall c ensures c in RunResults(rs).grades.values <==> DataFor(rs, c) {
        DataForSnoc(rs, c);
      }
    }
  }

  /** The position of the first result of module `code` that carries
      data. */
  function FirstData(rs: seq<ModuleResult>, code: string): (i: nat)
    requires DataFor(rs, code)
    ensures i < |rs| && rs[i].code == code && HasData(rs[i])
    ensures forall j :: 0 <= j < i ==> !(rs[j].code == code && HasData(rs[j]))
  {
    var init := rs[..|rs| - 1];
    DataForSnoc(rs, code);
    if DataFor(init, code) then
      var i := FirstData(init, code);
      assert forall j :: 0 <= j <= i ==> rs[j] == init[j];
      i
    else
      assert forall j :: 0 <= j < |init| ==> rs[j] == init[j];
      |rs| - 1
  }

  /** `keys` lists modules with data in `rs`, in the order each first had
      data. */
  ghost predicate InFirstDataOrder(rs: seq<ModuleResult>, keys: seq<string>) {
    forall a, b :: 0 <= a < b < |keys| ==> FirstDataBefore(rs, keys[a], keys[b])
  }

  /** Both modules had data in `rs`, and `x` had it first. */
  ghost predicate FirstDataBefore(rs: seq<ModuleResult>, x: string, y: string) {
    && DataFor(rs, x) && DataFor(rs, y)
    && FirstData(rs, x) < FirstData(rs, y)
  }

  /** `all_grades` lists its modules in the order each first had data: a
      module recorded again keeps its place. Together with `RunGradeKeys`
      and the keys being distinct, this fixes the key sequence, and so the
      order of the module sheets. */
  lemma {:induction false} RunGradeOrder(rs: seq<ModuleResult>)
    ensures InFirstDataOrder(rs, RunResults(rs).grades.keys)
  {
    if |rs| > 0 {
      var keys := RunResults(rs).grades.keys;
      RunGradeOrder(rs[..|rs| - 1]);
      forall a, b | 0 <= a < b < |keys|
        ensures FirstDataBefore(rs, keys[a], keys[b])
      {
        OrderPair(rs, a, b);
      }
    }
  }

  /** The step of `RunGradeOrder` for one pair of keys. */
  lemma OrderPair(rs: seq<ModuleResult>, a: nat, b: nat)
    requires |rs| > 0 && a < b < |RunResults(rs).grades.keys|
    requires InFirstDataOrder(rs[..|rs| - 1], RunResults(rs[..|rs| - 1]).grades.keys)
    ensures FirstDataBefore(rs, RunResults(rs).grades.keys[a], RunResults(rs).grades.keys[b])
  {
    var init := rs[..|rs| - 1];
    var last := rs[|rs| - 1];
    var prev := RunResults(init);
    var keys := RunResults(rs).grades.keys;
    var pk := prev.grades.keys;
    var appended := HasData(last) && last.code !in prev.grades.values;
    assert keys == if appended then pk + [last.code] else pk by {
      assert RunResults(rs) == Step(prev, last);
    }
    var x := keys[a];
    assert x == pk[a];
    KeptKeyHasData(init, a);
    FirstDataSnoc(rs, x);
    if b < |pk| {
      var y := keys[b];
      assert y == pk[b];
      KeptKeyHasData(init, b);
      FirstDataSnoc(rs, y);
      assert FirstData(init, x) < FirstData(init, y);
    } else {
      assert appended && b == |pk|;
      assert keys[b] == (pk + [last.code])[|pk|] == last.code;
      NewKeyFirstData(rs);
    }
  }

  /** A key of the grade book after `rs` is a module with data in `rs`. */
  lemma KeptKeyHasData(rs: seq<ModuleResult>, a: nat)
    requires a < |RunResults(rs).grades.keys|
    ensures DataFor(rs, RunResults(rs).grades.keys[a])
  {
    RunGradeKeys(rs);
    assert RunResults(rs).grades.keys[a] in RunResults(rs).grades.values;
  }

  /** A module's first data does not move when a result is appended. */
  lemma FirstDataSnoc(rs: seq<ModuleResult>, code: string)
    requires |rs| > 0 && DataFor(rs[..|rs| - 1], code)
    ensures DataFor(rs, code) && FirstData(rs, code) == FirstData(rs[..|rs| - 1], code)
  {
    DataForSnoc(rs, code);
  }

  /** A module first recorded by the last result has its first data
      there. */
  lemma NewKeyFirstData(rs: seq<ModuleResult>)
    requires |rs| > 0
    requires HasData(rs[|rs| - 1]) && rs[|rs| - 1].code !in RunResults(rs[..|rs| - 1]).grades.values
    ensures DataFor(rs, rs[|rs| - 1].code) && FirstData(rs, rs[|rs| - 1].code) == |rs| - 1
  {
    var init := rs[..|rs| - 1];
    RunGradeKeys(init);
    DataForSnoc(rs, rs[|rs| - 1].code);
  }

  /** No later visit of the module had data. */
  predicate LastWithData(rs: seq<ModuleResult>, i: nat)
    requires i < |rs|
  {
    HasData(rs[i]) && forall j :: i < j < |rs| && HasData(rs[j]) ==> rs[j].code != rs[i].code
  }

  /** The students kept for a module are those of its last visit with
      data: a later visit replaces what an earlier one stored. */
  lemma {:induction false} RunGradeValues(rs: seq<ModuleResult>, i: nat)
    requires i < |rs| && LastWithData(rs, i)
    ensures rs[i].code in RunResults(rs).grades.values
    ensures RunResults(rs).grades.values[rs[i].code] == rs[i].grades.value.0
  {
    var init := rs[..|rs| - 1];
    var last := rs[|rs| - 1];
    var prev := RunResults(init);
    assert RunResults(rs) == Step(prev, last);
    if i < |init| {
      assert init[i] == rs[i];
      forall j | i < j < |init| && HasData(init[j]) ensures init[j].code != init[i].code {
        assert init[j] == rs[j];
      }
      RunGradeValues(init, i);
      assert HasData(last) ==> last.code != rs[i].code;
    }
  }

  /** The summary rows are those of the modules with data, in module
      order. */
  lemma {:induction false} RunSummaries(rs: seq<ModuleResult>)
    ensures var st := RunResults(rs);
      && |st.summaries| == |Seqs.Filter(rs, HasData)|
      && forall k :: 0 <= k < |st.summaries| ==>
        HasData(Seqs.Filter(rs, HasData)[k]) && st.summaries[k] == Seqs.Filter(rs, HasData)[k].grades.value.1
  {
    if |rs| > 0 {
      var init := rs[..|rs| - 1];
      var last := rs[|rs| - 1];
      RunSummaries(init);
      var prev := RunResults(init);
      assert RunResults(rs) == Step(prev, last);
      assert Seqs.Filter(rs, HasData) == Seqs.Filter(init, HasData) + (if HasData(last) then [last] else []);
      SummariesSnoc(Seqs.Filter(init, HasData), prev.summaries, last);
    }
  }

  /** Appending a result extends the kept results and the summary rows
      alike, so they stay in step. */
  lemma SummariesSnoc(kept: seq<ModuleResult>, rows: seq<Grades.SummaryRow>, last: ModuleResult)
    requires |rows| == |kept|
    requires forall k :: 0 <= k < |rows| ==> HasData(kept[k]) && rows[k] == kept[k].grades.value.1
    ensures var kept' := kept + (if HasData(last) then [last] else []);
      var rows' := rows + (if HasData(last) then [last.grades.value.1] else []);
      && |rows'| == |kept'|
      && forall k :: 0 <= k < |rows'| ==> HasData(kept'[k]) && rows'[k] == kept'[k].grades.value.1
  {
  }

  /** The module loop of `main`. */
  function RunModules(vs: seq<ModuleVisit>): (st: RunState)
    ensures Valid(st.grades)
    ensures st.tally.charts == Sum(SavedCounts(Visits(vs)))
    ensures st.tally.modules <= |vs|
    ensures st.tally.modules <= st.tally.charts <= 2 * st.tally.modules
  {
    var rs := Visits(vs);
    TallyBounded(SavedCounts(rs), 2);
    RunResults(rs)
  }

  /** A module's students are kept exactly when one of its visits read a
      table with both required columns. */
  lemma RunModulesKeys(vs: seq<ModuleVisit>)
    ensures forall c :: c in RunModules(vs).grades.values <==> ParsedFor(vs, c)
  {
    var rs := Visits(vs);
    VisitsCorrespond(vs);
    RunGradeKeys(rs);
    DataForParsed(vs, rs);
  }

  /** The run's module sheets follow the order in which each module's
      table was first read with both required columns. */
  lemma RunModulesOrder(vs: seq<ModuleVisit>)
    ensures InFirstDataOrder(Visits(vs), RunModules(vs).grades.keys)
    ensures forall i :: 0 <= i < |vs| ==> (HasData(Visits(vs)[i]) <==> Parsed(vs[i]))
  {
    VisitsCorrespond(vs);
    RunGradeOrder(Visits(vs));
  }

  /** The students kept for a module are what `filter_grades_dataframe`
      gave for its last visit that read a table with both required
      columns. */
  lemma RunModulesStudents(vs: seq<ModuleVisit>, i: nat)
    requires i < |vs| && Parsed(vs[i])
    requires forall j :: i < j < |vs| && Parsed(vs[j]) ==> vs[j].code != vs[i].code
    ensures vs[i].code in RunModules(vs).grades.values
    ensures Grades.FilterGrades(vs[i].table.value, vs[i].code).Some?
    ensures RunModules(vs).grades.values[vs[i].code] == Grades.FilterGrades(vs[i].table.value, vs[i].code).value.0
  {
    var rs := Visits(vs);
    VisitsCorrespond(vs);
    assert rs[i] == Visit(vs[i]);
    assert LastWithData(rs, i) by {
      forall j | i < j < |rs| && HasData(rs[j]) ensures rs[j].code != rs[i].code {
        assert Parsed(vs[j]);
      }
    }
    RunGradeValues(rs, i);
  }

  /** Some visit of module `code` read a table with both required columns. */
  predicate ParsedFor(vs: seq<ModuleVisit>, code: string) {
    exists i :: 0 <= i < |vs| && vs[i].code == code && Parsed(vs[i])
  }

  lemma DataForParsed(vs: seq<ModuleVisit>, rs: seq<ModuleResult>)
    requires Corresponds(vs, rs)
    ensures forall c :: DataFor(rs, c) <==> ParsedFor(vs, c)
  {
    forall c ensures DataFor(rs, c) <==> ParsedFor(vs, c) {
      if ParsedFor(vs, c) {
        var i :| 0 <= i < |vs| && vs[i].code == c && Parsed(vs[i]);
        assert rs[i].code == c && HasData(rs[i]);
      }
      if DataFor(rs, c) {
        var i :| 0 <= i < |rs| && rs[i].code == c && HasData(rs[i]);
        assert vs[i].code == c && Parsed(vs[i]);
      }
    }
  }

  /** There is one summary row per visit that read a table with both
      required columns, naming that visit's module, in visiting order. */
  lemma RunModulesSummaries(vs: seq<ModuleVisit>)
    ensures |RunModules(vs).summaries| == |Seqs.Filter(vs, Parsed)|
    ensures forall k :: 0 <= k < |RunModules(vs).summaries| ==>
      RunModules(vs).summaries[k].code == Seqs.Filter(vs, Parsed)[k].code
  {
    var rs := Visits(vs);
    VisitsCorrespond(vs);
    var st := RunResults(rs);
    assert RunModules(vs) == st;
    RunSummaries(rs);
    FilteredVisits(vs, rs);
  }

  /** The results with data line up with the visits that read a table with
      both columns. */
  lemma {:induction false} FilteredVisits(vs: seq<ModuleVisit>, rs: seq<ModuleResult>)
    requires Corresponds(vs, rs)
    ensures |Seqs.Filter(rs, HasData)| == |Seqs.Filter(vs, Parsed)|
    ensures forall k :: 0 <= k < |Seqs.Filter(vs, Parsed)| ==>
      && HasData(Seqs.Filter(rs, HasData)[k])
      && Seqs.Filter(rs, HasData)[k].code == Seqs.Filter(vs, Parsed)[k].code
      && Seqs.Filter(rs, HasData)[k].grades.value.1.code == Seqs.Filter(vs, Parsed)[k].code
  {
    if |vs| > 0 {
      var init := vs[..|vs| - 1];
      var last := vs[|vs| - 1];
      var rinit := rs[..|rs| - 1];
      var r := rs[|rs| - 1];
      assert Corresponds(init, rinit) by {
        assert forall i :: 0 <= i < |init| ==> init[i] == vs[i] && rinit[i] == rs[i];
      }
      FilteredVisits(init, rinit);
      var fr := Seqs.Filter(rs, HasData);
      var fv := Seqs.Filter(vs, Parsed);
      assert fr == Seqs.Filter(rinit, HasData) + (if HasData(r) then [r] else []);
      assert fv == Seqs.Filter(init, Parsed) + (if Parsed(last) then [last] else []);
      forall k | 0 <= k < |fv|
        ensures HasData(fr[k]) && fr[k].code == fv[k].code && fr[k].grades.value.1.code == fv[k].code
      {
        if k < |Seqs.Filter(init, Parsed)| {
          assert fr[k] == Seqs.Filter(rinit, HasData)[k];
          assert fv[k] == Seqs.Filter(init, Parsed)[k];
        }
      }
    }
  }

  /** `successful_modules` counts the visits that saved at least one
      chart. */
  lemma RunModulesTally(vs: seq<ModuleVisit>)
    ensures RunModules(vs).tally.modules == |set i: nat | i < |vs| && |Charts.SaveVariantCharts(vs[i].charts)| > 0|
  {
    var rs := Visits(vs);
    VisitsCorrespond(vs);
    assert RunModules(vs).tally == TallyCounts(SavedCounts(rs));
    PositiveSaved(vs, SavedCounts(rs));
  }

  /** The positions with a positive saved count are the visits that saved
      a chart. */
  lemma PositiveSaved(vs: seq<ModuleVisit>, ns: seq<nat>)
    requires |ns| == |vs|
    requires forall i :: 0 <= i < |vs| ==> ns[i] == |Charts.SaveVariantCharts(vs[i].charts)|
    ensures Seqs.Matching(ns, Positive) == set i: nat | i < |vs| && |Charts.SaveVariantCharts(vs[i].charts)| > 0
  {
    forall i: nat | i < |vs|
      ensures Positive(ns[i]) <==> |Charts.SaveVariantCharts(vs[i].charts)| > 0
    {
    }
  }

  // ---------------------------------------------------------------------
  // The two-pass workbook
  // ---------------------------------------------------------------------

  /** The sheet holding the summary rows. */
  const SummarySheet: string := "Summary"

  /** The first used row of a module sheet written from a table: its header
      row. */
  const TableFirstRow: int := 1

  /** The result of pass 1 and pass 2: the sheet names, and for each module
      sheet the images added to it, or `None` where `add_charts_to_excel`
      returned False. */
  datatype Workbook = Workbook(sheetNames: seq<string>, charts: seq<Option<seq<Layout.Placement>>>)

  function FolderOf(dirs: map<string, Layout.ChartDir>, code: string): Option<Layout.ChartDir> {
    if code in dirs then Some(dirs[code]) else None
  }

  function AddAll(codes: seq<string>, sheetNames: seq<string>, dirs: map<string, Layout.ChartDir>)
    : (r: seq<Option<seq<Layout.Placement>>>)
    ensures |r| == |codes|
    ensures forall i :: 0 <= i < |codes| ==>
      r[i] == Layout.AddChartsToSheet(codes[i] in sheetNames, TableFirstRow, FolderOf(dirs, codes[i]))
  {
    if |codes| == 0 then []
    else
      var first := Layout.AddChartsToSheet(codes[0] in sheetNames, TableFirstRow, FolderOf(dirs, codes[0]));
      assert forall i :: 1 <= i < |codes| ==> codes[1..][i - 1] == codes[i];
      [first] + AddAll(codes[1..], sheetNames, dirs)
  }

  predicate Added(p: Option<seq<Layout.Placement>>) {
    p.Some?
  }

  /** Pass 1 writes one sheet per module with data, in the order they were
      first seen, and the summary sheet; pass 2 adds each module's charts
      to its sheet from the module's chart folder (`dirs`). Nothing is
      written when no module had data. */
  function Assemble(st: RunState, dirs: map<string, Layout.ChartDir>): (wb: Option<Workbook>)
    ensures wb.None? <==> st.grades.keys == []
    ensures wb.Some? ==> wb.value.sheetNames == st.grades.keys + (if st.summaries == [] then [] else [SummarySheet])
    ensures wb.Some? ==> |wb.value.charts| == |st.grades.keys|
    ensures wb.Some? ==> forall i :: 0 <= i < |st.grades.keys| ==>
      var c := st.grades.keys[i];
      && wb.value.charts[i] == Layout.AddChartsToSheet(true, TableFirstRow, FolderOf(dirs, c))
      && (c !in dirs ==> wb.value.charts[i].None?)
      && (wb.value.charts[i].Some? ==> forall k :: 0 <= k < |wb.value.charts[i].value| ==>
            wb.value.charts[i].value[k].row == TableFirstRow + Layout.ExtractorStride * k)
  {
    if st.grades.keys == [] then None
    else
      var names := st.grades.keys + (if st.summaries == [] then [] else [SummarySheet]);
      Some(Workbook(names, AddAll(st.grades.keys, names, dirs)))
  }

  /** Pass 2 places every chart of a module's folder that passes the
      extractor's filter and does not fail to open. */
  lemma AssembledChartPlaced(st: RunState, dirs: map<string, Layout.ChartDir>, i: nat, f: string)
    requires i < |st.grades.keys| && st.grades.keys[i] in dirs
    requires f in dirs[st.grades.keys[i]].files && Layout.ExtractorCandidate(f)
    requires f !in dirs[st.grades.keys[i]].failing
    ensures Assemble(st, dirs).Some?
    ensures Assemble(st, dirs).value.charts[i].Some?
    ensures f in Layout.Files(Assemble(st, dirs).value.charts[i].value)
  {
    var d := dirs[st.grades.keys[i]];
    var placed := Assemble(st, dirs).value.charts[i];
    assert placed == Layout.AddChartsToSheet(true, TableFirstRow, Some(d));
    var kept := Layout.Kept(Seqs.Filter(d.files, Layout.ExtractorCandidate), d.failing);
    assert f in kept;
    assert placed.Some?;
    assert f in multiset(Layout.Files(placed.value));
  }

  /** `charts_added`: the module sheets `add_charts_to_excel` reported
      True for, never more than the module sheets. */
  function ChartsAdded(wb: Workbook): (n: nat)
    ensures n <= |wb.charts|
    ensures n == |Seqs.Matching(wb.charts, Added)|
  {
    Seqs.CountBounded(wb.charts, Added);
    Seqs.CountIsMatchingSize(wb.charts, Added);
    Seqs.Count(wb.charts, Added)
  }

  /** The clean-up after the run: for each configured module whose chart
      folder exists, the resized copies in it, paired with the module. */
  function CleanupRun(codes: seq<string>, dirs: map<string, Layout.ChartDir>): (removed: seq<(string, string)>)
    ensures forall code, f :: (code, f) in removed <==>
      code in codes && code in dirs && f in dirs[code].files && Layout.IsResizedCopy(f)
  {
    if |codes| == 0 then []
    else
      var code := codes[|codes| - 1];
      var here := if code in dirs then Tagged(code, Layout.CleanupTargets(dirs[code].files)) else [];
      CleanupRun(codes[..|codes| - 1], dirs) + here
  }

  function Tagged(code: string, files: seq<string>): (r: seq<(string, string)>)
    ensures forall c, f :: (c, f) in r <==> c == code && f in files
  {
    if |files| == 0 then []
    else
      var rest := Tagged(code, files[1..]);
      assert forall f :: f in files <==> f == files[0] || f in files[1..];
      [(code, files[0])] + rest
  }

  /** Every chart the extractor saves is a candidate for its own layout. */
  lemma ChartFileIsCandidate(v: Charts.PageVariant)
    ensures Layout.ExtractorCandidate(Charts.ChartFile(v))
  {
    var f := Charts.ChartFile(v);
    assert f == Charts.ScatterStem + [Charts.VariantDigit(v)] + ".png";
    assert f[|f| - 4..] == ".png";
    assert f[|f| - 12] == Charts.ScatterStem[6];
    Layout.PlainPngIsCandidate(f);
  }

  /** The GraphPage chart sorts before the SubmitResults chart. */
  lemma ChartFilesOrdered()
    ensures Sorting.LexLe(Charts.ChartFile(Charts.GraphPage), Charts.ChartFile(Charts.SubmitResults))
  {
    var a := Charts.ChartFile(Charts.GraphPage);
    var b := Charts.ChartFile(Charts.SubmitResults);
    var n := |Charts.ScatterStem|;
    assert a[..n] == Charts.ScatterStem == b[..n];
    assert a[n] == '1' && b[n] == '2';
    Sorting.LexLeCommonPrefix(a, b, n);
  }

  /** A module that saved both charts, in a folder holding nothing else
      and where nothing fails, gets them on its sheet one above the other:
      the GraphPage chart at D1, the SubmitResults chart 25 rows lower, at
      D26. */
  lemma BothChartsStacked(o: Charts.VariantOutcomes)
    requires o.graph == Charts.Captured && o.submit == Charts.Captured
    ensures Layout.AddChartsToSheet(true, TableFirstRow, Some(Layout.ChartDir(Charts.SaveVariantCharts(o), {})))
      == Some([Layout.Placement(Charts.ChartFile(Charts.GraphPage), Layout.ExtractorColumn, 1),
               Layout.Placement(Charts.ChartFile(Charts.SubmitResults), Layout.ExtractorColumn, 26)])
  {
    ChartFileIsCandidate(Charts.GraphPage);
    ChartFileIsCandidate(Charts.SubmitResults);
    ChartFilesOrdered();
    TwoCandidatesStacked(Charts.ChartFile(Charts.GraphPage), Charts.ChartFile(Charts.SubmitResults), TableFirstRow);
  }

  /** Two candidates, in order, neither failing: the first at the sheet's
      first row, the second one stride below. */
  lemma TwoCandidatesStacked(a: string, b: string, minRow: int)
    requires Layout.ExtractorCandidate(a) && Layout.ExtractorCandidate(b) && Sorting.LexLe(a, b)
    ensures Layout.AddChartsToSheet(true, minRow, Some(Layout.ChartDir([a, b], {})))
      == Some([Layout.Placement(a, Layout.ExtractorColumn, minRow),
               Layout.Placement(b, Layout.ExtractorColumn, minRow + Layout.ExtractorStride)])
  {
    TwoCandidatesOrdered(a, b);
    TwoPlaced(a, b, minRow);
  }

  lemma TwoCandidatesOrdered(a: string, b: string)
    requires Layout.ExtractorCandidate(a) && Layout.ExtractorCandidate(b) && Sorting.LexLe(a, b)
    ensures Sorting.Sort(Seqs.Filter([a, b], Layout.ExtractorCandidate)) == [a, b]
  {
    assert Seqs.Filter([a, b], Layout.ExtractorCandidate) == [a, b] by {
      assert [a, b][..1] == [a] && [a][..0] == [];
      assert Seqs.Filter([a], Layout.ExtractorCandidate) == [a];
    }
    assert Sorting.Sorted([a, b]);
    Sorting.SortOfSorted([a, b]);
  }

  lemma TwoPlaced(a: string, b: string, minRow: int)
    ensures Layout.PlaceImages([a, b], {}, Layout.ExtractorColumn, minRow, Layout.ExtractorStride)
      == [Layout.Placement(a, Layout.ExtractorColumn, minRow),
          Layout.Placement(b, Layout.ExtractorColumn, minRow + Layout.ExtractorStride)]
  {
    var col := Layout.ExtractorColumn;
    var stride := Layout.ExtractorStride;
    assert Layout.Kept([a, b], {}) == [a, b] by {
      assert [a, b][..1] == [a] && [a][..0] == [];
      assert Layout.Kept([a], {}) == [a];
    }
    assert Layout.Kept([b], {}) == [b] by {
      assert [b][..0] == [];
    }
    assert [a, b][1..] == [b] && [b][1..] == [];
    assert Layout.PlaceImages([b], {}, col, minRow + stride, stride) == [Layout.Placement(b, col, minRow + stride)];
  }

  // ---------------------------------------------------------------------
  // The downloader's run
  // ---------------------------------------------------------------------

  /** What the downloader met for one module. */
  datatype DownloadVisit = DownloadVisit(code: string, page: Charts.PageVisit)

  /** The number of charts saved for one module. */
  function Downloaded(v: DownloadVisit): (n: nat)
    ensures n <= 2
  {
    |Charts.DownloadCharts(v.page)|
  }

  /** The per-module saved counts, in the order visited. */
  function DownloadCounts(vs: seq<DownloadVisit>): (r: seq<nat>)
    ensures |r| == |vs|
    ensures forall i :: 0 <= i < |vs| ==>
      r[i] == |Charts.DownloadCharts(vs[i].page)| && r[i] == Charts.ShotsTaken(vs[i].page) && r[i] <= 2
  {
    if |vs| == 0 then []
    else
      assert forall i :: 1 <= i < |vs| ==> vs[1..][i - 1] == vs[i];
      [Downloaded(vs[0])] + DownloadCounts(vs[1..])
  }

  /** `successful_modules` and `total_saved` after the module loop of
      `download_all_charts`. */
  function DownloadAll(vs: seq<DownloadVisit>): (t: Tally)
    ensures t.modules == |Seqs.Matching(DownloadCounts(vs), Positive)|
    ensures t.charts == Sum(DownloadCounts(vs))
    ensures t.modules <= |vs|
    ensures t.modules <= t.charts <= 2 * t.modules
  {
    TallyBounded(DownloadCounts(vs), 2);
    TallyCounts(DownloadCounts(vs))
  }
}
