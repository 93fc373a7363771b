# Module grades and charts pipeline — a verified model

The repository holds three browser scripts for a university module
management site:

- an extractor (`ModuleGradesChartsExtractor.py`) that reads each module's
  grade table and scatter charts into one workbook;
- a chart downloader (`module_charts_downloader.py`) that saves each
  module's scatter and bar charts and lays them out one sheet per module;
- a summary scraper (`module_summary_scraper.py`) that collects the footer
  statistics of each module's table into one table.

Beneath the browser work is a small deterministic pipeline, and that is
what this project models:

- grade-table normalisation: column selection by two-level header keys,
  the split into student rows and six footer rows, numeric coercion, and
  the two band percentages;
- chart file naming in both scripts;
- image layout planning: file filtering, sorting, anchor rows and the
  skip-on-failure rule;
- the run-level accumulation: the grade book, summary rows, counters, the
  two-pass workbook and the clean-up of resized copies;
- the summary scraper's rows and table;
- the session-expiry URL test.

Everything the browser, the file system, pandas or openpyxl does is given
to the model as data:

- a table's cells;
- the outcome of each chart capture;
- a folder's listing, and which files fail to be placed.

Grades are exact `real`s.

Files (one module each):

- `option.dfy` (`Optional`)
- `seqs.dfy` (`Seqs`): the filter and count comprehensions.
- `text.dfy` (`Text`): Python's `strip`, `lower`, `endswith`, `in`, and decimal numerals.
- `sorting.dfy` (`Sorting`): `sorted` on names.
- `grades.dfy` (`Grades`)
- `charts.dfy` (`Charts`)
- `layout.dfy` (`Layout`)
- `run.dfy` (`Run`)
- `summary.dfy` (`SummaryScraper`)

## Model

| member | source | states |
|---|---|---|
| Grades.ColumnIndex | ModuleGradesChartsExtractor.py:75 | The column lookup fails exactly when the key is not among the columns. Otherwise it gives the first column with that key. |
| Grades.SelectColumns | ModuleGradesChartsExtractor.py:75-80 | The two selected columns keep one row per table row, in order. A short row reads as empty cells. |
| Grades.FooterCount | ModuleGradesChartsExtractor.py:84 | `iloc[-6:]` takes six rows, or every row of a table with fewer than six. |
| Grades.SplitFooter | ModuleGradesChartsExtractor.py:83-84 | The student rows followed by the footer rows give back the whole table. The footer is the last `min(6, n)` rows. |
| Grades.NoDigitNoNumber | ModuleGradesChartsExtractor.py:87 | In the model, which reads no `inf` spellings, a text without any digit coerces to missing. |
| Grades.ParseNumberOfNat | ModuleGradesChartsExtractor.py:87 | A whole number written in decimal coerces back to that number. |
| Grades.ParseFormatTenths | ModuleGradesChartsExtractor.py:87 | A grade written with one decimal, signed or not, coerces back to exactly that grade. |
| Grades.ToNumeric | ModuleGradesChartsExtractor.py:87 | Numeric cells keep their value and empty cells become missing. Texts go through the numeral reader. |
| Grades.Coerce | ModuleGradesChartsExtractor.py:87 | Each student keeps their matriculation cell. Their grade is the coerced grade cell. |
| Grades.BandBoundaries | ModuleGradesChartsExtractor.py:91-92 | 16.5 is in the upper band. 14 is in the middle band and 16 is in neither. No grade is in both bands. |
| Grades.CountBands | ModuleGradesChartsExtractor.py:90-92 | The three counts are the numbers of positions holding a numeric grade, an upper-band grade and a mid-band grade. The two band counts together never exceed the numeric count. |
| Grades.Percentage | ModuleGradesChartsExtractor.py:91-92 | With no numeric grades the share is 0. Otherwise share × whole = part × 100, and the share lies in [0, 100] when part ≤ whole. |
| Grades.PercentagesBounded | ModuleGradesChartsExtractor.py:91-92 | The shares of two disjoint bands add up to at most 100. |
| Grades.StudentsOf | ModuleGradesChartsExtractor.py:83-87 | The student rows are the first `n - min(6, n)` rows, each with its matriculation cell and coerced grade. |
| Grades.FooterOf | ModuleGradesChartsExtractor.py:84 | The footer holds the last `min(6, n)` rows of the two columns, unchanged. |
| Grades.Summarize | ModuleGradesChartsExtractor.py:90-103 | The summary row carries the module code and the footer. Each percentage is its band's count over the count of numeric grades. Both are non-negative and sum to at most 100. |
| Grades.FilterGrades | ModuleGradesChartsExtractor.py:70-105 | The result is `None` exactly when either required column key is missing. Otherwise the student rows are every row but the footer, coerced, and the footer rows never reach the statistics. |
| Charts.LooksLikeLoginIff | module_summary_scraper.py:30 | The session-expiry test holds exactly when "login" or "auth" occurs at some position of the lower-cased URL. |
| Charts.LooksLikeLoginIgnoresCase | ModuleGradesChartsExtractor.py:129 | Lower-casing the URL first does not change the verdict. |
| Charts.ChartFile | ModuleGradesChartsExtractor.py:158 | Every extractor chart file name ends in ".png". |
| Charts.ChartFileInjective | ModuleGradesChartsExtractor.py:139-146 | Two variants share a file name only if they are the same variant, so a second capture overwrites the file instead of adding one. |
| Charts.SaveVariantCharts | ModuleGradesChartsExtractor.py:122-170 | At most two files are saved, with no duplicates. A variant's file is saved exactly when its capture succeeded. When both are saved, GraphPage's comes first. |
| Charts.ChartsFound | module_charts_downloader.py:101-105 | A chart kind is in `charts_found` exactly when it was found. There are at most two, and scatter comes first when present. |
| Charts.PositionNameInjective | module_charts_downloader.py:131 | `Chart_{i+1}.png` names differ for different positions. |
| Charts.SaveFrom | module_charts_downloader.py:124-139 | The name of position j is saved exactly when that chart's screenshot succeeded. Every saved name is the name of some position, no name is saved twice, and the count is the number of successful screenshots. |
| Charts.DownloadCharts | module_charts_downloader.py:63-145 | `saved_count` equals the number of charts that were found and whose screenshot succeeded, or 0 when the visit failed or the folder was not created. That is at most `len(charts_found)`. Position j's name is saved exactly when its screenshot succeeded, and no name is saved twice. |
| Charts.BarChartAloneIsFirst | module_charts_downloader.py:101-134 | With no scatter chart, the bar chart is saved as `Chart_1.png`. |
| Charts.BothChartsInOrder | module_charts_downloader.py:101-134 | With both charts saved, scatter is `Chart_1.png` and bar is `Chart_2.png`. |
| Layout.Kept | ModuleGradesChartsExtractor.py:199-228 | The files that are placed are exactly the listed files that do not fail. |
| Layout.PlaceImages | ModuleGradesChartsExtractor.py:198-228 | The k-th placed image is the k-th file that did not fail, anchored `stride × k` rows below the first row. A failing file does not move the row. |
| Layout.PlacedFromSorted | ModuleGradesChartsExtractor.py:196-228 | Placing a sorted list places exactly its non-failing files, still sorted. |
| Layout.AddChartsToSheet | ModuleGradesChartsExtractor.py:173-234 | The result is False exactly when there is no sheet, no folder, or no `.png` that is not `_resized.png`. Otherwise the placed files are, as a multiset, the candidates that do not fail, each as often as listed. They are placed sorted, in column D at `min_row + 25k`. |
| Layout.ExtractorLayoutIgnoresListingOrder | ModuleGradesChartsExtractor.py:190-196 | Two listings of the same files give the same placements. |
| Layout.CleanupTargets | ModuleGradesChartsExtractor.py:367-368 | The clean-up removes exactly the listed names ending `_resized.png`. |
| Layout.AfterCleanup | ModuleGradesChartsExtractor.py:367-372 | After the clean-up, exactly the names not ending `_resized.png` remain. |
| Layout.CleanupKeepsExtractorCandidates | ModuleGradesChartsExtractor.py:190 | The clean-up never removes a file the extractor would place. |
| Layout.ResizedCopyIsPng | ModuleGradesChartsExtractor.py:190 | Every `_resized.png` name also ends in `.png`, which is why the extractor excludes it explicitly. |
| Layout.ResizedCopyIsDownloaderCandidate | module_charts_downloader.py:242-244 | The downloader does place a `_resized.png` copy left over from an earlier run. |
| Layout.SheetImages | module_charts_downloader.py:239-262 | The placed files are, as a multiset, the non-failing files whose lower-cased name ends in `.png`. They are placed sorted, in column A at `1 + 20k`. |
| Layout.DownloaderLayoutIgnoresListingOrder | module_charts_downloader.py:242 | Two listings of the same files give the same sheet. |
| Layout.SheetsFor | module_charts_downloader.py:233-238 | There is one sheet per folder, titled with its name and holding its images. |
| Layout.GenerateWorkbook | module_charts_downloader.py:233-262 | There is one sheet per folder entry, in listing order: the i-th sheet is titled with the i-th folder's name and holds that folder's images. Every folder has its sheet, every sheet comes from a folder, and plain files are skipped. |
| Sorting.Sort | module_charts_downloader.py:242 | The result is sorted by code point and is a permutation of the input. |
| Sorting.SortedUnique | ModuleGradesChartsExtractor.py:196 | Two sorted arrangements of the same names are the same list. |
| Sorting.SortIgnoresListingOrder | ModuleGradesChartsExtractor.py:196 | Sorting gives the same result whatever order the names were listed in. |
| Sorting.SortOfSorted | ModuleGradesChartsExtractor.py:196 | Sorting an already sorted list leaves it as it is. |
| Text.Strip | module_summary_scraper.py:49 | The result is no longer than the input and has no surrounding whitespace. It is empty exactly when the text is all whitespace. |
| Text.StripPadded | module_summary_scraper.py:49 | Stripping removes exactly the surrounding whitespace and keeps the core text. |
| Text.StripIdempotent | module_summary_scraper.py:49 | Stripping twice is the same as stripping once. |
| Text.Lower | module_charts_downloader.py:243 | Lower-casing maps each character and leaves no upper-case letter. |
| Text.NatToStringRoundTrip | module_charts_downloader.py:131 | A position number written in decimal reads back as the same number. |
| Run.TallyCounts | ModuleGradesChartsExtractor.py:296-302 | `successful_modules` is the number of modules that saved at least one chart, and `total_charts_saved` is the sum of the counts. There are never more counted modules than modules or than charts. |
| Run.TallyBounded | ModuleGradesChartsExtractor.py:299-301 | When no module saves more than m charts, the total is at most m per counted module. |
| Run.Put | ModuleGradesChartsExtractor.py:287 | Dict assignment stores the value and leaves the other modules unchanged. A new code goes last, a known code keeps its place, and keys stay distinct. |
| Run.Visit | ModuleGradesChartsExtractor.py:278-306 | A module has grades exactly when its table was read and has both required columns, and those grades are `filter_grades_dataframe`'s result for the table. Its summary row names it, and it saves at most two charts. |
| Run.Step | ModuleGradesChartsExtractor.py:286-302 | Grades and the summary row are recorded only when the table gave them. A module recorded for the first time is appended to the keys, and one recorded again keeps its place. The counters move only when a chart was saved. |
| Run.RunResults | ModuleGradesChartsExtractor.py:274-309 | After the loop the counters are those of the per-module saved counts, and the grade book stays well-formed. |
| Run.RunGradeOrder | ModuleGradesChartsExtractor.py:286-290 | The keys of `all_grades` are listed in the order in which each module first produced data. With RunGradeKeys and the distinct keys, this fixes the key sequence. |
| Run.RunGradeKeys | ModuleGradesChartsExtractor.py:286-287 | A module code is in `all_grades` exactly when one of its visits produced data. |
| Run.RunGradeValues | ModuleGradesChartsExtractor.py:287 | A module's stored students are those of its last visit with data. |
| Run.RunSummaries | ModuleGradesChartsExtractor.py:286-288 | `all_summaries` holds the summary rows of the visits with data, in visiting order. |
| Run.RunModules | ModuleGradesChartsExtractor.py:271-309 | `total_charts_saved` is the sum of the per-module counts. Counted modules never exceed the modules, and the total lies between the number of counted modules and twice that number. |
| Run.RunModulesStudents | ModuleGradesChartsExtractor.py:284-287 | The students stored for a module are the student rows `filter_grades_dataframe` gave for its last visit with both required columns. |
| Run.RunModulesOrder | ModuleGradesChartsExtractor.py:284-290 | The run's module keys, and so the module sheets, follow the order in which each module's table was first read with both required columns. |
| Run.RunModulesKeys | ModuleGradesChartsExtractor.py:284-287 | A module's students are kept exactly when one of its visits read a table with both required columns. |
| Run.RunModulesSummaries | ModuleGradesChartsExtractor.py:284-288 | There is one summary row per visit with both columns, naming that visit's module, in order. |
| Run.RunModulesTally | ModuleGradesChartsExtractor.py:298-301 | `successful_modules` equals the number of visits whose capture saved at least one file. |
| Run.AddAll | ModuleGradesChartsExtractor.py:330-332 | Pass 2 runs `add_charts_to_excel` on every module sheet, top row first, with that module's folder. |
| Run.Assemble | ModuleGradesChartsExtractor.py:312-332 | No workbook is made when no module had data. The sheets are the grade-book keys (in first-data order, by RunModulesOrder), then "Summary" if there are summaries. Pass 2 gives each module sheet exactly what `add_charts_to_excel` places from that module's chart folder, starting at row 1; a module without a folder gets no charts. |
| Run.AssembledChartPlaced | ModuleGradesChartsExtractor.py:190-223 | Every file in a module's chart folder that passes the `.png`/not-`_resized.png` filter and opens is placed on that module's sheet in pass 2. |
| Run.ChartsAdded | ModuleGradesChartsExtractor.py:329-332 | `charts_added` counts the module sheets for which `add_charts_to_excel` reported success, including sheets where every candidate failed and nothing was placed. It is at most the number of module sheets. |
| Run.CleanupRun | ModuleGradesChartsExtractor.py:361-375 | A file of a module is removed exactly when the module is configured, its folder exists, and the name ends `_resized.png`. |
| Run.ChartFileIsCandidate | ModuleGradesChartsExtractor.py:190 | Every chart the extractor saves passes its own layout filter. |
| Run.ChartFilesOrdered | ModuleGradesChartsExtractor.py:196 | `ScatterChart_1.png` sorts before `ScatterChart_2.png`. |
| Run.BothChartsStacked | ModuleGradesChartsExtractor.py:139-223 | In a folder holding only the two charts the extractor saved, and where neither fails, the GraphPage chart lands at D1 and the SubmitResults chart at D26. |
| Run.TwoCandidatesStacked | ModuleGradesChartsExtractor.py:190-223 | Two ordered candidates that do not fail land at `min_row` and `min_row + 25`. |
| Run.DownloadCounts | module_charts_downloader.py:184-188 | There is one saved count per module, in order. Each is the number of charts found and successfully shot on that module's page, at most two. |
| Run.DownloadAll | module_charts_downloader.py:181-192 | `successful_modules` counts the modules that saved something and never exceeds the modules. `total_saved` is the sum of the per-module counts, between `successful_modules` and twice it. |
| SummaryScraper.NonBlankTexts | module_summary_scraper.py:49 | The values are the stripped texts of the non-blank cells, in order. Each value is non-empty and trimmed. |
| SummaryScraper.CleanCellsKept | module_summary_scraper.py:49 | Cells that are already trimmed and non-empty come through unchanged. |
| SummaryScraper.BlankCellsDropped | module_summary_scraper.py:49 | All-blank cells contribute nothing. |
| SummaryScraper.SummaryStatsRow | module_summary_scraper.py:43-53 | Once the page has loaded, a row always starts with the module code. A caught failure gives exactly `[code, "ERROR"]`. Otherwise entry k is the stripped text of the k-th non-blank cell, in order. |
| SummaryScraper.ErrorRowAmbiguous | module_summary_scraper.py:49-53 | A footer whose only text is "ERROR" gives the same row as a failed read. |
| SummaryScraper.ModuleRows | module_summary_scraper.py:37-40 | There are no rows exactly when some module's page failed to load. Otherwise there is one row per module in order, each that module's `extract_summary_stats` row. |
| SummaryScraper.SummaryTable | module_summary_scraper.py:81-99 | No table is saved exactly when some module's page failed to load. That failure escapes both `extract_summary_stats` and the run. Otherwise the table is the fixed header and then one row per module in input order, 1 + n rows, each starting with its code. |

## Left out

- Browser work is not modelled. This covers the Selenium driver, page loads, `WebDriverWait` timeouts, `time.sleep`, scrolling and screenshots. Each capture is an outcome given to the model.
- The interactive `input()` prompts are not modelled. This includes the re-authentication pause after a login redirect and the final "press Enter". Only the URL test itself is modelled.
- HTML parsing is given as its result: a `Table` of column keys and cells. This covers `pd.read_html`, BeautifulSoup and `extract_table_html`.
- Pandas reshaping (`set_index(...).T`) is not modelled. The summary row keeps the footer rows as (label, value) pairs.
- Workbook file I/O is not modelled: `ExcelWriter`, `to_excel`, `load_workbook` and `save`. The result is the list of sheets and placements.
- `save_to_excel` in the summary scraper is not modelled; it only writes the table rows out in order. The driver set-up, the first authentication page load and the early return when manual authentication fails (module_summary_scraper.py:83-91) are not modelled; the table is modelled from the module loop on, where only the per-module page load can fail.
- PIL's `thumbnail` resizing and image bytes are not modelled. The resized copy's name is not derived from `replace(".png", "_resized.png")`. Failing to open, resize or add an image is the folder's `failing` set.
- File-system listing, `os.makedirs`, `os.path.exists` and `os.remove` are taken as given. A folder is a listing plus its failing files. Failures to remove a file during clean-up are not modelled.
- The downloader's "Downloaded charts by module" listing is console output only and is not modelled.
- `GradesTable.py` is not part of this model. It only sets up a driver, reads one table and prints it.
- Grades.Summarize: the percentages are exact, not `round(..., 2)`.
- Grades.ParseNumber: covers an optional sign, digits, and at most one decimal point. `pd.to_numeric`'s exponents, `inf` spellings and surrounding whitespace are not modelled, so those texts become missing where pandas reads a number.
- Grades.NoDigitNoNumber: holds of the model only. `pd.to_numeric` reads digit-free spellings such as `inf` and `-inf` as numbers, which the model turns into missing.
- Grades.ColumnIndex: a duplicated column key takes its first occurrence. Pandas would keep both columns and then fail on the rename, which is not modelled.
- Text.Lower: lower-cases ASCII letters only. Python's full Unicode case mapping is not modelled.
- Run.BothChartsStacked: the downloader writes `Chart_<n>.png` into the same `charts/<code>` folder. Such a file passes the extractor's filter and sorts before `ScatterChart_1.png`, so in a shared folder the extractor's charts move down by 25 rows per earlier file. The lemma covers only a folder holding just the extractor's two charts; the general placement is what Layout.AddChartsToSheet states.
- Run.Assemble: a module whose code is literally "Summary" would share its sheet with the summary table. The model lists both names and does not model the collision. Sheet-name length limits are not modelled either.
- Run.AddAll: uses the first row of a sheet written from a table, row 1, as `min_row`. Charts therefore start at D1, beside the table's header row (the table fills columns A and B), as the code places them. Image sizes, and so whether images overlap, are not modelled.
- The summary scraper's base URL line (module_summary_scraper.py:78) has text after the string literal, so the file does not parse as Python. The model follows the evident intent of lines 37-53 and 81-96.
- The footer is taken as the code takes it: the last `min(6, n)` rows, so a table of fewer than six rows has no student rows (`FooterCount`). A module visited twice with data gets two summary rows, because `all_summaries` is appended to while `all_grades` is overwritten (`RunSummaries`, `RunGradeValues`).
- The downloader keeps `_resized.png` copies next to the charts and places them too (`ResizedCopyIsDownloaderCandidate`). A second run therefore lays out both the charts and their copies, as the code does.
