# bes-next-dashboard core, modelled in Dafny

This project models the data logic of four pages of the BES Next.js dashboard. Each
page's logic runs inside React components and one API route.

- **Resigned-employee analysis.**
  - The page filters the employee rows by department type and by a hire-year range.
  - It recomputes the statistics from the filtered rows: tenure average, maximum and
    minimum, the five-bucket tenure distribution, and the per-year summary.
  - It draws three charts (`TenureCharts`), a heatmap of average tenure by resignation
    year and job grade (`ResignYearHeatmap`), and a grid of the rows
    (`ResignedEmployeeTable`).
  - The API route computes the same statistics on the server.
- **Government tenders.**
  - `TenderListClient` applies search, procurement-level and date filters, sorts by column
    and slices the list into pages of 20.
  - `TenderTable` draws the level badges, the sort icons and the pagination bar.
  - `MetricCards` shows the counts and the budget total.
- **Warranty deposits (`EnsureTable`).**
  - The site selector lists sites ordered by their smallest ORD_NO.
  - Site, card and status filters choose the rows, and a description panel follows the site.
  - The grid gives each row an id.
- **Lunch picker.**
  - A list of restaurants that can be added to, deleted from and reset to the twelve defaults.
  - A random draw picks one of them.

Each source file becomes one module:

| module | file |
|---|---|
| `Common` | shared pieces: `Array.filter`, a stable insertion sort standing for `Array.prototype.sort`, de-duplication, trimming and lower-casing |
| `Numeric` | `Math.round(x * 100) / 100`, sums, minimum and maximum, `parseFloat` |
| `Employees` | the employee record and its truthiness rules |
| `ResignedAnalysisClient` | the analysis page |
| `ResignedAnalysisRoute` | the API route |
| `ResignYearHeatmap` | the heatmap |
| `TenureCharts` | the three charts |
| `ResignedEmployeeTable` | the employee grid |
| `Tenders` | the tender record, budget parsing and the UTF-16 code-unit order of `<` on strings |
| `TenderListClient` | the tender list |
| `TenderTable` | the tender table |
| `MetricCards` | the metric cards |
| `EnsureTable` | the warranty-deposit table |
| `Lunch` | the lunch picker |

How the source's forms are carried over:

- A memo or filter that only computes a value becomes a function.
- A loop that builds a Map or a list becomes a method with a `while` or `for` loop. It is
  proved equal to a reference function, and the function's properties are proved as lemmas.
  These loops are:
  - the per-year grouping of the page and the route;
  - the route's bucket chain;
  - the heatmap's two passes and its nested emitting loops;
  - the site map of `EnsureTable`;
  - `getPageNumbers`.
- Component state becomes a class whose methods are the event handlers (`TenderList`,
  `Filters`, `LunchPicker`).

JavaScript values are modelled as follows:

- A field that may be null, undefined or non-numeric is an `Option`, and the truthiness
  tests are written out.
- `Math.round` rounds halves upward, on exact reals.
- `parseFloat` reads the longest decimal prefix, without exponents. `None` stands for NaN.


## Model

| member | source | states |
|---|---|---|
| Employees.TenureOr | src/app/employee-resigned-analysis/components/EmployeeResignedAnalysisClient.jsx:167 | `TENURE_YEARS || YEARS_IN_OFFICE || EMPLOYEE_SENIORITY` is one of the three fields; it is truthy iff one of them is; it is the first truthy one |
| Employees.TenureOrZero | src/app/employee-resigned-analysis/components/EmployeeResignedAnalysisClient.jsx:201 | the same chain ending in `|| 0`: non-zero exactly when the chain is truthy, and then equal to it |
| Employees.ZeroTenureFallsThrough | src/app/employee-resigned-analysis/components/ResignYearHeatmap.jsx:62-76 | a numeric TENURE_YEARS of 0 is skipped by `||` but taken by the heatmap's `typeof` test |
| Employees.TruthyYear | src/app/employee-resigned-analysis/components/EmployeeResignedAnalysisClient.jsx:190-191 | DATE_RESIGN_YEAR is used as a key exactly when it is present and not 0 |
| ResignedAnalysisClient.StartYears | src/app/employee-resigned-analysis/components/EmployeeResignedAnalysisClient.jsx:23-34 | the numeric START_YEARs collected are exactly those some row carries |
| ResignedAnalysisClient.StartYearRange | src/app/employee-resigned-analysis/components/EmployeeResignedAnalysisClient.jsx:22-44 | with no numeric START_YEAR the range is the ten years up to the current year; otherwise it is [min, max], and both ends occur and bound every year |
| ResignedAnalysisClient.DepartmentFilter | src/app/employee-resigned-analysis/components/EmployeeResignedAnalysisClient.jsx:57-60 | 'all' keeps the list; any other type keeps, in order and with their multiplicity, exactly the rows of that DEPARTMENT_TYPE |
| ResignedAnalysisClient.HireYear | src/app/employee-resigned-analysis/components/EmployeeResignedAnalysisClient.jsx:65-87 | START_YEAR when numeric; else the year of a truthy DATE_START; else none |
| ResignedAnalysisClient.FilterEmployees | src/app/employee-resigned-analysis/components/EmployeeResignedAnalysisClient.jsx:54-98 | the result is a subsequence; a row is kept iff it passes the department filter and has no hire year or one inside the range, both ends included; each kept row as often as the list holds it |
| ResignedAnalysisClient.ValidTenures | src/app/employee-resigned-analysis/components/EmployeeResignedAnalysisClient.jsx:166-168 | the `||` tenures of the rows whose tenure is present and positive, in row order; all positive; exactly the positive tenures of the rows |
| ResignedAnalysisClient.BucketOf | src/app/employee-resigned-analysis/components/EmployeeResignedAnalysisClient.jsx:179-185 | the five half-open intervals [0,1), [1,3), [3,5), [5,10), [10,∞) are told apart and cover every tenure |
| ResignedAnalysisClient.DistributionAppend | src/app/employee-resigned-analysis/components/EmployeeResignedAnalysisClient.jsx:179-185 | one more tenure adds one to its own bucket and nothing elsewhere |
| ResignedAnalysisClient.DistributionPartitions | src/app/employee-resigned-analysis/components/EmployeeResignedAnalysisClient.jsx:179-185 | the five `filter(...).length` counts add up to the number of valid tenures |
| ResignedAnalysisClient.BoundariesGoUp | src/app/employee-resigned-analysis/components/EmployeeResignedAnalysisClient.jsx:179-185 | tenures of exactly 1, 3, 5 and 10 years fall in the upper bucket |
| ResignedAnalysisClient.SingleTenure | src/app/employee-resigned-analysis/components/EmployeeResignedAnalysisClient.jsx:179-185 | a single tenure is counted once, in the bucket of its interval |
| ResignedAnalysisClient.YearOrder | src/app/employee-resigned-analysis/components/EmployeeResignedAnalysisClient.jsx:188-198 | the Map's keys: distinct, and exactly the truthy resignation years of the rows |
| ResignedAnalysisClient.GroupByYear | src/app/employee-resigned-analysis/components/EmployeeResignedAnalysisClient.jsx:188-204 | the `forEach` loop yields, per truthy year in first-seen order, the row count and the total tenure (0 for missing) of that year |
| ResignedAnalysisClient.YearCountsAddUp | src/app/employee-resigned-analysis/components/EmployeeResignedAnalysisClient.jsx:188-204 | over all keys the per-year counts add up to the rows with a truthy year |
| ResignedAnalysisClient.SumCountsSort | src/app/employee-resigned-analysis/components/EmployeeResignedAnalysisClient.jsx:213 | sorting the summary by year keeps the total count |
| ResignedAnalysisClient.SortSummary | src/app/employee-resigned-analysis/components/EmployeeResignedAnalysisClient.jsx:206-213 | sorting a summary with distinct years gives strictly ascending years, the same entries and the same total count |
| ResignedAnalysisClient.GroupsSummary | src/app/employee-resigned-analysis/components/EmployeeResignedAnalysisClient.jsx:188-212 | before sorting, entry k is the k-th first-seen year with its row count, at least 1, and no year repeats |
| ResignedAnalysisClient.YearlySummary | src/app/employee-resigned-analysis/components/EmployeeResignedAnalysisClient.jsx:188-213 | for any summary keeping year and count: one entry per distinct truthy year, strictly ascending, each with its year's row count, totals adding up to the rows with a truthy year |
| ResignedAnalysisClient.RoundedMeanBetween | src/app/employee-resigned-analysis/components/EmployeeResignedAnalysisClient.jsx:171-176 | after rounding to two decimals the average still lies between the minimum and maximum |
| ResignedAnalysisClient.SummarizeBounds | src/app/employee-resigned-analysis/components/EmployeeResignedAnalysisClient.jsx:170-185 | rounded minimum ≤ average ≤ maximum, and the buckets count each valid tenure once |
| ResignedAnalysisClient.ClientStatisticsOf | src/app/employee-resigned-analysis/components/EmployeeResignedAnalysisClient.jsx:148-223 | no rows give the zeroed statistics; otherwise the summary of the valid tenures and the per-year list |
| ResignedAnalysisClient.ClientStatisticsFacts | src/app/employee-resigned-analysis/components/EmployeeResignedAnalysisClient.jsx:149-185 | totalCount is the number of rows; average, max and min are the rounded mean, max and min of the valid tenures, 0 when none, and ordered; the buckets count every valid tenure |
| ResignedAnalysisClient.ClientStatistics | src/app/employee-resigned-analysis/components/EmployeeResignedAnalysisClient.jsx:148-223 | the memo's loop and sort compute exactly the statistics above |
| ResignedAnalysisClient.ClientYearlySummary | src/app/employee-resigned-analysis/components/EmployeeResignedAnalysisClient.jsx:188-213 | `yearlyStats`: strictly ascending years, exactly the truthy years of the rows, each with its row count (≥ 1), counts adding up to the rows with a truthy year |
| ResignedAnalysisClient.MissingTenureCounted | src/app/employee-resigned-analysis/components/EmployeeResignedAnalysisClient.jsx:199-202 | a row with a truthy year and no tenure adds one to its year's count and nothing to its total |
| ResignedAnalysisRoute.BucketCounts | src/app/api/employee/resigned-analysis/route.js:48-60 | the if/else chain in the `forEach` gives the same five counts as the page's five filters |
| ResignedAnalysisRoute.Get | src/app/api/employee/resigned-analysis/route.js:3-112 | a query error gives status 500 with the message; a null or empty result gives zeroed statistics and no rows; otherwise the statistics of the rows and the rows unchanged |
| ResignedAnalysisRoute.RouteYearlySummary | src/app/api/employee/resigned-analysis/route.js:63-89 | the route's `yearlyStats`: strictly ascending, exactly the truthy years, each with its row count, counts adding up |
| ResignedAnalysisRoute.ClientMatchesRoute | src/app/api/employee/resigned-analysis/route.js:83-89 | on the same rows page and route agree except that the page rounds each per-year average to two decimals |
| ResignedAnalysisRoute.UnroundedYearAverage | src/app/api/employee/resigned-analysis/route.js:87 | a year of three rows with 1 year of tenure in total: the route reports 1/3, the page 0.33 |
| ResignYearHeatmap.ResignYearsMembers | src/app/employee-resigned-analysis/components/ResignYearHeatmap.jsx:17-27 | the years collected are exactly the numeric DATE_RESIGN_YEARs of the rows |
| ResignYearHeatmap.GradeNamesMembers | src/app/employee-resigned-analysis/components/ResignYearHeatmap.jsx:29-42 | the grades collected are exactly the truthy GRADE_NAMEs of rows with a numeric GRADE_ID |
| ResignYearHeatmap.GradeIdsMembers | src/app/employee-resigned-analysis/components/ResignYearHeatmap.jsx:29-42 | the ids of a grade are exactly the numeric GRADE_IDs of its rows |
| ResignYearHeatmap.GradeSeenIff | src/app/employee-resigned-analysis/components/ResignYearHeatmap.jsx:29-42 | a grade is seen exactly when the grade map holds an id for it |
| ResignYearHeatmap.GradeIdIsLargest | src/app/employee-resigned-analysis/components/ResignYearHeatmap.jsx:35-40 | the id the map keeps for a grade is one of its rows' ids and the largest of them |
| ResignYearHeatmap.CollectAxes | src/app/employee-resigned-analysis/components/ResignYearHeatmap.jsx:14-42 | the first loop builds the year Set and the grade Map, in insertion order, holding each grade's largest id |
| ResignYearHeatmap.YearAxis | src/app/employee-resigned-analysis/components/ResignYearHeatmap.jsx:44 | the year axis is strictly ascending and holds exactly the numeric resignation years |
| ResignYearHeatmap.SortGradeAxis | src/app/employee-resigned-analysis/components/ResignYearHeatmap.jsx:46-48 | sorting the Map's entries by id descending and taking the names gives the grade axis |
| ResignYearHeatmap.GradeAxisDistinct | src/app/employee-resigned-analysis/components/ResignYearHeatmap.jsx:46-48 | no grade appears twice on the axis |
| ResignYearHeatmap.GradeOnAxis | src/app/employee-resigned-analysis/components/ResignYearHeatmap.jsx:46-48 | a grade is on the axis exactly when it was seen |
| ResignYearHeatmap.GradeAxisMembers | src/app/employee-resigned-analysis/components/ResignYearHeatmap.jsx:29-48 | a grade is on the axis exactly when some row has that truthy name and a numeric id |
| ResignYearHeatmap.GradeAxisOrdered | src/app/employee-resigned-analysis/components/ResignYearHeatmap.jsx:46-48 | along the axis the kept ids never increase |
| ResignYearHeatmap.GradeAxisPair | src/app/employee-resigned-analysis/components/ResignYearHeatmap.jsx:46-48 | for two positions i < j both grades hold an id and the one at j is not larger |
| ResignYearHeatmap.CellTenuresNonEmpty | src/app/employee-resigned-analysis/components/ResignYearHeatmap.jsx:78-85 | a cell has tenures exactly when some row with a numeric year, a truthy grade and a positive tenure enters it |
| ResignYearHeatmap.CellTenuresPositive | src/app/employee-resigned-analysis/components/ResignYearHeatmap.jsx:78-85 | every tenure in a cell is positive |
| ResignYearHeatmap.StatsAppend | src/app/employee-resigned-analysis/components/ResignYearHeatmap.jsx:98-103 | the running record after one more tenure is the record of the longer list: total and count grow, min and max follow |
| ResignYearHeatmap.CollectCells | src/app/employee-resigned-analysis/components/ResignYearHeatmap.jsx:51-105 | the second loop holds a record for exactly the cells some row enters, equal to the record of that cell's tenures |
| ResignYearHeatmap.EmitRow | src/app/employee-resigned-analysis/components/ResignYearHeatmap.jsx:113-134 | one year's pass over the grades appends that year's points and tooltip records and nothing else |
| ResignYearHeatmap.EmitCells | src/app/employee-resigned-analysis/components/ResignYearHeatmap.jsx:112-135 | the nested loops emit exactly the year-major points of the cells with rows, their values, and a tooltip record for exactly those cells |
| ResignYearHeatmap.BuildHeatmap | src/app/employee-resigned-analysis/components/ResignYearHeatmap.jsx:10-144 | no rows give no heatmap; otherwise the two axes, the points of every cell with rows, `values` (or [0] when empty) and a tooltip record per such cell |
| ResignYearHeatmap.DetailBounds | src/app/employee-resigned-analysis/components/ResignYearHeatmap.jsx:116-132 | a tooltip record counts at least one row and has 0 ≤ min ≤ average ≤ max |
| ResignYearHeatmap.CellsSound | src/app/employee-resigned-analysis/components/ResignYearHeatmap.jsx:112-135 | every point lies on both axes and carries its cell's average |
| ResignYearHeatmap.CellsOrdered | src/app/employee-resigned-analysis/components/ResignYearHeatmap.jsx:112-135 | points come year by year and, within a year, grade by grade |
| ResignYearHeatmap.CellsComplete | src/app/employee-resigned-analysis/components/ResignYearHeatmap.jsx:112-135 | every cell with an average has a point |
| ResignYearHeatmap.CellsFacts | src/app/employee-resigned-analysis/components/ResignYearHeatmap.jsx:112-135 | the points are exactly the cells with an average, each once, in year-major order, with that average |
| ResignYearHeatmap.PointHasGradedRow | src/app/employee-resigned-analysis/components/ResignYearHeatmap.jsx:146-179 | a non-empty heatmap has a contributing row whose grade is on the axis |
| ResignYearHeatmap.GradedRowHasPoint | src/app/employee-resigned-analysis/components/ResignYearHeatmap.jsx:146-179 | a contributing row whose grade holds an id makes the heatmap non-empty |
| ResignYearHeatmap.NoDataPanel | src/app/employee-resigned-analysis/components/ResignYearHeatmap.jsx:146-179 | the no-data panel shows exactly when no contributing row has a grade with a numeric id |
| TenureCharts.BarValues | src/app/employee-resigned-analysis/components/TenureCharts.jsx:15-26 | no chart without statistics; otherwise five bars whose sum is the distribution's total |
| TenureCharts.BarsCountBuckets | src/app/employee-resigned-analysis/components/TenureCharts.jsx:15-26 | bar k counts the tenures of the k-th interval and the bars together count every tenure once |
| TenureCharts.PageDistribution | src/app/employee-resigned-analysis/components/TenureCharts.jsx:15-26 | the bars of the page show the distribution of the valid tenures, also for no rows |
| TenureCharts.Trend | src/app/employee-resigned-analysis/components/TenureCharts.jsx:109-114 | no line without statistics or years; otherwise one point per `yearlyStats` entry, in order, its average rounded to two decimals: a whole number of hundredths above x − 0.005 and at most x + 0.005 |
| TenureCharts.TrendOfPage | src/app/employee-resigned-analysis/components/TenureCharts.jsx:109-114 | on the page's statistics the line shows the per-year averages unchanged and its years ascend |
| TenureCharts.RoundedClientAverages | src/app/employee-resigned-analysis/components/TenureCharts.jsx:109-114 | the page's per-year averages are already rounded, so rounding them again changes nothing |
| TenureCharts.TrendSameForRoute | src/app/employee-resigned-analysis/components/TenureCharts.jsx:109-114 | given the route's statistics of the same rows, the line is the same as with the page's |
| TenureCharts.SeriesData | src/app/employee-resigned-analysis/components/TenureCharts.jsx:205-250 | no chart without years or rows; otherwise five series, series k holding per year the rows of that year in the k-th range |
| TenureCharts.RangesPartition | src/app/employee-resigned-analysis/components/TenureCharts.jsx:218-224 | the five ranges are disjoint and together hold exactly the non-negative tenures |
| TenureCharts.SeriesAddUp | src/app/employee-resigned-analysis/components/TenureCharts.jsx:227-238 | for every year the five counts add up to the rows of that year with a non-negative tenure |
| TenureCharts.StackHeights | src/app/employee-resigned-analysis/components/TenureCharts.jsx:227-250 | each stack counts the rows of its year with a non-negative tenure |
| TenureCharts.CountedWithinYear | src/app/employee-resigned-analysis/components/TenureCharts.jsx:227-238 | those rows are at most the rows of the year, and all of them when no tenure is negative |
| TenureCharts.StacksWithinCounts | src/app/employee-resigned-analysis/components/TenureCharts.jsx:227-250 | when each entry counts its year's rows, a stack is at most that count, and equal to it with no negative tenure |
| TenureCharts.StackedCounts | src/app/employee-resigned-analysis/components/TenureCharts.jsx:227-250 | on the page's statistics a stack is at most its year's count, and equal to it with no negative tenure |
| TenureCharts.MissingTenureInFirstRange | src/app/employee-resigned-analysis/components/TenureCharts.jsx:233 | a row with no tenure is stacked in the 0-1 range though it is not a valid tenure of the distribution |
| ResignedEmployeeTable.TextOr | src/app/employee-resigned-analysis/components/ResignedEmployeeTable.jsx:23-31 | `v || ''`: the value when truthy, else the empty string |
| ResignedEmployeeTable.IntOrNull | src/app/employee-resigned-analysis/components/ResignedEmployeeTable.jsx:30-31 | `v || null`: present exactly when truthy, and then the value |
| ResignedEmployeeTable.DepartmentOf | src/app/employee-resigned-analysis/components/ResignedEmployeeTable.jsx:24 | DEPARTMENT_NAME, else DEPARTMENT_NAME_WITHOUT_STATION, else '' |
| ResignedEmployeeTable.Rows | src/app/employee-resigned-analysis/components/ResignedEmployeeTable.jsx:16-34 | one row per employee in order, numbered from 1, with EMPLOYEE_ID as id when truthy and the position otherwise |
| ResignedEmployeeTable.RowIdsDistinct | src/app/employee-resigned-analysis/components/ResignedEmployeeTable.jsx:20 | the row ids are pairwise distinct exactly when the truthy EMPLOYEE_IDs are |
| ResignedEmployeeTable.TenureColumn | src/app/employee-resigned-analysis/components/ResignedEmployeeTable.jsx:18-27 | the tenure column is the `||` tenure (0 when none) rounded to two decimals, so within half a hundredth of it |
| ResignedEmployeeTable.FormatTenure | src/app/employee-resigned-analysis/components/ResignedEmployeeTable.jsx:103-108 | null or '' shows blank; a number shows that number |
| ResignedEmployeeTable.TenureCellsNeverBlank | src/app/employee-resigned-analysis/components/ResignedEmployeeTable.jsx:103-108 | no row's tenure cell is blank |
| Tenders.ParsedBudgetPlain | src/app/gcc-tender/components/TenderListClient.jsx:93 | a budget of plain digits reads as its decimal value |
| Tenders.ParsedBudgetIgnoresComma | src/app/gcc-tender/components/MetricCards.jsx:47 | a comma anywhere in a budget changes nothing: `1,234` reads as `1234` |
| Tenders.UnitLessVersusCodePoint | src/app/gcc-tender/components/TenderListClient.jsx:103-104 | the UTF-16 order of two characters is their code-point order when one is below U+D800; a character above U+FFFF sorts before one in U+E000..U+FFFF |
| Tenders.StrLessIrreflexive | src/app/gcc-tender/components/TenderListClient.jsx:103-104 | the string order never puts a string before itself |
| Tenders.StrLessTransitive | src/app/gcc-tender/components/TenderListClient.jsx:103-104 | the string order is transitive |
| Tenders.StrLessTotal | src/app/gcc-tender/components/TenderListClient.jsx:103-104 | two different strings are ordered one way or the other |
| TenderListClient.SearchFilter | src/app/gcc-tender/components/TenderListClient.jsx:38-46 | a blank term keeps the list; otherwise exactly the tenders whose name, organisation or number contains the lower-cased term, in order, each as often as the list holds it |
| TenderListClient.SearchIgnoresCase | src/app/gcc-tender/components/TenderListClient.jsx:39 | lower-casing the term first changes nothing |
| TenderListClient.SearchTermNotTrimmed | src/app/gcc-tender/components/TenderListClient.jsx:38-39 | the term is not trimmed: a trailing space makes a lower-case name miss the tender it finds without |
| TenderListClient.LevelFilter | src/app/gcc-tender/components/TenderListClient.jsx:49-55 | 'all' keeps the list; 'null' keeps exactly the tenders without a level; any other value exactly those with that level; each kept tender as often as the list holds it |
| TenderListClient.DateFilter | src/app/gcc-tender/components/TenderListClient.jsx:58-80 | no bound keeps the list; with a bound, dateless tenders go and the others stay exactly when inside the bounds, each as often as the list holds it |
| TenderListClient.DateBoundsInclusive | src/app/gcc-tender/components/TenderListClient.jsx:63-67 | a tender announced exactly at either bound is kept |
| TenderListClient.ComesIsStrict | src/app/gcc-tender/components/TenderListClient.jsx:83-106 | for every key and direction the comparator is a strict order, so the sort is well defined |
| TenderListClient.SortTenders | src/app/gcc-tender/components/TenderListClient.jsx:83-106 | the sorted copy is a permutation of the list, ordered by the comparator |
| TenderListClient.NamesAscend | src/app/gcc-tender/components/TenderListClient.jsx:88-106 | ascending on the name, no name comes after a larger one |
| TenderListClient.BudgetsDescend | src/app/gcc-tender/components/TenderListClient.jsx:88-106 | descending on budget, larger amounts come first |
| TenderListClient.NextSort | src/app/gcc-tender/components/TenderListClient.jsx:25-29 | the clicked key is taken; the direction is descending exactly when it was that key ascending |
| TenderListClient.SortToggleAlternates | src/app/gcc-tender/components/TenderListClient.jsx:25-29 | a new column sorts ascending then descending; on the same column each click flips the direction |
| TenderListClient.FilteredDataFacts | src/app/gcc-tender/components/TenderListClient.jsx:34-109 | `filteredData` holds exactly the tenders passing the three filters, each as often as the list holds it, sorted by the comparator |
| TenderListClient.TotalPages | src/app/gcc-tender/components/TenderListClient.jsx:117 | `Math.ceil(n / 20)`: 0 for none, else the least page count that covers n |
| TenderListClient.PageOf | src/app/gcc-tender/components/TenderListClient.jsx:112-115 | page p is the p-th slice of 20, shorter at the end, empty past it |
| TenderListClient.PagesCover | src/app/gcc-tender/components/TenderListClient.jsx:112-115 | the first k pages together are the prefix of the list they cover |
| TenderListClient.PagesOfList | src/app/gcc-tender/components/TenderListClient.jsx:112-117 | pages 1 to totalPages make up the whole list, each non-empty; later pages are empty |
| TenderListClient.TenderList.constructor | src/app/gcc-tender/components/TenderListClient.jsx:13-22 | no search, every level, no dates, page 1, newest first |
| TenderListClient.TenderList.HandleSort | src/app/gcc-tender/components/TenderListClient.jsx:25-31 | the toggle rule on the sort, back to page 1, filters unchanged |
| TenderListClient.TenderList.ResetFilters | src/app/gcc-tender/components/TenderListClient.jsx:120-125 | every filter cleared and page 1; the sort is kept |
| TenderListClient.TenderList.SearchChange | src/app/gcc-tender/components/TenderListClient.jsx:128-131 | the new term and page 1; everything else unchanged |
| TenderListClient.TenderList.ProcurementLevelChange | src/app/gcc-tender/components/TenderListClient.jsx:133-136 | the new level and page 1; everything else unchanged |
| TenderListClient.TenderList.DateRangeChange | src/app/gcc-tender/components/TenderListClient.jsx:138-141 | the new range and page 1; everything else unchanged |
| TenderListClient.TenderList.PageChange | src/app/gcc-tender/components/TenderListClient.jsx:169-171 | the page the table asks for; everything else unchanged |
| TenderListClient.TenderList.Paginated | src/app/gcc-tender/components/TenderListClient.jsx:112-115 | the current page of the filtered list, at most 20 tenders |
| TenderTable.LevelBadge | src/app/gcc-tender/components/TenderTable.jsx:45-60 | 未分類 exactly for no level, 巨額 exactly for that level, 查核金額以上 exactly for other levels mentioning 查核金額, else the level itself |
| TenderTable.SortIcon | src/app/gcc-tender/components/TenderTable.jsx:63-72 | neutral exactly when the table is not sorted on the column, else up for ascending and down for descending |
| TenderTable.IconAfterClick | src/app/gcc-tender/components/TenderTable.jsx:63-72 | after a header click the icon shows the new direction |
| TenderTable.Window | src/app/gcc-tender/components/TenderTable.jsx:96-102 | the window of page numbers lies in 1..totalPages, is five wide (or all pages), and contains a current page in range |
| TenderTable.Run | src/app/gcc-tender/components/TenderTable.jsx:109-111 | the pages a to b, each once, in order |
| TenderTable.PageNumbers | src/app/gcc-tender/components/TenderTable.jsx:94-119 | the loop of `getPageNumbers` builds the page list defined by head, window and tail |
| TenderTable.PageItemsOrdered | src/app/gcc-tender/components/TenderTable.jsx:95-111 | page numbers rise strictly through the list and stay within 1..totalPages |
| TenderTable.PageItemsEnds | src/app/gcc-tender/components/TenderTable.jsx:104-116 | the list starts with page 1 and ends with the last page |
| TenderTable.PageItemsShowCurrent | src/app/gcc-tender/components/TenderTable.jsx:97-111 | a current page in range is always shown |
| TenderTable.PageItemsEllipses | src/app/gcc-tender/components/TenderTable.jsx:104-116 | each ellipsis appears exactly when pages are skipped on its side of the window |
| TenderTable.Pagination | src/app/gcc-tender/components/TenderTable.jsx:91 | no pagination bar for one page or none; otherwise the page list |
| TenderTable.PreviousPage | src/app/gcc-tender/components/TenderTable.jsx:126 | one page back, never below page 1 |
| TenderTable.NextPage | src/app/gcc-tender/components/TenderTable.jsx:149 | one page on, never past the last page |
| TenderTable.ButtonsStayInRange | src/app/gcc-tender/components/TenderTable.jsx:126-149 | from a page in range both buttons lead to a page in range |
| MetricCards.HugeCount | src/app/gcc-tender/components/MetricCards.jsx:30-31 | at most the list's length, and 0 exactly when no tender is 巨額 |
| MetricCards.HugeCountAppend | src/app/gcc-tender/components/MetricCards.jsx:30-31 | the count tender by tender: 0 for no tenders, and one more exactly when the appended tender is 巨額 |
| MetricCards.HugeCountMonotone | src/app/gcc-tender/components/MetricCards.jsx:30-31 | a sub-multiset of the tenders has no more 巨額 tenders |
| MetricCards.HugeCountPermutation | src/app/gcc-tender/components/MetricCards.jsx:30-31 | equal multisets have equally many 巨額 tenders |
| MetricCards.BudgetOf | src/app/gcc-tender/components/MetricCards.jsx:46-48 | a falsy budget or one that reads as NaN adds 0; otherwise its parsed value |
| MetricCards.TotalBudgetEmpty | src/app/gcc-tender/components/MetricCards.jsx:45-49 | the total of no tenders is 0 |
| MetricCards.TotalBudgetConcat | src/app/gcc-tender/components/MetricCards.jsx:45-49 | the total of two lists together is the sum of their totals |
| MetricCards.TotalBudgetSkipsMissing | src/app/gcc-tender/components/MetricCards.jsx:45-49 | tenders without a usable budget do not change the total |
| MetricCards.TotalBudgetNonNegative | src/app/gcc-tender/components/MetricCards.jsx:45-49 | with no negative usable budget the total is not negative |
| MetricCards.FormatAmount | src/app/gcc-tender/components/MetricCards.jsx:10-20 | '0' exactly for 0, 億 exactly from 10^8, 萬 exactly from 10^4 below 10^8, the plain amount otherwise, each scaled back to the amount |
| MetricCards.FormatAmountUnits | src/app/gcc-tender/components/MetricCards.jsx:13-17 | 億 amounts show at least one unit; 萬 amounts between 1 and 10000 units |
| MetricCards.MetricsOf | src/app/gcc-tender/components/MetricCards.jsx:26-31 | the counts are the two lengths, and each 巨額 count is within its list |
| MetricCards.CardsOf | src/app/gcc-tender/components/MetricCards.jsx:91-133 | labels and notes switch to the filtered wording exactly when the lengths differ; the 巨額 note shows exactly when filtering changed that count; the budget card formats the filtered total |
| MetricCards.FilteredCards | src/app/gcc-tender/components/MetricCards.jsx:105-115 | for a sub-multiset the 巨額 card never exceeds all 巨額 tenders, and its note implies fewer were kept |
| MetricCards.PageCards | src/app/gcc-tender/components/MetricCards.jsx:91-115 | on the tender page the cards never show more than the loaded list |
| MetricCards.UnfilteredCards | src/app/gcc-tender/components/MetricCards.jsx:91-115 | when the filters keep every tender no card speaks of filtering |
| EnsureTable.QualifiedSites | src/app/ensure/components/EnsureTable.jsx:44-54 | the sites listed are exactly those of rows with a non-blank site and an ORD_NO |
| EnsureTable.MinOrd | src/app/ensure/components/EnsureTable.jsx:48-52 | none exactly when the site has no qualifying row; otherwise one of its ORD_NOs and the smallest |
| EnsureTable.ComputeUniqueSites | src/app/ensure/components/EnsureTable.jsx:40-75 | the `forEach` into a Map and the sort of its entries give the site options |
| EnsureTable.SortedEntriesFacts | src/app/ensure/components/EnsureTable.jsx:57-74 | the sorted entries are the Map's entries, each once |
| EnsureTable.UniqueSitesDistinct | src/app/ensure/components/EnsureTable.jsx:42-54 | each site appears once among the options |
| EnsureTable.UniqueSitesMembers | src/app/ensure/components/EnsureTable.jsx:42-54 | the options are exactly the non-blank sites of rows with an ORD_NO |
| EnsureTable.UniqueSitesOrdered | src/app/ensure/components/EnsureTable.jsx:57-74 | the options ascend by each site's smallest ORD_NO |
| EnsureTable.SiteOrdIsMinimum | src/app/ensure/components/EnsureTable.jsx:50-52 | the key kept for a site is one of its ORD_NOs and the smallest |
| EnsureTable.SiteFiltered | src/app/ensure/components/EnsureTable.jsx:80-82 | the empty choice shows all rows; any other, exactly the rows of that site, in order, each as often as the data holds it |
| EnsureTable.Numbered | src/app/ensure/components/EnsureTable.jsx:111-114 | one numbered row per row, in order, numbered from 1 |
| EnsureTable.OverallCardRows | src/app/ensure/components/EnsureTable.jsx:89-91 | the overall card keeps exactly the site's unreleased rows, in order, each as often as the site has it |
| EnsureTable.TypeCardRows | src/app/ensure/components/EnsureTable.jsx:92-98 | a type card keeps exactly the site's unreleased rows of that type, in order, each as often as the site has it |
| EnsureTable.CardOverridesStatus | src/app/ensure/components/EnsureTable.jsx:87-99 | with a card selected the status toggle changes nothing |
| EnsureTable.StatusPartitions | src/app/ensure/components/EnsureTable.jsx:100-109 | without a card 'all' keeps the site's rows, and 'released' and 'notReleased' split them between them |
| EnsureTable.FilteredDescData | src/app/ensure/components/EnsureTable.jsx:118-123 | no site gives no descriptions; otherwise exactly the site's descriptions, in order, each as often as the list holds it |
| EnsureTable.Filters.constructor | src/app/ensure/components/EnsureTable.jsx:24-26 | every site, every status, no card |
| EnsureTable.Filters.CardClick | src/app/ensure/components/EnsureTable.jsx:34-37 | the card is selected (the overall card for null) and every site shown; the status is kept |
| EnsureTable.Filters.SiteChange | src/app/ensure/components/EnsureTable.jsx:306-310 | the chosen site and no card; the status is kept |
| EnsureTable.Filters.StatusToggle | src/app/ensure/components/EnsureTable.jsx:338-344 | a null value changes nothing; otherwise the status is chosen and the card dropped |
| EnsureTable.CardClickShows | src/app/ensure/components/EnsureTable.jsx:34-37 | after a card click no descriptions show and the grid holds the card's rows of every site |
| EnsureTable.OrdPart | src/app/ensure/components/EnsureTable.jsx:431 | ORD_NO as text is empty exactly when it is null |
| EnsureTable.Composite | src/app/ensure/components/EnsureTable.jsx:428-432 | the four id columns joined by three dashes |
| EnsureTable.GetRowId | src/app/ensure/components/EnsureTable.jsx:426-441 | a non-empty ENSURE_ID is the id; a composite id is used only when it is not just the dashes |
| EnsureTable.SerializedOnlyWithoutIds | src/app/ensure/components/EnsureTable.jsx:433-435 | without ENSURE_ID the row is serialised exactly when all four id columns are empty |
| Lunch.DefaultIds | src/app/lunch/components/LunchPicker.jsx:10-23 | twelve defaults numbered 1 to 12, so with distinct ids |
| Lunch.RandomIndex | src/app/lunch/components/LunchPicker.jsx:52 | `Math.floor(Math.random() * n)` is an index below n |
| Lunch.MaxId | src/app/lunch/components/LunchPicker.jsx:50 | `Math.max(...ids, 0)`: not negative, at least every id, and 0 or one of the ids |
| Lunch.NextId | src/app/lunch/components/LunchPicker.jsx:50 | the new id is positive and above every id in the list |
| Lunch.AppendNextIdDistinct | src/app/lunch/components/LunchPicker.jsx:50-57 | appending under the next id keeps the ids distinct |
| Lunch.FilterKeepsDistinctIds | src/app/lunch/components/LunchPicker.jsx:63 | removing entries keeps the ids distinct |
| Lunch.DeleteCount | src/app/lunch/components/LunchPicker.jsx:63 | with distinct ids, deleting a present id removes exactly one entry and an absent one none |
| Lunch.DeleteKeepsOthers | src/app/lunch/components/LunchPicker.jsx:63 | deleting keeps exactly the entries without the id, in order |
| Lunch.LunchPicker.constructor | src/app/lunch/components/LunchPicker.jsx:26-39 | the saved list when there is one, else the defaults; empty field, nothing selected, not spinning |
| Lunch.LunchPicker.SetNewRestaurant | src/app/lunch/components/LunchPicker.jsx:160 | the field holds the typed text; nothing else changes |
| Lunch.LunchPicker.AddRestaurant | src/app/lunch/components/LunchPicker.jsx:48-60 | a blank name changes nothing; otherwise the trimmed name is appended under the next id with a drawn emoji and the field cleared; distinct ids are kept |
| Lunch.LunchPicker.DeleteRestaurant | src/app/lunch/components/LunchPicker.jsx:62-67 | every entry with the id goes; the selection is cleared exactly when it had that id; distinct ids are kept |
| Lunch.LunchPicker.PickRandom | src/app/lunch/components/LunchPicker.jsx:69-88 | nothing happens on an empty list; otherwise the list is unchanged and the restaurant of the last of the twenty draws stays selected |
| Lunch.LunchPicker.ResetToDefault | src/app/lunch/components/LunchPicker.jsx:90-93 | the twelve defaults and no selection |

## Left out

- Rendering: the MUI components, the ECharts option objects beyond their data, styles, labels, tooltips' HTML and the `mounted` guards are not modelled.
- I/O is not modelled, for these reasons:
  - The database query of the route (`route.js:6`) is a parameter (`QueryResult`).
  - The route's `console.error` is not modelled.
  - The browser's `localStorage` in the lunch picker (`LunchPicker.jsx:32-46`) is not modelled: the constructor takes the saved list as a parameter, and saving is not modelled.
- Clocks and randomness are parameters:
  - `new Date().getFullYear()` is the `currentYear` parameter.
  - `Math.random()` is a draw in [0, 1).
  - The `setInterval` spin of the lunch picker is modelled as its twenty ticks run to completion. Deleting or adding while the wheel spins, which the timer allows, is not modelled.
- Date parsing is an input:
  - The hire year read from `DATE_START` is the `yearOf` parameter.
  - A tender's announcement instant is the `announcedAt` field.
  - The chosen date range is given as the start-of-day and end-of-day instants.
- `DateFilter`: only ranges with `from <= to` are meaningful. The `isWithinInterval` error on reversed bounds is not modelled.
- JavaScript coercion is modelled only through its result:
  - A numeric field holds the number `Number(...)` reads, or `None`.
  - NaN, Infinity and number-to-string formatting beyond `String(n)` of an integer are not modelled.
  - 64-bit floating-point rounding is not modelled: all arithmetic is on exact reals.
- `ResignedAnalysisRoute.Get`: the per-year `employees` list the route builds (`route.js:72`, `route.js:79`) is left out, because it is grouped but never returned.
- `ResignYearHeatmap.CollectCells`: the `tenures` list pushed per cell (`ResignYearHeatmap.jsx:101`) is not stored, because it is never read. A cell's key is the pair (year, grade) rather than the string `${year}-${grade}`, which differs only for grade names containing the separator.
- `ResignYearHeatmap.CollectCells`: a new record starts at the first tenure instead of at Infinity and -Infinity, which gives the same record.
- The heatmap's colour scale bounds `minValue` / `maxValue` (`ResignYearHeatmap.jsx:181-182`) are not modelled, because they are presentation.
- `ResignedEmployeeTable.FormatTenure`: a non-empty text value is excluded by its precondition, because the grid's rows always carry a number. The `toFixed(2)` text is represented by the number it shows.
- `MetricCards.FormatAmount`: it returns the unit and the scaled value. The digits `toFixed` and `toLocaleString` keep are not modelled.
- `MetricCards.MetricsOf`: the count of this week's tenders (`MetricCards.jsx:34-42`) is left out, because it depends on the clock and is not shown on the cards modelled.
- `EnsureTable.ComputeUniqueSites`: ORD_NO is modelled as an integer compared numerically. The `localeCompare` branch for string ORD_NOs (`EnsureTable.jsx:68-72`) is left out.
- `EnsureTable.GetRowId`: the `JSON.stringify` fallback and its `row-...` backup (`EnsureTable.jsx:436-440`) are the constant `Serialized`. The id columns other than ORD_NO are held as the text `String(...)` gives them.
- `EnsureTable.FilteredDescData`: a description row keeps only its project name, since no other column affects the filter.
- `EnsureTable` renders twice, before mounting (`EnsureTable.jsx:289-446`) and after it (`EnsureTable.jsx:447-610`). Both copies repeat the same handlers and grid, so the model has one copy.
- `TenderListClient.SearchFilter`: `toLowerCase` is modelled on the capitals of `Common.IsUpper` only: basic Latin, Latin-1, Greek, Cyrillic and full-width Latin. Other scripts' capitals and the context-dependent or length-changing mappings (`İ` to `i̇`, the final sigma) are not modelled.
- `announcedAt` is one instant for both the date filter's `parseISO` (`TenderListClient.jsx:61`, local midnight for a date-only string) and the sort's `new Date` (`TenderListClient.jsx:99`, UTC midnight). For announcement dates that are all date-only the two differ by one fixed offset, so the filter bounds and the order agree. Mixed date formats are not modelled.
- `TenderListClient.PageOf`: it requires page ≥ 1, since every caller passes a page from 1 up (`TenderTable.ButtonsStayInRange`).
- `TenureCharts.SeriesData`: the strict `DATE_RESIGN_YEAR === year` test is modelled on the numeric year. A row whose year is a numeric string, which `===` would miss, is not distinguished.
- `|| 0` on keys that are always present (for example over the bucket counts) is modelled as the value itself.
