/** The resigned-employee analysis page: the hire-year slider's range, the department and
    hire-year filters, and the statistics recomputed from the filtered rows (tenure
    average / max / min, the five-bucket distribution and the per-year summary). */
module ResignedAnalysisClient {
  import opened Common
  import opened Numeric
  import opened Employees

  // ---------------------------------------------------------------------------
  // Hire-year range of the slider

  /** The numeric START_YEAR values of `emps`, in order. */
  function StartYears(emps: seq<Employee>): (ys: seq<int>)
    ensures forall y :: y in ys <==> exists e :: e in emps && e.startYear == Some(y)
  {
    if emps == [] then []
    else
      var rest := StartYears(emps[1..]);
      assert forall e :: e in emps <==> e == emps[0] || e in emps[1..];
      match emps[0].startYear
      case Some(y) => [y] + rest
      case None => rest
  }

  datatype YearRange = YearRange(lo: int, hi: int)

  /** `startYearRange`: the smallest and largest numeric START_YEAR over both input
      lists, or the ten years up to `currentYear` when there is none. */
  function StartYearRange(initial: seq<Employee>, heatmap: seq<Employee>, currentYear: int): (r: YearRange)
    ensures (forall e :: e in initial + heatmap ==> e.startYear.None?) ==> r == YearRange(currentYear - 10, currentYear)
    ensures (exists e :: e in initial + heatmap && e.startYear.Some?) ==>
      && r.lo <= r.hi
      && (forall e :: e in initial + heatmap && e.startYear.Some? ==> r.lo <= e.startYear.value <= r.hi)
      && (exists e :: e in initial + heatmap && e.startYear == Some(r.lo))
      && (exists e :: e in initial + heatmap && e.startYear == Some(r.hi))
  {
    var years := StartYears(initial + heatmap);
    if years == [] then YearRange(currentYear - 10, currentYear)
    else
      assert forall e :: e in initial + heatmap && e.startYear.Some? ==> e.startYear.value in years;
      YearRange(IntMin(years), IntMax(years))
  }

  // ---------------------------------------------------------------------------
  // Department and hire-year filters (the same code filters the table rows and the
  // heatmap rows)

  function DepartmentIs(t: string): Employee -> bool {
    (e: Employee) => e.departmentType == Some(t)
  }

  /** The department-type filter: 'all' keeps everything, any other value keeps the rows
      whose DEPARTMENT_TYPE equals it, in their order. */
  function DepartmentFilter(emps: seq<Employee>, t: string): (r: seq<Employee>)
    ensures t == "all" ==> r == emps
    ensures t != "all" ==> IsSubsequence(r, emps)
    ensures t != "all" ==> forall e :: multiset(r)[e] == if e.departmentType == Some(t) then multiset(emps)[e] else 0
  {
    if t == "all" then emps
    else
      FilterCounts(emps, DepartmentIs(t));
      FilterSubsequence(emps, DepartmentIs(t));
      Filter(emps, DepartmentIs(t))
  }

  /** The hire year: START_YEAR when it is numeric; otherwise, when DATE_START is truthy,
      the year `yearOf` reads from it (None when the date is invalid). */
  function HireYear(e: Employee, yearOf: string -> Option<int>): (y: Option<int>)
    ensures e.startYear.Some? ==> y == e.startYear
    ensures e.startYear.None? && !TruthyText(e.dateStart) ==> y.None?
    ensures e.startYear.None? && TruthyText(e.dateStart) ==> y == yearOf(e.dateStart.value)
  {
    if e.startYear.Some? then e.startYear
    else if TruthyText(e.dateStart) then yearOf(e.dateStart.value)
    else None
  }

  /** A row passes the hire-year filter when it has no hire year, or its year lies in the
      range, both ends included. */
  function InHireRange(range: YearRange, yearOf: string -> Option<int>): Employee -> bool {
    (e: Employee) => match HireYear(e, yearOf)
      case None => true
      case Some(y) => range.lo <= y <= range.hi
  }

  /** A row that both filters keep: of the chosen department type, and with no hire year
      or one inside the range. */
  predicate PassesFilters(e: Employee, t: string, range: YearRange, yearOf: string -> Option<int>) {
    && (t == "all" || e.departmentType == Some(t))
    && (HireYear(e, yearOf).Some? ==> range.lo <= HireYear(e, yearOf).value <= range.hi)
  }

  /** The filtered rows of the page (and, applied to the heatmap rows, the heatmap's). */
  function FilterEmployees(emps: seq<Employee>, t: string, range: YearRange, yearOf: string -> Option<int>): (r: seq<Employee>)
    ensures IsSubsequence(r, emps)
    ensures forall e :: e in emps && (t == "all" || e.departmentType == Some(t)) && HireYear(e, yearOf).None? ==> e in r
    ensures forall e :: e in r <==>
      && e in emps
      && (t == "all" || e.departmentType == Some(t))
      && (HireYear(e, yearOf).Some? ==> range.lo <= HireYear(e, yearOf).value <= range.hi)
    ensures forall e :: multiset(r)[e] == if PassesFilters(e, t, range, yearOf) then multiset(emps)[e] else 0
  {
    var byDepartment := DepartmentFilter(emps, t);
    var r := Filter(byDepartment, InHireRange(range, yearOf));
    SubsequenceReflexive(emps);
    FilterMembers(emps, DepartmentIs(t));
    FilterMembers(byDepartment, InHireRange(range, yearOf));
    FilterCounts(byDepartment, InHireRange(range, yearOf));
    FilterSubsequence(byDepartment, InHireRange(range, yearOf));
    SubsequenceTransitive(r, byDepartment, emps);
    r
  }

  // ---------------------------------------------------------------------------
  // Tenures and the five-bucket distribution

  function HasValidTenure(e: Employee): bool {
    TenureOr(e).Some? && TenureOr(e).value > 0.0
  }

  /** The tenures that count: the `||` tenure of each row when it is present and > 0. */
  function ValidTenures(emps: seq<Employee>): (ts: seq<real>)
    ensures |ts| == |Filter(emps, HasValidTenure)|
    ensures forall t :: t in ts ==> t > 0.0
    ensures forall t :: t in ts <==> exists e :: e in emps && TenureOr(e) == Some(t) && t > 0.0
    ensures ts == MapSeq(Filter(emps, HasValidTenure), TenureOrZero)
  {
    if emps == [] then []
    else
      var rest := ValidTenures(emps[1..]);
      assert forall e :: e in emps <==> e == emps[0] || e in emps[1..];
      if HasValidTenure(emps[0]) then
        var kept := Filter(emps[1..], HasValidTenure);
        assert Filter(emps, HasValidTenure) == [emps[0]] + kept;
        assert TenureOrZero(emps[0]) == TenureOr(emps[0]).value;
        assert MapSeq([emps[0]] + kept, TenureOrZero) == [TenureOrZero(emps[0])] + MapSeq(kept, TenureOrZero);
        [TenureOr(emps[0]).value] + rest
      else rest
  }

  datatype Distribution = Distribution(under1: nat, from1To3: nat, from3To5: nat, from5To10: nat, from10: nat) {
    function Total(): nat {
      under1 + from1To3 + from3To5 + from5To10 + from10
    }

    function Plus(d: Distribution): Distribution {
      Distribution(under1 + d.under1, from1To3 + d.from1To3, from3To5 + d.from3To5,
                   from5To10 + d.from5To10, from10 + d.from10)
    }
  }

  const NoTenures := Distribution(0, 0, 0, 0, 0)

  function Under1(t: real): bool { t < 1.0 }
  function From1To3(t: real): bool { t >= 1.0 && t < 3.0 }
  function From3To5(t: real): bool { t >= 3.0 && t < 5.0 }
  function From5To10(t: real): bool { t >= 5.0 && t < 10.0 }
  function From10(t: real): bool { t >= 10.0 }

  /** The client's distribution: one `filter(...).length` per bucket. */
  function FilterDistribution(ts: seq<real>): Distribution {
    Distribution(|Filter(ts, Under1)|, |Filter(ts, From1To3)|, |Filter(ts, From3To5)|,
                 |Filter(ts, From5To10)|, |Filter(ts, From10)|)
  }

  /** The bucket a tenure belongs to, 0 to 4, by half-open intervals [0,1), [1,3), [3,5),
      [5,10) and [10, infinity). */
  function BucketOf(t: real): (k: nat)
    ensures k <= 4
    ensures k == 0 <==> t < 1.0
    ensures k == 1 <==> 1.0 <= t < 3.0
    ensures k == 2 <==> 3.0 <= t < 5.0
    ensures k == 3 <==> 5.0 <= t < 10.0
    ensures k == 4 <==> 10.0 <= t
  {
    if t < 1.0 then 0 else if t < 3.0 then 1 else if t < 5.0 then 2 else if t < 10.0 then 3 else 4
  }

  /** A distribution holding one tenure, in bucket k. */
  function Single(k: nat): Distribution
    requires k <= 4
  {
    Distribution(if k == 0 then 1 else 0, if k == 1 then 1 else 0, if k == 2 then 1 else 0,
                 if k == 3 then 1 else 0, if k == 4 then 1 else 0)
  }

  lemma AppendCounts(ts: seq<real>, t: real)
    ensures |Filter(ts + [t], Under1)| == |Filter(ts, Under1)| + (if Under1(t) then 1 else 0)
    ensures |Filter(ts + [t], From1To3)| == |Filter(ts, From1To3)| + (if From1To3(t) then 1 else 0)
    ensures |Filter(ts + [t], From3To5)| == |Filter(ts, From3To5)| + (if From3To5(t) then 1 else 0)
    ensures |Filter(ts + [t], From5To10)| == |Filter(ts, From5To10)| + (if From5To10(t) then 1 else 0)
    ensures |Filter(ts + [t], From10)| == |Filter(ts, From10)| + (if From10(t) then 1 else 0)
  {
    FilterConcat(ts, [t], Under1);
    FilterConcat(ts, [t], From1To3);
    FilterConcat(ts, [t], From3To5);
    FilterConcat(ts, [t], From5To10);
    FilterConcat(ts, [t], From10);
  }

  /** One more tenure adds one to its bucket and nothing to the others. */
  lemma DistributionAppend(ts: seq<real>, t: real)
    ensures FilterDistribution(ts + [t]) == FilterDistribution(ts).Plus(Single(BucketOf(t)))
  {
    AppendCounts(ts, t);
  }

  /** The five buckets partition the tenures. */
  lemma {:induction false} DistributionPartitions(ts: seq<real>)
    ensures FilterDistribution(ts).Total() == |ts|
  {
    if ts != [] {
      var n := |ts|;
      assert ts == ts[..n - 1] + [ts[n - 1]];
      DistributionPartitions(ts[..n - 1]);
      DistributionAppend(ts[..n - 1], ts[n - 1]);
    }
  }

  /** Tenures of exactly 1, 3, 5 and 10 years are counted in the upper bucket. */
  lemma BoundariesGoUp()
    ensures FilterDistribution([1.0]) == Distribution(0, 1, 0, 0, 0)
    ensures FilterDistribution([3.0]) == Distribution(0, 0, 1, 0, 0)
    ensures FilterDistribution([5.0]) == Distribution(0, 0, 0, 1, 0)
    ensures FilterDistribution([10.0]) == Distribution(0, 0, 0, 0, 1)
  {
    SingleTenure(1.0);
    SingleTenure(3.0);
    SingleTenure(5.0);
    SingleTenure(10.0);
  }

  /** A single tenure is counted once, in the bucket of its interval. */
  lemma SingleTenure(t: real)
    ensures FilterDistribution([t]) == Single(BucketOf(t))
  {
    AppendCounts([], t);
    assert [] + [t] == [t];
  }

  // ---------------------------------------------------------------------------
  // Per-year grouping (a Map keyed by truthy DATE_RESIGN_YEAR, in insertion order)

  function ResignedIn(y: int): Employee -> bool {
    (e: Employee) => TruthyYear(e) == Some(y)
  }

  function HasTruthyYear(e: Employee): bool {
    TruthyYear(e).Some?
  }

  /** The distinct truthy resignation years, in order of first appearance. */
  function YearOrder(emps: seq<Employee>): (ys: seq<int>)
    ensures Distinct(ys)
    ensures forall y :: y in ys <==> exists e :: e in emps && TruthyYear(e) == Some(y)
  {
    if emps == [] then []
    else
      var n := |emps|;
      var init := YearOrder(emps[..n - 1]);
      assert forall e :: e in emps <==> e in emps[..n - 1] || e == emps[n - 1] by {
        assert emps == emps[..n - 1] + [emps[n - 1]];
      }
      match TruthyYear(emps[n - 1])
      case Some(y) => if y in init then init else init + [y]
      case None => init
  }

  /** The number of rows that resigned in year y. */
  function YearCount(emps: seq<Employee>, y: int): nat {
    |Filter(emps, ResignedIn(y))|
  }

  /** The sum of `TENURE_YEARS || YEARS_IN_OFFICE || EMPLOYEE_SENIORITY || 0` over `emps`. */
  function TenureSum(emps: seq<Employee>): real {
    if emps == [] then 0.0 else TenureSum(emps[..|emps| - 1]) + TenureOrZero(emps[|emps| - 1])
  }

  /** The total tenure of the rows that resigned in year y. */
  function YearTotal(emps: seq<Employee>, y: int): real {
    TenureSum(Filter(emps, ResignedIn(y)))
  }

  /** A Map entry: the year, its row count and its total tenure. */
  datatype YearGroup = YearGroup(year: int, count: nat, totalTenure: real)

  function GroupOf(emps: seq<Employee>): int -> YearGroup {
    (y: int) => YearGroup(y, YearCount(emps, y), YearTotal(emps, y))
  }

  /** `Array.from(yearlyStatsMap.values())`: one group per truthy year, in insertion order. */
  function Groups(emps: seq<Employee>): seq<YearGroup> {
    MapSeq(YearOrder(emps), GroupOf(emps))
  }

  lemma CountStep(emps: seq<Employee>, i: nat, y: int)
    requires i < |emps|
    ensures YearCount(emps[..i + 1], y) == YearCount(emps[..i], y) + (if TruthyYear(emps[i]) == Some(y) then 1 else 0)
    ensures YearTotal(emps[..i + 1], y) == YearTotal(emps[..i], y) + (if TruthyYear(emps[i]) == Some(y) then TenureOrZero(emps[i]) else 0.0)
  {
    assert emps[..i + 1] == emps[..i] + [emps[i]];
    FilterConcat(emps[..i], [emps[i]], ResignedIn(y));
    var f := Filter(emps[..i], ResignedIn(y));
    if TruthyYear(emps[i]) == Some(y) {
      assert (f + [emps[i]])[..|f|] == f;
    } else {
      assert f + [] == f;
    }
  }

  lemma AbsentYear(emps: seq<Employee>, y: int)
    requires y !in YearOrder(emps)
    ensures Filter(emps, ResignedIn(y)) == []
  {
    FilterNone(emps, ResignedIn(y));
  }

  /** A row added to its year's group. */
  function AddRow(g: YearGroup, e: Employee): YearGroup {
    YearGroup(g.year, g.count + 1, g.totalTenure + TenureOrZero(e))
  }

  lemma GroupStep(emps: seq<Employee>, i: nat, y: int)
    requires i < |emps|
    ensures GroupOf(emps[..i + 1])(y) ==
      if TruthyYear(emps[i]) == Some(y) then AddRow(GroupOf(emps[..i])(y), emps[i]) else GroupOf(emps[..i])(y)
  {
    CountStep(emps, i, y);
  }

  lemma YearOrderStep(emps: seq<Employee>, i: nat)
    requires i < |emps|
    ensures YearOrder(emps[..i + 1]) ==
      match TruthyYear(emps[i])
      case Some(y) => if y in YearOrder(emps[..i]) then YearOrder(emps[..i]) else YearOrder(emps[..i]) + [y]
      case None => YearOrder(emps[..i])
  {
    assert emps[..i + 1][..i] == emps[..i];
  }

  /** The `forEach` that fills `yearlyStatsMap`: each row with a truthy year adds one to
      its year's count and its tenure (0 when missing) to its year's total. */
  method GroupByYear(emps: seq<Employee>) returns (groups: seq<YearGroup>)
    ensures groups == Groups(emps)
  {
    var stats: map<int, YearGroup> := map[];
    var order: seq<int> := [];
    for i := 0 to |emps|
      invariant order == YearOrder(emps[..i])
      invariant forall y :: y in stats <==> y in order
      invariant forall y :: y in stats ==> stats[y] == GroupOf(emps[..i])(y)
    {
      YearOrderStep(emps, i);
      var e := emps[i];
      var year := TruthyYear(e);
      if year.Some? {
        var y := year.value;
        if y !in stats {
          AbsentYear(emps[..i], y);
          stats := stats[y := YearGroup(y, 0, 0.0)];
          order := order + [y];
        }
        stats := stats[y := AddRow(stats[y], e)];
      }
      forall y ensures GroupOf(emps[..i + 1])(y) ==
        if TruthyYear(e) == Some(y) then AddRow(GroupOf(emps[..i])(y), e) else GroupOf(emps[..i])(y)
      {
        GroupStep(emps, i, y);
      }
    }
    assert emps[..|emps|] == emps;
    forall k | 0 <= k < |order| ensures order[k] in stats {
      assert order[k] in order;
    }
    groups := seq(|order|, k requires 0 <= k < |order| => stats[order[k]]);
  }

  /** The sum of `c(y)` over the years of `ys`. */
  function SumOver(ys: seq<int>, c: int -> nat): nat {
    if ys == [] then 0 else SumOver(ys[..|ys| - 1], c) + c(ys[|ys| - 1])
  }

  lemma {:induction false} SumOverBump(ys: seq<int>, c: int -> nat, d: int -> nat, y0: int)
    requires Distinct(ys)
    requires forall y :: d(y) == c(y) + (if y == y0 then 1 else 0)
    ensures SumOver(ys, d) == SumOver(ys, c) + (if y0 in ys then 1 else 0)
  {
    if ys != [] {
      var n := |ys|;
      assert ys == ys[..n - 1] + [ys[n - 1]];
      SumOverBump(ys[..n - 1], c, d, y0);
      assert y0 in ys <==> y0 in ys[..n - 1] || y0 == ys[n - 1];
      if y0 == ys[n - 1] {
        assert y0 !in ys[..n - 1];
      }
    }
  }

  lemma {:induction false} SumOverSame(ys: seq<int>, c: int -> nat, d: int -> nat)
    requires forall k :: 0 <= k < |ys| ==> d(ys[k]) == c(ys[k])
    ensures SumOver(ys, d) == SumOver(ys, c)
  {
    if ys != [] {
      var n := |ys|;
      assert forall k :: 0 <= k < n - 1 ==> ys[..n - 1][k] == ys[k];
      SumOverSame(ys[..n - 1], c, d);
    }
  }

  function CountOf(emps: seq<Employee>): int -> nat {
    (y: int) => YearCount(emps, y)
  }

  /** Over all truthy years, the per-year counts add up to the rows with a truthy year. */
  lemma {:induction false} YearCountsAddUp(emps: seq<Employee>)
    ensures SumOver(YearOrder(emps), CountOf(emps)) == |Filter(emps, HasTruthyYear)|
  {
    if emps != [] {
      var n := |emps|;
      var init, e := emps[..n - 1], emps[n - 1];
      assert emps == init + [e];
      YearCountsAddUp(init);
      FilterConcat(init, [e], HasTruthyYear);
      forall y ensures YearCount(emps, y) == YearCount(init, y) + (if TruthyYear(e) == Some(y) then 1 else 0) {
        CountStep(emps, n - 1, y);
        assert emps[..n] == emps;
      }
      var ys := YearOrder(init);
      match TruthyYear(e)
      case None =>
        SumOverSame(ys, CountOf(init), CountOf(emps));
      case Some(y0) =>
        SumOverBump(ys, CountOf(init), CountOf(emps), y0);
        if y0 !in ys {
          AbsentYear(init, y0);
          assert (ys + [y0])[..|ys|] == ys;
        }
    }
  }

  // ---------------------------------------------------------------------------
  // The per-year summary and the statistics object

  /** One element of `yearlyStats`. */
  datatype YearStat = YearStat(year: int, count: nat, averageTenure: real)

  /** The client's summary of a group: the average rounded to two decimals. */
  function ClientYearStat(g: YearGroup): YearStat {
    YearStat(g.year, g.count, if g.count > 0 then Round2(g.totalTenure / g.count as real) else 0.0)
  }

  /** `sort((a, b) => a.year - b.year)`. */
  function YearLess(a: YearStat, b: YearStat): bool {
    a.year < b.year
  }

  /** The sum of the counts of a summary. */
  function SumCounts(s: seq<YearStat>): nat {
    if s == [] then 0 else s[0].count + SumCounts(s[1..])
  }

  lemma {:induction false} SumCountsAppend(s: seq<YearStat>, x: YearStat)
    ensures SumCounts(s + [x]) == SumCounts(s) + x.count
  {
    if s != [] {
      assert (s + [x])[1..] == s[1..] + [x];
      SumCountsAppend(s[1..], x);
    }
  }

  lemma {:induction false} SumCountsInsert(x: YearStat, s: seq<YearStat>)
    ensures SumCounts(Insert(x, s, YearLess)) == x.count + SumCounts(s)
  {
    if s != [] && !YearLess(x, s[0]) {
      SumCountsInsert(x, s[1..]);
      assert ([s[0]] + Insert(x, s[1..], YearLess))[1..] == Insert(x, s[1..], YearLess);
    }
  }

  /** Sorting leaves the sum of the counts unchanged. */
  lemma {:induction false} SumCountsSort(s: seq<YearStat>)
    ensures SumCounts(SortBy(s, YearLess)) == SumCounts(s)
  {
    if s != [] {
      var n := |s|;
      SumCountsSort(s[..n - 1]);
      SumCountsInsert(s[n - 1], SortBy(s[..n - 1], YearLess));
      SumCountsAppend(s[..n - 1], s[n - 1]);
      assert s[..n - 1] + [s[n - 1]] == s;
    }
  }

  /** A summary of the groups keeps the year and the count of each. */
  ghost predicate KeepsYearAndCount(f: YearGroup -> YearStat) {
    forall g :: f(g).year == g.year && f(g).count == g.count
  }

  lemma {:induction false} SumCountsOfGroups(ys: seq<int>, emps: seq<Employee>, f: YearGroup -> YearStat)
    requires KeepsYearAndCount(f)
    ensures SumCounts(MapSeq(MapSeq(ys, GroupOf(emps)), f)) == SumOver(ys, CountOf(emps))
  {
    if ys != [] {
      var n := |ys|;
      var m := MapSeq(MapSeq(ys, GroupOf(emps)), f);
      assert m == MapSeq(MapSeq(ys[..n - 1], GroupOf(emps)), f) + [f(GroupOf(emps)(ys[n - 1]))];
      SumCountsOfGroups(ys[..n - 1], emps, f);
      SumCountsAppend(MapSeq(MapSeq(ys[..n - 1], GroupOf(emps)), f), f(GroupOf(emps)(ys[n - 1])));
    }
  }

  /** Two entries of a summary never share a year. */
  predicate DistinctYears(s: seq<YearStat>) {
    forall i, j :: 0 <= i < j < |s| ==> s[i].year != s[j].year
  }

  lemma DistinctYearsDistinct(s: seq<YearStat>)
    requires DistinctYears(s)
    ensures Distinct(s)
  {
  }

  lemma PermutationDistinctYears(s: seq<YearStat>, r: seq<YearStat>)
    requires multiset(s) == multiset(r) && DistinctYears(s)
    ensures DistinctYears(r)
  {
    DistinctYearsDistinct(s);
    PermutationDistinct(s, r);
    forall i, j | 0 <= i < j < |r| ensures r[i].year != r[j].year {
      assert r[i] in multiset(s) && r[j] in multiset(s);
      var a :| 0 <= a < |s| && s[a] == r[i];
      var b :| 0 <= b < |s| && s[b] == r[j];
      assert a != b;
    }
  }

  /** Sorting a summary with distinct years by year: strictly ascending years, the same
      entries, the same total count. */
  lemma SortSummary(m: seq<YearStat>)
    requires DistinctYears(m)
    ensures var r := SortBy(m, YearLess);
      && (forall i, j :: 0 <= i < j < |r| ==> r[i].year < r[j].year)
      && (forall x :: x in r <==> x in m)
      && SumCounts(r) == SumCounts(m)
  {
    var r := SortBy(m, YearLess);
    SortBySorted(m, YearLess);
    PermutationDistinctYears(m, r);
    forall x ensures x in r <==> x in m {
      assert x in r <==> x in multiset(r);
      assert x in m <==> x in multiset(m);
    }
    SumCountsSort(m);
  }

  /** The unsorted summary: the k-th entry is the k-th year of first appearance, with
      that year's row count, which is at least 1. */
  lemma {:induction false} GroupsSummary(emps: seq<Employee>, f: YearGroup -> YearStat)
    requires KeepsYearAndCount(f)
    ensures var m, ys := MapSeq(Groups(emps), f), YearOrder(emps);
      && |m| == |ys|
      && (forall k :: 0 <= k < |m| ==> m[k].year == ys[k] && m[k].count == CountOf(emps)(ys[k]) >= 1)
      && DistinctYears(m)
  {
    var m, ys := MapSeq(Groups(emps), f), YearOrder(emps);
    FilterMembers(emps, HasTruthyYear);
    forall k | 0 <= k < |m| ensures m[k].year == ys[k] && m[k].count == CountOf(emps)(ys[k]) >= 1 {
      assert m[k] == f(GroupOf(emps)(ys[k]));
      assert ys[k] in ys;
      var e :| e in emps && TruthyYear(e) == Some(ys[k]);
      FilterMembers(emps, ResignedIn(ys[k]));
      assert e in Filter(emps, ResignedIn(ys[k]));
    }
  }

  lemma SummaryEntries(m: seq<YearStat>, r: seq<YearStat>, ys: seq<int>, counts: int -> nat)
    requires |m| == |ys|
    requires forall k :: 0 <= k < |m| ==> m[k].year == ys[k] && m[k].count == counts(ys[k]) >= 1
    requires forall x :: x in r <==> x in m
    ensures forall y :: (exists k :: 0 <= k < |r| && r[k].year == y) <==> y in ys
    ensures forall k :: 0 <= k < |r| ==> r[k].count == counts(r[k].year) >= 1
  {
    forall y ensures (exists k :: 0 <= k < |r| && r[k].year == y) <==> y in ys {
      if y in ys {
        var i :| 0 <= i < |ys| && ys[i] == y;
        assert m[i] in r;
      }
      if exists k :: 0 <= k < |r| && r[k].year == y {
        var k :| 0 <= k < |r| && r[k].year == y;
        assert r[k] in m;
      }
    }
    forall k | 0 <= k < |r| ensures r[k].count == counts(r[k].year) >= 1 {
      assert r[k] in m;
    }
  }

  /** What the source promises of `yearlyStats`, for any summary that keeps the year and
      the count of each group: one entry per distinct truthy year, strictly ascending,
      each with the number of rows of its year, and counts that add up to the rows with a
      truthy year. */
  lemma {:induction false} YearlySummary(emps: seq<Employee>, f: YearGroup -> YearStat)
    requires KeepsYearAndCount(f)
    ensures var r := SortBy(MapSeq(Groups(emps), f), YearLess);
      && (forall i, j :: 0 <= i < j < |r| ==> r[i].year < r[j].year)
      && (forall y :: (exists k :: 0 <= k < |r| && r[k].year == y) <==> y in YearOrder(emps))
      && (forall k :: 0 <= k < |r| ==> r[k].count == CountOf(emps)(r[k].year) >= 1)
      && SumCounts(r) == |Filter(emps, HasTruthyYear)|
  {
    var ys := YearOrder(emps);
    var m := MapSeq(Groups(emps), f);
    var r := SortBy(m, YearLess);
    GroupsSummary(emps, f);
    SortSummary(m);
    SummaryEntries(m, r, ys, CountOf(emps));
    SumCountsOfGroups(ys, emps, f);
    YearCountsAddUp(emps);
  }

  /** The statistics object of the page. */
  datatype Statistics = Statistics(
    totalCount: nat,
    averageTenure: real,
    maxTenure: real,
    minTenure: real,
    tenureDistribution: Distribution,
    yearlyStats: seq<YearStat>)

  const ZeroStatistics := Statistics(0, 0.0, 0.0, 0.0, NoTenures, [])

  /** `yearlyStats` as the client builds it. */
  function ClientYearly(emps: seq<Employee>): seq<YearStat> {
    SortBy(MapSeq(Groups(emps), ClientYearStat), YearLess)
  }

  /** After rounding to two decimals the mean still lies between the minimum and the maximum. */
  lemma RoundedMeanBetween(ts: seq<real>)
    requires ts != []
    ensures Round2(Min(ts)) <= Round2(Mean(ts)) <= Round2(Max(ts))
  {
    MeanBetweenMinAndMax(ts);
    Round2Monotone(Min(ts), Mean(ts));
    Round2Monotone(Mean(ts), Max(ts));
  }

  /** The statistics of a non-empty row set with tenures `ts` and per-year summary
      `yearly`: tenure average, maximum and minimum rounded to two decimals, 0 when there
      is no valid tenure. */
  function Summarize(count: nat, ts: seq<real>, yearly: seq<YearStat>): Statistics {
    if ts == [] then Statistics(count, 0.0, 0.0, 0.0, FilterDistribution(ts), yearly)
    else Statistics(count, Round2(Mean(ts)), Round2(Max(ts)), Round2(Min(ts)), FilterDistribution(ts), yearly)
  }

  /** The rounded minimum, average and maximum are ordered, and the five buckets count
      every valid tenure once. */
  lemma SummarizeBounds(count: nat, ts: seq<real>, yearly: seq<YearStat>)
    ensures var s := Summarize(count, ts, yearly);
      && s.minTenure <= s.averageTenure <= s.maxTenure
      && s.tenureDistribution.Total() == |ts|
  {
    DistributionPartitions(ts);
    if ts != [] {
      RoundedMeanBetween(ts);
    }
  }

  /** The client's statistics of the filtered rows. */
  function ClientStatisticsOf(emps: seq<Employee>): (s: Statistics)
    ensures emps == [] ==> s == ZeroStatistics
    ensures emps != [] ==> s == Summarize(|emps|, ValidTenures(emps), ClientYearly(emps))
  {
    if emps == [] then ZeroStatistics
    else Summarize(|emps|, ValidTenures(emps), ClientYearly(emps))
  }

  /** `totalCount` is the number of filtered rows; average, maximum and minimum are taken
      over the valid tenures only, are 0 when there is none, and are ordered; the five
      buckets count each valid tenure once. */
  lemma ClientStatisticsFacts(emps: seq<Employee>)
    ensures var s, ts := ClientStatisticsOf(emps), ValidTenures(emps);
      && s.totalCount == |emps|
      && s.minTenure <= s.averageTenure <= s.maxTenure
      && (ts == [] ==> s.averageTenure == s.maxTenure == s.minTenure == 0.0)
      && (ts != [] ==> s.averageTenure == Round2(Mean(ts)) && s.maxTenure == Round2(Max(ts)) && s.minTenure == Round2(Min(ts)))
      && s.tenureDistribution.Total() == |ts|
  {
    if emps != [] {
      SummarizeBounds(|emps|, ValidTenures(emps), ClientYearly(emps));
    }
  }

  /** The `statistics` memo: the grouping loop, then the summary sorted by year. */
  method ClientStatistics(emps: seq<Employee>) returns (s: Statistics)
    ensures s == ClientStatisticsOf(emps)
  {
    if emps == [] {
      return ZeroStatistics;
    }
    var groups := GroupByYear(emps);
    var yearly := SortBy(MapSeq(groups, ClientYearStat), YearLess);
    s := Summarize(|emps|, ValidTenures(emps), yearly);
  }

  /** The client's `yearlyStats`: one entry per distinct truthy year, ascending, with the
      rows of that year counted (a missing tenure counts and adds 0 to the total). */
  lemma ClientYearlySummary(emps: seq<Employee>)
    ensures var r := ClientYearly(emps);
      && (forall i, j :: 0 <= i < j < |r| ==> r[i].year < r[j].year)
      && (forall y :: (exists k :: 0 <= k < |r| && r[k].year == y) <==> exists e :: e in emps && TruthyYear(e) == Some(y))
      && (forall k :: 0 <= k < |r| ==> r[k].count == YearCount(emps, r[k].year) >= 1)
      && SumCounts(r) == |Filter(emps, HasTruthyYear)|
  {
    YearlySummary(emps, ClientYearStat);
  }

  /** A row with a truthy year and no tenure is counted in its year and adds 0 to the
      year's total. */
  lemma MissingTenureCounted(emps: seq<Employee>, e: Employee, y: int)
    requires TruthyYear(e) == Some(y) && TenureOrZero(e) == 0.0
    ensures YearCount(emps + [e], y) == YearCount(emps, y) + 1
    ensures YearTotal(emps + [e], y) == YearTotal(emps, y)
  {
    CountStep(emps + [e], |emps|, y);
    assert (emps + [e])[..|emps|] == emps && (emps + [e])[..|emps| + 1] == emps + [e];
  }
}
