/** The three charts of the analysis page: the bar chart of the five tenure buckets, the
    line of yearly average tenures, and the bars of resignations per year stacked by
    tenure range. */
module TenureCharts {
  import opened Common
  import opened Numeric
  import opened Employees
  import opened ResignedAnalysisClient
  import ResignedAnalysisRoute

  // ---------------------------------------------------------------------------
  // The distribution bar chart

  /** The tenures of bucket `k` (0 to 4). */
  function BucketIs(k: nat): real -> bool {
    (t: real) => BucketOf(t) == k
  }

  /** The bar values: the buckets 0-1, 1-3, 3-5, 5-10 and 10+ in that order; no chart
      without statistics. */
  function BarValues(stats: Option<Statistics>): (r: Option<seq<nat>>)
    ensures r.None? <==> stats.None?
    ensures r.Some? ==> |r.value| == 5
    ensures r.Some? ==> r.value[0] + r.value[1] + r.value[2] + r.value[3] + r.value[4] == stats.value.tenureDistribution.Total()
  {
    match stats
    case None => None
    case Some(s) =>
      var d := s.tenureDistribution;
      Some([d.under1, d.from1To3, d.from3To5, d.from5To10, d.from10])
  }

  lemma BucketPredicates(ts: seq<real>)
    ensures Filter(ts, Under1) == Filter(ts, BucketIs(0))
    ensures Filter(ts, From1To3) == Filter(ts, BucketIs(1))
    ensures Filter(ts, From3To5) == Filter(ts, BucketIs(2))
    ensures Filter(ts, From5To10) == Filter(ts, BucketIs(3))
    ensures Filter(ts, From10) == Filter(ts, BucketIs(4))
  {
    FilterSamePredicate(ts, Under1, BucketIs(0));
    FilterSamePredicate(ts, From1To3, BucketIs(1));
    FilterSamePredicate(ts, From3To5, BucketIs(2));
    FilterSamePredicate(ts, From5To10, BucketIs(3));
    FilterSamePredicate(ts, From10, BucketIs(4));
  }

  /** With the distribution of tenures `ts`, bar k counts the tenures of the k-th
      interval, and the bars together count every tenure once. */
  lemma BarsCountBuckets(stats: Statistics, ts: seq<real>)
    requires stats.tenureDistribution == FilterDistribution(ts)
    ensures forall k :: 0 <= k < 5 ==> BarValues(Some(stats)).value[k] == |Filter(ts, BucketIs(k))|
    ensures BarValues(Some(stats)).value[0] + BarValues(Some(stats)).value[1] + BarValues(Some(stats)).value[2] +
            BarValues(Some(stats)).value[3] + BarValues(Some(stats)).value[4] == |ts|
  {
    var r := BarValues(Some(stats)).value;
    var d := stats.tenureDistribution;
    assert r == [d.under1, d.from1To3, d.from3To5, d.from5To10, d.from10];
    BucketPredicates(ts);
    DistributionPartitions(ts);
    forall k | 0 <= k < 5 ensures r[k] == |Filter(ts, BucketIs(k))| {
      if k == 0 {
        assert r[k] == |Filter(ts, Under1)|;
      } else if k == 1 {
        assert r[k] == |Filter(ts, From1To3)|;
      } else if k == 2 {
        assert r[k] == |Filter(ts, From3To5)|;
      } else if k == 3 {
        assert r[k] == |Filter(ts, From5To10)|;
      } else {
        assert r[k] == |Filter(ts, From10)|;
      }
    }
  }

  /** The page's distribution is that of the valid tenures, also for no rows. */
  lemma PageDistribution(emps: seq<Employee>)
    ensures ClientStatisticsOf(emps).tenureDistribution == FilterDistribution(ValidTenures(emps))
  {
    if emps == [] {
      assert ValidTenures(emps) == [];
    }
  }

  // ---------------------------------------------------------------------------
  // The yearly average line

  /** One point of the line: the year of the category label and the plotted average. */
  datatype TrendPoint = TrendPoint(year: int, average: real)

  function TrendPointOf(s: YearStat): TrendPoint {
    TrendPoint(s.year, Round2(s.averageTenure))
  }

  /** The line: no chart without statistics or without years; otherwise one point per
      entry of `yearlyStats`, in its order, the average rounded to two decimals: the
      whole number of hundredths within half a hundredth of it, halves going up. */
  function Trend(stats: Option<Statistics>): (r: Option<seq<TrendPoint>>)
    ensures r.None? <==> stats.None? || stats.value.yearlyStats == []
    ensures r.Some? ==> |r.value| == |stats.value.yearlyStats|
    ensures r.Some? ==> forall k :: 0 <= k < |r.value| ==>
      && r.value[k].year == stats.value.yearlyStats[k].year
      && stats.value.yearlyStats[k].averageTenure - 0.005 < r.value[k].average <= stats.value.yearlyStats[k].averageTenure + 0.005
      && r.value[k].average * 100.0 == (r.value[k].average * 100.0).Floor as real
  {
    if stats.None? || stats.value.yearlyStats == [] then None
    else
      var ys := stats.value.yearlyStats;
      forall k | 0 <= k < |ys|
        ensures ys[k].averageTenure - 0.005 < Round2(ys[k].averageTenure) <= ys[k].averageTenure + 0.005
        ensures Round2(ys[k].averageTenure) * 100.0 == (Round2(ys[k].averageTenure) * 100.0).Floor as real
      {
        Round2Close(ys[k].averageTenure);
        Round2Hundredths(ys[k].averageTenure);
      }
      Some(MapSeq(ys, TrendPointOf))
  }

  /** On the page's statistics the line shows the per-year averages unchanged (they are
      already rounded) and its years ascend. */
  lemma TrendOfPage(emps: seq<Employee>)
    requires emps != [] && Trend(Some(ClientStatisticsOf(emps))).Some?
    ensures var r, ys := Trend(Some(ClientStatisticsOf(emps))).value, ClientYearly(emps);
      && (forall k :: 0 <= k < |r| ==> r[k] == TrendPoint(ys[k].year, ys[k].averageTenure))
      && (forall i, j :: 0 <= i < j < |r| ==> r[i].year < r[j].year)
  {
    var ys := ClientYearly(emps);
    ClientYearlySummary(emps);
    RoundedClientAverages(emps);
  }

  /** Every per-year average of the page is already a rounded value. */
  lemma RoundedClientAverages(emps: seq<Employee>)
    ensures forall k :: 0 <= k < |ClientYearly(emps)| ==>
      Round2(ClientYearly(emps)[k].averageTenure) == ClientYearly(emps)[k].averageTenure
  {
    var g := Groups(emps);
    var m := MapSeq(g, ClientYearStat);
    var ys := ClientYearly(emps);
    forall k | 0 <= k < |ys| ensures Round2(ys[k].averageTenure) == ys[k].averageTenure {
      assert ys[k] in multiset(m);
      var i :| 0 <= i < |m| && m[i] == ys[k];
      assert m[i] == ClientYearStat(g[i]);
      if g[i].count > 0 {
        Round2Idempotent(g[i].totalTenure / g[i].count as real);
      } else {
        assert Round2(0.0) == 0.0;
      }
    }
  }

  /** Fed the route's statistics of the same rows, the line is the same as with the page's. */
  lemma TrendSameForRoute(rows: seq<Employee>)
    requires rows != []
    ensures Trend(Some(ClientStatisticsOf(rows))) == Trend(Some(ResignedAnalysisRoute.RouteStatisticsOf(rows)))
  {
    var ry := ResignedAnalysisRoute.RouteYearly(rows);
    var cy := MapSeq(ry, ResignedAnalysisRoute.RoundAverage);
    ResignedAnalysisRoute.ClientMatchesRoute(rows);
    assert ClientStatisticsOf(rows).yearlyStats == cy;
    assert ResignedAnalysisRoute.RouteStatisticsOf(rows).yearlyStats == ry;
    if ry != [] {
      forall k | 0 <= k < |ry| ensures TrendPointOf(cy[k]) == TrendPointOf(ry[k]) {
        Round2Idempotent(ry[k].averageTenure);
      }
      assert MapSeq(cy, TrendPointOf) == MapSeq(ry, TrendPointOf);
    }
  }

  // ---------------------------------------------------------------------------
  // The stacked resignation counts

  /** A tenure range `[min, max)`; no `max` stands for Infinity. */
  datatype TenureRange = TenureRange(min: real, max: Option<real>)

  const TenureRanges: seq<TenureRange> := [
    TenureRange(0.0, Some(1.0)),
    TenureRange(1.0, Some(3.0)),
    TenureRange(3.0, Some(5.0)),
    TenureRange(5.0, Some(10.0)),
    TenureRange(10.0, None)]

  predicate InRange(r: TenureRange, t: real) {
    match r.max
    case None => t >= r.min
    case Some(m) => t >= r.min && t < m
  }

  /** A row counted in range `r` of year `y`: `DATE_RESIGN_YEAR === y` and its
      `TENURE_YEARS || YEARS_IN_OFFICE || EMPLOYEE_SENIORITY || 0` in the range. */
  function InSeries(r: TenureRange, y: int): Employee -> bool {
    (e: Employee) => e.resignYear == Some(y) && InRange(r, TenureOrZero(e))
  }

  function SeriesCount(emps: seq<Employee>, r: TenureRange, y: int): nat {
    |Filter(emps, InSeries(r, y))|
  }

  /** A row of year `y` whose tenure lands in some range. */
  function CountedIn(y: int): Employee -> bool {
    (e: Employee) => e.resignYear == Some(y) && TenureOrZero(e) >= 0.0
  }

  /** The data of the five series: no chart without years or without rows; otherwise
      series k holds, for each entry of `yearlyStats` in order, the number of rows of that
      year in the k-th range. */
  function SeriesData(stats: Option<Statistics>, emps: seq<Employee>): (r: Option<seq<seq<nat>>>)
    ensures r.None? <==> stats.None? || stats.value.yearlyStats == [] || emps == []
    ensures r.Some? ==> |r.value| == 5 && forall k :: 0 <= k < 5 ==>
      |r.value[k]| == |stats.value.yearlyStats| &&
      forall i :: 0 <= i < |r.value[k]| ==> r.value[k][i] == SeriesCount(emps, TenureRanges[k], stats.value.yearlyStats[i].year)
  {
    if stats.None? || stats.value.yearlyStats == [] || emps == [] then None
    else
      var ys := stats.value.yearlyStats;
      Some(MapSeq(TenureRanges, (r: TenureRange) => MapSeq(ys, (s: YearStat) => SeriesCount(emps, r, s.year))))
  }

  /** The ranges are disjoint and together hold exactly the tenures that are not negative. */
  lemma RangesPartition(t: real)
    ensures forall j, k :: 0 <= j < k < 5 ==> !(InRange(TenureRanges[j], t) && InRange(TenureRanges[k], t))
    ensures t >= 0.0 <==> exists k :: 0 <= k < 5 && InRange(TenureRanges[k], t)
  {
    if t >= 0.0 {
      assert InRange(TenureRanges[BucketOf(t)], t);
    }
  }

  /** For every year the five counts add up to the rows of that year whose tenure is not
      negative. */
  lemma {:induction false} SeriesAddUp(emps: seq<Employee>, y: int)
    ensures SeriesCount(emps, TenureRanges[0], y) + SeriesCount(emps, TenureRanges[1], y) +
            SeriesCount(emps, TenureRanges[2], y) + SeriesCount(emps, TenureRanges[3], y) +
            SeriesCount(emps, TenureRanges[4], y) == |Filter(emps, CountedIn(y))|
  {
    if emps != [] {
      SeriesAddUp(emps[1..], y);
      RangesPartition(TenureOrZero(emps[0]));
    }
  }

  /** The height of the stack at year index `i`. */
  function StackHeight(series: seq<seq<nat>>, i: nat): nat
    requires |series| == 5 && forall k :: 0 <= k < 5 ==> i < |series[k]|
  {
    series[0][i] + series[1][i] + series[2][i] + series[3][i] + series[4][i]
  }

  /** Each stack counts the rows of its year whose tenure is not negative. */
  lemma StackHeights(stats: Option<Statistics>, emps: seq<Employee>)
    requires SeriesData(stats, emps).Some?
    ensures forall i :: 0 <= i < |stats.value.yearlyStats| ==>
      StackHeight(SeriesData(stats, emps).value, i) == |Filter(emps, CountedIn(stats.value.yearlyStats[i].year))|
  {
    var r, ys := SeriesData(stats, emps).value, stats.value.yearlyStats;
    forall i | 0 <= i < |ys|
      ensures StackHeight(r, i) == |Filter(emps, CountedIn(ys[i].year))|
    {
      SeriesAddUp(emps, ys[i].year);
    }
  }

  /** The rows of a truthy year with a tenure that is not negative are at most the rows of
      that year, and all of them when no tenure is negative. */
  lemma CountedWithinYear(emps: seq<Employee>, y: int)
    requires y != 0
    ensures |Filter(emps, CountedIn(y))| <= YearCount(emps, y)
    ensures (forall e :: e in emps ==> TenureOrZero(e) >= 0.0) ==> |Filter(emps, CountedIn(y))| == YearCount(emps, y)
  {
    FilterWeakerLength(emps, CountedIn(y), ResignedIn(y));
    if forall e :: e in emps ==> TenureOrZero(e) >= 0.0 {
      FilterSamePredicate(emps, CountedIn(y), ResignedIn(y));
    }
  }

  /** When every entry of `yearlyStats` has a truthy year and counts the rows of that
      year, a stack is at most that count, and all of it when no tenure is negative. */
  lemma StacksWithinCounts(stats: Option<Statistics>, emps: seq<Employee>)
    requires SeriesData(stats, emps).Some?
    requires forall i :: 0 <= i < |stats.value.yearlyStats| ==>
      stats.value.yearlyStats[i].year != 0 && stats.value.yearlyStats[i].count == YearCount(emps, stats.value.yearlyStats[i].year)
    ensures forall i :: 0 <= i < |stats.value.yearlyStats| ==>
      StackHeight(SeriesData(stats, emps).value, i) <= stats.value.yearlyStats[i].count
    ensures (forall e :: e in emps ==> TenureOrZero(e) >= 0.0) ==>
      forall i :: 0 <= i < |stats.value.yearlyStats| ==>
        StackHeight(SeriesData(stats, emps).value, i) == stats.value.yearlyStats[i].count
  {
    var ys := stats.value.yearlyStats;
    StackHeights(stats, emps);
    forall i | 0 <= i < |ys|
      ensures |Filter(emps, CountedIn(ys[i].year))| <= ys[i].count
      ensures (forall e :: e in emps ==> TenureOrZero(e) >= 0.0) ==> |Filter(emps, CountedIn(ys[i].year))| == ys[i].count
    {
      CountedWithinYear(emps, ys[i].year);
    }
  }

  /** On the page's own statistics a stack is at most the count of its year, and all of
      it when no tenure is negative. */
  lemma StackedCounts(emps: seq<Employee>)
    requires SeriesData(Some(ClientStatisticsOf(emps)), emps).Some?
    ensures forall i :: 0 <= i < |ClientYearly(emps)| ==>
      StackHeight(SeriesData(Some(ClientStatisticsOf(emps)), emps).value, i) <= ClientYearly(emps)[i].count
    ensures (forall e :: e in emps ==> TenureOrZero(e) >= 0.0) ==>
      forall i :: 0 <= i < |ClientYearly(emps)| ==>
        StackHeight(SeriesData(Some(ClientStatisticsOf(emps)), emps).value, i) == ClientYearly(emps)[i].count
  {
    var stats := Some(ClientStatisticsOf(emps));
    var ys := ClientYearly(emps);
    assert stats.value.yearlyStats == ys;
    ClientYearlySummary(emps);
    forall i | 0 <= i < |ys| ensures ys[i].year != 0 && ys[i].count == YearCount(emps, ys[i].year) {
      assert exists k :: 0 <= k < |ys| && ys[k].year == ys[i].year;
      var w :| w in emps && TruthyYear(w) == Some(ys[i].year);
    }
    StacksWithinCounts(stats, emps);
  }

  /** A row of year `y` with no tenure at all is counted in the 0-1 range of that year,
      though it is not a valid tenure of the distribution. */
  lemma MissingTenureInFirstRange(e: Employee, y: int)
    requires e.resignYear == Some(y) && !TruthyNum(TenureOr(e))
    ensures InSeries(TenureRanges[0], y)(e)
    ensures !HasValidTenure(e)
  {
  }
}
