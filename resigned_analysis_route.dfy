/** The GET handler of the resigned-analysis API: the same statistics as the page,
    computed on the server from all rows, with an if/else bucket count and a per-year
    average that is not rounded. */
module ResignedAnalysisRoute {
  import opened Common
  import opened Numeric
  import opened Employees
  import opened ResignedAnalysisClient

  /** What the database call yields: the rows (None for a null result), or the message of
      the error it threw. */
  datatype QueryResult = Rows(rows: Option<seq<Employee>>) | Failed(message: string)

  /** The JSON response: the statistics and the rows, or status 500 with an error body. */
  datatype Response =
    | Ok(statistics: Statistics, employees: seq<Employee>)
    | ServerError(status: nat, error: string, message: string)

  const QueryFailed := "資料庫查詢失敗"

  /** The `forEach` with the if/else chain: every tenure adds one to exactly one counter. */
  method BucketCounts(ts: seq<real>) returns (d: Distribution)
    ensures d == FilterDistribution(ts)
  {
    d := NoTenures;
    for i := 0 to |ts|
      invariant d == FilterDistribution(ts[..i])
    {
      var t := ts[i];
      assert ts[..i + 1] == ts[..i] + [t];
      DistributionAppend(ts[..i], t);
      if t < 1.0 {
        d := d.(under1 := d.under1 + 1);
      } else if t < 3.0 {
        d := d.(from1To3 := d.from1To3 + 1);
      } else if t < 5.0 {
        d := d.(from3To5 := d.from3To5 + 1);
      } else if t < 10.0 {
        d := d.(from5To10 := d.from5To10 + 1);
      } else {
        d := d.(from10 := d.from10 + 1);
      }
    }
    assert ts[..|ts|] == ts;
  }

  /** The route's summary of a group: the average is not rounded. */
  function RouteYearStat(g: YearGroup): YearStat {
    YearStat(g.year, g.count, if g.count > 0 then g.totalTenure / g.count as real else 0.0)
  }

  /** `yearlyStats` as the route builds it. */
  function RouteYearly(rows: seq<Employee>): seq<YearStat> {
    SortBy(MapSeq(Groups(rows), RouteYearStat), YearLess)
  }

  /** The statistics of the response: average, maximum and minimum rounded only here. */
  function RouteStatisticsOf(rows: seq<Employee>): Statistics {
    Summarize(|rows|, ValidTenures(rows), RouteYearly(rows))
  }

  /** GET: an error thrown by the query becomes status 500 with its message; a null or
      empty result gives zeroed statistics and no rows; otherwise the statistics of all
      rows and the rows unchanged. */
  method Get(q: QueryResult) returns (resp: Response)
    ensures q.Failed? ==> resp == ServerError(500, QueryFailed, q.message)
    ensures q.Rows? && (q.rows.None? || q.rows.value == []) ==> resp == Ok(ZeroStatistics, [])
    ensures q.Rows? && q.rows.Some? && q.rows.value != [] ==>
      resp == Ok(RouteStatisticsOf(q.rows.value), q.rows.value)
  {
    match q
    case Failed(message) =>
      return ServerError(500, QueryFailed, message);
    case Rows(result) =>
      if result.None? || result.value == [] {
        return Ok(ZeroStatistics, []);
      }
      var rows := result.value;
      var ts := ValidTenures(rows);
      var averageTenure := if ts != [] then Mean(ts) else 0.0;
      var maxTenure := if ts != [] then Max(ts) else 0.0;
      var minTenure := if ts != [] then Min(ts) else 0.0;
      var distribution := BucketCounts(ts);
      var groups := GroupByYear(rows);
      var yearly := SortBy(MapSeq(groups, RouteYearStat), YearLess);
      assert Round2(0.0) == 0.0;
      resp := Ok(Statistics(|rows|, Round2(averageTenure), Round2(maxTenure), Round2(minTenure), distribution, yearly), rows);
  }

  /** The route's `yearlyStats`: one entry per distinct truthy year, ascending, counts
      adding up to the rows with a truthy year. */
  lemma RouteYearlySummary(rows: seq<Employee>)
    ensures var r := RouteYearly(rows);
      && (forall i, j :: 0 <= i < j < |r| ==> r[i].year < r[j].year)
      && (forall y :: (exists k :: 0 <= k < |r| && r[k].year == y) <==> exists e :: e in rows && TruthyYear(e) == Some(y))
      && (forall k :: 0 <= k < |r| ==> r[k].count == YearCount(rows, r[k].year) >= 1)
      && SumCounts(r) == |Filter(rows, HasTruthyYear)|
  {
    YearlySummary(rows, RouteYearStat);
  }

  /** A summary entry with its average rounded to two decimals. */
  function RoundAverage(s: YearStat): YearStat {
    s.(averageTenure := Round2(s.averageTenure))
  }

  /** On the same rows, page and route agree on everything but the per-year averages,
      which the page rounds to two decimals and the route does not. */
  lemma ClientMatchesRoute(rows: seq<Employee>)
    requires rows != []
    ensures ClientStatisticsOf(rows) == RouteStatisticsOf(rows).(yearlyStats := MapSeq(RouteYearly(rows), RoundAverage))
  {
    var g := Groups(rows);
    var m := MapSeq(g, RouteYearStat);
    SortByMap(m, RoundAverage, YearLess, YearLess);
    assert Round2(0.0) == 0.0;
    assert MapSeq(m, RoundAverage) == MapSeq(g, ClientYearStat);
  }

  /** A year with three rows and 1 year of tenure in total: the route reports 1/3, the
      page 0.33. */
  lemma UnroundedYearAverage()
    ensures RouteYearStat(YearGroup(2020, 3, 1.0)).averageTenure == 1.0 / 3.0
    ensures ClientYearStat(YearGroup(2020, 3, 1.0)).averageTenure == 0.33
  {
    assert (1.0 / 3.0 * 100.0 + 0.5).Floor == 33;
  }
}
