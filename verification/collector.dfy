/**
 * The collector: enumerates the fetch combinations of a run, classifies the
 * outcome of each combination and gathers the outcomes. The fetches
 * themselves and the worker pool are outside the model; a fetch arrives here
 * as its decoded body, or `None` when the request or the JSON decoding failed.
 */
module Collector {
  import opened Options
  import opened Payload
  import opened Points
  import Filtering
  import AnnualExtract
  import HourlyExtract

  /** One annual/monthly combination. */
  datatype AnnualTask = AnnualTask(site: string, pollutant: string, year: int)

  /** One daily/hourly combination; the date range is shared by the whole run. */
  datatype HourlyTask = HourlyTask(site: string, pollutant: string)

  /** The `status` of a combination, with the extracted data on success. */
  datatype Outcome<D> = Succeeded(data: D) | NoData | FetchFailed

  /** The number of years in `from..to`. */
  function YearCount(from: int, to: int): nat {
    if from <= to then to - from + 1 else 0
  }

  function YearTasks(site: string, pollutant: string, from: int, to: int): (r: seq<AnnualTask>)
    decreases to - from
    ensures |r| == YearCount(from, to)
    ensures forall t :: t in r <==> (t.site == site && t.pollutant == pollutant && from <= t.year <= to)
  {
    if from > to then []
    else [AnnualTask(site, pollutant, from)] + YearTasks(site, pollutant, from + 1, to)
  }

  function PollutantTasks(site: string, pollutants: seq<string>, from: int, to: int): (r: seq<AnnualTask>)
    ensures |r| == |pollutants| * YearCount(from, to)
    ensures forall t :: t in r <==> (t.site == site && t.pollutant in pollutants && from <= t.year <= to)
  {
    if |pollutants| == 0 then []
    else
      var rest := PollutantTasks(site, pollutants[1..], from, to);
      assert |pollutants| * YearCount(from, to) == YearCount(from, to) + (|pollutants| - 1) * YearCount(from, to);
      assert forall p :: p in pollutants <==> p == pollutants[0] || p in pollutants[1..];
      YearTasks(site, pollutants[0], from, to) + rest
  }

  /**
   * The cross product built by the nested loops over sites, pollutants and
   * years, in that order: one task per combination.
   */
  function AnnualTasks(sites: seq<string>, pollutants: seq<string>, from: int, to: int): (r: seq<AnnualTask>)
    ensures |r| == |sites| * (|pollutants| * YearCount(from, to))
    ensures forall t :: t in r <==> (t.site in sites && t.pollutant in pollutants && from <= t.year <= to)
  {
    if |sites| == 0 then []
    else
      var rest := AnnualTasks(sites[1..], pollutants, from, to);
      var n := |pollutants| * YearCount(from, to);
      assert |sites| * n == n + (|sites| - 1) * n;
      assert forall s :: s in sites <==> s == sites[0] || s in sites[1..];
      PollutantTasks(sites[0], pollutants, from, to) + rest
  }

  function SiteTasks(site: string, pollutants: seq<string>): (r: seq<HourlyTask>)
    ensures |r| == |pollutants|
    ensures forall t :: t in r <==> (t.site == site && t.pollutant in pollutants)
  {
    if |pollutants| == 0 then []
    else
      assert forall p :: p in pollutants <==> p == pollutants[0] || p in pollutants[1..];
      [HourlyTask(site, pollutants[0])] + SiteTasks(site, pollutants[1..])
  }

  /** The cross product of sites and pollutants: one task per combination. */
  function HourlyTasks(sites: seq<string>, pollutants: seq<string>): (r: seq<HourlyTask>)
    ensures |r| == |sites| * |pollutants|
    ensures forall t :: t in r <==> (t.site in sites && t.pollutant in pollutants)
  {
    if |sites| == 0 then []
    else
      assert |sites| * |pollutants| == |pollutants| + (|sites| - 1) * |pollutants|;
      assert forall s :: s in sites <==> s == sites[0] || s in sites[1..];
      SiteTasks(sites[0], pollutants) + HourlyTasks(sites[1..], pollutants)
  }

  /**
   * `fetch_annual_combination`: `failed` when the fetch gave nothing truthy,
   * `success` when extraction found data, `no_data` otherwise.
   */
  function ClassifyAnnual(task: AnnualTask, fetched: Option<AnnualResponse>, averaging: AnnualExtract.Averaging,
                          parseNum: string -> Option<real>): (r: Outcome<AnnualExtract.Extracted>)
    ensures r.FetchFailed? <==> fetched.None? || fetched.value.Falsy?
    ensures r.Succeeded? <==>
              fetched.Some? && AnnualExtract.ExtractPollutantData(fetched.value, task.pollutant, averaging, parseNum).Some?
    ensures r.Succeeded? ==>
              AnnualExtract.ExtractPollutantData(fetched.value, task.pollutant, averaging, parseNum) == Some(r.data)
  {
    match fetched
    case None => FetchFailed
    case Some(body) =>
      if body.Falsy? then FetchFailed
      else
        match AnnualExtract.ExtractPollutantData(body, task.pollutant, averaging, parseNum)
        case Some(data) => Succeeded(data)
        case None => NoData
  }

  /**
   * `fetch_hourly_combination`: `failed` when the fetch gave nothing truthy,
   * `success` when extraction returned at least one reading, `no_data` otherwise.
   */
  function ClassifyHourly(task: HourlyTask, fetched: Option<HourlyResponse>, granularity: HourlyExtract.Granularity,
                          parseTime: string -> Option<int>, parseNum: string -> Option<real>): (r: Outcome<seq<Point>>)
    ensures r.FetchFailed? <==> fetched.None? || fetched.value.FalsyData?
    ensures r.Succeeded? <==>
              fetched.Some? && HourlyExtract.ExtractHourlyData(fetched.value, task.pollutant, granularity, parseTime, parseNum) != []
    ensures r.Succeeded? ==>
              r.data == HourlyExtract.ExtractHourlyData(fetched.value, task.pollutant, granularity, parseTime, parseNum)
              && r.data != [] && SortedByPos(r.data)
  {
    match fetched
    case None => FetchFailed
    case Some(body) =>
      if body.FalsyData? then FetchFailed
      else
        var data := HourlyExtract.ExtractHourlyData(body, task.pollutant, granularity, parseTime, parseNum);
        if data != [] then Succeeded(data) else NoData
  }

  /** What a run keeps: `all_data` (the successes) and `missing_combinations` (the no-data tasks). */
  datatype Collected<T, D> = Collected(successes: seq<(T, D)>, missing: seq<T>)

  /** The task of a failed result. */
  function FailedOf<T, D>(result: (T, Outcome<D>)): Option<T> {
    if result.1.FetchFailed? then Some(result.0) else None
  }

  /** The task and data of a successful result. */
  function SuccessOf<T, D>(result: (T, Outcome<D>)): Option<(T, D)> {
    if result.1.Succeeded? then Some((result.0, result.1.data)) else None
  }

  /** The task of a no-data result. */
  function NoDataOf<T, D>(result: (T, Outcome<D>)): Option<T> {
    if result.1.NoData? then Some(result.0) else None
  }

  /** The tasks whose fetch failed; the run itself does not keep them. */
  function FailedTasks<T(==,!new), D(==,!new)>(results: seq<(T, Outcome<D>)>): (r: seq<T>)
    ensures |r| <= |results|
    ensures forall t :: t in r <==> (t, FetchFailed) in results
    ensures Filtering.IsFilter(r, results, FailedOf)
  {
    if |results| == 0 then
      Filtering.FilterEmpty(FailedOf<T, D>);
      []
    else
      var rest := FailedTasks(results[1..]);
      var r := (if results[0].1.FetchFailed? then [results[0].0] else []) + rest;
      assert forall x :: x in results <==> x == results[0] || x in results[1..];
      assert Filtering.IsFilter(r, results, FailedOf) by {
        Filtering.FilterStep(results, FailedOf, rest);
      }
      r
  }

  /**
   * The loop over completed futures, in completion order: successes go to
   * `all_data`, no-data tasks to `missing_combinations`, failures are dropped.
   * Each list keeps its results once per occurrence, in completion order.
   */
  function Collect<T(==,!new), D(==,!new)>(results: seq<(T, Outcome<D>)>): (c: Collected<T, D>)
    ensures forall t, d :: (t, d) in c.successes <==> (t, Succeeded(d)) in results
    ensures forall t :: t in c.missing <==> (t, NoData) in results
    ensures Filtering.IsFilter(c.successes, results, SuccessOf)
    ensures Filtering.IsFilter(c.missing, results, NoDataOf)
    ensures |c.successes| + |c.missing| + |FailedTasks(results)| == |results|
  {
    if |results| == 0 then
      Filtering.FilterEmpty(SuccessOf<T, D>);
      Filtering.FilterEmpty(NoDataOf<T, D>);
      Collected([], [])
    else
      var rest := Collect(results[1..]);
      var (t, outcome) := results[0];
      assert forall x :: x in results <==> x == results[0] || x in results[1..];
      Filtering.FilterStep(results, SuccessOf, rest.successes);
      Filtering.FilterStep(results, NoDataOf, rest.missing);
      match outcome
      case Succeeded(d) =>
        assert [] + rest.missing == rest.missing;
        Collected([(t, d)] + rest.successes, rest.missing)
      case NoData =>
        assert [] + rest.successes == rest.successes;
        Collected(rest.successes, [t] + rest.missing)
      case FetchFailed =>
        assert [] + rest.successes == rest.successes && [] + rest.missing == rest.missing;
        rest
  }

  /**
   * The collected lists are fixed by the results: they are the only lists that
   * keep, in completion order and once per result, the successes and the
   * no-data tasks.
   */
  lemma CollectDetermined<T(!new), D(!new)>(results: seq<(T, Outcome<D>)>, c: Collected<T, D>)
    requires Filtering.IsFilter(c.successes, results, SuccessOf)
    requires Filtering.IsFilter(c.missing, results, NoDataOf)
    ensures Collect(results) == c
  {
    var got := Collect(results);
    Filtering.FilterUnique(got.successes, c.successes, results, SuccessOf);
    Filtering.FilterUnique(got.missing, c.missing, results, NoDataOf);
  }
}
