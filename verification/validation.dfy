/**
 * The checks that stand between the selection controls and the first fetch:
 * the year or date range, the size of a date range, and the site and
 * pollutant selections, in the order the page applies them. An accepted
 * request becomes the list of combinations to fetch.
 */
module Validation {
  import opened Options
  import Filtering
  import opened Collector
  import AnnualExtract
  import HourlyExtract

  /** The averaging period chosen on the page. */
  datatype Resolution = Annual | Monthly | Daily | Hourly

  /** Annual and monthly runs select years; daily and hourly runs select dates. */
  predicate SelectsYears(res: Resolution) {
    res == Annual || res == Monthly
  }

  /**
   * The page's selections. Dates are day numbers, so the difference of two
   * dates is their distance in days.
   */
  datatype Request = Request(resolution: Resolution, startYear: int, endYear: int,
                             startDay: int, endDay: int, sites: seq<string>, pollutants: seq<string>)

  /** Why the page stops before fetching. */
  datatype Rejection = YearsReversed | DatesReversed | HourlyRangeTooLong | DailyRangeTooLong | NoSites | NoPollutants

  datatype Verdict = Proceed | Stop(reason: Rejection)

  /** The longest date range, in days between the two dates, a daily or hourly run accepts. */
  const HourlyMaxDays := 183
  const DailyMaxDays := 730

  /** The sites offered on the page, in display order. */
  const AvailableSites: seq<string> := ["WA2", "WA7", "WA8", "WA9", "WAA", "WAB", "WAC", "ME2", "ME9", "RI1", "RI2"]

  /** The pollutants offered on the page, in display order. */
  const AvailablePollutants: seq<string> := ["PM10", "PM25", "NO2"]

  /** The test of one checkbox: a ticked option is kept. */
  function TickedTest(ticked: set<string>): string -> Option<string> {
    option => if option in ticked then Some(option) else None
  }

  /** The ticked options, in display order. */
  function Ticked(options: seq<string>, ticked: set<string>): (r: seq<string>)
    ensures |r| <= |options|
    ensures forall x :: x in r <==> x in options && x in ticked
    ensures Filtering.IsFilter(r, options, TickedTest(ticked))
  {
    if |options| == 0 then
      Filtering.FilterEmpty(TickedTest(ticked));
      []
    else
      assert forall x :: x in options <==> x == options[0] || x in options[1..];
      var rest := Ticked(options[1..], ticked);
      var r := (if options[0] in ticked then [options[0]] else []) + rest;
      assert Filtering.IsFilter(r, options, TickedTest(ticked)) by {
        Filtering.FilterStep(options, TickedTest(ticked), rest);
      }
      r
  }

  /** The selection is the only list that keeps the ticked options in display order. */
  lemma TickedDetermined(options: seq<string>, ticked: set<string>, r: seq<string>)
    requires Filtering.IsFilter(r, options, TickedTest(ticked))
    ensures Ticked(options, ticked) == r
  {
    Filtering.FilterUnique(Ticked(options, ticked), r, options, TickedTest(ticked));
  }

  predicate Distinct(xs: seq<string>) {
    forall i, j :: 0 <= i < j < |xs| ==> xs[i] != xs[j]
  }

  /** Ticking boxes never selects an option twice. */
  lemma TickedIsDistinct(options: seq<string>, ticked: set<string>)
    requires Distinct(options)
    ensures Distinct(Ticked(options, ticked))
  {
    Filtering.FilterKeepsDistinct(Ticked(options, ticked), options, TickedTest(ticked));
  }

  /** The page offers each site once. */
  lemma AvailableSitesDistinct()
    ensures Distinct(AvailableSites)
  {
  }

  /**
   * On the page's own lists, whatever boxes are ticked, every selected site and
   * pollutant is one the page offers, and none is selected twice.
   */
  lemma PageSelectionsAreDistinct(tickedSites: set<string>, tickedPollutants: set<string>)
    ensures forall s :: s in Ticked(AvailableSites, tickedSites) ==> s in AvailableSites
    ensures forall p :: p in Ticked(AvailablePollutants, tickedPollutants) ==> p in AvailablePollutants
    ensures Distinct(Ticked(AvailableSites, tickedSites))
    ensures Distinct(Ticked(AvailablePollutants, tickedPollutants))
  {
    AvailableSitesDistinct();
    TickedIsDistinct(AvailableSites, tickedSites);
    TickedIsDistinct(AvailablePollutants, tickedPollutants);
  }

  /** The page's checks in order; the first that fails stops the run. */
  function Validate(req: Request): (v: Verdict)
    ensures v == Stop(YearsReversed) <==> SelectsYears(req.resolution) && req.startYear > req.endYear
    ensures v == Stop(DatesReversed) <==> !SelectsYears(req.resolution) && req.startDay > req.endDay
    ensures v == Stop(HourlyRangeTooLong) <==>
              req.resolution == Hourly && req.startDay <= req.endDay && req.endDay - req.startDay > HourlyMaxDays
    ensures v == Stop(DailyRangeTooLong) <==>
              req.resolution == Daily && req.startDay <= req.endDay && req.endDay - req.startDay > DailyMaxDays
    ensures v == Stop(NoSites) <==> RangeAccepted(req) && req.sites == []
    ensures v == Stop(NoPollutants) <==> RangeAccepted(req) && req.sites != [] && req.pollutants == []
  {
    if SelectsYears(req.resolution) && req.startYear > req.endYear then Stop(YearsReversed)
    else if !SelectsYears(req.resolution) && req.startDay > req.endDay then Stop(DatesReversed)
    else if !SelectsYears(req.resolution) && req.resolution == Hourly && req.endDay - req.startDay > HourlyMaxDays then
      Stop(HourlyRangeTooLong)
    else if !SelectsYears(req.resolution) && req.resolution == Daily && req.endDay - req.startDay > DailyMaxDays then
      Stop(DailyRangeTooLong)
    else if req.sites == [] then Stop(NoSites)
    else if req.pollutants == [] then Stop(NoPollutants)
    else Proceed
  }

  /** The longest accepted date range of a daily or hourly run, in days. */
  function MaxDays(res: Resolution): int
    requires !SelectsYears(res)
  {
    if res == Hourly then HourlyMaxDays else DailyMaxDays
  }

  /** The requested range is well ordered and, for dates, not too long. */
  predicate RangeAccepted(req: Request) {
    if SelectsYears(req.resolution) then req.startYear <= req.endYear
    else req.startDay <= req.endDay && req.endDay - req.startDay <= MaxDays(req.resolution)
  }

  /** What an acceptable request is, independently of the order of the checks. */
  predicate Acceptable(req: Request) {
    RangeAccepted(req) && req.sites != [] && req.pollutants != []
  }

  lemma ValidateAcceptsExactlyAcceptable(req: Request)
    ensures Validate(req) == Proceed <==> Acceptable(req)
  {
  }

  /** The combinations an accepted request fetches. */
  datatype Plan =
    | YearPlan(averaging: AnnualExtract.Averaging, yearTasks: seq<AnnualTask>)
    | DatePlan(granularity: HourlyExtract.Granularity, dateTasks: seq<HourlyTask>)

  /** The number of fetches a plan performs: the run's `total_requests`. */
  function FetchCount(p: Plan): nat {
    match p
    case YearPlan(_, tasks) => |tasks|
    case DatePlan(_, tasks) => |tasks|
  }

  /**
   * The fetches of an accepted request; `None` when the page stops first.
   * An accepted request always fetches something, so the progress fraction
   * `completed / total_requests` never divides by zero.
   */
  function PlanFetches(req: Request): (r: Option<Plan>)
    ensures r.Some? <==> Validate(req) == Proceed
    ensures r.Some? ==> FetchCount(r.value) > 0
    ensures r.Some? && SelectsYears(req.resolution) ==>
              && r.value.YearPlan?
              && r.value.averaging == (if req.resolution == Annual then AnnualExtract.AnnualAveraging
                                       else AnnualExtract.MonthlyAveraging)
              && FetchCount(r.value) == |req.sites| * (|req.pollutants| * YearCount(req.startYear, req.endYear))
              && forall t :: t in r.value.yearTasks <==>
                   t.site in req.sites && t.pollutant in req.pollutants && req.startYear <= t.year <= req.endYear
    ensures r.Some? && !SelectsYears(req.resolution) ==>
              && r.value.DatePlan?
              && r.value.granularity == (if req.resolution == Hourly then HourlyExtract.Hourly else HourlyExtract.Daily)
              && FetchCount(r.value) == |req.sites| * |req.pollutants|
              && forall t :: t in r.value.dateTasks <==> t.site in req.sites && t.pollutant in req.pollutants
  {
    if Validate(req) != Proceed then None
    else if SelectsYears(req.resolution) then
      var tasks := AnnualTasks(req.sites, req.pollutants, req.startYear, req.endYear);
      PositiveProduct(|req.sites|, |req.pollutants| * YearCount(req.startYear, req.endYear));
      PositiveProduct(|req.pollutants|, YearCount(req.startYear, req.endYear));
      Some(YearPlan(if req.resolution == Annual then AnnualExtract.AnnualAveraging else AnnualExtract.MonthlyAveraging,
                    tasks))
    else
      PositiveProduct(|req.sites|, |req.pollutants|);
      Some(DatePlan(if req.resolution == Hourly then HourlyExtract.Hourly else HourlyExtract.Daily,
                    HourlyTasks(req.sites, req.pollutants)))
  }

  lemma PositiveProduct(a: int, b: int)
    requires a > 0 && b > 0
    ensures a * b > 0
  {
  }
}
