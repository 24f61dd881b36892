/**
 * The annual-report extractor: finds the mean-concentration row of one
 * pollutant in an annual monitoring report and reads either its annual mean
 * or its twelve monthly means.
 */
module AnnualExtract {
  import opened Options
  import opened Payload

  datatype Averaging = AnnualAveraging | MonthlyAveraging

  /** `{"annual": v}` or `{"monthly": {month: v, ...}}`. */
  datatype Extracted = AnnualMean(mean: real) | MonthlyMeans(means: map<int, real>)

  /** The row carries the pollutant's species code, report item `7` and a `Mean:` name. */
  predicate IsMeanRow(item: ReportItem, t: Target) {
    && item.Row?
    && item.speciesCode == Some(t.speciesCode)
    && item.reportItem == Some(t.reportItem)
    && StartsWith(item.name.GetOr(""), MeanNamePrefix)
  }

  function MonthField(months: map<int, string>, m: int): Option<string> {
    if m in months then Some(months[m]) else None
  }

  /** The month fields `Month<m>` .. `Month12` that read as numbers, keyed by month number. */
  function MonthsFrom(months: map<int, string>, parseNum: string -> Option<real>, m: int): (r: map<int, real>)
    requires 1 <= m <= 13
    ensures forall k :: k in r <==> m <= k <= 12 && ReadNumber(MonthField(months, k), parseNum).Some?
    ensures forall k :: k in r ==> ReadNumber(MonthField(months, k), parseNum) == Some(r[k])
    decreases 13 - m
  {
    if m == 13 then map[]
    else
      var rest := MonthsFrom(months, parseNum, m + 1);
      match ReadNumber(MonthField(months, m), parseNum)
      case Some(v) => rest[m := v]
      case None => rest
  }

  /** What one row yields in the given averaging mode; `None` when it has no usable value. */
  function FromRow(item: ReportItem, averaging: Averaging, parseNum: string -> Option<real>): (r: Option<Extracted>)
    requires item.Row?
    ensures averaging == AnnualAveraging ==>
              && (r.Some? <==> ReadNumber(item.annual, parseNum).Some?)
              && (r.Some? ==> r.value == AnnualMean(ReadNumber(item.annual, parseNum).value))
    ensures averaging == MonthlyAveraging ==>
              (r.Some? <==> exists k :: 1 <= k <= 12 && ReadNumber(MonthField(item.months, k), parseNum).Some?)
    ensures averaging == MonthlyAveraging && r.Some? ==>
              && r.value.MonthlyMeans?
              && (forall k :: k in r.value.means <==> 1 <= k <= 12 && ReadNumber(MonthField(item.months, k), parseNum).Some?)
              && (forall k :: k in r.value.means ==> ReadNumber(MonthField(item.months, k), parseNum) == Some(r.value.means[k]))
  {
    match averaging
    case AnnualAveraging =>
      (match ReadNumber(item.annual, parseNum)
       case Some(v) => Some(AnnualMean(v))
       case None => None)
    case MonthlyAveraging =>
      var means := MonthsFrom(item.months, parseNum, 1);
      if means == map[] then None else Some(MonthlyMeans(means))
  }

  /** A mean row of the pollutant that yields a value. */
  predicate Yields(item: ReportItem, t: Target, averaging: Averaging, parseNum: string -> Option<real>) {
    IsMeanRow(item, t) && FromRow(item, averaging, parseNum).Some?
  }

  /**
   * Item `i` is where the scan stops with a result: it yields, and every
   * earlier item is an object that does not yield.
   */
  predicate FirstYield(items: seq<ReportItem>, i: int, t: Target, averaging: Averaging,
                       parseNum: string -> Option<real>)
  {
    && 0 <= i < |items|
    && Yields(items[i], t, averaging, parseNum)
    && forall j :: 0 <= j < i ==> items[j].Row? && !Yields(items[j], t, averaging, parseNum)
  }

  /** Past a non-yielding object at the head, the first yield moves one place left. */
  lemma FirstYieldOfTail(items: seq<ReportItem>, t: Target, averaging: Averaging,
                         parseNum: string -> Option<real>)
    requires |items| > 0 && items[0].Row? && !Yields(items[0], t, averaging, parseNum)
    ensures forall i :: FirstYield(items, i, t, averaging, parseNum) <==>
                        1 <= i && FirstYield(items[1..], i - 1, t, averaging, parseNum)
  {
    forall i
      ensures FirstYield(items, i, t, averaging, parseNum) <==>
              1 <= i && FirstYield(items[1..], i - 1, t, averaging, parseNum)
    {
      if 1 <= i && FirstYield(items[1..], i - 1, t, averaging, parseNum) {
        forall j | 0 <= j < i
          ensures items[j].Row? && !Yields(items[j], t, averaging, parseNum)
        {
          if j > 0 {
            assert items[j] == items[1..][j - 1];
          }
        }
      }
      if FirstYield(items, i, t, averaging, parseNum) {
        forall j | 0 <= j < i - 1
          ensures items[1..][j].Row? && !Yields(items[1..][j], t, averaging, parseNum)
        {
          assert items[1..][j] == items[j + 1];
        }
      }
    }
  }

  /**
   * The loop over the report items: the first object that is a mean row of the
   * pollutant and yields a value ends the scan; a non-object aborts it.
   */
  function Scan(items: seq<ReportItem>, t: Target, averaging: Averaging,
                parseNum: string -> Option<real>): (r: Option<Extracted>)
    ensures r.Some? <==> exists i :: FirstYield(items, i, t, averaging, parseNum)
    ensures forall i :: FirstYield(items, i, t, averaging, parseNum) ==>
                        r == FromRow(items[i], averaging, parseNum)
    decreases |items|
  {
    if |items| == 0 then None
    else if items[0].NotAnObject? then None
    else if Yields(items[0], t, averaging, parseNum) then
      assert FirstYield(items, 0, t, averaging, parseNum);
      FirstYieldUniqueAt(items, 0, t, averaging, parseNum);
      FromRow(items[0], averaging, parseNum)
    else
      FirstYieldOfTail(items, t, averaging, parseNum);
      var r := Scan(items[1..], t, averaging, parseNum);
      assert r.Some? ==> exists i :: FirstYield(items, i, t, averaging, parseNum) by {
        if r.Some? {
          var k :| FirstYield(items[1..], k, t, averaging, parseNum);
          assert FirstYield(items, k + 1, t, averaging, parseNum);
        }
      }
      r
  }

  /** At most one item is the first that yields. */
  lemma FirstYieldUniqueAt(items: seq<ReportItem>, i: int, t: Target, averaging: Averaging,
                           parseNum: string -> Option<real>)
    requires FirstYield(items, i, t, averaging, parseNum)
    ensures forall k :: FirstYield(items, k, t, averaging, parseNum) ==> k == i
  {
  }

  /**
   * `extract_pollutant_data`: the value of the first qualifying mean row of
   * the pollutant, or `None`.
   */
  function ExtractPollutantData(response: AnnualResponse, pollutant: string, averaging: Averaging,
                                parseNum: string -> Option<real>): (r: Option<Extracted>)
    ensures pollutant !in KnownPollutants ==> r == None
    ensures !response.Report? ==> r == None
    ensures r.Some? ==>
      && response.Report?
      && pollutant in KnownPollutants
      && exists i :: FirstYield(response.items, i, Target(pollutant, MeanReportItem), averaging, parseNum)
                     && r == FromRow(response.items[i], averaging, parseNum)
    ensures response.Report? && pollutant in KnownPollutants &&
            (exists i :: FirstYield(response.items, i, Target(pollutant, MeanReportItem), averaging, parseNum))
            ==> r.Some?
  {
    match response
    case Report(items) =>
      (match TargetFor(pollutant)
       case Some(t) => Scan(items, t, averaging, parseNum)
       case None => None)
    case _ => None
  }

  /**
   * Annual mode: a result is `{"annual": v}` where `v` is the parsed, non-sentinel
   * `@Annual` field of a mean row carrying the pollutant's species code.
   */
  lemma AnnualResultComesFromMeanRow(response: AnnualResponse, pollutant: string,
                                     parseNum: string -> Option<real>)
    ensures var r := ExtractPollutantData(response, pollutant, AnnualAveraging, parseNum);
      r.Some? ==>
        && r.value.AnnualMean?
        && exists i :: 0 <= i < |response.items|
             && IsMeanRow(response.items[i], Target(pollutant, MeanReportItem))
             && Usable(response.items[i].annual)
             && parseNum(response.items[i].annual.value) == Some(r.value.mean)
  {
    var r := ExtractPollutantData(response, pollutant, AnnualAveraging, parseNum);
    if r.Some? {
      var i :| FirstYield(response.items, i, Target(pollutant, MeanReportItem), AnnualAveraging, parseNum)
               && r == FromRow(response.items[i], AnnualAveraging, parseNum);
      assert IsMeanRow(response.items[i], Target(pollutant, MeanReportItem));
    }
  }

  /**
   * Monthly mode: a result is a non-empty map from months 1..12 holding exactly
   * the `@Month<m>` fields of one mean row that are usable and parse.
   */
  lemma MonthlyResultComesFromMeanRow(response: AnnualResponse, pollutant: string,
                                      parseNum: string -> Option<real>)
    ensures var r := ExtractPollutantData(response, pollutant, MonthlyAveraging, parseNum);
      r.Some? ==>
        && r.value.MonthlyMeans?
        && r.value.means != map[]
        && (forall m :: m in r.value.means ==> 1 <= m <= 12)
        && exists i :: 0 <= i < |response.items|
             && IsMeanRow(response.items[i], Target(pollutant, MeanReportItem))
             && (forall m :: m in r.value.means ==>
                   && Usable(MonthField(response.items[i].months, m))
                   && parseNum(MonthField(response.items[i].months, m).value) == Some(r.value.means[m]))
             && (forall m :: 1 <= m <= 12 && ReadNumber(MonthField(response.items[i].months, m), parseNum).Some?
                   ==> m in r.value.means)
  {
    var r := ExtractPollutantData(response, pollutant, MonthlyAveraging, parseNum);
    if r.Some? {
      var i :| FirstYield(response.items, i, Target(pollutant, MeanReportItem), MonthlyAveraging, parseNum)
               && r == FromRow(response.items[i], MonthlyAveraging, parseNum);
      assert IsMeanRow(response.items[i], Target(pollutant, MeanReportItem));
    }
  }

  /**
   * A mean row of the pollutant whose value is missing, the sentinel or
   * unparseable does not end the scan: the result is that of the later items.
   */
  lemma UnreadableMeanRowIsSkipped(items: seq<ReportItem>, pollutant: string, averaging: Averaging,
                                   parseNum: string -> Option<real>)
    requires |items| > 0 && IsMeanRow(items[0], Target(pollutant, MeanReportItem))
    requires FromRow(items[0], averaging, parseNum).None?
    ensures ExtractPollutantData(Report(items), pollutant, averaging, parseNum)
         == ExtractPollutantData(Report(items[1..]), pollutant, averaging, parseNum)
  {
  }

  /**
   * An element that is not an object, at any position before the first mean
   * row that yields, makes the whole extraction `None`.
   */
  lemma NonObjectAbortsScan(items: seq<ReportItem>, i: int, pollutant: string, averaging: Averaging,
                            parseNum: string -> Option<real>)
    requires 0 <= i < |items| && items[i].NotAnObject?
    requires forall j :: 0 <= j < i ==> !Yields(items[j], Target(pollutant, MeanReportItem), averaging, parseNum)
    ensures ExtractPollutantData(Report(items), pollutant, averaging, parseNum) == None
  {
    var t := Target(pollutant, MeanReportItem);
    forall k ensures !FirstYield(items, k, t, averaging, parseNum) {
      if k > i {
        assert !items[i].Row?;
      }
    }
  }
}
