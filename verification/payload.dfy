/**
 * The two decoded JSON bodies of the upstream air-quality service, as far as
 * the extractors look into them, and the field-level rules both extractors share.
 *
 * A field is an `Option<string>`: `None` when the key is missing. Number and
 * timestamp parsing (`float(...)`, `pd.to_datetime(...)`) are not modelled;
 * the extractors take them as function parameters.
 */
module Payload {
  import opened Options

  /** The string the service writes in place of a missing measurement. */
  const Sentinel: string := "-999"

  /** Report-item identifier of the mean-concentration rows of an annual report. */
  const MeanReportItem: string := "7"

  /** Display-name prefix of the mean-concentration rows. */
  const MeanNamePrefix: string := "Mean:"

  /** The pollutant types the annual extractor knows a species code for. */
  const KnownPollutants: set<string> := {"PM10", "PM25", "NO2"}

  /** One line of the annual monitoring report (`SiteReport.ReportItem[...]`). */
  datatype ReportItem =
    | Row(speciesCode: Option<string>, reportItem: Option<string>, name: Option<string>,
          annual: Option<string>, months: map<int, string>)
      /** An element that is not a JSON object: any lookup on it raises. */
    | NotAnObject

  /**
   * The annual-report body. `Falsy` is a body Python treats as false (an empty
   * object, `null`, an empty list); `Unstructured` is a non-empty body whose
   * `SiteReport.ReportItem` path is missing, empty or not of the expected shape.
   */
  datatype AnnualResponse =
    | Falsy
    | Unstructured
    | Report(items: seq<ReportItem>)

  /** One per-timestamp, per-species measurement (`AirQualityData.Data[...]`). */
  datatype DataPoint =
    | Measurement(speciesCode: Option<string>, measuredAt: Option<string>, value: Option<string>)
      /** An element that is not a JSON object: any lookup on it raises. */
    | NotAnObjectPoint

  /** The hourly-data body; `Falsy` and `Unstructured` as for `AnnualResponse`. */
  datatype HourlyResponse =
    | FalsyData
    | UnstructuredData
    | Measurements(points: seq<DataPoint>)

  /** Species code and report item that identify a pollutant's mean row. */
  datatype Target = Target(speciesCode: string, reportItem: string)

  /** Python truthiness of an optional string: present and non-empty. */
  predicate Truthy(field: Option<string>) {
    field.Some? && field.value != ""
  }

  /** A field that may hold a measurement: truthy and not the sentinel. */
  predicate Usable(field: Option<string>) {
    Truthy(field) && field.value != Sentinel
  }

  predicate StartsWith(s: string, prefix: string) {
    |prefix| <= |s| && s[..|prefix|] == prefix
  }

  /** `float(field)` guarded by the sentinel check; `None` where the extractors skip the field. */
  function ReadNumber(field: Option<string>, parseNum: string -> Option<real>): (r: Option<real>)
    ensures r.Some? <==> Usable(field) && parseNum(field.value).Some?
    ensures r.Some? ==> parseNum(field.value) == r
    ensures field == Some(Sentinel) || field == Some("") || field == None ==> r == None
  {
    if Usable(field) then parseNum(field.value) else None
  }

  /** The species-code lookup table of the annual extractor. */
  function TargetFor(pollutant: string): (r: Option<Target>)
    ensures r.Some? <==> pollutant in KnownPollutants
    ensures r.Some? ==> r.value.speciesCode == pollutant && r.value.reportItem == MeanReportItem
  {
    if pollutant == "PM10" then Some(Target("PM10", MeanReportItem))
    else if pollutant == "PM25" then Some(Target("PM25", MeanReportItem))
    else if pollutant == "NO2" then Some(Target("NO2", MeanReportItem))
    else None
  }
}
