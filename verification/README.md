# UK air-quality explorer: data core in Dafny

This project models the data path of a Streamlit page (`app.py`). The page
charts air-quality measurements from the London Air monitoring network for a
fixed list of sites and pollutants. The user picks an averaging period:

- **Annual** or **Monthly** runs fetch the annual report of a (site, year)
  once per (site, pollutant, year) combination, so a site's report is fetched
  again for every selected pollutant. Each fetch reads the mean-concentration
  row of its own pollutant.
- **Daily** or **Hourly** runs fetch the measurement list of a site for the
  date range once per (site, pollutant) combination. Each fetch keeps the
  readings of its own pollutant, ordered by time. Daily runs then average them
  per calendar date.

The page checks the selections, fetches every (site, pollutant[, year])
combination and classifies each one as success, no data or failed. Each
combination's fetch enters the model as its own decoded body. The page then
draws one line per (pollutant, site). Each line is gap-filled on a regular
grid, and an empty grid position (`None`) shows as a break in the line.

Modules, one per concern of the source:

- `Payload`: the decoded JSON shapes and the field rules. A field is usable
  when it is present, non-empty and not the `-999` sentinel.
- `Points`: a positioned value and ordering by position.
- `AnnualExtract`: `extract_pollutant_data`.
- `HourlyExtract`: `extract_hourly_data`, including the per-date means.
- `Filtering`: what an order-keeping filtering loop produces, and that this
  determines its result.
- `GapFill`: the four gap-filling loops of the chart, as one grid fill.
- `Collector`: the fetch combinations, `fetch_annual_combination` /
  `fetch_hourly_combination`, and the collecting loop.
- `Series`: the rows of one chart line, and that line after gap filling.
- `SeriesExamples`: concrete runs that pin the behaviour down.
- `Validation`: the range, size and selection checks, and the fetch plan of an
  accepted request.

Positions are integers. A year is its number. A month is the index
`year * 12 + (month - 1)`. A timestamp is minutes on a linear scale, so a
calendar date is `t / 1440` (floor) and its midnight is `date * 1440`.
`float(...)` and `pd.to_datetime(...)` are function parameters: `parseNum`
and `parseTime` return `None` where Python raises `ValueError` or `TypeError`.

Behaviours of the code that a reader might not expect, all of which the model
follows:

- A non-object element is not skipped per item. The `AttributeError` escapes
  the loop and is caught outside it, so the extraction returns nothing.
  - In the annual report, this applies to a non-object met before the first
    yielding mean row. The scan returns at that row, so later elements are
    never visited (`AnnualExtract.NonObjectAbortsScan`).
  - In the measurement list, every element is visited, so any non-object
    element anywhere aborts the extraction (`HourlyExtract.ValidReadings`).
- A year whose value is the sentinel, after the last year with data, is not
  drawn as a gap. The annual grid runs only from the first to the last year
  that has data (`SeriesExamples.SeriesEndsAtLastYearWithData`).
- Failed combinations are counted by the progress bar but are not kept
  anywhere. Only no-data combinations are listed as missing
  (`Collector.Collect`).
- A falsy JSON body (`{}`, `[]`, `null`) counts as a failed fetch, not as no
  data (`Collector.ClassifyAnnual`, `Collector.ClassifyHourly`).

## Model

| member | source | states |
|---|---|---|
| Payload.ReadNumber | app.py:118-124 | a field yields a number exactly when it is present, non-empty, not `-999` and parses; it is then the parsed number; a missing, empty or sentinel field never yields |
| Payload.TargetFor | app.py:100-110 | only PM10, PM25 and NO2 have a mean row to look for; it is keyed by that same species code and report item `7` |
| AnnualExtract.MonthsFrom | app.py:126-142 | the monthly map has a key for month m in 1..12 exactly when `@Month<m>` is usable and parses, with that parsed value |
| AnnualExtract.FromRow | app.py:118-142 | in annual mode, a row yields exactly when its annual field reads as a number, and yields that number; in monthly mode, it yields exactly when some month field 1..12 reads as a number, and the map holds exactly those months with their values |
| AnnualExtract.Scan | app.py:113-144 | the scan returns something exactly when some item is the first yielding mean row with only objects before it, and then returns that row's value |
| AnnualExtract.ExtractPollutantData | app.py:73-148 | unknown pollutants and non-report bodies give `None`; otherwise there is a result exactly when a first yielding mean row exists, and it is that row's value |
| AnnualExtract.AnnualResultComesFromMeanRow | app.py:113-124 | an annual result is the parsed, usable `@Annual` field of a mean row with the pollutant's species code and report item `7` |
| AnnualExtract.MonthlyResultComesFromMeanRow | app.py:126-142 | a monthly result is a non-empty map over months 1..12 holding exactly the usable, parseable month fields of one mean row |
| AnnualExtract.UnreadableMeanRowIsSkipped | app.py:118-124 | a mean row whose value is missing, the sentinel or unparseable does not stop the search; the result is that of the remaining items |
| AnnualExtract.NonObjectAbortsScan | app.py:113-116 | a non-object item at any position before the first yielding mean row makes the whole extraction `None` |
| HourlyExtract.ReadingOf | app.py:177-188 | a data point gives a reading exactly when it has the pollutant's species code, a truthy timestamp and a usable value, and both parse; the reading is the parsed pair |
| HourlyExtract.ValidReadings | app.py:174-188 | the filter fails exactly when some element is not an object; otherwise it holds, in payload order and once per point, the reading of every qualifying point and nothing else |
| HourlyExtract.ValidReadingsDetermined | app.py:174-188 | when every element is an object, any list that holds the qualifying readings in payload order, once per point, is the filter's result |
| HourlyExtract.SumPermutation | app.py:203 | a sum does not depend on the order of its terms |
| HourlyExtract.ValuesOnPermutation | app.py:202-203 | which values fall on a given date depends only on which readings there are, not on their order |
| HourlyExtract.DailyMeans | app.py:200-207 | on sorted readings, one point per date that has readings, at its midnight, with the mean of that date's values, dates strictly increasing |
| HourlyExtract.DailyMeansOfAnyOrder | app.py:194-207 | the per-date means of the sorted readings are the per-date means of the readings in payload order |
| HourlyExtract.ExtractHourlyData | app.py:150-212 | the result is ordered by time; it is non-empty only for a measurement body with qualifying readings; hourly mode returns exactly those readings, daily mode their per-date means |
| Points.SortByPos | app.py:194-195 | sorting by position gives an ordered permutation of the input |
| Points.SortSortedIsIdentity | app.py:685-687 | sorting an already ordered series again changes nothing when no two positions tie (with ties, only the stable sort of this model promises it) |
| GapFill.NearZeroIsAt | app.py:640-641 | with no tolerance, a point close to a grid position is a point at it, as in the year and month lookups |
| GapFill.FirstNear | app.py:706-711 | a grid position gets a value exactly when some point lies within the tolerance, and it is the value of the first such point |
| GapFill.GridSize | app.py:697-700 | a grid from the minimum with a fixed step has at least one position, and its last position lies within one step below the maximum |
| GapFill.NearAfterSort | app.py:687-708 | sorting does not change whether some point lies near a grid position |
| GapFill.FillGrid | app.py:691-717 | the grid starts at the smallest position, is evenly spaced, covers every point, and a slot is filled exactly when a point lies within the tolerance, with the value of the first one in sorted order |
| GapFill.FillContiguous | app.py:632-650 | one slot per integer from the smallest to the largest observed position; a slot is filled exactly when a point sits there, with that point's value; both ends are filled |
| GapFill.FillTimed | app.py:683-717 | hourly and daily grids step 60 and 1440 minutes from the earliest reading, with tolerances 30 and 720; a slot is filled exactly when a reading is that close |
| GapFill.FillTimedOfSorted | app.py:685-711 | on readings already in time order, re-sorting them changes nothing: the grid starts at the first reading and a filled slot holds the first reading in the given order within the tolerance |
| Collector.AnnualTasks | app.py:400-405 | one task per (site, pollutant, year) of the selections, and nothing else; the count is sites times pollutants times years |
| Collector.HourlyTasks | app.py:450-454 | one task per (site, pollutant) of the selections, and nothing else; the count is sites times pollutants |
| Collector.ClassifyAnnual | app.py:382-398 | failed exactly when the fetch gave nothing truthy; success exactly when extraction found data, carrying it; otherwise no data |
| Collector.ClassifyHourly | app.py:433-448 | failed exactly when the fetch gave nothing truthy; success exactly when extraction returned readings, carrying them ordered by time; otherwise no data |
| Collector.FailedTasks | app.py:415-423 | the failed tasks are those whose outcome is failed, in completion order, once per result |
| Collector.Collect | app.py:415-423 | the kept data are the successes and the missing list the no-data tasks, each in completion order and once per result; successes, missing and failures account for every result |
| Collector.CollectDetermined | app.py:415-423 | any pair of lists that keeps the successes and the no-data tasks in completion order, once per result, is what the loop collects |
| Series.MonthIndexRoundTrip | app.py:543-545 | a (year, month) pair is recovered from its month index |
| Series.IndexRoundTrip | app.py:670-672 | every month index is the index of exactly one (year, month 1..12) pair |
| Series.AnnualRows | app.py:518-531 | a line's annual rows are exactly the (year, mean) pairs of successful annual results for its pollutant and site |
| Series.AnnualSeries | app.py:621-650 | a line exists exactly when some year has a mean; it has one slot per year between the first and last such year, filled exactly for years with a mean, with that mean |
| Series.MonthRows | app.py:538-545 | one success contributes a row per month in its map, at that month's index, with that month's mean |
| Series.MonthlyRows | app.py:535-556 | a line's monthly rows are exactly the (month, mean) pairs of successful monthly results for its pollutant and site |
| Series.MonthlySeries | app.py:652-681 | a line exists exactly when some month has a mean; it has one slot per month between the first and last such month, filled exactly for months with a mean, with that mean |
| Series.TimedRows | app.py:560-578 | a line's daily or hourly rows are exactly the readings returned for its pollutant and site |
| Series.TimedSeries | app.py:683-717 | a line exists exactly when its pair has readings; the slots step by the cadence from the earliest reading and cover all readings; a slot is filled exactly when a reading lies within the tolerance, with the value of such a reading |
| Series.DailyChartShowsDailyMeans | app.py:691-711 | any non-empty time-ordered readings give a daily chart; every slot of it is a midnight, filled exactly when its date had readings, with the mean of that date's readings |
| SeriesExamples.AnnualGapIsDrawnAsNone | app.py:632-650 | means for 2000 and 2002 only give the line 2000, gap, 2002 |
| SeriesExamples.SentinelYearHasNoData | app.py:118-124 | a mean row whose annual value is `-999` classifies its combination as no data |
| SeriesExamples.SeriesEndsAtLastYearWithData | app.py:632-635 | a single year with data gives a one-slot line; later years without data are not drawn |
| SeriesExamples.HourlySlotsOf | app.py:697-711 | with readings at minute 0 and strictly between minutes 120 and 180, the three hourly slots are the first reading, a gap, and the second reading only if it is at most 30 minutes past minute 120 |
| SeriesExamples.LateReadingWithinTolerance | app.py:697-711 | a reading 20 minutes after the hour is drawn at that hour |
| SeriesExamples.LateReadingBeyondToleranceIsNotDrawn | app.py:697-711 | a reading 40 minutes after the hour is drawn nowhere: its hour shows a gap |
| Validation.Ticked | app.py:331-335 | the selection holds exactly the ticked options, in display order, once per option shown |
| Validation.TickedDetermined | app.py:331-335 | any list holding the ticked options in display order, once per option shown, is the selection |
| Validation.TickedIsDistinct | app.py:348-351 | a selection never holds an option twice |
| Validation.PageSelectionsAreDistinct | app.py:309-351 | on the page's own eleven sites and three pollutants, any ticking selects only offered options, none twice |
| Validation.Validate | app.py:273-355 | each stop reason occurs exactly under its condition, checked in the page's order: reversed years, reversed dates, hourly range over 183 days, daily range over 730 days, no site, no pollutant |
| Validation.ValidateAcceptsExactlyAcceptable | app.py:273-355 | a request proceeds exactly when its range is ordered and within the limit and both selections are non-empty |
| Validation.PlanFetches | app.py:376-454 | an accepted request fetches at least one combination, so the progress fraction never divides by zero; its tasks and their count are the cross product of the selections |

## Left out

- Fetching (`fetch_annual_data`, `fetch_hourly_data`): HTTP and JSON decoding are I/O. A fetch enters the model as its decoded body, or `None` when the request or decoding failed.
- The worker pool and completion order: results are taken in any order as a sequence, and every property holds for every order.
- The progress bar, status text, summary metrics, the completeness percentage, the missing-combination message strings and their first-50 display, the CSV download, session state and the Plotly figure: presentation only.
- Floating point: values are exact reals, so NaN, infinities and rounding in the per-date mean are not modelled.
- `float(...)` and `pd.to_datetime(...)`: they are parameters, so string formats, time zones and daylight saving are not modelled.
- JSON field values that are not strings, such as a number in `@Annual` or a `null` name: fields are optional strings.
- `pd.DataFrame.sort_values` uses an unstable sort by default; the model sorts stably. Ties in position only affect which of several equally placed points is "first".
- Chart lines are keyed by pollutant and site code. The display string also holds the site's full name, which is a function of the code.
- The widget bounds (years 2000-2024, dates 2000-01-01 to 2024-12-31) are not enforced; the checks are modelled for all integers.
- Series.TimedSeries: states that a filled slot holds the value of some reading within the tolerance; that it is the first such reading in time order is stated one level down, on `GapFill.FillTimed`.
