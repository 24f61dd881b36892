/**
 * Chart series: the rows of one (pollutant, site) pair gathered from the
 * successful combinations of a run, then gap-filled at the run's resolution.
 * A pair without rows has no series at all.
 */
module Series {
  import opened Options
  import opened Points
  import opened GapFill
  import opened Collector
  import AnnualExtract
  import HourlyExtract

  datatype SeriesKey = SeriesKey(pollutant: string, site: string)

  /** The linear month index `year * 12 + (month - 1)` of a month start. */
  function MonthIndex(year: int, month: int): int {
    year * 12 + (month - 1)
  }

  function YearOfIndex(i: int): int {
    i / 12
  }

  function MonthOfIndex(i: int): int {
    i % 12 + 1
  }

  /** A (year, month) pair survives the trip through its month index. */
  lemma MonthIndexRoundTrip(year: int, month: int)
    requires 1 <= month <= 12
    ensures YearOfIndex(MonthIndex(year, month)) == year
    ensures MonthOfIndex(MonthIndex(year, month)) == month
  {
  }

  /** Every index is the index of exactly one (year, month) pair. */
  lemma IndexRoundTrip(i: int)
    ensures 1 <= MonthOfIndex(i) <= 12
    ensures MonthIndex(YearOfIndex(i), MonthOfIndex(i)) == i
  {
  }

  /** The annual rows of one series: (year, mean) per success of its pollutant and site. */
  function AnnualRows(successes: seq<(AnnualTask, AnnualExtract.Extracted)>, key: SeriesKey): (r: seq<Point>)
    ensures forall p :: p in r <==>
              (AnnualTask(key.site, key.pollutant, p.pos), AnnualExtract.AnnualMean(p.value)) in successes
  {
    if |successes| == 0 then []
    else
      var (task, data) := successes[0];
      var rest := AnnualRows(successes[1..], key);
      assert forall x :: x in successes <==> x == successes[0] || x in successes[1..];
      if task.site == key.site && task.pollutant == key.pollutant && data.AnnualMean? then
        [Point(task.year, data.mean)] + rest
      else rest
  }

  /** The success list holds an annual mean for the series' pollutant and site in `year`. */
  ghost predicate AnnualObserved(successes: seq<(AnnualTask, AnnualExtract.Extracted)>, key: SeriesKey, year: int) {
    exists v :: (AnnualTask(key.site, key.pollutant, year), AnnualExtract.AnnualMean(v)) in successes
  }

  /**
   * The annual series of one (pollutant, site) pair: one slot per year from the
   * first to the last year with data, holding that year's mean or `None`.
   */
  function AnnualSeries(successes: seq<(AnnualTask, AnnualExtract.Extracted)>, key: SeriesKey): (r: Option<seq<Slot>>)
    ensures r.Some? <==> exists y :: AnnualObserved(successes, key, y)
    ensures r.Some? ==> |r.value| > 0 && forall k :: 0 <= k < |r.value| ==> r.value[k].pos == r.value[0].pos + k
    ensures r.Some? ==> forall y :: AnnualObserved(successes, key, y) ==> r.value[0].pos <= y <= r.value[|r.value| - 1].pos
    ensures r.Some? ==> forall k :: 0 <= k < |r.value| ==>
              (r.value[k].value.Some? <==> AnnualObserved(successes, key, r.value[k].pos))
    ensures r.Some? ==> forall k :: 0 <= k < |r.value| && r.value[k].value.Some? ==>
              (AnnualTask(key.site, key.pollutant, r.value[k].pos), AnnualExtract.AnnualMean(r.value[k].value.value)) in successes
    ensures r.Some? ==> r.value[0].value.Some? && r.value[|r.value| - 1].value.Some?
  {
    var rows := AnnualRows(successes, key);
    AnnualRowsExistIffObserved(successes, key);
    if rows == [] then
      None
    else
      var slots := FillContiguous(rows);
      AnnualSlotsMatchSuccesses(successes, key, rows, slots);
      Some(slots)
  }

  /** A year with an annual mean contributes a row to its series. */
  lemma ObservedYearHasRow(successes: seq<(AnnualTask, AnnualExtract.Extracted)>, key: SeriesKey, y: int)
    requires AnnualObserved(successes, key, y)
    ensures exists p :: p in AnnualRows(successes, key) && p.pos == y
  {
    var v :| (AnnualTask(key.site, key.pollutant, y), AnnualExtract.AnnualMean(v)) in successes;
    assert Point(y, v) in AnnualRows(successes, key);
  }

  lemma AnnualRowsExistIffObserved(successes: seq<(AnnualTask, AnnualExtract.Extracted)>, key: SeriesKey)
    ensures AnnualRows(successes, key) != [] <==> exists y :: AnnualObserved(successes, key, y)
  {
    var rows := AnnualRows(successes, key);
    if rows != [] {
      assert rows[0] in rows;
      assert AnnualObserved(successes, key, rows[0].pos);
    }
    forall y | AnnualObserved(successes, key, y) ensures rows != [] {
      ObservedYearHasRow(successes, key, y);
    }
  }

  lemma AnnualSlotsMatchSuccesses(successes: seq<(AnnualTask, AnnualExtract.Extracted)>, key: SeriesKey,
                                  rows: seq<Point>, slots: seq<Slot>)
    requires rows == AnnualRows(successes, key) && rows != [] && slots == FillContiguous(rows)
    ensures forall y :: AnnualObserved(successes, key, y) ==> slots[0].pos <= y <= slots[|slots| - 1].pos
    ensures forall k :: 0 <= k < |slots| ==>
              (slots[k].value.Some? <==> AnnualObserved(successes, key, slots[k].pos))
    ensures forall k :: 0 <= k < |slots| && slots[k].value.Some? ==>
              (AnnualTask(key.site, key.pollutant, slots[k].pos), AnnualExtract.AnnualMean(slots[k].value.value)) in successes
  {
    forall k | 0 <= k < |slots| && slots[k].value.Some?
      ensures (AnnualTask(key.site, key.pollutant, slots[k].pos), AnnualExtract.AnnualMean(slots[k].value.value)) in successes
    {
      assert Point(slots[k].pos, slots[k].value.value) in rows;
    }
    forall y | AnnualObserved(successes, key, y)
      ensures slots[0].pos <= y <= slots[|slots| - 1].pos
    {
      YearRowIffData(successes, key, rows, y);
    }
    forall k | 0 <= k < |slots|
      ensures slots[k].value.Some? <==> AnnualObserved(successes, key, slots[k].pos)
    {
      YearRowIffData(successes, key, rows, slots[k].pos);
    }
  }

  /** A year has a row exactly when it has an annual mean. */
  lemma YearRowIffData(successes: seq<(AnnualTask, AnnualExtract.Extracted)>, key: SeriesKey, rows: seq<Point>, y: int)
    requires rows == AnnualRows(successes, key)
    ensures Observed(rows, y) <==> AnnualObserved(successes, key, y)
  {
    if AnnualObserved(successes, key, y) {
      var v :| (AnnualTask(key.site, key.pollutant, y), AnnualExtract.AnnualMean(v)) in successes;
      assert Point(y, v) in rows;
      var j :| 0 <= j < |rows| && rows[j] == Point(y, v);
      assert rows[j].pos == y;
    }
    if Observed(rows, y) {
      var j :| 0 <= j < |rows| && rows[j].pos == y;
      assert rows[j] in rows;
    }
  }

  /** The rows one success contributes to a monthly series, months `m..12` in calendar order. */
  function MonthRows(year: int, means: map<int, real>, m: int): (r: seq<Point>)
    requires 1 <= m
    decreases 13 - m
    ensures forall p :: p in r <==>
              (YearOfIndex(p.pos) == year && m <= MonthOfIndex(p.pos) && MonthOfIndex(p.pos) in means
               && p.value == means[MonthOfIndex(p.pos)])
  {
    if m > 12 then []
    else
      MonthIndexRoundTrip(year, m);
      (if m in means then [Point(MonthIndex(year, m), means[m])] else []) + MonthRows(year, means, m + 1)
  }

  /** The success list holds, for the series' pollutant and site, a monthly mean `v` for month `month` of `year`. */
  ghost predicate MonthObserved(successes: seq<(AnnualTask, AnnualExtract.Extracted)>, key: SeriesKey,
                                year: int, month: int, v: real) {
    exists means :: (AnnualTask(key.site, key.pollutant, year), AnnualExtract.MonthlyMeans(means)) in successes
                    && month in means && means[month] == v
  }

  /** The monthly rows of one series: a row per (year, month) mean of its pollutant and site. */
  function MonthlyRows(successes: seq<(AnnualTask, AnnualExtract.Extracted)>, key: SeriesKey): (r: seq<Point>)
    ensures forall p :: p in r <==> MonthObserved(successes, key, YearOfIndex(p.pos), MonthOfIndex(p.pos), p.value)
  {
    if |successes| == 0 then []
    else
      var (task, data) := successes[0];
      var rest := MonthlyRows(successes[1..], key);
      var head := if task.site == key.site && task.pollutant == key.pollutant && data.MonthlyMeans?
                  then MonthRows(task.year, data.means, 1) else [];
      MonthlyRowsStep(successes, key, head, rest);
      head + rest
  }

  lemma MonthlyRowsStep(successes: seq<(AnnualTask, AnnualExtract.Extracted)>, key: SeriesKey,
                        head: seq<Point>, rest: seq<Point>)
    requires |successes| > 0
    requires head == (if successes[0].0.site == key.site && successes[0].0.pollutant == key.pollutant
                         && successes[0].1.MonthlyMeans?
                      then MonthRows(successes[0].0.year, successes[0].1.means, 1) else [])
    requires forall p :: p in rest <==> MonthObserved(successes[1..], key, YearOfIndex(p.pos), MonthOfIndex(p.pos), p.value)
    ensures forall p :: p in head + rest <==> MonthObserved(successes, key, YearOfIndex(p.pos), MonthOfIndex(p.pos), p.value)
  {
    var (task, data) := successes[0];
    forall p
      ensures p in head + rest <==> MonthObserved(successes, key, YearOfIndex(p.pos), MonthOfIndex(p.pos), p.value)
    {
      var y, mo := YearOfIndex(p.pos), MonthOfIndex(p.pos);
      if p in head {
        assert successes[0] in successes;
        assert (AnnualTask(key.site, key.pollutant, y), AnnualExtract.MonthlyMeans(data.means)) == successes[0];
      } else if p in rest {
        var means :| (AnnualTask(key.site, key.pollutant, y), AnnualExtract.MonthlyMeans(means)) in successes[1..]
                     && mo in means && means[mo] == p.value;
        assert (AnnualTask(key.site, key.pollutant, y), AnnualExtract.MonthlyMeans(means)) in successes;
      }
      if MonthObserved(successes, key, y, mo, p.value) {
        var means :| (AnnualTask(key.site, key.pollutant, y), AnnualExtract.MonthlyMeans(means)) in successes
                     && mo in means && means[mo] == p.value;
        var x := (AnnualTask(key.site, key.pollutant, y), AnnualExtract.MonthlyMeans(means));
        if x == successes[0] {
          assert p in head;
        } else {
          assert x in successes[1..];
          assert p in rest;
        }
      }
    }
  }

  /** Month index `i` of the series' pollutant and site carries a monthly mean. */
  ghost predicate MonthWithData(successes: seq<(AnnualTask, AnnualExtract.Extracted)>, key: SeriesKey, i: int) {
    exists v :: MonthObserved(successes, key, YearOfIndex(i), MonthOfIndex(i), v)
  }

  lemma MonthlyRowsExistIffObserved(successes: seq<(AnnualTask, AnnualExtract.Extracted)>, key: SeriesKey)
    ensures MonthlyRows(successes, key) != [] <==> exists i :: MonthWithData(successes, key, i)
  {
    var rows := MonthlyRows(successes, key);
    if rows != [] {
      assert rows[0] in rows;
      assert MonthWithData(successes, key, rows[0].pos);
    }
    forall i | MonthWithData(successes, key, i) ensures rows != [] {
      var v :| MonthObserved(successes, key, YearOfIndex(i), MonthOfIndex(i), v);
      assert Point(i, v) in rows;
    }
  }

  /**
   * The monthly series of one (pollutant, site) pair: one slot per month from
   * the first to the last month with data, holding that month's mean or `None`.
   */
  function MonthlySeries(successes: seq<(AnnualTask, AnnualExtract.Extracted)>, key: SeriesKey): (r: Option<seq<Slot>>)
    ensures r.Some? <==> exists i :: MonthWithData(successes, key, i)
    ensures r.Some? ==> |r.value| > 0 && forall k :: 0 <= k < |r.value| ==> r.value[k].pos == r.value[0].pos + k
    ensures r.Some? ==> forall i :: MonthWithData(successes, key, i) ==> r.value[0].pos <= i <= r.value[|r.value| - 1].pos
    ensures r.Some? ==> forall k :: 0 <= k < |r.value| ==>
              (r.value[k].value.Some? <==> MonthWithData(successes, key, r.value[k].pos))
    ensures r.Some? ==> forall k :: 0 <= k < |r.value| && r.value[k].value.Some? ==>
              MonthObserved(successes, key, YearOfIndex(r.value[k].pos), MonthOfIndex(r.value[k].pos), r.value[k].value.value)
    ensures r.Some? ==> r.value[0].value.Some? && r.value[|r.value| - 1].value.Some?
  {
    var rows := MonthlyRows(successes, key);
    MonthlyRowsExistIffObserved(successes, key);
    if rows == [] then
      None
    else
      var slots := FillContiguous(rows);
      MonthlySlotsDescribeMeans(successes, key, rows, slots);
      Some(slots)
  }

  /** The monthly grid of the series' rows, read back against the successes. */
  lemma MonthlySlotsDescribeMeans(successes: seq<(AnnualTask, AnnualExtract.Extracted)>, key: SeriesKey,
                                  rows: seq<Point>, slots: seq<Slot>)
    requires rows == MonthlyRows(successes, key) && rows != [] && slots == FillContiguous(rows)
    ensures |slots| > 0 && forall k :: 0 <= k < |slots| ==> slots[k].pos == slots[0].pos + k
    ensures forall i :: MonthWithData(successes, key, i) ==> slots[0].pos <= i <= slots[|slots| - 1].pos
    ensures forall k :: 0 <= k < |slots| ==>
              (slots[k].value.Some? <==> MonthWithData(successes, key, slots[k].pos))
    ensures forall k :: 0 <= k < |slots| && slots[k].value.Some? ==>
              MonthObserved(successes, key, YearOfIndex(slots[k].pos), MonthOfIndex(slots[k].pos), slots[k].value.value)
    ensures slots[0].value.Some? && slots[|slots| - 1].value.Some?
  {
    assert RowsAreMonthlyMeans(successes, key, rows);
    MonthlySlotsSpan(successes, key, rows, slots);
    MonthlySlotsFilled(successes, key, rows, slots);
    MonthlySlotValues(successes, key, rows, slots);
  }

  /** The monthly grid spans every month with a mean. */
  lemma MonthlySlotsSpan(successes: seq<(AnnualTask, AnnualExtract.Extracted)>, key: SeriesKey,
                         rows: seq<Point>, slots: seq<Slot>)
    requires RowsAreMonthlyMeans(successes, key, rows) && rows != [] && slots == FillContiguous(rows)
    ensures forall i :: MonthWithData(successes, key, i) ==> slots[0].pos <= i <= slots[|slots| - 1].pos
  {
    forall i | MonthWithData(successes, key, i)
      ensures slots[0].pos <= i <= slots[|slots| - 1].pos
    {
      MonthRowIffData(successes, key, rows, i);
      var j :| 0 <= j < |rows| && rows[j].pos == i;
    }
  }

  /** A monthly slot is filled exactly when its month has a mean. */
  lemma MonthlySlotsFilled(successes: seq<(AnnualTask, AnnualExtract.Extracted)>, key: SeriesKey,
                           rows: seq<Point>, slots: seq<Slot>)
    requires RowsAreMonthlyMeans(successes, key, rows) && rows != [] && slots == FillContiguous(rows)
    ensures forall k :: 0 <= k < |slots| ==>
              (slots[k].value.Some? <==> MonthWithData(successes, key, slots[k].pos))
  {
    forall k | 0 <= k < |slots|
      ensures slots[k].value.Some? <==> MonthWithData(successes, key, slots[k].pos)
    {
      MonthRowIffData(successes, key, rows, slots[k].pos);
    }
  }

  /** A filled monthly slot holds a monthly mean of its month. */
  lemma MonthlySlotValues(successes: seq<(AnnualTask, AnnualExtract.Extracted)>, key: SeriesKey,
                          rows: seq<Point>, slots: seq<Slot>)
    requires RowsAreMonthlyMeans(successes, key, rows)
    requires forall k :: 0 <= k < |slots| && slots[k].value.Some? ==> Point(slots[k].pos, slots[k].value.value) in rows
    ensures forall k :: 0 <= k < |slots| && slots[k].value.Some? ==>
              MonthObserved(successes, key, YearOfIndex(slots[k].pos), MonthOfIndex(slots[k].pos), slots[k].value.value)
  {
    forall k | 0 <= k < |slots| && slots[k].value.Some?
      ensures MonthObserved(successes, key, YearOfIndex(slots[k].pos), MonthOfIndex(slots[k].pos), slots[k].value.value)
    {
      assert Point(slots[k].pos, slots[k].value.value) in rows;
    }
  }

  /** `rows` holds exactly the (month, mean) pairs of the series' pollutant and site. */
  ghost predicate RowsAreMonthlyMeans(successes: seq<(AnnualTask, AnnualExtract.Extracted)>, key: SeriesKey, rows: seq<Point>) {
    forall p :: p in rows <==> MonthObserved(successes, key, YearOfIndex(p.pos), MonthOfIndex(p.pos), p.value)
  }

  /** A month has a row exactly when it has a monthly mean. */
  lemma MonthRowIffData(successes: seq<(AnnualTask, AnnualExtract.Extracted)>, key: SeriesKey, rows: seq<Point>, i: int)
    requires RowsAreMonthlyMeans(successes, key, rows)
    ensures Observed(rows, i) <==> MonthWithData(successes, key, i)
  {
    if MonthWithData(successes, key, i) {
      var v :| MonthObserved(successes, key, YearOfIndex(i), MonthOfIndex(i), v);
      assert Point(i, v) in rows;
      var j :| 0 <= j < |rows| && rows[j] == Point(i, v);
      assert rows[j].pos == i;
    }
    if Observed(rows, i) {
      var j :| 0 <= j < |rows| && rows[j].pos == i;
      assert rows[j] in rows;
      assert MonthObserved(successes, key, YearOfIndex(i), MonthOfIndex(i), rows[j].value);
    }
  }

  /** Reading `p` was returned for the series' pollutant and site. */
  ghost predicate Reading(successes: seq<(HourlyTask, seq<Point>)>, key: SeriesKey, p: Point) {
    exists data :: (HourlyTask(key.site, key.pollutant), data) in successes && p in data
  }

  /** The daily or hourly rows of one series: every reading returned for its pollutant and site. */
  function TimedRows(successes: seq<(HourlyTask, seq<Point>)>, key: SeriesKey): (r: seq<Point>)
    ensures forall p :: p in r <==> Reading(successes, key, p)
  {
    if |successes| == 0 then []
    else
      var (task, data) := successes[0];
      var rest := TimedRows(successes[1..], key);
      var head := if task == HourlyTask(key.site, key.pollutant) then data else [];
      TimedRowsStep(successes, key, head, rest);
      head + rest
  }

  lemma TimedRowsStep(successes: seq<(HourlyTask, seq<Point>)>, key: SeriesKey, head: seq<Point>, rest: seq<Point>)
    requires |successes| > 0
    requires head == (if successes[0].0 == HourlyTask(key.site, key.pollutant) then successes[0].1 else [])
    requires forall p :: p in rest <==> Reading(successes[1..], key, p)
    ensures forall p :: p in head + rest <==> Reading(successes, key, p)
  {
    forall p
      ensures p in head + rest <==> Reading(successes, key, p)
    {
      if p in head {
        assert successes[0] in successes;
      } else if p in rest {
        var data :| (HourlyTask(key.site, key.pollutant), data) in successes[1..] && p in data;
        assert (HourlyTask(key.site, key.pollutant), data) in successes;
      }
      if Reading(successes, key, p) {
        var data :| (HourlyTask(key.site, key.pollutant), data) in successes && p in data;
        if (HourlyTask(key.site, key.pollutant), data) != successes[0] {
          assert (HourlyTask(key.site, key.pollutant), data) in successes[1..];
        }
      }
    }
  }

  /** A reading of the series lies within `tol` of `at`. */
  ghost predicate ReadingNear(successes: seq<(HourlyTask, seq<Point>)>, key: SeriesKey, at: int, tol: int) {
    exists p :: Reading(successes, key, p) && Near(p, at, tol)
  }

  /** A reading of the series with value `v` lies within `tol` of `at`. */
  ghost predicate ReadingNearWithValue(successes: seq<(HourlyTask, seq<Point>)>, key: SeriesKey, at: int, tol: int, v: real) {
    exists p :: Reading(successes, key, p) && Near(p, at, tol) && p.value == v
  }

  lemma TimedRowsExistIffRead(successes: seq<(HourlyTask, seq<Point>)>, key: SeriesKey)
    ensures TimedRows(successes, key) != [] <==> exists p :: Reading(successes, key, p)
  {
    var rows := TimedRows(successes, key);
    if rows != [] {
      assert rows[0] in rows;
    }
  }

  /**
   * The daily or hourly series of one (pollutant, site) pair: slots one
   * cadence step apart from the earliest reading on, each holding a reading
   * within the cadence's tolerance or `None`.
   */
  function TimedSeries(successes: seq<(HourlyTask, seq<Point>)>, key: SeriesKey, cadence: Cadence): (r: Option<seq<Slot>>)
    ensures r.Some? <==> exists p :: Reading(successes, key, p)
    ensures r.Some? ==> |r.value| > 0 && forall k :: 0 <= k < |r.value| ==> r.value[k].pos == r.value[0].pos + k * StepOf(cadence)
    ensures r.Some? ==> forall p :: Reading(successes, key, p) ==>
              r.value[0].pos <= p.pos < r.value[|r.value| - 1].pos + StepOf(cadence)
    ensures r.Some? ==> exists p :: Reading(successes, key, p) && p.pos == r.value[0].pos
    ensures r.Some? ==> exists p :: Reading(successes, key, p) && r.value[|r.value| - 1].pos <= p.pos
    ensures r.Some? ==> forall k :: 0 <= k < |r.value| ==>
              (r.value[k].value.Some? <==> ReadingNear(successes, key, r.value[k].pos, ToleranceOf(cadence)))
    ensures r.Some? ==> forall k :: 0 <= k < |r.value| && r.value[k].value.Some? ==>
              ReadingNearWithValue(successes, key, r.value[k].pos, ToleranceOf(cadence), r.value[k].value.value)
    ensures r.Some? ==> r.value[0].value.Some?
  {
    var rows := TimedRows(successes, key);
    TimedRowsExistIffRead(successes, key);
    if rows == [] then
      None
    else
      var slots := FillTimed(rows, cadence);
      TimedSlotsDescribeReadings(successes, key, cadence, rows, slots);
      Some(slots)
  }

  /** The timed grid of the series' rows, read back against the readings. */
  lemma TimedSlotsDescribeReadings(successes: seq<(HourlyTask, seq<Point>)>, key: SeriesKey, cadence: Cadence,
                                   rows: seq<Point>, slots: seq<Slot>)
    requires rows == TimedRows(successes, key) && rows != [] && slots == FillTimed(rows, cadence)
    ensures |slots| > 0 && forall k :: 0 <= k < |slots| ==> slots[k].pos == slots[0].pos + k * StepOf(cadence)
    ensures forall p :: Reading(successes, key, p) ==> slots[0].pos <= p.pos < slots[|slots| - 1].pos + StepOf(cadence)
    ensures exists p :: Reading(successes, key, p) && p.pos == slots[0].pos
    ensures exists p :: Reading(successes, key, p) && slots[|slots| - 1].pos <= p.pos
    ensures forall k :: 0 <= k < |slots| ==>
              (slots[k].value.Some? <==> ReadingNear(successes, key, slots[k].pos, ToleranceOf(cadence)))
    ensures forall k :: 0 <= k < |slots| && slots[k].value.Some? ==>
              ReadingNearWithValue(successes, key, slots[k].pos, ToleranceOf(cadence), slots[k].value.value)
    ensures slots[0].value.Some?
  {
    TimedSlotsSpanReadings(successes, key, cadence, rows, slots);
    TimedSlotsMatchReadings(successes, key, cadence, rows, slots);
  }

  /** The first slot sits on a reading, and the readings lie within the grid's span. */
  lemma TimedSlotsSpanReadings(successes: seq<(HourlyTask, seq<Point>)>, key: SeriesKey, cadence: Cadence,
                               rows: seq<Point>, slots: seq<Slot>)
    requires rows == TimedRows(successes, key) && rows != [] && slots == FillTimed(rows, cadence)
    ensures forall p :: Reading(successes, key, p) ==> slots[0].pos <= p.pos < slots[|slots| - 1].pos + StepOf(cadence)
    ensures exists p :: Reading(successes, key, p) && p.pos == slots[0].pos
    ensures exists p :: Reading(successes, key, p) && slots[|slots| - 1].pos <= p.pos
  {
    forall p | Reading(successes, key, p)
      ensures slots[0].pos <= p.pos < slots[|slots| - 1].pos + StepOf(cadence)
    {
      assert p in rows;
    }
    var i :| 0 <= i < |rows| && rows[i].pos == slots[0].pos;
    assert rows[i] in rows;
    var j :| 0 <= j < |rows| && slots[|slots| - 1].pos <= rows[j].pos;
    assert rows[j] in rows;
  }

  /** A slot is filled exactly when a reading lies within tolerance, and then with such a reading's value. */
  lemma TimedSlotsMatchReadings(successes: seq<(HourlyTask, seq<Point>)>, key: SeriesKey, cadence: Cadence,
                                rows: seq<Point>, slots: seq<Slot>)
    requires rows == TimedRows(successes, key) && rows != [] && slots == FillTimed(rows, cadence)
    ensures forall k :: 0 <= k < |slots| ==>
              (slots[k].value.Some? <==> ReadingNear(successes, key, slots[k].pos, ToleranceOf(cadence)))
    ensures forall k :: 0 <= k < |slots| && slots[k].value.Some? ==>
              ReadingNearWithValue(successes, key, slots[k].pos, ToleranceOf(cadence), slots[k].value.value)
  {
    forall k | 0 <= k < |slots|
      ensures slots[k].value.Some? <==> ReadingNear(successes, key, slots[k].pos, ToleranceOf(cadence))
    {
      TimedSlotMatchesReadings(successes, key, cadence, rows, slots, k);
    }
    forall k | 0 <= k < |slots| && slots[k].value.Some?
      ensures ReadingNearWithValue(successes, key, slots[k].pos, ToleranceOf(cadence), slots[k].value.value)
    {
      TimedSlotValueIsReading(successes, key, cadence, rows, slots, k);
    }
  }

  lemma TimedSlotMatchesReadings(successes: seq<(HourlyTask, seq<Point>)>, key: SeriesKey, cadence: Cadence,
                                 rows: seq<Point>, slots: seq<Slot>, k: int)
    requires rows == TimedRows(successes, key) && rows != [] && slots == FillTimed(rows, cadence)
    requires 0 <= k < |slots|
    ensures slots[k].value.Some? <==> ReadingNear(successes, key, slots[k].pos, ToleranceOf(cadence))
  {
    RowNearIffReadingNear(successes, key, rows, slots[k].pos, ToleranceOf(cadence));
  }

  lemma RowNearIffReadingNear(successes: seq<(HourlyTask, seq<Point>)>, key: SeriesKey, rows: seq<Point>, at: int, tol: int)
    requires rows == TimedRows(successes, key)
    ensures AnyNear(rows, at, tol) <==> ReadingNear(successes, key, at, tol)
  {
    if AnyNear(rows, at, tol) {
      var i :| 0 <= i < |rows| && Near(rows[i], at, tol);
      assert rows[i] in rows;
      assert Reading(successes, key, rows[i]);
    }
    if ReadingNear(successes, key, at, tol) {
      var p :| Reading(successes, key, p) && Near(p, at, tol);
      assert p in rows;
      var i :| 0 <= i < |rows| && rows[i] == p;
      assert Near(rows[i], at, tol);
    }
  }

  lemma TimedSlotValueIsReading(successes: seq<(HourlyTask, seq<Point>)>, key: SeriesKey, cadence: Cadence,
                                rows: seq<Point>, slots: seq<Slot>, k: int)
    requires rows == TimedRows(successes, key) && rows != [] && slots == FillTimed(rows, cadence)
    requires 0 <= k < |slots| && slots[k].value.Some?
    ensures ReadingNearWithValue(successes, key, slots[k].pos, ToleranceOf(cadence), slots[k].value.value)
  {
    var at, tol, v := slots[k].pos, ToleranceOf(cadence), slots[k].value.value;
    var s := SortByPos(rows);
    assert FirstNearValue(s, at, tol, v);
    var i :| IsFirstNear(s, i, at, tol) && s[i].value == v;
    assert s[i] in s;
    assert s[i] in rows;
  }

  /** The daily grid over midnight points has its slots on midnights. */
  lemma DailySlotOnMidnight(ps: seq<Point>, k: int)
    requires |ps| > 0 && HourlyExtract.OnMidnights(ps)
    requires 0 <= k < |FillTimed(ps, DailyCadence)|
    ensures var at := FillTimed(ps, DailyCadence)[k].pos; HourlyExtract.IsMidnight(at)
  {
    var slots := FillTimed(ps, DailyCadence);
    var i0 :| 0 <= i0 < |ps| && ps[i0].pos == slots[0].pos;
    var d := HourlyExtract.DayOf(ps[i0].pos) + k;
    assert slots[k].pos == slots[0].pos + k * 1440;
    assert slots[k].pos == d * 1440;
    HourlyExtract.MidnightOfDay(d);
  }

  /** Over midnight points, a daily slot is filled exactly when a point sits on it. */
  lemma DailySlotFilledIffObserved(ps: seq<Point>, k: int)
    requires |ps| > 0 && HourlyExtract.OnMidnights(ps)
    requires 0 <= k < |FillTimed(ps, DailyCadence)|
    ensures var slot := FillTimed(ps, DailyCadence)[k]; slot.value.Some? <==> Observed(ps, slot.pos)
  {
    var slots := FillTimed(ps, DailyCadence);
    var at := slots[k].pos;
    DailySlotOnMidnight(ps, k);
    if AnyNear(ps, at, 720) {
      var j :| 0 <= j < |ps| && Near(ps[j], at, 720);
      HourlyExtract.MidnightsNear(ps[j].pos, at);
    }
    if Observed(ps, at) {
      var j :| 0 <= j < |ps| && ps[j].pos == at;
      assert Near(ps[j], at, 720);
    }
  }

  /** Over midnight points, a filled daily slot holds the value of a point sitting on it. */
  lemma DailySlotValueIsObserved(ps: seq<Point>, k: int)
    requires |ps| > 0 && HourlyExtract.OnMidnights(ps)
    requires 0 <= k < |FillTimed(ps, DailyCadence)| && FillTimed(ps, DailyCadence)[k].value.Some?
    ensures var slot := FillTimed(ps, DailyCadence)[k];
            exists j :: 0 <= j < |ps| && ps[j].pos == slot.pos && ps[j].value == slot.value.value
  {
    var slots := FillTimed(ps, DailyCadence);
    var at := slots[k].pos;
    DailySlotOnMidnight(ps, k);
    var s := SortByPos(ps);
    var i :| IsFirstNear(s, i, at, 720) && s[i].value == slots[k].value.value;
    assert s[i] in s;
    var j :| 0 <= j < |ps| && ps[j] == s[i];
    HourlyExtract.MidnightsNear(ps[j].pos, at);
  }

  /**
   * Daily means drawn at the daily cadence: a non-empty set of readings gives a
   * chart, every slot of it sits on a midnight, and a slot is filled exactly
   * when its date has readings, with that date's mean.
   */
  lemma DailyChartShowsDailyMeans(rs: seq<Point>)
    requires SortedByPos(rs) && rs != []
    ensures HourlyExtract.DailyMeans(rs) != []
    ensures HourlyExtract.DailyMeans(rs) != [] ==>
            var slots := FillTimed(HourlyExtract.DailyMeans(rs), DailyCadence);
            forall k :: 0 <= k < |slots| ==>
              && HourlyExtract.IsMidnight(slots[k].pos)
              && (slots[k].value.Some? <==> HourlyExtract.DayOf(slots[k].pos) in HourlyExtract.Days(rs))
              && (slots[k].value.Some? ==>
                    && |HourlyExtract.ValuesOn(rs, HourlyExtract.DayOf(slots[k].pos))| > 0
                    && slots[k].value.value == HourlyExtract.Mean(HourlyExtract.ValuesOn(rs, HourlyExtract.DayOf(slots[k].pos))))
  {
    var means := HourlyExtract.DailyMeans(rs);
    HourlyExtract.DaysMembership(rs, HourlyExtract.DayOf(rs[0].pos));
    HourlyExtract.DaysMembership(means, HourlyExtract.DayOf(rs[0].pos));
    assert means != [];
    assert HourlyExtract.OnMidnights(means);
    var slots := FillTimed(means, DailyCadence);
    forall k | 0 <= k < |slots|
      ensures HourlyExtract.IsMidnight(slots[k].pos)
      ensures slots[k].value.Some? <==> HourlyExtract.DayOf(slots[k].pos) in HourlyExtract.Days(rs)
      ensures slots[k].value.Some? ==>
                && |HourlyExtract.ValuesOn(rs, HourlyExtract.DayOf(slots[k].pos))| > 0
                && slots[k].value.value == HourlyExtract.Mean(HourlyExtract.ValuesOn(rs, HourlyExtract.DayOf(slots[k].pos)))
    {
      DailySlot(rs, means, k);
    }
  }

  /** One slot of the daily chart. */
  lemma DailySlot(rs: seq<Point>, means: seq<Point>, k: int)
    requires SortedByPos(rs) && means == HourlyExtract.DailyMeans(rs) && means != []
    requires 0 <= k < |FillTimed(means, DailyCadence)|
    ensures var slot := FillTimed(means, DailyCadence)[k];
            && HourlyExtract.IsMidnight(slot.pos)
            && (slot.value.Some? <==> HourlyExtract.DayOf(slot.pos) in HourlyExtract.Days(rs))
            && (slot.value.Some? ==>
                  && |HourlyExtract.ValuesOn(rs, HourlyExtract.DayOf(slot.pos))| > 0
                  && slot.value.value == HourlyExtract.Mean(HourlyExtract.ValuesOn(rs, HourlyExtract.DayOf(slot.pos))))
  {
    assert HourlyExtract.OnMidnights(means);
    var slot := FillTimed(means, DailyCadence)[k];
    DailySlotOnMidnight(means, k);
    DailySlotFilledIffObserved(means, k);
    DailyMeanSlotDay(rs, means, slot.pos);
    if slot.value.Some? {
      DailySlotValueIsObserved(means, k);
      DailyMeanSlotValue(rs, means, slot.pos, slot.value.value);
    }
  }

  lemma DailyMeanSlotDay(rs: seq<Point>, means: seq<Point>, at: int)
    requires SortedByPos(rs) && means == HourlyExtract.DailyMeans(rs)
    requires HourlyExtract.IsMidnight(at)
    ensures Observed(means, at) <==> HourlyExtract.DayOf(at) in HourlyExtract.Days(rs)
  {
    var d := HourlyExtract.DayOf(at);
    HourlyExtract.DaysMembership(means, d);
    if Observed(means, at) {
      var j :| 0 <= j < |means| && means[j].pos == at;
      assert means[j] in means;
    }
    if d in HourlyExtract.Days(means) {
      var p :| p in means && HourlyExtract.DayOf(p.pos) == d;
      var j :| 0 <= j < |means| && means[j] == p;
      assert means[j].pos == at;
    }
  }

  lemma DailyMeanSlotValue(rs: seq<Point>, means: seq<Point>, at: int, v: real)
    requires SortedByPos(rs) && means == HourlyExtract.DailyMeans(rs)
    requires exists j :: 0 <= j < |means| && means[j].pos == at && means[j].value == v
    ensures |HourlyExtract.ValuesOn(rs, HourlyExtract.DayOf(at))| > 0
    ensures v == HourlyExtract.Mean(HourlyExtract.ValuesOn(rs, HourlyExtract.DayOf(at)))
  {
    var j :| 0 <= j < |means| && means[j].pos == at && means[j].value == v;
  }
}
