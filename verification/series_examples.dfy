/**
 * Worked examples of whole series, each derived from the contracts of the
 * series builders alone.
 */
module SeriesExamples {
  import opened Options
  import opened Payload
  import opened Points
  import opened GapFill
  import opened Collector
  import opened Series
  import AnnualExtract

  /** The annual means of the pair are exactly 18.3 for 2000 and 16.1 for 2002. */
  ghost predicate TwoYearsTwoApart(successes: seq<(AnnualTask, AnnualExtract.Extracted)>, key: SeriesKey) {
    forall y, v :: (AnnualTask(key.site, key.pollutant, y), AnnualExtract.AnnualMean(v)) in successes <==>
                   (y == 2000 && v == 18.3) || (y == 2002 && v == 16.1)
  }

  /** Two years with a gap between them: the gap year is drawn as `None`. */
  lemma AnnualGapIsDrawnAsNone(successes: seq<(AnnualTask, AnnualExtract.Extracted)>, key: SeriesKey)
    requires TwoYearsTwoApart(successes, key)
    ensures AnnualSeries(successes, key) == Some([Slot(2000, Some(18.3)), Slot(2001, None), Slot(2002, Some(16.1))])
  {
    assert AnnualObserved(successes, key, 2000) by {
      assert (AnnualTask(key.site, key.pollutant, 2000), AnnualExtract.AnnualMean(18.3)) in successes;
    }
    assert AnnualObserved(successes, key, 2002) by {
      assert (AnnualTask(key.site, key.pollutant, 2002), AnnualExtract.AnnualMean(16.1)) in successes;
    }
    NoMeanBetween(successes, key);
    var r := AnnualSeries(successes, key).value;
    assert |r| == 3 && r[0].pos == 2000 && r[2].pos == 2002 by {
      assert AnnualObserved(successes, key, r[0].pos) && AnnualObserved(successes, key, r[|r| - 1].pos);
      GridFromTo(r, 2000, 2002);
    }
    GapSlots(successes, key, r);
  }

  /** The three slots of the gap example, given the shape of the series. */
  lemma GapSlots(successes: seq<(AnnualTask, AnnualExtract.Extracted)>, key: SeriesKey, r: seq<Slot>)
    requires TwoYearsTwoApart(successes, key) && !AnnualObserved(successes, key, 2001)
    requires |r| == 3 && r[0].pos == 2000 && r[2].pos == 2002
    requires forall k :: 0 <= k < |r| ==> r[k].pos == r[0].pos + k
    requires forall k :: 0 <= k < |r| ==> (r[k].value.Some? <==> AnnualObserved(successes, key, r[k].pos))
    requires forall k :: 0 <= k < |r| && r[k].value.Some? ==>
               (AnnualTask(key.site, key.pollutant, r[k].pos), AnnualExtract.AnnualMean(r[k].value.value)) in successes
    requires r[0].value.Some? && r[2].value.Some?
    ensures r == [Slot(2000, Some(18.3)), Slot(2001, None), Slot(2002, Some(16.1))]
  {
    assert r[1].pos == 2001;
  }

  lemma NoMeanBetween(successes: seq<(AnnualTask, AnnualExtract.Extracted)>, key: SeriesKey)
    requires TwoYearsTwoApart(successes, key)
    ensures !AnnualObserved(successes, key, 2001)
  {
  }

  /** A contiguous grid whose ends are `lo` and `hi` has one slot per position in between. */
  lemma GridFromTo(r: seq<Slot>, lo: int, hi: int)
    requires |r| > 0 && forall k :: 0 <= k < |r| ==> r[k].pos == r[0].pos + k
    requires r[0].pos <= lo && hi <= r[|r| - 1].pos
    requires r[0].pos == lo || r[0].pos == hi
    requires r[|r| - 1].pos == lo || r[|r| - 1].pos == hi
    requires lo <= hi
    ensures r[0].pos == lo && r[|r| - 1].pos == hi && |r| == hi - lo + 1
  {
  }

  /** A mean row holding the sentinel gives no data, so that year is not a success. */
  lemma SentinelYearHasNoData(item: ReportItem, parseNum: string -> Option<real>)
    requires item == Row(Some("PM25"), Some("7"), Some("Mean: annual"), Some("-999"), map[])
    ensures ClassifyAnnual(AnnualTask("MY1", "PM25", 2024), Some(Report([item])), AnnualExtract.AnnualAveraging, parseNum)
         == NoData
  {
    assert StartsWith("Mean: annual", MeanNamePrefix);
    AnnualExtract.UnreadableMeanRowIsSkipped([item], "PM25", AnnualExtract.AnnualAveraging, parseNum);
    assert [item][1..] == [];
  }

  /**
   * With 2023 a success and 2024 lost to the sentinel, the series spans only
   * the years with data: a single slot for 2023, no trailing gap for 2024.
   */
  lemma SeriesEndsAtLastYearWithData(successes: seq<(AnnualTask, AnnualExtract.Extracted)>, key: SeriesKey)
    requires forall y, v :: (AnnualTask(key.site, key.pollutant, y), AnnualExtract.AnnualMean(v)) in successes <==>
                            y == 2023 && v == 14.2
    ensures AnnualSeries(successes, key) == Some([Slot(2023, Some(14.2))])
  {
    assert (AnnualTask(key.site, key.pollutant, 2023), AnnualExtract.AnnualMean(14.2)) in successes;
    assert AnnualObserved(successes, key, 2023);
    var r := AnnualSeries(successes, key).value;
    assert AnnualObserved(successes, key, r[0].pos) && AnnualObserved(successes, key, r[|r| - 1].pos);
    GridFromTo(r, 2023, 2023);
    var v := r[0].value.value;
    assert (AnnualTask(key.site, key.pollutant, 2023), AnnualExtract.AnnualMean(v)) in successes;
    assert r == [Slot(2023, Some(14.2))];
  }

  /** A grid of hourly slots from 0 whose last slot lies strictly between 60 and 180 has three slots. */
  lemma HourGridOfThree(r: seq<Slot>)
    requires |r| > 0 && forall k :: 0 <= k < |r| ==> r[k].pos == r[0].pos + k * 60
    requires r[0].pos == 0 && 60 < r[|r| - 1].pos < 180
    ensures |r| == 3 && r[1].pos == 60 && r[2].pos == 120
  {
  }

  /** The pair's readings are exactly `first` and `second`. */
  ghost predicate TwoReadings(successes: seq<(HourlyTask, seq<Point>)>, key: SeriesKey, first: Point, second: Point) {
    forall p :: Reading(successes, key, p) <==> p == first || p == second
  }

  /** The shape of an hourly series whose readings sit at minute 0 and in `(120, 180)`. */
  lemma HourlyShape(successes: seq<(HourlyTask, seq<Point>)>, key: SeriesKey, first: Point, second: Point)
    requires TwoReadings(successes, key, first, second) && first.pos == 0 && 120 < second.pos < 180
    ensures TimedSeries(successes, key, HourlyCadence).Some?
    ensures var r := TimedSeries(successes, key, HourlyCadence).value;
            |r| == 3 && r[0].pos == 0 && r[1].pos == 60 && r[2].pos == 120
  {
    assert Reading(successes, key, first);
    var r := TimedSeries(successes, key, HourlyCadence).value;
    HourlyShapeOf(successes, key, first, second, r);
  }

  lemma HourlyShapeOf(successes: seq<(HourlyTask, seq<Point>)>, key: SeriesKey, first: Point, second: Point, r: seq<Slot>)
    requires TwoReadings(successes, key, first, second) && first.pos == 0 && 120 < second.pos < 180
    requires |r| > 0 && forall k :: 0 <= k < |r| ==> r[k].pos == r[0].pos + k * 60
    requires forall p :: Reading(successes, key, p) ==> r[0].pos <= p.pos < r[|r| - 1].pos + 60
    requires exists p :: Reading(successes, key, p) && p.pos == r[0].pos
    requires exists p :: Reading(successes, key, p) && r[|r| - 1].pos <= p.pos
    ensures |r| == 3 && r[0].pos == 0 && r[1].pos == 60 && r[2].pos == 120
  {
    assert Reading(successes, key, first) && Reading(successes, key, second);
    assert r[0].pos == 0;
    HourGridOfThree(r);
  }

  /** The hourly slots of two readings, given the shape of the series. */
  lemma HourlySlotsOf(successes: seq<(HourlyTask, seq<Point>)>, key: SeriesKey, first: Point, second: Point, r: seq<Slot>)
    requires TwoReadings(successes, key, first, second) && first.pos == 0 && 120 < second.pos < 180
    requires |r| == 3 && r[0].pos == 0 && r[1].pos == 60 && r[2].pos == 120
    requires forall k :: 0 <= k < |r| ==> (r[k].value.Some? <==> ReadingNear(successes, key, r[k].pos, 30))
    requires forall k :: 0 <= k < |r| && r[k].value.Some? ==>
               ReadingNearWithValue(successes, key, r[k].pos, 30, r[k].value.value)
    ensures r == [Slot(0, Some(first.value)), Slot(60, None),
                  Slot(120, if second.pos <= 150 then Some(second.value) else None)]
  {
    assert ReadingNear(successes, key, 0, 30) by {
      assert Reading(successes, key, first) && Near(first, 0, 30);
    }
    var v0 := r[0].value.value;
    assert v0 == first.value by {
      var p :| Reading(successes, key, p) && Near(p, 0, 30) && p.value == v0;
    }
    if second.pos <= 150 {
      assert ReadingNear(successes, key, 120, 30) by {
        assert Reading(successes, key, second) && Near(second, 120, 30);
      }
      var v2 := r[2].value.value;
      assert v2 == second.value by {
        var p :| Reading(successes, key, p) && Near(p, 120, 30) && p.value == v2;
      }
    }
    assert r[1].value == None;
  }

  /**
   * Readings at minute 0 and 20 minutes past the second hour: the grid is
   * 0, 60, 120 and the late reading is drawn in the 120 slot, being within
   * the 30-minute tolerance.
   */
  lemma LateReadingWithinTolerance(successes: seq<(HourlyTask, seq<Point>)>, key: SeriesKey)
    requires TwoReadings(successes, key, Point(0, 41.0), Point(140, 37.5))
    ensures TimedSeries(successes, key, HourlyCadence) == Some([Slot(0, Some(41.0)), Slot(60, None), Slot(120, Some(37.5))])
  {
    HourlyShape(successes, key, Point(0, 41.0), Point(140, 37.5));
    var r := TimedSeries(successes, key, HourlyCadence).value;
    HourlySlotsOf(successes, key, Point(0, 41.0), Point(140, 37.5), r);
  }

  /**
   * Readings at minute 0 and 40 minutes past the second hour: the grid still
   * stops at 120, which is more than 30 minutes from the late reading, so
   * that reading is drawn nowhere and the series ends in a gap.
   */
  lemma LateReadingBeyondToleranceIsNotDrawn(successes: seq<(HourlyTask, seq<Point>)>, key: SeriesKey)
    requires TwoReadings(successes, key, Point(0, 41.0), Point(160, 37.5))
    ensures TimedSeries(successes, key, HourlyCadence) == Some([Slot(0, Some(41.0)), Slot(60, None), Slot(120, None)])
  {
    HourlyShape(successes, key, Point(0, 41.0), Point(160, 37.5));
    var r := TimedSeries(successes, key, HourlyCadence).value;
    HourlySlotsOf(successes, key, Point(0, 41.0), Point(160, 37.5), r);
  }
}
