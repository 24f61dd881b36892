/**
 * The hourly-data extractor: keeps the measurements of one species that carry
 * a timestamp and a usable value, orders them by time and, in daily mode,
 * replaces them by one mean per calendar date.
 *
 * Timestamps are minutes on a linear scale; a calendar date is the day number
 * `t / 1440` (floor division), and its midnight is `d * 1440`.
 */
module HourlyExtract {
  import opened Options
  import opened Payload
  import opened Points
  import Filtering

  datatype Granularity = Hourly | Daily

  const MinutesPerDay: int := 1440

  /** A measurement of `pollutant` with a truthy timestamp and a usable value. */
  predicate Qualifies(point: DataPoint, pollutant: string) {
    point.Measurement? && point.speciesCode == Some(pollutant) && Truthy(point.measuredAt) && Usable(point.value)
  }

  /** The reading a data point contributes; `None` when it is skipped. */
  function ReadingOf(point: DataPoint, pollutant: string, parseTime: string -> Option<int>,
                     parseNum: string -> Option<real>): (r: Option<Point>)
    ensures r.Some? ==> Qualifies(point, pollutant)
                        && parseTime(point.measuredAt.value) == Some(r.value.pos)
                        && parseNum(point.value.value) == Some(r.value.value)
    ensures (Qualifies(point, pollutant) && parseTime(point.measuredAt.value).Some?
             && parseNum(point.value.value).Some?) ==> r.Some?
  {
    if Qualifies(point, pollutant) then
      match (parseTime(point.measuredAt.value), parseNum(point.value.value))
      case (Some(t), Some(v)) => Some(Point(t, v))
      case _ => None
    else None
  }

  /** The per-point test of the filtering loop, as a function to filter by. */
  function ReadingFilter(pollutant: string, parseTime: string -> Option<int>,
                         parseNum: string -> Option<real>): DataPoint -> Option<Point>
  {
    point => ReadingOf(point, pollutant, parseTime, parseNum)
  }

  /**
   * The filtering loop over the data points, in payload order. Any element that
   * is not an object aborts the extraction (`None`); otherwise the result holds
   * the reading of every qualifying point, once per point, in payload order.
   */
  function ValidReadings(points: seq<DataPoint>, pollutant: string, parseTime: string -> Option<int>,
                         parseNum: string -> Option<real>): (r: Option<seq<Point>>)
    ensures r.None? <==> exists j :: 0 <= j < |points| && points[j].NotAnObjectPoint?
    ensures r.Some? ==> |r.value| <= |points|
    ensures r.Some? ==> forall i :: 0 <= i < |r.value| ==>
              exists j :: 0 <= j < |points| && ReadingOf(points[j], pollutant, parseTime, parseNum) == Some(r.value[i])
    ensures r.Some? ==> forall j :: 0 <= j < |points| && ReadingOf(points[j], pollutant, parseTime, parseNum).Some? ==>
              ReadingOf(points[j], pollutant, parseTime, parseNum).value in r.value
    ensures r.Some? ==> Filtering.IsFilter(r.value, points, ReadingFilter(pollutant, parseTime, parseNum))
    decreases |points|
  {
    if |points| == 0 then
      Filtering.FilterEmpty(ReadingFilter(pollutant, parseTime, parseNum));
      Some([])
    else if points[0].NotAnObjectPoint? then None
    else
      var tail := ValidReadings(points[1..], pollutant, parseTime, parseNum);
      assert forall j :: 1 <= j < |points| ==> points[j] == points[1..][j - 1];
      match tail
      case None => None
      case Some(rest) =>
        var f := ReadingFilter(pollutant, parseTime, parseNum);
        assert Filtering.IsFilter((if f(points[0]).Some? then [f(points[0]).value] else []) + rest, points, f) by {
          Filtering.FilterStep(points, f, rest);
        }
        match ReadingOf(points[0], pollutant, parseTime, parseNum)
        case Some(p) => Some([p] + rest)
        case None => assert [] + rest == rest; Some(rest)
  }

  /**
   * The filtering clause fixes the readings completely: when every element is
   * an object, a list that keeps the qualifying readings in payload order, each
   * once per point, is the result.
   */
  lemma ValidReadingsDetermined(points: seq<DataPoint>, pollutant: string, parseTime: string -> Option<int>,
                                parseNum: string -> Option<real>, r: seq<Point>)
    requires forall j :: 0 <= j < |points| ==> !points[j].NotAnObjectPoint?
    requires Filtering.IsFilter(r, points, ReadingFilter(pollutant, parseTime, parseNum))
    ensures ValidReadings(points, pollutant, parseTime, parseNum) == Some(r)
  {
    var valid := ValidReadings(points, pollutant, parseTime, parseNum).value;
    Filtering.FilterUnique(valid, r, points, ReadingFilter(pollutant, parseTime, parseNum));
  }

  function DayOf(t: int): int {
    t / MinutesPerDay
  }

  /** `t` is the midnight that starts its date. */
  predicate IsMidnight(t: int) {
    t == DayOf(t) * MinutesPerDay
  }

  /** Every point sits on a midnight. */
  predicate OnMidnights(ps: seq<Point>) {
    forall i :: 0 <= i < |ps| ==> IsMidnight(ps[i].pos)
  }

  /** The midnight of date `d` belongs to date `d`. */
  lemma MidnightOfDay(d: int)
    ensures DayOf(d * MinutesPerDay) == d
  {
  }

  /** Two midnights less than half a day apart are the same midnight. */
  lemma MidnightsNear(a: int, b: int)
    requires IsMidnight(a) && IsMidnight(b)
    requires -720 <= a - b <= 720
    ensures a == b
  {
  }

  lemma DayOfMonotone(a: int, b: int)
    requires a <= b
    ensures DayOf(a) <= DayOf(b)
  {
  }

  function Sum(vs: seq<real>): real {
    if |vs| == 0 then 0.0 else vs[0] + Sum(vs[1..])
  }

  function Mean(vs: seq<real>): real
    requires |vs| > 0
  {
    Sum(vs) / (|vs| as real)
  }

  function Values(ps: seq<Point>): (vs: seq<real>)
    ensures |vs| == |ps|
    ensures forall i :: 0 <= i < |ps| ==> vs[i] == ps[i].value
  {
    if |ps| == 0 then [] else [ps[0].value] + Values(ps[1..])
  }

  /** The values of the readings taken on day `d`, in order: the group of one date. */
  function ValuesOn(rs: seq<Point>, d: int): seq<real> {
    if |rs| == 0 then []
    else (if DayOf(rs[0].pos) == d then [rs[0].value] else []) + ValuesOn(rs[1..], d)
  }

  /** The calendar dates present among the readings. */
  function Days(rs: seq<Point>): set<int> {
    if |rs| == 0 then {} else {DayOf(rs[0].pos)} + Days(rs[1..])
  }

  predicate StrictlyIncreasing(ps: seq<Point>) {
    forall i, j :: 0 <= i < j < |ps| ==> ps[i].pos < ps[j].pos
  }

  lemma {:induction false} DaysMembership(rs: seq<Point>, d: int)
    ensures d in Days(rs) <==> exists p :: p in rs && DayOf(p.pos) == d
  {
    if |rs| > 0 {
      DaysMembership(rs[1..], d);
      assert rs == [rs[0]] + rs[1..];
      if d in Days(rs[1..]) {
        var p :| p in rs[1..] && DayOf(p.pos) == d;
        assert p in rs;
      }
    }
  }

  lemma {:induction false} ValuesOnAppend(a: seq<Point>, b: seq<Point>, d: int)
    ensures ValuesOn(a + b, d) == ValuesOn(a, d) + ValuesOn(b, d)
  {
    if |a| == 0 {
      assert a + b == b;
    } else {
      var head := if DayOf(a[0].pos) == d then [a[0].value] else [];
      assert (a + b)[0] == a[0];
      assert (a + b)[1..] == a[1..] + b;
      assert ValuesOn(a + b, d) == head + ValuesOn(a[1..] + b, d);
      ValuesOnAppend(a[1..], b, d);
      assert ValuesOn(a, d) == head + ValuesOn(a[1..], d);
      assert head + (ValuesOn(a[1..], d) + ValuesOn(b, d)) == (head + ValuesOn(a[1..], d)) + ValuesOn(b, d);
    }
  }

  lemma {:induction false} ValuesOnWholeRun(a: seq<Point>, d: int)
    requires forall i :: 0 <= i < |a| ==> DayOf(a[i].pos) == d
    ensures ValuesOn(a, d) == Values(a)
  {
    if |a| > 0 {
      ValuesOnWholeRun(a[1..], d);
    }
  }

  lemma {:induction false} ValuesOnOtherDays(a: seq<Point>, d: int)
    requires forall i :: 0 <= i < |a| ==> DayOf(a[i].pos) != d
    ensures ValuesOn(a, d) == []
  {
    if |a| > 0 {
      ValuesOnOtherDays(a[1..], d);
    }
  }

  lemma {:induction false} ValuesOnPresentDay(rs: seq<Point>, d: int)
    requires d in Days(rs)
    ensures |ValuesOn(rs, d)| > 0
  {
    if DayOf(rs[0].pos) != d {
      ValuesOnPresentDay(rs[1..], d);
    }
  }

  lemma {:induction false} SumAppend(a: seq<real>, b: seq<real>)
    ensures Sum(a + b) == Sum(a) + Sum(b)
  {
    if |a| == 0 {
      assert a + b == b;
    } else {
      SumAppend(a[1..], b);
      assert (a + b)[0] == a[0];
      assert (a + b)[1..] == a[1..] + b;
    }
  }

  /** Taking out the element at `k`: the multiset of the rest. */
  lemma MultisetWithout<T>(b: seq<T>, k: int)
    requires 0 <= k < |b|
    ensures multiset(b[..k] + b[k + 1..]) == multiset(b) - multiset{b[k]}
  {
    assert b == b[..k] + [b[k]] + b[k + 1..];
  }

  lemma SumWithout(b: seq<real>, k: int)
    requires 0 <= k < |b|
    ensures Sum(b) == b[k] + Sum(b[..k] + b[k + 1..])
  {
    var x, y := b[..k], b[k + 1..];
    assert b == x + b[k..];
    SumAppend(x, b[k..]);
    assert Sum(b[k..]) == b[k] + Sum(y) by {
      assert b[k..][1..] == y;
    }
    SumAppend(x, y);
  }

  /** The head of `a` sits somewhere in its permutation `b`; what is left of each is again a permutation. */
  lemma MatchHead<T>(a: seq<T>, b: seq<T>) returns (k: int)
    requires |a| > 0 && multiset(a) == multiset(b)
    ensures 0 <= k < |b| && b[k] == a[0]
    ensures multiset(a[1..]) == multiset(b[..k] + b[k + 1..])
  {
    assert a[0] in multiset(b);
    k :| 0 <= k < |b| && b[k] == a[0];
    assert a == [a[0]] + a[1..];
    assert multiset(a) == multiset{a[0]} + multiset(a[1..]);
    MultisetWithout(b, k);
  }

  /** A sum does not depend on the order of its terms. */
  lemma {:induction false} SumPermutation(a: seq<real>, b: seq<real>)
    requires multiset(a) == multiset(b)
    ensures Sum(a) == Sum(b)
    decreases |a|
  {
    if |a| == 0 {
      assert |b| == |multiset(b)| == 0;
    } else {
      var k := MatchHead(a, b);
      SumPermutation(a[1..], b[..k] + b[k + 1..]);
      SumWithout(b, k);
    }
  }

  lemma ValuesOnWithout(b: seq<Point>, k: int, d: int)
    requires 0 <= k < |b|
    ensures ValuesOn(b, d) == ValuesOn(b[..k], d) + ValuesOn([b[k]], d) + ValuesOn(b[k + 1..], d)
    ensures ValuesOn(b[..k] + b[k + 1..], d) == ValuesOn(b[..k], d) + ValuesOn(b[k + 1..], d)
  {
    assert b == b[..k] + ([b[k]] + b[k + 1..]);
    ValuesOnAppend(b[..k], [b[k]] + b[k + 1..], d);
    ValuesOnAppend([b[k]], b[k + 1..], d);
    ValuesOnAppend(b[..k], b[k + 1..], d);
  }

  /** The group of a date depends only on which readings there are, not on their order. */
  lemma {:induction false} ValuesOnPermutation(a: seq<Point>, b: seq<Point>, d: int)
    requires multiset(a) == multiset(b)
    ensures multiset(ValuesOn(a, d)) == multiset(ValuesOn(b, d))
    decreases |a|
  {
    if |a| == 0 {
      assert |b| == |multiset(b)| == 0;
    } else {
      var k := MatchHead(a, b);
      ValuesOnPermutation(a[1..], b[..k] + b[k + 1..], d);
      ValuesOnMoveToFront(a, b, k, d);
    }
  }

  /** Moving reading `k` of `b` to the front does not change the multiset of a date's group. */
  lemma ValuesOnMoveToFront(a: seq<Point>, b: seq<Point>, k: int, d: int)
    requires |a| > 0 && 0 <= k < |b| && b[k] == a[0]
    requires multiset(ValuesOn(a[1..], d)) == multiset(ValuesOn(b[..k] + b[k + 1..], d))
    ensures multiset(ValuesOn(a, d)) == multiset(ValuesOn(b, d))
  {
    var one := ValuesOn([a[0]], d);
    assert ValuesOn(a, d) == one + ValuesOn(a[1..], d) by {
      assert a == [a[0]] + a[1..];
      ValuesOnAppend([a[0]], a[1..], d);
    }
    ValuesOnWithout(b, k, d);
    assert [b[k]] == [a[0]];
    Rearranged(ValuesOn(a, d), one, ValuesOn(a[1..], d), ValuesOn(b, d), ValuesOn(b[..k], d), ValuesOn(b[k + 1..], d));
  }

  /** Moving the middle part of `x + one + y` to the front keeps the multiset. */
  lemma Rearranged(va: seq<real>, one: seq<real>, rest: seq<real>, vb: seq<real>, x: seq<real>, y: seq<real>)
    requires va == one + rest && vb == x + one + y && multiset(rest) == multiset(x + y)
    ensures multiset(va) == multiset(vb)
  {
    assert multiset(vb) == multiset(x) + multiset(one) + multiset(y);
  }

  /** The number of leading readings taken on day `d`. */
  function RunLength(rs: seq<Point>, d: int): (n: nat)
    ensures n <= |rs|
    ensures forall i :: 0 <= i < n ==> DayOf(rs[i].pos) == d
    ensures n < |rs| ==> DayOf(rs[n].pos) != d
  {
    if |rs| == 0 || DayOf(rs[0].pos) != d then 0 else 1 + RunLength(rs[1..], d)
  }

  /** In a time-ordered sequence, every reading after the leading run of day `d` is on a later day. */
  lemma AfterRunIsLater(rs: seq<Point>, d: int, n: nat)
    requires SortedByPos(rs) && |rs| > 0 && d == DayOf(rs[0].pos) && n == RunLength(rs, d)
    ensures forall i :: n <= i < |rs| ==> DayOf(rs[i].pos) > d
  {
    forall i | n <= i < |rs|
      ensures DayOf(rs[i].pos) > d
    {
      DayOfMonotone(rs[0].pos, rs[n].pos);
      DayOfMonotone(rs[n].pos, rs[i].pos);
    }
  }

  /**
   * Grouping by date: one reading per date present, at that date's midnight,
   * holding the mean of that date's values, ordered by date.
   */
  function DailyMeans(rs: seq<Point>): (r: seq<Point>)
    requires SortedByPos(rs)
    ensures StrictlyIncreasing(r)
    ensures OnMidnights(r)
    ensures Days(r) == Days(rs)
    ensures forall i :: 0 <= i < |r| ==>
              |ValuesOn(rs, DayOf(r[i].pos))| > 0 && r[i].value == Mean(ValuesOn(rs, DayOf(r[i].pos)))
    decreases |rs|
  {
    if |rs| == 0 then []
    else
      var d := DayOf(rs[0].pos);
      var n := RunLength(rs, d);
      var rest := DailyMeans(rs[n..]);
      var head := Point(d * MinutesPerDay, Mean(Values(rs[..n])));
      DailyStep(rs, d, n, rest, head);
      [head] + rest
  }

  /** Every date of the tail after the leading run, hence of its daily means, is after `d`. */
  lemma RestDaysAfter(rs: seq<Point>, d: int, n: nat, rest: seq<Point>)
    requires SortedByPos(rs) && |rs| > 0 && d == DayOf(rs[0].pos) && n == RunLength(rs, d)
    requires Days(rest) == Days(rs[n..])
    ensures forall i :: 0 <= i < |rest| ==> DayOf(rest[i].pos) > d
  {
    AfterRunIsLater(rs, d, n);
    var tail := rs[n..];
    assert forall k :: 0 <= k < |tail| ==> tail[k] == rs[n + k];
    LaterDays(tail, d, rest);
  }

  /** Readings with the same dates as readings all after `d` are all after `d`. */
  lemma LaterDays(tail: seq<Point>, d: int, rest: seq<Point>)
    requires forall k :: 0 <= k < |tail| ==> DayOf(tail[k].pos) > d
    requires Days(rest) == Days(tail)
    ensures forall i :: 0 <= i < |rest| ==> DayOf(rest[i].pos) > d
  {
    forall i | 0 <= i < |rest|
      ensures DayOf(rest[i].pos) > d
    {
      var e := DayOf(rest[i].pos);
      DaysMembership(rest, e);
      assert rest[i] in rest;
      DaysMembership(tail, e);
      var p :| p in tail && DayOf(p.pos) == e;
      var k :| 0 <= k < |tail| && tail[k] == p;
    }
  }

  /** The group of `d` is the leading run; the group of a later date lies in the tail. */
  lemma GroupsSplitAtRun(rs: seq<Point>, d: int, n: nat)
    requires SortedByPos(rs) && |rs| > 0 && d == DayOf(rs[0].pos) && n == RunLength(rs, d)
    ensures ValuesOn(rs, d) == Values(rs[..n])
    ensures forall e :: e > d ==> ValuesOn(rs, e) == ValuesOn(rs[n..], e)
  {
    AfterRunIsLater(rs, d, n);
    assert rs == rs[..n] + rs[n..];
    ValuesOnAppend(rs[..n], rs[n..], d);
    ValuesOnWholeRun(rs[..n], d);
    ValuesOnOtherDays(rs[n..], d);
    forall e | e > d
      ensures ValuesOn(rs, e) == ValuesOn(rs[n..], e)
    {
      ValuesOnAppend(rs[..n], rs[n..], e);
      ValuesOnOtherDays(rs[..n], e);
    }
  }

  /** The inductive step of `DailyMeans`: prepending the leading run's mean keeps every property. */
  lemma DailyStep(rs: seq<Point>, d: int, n: nat, rest: seq<Point>, head: Point)
    requires SortedByPos(rs) && |rs| > 0 && d == DayOf(rs[0].pos) && n == RunLength(rs, d)
    requires head == Point(d * MinutesPerDay, Mean(Values(rs[..n])))
    requires StrictlyIncreasing(rest)
    requires forall i :: 0 <= i < |rest| ==> IsMidnight(rest[i].pos)
    requires Days(rest) == Days(rs[n..])
    requires forall i :: 0 <= i < |rest| ==>
               |ValuesOn(rs[n..], DayOf(rest[i].pos))| > 0
               && rest[i].value == Mean(ValuesOn(rs[n..], DayOf(rest[i].pos)))
    ensures n > 0
    ensures var r := [head] + rest;
      && StrictlyIncreasing(r)
      && (forall i :: 0 <= i < |r| ==> IsMidnight(r[i].pos))
      && Days(r) == Days(rs)
      && (forall i :: 0 <= i < |r| ==>
            |ValuesOn(rs, DayOf(r[i].pos))| > 0 && r[i].value == Mean(ValuesOn(rs, DayOf(r[i].pos))))
  {
    RestDaysAfter(rs, d, n, rest);
    DailyStepOrder(d, rest, head);
    DailyStepGroups(rs, d, n, rest, head);
    DailyStepDays(rs, d, n, rest, head);
  }

  lemma DailyStepOrder(d: int, rest: seq<Point>, head: Point)
    requires head.pos == d * MinutesPerDay
    requires StrictlyIncreasing(rest)
    requires forall i :: 0 <= i < |rest| ==> IsMidnight(rest[i].pos)
    requires forall i :: 0 <= i < |rest| ==> DayOf(rest[i].pos) > d
    ensures StrictlyIncreasing([head] + rest)
    ensures forall i :: 0 <= i < |[head] + rest| ==>
              IsMidnight(([head] + rest)[i].pos)
  {
    var r := [head] + rest;
    assert DayOf(head.pos) == d;
    forall i, j | 0 <= i < j < |r|
      ensures r[i].pos < r[j].pos
    {
      assert r[j] == rest[j - 1];
      if i > 0 {
        assert r[i] == rest[i - 1];
      }
    }
    forall i | 0 <= i < |r|
      ensures IsMidnight(r[i].pos)
    {
      if i > 0 {
        assert r[i] == rest[i - 1];
      }
    }
  }

  lemma DailyStepGroups(rs: seq<Point>, d: int, n: nat, rest: seq<Point>, head: Point)
    requires SortedByPos(rs) && |rs| > 0 && d == DayOf(rs[0].pos) && n == RunLength(rs, d)
    requires head == Point(d * MinutesPerDay, Mean(Values(rs[..n])))
    requires forall i :: 0 <= i < |rest| ==> DayOf(rest[i].pos) > d
    requires forall i :: 0 <= i < |rest| ==>
               |ValuesOn(rs[n..], DayOf(rest[i].pos))| > 0
               && rest[i].value == Mean(ValuesOn(rs[n..], DayOf(rest[i].pos)))
    ensures forall i :: 0 <= i < |[head] + rest| ==>
              |ValuesOn(rs, DayOf(([head] + rest)[i].pos))| > 0
              && ([head] + rest)[i].value == Mean(ValuesOn(rs, DayOf(([head] + rest)[i].pos)))
  {
    var r := [head] + rest;
    assert DayOf(head.pos) == d;
    GroupsSplitAtRun(rs, d, n);
    forall i | 0 <= i < |r|
      ensures |ValuesOn(rs, DayOf(r[i].pos))| > 0 && r[i].value == Mean(ValuesOn(rs, DayOf(r[i].pos)))
    {
      if i > 0 {
        assert r[i] == rest[i - 1];
      }
    }
  }

  lemma DailyStepDays(rs: seq<Point>, d: int, n: nat, rest: seq<Point>, head: Point)
    requires SortedByPos(rs) && |rs| > 0 && d == DayOf(rs[0].pos) && n == RunLength(rs, d)
    requires head.pos == d * MinutesPerDay
    requires Days(rest) == Days(rs[n..])
    ensures Days([head] + rest) == Days(rs)
  {
    var r := [head] + rest;
    assert DayOf(head.pos) == d;
    assert Days(r) == {d} + Days(rest) by {
      assert r[0] == head && r[1..] == rest;
    }
    assert rs == rs[..n] + rs[n..];
    DaysOfConcat(rs[..n], rs[n..]);
    DaysOfRun(rs[..n], d);
  }

  lemma {:induction false} DaysOfConcat(a: seq<Point>, b: seq<Point>)
    ensures Days(a + b) == Days(a) + Days(b)
  {
    if |a| == 0 {
      assert a + b == b;
    } else {
      DaysOfConcat(a[1..], b);
      assert (a + b)[0] == a[0];
      assert (a + b)[1..] == a[1..] + b;
    }
  }

  lemma {:induction false} DaysOfRun(a: seq<Point>, d: int)
    requires |a| > 0
    requires forall i :: 0 <= i < |a| ==> DayOf(a[i].pos) == d
    ensures Days(a) == {d}
  {
    if |a| > 1 {
      DaysOfRun(a[1..], d);
    }
  }

  /**
   * `extract_hourly_data`: the readings of `pollutant` ordered by time, or in
   * daily mode one mean per date. Empty whenever nothing qualifies.
   */
  function ExtractHourlyData(response: HourlyResponse, pollutant: string, granularity: Granularity,
                             parseTime: string -> Option<int>, parseNum: string -> Option<real>): (r: seq<Point>)
    ensures SortedByPos(r)
    ensures r != [] ==> response.Measurements?
                        && ValidReadings(response.points, pollutant, parseTime, parseNum).Some?
                        && ValidReadings(response.points, pollutant, parseTime, parseNum).value != []
    ensures response.Measurements? && granularity == Hourly ==>
              match ValidReadings(response.points, pollutant, parseTime, parseNum)
              case Some(valid) => multiset(r) == multiset(valid)
              case None => r == []
    ensures response.Measurements? && granularity == Daily ==>
              match ValidReadings(response.points, pollutant, parseTime, parseNum)
              case Some(valid) => IsDailyMeans(r, valid)
              case None => r == []
  {
    match response
    case Measurements(points) =>
      (match ValidReadings(points, pollutant, parseTime, parseNum)
       case Some(valid) =>
         if valid == [] then []
         else
           var sorted := SortByPos(valid);
           (match granularity
            case Hourly => sorted
            case Daily =>
              var r := DailyMeans(sorted);
              DailyMeansOfAnyOrder(valid, sorted, r);
              r)
       case None => [])
    case _ => []
  }

  /**
   * `r` holds one reading per date present in `valid`, at its midnight, with the
   * mean of that date's values, ordered by date.
   */
  ghost predicate IsDailyMeans(r: seq<Point>, valid: seq<Point>) {
    && StrictlyIncreasing(r)
    && Days(r) == Days(valid)
    && OnMidnights(r)
    && forall i :: 0 <= i < |r| ==>
         && |ValuesOn(valid, DayOf(r[i].pos))| > 0
         && r[i].value == Mean(ValuesOn(valid, DayOf(r[i].pos)))
  }

  lemma DailyMeansOfAnyOrder(valid: seq<Point>, sorted: seq<Point>, r: seq<Point>)
    requires sorted == SortByPos(valid)
    requires r == DailyMeans(sorted)
    ensures IsDailyMeans(r, valid)
  {
    forall d
      ensures d in Days(sorted) <==> d in Days(valid)
    {
      DaysMembership(sorted, d);
      DaysMembership(valid, d);
    }
    forall i | 0 <= i < |r|
      ensures |ValuesOn(valid, DayOf(r[i].pos))| > 0
      ensures r[i].value == Mean(ValuesOn(valid, DayOf(r[i].pos)))
    {
      var d := DayOf(r[i].pos);
      ValuesOnPermutation(sorted, valid, d);
      assert |ValuesOn(valid, d)| == |multiset(ValuesOn(valid, d))|;
      assert |ValuesOn(sorted, d)| == |multiset(ValuesOn(sorted, d))|;
      SumPermutation(ValuesOn(sorted, d), ValuesOn(valid, d));
    }
  }
}
