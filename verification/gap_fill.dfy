/**
 * The gap-filler of the chart: turns the irregular points of one series into
 * an evenly spaced grid from the smallest to the largest observed position,
 * with `None` wherever no point falls close enough to a grid position.
 *
 * All four resolutions have the same shape: sort the points, step from the
 * minimum by a fixed step while not passing the maximum, and give each grid
 * position the value of the first sorted point within a tolerance of it.
 * Years and month indices use step 1 and tolerance 0 (exact match); hourly
 * and daily series use 60 and 1440 minutes with tolerances 30 and 720.
 */
module GapFill {
  import opened Options
  import opened Points

  /** One grid position of a filled series; `None` marks a gap. */
  datatype Slot = Slot(pos: int, value: Option<real>)

  datatype Cadence = HourlyCadence | DailyCadence

  function StepOf(c: Cadence): int {
    match c
    case HourlyCadence => 60
    case DailyCadence => 1440
  }

  function ToleranceOf(c: Cadence): int {
    match c
    case HourlyCadence => 30
    case DailyCadence => 720
  }

  /** `abs(p.pos - at) <= tol`. */
  predicate Near(p: Point, at: int, tol: int) {
    -tol <= p.pos - at <= tol
  }

  /** Point `i` is the first of `s` within `tol` of `at`. */
  predicate IsFirstNear(s: seq<Point>, i: int, at: int, tol: int) {
    && 0 <= i < |s|
    && Near(s[i], at, tol)
    && forall j :: 0 <= j < i ==> !Near(s[j], at, tol)
  }

  /** Some point of `ps` lies within `tol` of `at`. */
  ghost predicate AnyNear(ps: seq<Point>, at: int, tol: int) {
    exists i :: 0 <= i < |ps| && Near(ps[i], at, tol)
  }

  /** Some point of `ps` sits exactly at `at`. */
  ghost predicate Observed(ps: seq<Point>, at: int) {
    exists i :: 0 <= i < |ps| && ps[i].pos == at
  }

  /** With tolerance zero, "close to" is "at". */
  lemma NearZeroIsAt(ps: seq<Point>, at: int)
    ensures AnyNear(ps, at, 0) <==> Observed(ps, at)
  {
    if Observed(ps, at) {
      var i :| 0 <= i < |ps| && ps[i].pos == at;
      assert Near(ps[i], at, 0);
    }
  }

  /** `v` is the value of the first point of `s` within `tol` of `at`. */
  ghost predicate FirstNearValue(s: seq<Point>, at: int, tol: int, v: real) {
    exists i :: IsFirstNear(s, i, at, tol) && s[i].value == v
  }

  /** `series_data[abs(t - at) <= tol]['Value'].iloc[0]`, or `None` when nothing is that close. */
  function FirstNear(s: seq<Point>, at: int, tol: int): (r: Option<real>)
    ensures r.Some? <==> AnyNear(s, at, tol)
    ensures r.Some? ==> FirstNearValue(s, at, tol, r.value)
    decreases |s|
  {
    if |s| == 0 then None
    else if Near(s[0], at, tol) then
      assert IsFirstNear(s, 0, at, tol);
      Some(s[0].value)
    else
      var r := FirstNear(s[1..], at, tol);
      assert forall i :: 1 <= i < |s| ==> s[i] == s[1..][i - 1];
      assert r.Some? ==> FirstNearValue(s, at, tol, r.value) by {
        if r.Some? {
          var i :| IsFirstNear(s[1..], i, at, tol) && s[1..][i].value == r.value;
          assert IsFirstNear(s, i + 1, at, tol);
        }
      }
      r
  }

  /** `count` grid positions from `at` on, `step` apart, each with its first close point. */
  function Slots(s: seq<Point>, at: int, step: int, count: nat, tol: int): (r: seq<Slot>)
    ensures |r| == count
    ensures forall k :: 0 <= k < count ==> r[k].pos == at + k * step
    ensures forall k :: 0 <= k < count ==> r[k].value == FirstNear(s, r[k].pos, tol)
    decreases count
  {
    if count == 0 then []
    else
      var rest := Slots(s, at + step, step, count - 1, tol);
      assert forall k :: 1 <= k < count ==> (at + step) + (k - 1) * step == at + k * step by {
        forall k | 1 <= k < count
          ensures (at + step) + (k - 1) * step == at + k * step
        {
          assert (k - 1) * step == k * step - step;
        }
      }
      [Slot(at, FirstNear(s, at, tol))] + rest
  }

  /** The ends of the sorted points are the smallest and the largest position of the input. */
  lemma SortedEnds(ps: seq<Point>, s: seq<Point>)
    requires |ps| > 0 && s == SortByPos(ps)
    ensures forall i :: 0 <= i < |ps| ==> s[0].pos <= ps[i].pos <= s[|s| - 1].pos
    ensures exists i :: 0 <= i < |ps| && ps[i] == s[0]
    ensures exists i :: 0 <= i < |ps| && ps[i] == s[|s| - 1]
  {
    OrderedEnds(ps, s);
  }

  /** The same, for any ordered sequence with the same members. */
  lemma OrderedEnds(ps: seq<Point>, s: seq<Point>)
    requires |ps| > 0 && |s| > 0 && SortedByPos(s)
    requires forall q :: q in s <==> q in ps
    ensures forall i :: 0 <= i < |ps| ==> s[0].pos <= ps[i].pos <= s[|s| - 1].pos
    ensures exists i :: 0 <= i < |ps| && ps[i] == s[0]
    ensures exists i :: 0 <= i < |ps| && ps[i] == s[|s| - 1]
  {
    assert s[0] in s && s[|s| - 1] in s;
    assert s[0] in ps && s[|s| - 1] in ps;
    forall i | 0 <= i < |ps|
      ensures s[0].pos <= ps[i].pos <= s[|s| - 1].pos
    {
      assert ps[i] in ps;
      var k :| 0 <= k < |s| && s[k] == ps[i];
      assert s[0].pos <= s[k].pos <= s[|s| - 1].pos;
    }
  }

  lemma NearCarriesToSuperset(ps: seq<Point>, s: seq<Point>, at: int, tol: int)
    requires forall q :: q in s ==> q in ps
    ensures AnyNear(s, at, tol) ==> AnyNear(ps, at, tol)
  {
    if AnyNear(s, at, tol) {
      var i :| 0 <= i < |s| && Near(s[i], at, tol);
      assert s[i] in ps;
      var j :| 0 <= j < |ps| && ps[j] == s[i];
      assert Near(ps[j], at, tol);
    }
  }

  /** Some point of `ps` is within `tol` of `at` exactly when some point of its sorted copy is. */
  lemma NearAfterSort(ps: seq<Point>, s: seq<Point>, at: int, tol: int)
    requires s == SortByPos(ps)
    ensures AnyNear(ps, at, tol) <==> AnyNear(s, at, tol)
  {
    assert forall q :: q in s <==> q in ps;
    NearCarriesToSuperset(ps, s, at, tol);
    NearCarriesToSuperset(s, ps, at, tol);
  }

  /**
   * The number of grid positions `lo, lo + step, ...` that do not pass
   * `lo + span`: the last one lies within one step below the end.
   */
  function GridSize(span: int, step: int): (n: nat)
    requires span >= 0 && step > 0
    ensures n >= 1
    ensures (n - 1) * step <= span < n * step
  {
    span / step + 1
  }

  /**
   * The generic fill: grid positions `lo + k * step`, where `lo` is the smallest
   * position, for every `k` that does not pass the largest position; a position
   * holds the value of the first sorted point within `tol` of it, and `None`
   * exactly when there is no such point.
   */
  function FillGrid(ps: seq<Point>, step: int, tol: int): (r: seq<Slot>)
    requires |ps| > 0 && step > 0 && tol >= 0
    ensures |r| > 0
    ensures forall k :: 0 <= k < |r| ==> r[k].pos == r[0].pos + k * step
    ensures forall i :: 0 <= i < |ps| ==> r[0].pos <= ps[i].pos < r[|r| - 1].pos + step
    ensures exists i :: 0 <= i < |ps| && ps[i].pos == r[0].pos
    ensures exists i :: 0 <= i < |ps| && r[|r| - 1].pos <= ps[i].pos
    ensures forall k :: 0 <= k < |r| ==>
              (r[k].value.Some? <==> AnyNear(ps, r[k].pos, tol))
    ensures forall k :: 0 <= k < |r| && r[k].value.Some? ==>
              FirstNearValue(SortByPos(ps), r[k].pos, tol, r[k].value.value)
    ensures r[0].value.Some?
  {
    var s := SortByPos(ps);
    var lo := s[0].pos;
    var hi := s[|s| - 1].pos;
    SortedEnds(ps, s);
    var n := GridSize(hi - lo, step);
    var r := Slots(s, lo, step, n, tol);
    GridEnds(s, lo, hi, step, tol, n, r);
    forall k | 0 <= k < |r|
      ensures r[k].value.Some? <==> AnyNear(ps, r[k].pos, tol)
    {
      NearAfterSort(ps, s, r[k].pos, tol);
    }
    assert Near(s[0], r[0].pos, tol);
    r
  }

  lemma GridEnds(s: seq<Point>, lo: int, hi: int, step: int, tol: int, n: nat, r: seq<Slot>)
    requires lo <= hi && step > 0
    requires n == GridSize(hi - lo, step)
    requires r == Slots(s, lo, step, n, tol)
    ensures r[0].pos == lo
    ensures r[|r| - 1].pos <= hi < r[|r| - 1].pos + step
  {
    assert r[n - 1].pos == lo + (n - 1) * step;
  }

  /**
   * Annual and monthly fill: one slot per integer position from the smallest
   * to the largest observed one, holding the first sorted point at exactly
   * that position, or `None`.
   */
  function FillContiguous(ps: seq<Point>): (r: seq<Slot>)
    requires |ps| > 0
    ensures |r| > 0
    ensures forall k :: 0 <= k < |r| ==> r[k].pos == r[0].pos + k
    ensures forall i :: 0 <= i < |ps| ==> r[0].pos <= ps[i].pos <= r[|r| - 1].pos
    ensures exists i :: 0 <= i < |ps| && ps[i].pos == r[0].pos
    ensures exists i :: 0 <= i < |ps| && ps[i].pos == r[|r| - 1].pos
    ensures forall k :: 0 <= k < |r| ==>
              (r[k].value.Some? <==> Observed(ps, r[k].pos))
    ensures forall k :: 0 <= k < |r| && r[k].value.Some? ==> Point(r[k].pos, r[k].value.value) in ps
    ensures r[0].value.Some? && r[|r| - 1].value.Some?
  {
    var r := FillGrid(ps, 1, 0);
    var s := SortByPos(ps);
    forall k | 0 <= k < |r|
      ensures r[k].value.Some? <==> Observed(ps, r[k].pos)
    {
      NearZeroIsAt(ps, r[k].pos);
    }
    forall k | 0 <= k < |r| && r[k].value.Some?
      ensures Point(r[k].pos, r[k].value.value) in ps
    {
      assert FirstNearValue(s, r[k].pos, 0, r[k].value.value);
      var i :| IsFirstNear(s, i, r[k].pos, 0) && s[i].value == r[k].value.value;
      assert s[i] in ps;
      assert s[i] == Point(r[k].pos, r[k].value.value);
    }
    var j :| 0 <= j < |ps| && r[|r| - 1].pos <= ps[j].pos;
    assert Near(ps[j], r[|r| - 1].pos, 0);
    r
  }

  /**
   * The readings reach the chart already in time order, so sorting them again
   * changes nothing: the grid starts at the first reading, and a filled slot
   * holds the first reading in the given order within the tolerance.
   */
  lemma FillTimedOfSorted(ps: seq<Point>, cadence: Cadence)
    requires |ps| > 0 && SortedByPos(ps)
    ensures var r := FillTimed(ps, cadence);
            && r[0].pos == ps[0].pos
            && forall k :: 0 <= k < |r| && r[k].value.Some? ==>
                 FirstNearValue(ps, r[k].pos, ToleranceOf(cadence), r[k].value.value)
  {
    SortSortedIsIdentity(ps);
    var r := FillTimed(ps, cadence);
    var i :| 0 <= i < |ps| && ps[i].pos == r[0].pos;
    assert ps[0].pos <= ps[i].pos;
  }

  /**
   * Hourly and daily fill: grid positions one step apart from the earliest
   * timestamp, not passing the latest; a position holds the first point in
   * time order within the cadence's tolerance, else `None`.
   */
  function FillTimed(ps: seq<Point>, cadence: Cadence): (r: seq<Slot>)
    requires |ps| > 0
    ensures |r| > 0
    ensures forall k :: 0 <= k < |r| ==> r[k].pos == r[0].pos + k * StepOf(cadence)
    ensures forall i :: 0 <= i < |ps| ==> r[0].pos <= ps[i].pos < r[|r| - 1].pos + StepOf(cadence)
    ensures exists i :: 0 <= i < |ps| && ps[i].pos == r[0].pos
    ensures exists i :: 0 <= i < |ps| && r[|r| - 1].pos <= ps[i].pos
    ensures forall k :: 0 <= k < |r| ==>
              (r[k].value.Some? <==> AnyNear(ps, r[k].pos, ToleranceOf(cadence)))
    ensures forall k :: 0 <= k < |r| && r[k].value.Some? ==>
              FirstNearValue(SortByPos(ps), r[k].pos, ToleranceOf(cadence), r[k].value.value)
    ensures r[0].value.Some?
  {
    match cadence
    case HourlyCadence => FillGrid(ps, 60, 30)
    case DailyCadence => FillGrid(ps, 1440, 720)
  }
}
