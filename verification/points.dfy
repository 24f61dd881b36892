/**
 * A positioned value -- a year, a month index or a timestamp in minutes,
 * paired with a concentration -- and ordering by position.
 */
module Points {

  datatype Point = Point(pos: int, value: real)

  predicate SortedByPos(ps: seq<Point>) {
    forall i, j :: 0 <= i < j < |ps| ==> ps[i].pos <= ps[j].pos
  }

  /** Puts `p` in front of the first point whose position is not smaller. */
  function Insert(p: Point, ps: seq<Point>): (r: seq<Point>)
    requires SortedByPos(ps)
    ensures SortedByPos(r)
    ensures multiset(r) == multiset(ps) + multiset{p}
    ensures forall q :: q in r <==> q == p || q in ps
    ensures |r| == |ps| + 1
  {
    if |ps| == 0 || p.pos <= ps[0].pos then [p] + ps
    else
      var rest := Insert(p, ps[1..]);
      assert ps == [ps[0]] + ps[1..];
      assert forall k :: 0 <= k < |rest| ==> ps[0].pos <= rest[k].pos by {
        forall k | 0 <= k < |rest|
          ensures ps[0].pos <= rest[k].pos
        {
          assert rest[k] in rest;
          if rest[k] != p {
            var m :| 0 <= m < |ps[1..]| && ps[1..][m] == rest[k];
            assert ps[m + 1] == rest[k];
          }
        }
      }
      var r := [ps[0]] + rest;
      assert forall i :: 0 < i < |r| ==> r[i] == rest[i - 1];
      r
  }

  /**
   * Orders points by position (insertion sort). Points with equal positions
   * keep their input order.
   */
  function SortByPos(ps: seq<Point>): (r: seq<Point>)
    ensures SortedByPos(r)
    ensures multiset(r) == multiset(ps)
    ensures forall q :: q in r <==> q in ps
    ensures |r| == |ps|
  {
    if |ps| == 0 then []
    else
      assert ps == [ps[0]] + ps[1..];
      Insert(ps[0], SortByPos(ps[1..]))
  }

  /** Sorting an already sorted sequence leaves it unchanged. */
  lemma {:induction false} SortSortedIsIdentity(ps: seq<Point>)
    requires SortedByPos(ps)
    ensures SortByPos(ps) == ps
  {
    if |ps| > 0 {
      SortSortedIsIdentity(ps[1..]);
      assert ps == [ps[0]] + ps[1..];
    }
  }
}
