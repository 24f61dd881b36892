/**
 * Order-preserving filtering: the loops of the program that walk a list and
 * append what a test keeps. `IsFilter(r, xs, f)` says that `r` holds, in the
 * order of `xs` and once per occurrence, the kept value `f(x)` of every
 * element `x` that `f` keeps; `FilterUnique` shows that this fixes `r`.
 */
module Filtering {
  import opened Options

  /** Strictly increasing positions. */
  predicate Increasing(idx: seq<int>) {
    forall i, k :: 0 <= i < k < |idx| ==> idx[i] < idx[k]
  }

  /**
   * `idx` lists, in increasing order, exactly the positions of `xs` that `f`
   * keeps, and `r[i]` is what `f` keeps at position `idx[i]`.
   */
  ghost predicate Picks<A, B>(r: seq<B>, xs: seq<A>, f: A -> Option<B>, idx: seq<int>) {
    && |idx| == |r|
    && Increasing(idx)
    && (forall i :: 0 <= i < |idx| ==> 0 <= idx[i] < |xs| && f(xs[idx[i]]) == Some(r[i]))
    && (forall j :: 0 <= j < |xs| && f(xs[j]).Some? ==> j in idx)
  }

  /** `r` is what `f` keeps of `xs`, in order. */
  ghost predicate IsFilter<A, B>(r: seq<B>, xs: seq<A>, f: A -> Option<B>) {
    exists idx :: Picks(r, xs, f, idx)
  }

  /** Nothing is kept of an empty list. */
  lemma FilterEmpty<A, B>(f: A -> Option<B>)
    ensures IsFilter([], [], f)
  {
    assert Picks([], [], f, []);
  }

  /** Every position moved one place on. */
  function Shift(idx: seq<int>): (r: seq<int>)
    ensures |r| == |idx|
    ensures forall i :: 0 <= i < |idx| ==> r[i] == idx[i] + 1
    ensures Increasing(idx) ==> Increasing(r)
  {
    seq(|idx|, i requires 0 <= i < |idx| => idx[i] + 1)
  }

  /** Keeping the head, or not, in front of what is kept of the rest. */
  lemma FilterCons<A, B>(x: A, xs: seq<A>, f: A -> Option<B>, r: seq<B>)
    requires IsFilter(r, xs, f)
    ensures IsFilter((if f(x).Some? then [f(x).value] else []) + r, [x] + xs, f)
  {
    var idx :| Picks(r, xs, f, idx);
    if f(x).Some? {
      PicksKeep(x, xs, f, r, idx);
    } else {
      PicksSkip(x, xs, f, r, idx);
      assert [] + r == r;
    }
  }

  /** `FilterCons` for a non-empty list split at its head. */
  lemma FilterStep<A, B>(xs: seq<A>, f: A -> Option<B>, r: seq<B>)
    requires |xs| > 0 && IsFilter(r, xs[1..], f)
    ensures IsFilter((if f(xs[0]).Some? then [f(xs[0]).value] else []) + r, xs, f)
  {
    FilterCons(xs[0], xs[1..], f, r);
    assert [xs[0]] + xs[1..] == xs;
  }

  lemma PicksKeep<A, B>(x: A, xs: seq<A>, f: A -> Option<B>, r: seq<B>, idx: seq<int>)
    requires Picks(r, xs, f, idx) && f(x).Some?
    ensures Picks([f(x).value] + r, [x] + xs, f, [0] + Shift(idx))
  {
    var idx' := [0] + Shift(idx);
    assert forall i :: 0 <= i < |idx| ==> idx[i] >= 0;
    assert Increasing(idx');
    KeepPositions(x, xs, f, r, idx);
    KeepCovers(x, xs, f, r, idx);
  }

  lemma KeepPositions<A, B>(x: A, xs: seq<A>, f: A -> Option<B>, r: seq<B>, idx: seq<int>)
    requires Picks(r, xs, f, idx) && f(x).Some?
    ensures forall i :: 0 <= i < |idx| + 1 ==>
              0 <= ([0] + Shift(idx))[i] < |[x] + xs| && f(([x] + xs)[([0] + Shift(idx))[i]]) == Some(([f(x).value] + r)[i])
  {
    var ys, idx', r' := [x] + xs, [0] + Shift(idx), [f(x).value] + r;
    forall i | 0 <= i < |idx'|
      ensures 0 <= idx'[i] < |ys| && f(ys[idx'[i]]) == Some(r'[i])
    {
      if i > 0 {
        assert idx'[i] == idx[i - 1] + 1;
        assert ys[idx'[i]] == xs[idx[i - 1]];
      }
    }
  }

  lemma KeepCovers<A, B>(x: A, xs: seq<A>, f: A -> Option<B>, r: seq<B>, idx: seq<int>)
    requires Picks(r, xs, f, idx) && f(x).Some?
    ensures forall j :: 0 <= j < |[x] + xs| && f(([x] + xs)[j]).Some? ==> j in [0] + Shift(idx)
  {
    var ys, idx' := [x] + xs, [0] + Shift(idx);
    forall j | 0 <= j < |ys| && f(ys[j]).Some?
      ensures j in idx'
    {
      if j > 0 {
        assert ys[j] == xs[j - 1];
        assert j - 1 in idx;
        var m :| 0 <= m < |idx| && idx[m] == j - 1;
        assert idx'[m + 1] == j;
      }
    }
  }

  lemma PicksSkip<A, B>(x: A, xs: seq<A>, f: A -> Option<B>, r: seq<B>, idx: seq<int>)
    requires Picks(r, xs, f, idx) && f(x).None?
    ensures Picks(r, [x] + xs, f, Shift(idx))
  {
    var ys := [x] + xs;
    var sh := Shift(idx);
    forall i | 0 <= i < |sh|
      ensures 0 <= sh[i] < |ys| && f(ys[sh[i]]) == Some(r[i])
    {
      assert ys[sh[i]] == xs[idx[i]];
    }
    forall j | 0 <= j < |ys| && f(ys[j]).Some?
      ensures j in sh
    {
      assert j != 0;
      assert ys[j] == xs[j - 1];
      assert j - 1 in idx;
      var m :| 0 <= m < |idx| && idx[m] == j - 1;
      assert sh[m] == j;
    }
  }

  /** A test that keeps elements unchanged keeps a list without repeats free of repeats. */
  lemma FilterKeepsDistinct<A>(r: seq<A>, xs: seq<A>, f: A -> Option<A>)
    requires IsFilter(r, xs, f)
    requires forall x :: f(x).Some? ==> f(x).value == x
    requires forall i, j :: 0 <= i < j < |xs| ==> xs[i] != xs[j]
    ensures forall i, j :: 0 <= i < j < |r| ==> r[i] != r[j]
  {
    var idx :| Picks(r, xs, f, idx);
    forall i, j | 0 <= i < j < |r|
      ensures r[i] != r[j]
    {
      assert f(xs[idx[i]]) == Some(r[i]) && f(xs[idx[j]]) == Some(r[j]);
      assert idx[i] < idx[j];
    }
  }

  /** Two increasing position lists with the same members are the same list. */
  lemma {:induction false} IncreasingSameMembers(a: seq<int>, b: seq<int>)
    requires Increasing(a) && Increasing(b)
    requires forall v :: v in a <==> v in b
    ensures a == b
    decreases |a|
  {
    if |b| > 0 {
      assert b[0] in b;
      assert |a| > 0;
    }
    if |a| > 0 {
      assert a[0] in a;
      assert |b| > 0;
      SameHeads(a, b);
      IncreasingSameMembers(a[1..], b[1..]);
      assert a == [a[0]] + a[1..] && b == [b[0]] + b[1..];
    }
  }

  /** Increasing lists with the same members start alike and continue with the same members. */
  lemma SameHeads(a: seq<int>, b: seq<int>)
    requires Increasing(a) && Increasing(b) && |a| > 0 && |b| > 0
    requires forall v :: v in a <==> v in b
    ensures a[0] == b[0]
    ensures Increasing(a[1..]) && Increasing(b[1..])
    ensures forall v :: v in a[1..] <==> v in b[1..]
  {
    assert a[0] in a && b[0] in b;
    HeadIsLeast(a);
    HeadIsLeast(b);
    forall v
      ensures v in a[1..] <==> v in b[1..]
    {
      if v in a[1..] {
        var i :| 0 <= i < |a[1..]| && a[1..][i] == v;
        assert a[i + 1] == v && a[0] < v;
        assert v in b;
        var k :| 0 <= k < |b| && b[k] == v;
        assert k != 0;
        assert b[1..][k - 1] == v;
      }
      if v in b[1..] {
        var i :| 0 <= i < |b[1..]| && b[1..][i] == v;
        assert b[i + 1] == v;
        assert v in a;
        var k :| 0 <= k < |a| && a[k] == v;
        assert k != 0;
        assert a[1..][k - 1] == v;
      }
    }
  }

  /** The head of an increasing list is its least member. */
  lemma HeadIsLeast(a: seq<int>)
    requires Increasing(a) && |a| > 0
    ensures forall v :: v in a ==> a[0] <= v
  {
    forall v | v in a
      ensures a[0] <= v
    {
      var i :| 0 <= i < |a| && a[i] == v;
    }
  }

  /** What a filter keeps is determined by the list and the test. */
  lemma FilterUnique<A, B>(r1: seq<B>, r2: seq<B>, xs: seq<A>, f: A -> Option<B>)
    requires IsFilter(r1, xs, f) && IsFilter(r2, xs, f)
    ensures r1 == r2
  {
    var idx1 :| Picks(r1, xs, f, idx1);
    var idx2 :| Picks(r2, xs, f, idx2);
    forall v
      ensures v in idx1 <==> v in idx2
    {
      if v in idx1 {
        var i :| 0 <= i < |idx1| && idx1[i] == v;
        assert f(xs[v]).Some?;
      }
      if v in idx2 {
        var i :| 0 <= i < |idx2| && idx2[i] == v;
        assert f(xs[v]).Some?;
      }
    }
    IncreasingSameMembers(idx1, idx2);
    forall i | 0 <= i < |r1|
      ensures r1[i] == r2[i]
    {
      assert f(xs[idx1[i]]) == Some(r1[i]);
    }
  }
}
