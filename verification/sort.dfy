/**
  Ordering the de-duplicated points by x (the `argsort` step). The sort is
  written as an insertion sort; since the keys are unique by then, any sort
  gives the same sequence, which `SortedPermutationUnique` proves.
 */
module SortByX {
  import opened Points

  /** Inserts `p` before the first point whose x is not smaller than its own. */
  function Insert(p: Point, s: seq<Point>): (r: seq<Point>)
    requires SortedByX(s)
    ensures SortedByX(r)
    ensures multiset(r) == multiset(s) + multiset{p}
  {
    if |s| == 0 || p.x <= s[0].x then [p] + s
    else
      var rest := Insert(p, s[1..]);
      HeadTail(s);
      HeadBelowRest(p, s, rest);
      SortedCons(s[0], rest);
      [s[0]] + rest
  }

  /** A non-empty sequence is its head followed by its tail, as a multiset. */
  lemma HeadTail(s: seq<Point>)
    requires |s| > 0
    ensures multiset(s) == multiset{s[0]} + multiset(s[1..])
  {
    assert s == [s[0]] + s[1..];
  }

  /**
    The head of a sorted sequence is at or below every point of a
    rearrangement of its tail plus a point lying above the head.
   */
  lemma HeadBelowRest(p: Point, s: seq<Point>, rest: seq<Point>)
    requires SortedByX(s) && |s| > 0 && s[0].x < p.x
    requires multiset(rest) == multiset(s[1..]) + multiset{p}
    ensures forall q :: q in rest ==> s[0].x <= q.x
  {
    forall q | q in rest
      ensures s[0].x <= q.x
    {
      assert q in multiset(rest);
      if q != p {
        assert q in multiset(s[1..]);
        var k :| 0 <= k < |s[1..]| && s[1..][k] == q;
        assert s[k + 1] == q;
      }
    }
  }

  /** A point at or below every point of a sorted sequence can go in front of it. */
  lemma SortedCons(a: Point, rest: seq<Point>)
    requires SortedByX(rest) && forall q :: q in rest ==> a.x <= q.x
    ensures SortedByX([a] + rest)
  {
    var r := [a] + rest;
    forall i, j | 0 <= i < j < |r|
      ensures r[i].x <= r[j].x
    {
      assert r[j] == rest[j - 1];
      if i == 0 {
        assert rest[j - 1] in rest;
      } else {
        assert r[i] == rest[i - 1];
      }
    }
  }

  /** The points of `s` ordered by non-decreasing x, as a rearrangement of `s`. */
  function Sort(s: seq<Point>): (r: seq<Point>)
    ensures SortedByX(r)
    ensures multiset(r) == multiset(s)
  {
    if |s| == 0 then []
    else
      assert s == [s[0]] + s[1..];
      Insert(s[0], Sort(s[1..]))
  }

  /** A rearrangement of points with distinct x's that is sorted is strictly increasing. */
  lemma SortedDistinctStrict(s: seq<Point>, r: seq<Point>)
    requires DistinctX(s) && multiset(r) == multiset(s) && SortedByX(r)
    ensures StrictlyIncreasing(r)
  {
    DistinctXCard(s);
    SameMultisetSameXs(r, s);
    assert |r| == |s| by {
      assert |multiset(r)| == |multiset(s)|;
    }
    if !DistinctX(r) {
      var i, j :| 0 <= i < j < |r| && r[i].x == r[j].x;
      XsOfDropOne(r, j);
      var rest := r[..j] + r[j + 1..];
      XsCardBound(rest);
      assert |rest| == |r| - 1;
      SubsetCard(XsOf(r), XsOf(rest));
      assert false;
    }
  }

  /** Removing a point whose x also occurs at an earlier index keeps the x set. */
  lemma XsOfDropOne(r: seq<Point>, j: nat)
    requires j < |r| && exists i :: 0 <= i < j && r[i].x == r[j].x
    ensures XsOf(r) <= XsOf(r[..j] + r[j + 1..])
  {
    var rest := r[..j] + r[j + 1..];
    forall v | v in XsOf(r) ensures v in XsOf(rest) {
      var p :| p in r && p.x == v;
      var k :| 0 <= k < |r| && r[k] == p;
      if k < j {
        assert rest[k] == p;
      } else if k > j {
        assert rest[k - 1] == p;
      } else {
        var i :| 0 <= i < j && r[i].x == r[j].x;
        assert rest[i] == r[i];
      }
    }
  }

  lemma SubsetCard(a: set<real>, b: set<real>)
    requires a <= b
    ensures |a| <= |b|
  {
    assert b == a + (b - a);
  }

  /** A sequence has at most as many distinct x values as points. */
  lemma {:induction false} XsCardBound(s: seq<Point>)
    ensures |XsOf(s)| <= |s|
  {
    if |s| > 0 {
      XsOfCons(s);
      XsCardBound(s[1..]);
    }
  }

  /** Two strictly increasing sequences holding the same points start with the same point. */
  lemma SameHead(a: seq<Point>, b: seq<Point>)
    requires StrictlyIncreasing(a) && StrictlyIncreasing(b)
    requires multiset(a) == multiset(b) && |a| > 0 && |b| > 0
    ensures a[0] == b[0]
  {
    assert a[0] in multiset(b) && b[0] in multiset(a);
    var i :| 0 <= i < |b| && b[i] == a[0];
    var j :| 0 <= j < |a| && a[j] == b[0];
    assert b[0].x <= a[0].x by {
      if i > 0 { assert b[0].x < b[i].x; }
    }
    assert a[0].x <= b[0].x by {
      if j > 0 { assert a[0].x < a[j].x; }
    }
  }

  lemma TailMultiset(a: seq<Point>)
    requires |a| > 0
    ensures multiset(a[1..]) == multiset(a) - multiset{a[0]}
  {
    assert a == [a[0]] + a[1..];
  }

  /**
    Two strictly increasing sequences holding the same points are equal, so
    the knots do not depend on which sort is used or on its stability.
   */
  lemma {:induction false} SortedPermutationUnique(a: seq<Point>, b: seq<Point>)
    requires StrictlyIncreasing(a) && StrictlyIncreasing(b)
    requires multiset(a) == multiset(b)
    ensures a == b
  {
    if |a| > 0 && |b| > 0 {
      SameHead(a, b);
      TailMultiset(a);
      TailMultiset(b);
      TailIncreasing(a);
      TailIncreasing(b);
      SortedPermutationUnique(a[1..], b[1..]);
      assert a == [a[0]] + a[1..] && b == [b[0]] + b[1..];
    }
  }

  /** Dropping the first point keeps a sequence strictly increasing. */
  lemma TailIncreasing(a: seq<Point>)
    requires StrictlyIncreasing(a) && |a| > 0
    ensures StrictlyIncreasing(a[1..])
  {
    forall i, j | 0 <= i < j < |a| - 1
      ensures a[1..][i].x < a[1..][j].x
    {
      assert a[1..][i] == a[i + 1] && a[1..][j] == a[j + 1];
    }
  }
}
