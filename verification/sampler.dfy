/**
  `sample_points`: turns the raw points of a freehand drawing into values
  at the caller's sample x's. Duplicate x's are resolved in favour of the
  last point drawn, the survivors are sorted by x, and the resulting knots
  are interpolated linearly with flat ends. Without at least two distinct
  x's every sample is zero.
 */
module Sampler {
  import opened Points
  import opened Dedup
  import opened SortByX
  import opened Linear

  /** `n` zeros, one per sample x: the fallback result. */
  function Zeros(n: nat): (r: seq<real>)
    ensures |r| == n && forall i :: 0 <= i < n ==> r[i] == 0.0
  {
    seq(n, i => 0.0)
  }

  /**
    The interpolation knots a drawing produces: strictly increasing in x,
    one per distinct drawn x, each the last point drawn at its x.
   */
  function Knots(points: seq<Point>): (ks: seq<Point>)
    ensures StrictlyIncreasing(ks)
    ensures XsOf(ks) == XsOf(points)
    ensures forall q :: q in ks ==> exists j :: 0 <= j < |points| && points[j] == q && IsLast(points, j)
    ensures forall j :: 0 <= j < |points| && IsLast(points, j) ==> points[j] in ks
  {
    var d := DedupLast(points);
    var ks := Sort(d);
    SortedDistinctStrict(d, ks);
    SameMultisetSameXs(ks, d);
    forall q | q in ks
      ensures q in d
    {
      assert q in multiset(ks);
    }
    forall j | 0 <= j < |points| && IsLast(points, j)
      ensures points[j] in ks
    {
      assert points[j] in multiset(d);
    }
    ks
  }

  /** There is one knot per distinct drawn x. */
  lemma KnotsCount(points: seq<Point>)
    ensures |Knots(points)| == |XsOf(points)|
  {
    var ks := Knots(points);
    DistinctXCard(ks);
  }

  /** The interpolant through `ks` evaluated at each sample x. */
  function SampleAll(ks: seq<Point>, xs: seq<real>): (r: seq<real>)
    requires |ks| >= 2 && StrictlyIncreasing(ks)
    ensures |r| == |xs| && forall i :: 0 <= i < |xs| ==> r[i] == Interp(ks, xs[i])
  {
    seq(|xs|, i requires 0 <= i < |xs| => Interp(ks, xs[i]))
  }

  /**
    The sampled drawing: one value per sample x on every path; all zeros when
    nothing was drawn or fewer than two distinct x's were drawn; otherwise the
    knots' interpolant at each sample x.
   */
  function SamplePoints(points: seq<Point>, xs: seq<real>): (r: seq<real>)
    ensures |r| == |xs|
    ensures |points| == 0 ==> forall i :: 0 <= i < |xs| ==> r[i] == 0.0
    ensures |Knots(points)| < 2 ==> forall i :: 0 <= i < |xs| ==> r[i] == 0.0
    ensures |Knots(points)| >= 2 ==> forall i :: 0 <= i < |xs| ==> r[i] == Interp(Knots(points), xs[i])
  {
    if |points| == 0 then Zeros(|xs|)
    else
      var ks := Knots(points);
      if |ks| < 2 then Zeros(|xs|) else SampleAll(ks, xs)
  }

  /**
    Left of the first knot the sample is the first knot's y. The fact follows
    from the contracts of `SamplePoints` and `Interp`; stating it on its own
    keeps the solver from searching the whole knot construction when a caller
    needs it.
   */
  lemma SampleLeftOfKnots(points: seq<Point>, xs: seq<real>, i: nat)
    requires i < |xs| && |Knots(points)| >= 2 && xs[i] < Knots(points)[0].x
    ensures SamplePoints(points, xs)[i] == Knots(points)[0].y
  {
  }

  /** Right of the last knot the sample is the last knot's y (stated apart for the same reason). */
  lemma SampleRightOfKnots(points: seq<Point>, xs: seq<real>, i: nat)
    requires i < |xs| && |Knots(points)| >= 2 && xs[i] > Knots(points)[|Knots(points)| - 1].x
    ensures SamplePoints(points, xs)[i] == Knots(points)[|Knots(points)| - 1].y
  {
  }

  /** Fewer than two distinct drawn x's give all zeros. */
  lemma SampleFewDistinctXs(points: seq<Point>, xs: seq<real>)
    requires |XsOf(points)| < 2
    ensures forall i :: 0 <= i < |xs| ==> SamplePoints(points, xs)[i] == 0.0
  {
    KnotsCount(points);
  }

  /** The knot that holds a given drawn point. */
  lemma KnotIndexOf(points: seq<Point>, j: nat) returns (k: nat)
    requires j < |points| && IsLast(points, j)
    ensures k < |Knots(points)| && Knots(points)[k] == points[j]
  {
    var ks := Knots(points);
    assert points[j] in ks;
    k :| 0 <= k < |ks| && ks[k] == points[j];
  }

  /** The drawn point that a given knot comes from. */
  lemma DrawnIndexOf(points: seq<Point>, k: nat) returns (j: nat)
    requires k < |Knots(points)|
    ensures j < |points| && points[j] == Knots(points)[k] && IsLast(points, j)
  {
    var ks := Knots(points);
    assert ks[k] in ks;
    j :| 0 <= j < |points| && points[j] == ks[k] && IsLast(points, j);
  }

  /**
    Sampling exactly at a drawn x gives the y of the last point drawn there,
    provided at least two distinct x's were drawn.
   */
  lemma SampleAtDrawnX(points: seq<Point>, xs: seq<real>, i: nat, j: nat)
    requires |XsOf(points)| >= 2
    requires i < |xs| && j < |points| && IsLast(points, j) && xs[i] == points[j].x
    ensures SamplePoints(points, xs)[i] == points[j].y
  {
    KnotsCount(points);
    var k := KnotIndexOf(points, j);
    InterpAtKnot(Knots(points), k);
  }

  /** The last point drawn at the smallest drawn x; it is the first knot. */
  lemma LeftmostDrawn(points: seq<Point>) returns (j: nat)
    requires |XsOf(points)| >= 2
    ensures j < |points| && IsLast(points, j) && points[j] == Knots(points)[0]
    ensures forall p :: p in points ==> points[j].x <= p.x
  {
    KnotsCount(points);
    j := DrawnIndexOf(points, 0);
    IncreasingSpan(Knots(points), points);
  }

  /** The last point drawn at the largest drawn x; it is the last knot. */
  lemma RightmostDrawn(points: seq<Point>) returns (j: nat)
    requires |XsOf(points)| >= 2
    ensures j < |points| && IsLast(points, j) && points[j] == Knots(points)[|Knots(points)| - 1]
    ensures forall p :: p in points ==> p.x <= points[j].x
  {
    KnotsCount(points);
    j := DrawnIndexOf(points, |Knots(points)| - 1);
    IncreasingSpan(Knots(points), points);
  }

  /** Sampling left of every drawn x gives the y kept for the smallest drawn x. */
  lemma SampleLeftOfDrawing(points: seq<Point>, xs: seq<real>, i: nat)
    requires |XsOf(points)| >= 2 && i < |xs|
    requires forall p :: p in points ==> xs[i] < p.x
    ensures exists j :: 0 <= j < |points| && IsLast(points, j) && SamplePoints(points, xs)[i] == points[j].y &&
                        (forall p :: p in points ==> points[j].x <= p.x)
  {
    KnotsCount(points);
    var j := LeftmostDrawn(points);
    assert points[j] in points;
    SampleLeftOfKnots(points, xs, i);
  }

  /** Sampling right of every drawn x gives the y kept for the largest drawn x. */
  lemma SampleRightOfDrawing(points: seq<Point>, xs: seq<real>, i: nat)
    requires |XsOf(points)| >= 2 && i < |xs|
    requires forall p :: p in points ==> p.x < xs[i]
    ensures exists j :: 0 <= j < |points| && IsLast(points, j) && SamplePoints(points, xs)[i] == points[j].y &&
                        (forall p :: p in points ==> p.x <= points[j].x)
  {
    KnotsCount(points);
    var j := RightmostDrawn(points);
    assert points[j] in points;
    SampleRightOfKnots(points, xs, i);
  }

  /**
    Two last-occurrence points with no drawn x strictly between them become
    adjacent knots.
   */
  lemma AdjacentKnots(points: seq<Point>, a: nat, b: nat) returns (k: nat)
    requires a < |points| && b < |points| && IsLast(points, a) && IsLast(points, b)
    requires points[a].x < points[b].x
    requires forall p :: p in points ==> !(points[a].x < p.x < points[b].x)
    ensures k + 1 < |Knots(points)| && Knots(points)[k] == points[a] && Knots(points)[k + 1] == points[b]
  {
    var ks := Knots(points);
    k := KnotIndexOf(points, a);
    var kb := KnotIndexOf(points, b);
    IncreasingAdjacent(ks, points, k, kb);
  }

  /**
    Sampling strictly between two drawn x's with no drawn x in between gives
    the linear blend of the last points drawn at those two x's, a value
    between their y's.
   */
  lemma SampleBetweenDrawnXs(points: seq<Point>, xs: seq<real>, i: nat, a: nat, b: nat)
    requires i < |xs| && a < |points| && b < |points|
    requires IsLast(points, a) && IsLast(points, b)
    requires points[a].x < xs[i] < points[b].x
    requires forall p :: p in points ==> !(points[a].x < p.x < points[b].x)
    ensures SamplePoints(points, xs)[i] == Lerp(points[a], points[b], xs[i])
    ensures points[a].y <= points[b].y ==> points[a].y <= SamplePoints(points, xs)[i] <= points[b].y
    ensures points[b].y <= points[a].y ==> points[b].y <= SamplePoints(points, xs)[i] <= points[a].y
  {
    var k := AdjacentKnots(points, a, b);
    var ks := Knots(points);
    InterpOnSegment(ks, k, xs[i]);
    LerpBetween(points[a], points[b], xs[i]);
  }

  /** The interpolation loop: evaluates the interpolant at each sample x in turn. */
  method InterpolateEach(ks: seq<Point>, xs: seq<real>) returns (r: seq<real>)
    requires |ks| >= 2 && StrictlyIncreasing(ks)
    ensures |r| == |xs| && forall i :: 0 <= i < |xs| ==> r[i] == Interp(ks, xs[i])
  {
    r := [];
    var i := 0;
    while i < |xs|
      invariant 0 <= i <= |xs|
      invariant |r| == i && forall k :: 0 <= k < i ==> r[k] == Interp(ks, xs[k])
    {
      r := r + [Interp(ks, xs[i])];
      i := i + 1;
    }
  }

  /**
    `sample_points` step by step: the backward de-duplication scan, the sort,
    the two zero fallbacks, then one interpolation per sample x.
   */
  method SamplePointsSteps(points: seq<Point>, xs: seq<real>) returns (r: seq<real>)
    ensures r == SamplePoints(points, xs)
    ensures |r| == |xs|
  {
    if |points| == 0 {
      return Zeros(|xs|);
    }
    var idx := DedupScan(points);
    var ks := Sort(Select(points, idx));
    assert ks == Knots(points);
    if |ks| < 2 {
      return Zeros(|xs|);
    }
    r := InterpolateEach(ks, xs);
    assert r == SampleAll(ks, xs);
  }
}
