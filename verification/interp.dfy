/**
  Linear interpolation through strictly increasing knots: the
  piecewise-linear interpolant through the knots, held flat at the first
  knot's y to the left of the knots and at the last knot's y to the right.
 */
module Linear {
  import opened Points

  /** The straight line through `a` and `b`, evaluated at `x`, written as slope times offset plus intercept. */
  function Lerp(a: Point, b: Point, x: real): real
    requires a.x < b.x
  {
    (b.y - a.y) / (b.x - a.x) * (x - a.x) + a.y
  }

  /** The line passes through its left end point. */
  lemma LerpLeft(a: Point, b: Point)
    requires a.x < b.x
    ensures Lerp(a, b, a.x) == a.y
  {
  }

  /** The line passes through its right end point. */
  lemma LerpRight(a: Point, b: Point)
    requires a.x < b.x
    ensures Lerp(a, b, b.x) == b.y
  {
    var w := b.x - a.x;
    var s := (b.y - a.y) / w;
    assert s * w == b.y - a.y;
  }

  /** Between its end points the line stays between their heights. */
  lemma LerpBetween(a: Point, b: Point, x: real)
    requires a.x < x < b.x
    ensures a.y <= b.y ==> a.y <= Lerp(a, b, x) <= b.y
    ensures b.y <= a.y ==> b.y <= Lerp(a, b, x) <= a.y
  {
    var w := b.x - a.x;
    var s := (b.y - a.y) / w;
    var u := x - a.x;
    assert s * w == b.y - a.y;
    assert 0.0 < u < w;
    if s >= 0.0 {
      MulMonotone(s, 0.0, u);
      MulMonotone(s, u, w);
      assert s * 0.0 == 0.0;
    } else {
      MulMonotone(-s, 0.0, u);
      MulMonotone(-s, u, w);
      assert (-s) * u == -(s * u);
      assert (-s) * w == -(s * w);
      assert (-s) * 0.0 == 0.0;
    }
  }

  lemma MulMonotone(s: real, u: real, v: real)
    requires s >= 0.0 && u <= v
    ensures s * u <= s * v
  {
    assert s * v - s * u == s * (v - u);
    if s > 0.0 && v > u {
      assert s * (v - u) > 0.0;
    }
  }

  /**
    A left-sided search from `from`: the first index whose knot x is not
    below `x`, or `|ks|` when there is none. It picks the segment `Interp`
    evaluates; `InterpOnSegment` shows the choice does not affect the value.
   */
  function SearchLeft(ks: seq<Point>, x: real, from: nat): (i: nat)
    requires from <= |ks|
    ensures from <= i <= |ks|
    ensures forall j :: from <= j < i ==> ks[j].x < x
    ensures i < |ks| ==> x <= ks[i].x
    decreases |ks| - from
  {
    if from == |ks| || x <= ks[from].x then from else SearchLeft(ks, x, from + 1)
  }

  /** `i` clipped into `[lo, hi]`. */
  function Clip(i: int, lo: int, hi: int): (r: int)
    requires lo <= hi
    ensures lo <= r <= hi
    ensures lo <= i <= hi ==> r == i
  {
    if i < lo then lo else if i > hi then hi else i
  }

  /**
    The interpolant at `x`: the first knot's y left of the knots, the last
    knot's y right of them, and otherwise the line through the knots at
    `hi - 1` and `hi`, where `hi` is the clipped left search position.
   */
  function Interp(ks: seq<Point>, x: real): (r: real)
    requires |ks| >= 2 && StrictlyIncreasing(ks)
    ensures x < ks[0].x ==> r == ks[0].y
    ensures x > ks[|ks| - 1].x ==> r == ks[|ks| - 1].y
  {
    if x < ks[0].x then ks[0].y
    else if x > ks[|ks| - 1].x then ks[|ks| - 1].y
    else
      var hi := Clip(SearchLeft(ks, x, 0), 1, |ks| - 1);
      Lerp(ks[hi - 1], ks[hi], x)
  }

  /**
    On every closed segment between adjacent knots the interpolant is the
    line through those two knots: it is the piecewise-linear function they
    define, whichever segment a shared end knot is attributed to.
   */
  lemma InterpOnSegment(ks: seq<Point>, j: nat, x: real)
    requires |ks| >= 2 && StrictlyIncreasing(ks)
    requires j + 1 < |ks| && ks[j].x <= x <= ks[j + 1].x
    ensures Interp(ks, x) == Lerp(ks[j], ks[j + 1], x)
  {
    assert ks[0].x <= ks[j].x && ks[j + 1].x <= ks[|ks| - 1].x;
    var i := SearchLeft(ks, x, 0);
    if ks[j].x < x {
      assert i == j + 1;
    } else {
      assert i == j;
      LerpLeft(ks[j], ks[j + 1]);
      if j > 0 {
        LerpRight(ks[j - 1], ks[j]);
      }
    }
  }

  /**
    Inside the knot range the interpolant lies on the line through some pair
    of adjacent knots that bracket `x`.
   */
  lemma InterpInRange(ks: seq<Point>, x: real) returns (j: nat)
    requires |ks| >= 2 && StrictlyIncreasing(ks)
    requires ks[0].x <= x <= ks[|ks| - 1].x
    ensures j + 1 < |ks| && ks[j].x <= x <= ks[j + 1].x && Interp(ks, x) == Lerp(ks[j], ks[j + 1], x)
  {
    var hi := Clip(SearchLeft(ks, x, 0), 1, |ks| - 1);
    j := hi - 1;
  }

  /** At a knot's own x the interpolant returns that knot's y. */
  lemma InterpAtKnot(ks: seq<Point>, j: nat)
    requires |ks| >= 2 && StrictlyIncreasing(ks) && j < |ks|
    ensures Interp(ks, ks[j].x) == ks[j].y
  {
    if j + 1 < |ks| {
      InterpOnSegment(ks, j, ks[j].x);
      LerpLeft(ks[j], ks[j + 1]);
    } else {
      InterpOnSegment(ks, j - 1, ks[j].x);
      LerpRight(ks[j - 1], ks[j]);
    }
  }

  /**
    Strictly between two adjacent knots the interpolant is given by the linear
    formula and lies between the two knots' y values.
   */
  lemma InterpBetween(ks: seq<Point>, j: nat, x: real)
    requires |ks| >= 2 && StrictlyIncreasing(ks)
    requires j + 1 < |ks| && ks[j].x < x < ks[j + 1].x
    ensures Interp(ks, x) == ks[j].y + (ks[j + 1].y - ks[j].y) / (ks[j + 1].x - ks[j].x) * (x - ks[j].x)
    ensures ks[j].y <= ks[j + 1].y ==> ks[j].y <= Interp(ks, x) <= ks[j + 1].y
    ensures ks[j + 1].y <= ks[j].y ==> ks[j + 1].y <= Interp(ks, x) <= ks[j].y
  {
    InterpOnSegment(ks, j, x);
    LerpBetween(ks[j], ks[j + 1], x);
  }
}
