/**
  The mean squared error between a predicted and an actual value sequence of
  the same length: the mean, over the indices, of the squared difference of
  the two values at each index.
 */
module Mse {

  /** Real multiplication, named so that the solver treats squares uniformly. */
  function Product(a: real, b: real): real
  {
    a * b
  }

  /** Two factors of the same strict sign have a positive product. */
  lemma ProductPositive(a: real, b: real)
    requires (a > 0.0 && b > 0.0) || (a < 0.0 && b < 0.0)
    ensures Product(a, b) > 0.0
  {
  }

  /** The squared error of one difference: never negative, zero only for no difference. */
  function Square(d: real): (r: real)
    ensures r >= 0.0
    ensures r == 0.0 <==> d == 0.0
  {
    if d != 0.0 then
      ProductPositive(d, d);
      Product(d, d)
    else
      Product(d, d)
  }

  /** Sum of the squared index-aligned differences. */
  function SumSquares(p: seq<real>, a: seq<real>): (s: real)
    requires |p| == |a|
    ensures s >= 0.0
  {
    if |p| == 0 then 0.0 else Square(p[0] - a[0]) + SumSquares(p[1..], a[1..])
  }

  /**
    The MSE of `predicted` against `actual`; it is never negative and it is zero
    exactly when the two sequences agree at every index.
   */
  function CalculateMse(predicted: seq<real>, actual: seq<real>): (r: real)
    requires |predicted| == |actual| > 0
    ensures r >= 0.0
    ensures r == 0.0 <==> predicted == actual
  {
    SumSquaresZero(predicted, actual);
    SumSquares(predicted, actual) / (|predicted| as real)
  }

  /** The sum of squares vanishes exactly when the sequences are equal. */
  lemma {:induction false} SumSquaresZero(p: seq<real>, a: seq<real>)
    requires |p| == |a|
    ensures SumSquares(p, a) == 0.0 <==> p == a
  {
    if |p| > 0 {
      SumSquaresZero(p[1..], a[1..]);
      if p == a {
        assert p[1..] == a[1..];
      }
      if p[0] == a[0] && p[1..] == a[1..] {
        assert p == [p[0]] + p[1..] && a == [a[0]] + a[1..];
      }
    }
  }

  /** Swapping the arguments does not change the sum of squares. */
  lemma {:induction false} SumSquaresSymmetric(p: seq<real>, a: seq<real>)
    requires |p| == |a|
    ensures SumSquares(p, a) == SumSquares(a, p)
  {
    if |p| > 0 {
      SumSquaresSymmetric(p[1..], a[1..]);
      assert Square(p[0] - a[0]) == Square(a[0] - p[0]);
    }
  }

  /** The MSE is symmetric in its two arguments. */
  lemma MseSymmetric(predicted: seq<real>, actual: seq<real>)
    requires |predicted| == |actual| > 0
    ensures CalculateMse(predicted, actual) == CalculateMse(actual, predicted)
  {
    SumSquaresSymmetric(predicted, actual);
  }

  /** `c + s` elementwise. */
  function Shift(s: seq<real>, c: real): (r: seq<real>)
    ensures |r| == |s| && forall i :: 0 <= i < |s| ==> r[i] == s[i] + c
  {
    seq(|s|, i requires 0 <= i < |s| => s[i] + c)
  }

  /** Adding one constant to both sequences leaves the sum of squares unchanged. */
  lemma {:induction false} SumSquaresShift(p: seq<real>, a: seq<real>, c: real)
    requires |p| == |a|
    ensures SumSquares(Shift(p, c), Shift(a, c)) == SumSquares(p, a)
  {
    if |p| > 0 {
      assert Shift(p, c)[1..] == Shift(p[1..], c);
      assert Shift(a, c)[1..] == Shift(a[1..], c);
      SumSquaresShift(p[1..], a[1..], c);
    }
  }

  /** The MSE is invariant under a common vertical translation of both curves. */
  lemma MseShiftInvariant(predicted: seq<real>, actual: seq<real>, c: real)
    requires |predicted| == |actual| > 0
    ensures CalculateMse(Shift(predicted, c), Shift(actual, c)) == CalculateMse(predicted, actual)
  {
    SumSquaresShift(predicted, actual, c);
  }

  /** If every squared difference is at most `bound`, so is the MSE. */
  lemma {:induction false} SumSquaresBound(p: seq<real>, a: seq<real>, bound: real)
    requires |p| == |a|
    requires forall i :: 0 <= i < |p| ==> Square(p[i] - a[i]) <= bound
    ensures SumSquares(p, a) <= (|p| as real) * bound
  {
    if |p| > 0 {
      SumSquaresBound(p[1..], a[1..], bound);
    }
  }

  /** The MSE never exceeds the largest squared pointwise difference. */
  lemma MseAtMostMaxError(predicted: seq<real>, actual: seq<real>, bound: real)
    requires |predicted| == |actual| > 0
    requires forall i :: 0 <= i < |predicted| ==> Square(predicted[i] - actual[i]) <= bound
    ensures CalculateMse(predicted, actual) <= bound
  {
    SumSquaresBound(predicted, actual, bound);
    var n := |predicted| as real;
    assert SumSquares(predicted, actual) / n <= (n * bound) / n;
  }
}
