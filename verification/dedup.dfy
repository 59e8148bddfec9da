/**
  De-duplication of drawn points by exact x: for every x the LAST point drawn
  with that x survives, and the survivors keep their drawing order.
 */
module Dedup {
  import opened Points

  /** `ps[j]` is the last occurrence of its x: no later point has the same x. */
  predicate IsLast(ps: seq<Point>, j: nat)
    requires j < |ps|
  {
    forall k :: j < k < |ps| ==> ps[k].x != ps[j].x
  }

  /** The points of `ps` at the positions listed in `idx`, in that order. */
  function Select(ps: seq<Point>, idx: seq<nat>): (r: seq<Point>)
    requires forall k :: 0 <= k < |idx| ==> idx[k] < |ps|
    ensures |r| == |idx| && forall k :: 0 <= k < |idx| ==> r[k] == ps[idx[k]]
  {
    seq(|idx|, k requires 0 <= k < |idx| => ps[idx[k]])
  }

  function Reverse(s: seq<nat>): (r: seq<nat>)
    ensures |r| == |s| && forall k :: 0 <= k < |s| ==> r[k] == s[|s| - 1 - k]
  {
    seq(|s|, k requires 0 <= k < |s| => s[|s| - 1 - k])
  }

  /**
    The indices, from `from` onwards, of the points that are last occurrences,
    in increasing order: they are exactly the positions that survive.
   */
  function UniqueIndices(ps: seq<Point>, from: nat): (idx: seq<nat>)
    requires from <= |ps|
    ensures forall k :: 0 <= k < |idx| ==> from <= idx[k] < |ps| && IsLast(ps, idx[k])
    ensures forall j :: from <= j < |ps| && IsLast(ps, j) ==> j in idx
    ensures forall k, l :: 0 <= k < l < |idx| ==> idx[k] < idx[l]
    decreases |ps| - from
  {
    if from == |ps| then []
    else if IsLast(ps, from) then [from] + UniqueIndices(ps, from + 1)
    else UniqueIndices(ps, from + 1)
  }

  /**
    The de-duplicated points: no two share an x, every drawn x is still present,
    and the point kept for each x is the last one drawn with it.
   */
  function DedupLast(ps: seq<Point>): (r: seq<Point>)
    ensures DistinctX(r)
    ensures XsOf(r) == XsOf(ps)
    ensures forall q :: q in r ==> exists j :: 0 <= j < |ps| && ps[j] == q && IsLast(ps, j)
    ensures forall j :: 0 <= j < |ps| && IsLast(ps, j) ==> ps[j] in r
  {
    var idx := UniqueIndices(ps, 0);
    LastIndicesDistinct(ps, idx);
    SelectLastIndices(ps, idx);
    Select(ps, idx)
  }

  /**
    Selecting exactly the last-occurrence positions keeps every drawn x, keeps
    every last occurrence, and keeps nothing else.
   */
  lemma SelectLastIndices(ps: seq<Point>, idx: seq<nat>)
    requires forall k :: 0 <= k < |idx| ==> idx[k] < |ps| && IsLast(ps, idx[k])
    requires forall j :: 0 <= j < |ps| && IsLast(ps, j) ==> j in idx
    ensures XsOf(Select(ps, idx)) == XsOf(ps)
    ensures forall q :: q in Select(ps, idx) ==> exists j :: 0 <= j < |ps| && ps[j] == q && IsLast(ps, j)
    ensures forall j :: 0 <= j < |ps| && IsLast(ps, j) ==> ps[j] in Select(ps, idx)
  {
    var r := Select(ps, idx);
    forall j | 0 <= j < |ps| && IsLast(ps, j)
      ensures ps[j] in r
    {
      var k :| 0 <= k < |idx| && idx[k] == j;
      assert r[k] == ps[j];
    }
    forall q | q in r
      ensures exists j :: 0 <= j < |ps| && ps[j] == q && IsLast(ps, j)
    {
      var k :| 0 <= k < |r| && r[k] == q;
      assert ps[idx[k]] == q;
    }
    EveryXHasLast(ps);
    forall v | v in XsOf(ps)
      ensures v in XsOf(r)
    {
      var j :| 0 <= j < |ps| && ps[j].x == v && IsLast(ps, j);
      assert ps[j] in r;
    }
  }

  /** Two distinct last-occurrence positions hold different x values. */
  lemma LastIndicesDistinct(ps: seq<Point>, idx: seq<nat>)
    requires forall k :: 0 <= k < |idx| ==> idx[k] < |ps| && IsLast(ps, idx[k])
    requires forall k, l :: 0 <= k < l < |idx| ==> idx[k] < idx[l]
    ensures DistinctX(Select(ps, idx))
  {
    var r := Select(ps, idx);
    forall k, l | 0 <= k < l < |r|
      ensures r[k].x != r[l].x
    {
      assert idx[k] < idx[l];
      assert IsLast(ps, idx[k]);
    }
  }

  /** Every x of the drawing has a last occurrence. */
  lemma EveryXHasLast(ps: seq<Point>)
    ensures forall v :: v in XsOf(ps) ==> exists j :: 0 <= j < |ps| && ps[j].x == v && IsLast(ps, j)
  {
    forall v | v in XsOf(ps)
      ensures exists j :: 0 <= j < |ps| && ps[j].x == v && IsLast(ps, j)
    {
      var p :| p in ps && p.x == v;
      var i :| 0 <= i < |ps| && ps[i] == p;
      var j := LastWithX(ps, v, i);
    }
  }

  /** From one occurrence of `v` at `i`, the position of the last occurrence of `v`. */
  lemma {:induction false} LastWithX(ps: seq<Point>, v: real, i: nat) returns (j: nat)
    requires i < |ps| && ps[i].x == v
    ensures i <= j < |ps| && ps[j].x == v && IsLast(ps, j)
    decreases |ps| - i
  {
    if IsLast(ps, i) {
      j := i;
    } else {
      var k :| i < k < |ps| && ps[k].x == ps[i].x;
      j := LastWithX(ps, v, k);
    }
  }

  /** The surviving indices after a backward scan has reached position `i`. */
  lemma ScanStep(ps: seq<Point>, i: nat)
    requires i < |ps|
    ensures XsOf(ps[i..]) == {ps[i].x} + XsOf(ps[i + 1..])
    ensures IsLast(ps, i) <==> ps[i].x !in XsOf(ps[i + 1..])
  {
    XsOfCons(ps[i..]);
    assert ps[i..][1..] == ps[i + 1..];
    if !IsLast(ps, i) {
      var k :| i < k < |ps| && ps[k].x == ps[i].x;
      assert ps[k] in ps[i + 1..];
    }
  }

  /**
    The backward scan of the drawing: walk from the last point to the first,
    record each index whose x has not been seen yet, then reverse the recorded
    list. The result lists exactly the last-occurrence positions, in increasing
    order.
   */
  method DedupScan(ps: seq<Point>) returns (idx: seq<nat>)
    ensures forall k :: 0 <= k < |idx| ==> idx[k] < |ps| && IsLast(ps, idx[k])
    ensures forall j :: 0 <= j < |ps| && IsLast(ps, j) ==> j in idx
    ensures forall k, l :: 0 <= k < l < |idx| ==> idx[k] < idx[l]
    ensures Select(ps, idx) == DedupLast(ps)
  {
    var unique: seq<nat> := [];
    var seen: set<real> := {};
    var i := |ps|;
    while i > 0
      invariant 0 <= i <= |ps|
      invariant seen == XsOf(ps[i..])
      invariant Reverse(unique) == UniqueIndices(ps, i)
    {
      i := i - 1;
      ScanStep(ps, i);
      if ps[i].x !in seen {
        assert Reverse(unique + [i]) == [i] + Reverse(unique);
        unique := unique + [i];
        seen := seen + {ps[i].x};
      }
    }
    idx := Reverse(unique);
  }
}
