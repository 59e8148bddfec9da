/**
  Drawn points and the ordering predicates shared by the de-duplication,
  sorting and interpolation steps of the curve sampler.
 */
module Points {

  /** One `(x, y)` point of a freehand drawing, in plot coordinates. */
  datatype Point = Point(x: real, y: real)

  /** The set of x coordinates that occur in `ps`. */
  function XsOf(ps: seq<Point>): set<real>
  {
    set p | p in ps :: p.x
  }

  /** No two points of `ps` share an x coordinate (the vertical-line test). */
  predicate DistinctX(ps: seq<Point>)
  {
    forall i, j :: 0 <= i < j < |ps| ==> ps[i].x != ps[j].x
  }

  /** The x coordinates of `ps` never decrease. */
  predicate SortedByX(ps: seq<Point>)
  {
    forall i, j :: 0 <= i < j < |ps| ==> ps[i].x <= ps[j].x
  }

  /** The x coordinates of `ps` strictly increase: a valid interpolation knot vector. */
  predicate StrictlyIncreasing(ps: seq<Point>)
  {
    forall i, j :: 0 <= i < j < |ps| ==> ps[i].x < ps[j].x
  }

  /** The x set of a non-empty sequence splits into its head's x and the tail's x set. */
  lemma XsOfCons(ps: seq<Point>)
    requires |ps| > 0
    ensures XsOf(ps) == {ps[0].x} + XsOf(ps[1..])
  {
    forall v | v in XsOf(ps)
      ensures v in {ps[0].x} + XsOf(ps[1..])
    {
      var p :| p in ps && p.x == v;
      if p != ps[0] {
        assert p in ps[1..];
      }
    }
    forall v | v in XsOf(ps[1..])
      ensures v in XsOf(ps)
    {
      var p :| p in ps[1..] && p.x == v;
      assert p in ps;
    }
  }

  /** A sequence without repeated x has exactly as many distinct x values as points. */
  lemma {:induction false} DistinctXCard(ps: seq<Point>)
    requires DistinctX(ps)
    ensures |XsOf(ps)| == |ps|
  {
    if |ps| > 0 {
      XsOfCons(ps);
      assert DistinctX(ps[1..]) by {
        forall i, j | 0 <= i < j < |ps[1..]|
          ensures ps[1..][i].x != ps[1..][j].x
        {
          assert ps[1..][i] == ps[i + 1] && ps[1..][j] == ps[j + 1];
        }
      }
      DistinctXCard(ps[1..]);
    }
  }

  /** Two sequences holding the same points (with multiplicity) hold the same x values. */
  lemma SameMultisetSameXs(a: seq<Point>, b: seq<Point>)
    requires multiset(a) == multiset(b)
    ensures XsOf(a) == XsOf(b)
  {
    forall p | p in a ensures p in b {
      assert p in multiset(a);
    }
    forall p | p in b ensures p in a {
      assert p in multiset(b);
    }
  }

  /**
    A strictly increasing sequence holding the same x values as `ps` starts at
    the smallest x of `ps` and ends at the largest.
   */
  lemma IncreasingSpan(ks: seq<Point>, ps: seq<Point>)
    requires StrictlyIncreasing(ks) && |ks| > 0 && XsOf(ks) == XsOf(ps)
    ensures forall p :: p in ps ==> ks[0].x <= p.x <= ks[|ks| - 1].x
  {
    forall p | p in ps
      ensures ks[0].x <= p.x <= ks[|ks| - 1].x
    {
      assert p.x in XsOf(ps);
      var q :| q in ks && q.x == p.x;
      var m :| 0 <= m < |ks| && ks[m] == q;
    }
  }

  /**
    In a strictly increasing sequence holding the same x values as `ps`, two
    entries with no x of `ps` strictly between them are adjacent, the one
    with the smaller x first.
   */
  lemma IncreasingAdjacent(ks: seq<Point>, ps: seq<Point>, k: nat, l: nat)
    requires StrictlyIncreasing(ks) && XsOf(ks) == XsOf(ps)
    requires k < |ks| && l < |ks| && ks[k].x < ks[l].x
    requires forall p :: p in ps ==> !(ks[k].x < p.x < ks[l].x)
    ensures l == k + 1
  {
    if l <= k {
      assert false;
    }
    if l > k + 1 {
      XsOfHas(ks, k + 1);
      assert false;
    }
  }

  /**
    Membership of one entry's x in the x set. Callers name it to hand the
    solver that single instance right before closing an impossible case.
   */
  lemma XsOfHas(ps: seq<Point>, i: nat)
    requires i < |ps|
    ensures ps[i].x in XsOf(ps)
  {
  }
}
