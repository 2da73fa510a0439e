/** `estimate_radius`: the Euclidean distance between a center and an edge point, summed
    over the coordinates that `zip` pairs up. The model stops before the square root. */
module Radius {
  import opened CustomTypes

  /** The coordinates of a point, in the order `zip` visits them. */
  function Coords(p: Point): (r: seq<int>)
    ensures |r| == 2 && r[0] == p.x && r[1] == p.y
  {
    [p.x, p.y]
  }

  /** Sum of the squared differences of paired coordinates; like `zip`, it stops at the
      end of the shorter sequence. It is zero exactly when the paired coordinates agree. */
  function SumSqDiff(a: seq<int>, b: seq<int>): (r: nat)
    ensures r == 0 <==> forall i :: 0 <= i < |a| && i < |b| ==> a[i] == b[i]
  {
    if a == [] || b == [] then 0
    else
      var d := a[0] - b[0];
      var rest := SumSqDiff(a[1..], b[1..]);
      assert forall i :: 1 <= i < |a| && i < |b| ==> a[i] == a[1..][i - 1] && b[i] == b[1..][i - 1];
      assert d * d >= 0 && (d * d == 0 <==> d == 0);
      d * d + rest
  }

  /** The coordinate sum vanishes exactly for equal points. */
  lemma SumSqDiffOfPoints(c: Point, e: Point)
    ensures SumSqDiff(Coords(c), Coords(e)) == 0 <==> c == e
  {
    var a, b := Coords(c), Coords(e);
    if c != e {
      if a[0] != b[0] {
        assert !(0 < |a| && 0 < |b| ==> a[0] == b[0]);
      } else {
        assert !(1 < |a| && 1 < |b| ==> a[1] == b[1]);
      }
    }
  }

  /** The squared radius of the circle centered at `c` through `e`. */
  function EstimateRadiusSq(c: Point, e: Point): (r: nat)
    ensures r == 0 <==> c == e
  {
    SumSqDiffOfPoints(c, e);
    SumSqDiff(Coords(c), Coords(e))
  }

  /** The sum over the two axes is the squared Euclidean distance. */
  lemma EstimateRadiusSqIsEuclidean(c: Point, e: Point)
    ensures EstimateRadiusSq(c, e) == (c.x - e.x) * (c.x - e.x) + (c.y - e.y) * (c.y - e.y)
  {
    var a, b := Coords(c), Coords(e);
    assert a[1..][1..] == [] && a[1..][0] == c.y && b[1..][0] == e.y;
    assert SumSqDiff(a[1..], b[1..]) == (c.y - e.y) * (c.y - e.y) + SumSqDiff(a[1..][1..], b[1..][1..]);
  }

  /** Paired squared differences do not depend on which sequence comes first. */
  lemma {:induction false} SumSqDiffSymmetric(a: seq<int>, b: seq<int>)
    ensures SumSqDiff(a, b) == SumSqDiff(b, a)
  {
    if a != [] && b != [] {
      SumSqDiffSymmetric(a[1..], b[1..]);
      assert (a[0] - b[0]) * (a[0] - b[0]) == (b[0] - a[0]) * (b[0] - a[0]);
    }
  }

  /** The distance from the center to the edge equals the distance from the edge to the center. */
  lemma EstimateRadiusSqSymmetric(c: Point, e: Point)
    ensures EstimateRadiusSq(c, e) == EstimateRadiusSq(e, c)
  {
    SumSqDiffSymmetric(Coords(c), Coords(e));
  }

  /** Center (0, 0) and edge (3, 4) give radius 5, that is squared radius 25. */
  lemma ThreeFourFive()
    ensures EstimateRadiusSq(Point(0, 0), Point(3, 4)) == 25 == 5 * 5
  {
    EstimateRadiusSqIsEuclidean(Point(0, 0), Point(3, 4));
  }
}
