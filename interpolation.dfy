/** Placing the surface crossing on a cube edge, and the min/max helpers. */
module Interpolation {
  import opened Geometry

  /** The tolerance of the three degenerate-case checks (1e-5). */
  const Tolerance: real := 0.00001

  function Abs(r: real): real
  {
    if r < 0.0 then -r else r
  }

  /** The smaller of a and b (a on a tie). */
  function Min(a: real, b: real): (r: real)
    ensures r <= a && r <= b
    ensures r == a || r == b
  {
    if a <= b then a else b
  }

  /** The larger of a and b (a on a tie). */
  function Max(a: real, b: real): (r: real)
    ensures r >= a && r >= b
    ensures r == a || r == b
  {
    if a >= b then a else b
  }

  /** The general case of InterpolateVertex: none of the three tolerance checks fires. */
  predicate GeneralCase(v1: real, v2: real, isovalue: real)
  {
    Abs(isovalue - v1) >= Tolerance && Abs(isovalue - v2) >= Tolerance && Abs(v1 - v2) >= Tolerance
  }

  /** The fraction along the edge at which the linearly interpolated sample equals the isovalue. */
  function Fraction(v1: real, v2: real, isovalue: real): real
    requires v1 != v2
  {
    (isovalue - v1) / (v2 - v1)
  }

  /** The point on segment p1-p2 where the field, linear between the sample
      values v1 and v2, takes the isovalue. The tolerance checks come first and
      in this order: isovalue near v1 gives p1, else isovalue near v2 gives p2,
      else a flat edge (v1 near v2) gives p1. */
  function InterpolateVertex(p1: Vec3, p2: Vec3, v1: real, v2: real, isovalue: real): Vec3
  {
    if Abs(isovalue - v1) < Tolerance then p1
    else if Abs(isovalue - v2) < Tolerance then p2
    else if Abs(v1 - v2) < Tolerance then p1
    else
      var mu := (isovalue - v1) / (v2 - v1);
      Vec3(p1.x + mu * (p2.x - p1.x), p1.y + mu * (p2.y - p1.y), p1.z + mu * (p2.z - p1.z))
  }

  /** The rules in their order of precedence. In the general case the result
      is the point of the line through p1 and p2 at which the field, taken as
      linear between v1 at p1 and v2 at p2, equals the isovalue. */
  lemma InterpolationRules(p1: Vec3, p2: Vec3, v1: real, v2: real, isovalue: real)
    ensures Abs(isovalue - v1) < Tolerance ==> InterpolateVertex(p1, p2, v1, v2, isovalue) == p1
    ensures Abs(isovalue - v1) >= Tolerance && Abs(isovalue - v2) < Tolerance ==>
              InterpolateVertex(p1, p2, v1, v2, isovalue) == p2
    ensures Abs(isovalue - v1) >= Tolerance && Abs(isovalue - v2) >= Tolerance && Abs(v1 - v2) < Tolerance ==>
              InterpolateVertex(p1, p2, v1, v2, isovalue) == p1
    ensures GeneralCase(v1, v2, isovalue) ==>
              InterpolateVertex(p1, p2, v1, v2, isovalue) == Lerp(p1, p2, Fraction(v1, v2, isovalue)) &&
              v1 + Fraction(v1, v2, isovalue) * (v2 - v1) == isovalue
  {
  }

  /** Equal samples at the isovalue: the first check fires before the flat-edge
      check, so the result is p1. */
  lemma EqualValuesGiveFirstPoint(p1: Vec3, p2: Vec3, v: real)
    ensures InterpolateVertex(p1, p2, v, v, v) == p1
  {
  }

  /** Samples 0 and 1 with isovalue 0.5 give the midpoint of the edge. */
  lemma HalfwayGivesMidpoint(p1: Vec3, p2: Vec3)
    ensures InterpolateVertex(p1, p2, 0.0, 1.0, 0.5) == Vec3((p1.x + p2.x) / 2.0, (p1.y + p2.y) / 2.0, (p1.z + p2.z) / 2.0)
  {
  }

  /** When the isovalue lies strictly between the two samples and no tolerance
      check fires, the fraction is strictly between 0 and 1, so the result lies
      strictly inside the edge. */
  lemma StrictlyBetweenGivesInnerFraction(v1: real, v2: real, isovalue: real)
    requires GeneralCase(v1, v2, isovalue)
    requires Min(v1, v2) < isovalue < Max(v1, v2)
    ensures 0.0 < Fraction(v1, v2, isovalue) < 1.0
  {
    var d := v2 - v1;
    var mu := Fraction(v1, v2, isovalue);
    assert mu * d == isovalue - v1;
    if d > 0.0 {
      assert 0.0 < isovalue - v1 < d;
    } else {
      assert d < isovalue - v1 < 0.0;
    }
  }

  /** Whenever the isovalue lies between the two samples (inclusive), every
      rule yields a point of the closed segment p1-p2. */
  lemma BetweenGivesPointOnSegment(p1: Vec3, p2: Vec3, v1: real, v2: real, isovalue: real)
    requires Min(v1, v2) <= isovalue <= Max(v1, v2)
    ensures exists mu :: 0.0 <= mu <= 1.0 && InterpolateVertex(p1, p2, v1, v2, isovalue) == Lerp(p1, p2, mu)
  {
    var p := InterpolateVertex(p1, p2, v1, v2, isovalue);
    if !GeneralCase(v1, v2, isovalue) {
      if p == p1 {
        assert p == Lerp(p1, p2, 0.0);
      } else {
        assert p == Lerp(p1, p2, 1.0);
      }
    } else {
      StrictlyBetweenGivesInnerFraction(v1, v2, isovalue);
      InterpolationRules(p1, p2, v1, v2, isovalue);
    }
  }
}
