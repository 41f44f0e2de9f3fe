/** Integer plane geometry (geometry.cpp): vectors and points with int64
    coordinates, the dot and cross products, and the exact containment
    tests of points, segments, lines, rays and circles. Coordinates are
    unbounded integers here: every result agrees with the int64 one
    whenever no intermediate leaves the int64 range, outside of which the
    source's signed arithmetic is undefined. */
module Geometry {

  datatype Vector = Vector(x: int, y: int)

  datatype Point = Point(x: int, y: int)

  /** Vector::operator*: the dot product. */
  function Dot(u: Vector, v: Vector): int
  {
    u.x * v.x + u.y * v.y
  }

  /** Vector::operator^: the cross product (the z of the 3-D one). */
  function Cross(u: Vector, v: Vector): int
  {
    u.x * v.y - u.y * v.x
  }

  /** The dot product is symmetric, the cross product antisymmetric, and a
      vector crossed with itself is zero. */
  lemma Products(u: Vector, v: Vector)
    ensures Dot(u, v) == Dot(v, u)
    ensures Cross(u, v) == -Cross(v, u)
    ensures Cross(u, u) == 0
  {
  }

  /** operator-(Point, Point): the vector from the second to the first. */
  function Diff(p: Point, q: Point): (v: Vector)
    ensures Translate(q, v) == p
  {
    Vector(p.x - q.x, p.y - q.y)
  }

  /** Point::operator+= and Point::Move: translation by a vector. */
  function Translate(p: Point, v: Vector): Point
  {
    Point(p.x + v.x, p.y + v.y)
  }

  /** Translating both points leaves their difference unchanged. */
  lemma DiffTranslate(p: Point, q: Point, v: Vector)
    ensures Diff(Translate(p, v), Translate(q, v)) == Diff(p, q)
  {
  }

  /** Point::ContainsPoint: coordinate-wise equality. */
  function PointContains(p: Point, q: Point): (r: bool)
    ensures r <==> p == q
  {
    p.x == q.x && p.y == q.y
  }

  datatype Segment = Segment(a: Point, b: Point)

  /** Point::CrossSegment: the point is an endpoint, or the vectors to the
      endpoints are collinear and point in opposite directions. That is
      exactly the closed segment. */
  function OnSegment(p: Point, s: Segment): (r: bool)
    ensures r <==> OnClosedSegment(p, s)
  {
    PointTestClosed(p, s);
    if PointContains(p, s.a) || PointContains(p, s.b) then true
    else
      var first := Diff(s.a, p);
      var second := Diff(s.b, p);
      Cross(first, second) == 0 && Dot(first, second) < 0
  }

  /** m lies between a and b, in either order. */
  predicate Between(a: int, m: int, b: int)
  {
    (a <= m <= b) || (b <= m <= a)
  }

  /** The closed segment as a set of lattice points: collinear with the
      endpoints and inside their bounding box. */
  predicate OnClosedSegment(p: Point, s: Segment)
  {
    && Cross(Diff(s.b, s.a), Diff(p, s.a)) == 0
    && Between(s.a.x, p.x, s.b.x)
    && Between(s.a.y, p.y, s.b.y)
  }

  /** An endpoint, or collinear vectors to the endpoints with a negative
      dot product: exactly the closed segment. */
  lemma {:induction false} PointTestClosed(p: Point, s: Segment)
    ensures var u, v := Diff(s.a, p), Diff(s.b, p);
      (p == s.a || p == s.b || (Cross(u, v) == 0 && Dot(u, v) < 0)) <==> OnClosedSegment(p, s)
  {
    var u := Diff(s.a, p);
    var v := Diff(s.b, p);
    CrossShift(p, s);
    if p == s.a || p == s.b {
    } else if Cross(u, v) == 0 && Dot(u, v) < 0 {
      OppositeParts(u, v);
      BetweenOfProduct(s.a.x, p.x, s.b.x);
      BetweenOfProduct(s.a.y, p.y, s.b.y);
    } else if OnClosedSegment(p, s) {
      ProductOfBetween(s.a.x, p.x, s.b.x);
      ProductOfBetween(s.a.y, p.y, s.b.y);
      StrictlyOpposite(u, v);
    }
  }

  /** Collinearity seen from p is collinearity seen from the first
      endpoint. */
  lemma CrossShift(p: Point, s: Segment)
    ensures Cross(Diff(s.a, p), Diff(s.b, p)) == 0 <==> Cross(Diff(s.b, s.a), Diff(p, s.a)) == 0
  {
    var u := Diff(s.a, p);
    var v := Diff(s.b, p);
    assert Diff(s.b, s.a) == Vector(v.x - u.x, v.y - u.y);
    assert Diff(p, s.a) == Vector(-u.x, -u.y);
    assert Cross(Diff(s.b, s.a), Diff(p, s.a)) == (v.x - u.x) * -u.y - (v.y - u.y) * -u.x;
    assert (v.x - u.x) * -u.y - (v.y - u.y) * -u.x == Cross(u, v) by {
      assert (v.x - u.x) * -u.y == u.x * u.y - v.x * u.y;
      assert (v.y - u.y) * -u.x == u.x * u.y - u.x * v.y;
    }
  }

  /** Collinear vectors with a negative dot product have each coordinate
      of opposite sign. */
  lemma OppositeParts(u: Vector, v: Vector)
    requires Cross(u, v) == 0 && Dot(u, v) < 0
    ensures u.x * v.x <= 0 && u.y * v.y <= 0
  {
    var m := u.x * v.y;
    assert (u.x * v.x) * (u.y * v.y) == (u.x * v.y) * (u.y * v.x);
    assert (u.x * v.x) * (u.y * v.y) == m * m;
    MulSign(m, m);
    MulSign(u.x * v.x, u.y * v.y);
  }

  /** The sign of a product from the signs of its factors. */
  lemma MulSign(s: int, t: int)
    ensures (s > 0 && t > 0) || (s < 0 && t < 0) ==> s * t > 0
    ensures (s > 0 && t < 0) || (s < 0 && t > 0) ==> s * t < 0
    ensures s == 0 || t == 0 ==> s * t == 0
  {
    if s > 0 && t > 0 {
      assert s * t > 0;
    } else if s < 0 && t < 0 {
      assert s * t == (-s) * (-t);
    } else if s > 0 && t < 0 {
      assert s * t == -(s * (-t));
    } else if s < 0 && t > 0 {
      assert s * t == -((-s) * t);
    }
  }

  /** A nonpositive product (a - m) * (b - m) puts m between a and b. */
  lemma BetweenOfProduct(a: int, m: int, b: int)
    requires (a - m) * (b - m) <= 0
    ensures Between(a, m, b)
  {
    MulSign(a - m, b - m);
  }

  /** m between a and b makes (a - m) * (b - m) nonpositive. */
  lemma ProductOfBetween(a: int, m: int, b: int)
    requires Between(a, m, b)
    ensures (a - m) * (b - m) <= 0
  {
    MulSign(a - m, b - m);
  }

  /** Two nonzero collinear vectors whose coordinates have opposite signs
      have a negative dot product. */
  lemma StrictlyOpposite(u: Vector, v: Vector)
    requires u != Vector(0, 0) && v != Vector(0, 0)
    requires Cross(u, v) == 0 && u.x * v.x <= 0 && u.y * v.y <= 0
    ensures Dot(u, v) < 0
  {
    MulSign(u.x, v.x);
    MulSign(u.y, v.y);
    MulSign(u.x, v.y);
    MulSign(u.y, v.x);
  }

  /** Segment::Move: both endpoints translate. */
  function MoveSegment(s: Segment, v: Vector): Segment
  {
    Segment(Translate(s.a, v), Translate(s.b, v))
  }

  /** Segment::ContainsPoint: the point-on-segment test of the point. */
  function SegmentContains(s: Segment, p: Point): bool
  {
    OnSegment(p, s)
  }

  /** A segment contains both its endpoints, and containment survives
      moving the segment and the point together. */
  lemma SegmentContainment(s: Segment, p: Point, v: Vector)
    ensures SegmentContains(s, s.a) && SegmentContains(s, s.b)
    ensures SegmentContains(MoveSegment(s, v), Translate(p, v)) == SegmentContains(s, p)
  {
    DiffTranslate(s.a, p, v);
    DiffTranslate(s.b, p, v);
  }

  /** Segment::GetSign(int64_t): -1, 0 or 1 by the sign of the value. */
  function Sign(n: int): (r: int)
    ensures r == 0 <==> n == 0
    ensures r == 1 <==> n > 0
    ensures r == -1 <==> n < 0
  {
    if n == 0 then 0 else if n > 0 then 1 else -1
  }

  /** The direction of a segment, from b to a. */
  function Direction(s: Segment): Vector
  {
    Diff(s.a, s.b)
  }

  /** The straddle test of the general branch of Segment::CrossSegment:
      the endpoints of t lie on different sides of s (or one on it), and
      the endpoints of s on different sides of t. */
  predicate Straddle(s: Segment, t: Segment)
  {
    && Sign(Cross(Diff(s.a, t.a), Diff(s.b, t.a))) != Sign(Cross(Diff(s.a, t.b), Diff(s.b, t.b)))
    && Sign(Cross(Diff(t.a, s.a), Diff(t.b, s.a))) != Sign(Cross(Diff(t.a, s.b), Diff(t.b, s.b)))
  }

  /** Segment::CrossSegment as written: a degenerate segment is its point;
      with parallel directions it asks only whether this segment contains
      an endpoint of the other; otherwise the straddle test. */
  function SegmentsCrossAsWritten(s: Segment, t: Segment): (r: bool)
    ensures s.a == s.b ==> (r <==> OnClosedSegment(s.a, t))
    ensures OnClosedSegment(t.a, s) || OnClosedSegment(t.b, s) ==> r
    ensures s.a != s.b && Cross(Direction(s), Direction(t)) == 0 ==>
      (r <==> OnClosedSegment(t.a, s) || OnClosedSegment(t.b, s))
  {
    EndsStraddle(s, t);
    if s.a == s.b then OnSegment(s.a, t)
    else if Cross(Direction(s), Direction(t)) == 0 then SegmentContains(s, t.a) || SegmentContains(s, t.b)
    else Straddle(s, t)
  }

  /** Two segments on the x axis, one strictly inside the other, share
      the inner one's first end o (e.g. [(0, 0), (1, 0)] inside
      [(-1, 0), (2, 0)]); the test as written sees that from the outer
      segment only. */
  lemma SegmentsCrossAsymmetric(s: Segment, t: Segment, o: Point)
    requires s.a.y == 0 && s.b.y == 0 && t.a.y == 0 && t.b.y == 0
    requires t.a.x < s.a.x < s.b.x < t.b.x && o == s.a
    ensures SegmentContains(s, o) && SegmentContains(t, o)
    ensures !SegmentsCrossAsWritten(s, t)
    ensures SegmentsCrossAsWritten(t, s)
  {
    AxisParallel(s, t);
    AxisOnSegment(t.a, s);
    AxisOnSegment(t.b, s);
    AxisOnSegment(o, t);
  }

  /** The smallest instance of the family above. */
  lemma SegmentsCrossExample(s: Segment, t: Segment)
    requires s == Segment(Point(0, 0), Point(1, 0)) && t == Segment(Point(-1, 0), Point(2, 0))
    ensures !SegmentsCrossAsWritten(s, t) && SegmentsCrossAsWritten(t, s)
  {
    SegmentsCrossAsymmetric(s, t, s.a);
  }

  /** Two segments on the x axis have parallel directions. */
  lemma AxisParallel(s: Segment, t: Segment)
    requires s.a.y == 0 && s.b.y == 0 && t.a.y == 0 && t.b.y == 0
    ensures Cross(Direction(s), Direction(t)) == 0 && Cross(Direction(t), Direction(s)) == 0
  {
    MulSign(Direction(s).x, Direction(t).y);
    MulSign(Direction(s).y, Direction(t).x);
  }

  /** On the x axis a point lies on a segment exactly when its x lies
      between the ends' x. */
  lemma AxisOnSegment(p: Point, s: Segment)
    requires p.y == 0 && s.a.y == 0 && s.b.y == 0
    ensures OnSegment(p, s) <==> Between(s.a.x, p.x, s.b.x)
  {
    MulSign(Diff(s.b, s.a).x, Diff(p, s.a).y);
    MulSign(Diff(s.b, s.a).y, Diff(p, s.a).x);
  }

  /** Segment::CrossSegment with the parallel branch asking both ways: an
      endpoint of either segment on the other. */
  function SegmentsCross(s: Segment, t: Segment): (r: bool)
    ensures s.a == s.b ==> (r <==> OnClosedSegment(s.a, t))
    ensures s.a != s.b && Cross(Direction(s), Direction(t)) == 0 ==> (r <==> Touching(s, t))
    ensures Touching(s, t) ==> r
  {
    CrossingEnds(s, t);
    if s.a == s.b then OnSegment(s.a, t)
    else if Cross(Direction(s), Direction(t)) == 0 then
      SegmentContains(s, t.a) || SegmentContains(s, t.b) || SegmentContains(t, s.a) || SegmentContains(t, s.b)
    else Straddle(s, t)
  }

  /** An end of either segment lies on the other one. */
  predicate Touching(s: Segment, t: Segment)
  {
    OnClosedSegment(t.a, s) || OnClosedSegment(t.b, s) || OnClosedSegment(s.a, t) || OnClosedSegment(s.b, t)
  }

  /** Touching segments pass the corrected test's branches: a point
      segment touched by the other lies on it, and segments with crossing
      directions pass the straddle test. */
  lemma CrossingEnds(s: Segment, t: Segment)
    ensures s.a == s.b && Touching(s, t) ==> OnClosedSegment(s.a, t)
    ensures Cross(Direction(s), Direction(t)) != 0 && Touching(s, t) ==> Straddle(s, t)
  {
    if s.a == s.b && (OnClosedSegment(t.a, s) || OnClosedSegment(t.b, s)) {
      PointOnPoint(t.a, s.a);
      PointOnPoint(t.b, s.a);
      EndsOnSegment(t);
    }
    if Cross(Direction(s), Direction(t)) != 0 {
      Products(Direction(s), Direction(t));
      EndsStraddle(s, t);
      EndsStraddle(t, s);
      StraddleSwap(s, t);
    }
  }

  /** A segment holds both its ends. */
  lemma EndsOnSegment(t: Segment)
    ensures OnClosedSegment(t.a, t) && OnClosedSegment(t.b, t)
  {
    var d := Diff(t.b, t.a);
    assert Cross(d, Diff(t.b, t.a)) == d.x * d.y - d.y * d.x;
  }

  /** Two segments with crossing directions pass the straddle test when an
      end of the second lies on the first. */
  lemma EndsStraddle(s: Segment, t: Segment)
    ensures Cross(Direction(s), Direction(t)) != 0 && (OnClosedSegment(t.a, s) || OnClosedSegment(t.b, s)) ==> Straddle(s, t)
  {
    if Cross(Direction(s), Direction(t)) != 0 {
      if OnClosedSegment(t.a, s) {
        TouchStraddle(s, t);
      } else if OnClosedSegment(t.b, s) {
        var rev := Segment(t.b, t.a);
        assert Cross(Direction(s), Direction(rev)) == -Cross(Direction(s), Direction(t));
        TouchStraddle(s, rev);
        StraddleReverse(s, t);
      }
    }
  }

  /** The straddle test reads the same with the second segment's ends
      swapped. */
  lemma StraddleReverse(s: Segment, t: Segment)
    ensures Straddle(s, Segment(t.b, t.a)) == Straddle(s, t)
  {
    Products(Diff(t.a, s.a), Diff(t.b, s.a));
    Products(Diff(t.a, s.b), Diff(t.b, s.b));
  }

  /** The straddle test reads the same with the segments swapped. */
  lemma StraddleSwap(s: Segment, t: Segment)
    ensures Straddle(s, t) == Straddle(t, s)
  {
  }

  /** The first end of t on s, with directions that cross: t's ends lie on
      different sides of s's line (the first on it), and s's ends on
      different sides of t's line, or one of them on it. */
  lemma TouchStraddle(s: Segment, t: Segment)
    requires Cross(Direction(s), Direction(t)) != 0
    requires OnClosedSegment(t.a, s)
    ensures Straddle(s, t)
  {
    TouchFirstSide(s, t);
    TouchSecondSide(s, t);
  }

  /** Seen from t's ends, s's cross product vanishes at t.a and is the
      directions' cross product at t.b. */
  lemma {:induction false} TouchFirstSide(s: Segment, t: Segment)
    requires Cross(Direction(s), Direction(t)) != 0
    requires OnClosedSegment(t.a, s)
    ensures Sign(Cross(Diff(s.a, t.a), Diff(s.b, t.a))) != Sign(Cross(Diff(s.a, t.b), Diff(s.b, t.b)))
  {
    var d := Diff(s.b, s.a);
    var w := Diff(t.b, t.a);
    var u := Diff(t.a, s.a);
    var k := Cross(d, w);
    assert k == Cross(Direction(s), Direction(t));
    CrossShift(t.a, s);
    var v := Diff(s.a, t.b);
    assert Diff(s.b, t.b) == Vector(v.x + d.x, v.y + d.y);
    CrossOfSum(v, d);
    assert v == Vector(-u.x - w.x, -u.y - w.y);
    CrossLinear(u, w, d);
  }

  /** Seen from s's ends, t's cross products are u ^ w and (u - d) ^ w,
      where u runs from s.a to t.a inside d; they differ by the directions'
      cross product and cannot share a sign. */
  lemma {:induction false} TouchSecondSide(s: Segment, t: Segment)
    requires Cross(Direction(s), Direction(t)) != 0
    requires OnClosedSegment(t.a, s)
    ensures Sign(Cross(Diff(t.a, s.a), Diff(t.b, s.a))) != Sign(Cross(Diff(t.a, s.b), Diff(t.b, s.b)))
  {
    var d := Diff(s.b, s.a);
    var w := Diff(t.b, t.a);
    var u := Diff(t.a, s.a);
    var e := Diff(t.a, s.b);
    assert Cross(d, w) == Cross(Direction(s), Direction(t));
    assert e == Vector(u.x - d.x, u.y - d.y);
    assert Diff(t.b, s.a) == Vector(u.x + w.x, u.y + w.y);
    CrossOfSum(u, w);
    assert Diff(t.b, s.b) == Vector(e.x + w.x, e.y + w.y);
    CrossOfSum(e, w);
    BetweenOffset(s.a.x, t.a.x, s.b.x);
    BetweenOffset(s.a.y, t.a.y, s.b.y);
    OppositeSides(d, u, w);
  }

  /** m between a and b: its offset from a and its offset from b have
      opposite signs. */
  lemma BetweenOffset(a: int, m: int, b: int)
    requires Between(a, m, b)
    ensures (m - a) * ((m - a) - (b - a)) <= 0
  {
    ProductOfBetween(a, m, b);
    assert (m - a) * ((m - a) - (b - a)) == (a - m) * (b - m);
  }

  /** u collinear with d and lying within it (each coordinate of u and of
      u - d of opposite signs): for any w crossing d, u ^ w and
      (u - d) ^ w differ in sign. */
  lemma OppositeSides(d: Vector, u: Vector, w: Vector)
    requires Cross(d, u) == 0 && Cross(d, w) != 0
    requires u.x * (u.x - d.x) <= 0 && u.y * (u.y - d.y) <= 0
    ensures Sign(Cross(u, w)) != Sign(Cross(Vector(u.x - d.x, u.y - d.y), w))
  {
    var e := Vector(u.x - d.x, u.y - d.y);
    var k := Cross(d, w);
    var d1, d2 := Cross(u, w), Cross(e, w);
    CollinearShift(d, u);
    ScaledCross(d, u, w);
    ScaledCross(d, e, w);
    CrossDifferenceOfShift(u, d, w);
    if d.x != 0 {
      OppositeByScale(d.x, d1, d2, u.x, e.x, k);
    } else {
      OppositeByScale(d.y, d1, d2, u.y, e.y, k);
    }
    MulSign(d1, d2);
  }

  /** With u collinear with d, u - d is too. */
  lemma CollinearShift(d: Vector, u: Vector)
    requires Cross(d, u) == 0
    ensures Cross(d, Vector(u.x - d.x, u.y - d.y)) == 0
  {
    assert d.x * (u.y - d.y) - d.y * (u.x - d.x) == d.x * u.y - d.y * u.x;
  }

  /** u ^ w - (u - d) ^ w == d ^ w. */
  lemma CrossDifferenceOfShift(u: Vector, d: Vector, w: Vector)
    ensures Cross(u, w) - Cross(Vector(u.x - d.x, u.y - d.y), w) == Cross(d, w)
  {
    assert (u.x - d.x) * w.y == u.x * w.y - d.x * w.y;
    assert (u.y - d.y) * w.x == u.y * w.x - d.y * w.x;
  }

  /** u ^ (u + v) == u ^ v. */
  lemma CrossOfSum(u: Vector, v: Vector)
    ensures Cross(u, Vector(u.x + v.x, u.y + v.y)) == Cross(u, v)
  {
    assert u.x * (u.y + v.y) == u.x * u.y + u.x * v.y;
    assert u.y * (u.x + v.x) == u.y * u.x + u.y * v.x;
  }

  /** With u collinear with d, (-u - w) ^ d == d ^ w. */
  lemma CrossLinear(u: Vector, w: Vector, d: Vector)
    requires Cross(d, u) == 0
    ensures Cross(Vector(-u.x - w.x, -u.y - w.y), d) == Cross(d, w)
  {
    assert (-u.x - w.x) * d.y == -(u.x * d.y) - w.x * d.y;
    assert (-u.y - w.y) * d.x == -(u.y * d.x) - w.y * d.x;
  }

  /** A vector u collinear with d, scaled by a coordinate of d, crosses w
      as that coordinate of u times d ^ w. */
  lemma ScaledCross(d: Vector, u: Vector, w: Vector)
    requires Cross(d, u) == 0
    ensures d.x * Cross(u, w) == u.x * Cross(d, w)
    ensures d.y * Cross(u, w) == u.y * Cross(d, w)
  {
    assert d.x * Cross(u, w) == u.x * (d.x * w.y) - (d.x * u.y) * w.x;
    assert u.x * Cross(d, w) == u.x * (d.x * w.y) - (u.x * d.y) * w.x;
    assert d.y * Cross(u, w) == (d.y * u.x) * w.y - u.y * (d.y * w.x);
    assert u.y * Cross(d, w) == (u.y * d.x) * w.y - u.y * (d.y * w.x);
  }

  /** If a d1 == p k and a d2 == q k with a nonzero and p q <= 0, then
      d1 d2 <= 0. */
  lemma OppositeByScale(a: int, d1: int, d2: int, p: int, q: int, k: int)
    requires a != 0 && a * d1 == p * k && a * d2 == q * k && p * q <= 0
    ensures d1 * d2 <= 0
  {
    Rearrange(a, d1, a, d2);
    Rearrange(p, k, q, k);
    MulSign(a, a);
    MulSign(k, k);
    MulSign(p * q, k * k);
    MulSign(a * a, d1 * d2);
  }

  /** (x y)(z w) == (x z)(y w). */
  lemma Rearrange(x: int, y: int, z: int, w: int)
    ensures (x * y) * (z * w) == (x * z) * (y * w)
  {
  }

  /** The corrected test does not depend on the order of the segments, and
      it agrees with the test as written wherever that one is true. */
  lemma {:induction false} SegmentsCrossSymmetric(s: Segment, t: Segment)
    ensures SegmentsCross(s, t) == SegmentsCross(t, s)
    ensures SegmentsCrossAsWritten(s, t) ==> SegmentsCross(s, t)
  {
    if s.a == s.b {
      DegenerateCross(s, t);
    } else if t.a == t.b {
      DegenerateCross(t, s);
    } else {
      Products(Direction(s), Direction(t));
      ProperCross(s, t);
      ProperCross(t, s);
    }
  }

  /** Two proper segments: parallel ones cross when an end of one lies on
      the other, the others by the straddle test, which reads the same
      either way round. */
  lemma ProperCross(s: Segment, t: Segment)
    requires s.a != s.b && t.a != t.b
    ensures Cross(Direction(s), Direction(t)) == 0 ==>
      SegmentsCross(s, t) == (OnSegment(t.a, s) || OnSegment(t.b, s) || OnSegment(s.a, t) || OnSegment(s.b, t))
    ensures Cross(Direction(s), Direction(t)) != 0 ==> SegmentsCross(s, t) == Straddle(s, t) == Straddle(t, s)
    ensures SegmentsCrossAsWritten(s, t) ==> SegmentsCross(s, t)
  {
  }

  /** With the first segment a single point, both orders of the corrected
      test are the point test. */
  lemma DegenerateCross(s: Segment, t: Segment)
    requires s.a == s.b
    ensures SegmentsCross(s, t) == OnSegment(s.a, t) == SegmentsCross(t, s)
  {
    if t.a == t.b {
      PointOnPoint(s.a, t.a);
      PointOnPoint(t.a, s.a);
    } else {
      assert Direction(s) == Vector(0, 0);
      assert Cross(Direction(t), Direction(s)) == 0;
      PointOnPoint(t.a, s.a);
      PointOnPoint(t.b, s.a);
    }
  }

  /** A point lies on a degenerate segment only when it is that point. */
  lemma PointOnPoint(p: Point, q: Point)
    ensures OnSegment(p, Segment(q, q)) <==> p == q
  {
    var u := Diff(q, p);
    assert Dot(u, u) == u.x * u.x + u.y * u.y;
    assert u.x * u.x >= 0 && u.y * u.y >= 0;
  }

  /** The least x of a segment's ends. */
  function LowX(s: Segment): int
  {
    if s.a.x <= s.b.x then s.a.x else s.b.x
  }

  /** The greatest x of a segment's ends. */
  function HighX(s: Segment): int
  {
    if s.a.x <= s.b.x then s.b.x else s.a.x
  }

  /** Two segments on the x axis, points included, cross exactly when
      their x ranges overlap. */
  lemma {:induction false} AxisSegmentsCross(s: Segment, t: Segment)
    requires s.a.y == 0 && s.b.y == 0 && t.a.y == 0 && t.b.y == 0
    ensures SegmentsCross(s, t) <==> LowX(s) <= HighX(t) && LowX(t) <= HighX(s)
  {
    AxisParallel(s, t);
    AxisOnSegment(t.a, s);
    AxisOnSegment(t.b, s);
    AxisOnSegment(s.a, t);
    AxisOnSegment(s.b, t);
  }

  /** A segment on the x axis and an upright one cross, by the straddle
      test, exactly when the upright one's x lies in the first's x range
      and its y range holds 0: where the two segments meet in the plane. */
  lemma {:induction false} UprightCross(s: Segment, t: Segment)
    requires s.a.y == 0 && s.b.y == 0 && s.a.x < s.b.x
    requires t.a.x == t.b.x && t.a.y < t.b.y
    ensures SegmentsCross(s, t) <==> s.a.x <= t.a.x <= s.b.x && t.a.y <= 0 <= t.b.y
    ensures SegmentsCross(t, s) == SegmentsCross(s, t)
  {
    var x1, x2, c, y1, y2 := s.a.x, s.b.x, t.a.x, t.a.y, t.b.y;
    MulSign(x1 - x2, y1 - y2);
    assert Cross(Direction(s), Direction(t)) == (x1 - x2) * (y1 - y2);
    assert SegmentsCross(s, t) == Straddle(s, t);
    StraddleFactor(y1, x1, x2, c);
    StraddleFactor(y2, x1, x2, c);
    UprightFactor(c, x1, y1, y2);
    UprightFactor(c, x2, y1, y2);
    SegmentsCrossSymmetric(s, t);
  }

  /** The cross product seen from a point (c, y) of the upright segment
      factors as y times the length of the axis segment. */
  lemma StraddleFactor(y: int, x1: int, x2: int, c: int)
    requires x1 < x2
    ensures Cross(Vector(x1 - c, 0 - y), Vector(x2 - c, 0 - y)) == y * (x2 - x1)
    ensures Sign(y * (x2 - x1)) == Sign(y)
  {
    assert (x1 - c) * (0 - y) == c * y - x1 * y;
    assert (0 - y) * (x2 - c) == c * y - x2 * y;
    assert y * (x2 - x1) == x2 * y - x1 * y;
    MulSign(y, x2 - x1);
  }

  /** The cross product seen from an end (x, 0) of the axis segment factors
      as the offset c - x times the upright segment's length. */
  lemma UprightFactor(c: int, x: int, y1: int, y2: int)
    requires y1 < y2
    ensures Cross(Vector(c - x, y1 - 0), Vector(c - x, y2 - 0)) == (c - x) * (y2 - y1)
    ensures Sign((c - x) * (y2 - y1)) == Sign(c - x)
  {
    assert (c - x) * (y2 - 0) - (y1 - 0) * (c - x) == (c - x) * (y2 - y1);
    MulSign(c - x, y2 - y1);
  }

  /** Line: the coefficients a, b, c of ax + by + c = 0 and the two points
      it was built from. */
  datatype Line = Line(a: int, b: int, c: int, first: Point, second: Point)

  /** Line::Line and Line::SetQuotients: the coefficients of the line
      through the two points. */
  function MakeLine(first: Point, second: Point): (l: Line)
    ensures l.a * first.x + l.b * first.y + l.c == 0
    ensures l.a * second.x + l.b * second.y + l.c == 0
    ensures l.a == 0 && l.b == 0 <==> first == second
  {
    LineAtPoints(first, second);
    Line(first.y - second.y,
         second.x - first.x,
         (first.x - second.x) * first.y + (second.y - first.y) * first.x,
         first, second)
  }

  /** The coefficients of SetQuotients vanish at both points. */
  lemma LineAtPoints(first: Point, second: Point)
    ensures var a, b := first.y - second.y, second.x - first.x;
      var c := (first.x - second.x) * first.y + (second.y - first.y) * first.x;
      a * first.x + b * first.y + c == 0 && a * second.x + b * second.y + c == 0
  {
    var x1, y1, x2, y2 := first.x, first.y, second.x, second.y;
    var c := (x1 - x2) * y1 + (y2 - y1) * x1;
    assert (y1 - y2) * x1 + (x2 - x1) * y1 + c == 0;
    assert (y1 - y2) * x2 + (x2 - x1) * y2 + c == (y1 - y2) * (x2 - x1) + (x2 - x1) * (y2 - y1);
  }

  /** Line::ContainsPoint: the point satisfies the line's equation. */
  function LineContains(l: Line, p: Point): (b: bool)
    ensures l == MakeLine(l.first, l.second) ==> (b <==> Cross(Diff(l.second, l.first), Diff(p, l.first)) == 0)
  {
    LineEquation(l.first, l.second, p);
    l.a * p.x + l.b * p.y + l.c == 0
  }

  /** The left-hand side of the equation is the cross product of the
      direction with the vector from the first point. */
  lemma LineEquation(first: Point, second: Point, p: Point)
    ensures var l := MakeLine(first, second);
      l.a * p.x + l.b * p.y + l.c == Cross(Diff(second, first), Diff(p, first))
  {
    var l := MakeLine(first, second);
    var dx, dy := second.x - first.x, second.y - first.y;
    assert l.a * p.x == -dy * p.x;
    assert l.b * p.y == dx * p.y;
    assert l.c == -dx * first.y + dy * first.x;
    assert Cross(Diff(second, first), Diff(p, first)) == dx * (p.y - first.y) - dy * (p.x - first.x);
    assert dx * (p.y - first.y) == dx * p.y - dx * first.y;
    assert dy * (p.x - first.x) == dy * p.x - dy * first.x;
  }

  /** The side of p relative to the line from first to second: positive on
      the left, negative on the right, zero on the line. */
  function Side(first: Point, second: Point, p: Point): int
  {
    Cross(Diff(second, first), Diff(p, first))
  }

  /** Both ends of the segment lie strictly on the same side of the line. */
  predicate StrictlyOneSide(l: Line, s: Segment)
  {
    Side(l.first, l.second, s.a) * Side(l.first, l.second, s.b) > 0
  }

  /** Line::CrossSegment: an end on the line, or the ends seen from the two
      defining points with cross products of different signs. On a line
      built from its points, that is every segment not strictly on one
      side of it. */
  function LineCrossesSegment(l: Line, s: Segment): (r: bool)
    ensures l == MakeLine(l.first, l.second) ==> (r <==> !StrictlyOneSide(l, s))
  {
    SideSeenFromPoint(l.first, l.second, s.a);
    SideSeenFromPoint(l.first, l.second, s.b);
    MulSign(Side(l.first, l.second, s.a), Side(l.first, l.second, s.b));
    if LineContains(l, s.a) || LineContains(l, s.b) then true
    else
      Sign(Cross(Diff(l.first, s.a), Diff(l.second, s.a))) != Sign(Cross(Diff(l.first, s.b), Diff(l.second, s.b)))
  }

  /** The cross product seen from p equals the side of p. */
  lemma SideSeenFromPoint(first: Point, second: Point, p: Point)
    ensures Cross(Diff(first, p), Diff(second, p)) == Side(first, second, p)
  {
    var u := Diff(first, p);
    var v := Diff(second, p);
    assert Diff(second, first) == Vector(v.x - u.x, v.y - u.y);
    assert Diff(p, first) == Vector(-u.x, -u.y);
    assert (v.x - u.x) * -u.y == u.x * u.y - v.x * u.y;
    assert (v.y - u.y) * -u.x == u.x * u.y - u.x * v.y;
  }

  /** Line::Move: both points translate and the coefficients are set again. */
  function MoveLine(l: Line, v: Vector): Line
  {
    MakeLine(Translate(l.first, v), Translate(l.second, v))
  }

  /** Moving a line and a point by the same vector keeps the point on the
      line or off it. */
  lemma {:induction false} MoveLineContains(first: Point, second: Point, p: Point, v: Vector)
    ensures LineContains(MoveLine(MakeLine(first, second), v), Translate(p, v)) == LineContains(MakeLine(first, second), p)
  {
    DiffTranslate(second, first, v);
    DiffTranslate(p, first, v);
  }

  /** Ray: the origin a, the direction from a to b fixed at construction,
      and b. */
  datatype Ray = Ray(a: Point, direction: Vector, b: Point)

  function MakeRay(a: Point, b: Point): Ray
  {
    Ray(a, Diff(b, a), b)
  }

  /** Ray::ContainsPoint: on the line through a and b, and not behind a
      along the direction. */
  function RayContains(r: Ray, p: Point): (b: bool)
    ensures r == MakeRay(r.a, r.b) ==>
      (b <==> Cross(Diff(r.b, r.a), Diff(p, r.a)) == 0 && Dot(Diff(p, r.a), Diff(r.b, r.a)) >= 0)
  {
    if LineContains(MakeLine(r.a, r.b), p) then Dot(Diff(p, r.a), r.direction) >= 0 else false
  }

  /** A ray contains the points collinear with a and b on b's side of a,
      among them its origin and b. */
  lemma {:induction false} RayThrough(a: Point, b: Point, p: Point)
    ensures RayContains(MakeRay(a, b), p) <==> Cross(Diff(b, a), Diff(p, a)) == 0 && Dot(Diff(p, a), Diff(b, a)) >= 0
    ensures RayContains(MakeRay(a, b), a)
    ensures RayContains(MakeRay(a, b), b)
  {
    var d := Diff(b, a);
    assert Dot(d, d) == d.x * d.x + d.y * d.y;
    assert d.x * d.x >= 0 && d.y * d.y >= 0;
  }

  /** Ray::Move as written: only the origin moves; b and the direction
      stay. */
  function MoveRayAsWritten(r: Ray, v: Vector): (m: Ray)
    ensures m == MoveRay(r, v) <==> v == Vector(0, 0)
  {
    r.(a := Translate(r.a, v))
  }

  /** After the move as written, the ray holds the moved b only when the
      move is parallel to the ray's direction. */
  lemma {:induction false} MoveRayAsWrittenDrifts(a: Point, b: Point, v: Vector)
    ensures RayContains(MoveRayAsWritten(MakeRay(a, b), v), Translate(b, v)) ==> Cross(v, Diff(b, a)) == 0
  {
    var moved := MoveRayAsWritten(MakeRay(a, b), v);
    var d := Diff(b, a);
    assert Diff(moved.b, moved.a) == Vector(d.x - v.x, d.y - v.y);
    assert Diff(Translate(b, v), moved.a) == d;
    CrossDifference(d, v);
  }

  /** (d - v) ^ d == -(v ^ d). */
  lemma CrossDifference(d: Vector, v: Vector)
    ensures Cross(Vector(d.x - v.x, d.y - v.y), d) == -Cross(v, d)
  {
    assert (d.x - v.x) * d.y == d.x * d.y - v.x * d.y;
    assert (d.y - v.y) * d.x == d.y * d.x - v.y * d.x;
  }

  /** A move across the ray's direction, as written, loses the moved b. */
  lemma MoveRayAsWrittenLoses(a: Point, b: Point, v: Vector)
    requires Cross(v, Diff(b, a)) != 0
    ensures RayContains(MakeRay(a, b), b)
    ensures !RayContains(MoveRayAsWritten(MakeRay(a, b), v), Translate(b, v))
  {
    RayThrough(a, b, b);
    MoveRayAsWrittenDrifts(a, b, v);
  }

  /** The ray from (0, 0) through (1, 0) moved up by one is such a move:
      as written it no longer holds (1, 1). */
  lemma MoveRayExample(a: Point, b: Point, v: Vector)
    requires a == Point(0, 0) && b == Point(1, 0) && v == Vector(0, 1)
    ensures Cross(v, Diff(b, a)) != 0
  {
  }

  /** Ray::Move as a translation: all three fields move. */
  function MoveRay(r: Ray, v: Vector): Ray
  {
    Ray(Translate(r.a, v), r.direction, Translate(r.b, v))
  }

  /** Moving a ray and a point by the same vector keeps the point on the
      ray or off it. */
  lemma {:induction false} MoveRayContains(a: Point, b: Point, p: Point, v: Vector)
    ensures MoveRay(MakeRay(a, b), v) == MakeRay(Translate(a, v), Translate(b, v))
    ensures RayContains(MoveRay(MakeRay(a, b), v), Translate(p, v)) == RayContains(MakeRay(a, b), p)
  {
    DiffTranslate(b, a, v);
    DiffTranslate(p, a, v);
    RayThrough(a, b, p);
    RayThrough(Translate(a, v), Translate(b, v), Translate(p, v));
  }

  const SIZE_T_MODULUS: int := 0x1_0000_0000_0000_0000
  const INT64_LIMIT: int := 0x8000_0000_0000_0000

  /** Circle: a centre and a size_t radius. */
  datatype Circle = Circle(centre: Point, radius: nat)

  predicate ValidCircle(c: Circle)
  {
    c.radius < SIZE_T_MODULUS
  }

  /** static_cast<int64_t>(radius_ * radius_): the square wraps modulo
      2^64 and is then read as a signed 64-bit value. */
  function RadiusSquared(c: Circle): (n: int)
    requires ValidCircle(c)
    ensures -INT64_LIMIT <= n < INT64_LIMIT
    ensures c.radius * c.radius < INT64_LIMIT ==> n == c.radius * c.radius
  {
    var m := (c.radius * c.radius) % SIZE_T_MODULUS;
    if m >= INT64_LIMIT then m - SIZE_T_MODULUS else m
  }

  /** The squared distance from the centre. */
  function DistanceSquared(c: Circle, p: Point): nat
  {
    var d := Diff(p, c.centre);
    assert d.x * d.x >= 0 && d.y * d.y >= 0;
    d.x * d.x + d.y * d.y
  }

  /** Circle::ContainsPoint: on or inside, the true radius when its square
      fits in int64. */
  function CircleContains(c: Circle, p: Point): (b: bool)
    requires ValidCircle(c)
    ensures c.radius * c.radius < INT64_LIMIT ==> (b <==> DistanceSquared(c, p) <= c.radius * c.radius)
  {
    DistanceSquared(c, p) <= RadiusSquared(c)
  }

  /** Circle::PointOnCircle: at distance exactly the radius when its square
      fits in int64. */
  function OnCircle(c: Circle, p: Point): (b: bool)
    requires ValidCircle(c)
    ensures c.radius * c.radius < INT64_LIMIT ==> (b <==> DistanceSquared(c, p) == c.radius * c.radius)
  {
    DistanceSquared(c, p) == RadiusSquared(c)
  }

  /** Circle::PointInCircle: strictly inside when the radius's square fits
      in int64. */
  function InCircle(c: Circle, p: Point): (b: bool)
    requires ValidCircle(c)
    ensures c.radius * c.radius < INT64_LIMIT ==> (b <==> DistanceSquared(c, p) < c.radius * c.radius)
  {
    DistanceSquared(c, p) < RadiusSquared(c)
  }

  /** Circle::Move: the centre translates. */
  function MoveCircle(c: Circle, v: Vector): Circle
  {
    c.(centre := Translate(c.centre, v))
  }

  /** Containment is being inside or on the circle; the centre is contained
      whenever the radius squared fits in int64; and moving the circle and
      the point together changes none of the three tests. */
  lemma CircleTests(c: Circle, p: Point, v: Vector)
    requires ValidCircle(c)
    ensures CircleContains(c, p) <==> InCircle(c, p) || OnCircle(c, p)
    ensures c.radius * c.radius < INT64_LIMIT ==> CircleContains(c, c.centre)
    ensures CircleContains(MoveCircle(c, v), Translate(p, v)) == CircleContains(c, p)
    ensures OnCircle(MoveCircle(c, v), Translate(p, v)) == OnCircle(c, p)
    ensures InCircle(MoveCircle(c, v), Translate(p, v)) == InCircle(c, p)
  {
    DiffTranslate(p, c.centre, v);
  }
}
