/** Screen-space and model-space primitives of the rasteriser
    (src/geometry.cpp): integer 2-D points and vectors, the edge-function
    inside test, the area-weighted depth interpolation and the rotation of
    a 3-D triangle about the Y axis.  `double` is idealised as `real`. */
module Geometry {

  /** C++ conversion of a `double` to `int`: truncation toward zero. */
  function Trunc(r: real): (n: int)
    ensures 0.0 <= r ==> n as real <= r < n as real + 1.0
    ensures r < 0.0 ==> n as real - 1.0 < r <= n as real
  {
    if r >= 0.0 then r.Floor else -((-r).Floor)
  }

  lemma TruncMonotone(r1: real, r2: real)
    requires r1 <= r2
    ensures Trunc(r1) <= Trunc(r2)
  {
  }

  function Abs(n: int): nat {
    if n < 0 then -n else n
  }

  function Min(a: real, b: real): real {
    if a <= b then a else b
  }

  function Max(a: real, b: real): real {
    if a >= b then a else b
  }

  // ---------------------------------------------------------------------
  // Points

  /** Integer screen point. */
  datatype Point2d = Point2d(x: int, y: int)

  /** Floating (here: real) model-space point. */
  datatype Point3d = Point3d(x: real, y: real, z: real)

  /** What the default constructors build. */
  const Origin2d := Point2d(0, 0)
  const Origin3d := Point3d(0.0, 0.0, 0.0)

  function Point2dToSeq(p: Point2d): seq<int> {
    [p.x, p.y]
  }

  function Point3dToSeq(p: Point3d): seq<real> {
    [p.x, p.y, p.z]
  }

  /** The sequence constructor: the source asserts exactly two elements. */
  function Point2dOfSeq(v: seq<int>): (p: Point2d)
    requires |v| == 2
    ensures Point2dToSeq(p) == v
  {
    Point2d(v[0], v[1])
  }

  /** The sequence constructor: the source asserts exactly three elements. */
  function Point3dOfSeq(v: seq<real>): (p: Point3d)
    requires |v| == 3
    ensures Point3dToSeq(p) == v
  {
    Point3d(v[0], v[1], v[2])
  }

  lemma PointSeqRoundTrip(p: Point2d, q: Point3d)
    ensures Point2dOfSeq(Point2dToSeq(p)) == p
    ensures Point3dOfSeq(Point3dToSeq(q)) == q
  {
  }

  /** The three coordinate axes, and a point's coordinate along one. */
  datatype Axis = X | Y | Z

  function Coord(p: Point3d, k: Axis): real {
    match k
    case X => p.x
    case Y => p.y
    case Z => p.z
  }

  // ---------------------------------------------------------------------
  // Vectors

  /** A displacement between two integer points, with its endpoints. */
  datatype Vector = Vector(from: Point2d, to: Point2d, x: int, y: int)

  /** `Vector(from, to)`: travelling by the vector from `from` reaches `to`. */
  function MakeVector(from: Point2d, to: Point2d): (v: Vector)
    ensures v.from == from && v.to == to
    ensures from.x + v.x == to.x && from.y + v.y == to.y
  {
    Vector(from, to, to.x - from.x, to.y - from.y)
  }

  /** Scalar 2-D cross product, positive for a counter-clockwise turn from
      `u` to `v` in a y-up frame (clockwise on a y-down screen); zero for
      two vectors with the same components. */
  function Cross(u: Vector, v: Vector): (r: int)
    ensures u.x == v.x && u.y == v.y ==> r == 0
  {
    u.x * v.y - u.y * v.x
  }

  /** Dot product; a vector's dot product with itself is its squared
      length, never negative. */
  function Dot(u: Vector, v: Vector): (r: int)
    ensures u.x == v.x && u.y == v.y ==> r >= 0
  {
    u.x * v.x + u.y * v.y
  }

  lemma CrossDotLaws(u: Vector, v: Vector)
    ensures Cross(u, v) == -Cross(v, u)
    ensures Cross(u, u) == 0
    ensures Dot(u, v) == Dot(v, u)
  {
  }

  /** A vector only depends on the displacement between its endpoints. */
  lemma MakeVectorTranslate(p: Point2d, q: Point2d, d: Point2d)
    ensures var v := MakeVector(p, q);
            var w := MakeVector(Shift(p, d), Shift(q, d));
            v.x == w.x && v.y == w.y
  {
  }

  function Shift(p: Point2d, d: Point2d): Point2d {
    Point2d(p.x + d.x, p.y + d.y)
  }

  // ---------------------------------------------------------------------
  // Triangle2d and the inside test

  datatype Triangle2d = Triangle2d(a: Point2d, b: Point2d, c: Point2d)

  /** The edge function of edge `p -> q` at `r`: cross product of the edge
      vector with the vector from the edge's start to `r`. */
  function EdgeAt(p: Point2d, q: Point2d, r: Point2d): int {
    Cross(MakeVector(p, q), MakeVector(p, r))
  }

  /** Signed doubled area `(b - a) x (c - a)`: positive for a triangle
      wound clockwise on a y-down screen, negative for a counter-clockwise
      one, zero for a degenerate one. */
  function Orientation(t: Triangle2d): int {
    EdgeAt(t.a, t.b, t.c)
  }

  /** `is_point_inside`: all three edge functions are non-positive.  The
      three always add up to the orientation, so a triangle wound clockwise
      on screen accepts no point at all. */
  predicate IsPointInside(t: Triangle2d, p: Point2d)
    ensures Orientation(t) > 0 ==> !IsPointInside(t, p)
  {
    EdgeSum(t.a, t.b, t.c, p);
    var cross1 := Cross(MakeVector(t.a, t.b), MakeVector(t.a, p));
    var cross2 := Cross(MakeVector(t.b, t.c), MakeVector(t.b, p));
    var cross3 := Cross(MakeVector(t.c, t.a), MakeVector(t.c, p));
    cross1 <= 0 && cross2 <= 0 && cross3 <= 0
  }

  /** The three edge functions at any point add up to the signed doubled
      area. */
  lemma EdgeSum(a: Point2d, b: Point2d, c: Point2d, p: Point2d)
    ensures EdgeAt(a, b, p) + EdgeAt(b, c, p) + EdgeAt(c, a, p) == EdgeAt(a, b, c)
  {
    var ux, uy := b.x - a.x, b.y - a.y;
    var wx, wy := c.x - a.x, c.y - a.y;
    var qx, qy := p.x - a.x, p.y - a.y;
    calc {
      EdgeAt(a, b, p) + EdgeAt(b, c, p) + EdgeAt(c, a, p);
      (ux * qy - uy * qx) + ((wx - ux) * (qy - uy) - (wy - uy) * (qx - ux)) + ((-wx) * (qy - wy) - (-wy) * (qx - wx));
      ux * wy - uy * wx;
    }
  }

  function ShiftTriangle(t: Triangle2d, d: Point2d): Triangle2d {
    Triangle2d(Shift(t.a, d), Shift(t.b, d), Shift(t.c, d))
  }

  /** Moving the triangle and the test point together changes nothing. */
  lemma InsideTranslationInvariant(t: Triangle2d, p: Point2d, d: Point2d)
    ensures IsPointInside(ShiftTriangle(t, d), Shift(p, d)) == IsPointInside(t, p)
  {
  }

  /** Only the cyclic order of the vertices matters. */
  lemma InsideRotationInvariant(t: Triangle2d, p: Point2d)
    ensures IsPointInside(Triangle2d(t.b, t.c, t.a), p) == IsPointInside(t, p)
  {
  }

  /** The edge function of `q -> r` at `p` is the orientation of (p, q, r). */
  lemma EdgeAtIsOrientation(p: Point2d, q: Point2d, r: Point2d)
    ensures EdgeAt(q, r, p) == EdgeAt(p, q, r)
  {
    var ux, uy := q.x - p.x, q.y - p.y;
    var wx, wy := r.x - p.x, r.y - p.y;
    calc {
      EdgeAt(q, r, p);
      (wx - ux) * (-uy) - (wy - uy) * (-ux);
      ux * wy - uy * wx;
      EdgeAt(p, q, r);
    }
  }

  /** A vertex of the triangle is classified inside exactly when the
      triangle is counter-clockwise on screen or degenerate. */
  lemma VertexInsideIffCounterClockwise(t: Triangle2d)
    ensures IsPointInside(t, t.a) <==> Orientation(t) <= 0
    ensures IsPointInside(t, t.b) <==> Orientation(t) <= 0
    ensures IsPointInside(t, t.c) <==> Orientation(t) <= 0
  {
    EdgeAtIsOrientation(t.a, t.b, t.c);
    EdgeAtIsOrientation(t.b, t.c, t.a);
    EdgeAtIsOrientation(t.c, t.a, t.b);
    CrossDotLaws(MakeVector(t.a, t.b), MakeVector(t.a, t.b));
    CrossDotLaws(MakeVector(t.b, t.c), MakeVector(t.b, t.c));
    CrossDotLaws(MakeVector(t.c, t.a), MakeVector(t.c, t.a));
  }

  /** A triangle collapsed to one point accepts every test point. */
  lemma DegenerateTriangleContainsAll(t: Triangle2d, p: Point2d)
    requires t.a == t.b == t.c
    ensures IsPointInside(t, p)
  {
  }

  // ---------------------------------------------------------------------
  // Triangle3d

  datatype Triangle3d = Triangle3d(a: Point3d, b: Point3d, c: Point3d)

  /** `as_points`: the vertices in the order a, b, c. */
  function AsPoints(t: Triangle3d): (ps: seq<Point3d>)
    ensures |ps| == 3 && FromPoints(ps) == t
  {
    [t.a, t.b, t.c]
  }

  function FromPoints(ps: seq<Point3d>): Triangle3d
    requires |ps| == 3
  {
    Triangle3d(ps[0], ps[1], ps[2])
  }

  /** `Point2d{(int)p.x, (int)p.y}`: orthographic projection to the screen. */
  function ProjectPoint(p: Point3d): Point2d {
    Point2d(Trunc(p.x), Trunc(p.y))
  }

  function Project(t: Triangle3d): Triangle2d {
    Triangle2d(ProjectPoint(t.a), ProjectPoint(t.b), ProjectPoint(t.c))
  }

  /** Plane rotation of `(u, v)` by the angle whose cosine and sine are
      `c` and `s`. */
  function Rot2(u: real, v: real, c: real, s: real): (real, real) {
    (c * u - s * v, s * u + c * v)
  }

  /** Rotating by the opposite angle undoes a rotation. */
  lemma Rot2Inverse(u: real, v: real, c: real, s: real)
    ensures c * c + s * s == 1.0 ==>
              Rot2(Rot2(u, v, c, s).0, Rot2(u, v, c, s).1, c, -s) == (u, v)
  {
    if c * c + s * s == 1.0 {
      var u1 := c * u - s * v;
      var v1 := s * u + c * v;
      calc {
        c * u1 - (-s) * v1;
        c * (c * u - s * v) + s * (s * u + c * v);
        { Distribute(c, c * u, - s * v); Distribute(s, s * u, c * v); }
        c * (c * u) - c * (s * v) + s * (s * u) + s * (c * v);
        (c * c) * u + (s * s) * u;
        { Distribute(u, c * c, s * s); }
        (c * c + s * s) * u;
        u;
      }
      calc {
        (-s) * u1 + c * v1;
        -s * (c * u - s * v) + c * (s * u + c * v);
        { Distribute(-s, c * u, - s * v); Distribute(c, s * u, c * v); }
        -s * (c * u) + s * (s * v) + c * (s * u) + c * (c * v);
        (s * s) * v + (c * c) * v;
        { Distribute(v, s * s, c * c); }
        (c * c + s * s) * v;
        v;
      }
      assert Rot2(u, v, c, s) == (u1, v1);
      assert Rot2(u1, v1, c, -s) == (u, v);
    }
  }

  /** With `cos² + sin² = 1` a plane rotation keeps the distance from the
      centre. */
  lemma Rot2Norm(u: real, v: real, c: real, s: real)
    ensures c * c + s * s == 1.0 ==>
              var (u1, v1) := Rot2(u, v, c, s); u1 * u1 + v1 * v1 == u * u + v * v
  {
    var u1 := c * u - s * v;
    var v1 := s * u + c * v;
    calc {
      u1 * u1 + v1 * v1;
      (c * c * u * u - 2.0 * c * s * u * v + s * s * v * v) + (s * s * u * u + 2.0 * c * s * u * v + c * c * v * v);
      (c * c + s * s) * (u * u) + (c * c + s * s) * (v * v);
    }
  }

  lemma Distribute(k: real, x: real, y: real)
    ensures k * (x + y) == k * x + k * y
  {
  }

  lemma MulNonNeg(x: real, y: real)
    requires x >= 0.0 && y >= 0.0
    ensures x * y >= 0.0
  {
  }

  function RotatePointY(p: Point3d, cosA: real, sinA: real): Point3d {
    var (x, z) := Rot2(p.x, p.z, cosA, sinA);
    Point3d(x, p.y, z)
  }

  /** `Triangle3d::rotateY` about the origin, with `cos` and `sin` of the
      angle given.  No y coordinate changes, and rotating back by the
      opposite angle restores the triangle. */
  function RotateY(t: Triangle3d, cosA: real, sinA: real): (r: Triangle3d)
    ensures r.a.y == t.a.y && r.b.y == t.b.y && r.c.y == t.c.y
    ensures cosA * cosA + sinA * sinA == 1.0 ==> RotateYBack(r, cosA, sinA) == t
  {
    Rot2Inverse(t.a.x, t.a.z, cosA, sinA);
    Rot2Inverse(t.b.x, t.b.z, cosA, sinA);
    Rot2Inverse(t.c.x, t.c.z, cosA, sinA);
    Triangle3d(RotatePointY(t.a, cosA, sinA), RotatePointY(t.b, cosA, sinA), RotatePointY(t.c, cosA, sinA))
  }

  function RotateYBack(t: Triangle3d, cosA: real, sinA: real): Triangle3d {
    Triangle3d(RotatePointY(t.a, cosA, -sinA), RotatePointY(t.b, cosA, -sinA), RotatePointY(t.c, cosA, -sinA))
  }

  // ---------------------------------------------------------------------
  // Depth interpolation

  /** The three unsigned sub-triangle areas at `p`; `a` is the area
      opposite vertex a, and so on. */
  datatype Areas = Areas(a: real, b: real, c: real)

  function SubAreas(t: Triangle3d, p: Point2d): (r: Areas)
    ensures r.a >= 0.0 && r.b >= 0.0 && r.c >= 0.0
  {
    var pa := MakeVector(p, ProjectPoint(t.a));
    var pb := MakeVector(p, ProjectPoint(t.b));
    var pc := MakeVector(p, ProjectPoint(t.c));
    Areas(0.5 * Abs(Cross(pb, pc)) as real,
          0.5 * Abs(Cross(pa, pc)) as real,
          0.5 * Abs(Cross(pa, pb)) as real)
  }

  function TotalArea(t: Triangle3d, p: Point2d): real {
    var s := SubAreas(t, p);
    s.a + s.b + s.c
  }

  function MinZ(t: Triangle3d): real {
    Min(Min(t.a.z, t.b.z), t.c.z)
  }

  function MaxZ(t: Triangle3d): real {
    Max(Max(t.a.z, t.b.z), t.c.z)
  }

  /** `getDepth`: the area-weighted mean of the vertex depths.  A total
      area of zero is a division by zero in the source.  The result is a
      convex combination of the three depths. */
  function GetDepth(t: Triangle3d, p: Point2d): (d: real)
    requires TotalArea(t, p) > 0.0
    ensures MinZ(t) <= d <= MaxZ(t)
  {
    WeightedMean(SubAreas(t, p), t.a.z, t.b.z, t.c.z)
  }

  /** `(A * za + B * zb + C * zc) / (A + B + C)`. */
  function WeightedMean(w: Areas, za: real, zb: real, zc: real): (d: real)
    requires w.a >= 0.0 && w.b >= 0.0 && w.c >= 0.0 && w.a + w.b + w.c > 0.0
    ensures Min(Min(za, zb), zc) <= d <= Max(Max(za, zb), zc)
  {
    ConvexCombination(w.a, w.b, w.c, za, zb, zc);
    (w.a * za + w.b * zb + w.c * zc) / (w.a + w.b + w.c)
  }

  /** All the weight on one vertex selects that vertex's depth. */
  lemma WeightedMeanSingle(o: real, za: real, zb: real, zc: real)
    requires o > 0.0
    ensures WeightedMean(Areas(o, 0.0, 0.0), za, zb, zc) == za
    ensures WeightedMean(Areas(0.0, o, 0.0), za, zb, zc) == zb
    ensures WeightedMean(Areas(0.0, 0.0, o), za, zb, zc) == zc
  {
    DivideOut(o, za);
    DivideOut(o, zb);
    DivideOut(o, zc);
  }

  /** A weighted mean with non-negative weights lies between the smallest
      and the largest value. */
  lemma ConvexCombination(wa: real, wb: real, wc: real, za: real, zb: real, zc: real)
    requires wa >= 0.0 && wb >= 0.0 && wc >= 0.0 && wa + wb + wc > 0.0
    ensures var d := (wa * za + wb * zb + wc * zc) / (wa + wb + wc);
            Min(Min(za, zb), zc) <= d <= Max(Max(za, zb), zc)
  {
    var lo := Min(Min(za, zb), zc);
    var hi := Max(Max(za, zb), zc);
    var w := wa + wb + wc;
    var n := wa * za + wb * zb + wc * zc;
    MulNonNeg(wa, za - lo);
    MulNonNeg(wb, zb - lo);
    MulNonNeg(wc, zc - lo);
    MulNonNeg(wa, hi - za);
    MulNonNeg(wb, hi - zb);
    MulNonNeg(wc, hi - zc);
    assert n - w * lo == wa * (za - lo) + wb * (zb - lo) + wc * (zc - lo);
    assert w * hi - n == wa * (hi - za) + wb * (hi - zb) + wc * (hi - zc);
    DivideBounds(n, w, lo, hi);
  }

  lemma DivideBounds(n: real, w: real, lo: real, hi: real)
    requires w > 0.0 && w * lo <= n <= w * hi
    ensures lo <= n / w <= hi
  {
    var d := n / w;
    assert n == d * w;
  }

  /** At the projection of a vertex of a triangle whose projection is not
      degenerate, the interpolated depth is that vertex's own depth. */
  lemma GetDepthAtVertices(t: Triangle3d)
    requires Orientation(Project(t)) != 0
    ensures TotalArea(t, ProjectPoint(t.a)) > 0.0 && GetDepth(t, ProjectPoint(t.a)) == t.a.z
    ensures TotalArea(t, ProjectPoint(t.b)) > 0.0 && GetDepth(t, ProjectPoint(t.b)) == t.b.z
    ensures TotalArea(t, ProjectPoint(t.c)) > 0.0 && GetDepth(t, ProjectPoint(t.c)) == t.c.z
  {
    var pt := Project(t);
    AreasAtVertices(pt.a, pt.b, pt.c);
    var o := 0.5 * Abs(Orientation(pt)) as real;
    assert SubAreas(t, pt.a) == Areas(o, 0.0, 0.0);
    assert SubAreas(t, pt.b) == Areas(0.0, o, 0.0);
    assert SubAreas(t, pt.c) == Areas(0.0, 0.0, o);
    WeightedMeanSingle(o, t.a.z, t.b.z, t.c.z);
  }

  /** The three cross products of the sub-areas, taken at each vertex of
      the projected triangle: one is +-orientation, the others vanish. */
  lemma AreasAtVertices(a: Point2d, b: Point2d, c: Point2d)
    ensures var o := EdgeAt(a, b, c);
            var ab, ac := MakeVector(a, b), MakeVector(a, c);
            var ba, bc := MakeVector(b, a), MakeVector(b, c);
            var ca, cb := MakeVector(c, a), MakeVector(c, b);
            var aa, bb, cc := MakeVector(a, a), MakeVector(b, b), MakeVector(c, c);
            && Cross(ab, ac) == o && Cross(aa, ac) == 0 && Cross(aa, ab) == 0
            && Abs(Cross(ba, bc)) == Abs(o) && Cross(bb, bc) == 0 && Cross(ba, bb) == 0
            && Cross(ca, cb) == o && Cross(cb, cc) == 0 && Cross(ca, cc) == 0
  {
    EdgeAtIsOrientation(a, b, c);
    EdgeAtIsOrientation(c, a, b);
    CrossDotLaws(MakeVector(b, a), MakeVector(b, c));
  }

  lemma DivideOut(w: real, z: real)
    requires w != 0.0
    ensures (w * z) / w == z
  {
  }
}
