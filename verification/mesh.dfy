/** The mesh model and its in-place passes (src/obj_parser.cpp): the
    triangulation `mesh_model`, the three axis rotations about the stored
    offset with their per-axis bounding-box folds, and the screen pass
    `mesh2screen` (winding by angle, then back-to-front order). */
module Mesh {
  import opened Geometry
  import opened Bounds
  import opened Sorting

  /** A face: three 0-based vertex indices.  Nothing checks their range
      before triangulation. */
  datatype Face = Face(v1: int, v2: int, v3: int)

  /** `struct Model`. */
  datatype Model = Model(
    name: string,
    vertices: seq<Point3d>,
    triangles: seq<Triangle3d>,
    faces: seq<Face>,
    bbox: BBox,
    modelCenter: Point3d,
    scale: real,
    offset: Point3d)

  // ---------------------------------------------------------------------
  // mesh_model

  predicate FaceInRange(f: Face, n: int) {
    0 <= f.v1 < n && 0 <= f.v2 < n && 0 <= f.v3 < n
  }

  /** Every face index addresses a vertex; `vertices[face[k]]` is
      out of range otherwise. */
  predicate FacesInRange(m: Model) {
    forall i :: 0 <= i < |m.faces| ==> FaceInRange(m.faces[i], |m.vertices|)
  }

  function FaceTriangle(vs: seq<Point3d>, f: Face): Triangle3d
    requires FaceInRange(f, |vs|)
  {
    Triangle3d(vs[f.v1], vs[f.v2], vs[f.v3])
  }

  /** `mesh_model`: one triangle per face, built from copies of the indexed
      vertices; the vertex list is emptied and nothing else changes. */
  function MeshModel(m: Model): (r: Model)
    requires FacesInRange(m)
    ensures |r.triangles| == |m.faces|
    ensures forall i :: 0 <= i < |m.faces| ==>
              r.triangles[i].a == m.vertices[m.faces[i].v1]
              && r.triangles[i].b == m.vertices[m.faces[i].v2]
              && r.triangles[i].c == m.vertices[m.faces[i].v3]
    ensures r.vertices == []
    ensures r == m.(vertices := [], triangles := r.triangles)
  {
    var meshed := seq(|m.faces|, i requires 0 <= i < |m.faces| => FaceTriangle(m.vertices, m.faces[i]));
    m.(triangles := meshed, vertices := [])
  }

  /** Triangulation neither invents nor drops geometry: every triangle
      vertex is a loaded vertex, and every vertex a face names appears in
      that face's triangle. */
  lemma MeshModelVertices(m: Model)
    requires FacesInRange(m)
    ensures var r := MeshModel(m);
            forall i :: 0 <= i < |r.triangles| ==>
              r.triangles[i].a in m.vertices && r.triangles[i].b in m.vertices && r.triangles[i].c in m.vertices
    ensures var r := MeshModel(m);
            forall i :: 0 <= i < |m.faces| ==>
              var f := m.faces[i];
              m.vertices[f.v1] in AsPoints(r.triangles[i])
              && m.vertices[f.v2] in AsPoints(r.triangles[i])
              && m.vertices[f.v3] in AsPoints(r.triangles[i])
  {
  }

  // ---------------------------------------------------------------------
  // Rotations

  /** Squared distance of `p` from the line through `o` parallel to axis
      `k`. */
  function AxisDistance2(p: Point3d, k: Axis, o: Point3d): real {
    match k
    case X => Norm2(p.y - o.y, p.z - o.z)
    case Y => Norm2(p.x - o.x, p.z - o.z)
    case Z => Norm2(p.x - o.x, p.y - o.y)
  }

  function Norm2(u: real, v: real): real {
    u * u + v * v
  }

  /** Rotation of one point about axis `k` through `o`: the two other
      coordinates are moved by `-o`, rotated in their plane, moved back.
      The coordinate on `k` is kept. */
  function RotatePoint(p: Point3d, k: Axis, o: Point3d, c: real, s: real): (q: Point3d)
    ensures Coord(q, k) == Coord(p, k)
  {
    match k
    case X =>
      var (y, z) := Rot2(p.y - o.y, p.z - o.z, c, s);
      Point3d(p.x, y + o.y, z + o.z)
    case Y =>
      var (x, z) := Rot2(p.x - o.x, p.z - o.z, c, s);
      Point3d(x + o.x, p.y, z + o.z)
    case Z =>
      var (x, y) := Rot2(p.x - o.x, p.y - o.y, c, s);
      Point3d(x + o.x, y + o.y, p.z)
  }

  /** A true rotation (`cos² + sin² = 1`) keeps the distance from the
      axis: the point turns on a circle around it. */
  lemma RotatePointRigid(p: Point3d, k: Axis, o: Point3d, c: real, s: real)
    requires c * c + s * s == 1.0
    ensures AxisDistance2(RotatePoint(p, k, o, c, s), k, o) == AxisDistance2(p, k, o)
  {
    var q := RotatePoint(p, k, o, c, s);
    match k
    case X =>
      PlaneRigid(p.y - o.y, p.z - o.z, c, s);
      assert (q.y - o.y, q.z - o.z) == Rot2(p.y - o.y, p.z - o.z, c, s);
    case Y =>
      PlaneRigid(p.x - o.x, p.z - o.z, c, s);
      assert (q.x - o.x, q.z - o.z) == Rot2(p.x - o.x, p.z - o.z, c, s);
    case Z =>
      PlaneRigid(p.x - o.x, p.y - o.y, c, s);
      assert (q.x - o.x, q.y - o.y) == Rot2(p.x - o.x, p.y - o.y, c, s);
  }

  lemma PlaneRigid(u: real, v: real, c: real, s: real)
    requires c * c + s * s == 1.0
    ensures Norm2(Rot2(u, v, c, s).0, Rot2(u, v, c, s).1) == Norm2(u, v)
  {
    Rot2Norm(u, v, c, s);
  }

  /** Rotating by the opposite angle about the same axis and centre
      restores the point. */
  lemma RotatePointInverse(p: Point3d, k: Axis, o: Point3d, c: real, s: real)
    requires c * c + s * s == 1.0
    ensures RotatePoint(RotatePoint(p, k, o, c, s), k, o, c, -s) == p
  {
    match k
    case X => Rot2Inverse(p.y - o.y, p.z - o.z, c, s);
    case Y => Rot2Inverse(p.x - o.x, p.z - o.z, c, s);
    case Z => Rot2Inverse(p.x - o.x, p.y - o.y, c, s);
  }

  function RotateTriangle(t: Triangle3d, k: Axis, o: Point3d, c: real, s: real): Triangle3d {
    Triangle3d(RotatePoint(t.a, k, o, c, s), RotatePoint(t.b, k, o, c, s), RotatePoint(t.c, k, o, c, s))
  }

  /** The running minimum of the nested loop `for t: triangles, for p:
      t.as_points()` on axis `k`, starting from `seed`. */
  function FoldMinTriangles(seed: real, ts: seq<Triangle3d>, k: Axis): (m: real)
    ensures m <= seed
    ensures forall i :: 0 <= i < |ts| ==>
              m <= Coord(ts[i].a, k) && m <= Coord(ts[i].b, k) && m <= Coord(ts[i].c, k)
    ensures m == seed || exists i :: 0 <= i < |ts| && IsCoordOf(m, ts[i], k)
    decreases |ts|
  {
    if ts == [] then seed
    else
      var inner := FoldMin(seed, AsPoints(ts[0]), k);
      var m := FoldMinTriangles(inner, ts[1..], k);
      assert forall i :: 1 <= i < |ts| ==> ts[i] == ts[1..][i - 1];
      assert inner == seed || IsCoordOf(inner, ts[0], k);
      m
  }

  /** The running maximum, likewise. */
  function FoldMaxTriangles(seed: real, ts: seq<Triangle3d>, k: Axis): (m: real)
    ensures m >= seed
    ensures forall i :: 0 <= i < |ts| ==>
              m >= Coord(ts[i].a, k) && m >= Coord(ts[i].b, k) && m >= Coord(ts[i].c, k)
    ensures m == seed || exists i :: 0 <= i < |ts| && IsCoordOf(m, ts[i], k)
    decreases |ts|
  {
    if ts == [] then seed
    else
      var inner := FoldMax(seed, AsPoints(ts[0]), k);
      var m := FoldMaxTriangles(inner, ts[1..], k);
      assert forall i :: 1 <= i < |ts| ==> ts[i] == ts[1..][i - 1];
      assert inner == seed || IsCoordOf(inner, ts[0], k);
      m
  }

  /** Every vertex of `t` lies within `box` on axis `a`. */
  predicate TriangleWithinOn(box: BBox, t: Triangle3d, a: Axis) {
    WithinOn(box, t.a, a) && WithinOn(box, t.b, a) && WithinOn(box, t.c, a)
  }

  /** `v` is the coordinate on `k` of one of the vertices of `t`. */
  predicate IsCoordOf(v: real, t: Triangle3d, k: Axis) {
    v == Coord(t.a, k) || v == Coord(t.b, k) || v == Coord(t.c, k)
  }

  /** The box after a rotation about `k`: the entries on `k` are taken from
      the stored box; those on the two touched axes are folded from 0.0
      over the rotated vertices, so they hold 0.0 and every vertex, and each
      one is 0.0 or some vertex's coordinate. */
  function RotatedBox(box: BBox, ts: seq<Triangle3d>, k: Axis): (r: BBox)
    ensures Coord(r.lo, k) == Coord(box.lo, k) && Coord(r.hi, k) == Coord(box.hi, k)
    ensures forall a :: a != k ==> Coord(r.lo, a) <= 0.0 <= Coord(r.hi, a)
    ensures forall i, a :: 0 <= i < |ts| && a != k ==> TriangleWithinOn(r, ts[i], a)
    ensures forall a :: a != k && Coord(r.lo, a) != 0.0 ==>
              exists i :: 0 <= i < |ts| && IsCoordOf(Coord(r.lo, a), ts[i], a)
    ensures forall a :: a != k && Coord(r.hi, a) != 0.0 ==>
              exists i :: 0 <= i < |ts| && IsCoordOf(Coord(r.hi, a), ts[i], a)
  {
    var r := BBox(Point3d(RotatedLo(box, ts, k, X), RotatedLo(box, ts, k, Y), RotatedLo(box, ts, k, Z)),
                  Point3d(RotatedHi(box, ts, k, X), RotatedHi(box, ts, k, Y), RotatedHi(box, ts, k, Z)));
    assert forall a :: Coord(r.lo, a) == RotatedLo(box, ts, k, a) && Coord(r.hi, a) == RotatedHi(box, ts, k, a);
    r
  }

  /** One low entry of `RotatedBox`. */
  function RotatedLo(box: BBox, ts: seq<Triangle3d>, k: Axis, a: Axis): (v: real)
    ensures a == k ==> v == Coord(box.lo, k)
    ensures a != k ==> v <= 0.0
    ensures a != k ==> forall i :: 0 <= i < |ts| ==>
              v <= Coord(ts[i].a, a) && v <= Coord(ts[i].b, a) && v <= Coord(ts[i].c, a)
    ensures a != k && v != 0.0 ==> exists i :: 0 <= i < |ts| && IsCoordOf(v, ts[i], a)
  {
    if a == k then Coord(box.lo, k) else FoldMinTriangles(0.0, ts, a)
  }

  /** One high entry of `RotatedBox`. */
  function RotatedHi(box: BBox, ts: seq<Triangle3d>, k: Axis, a: Axis): (v: real)
    ensures a == k ==> v == Coord(box.hi, k)
    ensures a != k ==> 0.0 <= v
    ensures a != k ==> forall i :: 0 <= i < |ts| ==>
              Coord(ts[i].a, a) <= v && Coord(ts[i].b, a) <= v && Coord(ts[i].c, a) <= v
    ensures a != k && v != 0.0 ==> exists i :: 0 <= i < |ts| && IsCoordOf(v, ts[i], a)
  {
    if a == k then Coord(box.hi, k) else FoldMaxTriangles(0.0, ts, a)
  }

  /** Every triangle rotated about `k` through `o`. */
  function RotateAll(ts: seq<Triangle3d>, k: Axis, o: Point3d, c: real, s: real): (r: seq<Triangle3d>)
    ensures |r| == |ts|
    ensures forall i :: 0 <= i < |ts| ==> r[i] == RotateTriangle(ts[i], k, o, c, s)
  {
    seq(|ts|, i requires 0 <= i < |ts| => RotateTriangle(ts[i], k, o, c, s))
  }

  /** `rotateX`, `rotateY` and `rotateZ`, about `k`.  Every vertex is rotated
      about the offset; the box entries on `k` are kept; the entries on the
      two touched axes are the running min/max of 0.0 and the new
      coordinates, so they contain 0.0 and every new vertex, and each one is
      0.0 or some vertex's coordinate.  Nothing else changes. */
  function Rotate(m: Model, k: Axis, c: real, s: real): (r: Model)
    ensures |r.triangles| == |m.triangles|
    ensures forall i :: 0 <= i < |m.triangles| ==>
              r.triangles[i] == RotateTriangle(m.triangles[i], k, m.offset, c, s)
    ensures Coord(r.bbox.lo, k) == Coord(m.bbox.lo, k) && Coord(r.bbox.hi, k) == Coord(m.bbox.hi, k)
    ensures forall a :: a != k ==> Coord(r.bbox.lo, a) <= 0.0 <= Coord(r.bbox.hi, a)
    ensures forall i, a :: 0 <= i < |r.triangles| && a != k ==> TriangleWithinOn(r.bbox, r.triangles[i], a)
    ensures forall a :: a != k && Coord(r.bbox.lo, a) != 0.0 ==>
              exists i :: 0 <= i < |r.triangles| && IsCoordOf(Coord(r.bbox.lo, a), r.triangles[i], a)
    ensures forall a :: a != k && Coord(r.bbox.hi, a) != 0.0 ==>
              exists i :: 0 <= i < |r.triangles| && IsCoordOf(Coord(r.bbox.hi, a), r.triangles[i], a)
    ensures r == m.(triangles := r.triangles, bbox := r.bbox)
  {
    var ts := RotateAll(m.triangles, k, m.offset, c, s);
    m.(triangles := ts, bbox := RotatedBox(m.bbox, ts, k))
  }

  /** Rotating back by the opposite angle restores every triangle. */
  lemma {:induction false} RotateInverse(m: Model, k: Axis, c: real, s: real)
    requires c * c + s * s == 1.0
    ensures Rotate(Rotate(m, k, c, s), k, c, -s).triangles == m.triangles
  {
    var r := Rotate(m, k, c, s);
    var r2 := Rotate(r, k, c, -s);
    forall i | 0 <= i < |m.triangles|
      ensures r2.triangles[i] == m.triangles[i]
    {
      var t := m.triangles[i];
      RotatePointInverse(t.a, k, m.offset, c, s);
      RotatePointInverse(t.b, k, m.offset, c, s);
      RotatePointInverse(t.c, k, m.offset, c, s);
    }
  }

  /** `Model::rotateX`: y and z move, x and the x entries of the box stay. */
  function RotateX(m: Model, cosTheta: real, sinTheta: real): (r: Model)
    ensures |r.triangles| == |m.triangles|
    ensures forall i :: 0 <= i < |m.triangles| ==>
              r.triangles[i].a.x == m.triangles[i].a.x
              && r.triangles[i].b.x == m.triangles[i].b.x
              && r.triangles[i].c.x == m.triangles[i].c.x
    ensures r.bbox.lo.x == m.bbox.lo.x && r.bbox.hi.x == m.bbox.hi.x
    ensures r.bbox.lo.y <= 0.0 <= r.bbox.hi.y && r.bbox.lo.z <= 0.0 <= r.bbox.hi.z
    ensures forall i :: 0 <= i < |r.triangles| ==>
              TriangleWithinOn(r.bbox, r.triangles[i], Y) && TriangleWithinOn(r.bbox, r.triangles[i], Z)
  {
    var r := Rotate(m, X, cosTheta, sinTheta);
    assert Coord(r.bbox.lo, Y) <= 0.0 && Coord(r.bbox.lo, Z) <= 0.0;
    assert Coord(r.bbox.hi, Y) >= 0.0 && Coord(r.bbox.hi, Z) >= 0.0;
    r
  }

  /** `Model::rotateY`: x and z move, y and the y entries of the box stay. */
  function RotateY(m: Model, cosTheta: real, sinTheta: real): (r: Model)
    ensures |r.triangles| == |m.triangles|
    ensures forall i :: 0 <= i < |m.triangles| ==>
              r.triangles[i].a.y == m.triangles[i].a.y
              && r.triangles[i].b.y == m.triangles[i].b.y
              && r.triangles[i].c.y == m.triangles[i].c.y
    ensures r.bbox.lo.y == m.bbox.lo.y && r.bbox.hi.y == m.bbox.hi.y
    ensures r.bbox.lo.x <= 0.0 <= r.bbox.hi.x && r.bbox.lo.z <= 0.0 <= r.bbox.hi.z
    ensures forall i :: 0 <= i < |r.triangles| ==>
              TriangleWithinOn(r.bbox, r.triangles[i], X) && TriangleWithinOn(r.bbox, r.triangles[i], Z)
  {
    var r := Rotate(m, Y, cosTheta, sinTheta);
    assert Coord(r.bbox.lo, X) <= 0.0 && Coord(r.bbox.lo, Z) <= 0.0;
    assert Coord(r.bbox.hi, X) >= 0.0 && Coord(r.bbox.hi, Z) >= 0.0;
    r
  }

  /** `Model::rotateZ`: x and y move, z and the z entries of the box stay. */
  function RotateZ(m: Model, cosTheta: real, sinTheta: real): (r: Model)
    ensures |r.triangles| == |m.triangles|
    ensures forall i :: 0 <= i < |m.triangles| ==>
              r.triangles[i].a.z == m.triangles[i].a.z
              && r.triangles[i].b.z == m.triangles[i].b.z
              && r.triangles[i].c.z == m.triangles[i].c.z
    ensures r.bbox.lo.z == m.bbox.lo.z && r.bbox.hi.z == m.bbox.hi.z
    ensures r.bbox.lo.x <= 0.0 <= r.bbox.hi.x && r.bbox.lo.y <= 0.0 <= r.bbox.hi.y
    ensures forall i :: 0 <= i < |r.triangles| ==>
              TriangleWithinOn(r.bbox, r.triangles[i], X) && TriangleWithinOn(r.bbox, r.triangles[i], Y)
  {
    var r := Rotate(m, Z, cosTheta, sinTheta);
    assert Coord(r.bbox.lo, X) <= 0.0 && Coord(r.bbox.lo, Y) <= 0.0;
    assert Coord(r.bbox.hi, X) >= 0.0 && Coord(r.bbox.hi, Y) >= 0.0;
    r
  }

  /** `Triangle3d::rotateY` is the model rotation about Y through the
      origin. */
  lemma TriangleRotateYAboutOrigin(t: Triangle3d, c: real, s: real)
    ensures Geometry.RotateY(t, c, s) == RotateTriangle(t, Y, Origin3d, c, s)
  {
  }

  // ---------------------------------------------------------------------
  // mesh2screen

  function CentroidX(t: Triangle3d): real {
    (t.a.x + t.b.x + t.c.x) / 3.0
  }

  function CentroidY(t: Triangle3d): real {
    (t.a.y + t.b.y + t.c.y) / 3.0
  }

  /** Average depth, the painter's-order key. */
  function AvgZ(t: Triangle3d): real {
    (t.a.z + t.b.z + t.c.z) / 3.0
  }

  /** The angle of a vertex seen from the centroid `(cx, cy)`;
      `angle(dy, dx)` stands for `atan2`, whose values are not modelled. */
  function AngleKey(cx: real, cy: real, angle: (real, real) -> real): Point3d -> real {
    (p: Point3d) => angle(p.y - cy, p.x - cx)
  }

  /** First pass of `mesh2screen`: the three vertices, each carrying its own
      z, reordered by non-increasing angle about the centroid. */
  function Wind(t: Triangle3d, angle: (real, real) -> real): (r: Triangle3d)
    ensures multiset(AsPoints(r)) == multiset(AsPoints(t))
    ensures var key := AngleKey(CentroidX(t), CentroidY(t), angle);
            key(r.a) >= key(r.b) >= key(r.c)
  {
    var key := AngleKey(CentroidX(t), CentroidY(t), angle);
    var points := SortDesc(AsPoints(t), key);
    SortedDescOfThree(points, key);
    var r := FromPoints(points);
    assert AsPoints(r) == points;
    r
  }

  /** `r` is a winding of `t`: the same three vertices, so the same
      average depth, in an order a second winding leaves alone. */
  predicate IsWindingOf(r: Triangle3d, t: Triangle3d, angle: (real, real) -> real) {
    multiset(AsPoints(r)) == multiset(AsPoints(t)) && AvgZ(r) == AvgZ(t) && Wind(r, angle) == r
  }

  lemma WindIsWinding(t: Triangle3d, angle: (real, real) -> real)
    ensures IsWindingOf(Wind(t, angle), t, angle)
  {
    WindKeepsCentroidAndDepth(t, angle);
    WindIdempotent(t, angle);
  }

  /** The first pass over the whole list: every triangle is replaced, in
      place, by a winding of itself. */
  function Wound(ts: seq<Triangle3d>, angle: (real, real) -> real): (r: seq<Triangle3d>)
    ensures |r| == |ts|
    ensures forall i :: 0 <= i < |ts| ==> IsWindingOf(r[i], ts[i], angle)
  {
    var r := seq(|ts|, i requires 0 <= i < |ts| => Wind(ts[i], angle));
    assert forall i :: 0 <= i < |ts| ==> IsWindingOf(r[i], ts[i], angle) by {
      forall i | 0 <= i < |ts|
        ensures IsWindingOf(r[i], ts[i], angle)
      {
        WindIsWinding(ts[i], angle);
      }
    }
    r
  }

  /** `mesh2screen`: every triangle wound, then the list ordered back to
      front by average z.  The result is a permutation of the wound
      triangles, sorted by non-increasing average z; nothing else in the
      model changes. */
  function MeshToScreen(m: Model, angle: (real, real) -> real): (r: Model)
    ensures |r.triangles| == |m.triangles|
    ensures multiset(r.triangles) == multiset(Wound(m.triangles, angle))
    ensures SortedDesc(r.triangles, AvgZ)
    ensures r == m.(triangles := r.triangles)
  {
    m.(triangles := SortDesc(Wound(m.triangles, angle), AvgZ))
  }

  function PointX(p: Point3d): real { p.x }
  function PointY(p: Point3d): real { p.y }
  function PointZ(p: Point3d): real { p.z }

  /** Reordering the vertices keeps the centroid and the average z. */
  lemma WindKeepsCentroidAndDepth(t: Triangle3d, angle: (real, real) -> real)
    ensures CentroidX(Wind(t, angle)) == CentroidX(t)
    ensures CentroidY(Wind(t, angle)) == CentroidY(t)
    ensures AvgZ(Wind(t, angle)) == AvgZ(t)
  {
    PermutedKeepsCentroidAndDepth(Wind(t, angle), t);
  }

  /** Two triangles with the same three vertices share centroid and
      average z. */
  lemma PermutedKeepsCentroidAndDepth(r: Triangle3d, t: Triangle3d)
    requires multiset(AsPoints(r)) == multiset(AsPoints(t))
    ensures CentroidX(r) == CentroidX(t) && CentroidY(r) == CentroidY(t) && AvgZ(r) == AvgZ(t)
  {
    PermutedSum(r, t, PointX);
    PermutedSum(r, t, PointY);
    PermutedSum(r, t, PointZ);
  }

  lemma PermutedSum(r: Triangle3d, t: Triangle3d, f: Point3d -> real)
    requires multiset(AsPoints(r)) == multiset(AsPoints(t))
    ensures f(r.a) + f(r.b) + f(r.c) == f(t.a) + f(t.b) + f(t.c)
  {
    SumPermutation(AsPoints(r), AsPoints(t), f);
    Sum3(r.a, r.b, r.c, f);
    Sum3(t.a, t.b, t.c, f);
  }

  lemma Sum3<T>(x: T, y: T, z: T, f: T -> real)
    ensures Sum([x, y, z], f) == f(x) + f(y) + f(z)
  {
    assert [x, y, z][1..] == [y, z];
    assert [y, z][1..] == [z];
    assert [z][1..] == [];
    calc {
      Sum([x, y, z], f);
      f(x) + Sum([y, z], f);
      f(x) + (f(y) + Sum([z], f));
      f(x) + (f(y) + (f(z) + Sum([], f)));
    }
  }

  /** The `k`-th screen triangle is the wound form of some input triangle. */
  lemma ScreenTriangleOrigin(m: Model, angle: (real, real) -> real, k: int) returns (i: int)
    requires 0 <= k < |m.triangles|
    ensures 0 <= i < |m.triangles|
    ensures MeshToScreen(m, angle).triangles[k] == Wind(m.triangles[i], angle)
  {
    i := PermutationIndex(MeshToScreen(m, angle).triangles, Wound(m.triangles, angle), k);
  }

  /** Winding keeps a triangle inside any box that held it. */
  lemma WindWithinOn(t: Triangle3d, angle: (real, real) -> real, box: BBox, a: Axis)
    requires TriangleWithinOn(box, t, a)
    ensures TriangleWithinOn(box, Wind(t, angle), a)
  {
    PermutedWithinOn(Wind(t, angle), t, box, a);
  }

  /** Two triangles with the same three vertices lie within the same boxes. */
  lemma PermutedWithinOn(r: Triangle3d, t: Triangle3d, box: BBox, a: Axis)
    requires multiset(AsPoints(r)) == multiset(AsPoints(t))
    requires TriangleWithinOn(box, t, a)
    ensures TriangleWithinOn(box, r, a)
  {
    OneOfThree(r.a, t);
    OneOfThree(r.b, t);
    OneOfThree(r.c, t);
  }

  /** A vertex of a triangle with the same vertices as `t` is a vertex of `t`. */
  lemma OneOfThree(p: Point3d, t: Triangle3d)
    requires p in multiset(AsPoints(t))
    ensures p == t.a || p == t.b || p == t.c
  {
    assert p in AsPoints(t);
  }

  /** The box a model's triangles lie in on axis `a` still holds them on
      screen. */
  lemma MeshToScreenWithinOn(m: Model, angle: (real, real) -> real, a: Axis)
    requires forall i :: 0 <= i < |m.triangles| ==> TriangleWithinOn(m.bbox, m.triangles[i], a)
    ensures var r := MeshToScreen(m, angle);
            forall k :: 0 <= k < |r.triangles| ==> TriangleWithinOn(r.bbox, r.triangles[k], a)
  {
    var r := MeshToScreen(m, angle);
    forall k | 0 <= k < |r.triangles|
      ensures TriangleWithinOn(r.bbox, r.triangles[k], a)
    {
      var i := ScreenTriangleOrigin(m, angle, k);
      WindWithinOn(m.triangles[i], angle, m.bbox, a);
    }
  }

  /** Every triangle of the screen list holds the vertices of some input
      triangle, with their z, and the same average depth; so the list is in
      non-increasing order of the input triangles' average depth. */
  lemma MeshToScreenPermutes(m: Model, angle: (real, real) -> real)
    ensures var r := MeshToScreen(m, angle);
            forall k :: 0 <= k < |r.triangles| ==>
              exists i :: 0 <= i < |m.triangles|
                && multiset(AsPoints(r.triangles[k])) == multiset(AsPoints(m.triangles[i]))
                && AvgZ(r.triangles[k]) == AvgZ(m.triangles[i])
  {
    var r := MeshToScreen(m, angle);
    forall k | 0 <= k < |r.triangles|
      ensures exists i :: 0 <= i < |m.triangles|
                && multiset(AsPoints(r.triangles[k])) == multiset(AsPoints(m.triangles[i]))
                && AvgZ(r.triangles[k]) == AvgZ(m.triangles[i])
    {
      var i := ScreenTriangleOrigin(m, angle, k);
      WindKeepsCentroidAndDepth(m.triangles[i], angle);
    }
  }

  /** The wound vertices are in non-increasing angle order. */
  lemma WindSorted(t: Triangle3d, angle: (real, real) -> real)
    ensures SortedDesc(AsPoints(Wind(t, angle)), AngleKey(CentroidX(t), CentroidY(t), angle))
  {
    var r := Wind(t, angle);
    SortedDescThree(r.a, r.b, r.c, AngleKey(CentroidX(t), CentroidY(t), angle));
  }

  /** A triangle whose vertices are already in winding order is left as is. */
  lemma WindOfSorted(r: Triangle3d, angle: (real, real) -> real)
    requires SortedDesc(AsPoints(r), AngleKey(CentroidX(r), CentroidY(r), angle))
    ensures Wind(r, angle) == r
  {
    SortDescOfSorted(AsPoints(r), AngleKey(CentroidX(r), CentroidY(r), angle));
  }

  /** Winding a wound triangle again changes nothing. */
  lemma WindIdempotent(t: Triangle3d, angle: (real, real) -> real)
    ensures Wind(Wind(t, angle), angle) == Wind(t, angle)
  {
    var r := Wind(t, angle);
    WindKeepsCentroidAndDepth(t, angle);
    WindSorted(t, angle);
    assert AngleKey(CentroidX(r), CentroidY(r), angle) == AngleKey(CentroidX(t), CentroidY(t), angle);
    WindOfSorted(r, angle);
  }

  /** The screen triangles are already wound. */
  lemma ScreenTrianglesWound(m: Model, angle: (real, real) -> real)
    ensures Wound(MeshToScreen(m, angle).triangles, angle) == MeshToScreen(m, angle).triangles
  {
    var ts := MeshToScreen(m, angle).triangles;
    var w := Wound(ts, angle);
    forall k | 0 <= k < |ts|
      ensures w[k] == ts[k]
    {
      var i := ScreenTriangleOrigin(m, angle, k);
      WindIdempotent(m.triangles[i], angle);
    }
  }

  /** Projecting a projected model again changes nothing. */
  lemma MeshToScreenIdempotent(m: Model, angle: (real, real) -> real)
    ensures MeshToScreen(MeshToScreen(m, angle), angle) == MeshToScreen(m, angle)
  {
    var r := MeshToScreen(m, angle);
    ScreenTrianglesWound(m, angle);
    SortDescOfSorted(r.triangles, AvgZ);
  }
}
