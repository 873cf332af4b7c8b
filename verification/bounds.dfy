/** Axis-aligned bounding boxes and the running min/max folds that
    `load_obj` and the three `Model::rotate*` operations use to maintain
    them (src/obj_parser.cpp). */
module Bounds {
  import opened Geometry

  /** `bbox[0]` and `bbox[1]` of the source: per-axis minimum and maximum. */
  datatype BBox = BBox(lo: Point3d, hi: Point3d)

  /** `m = std::min(m, p.k)` over `pts` in order, starting from `seed`: the
      smallest of the seed and all the coordinates. */
  function FoldMin(seed: real, pts: seq<Point3d>, k: Axis): (m: real)
    ensures m <= seed
    ensures forall i :: 0 <= i < |pts| ==> m <= Coord(pts[i], k)
    ensures m == seed || exists i :: 0 <= i < |pts| && m == Coord(pts[i], k)
    decreases |pts|
  {
    if pts == [] then seed
    else FoldMin(Min(seed, Coord(pts[0], k)), pts[1..], k)
  }

  /** `m = std::max(m, p.k)` over `pts` in order, starting from `seed`. */
  function FoldMax(seed: real, pts: seq<Point3d>, k: Axis): (m: real)
    ensures m >= seed
    ensures forall i :: 0 <= i < |pts| ==> m >= Coord(pts[i], k)
    ensures m == seed || exists i :: 0 <= i < |pts| && m == Coord(pts[i], k)
    decreases |pts|
  {
    if pts == [] then seed
    else FoldMax(Max(seed, Coord(pts[0], k)), pts[1..], k)
  }

  /** The point whose coordinate on axis `a` is `f(a)`. */
  function PointOf(f: Axis -> real): (p: Point3d)
    ensures forall a :: Coord(p, a) == f(a)
  {
    Point3d(f(X), f(Y), f(Z))
  }

  /** Folds every point of `pts` into the entries of `box` on `axes`: on
      those axes the result is the smallest box holding the seed box and
      every point, and on the other axes the entries are copied through. */
  function FoldBox(box: BBox, pts: seq<Point3d>, axes: set<Axis>): (r: BBox)
    ensures forall a :: a !in axes ==> Coord(r.lo, a) == Coord(box.lo, a) && Coord(r.hi, a) == Coord(box.hi, a)
    ensures forall a :: a in axes ==> Coord(r.lo, a) <= Coord(box.lo, a) && Coord(box.hi, a) <= Coord(r.hi, a)
    ensures forall i, a :: 0 <= i < |pts| && a in axes ==> WithinOn(r, pts[i], a)
    ensures forall a :: a in axes ==>
              Coord(r.lo, a) == Coord(box.lo, a) || exists i :: 0 <= i < |pts| && Coord(r.lo, a) == Coord(pts[i], a)
    ensures forall a :: a in axes ==>
              Coord(r.hi, a) == Coord(box.hi, a) || exists i :: 0 <= i < |pts| && Coord(r.hi, a) == Coord(pts[i], a)
  {
    BBox(PointOf(a => if a in axes then FoldMin(Coord(box.lo, a), pts, a) else Coord(box.lo, a)),
         PointOf(a => if a in axes then FoldMax(Coord(box.hi, a), pts, a) else Coord(box.hi, a)))
  }

  /** `p` lies within `box` on axis `a`. */
  predicate WithinOn(box: BBox, p: Point3d, a: Axis) {
    Coord(box.lo, a) <= Coord(p, a) <= Coord(box.hi, a)
  }

  /** The centre of the box: on every axis as far from the low entry as
      from the high one, and inside the box where the box is not empty. */
  function Midpoint(box: BBox): (c: Point3d)
    ensures forall a :: Coord(c, a) - Coord(box.lo, a) == Coord(box.hi, a) - Coord(c, a)
    ensures forall a :: Coord(box.lo, a) <= Coord(box.hi, a) ==> WithinOn(box, c, a)
  {
    Point3d((box.lo.x + box.hi.x) / 2.0, (box.lo.y + box.hi.y) / 2.0, (box.lo.z + box.hi.z) / 2.0)
  }
}
