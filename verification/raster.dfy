/** The z-buffered rasterisation of one frame (src/main.cpp, the block
    that fills `zbuffer` and draws the pixels): every triangle is projected
    to the screen, every integer pixel of its bounding box that the inside
    test accepts gets an interpolated depth, and the pixel is painted a
    shade of red when that depth is nearer than what the z-buffer holds.

    `drawpixel` is modelled as writing a colour into an image held as a
    sequence of rows; the X11 calls themselves are not modelled. */
module Raster {
  import opened Wrappers
  import opened Geometry
  import opened Sorting
  import opened Colors
  import opened Bounds
  import opened Mesh

  /** The frame is 640 pixels wide and 480 high. */
  const Width: int := 640
  const Height: int := 480

  /** `max_brightness`. */
  const MaxBrightness: int := 240

  /** A z-buffer cell: `infinity` before anything is drawn there. */
  datatype Depth = Inf | Fin(d: real)

  /** `d < cell` with `infinity` above every number. */
  predicate Nearer(d: real, cell: Depth) {
    cell.Inf? || d < cell.d
  }

  /** Cell `c` is at least as near as cell `e`. */
  predicate NoFarther(c: Depth, e: Depth) {
    e.Fin? ==> c.Fin? && c.d <= e.d
  }

  predicate InFrame(w: int, h: int) {
    0 <= w < Width && 0 <= h < Height
  }

  function MinX(t: Triangle3d): real { Min(Min(t.a.x, t.b.x), t.c.x) }
  function MaxX(t: Triangle3d): real { Max(Max(t.a.x, t.b.x), t.c.x) }
  function MinY(t: Triangle3d): real { Min(Min(t.a.y, t.b.y), t.c.y) }
  function MaxY(t: Triangle3d): real { Max(Max(t.a.y, t.b.y), t.c.y) }

  /** The pixels the two loops visit: `w` starts at `(int)minx` and runs
      while `w <= maxx`; likewise `h`. */
  predicate InBox(t: Triangle3d, w: int, h: int) {
    Trunc(MinX(t)) <= w && w as real <= MaxX(t) && Trunc(MinY(t)) <= h && h as real <= MaxY(t)
  }

  /** The pixels whose z-buffer cell the triangle reads: visited and
      accepted by the inside test of the projected triangle. */
  predicate Covers(t: Triangle3d, w: int, h: int) {
    InBox(t, w, h) && IsPointInside(Project(t), Point2d(w, h))
  }

  /** The depth the triangle offers at a pixel.  Where the three
      sub-areas vanish, `getDepth` divides zero by zero; the NaN compares
      false with every cell, so the pixel is left alone: no sample. */
  function Sample(t: Triangle3d, w: int, h: int): (s: Option<real>)
    ensures s.Some? ==> Covers(t, w, h) && MinZ(t) <= s.value <= MaxZ(t)
    ensures s.None? ==> !Covers(t, w, h) || TotalArea(t, Point2d(w, h)) == 0.0
  {
    var p := Point2d(w, h);
    if Covers(t, w, h) && TotalArea(t, p) > 0.0 then Some(GetDepth(t, p)) else None
  }

  /** One depth test at one cell (`d < zbuffer[h][w]`): the cell keeps the
      nearer of what it held and the sample, and is untouched without one. */
  function Step(cell: Depth, s: Option<real>): (r: Depth)
    ensures s.None? ==> r == cell
    ensures s.Some? ==> NoFarther(r, cell) && NoFarther(r, Fin(s.value))
    ensures r == cell || (s.Some? && r == Fin(s.value))
  {
    if s.Some? && Nearer(s.value, cell) then Fin(s.value) else cell
  }

  /** A cell after the depth tests `ss`, in order, starting from infinity:
      it stays at infinity exactly when no test offers a depth, and
      otherwise holds one of the depths offered. */
  function Resolve(ss: seq<Option<real>>): (r: Depth)
    ensures r.Inf? <==> forall i :: 0 <= i < |ss| ==> ss[i].None?
    ensures r.Fin? ==> Some(r.d) in ss
    decreases |ss|
  {
    if ss == [] then Inf
    else
      var init := ss[..|ss| - 1];
      assert forall i :: 0 <= i < |init| ==> init[i] == ss[i];
      Step(Resolve(init), ss[|ss| - 1])
  }

  /** The depth a cell ends with is the smallest depth offered. */
  lemma {:induction false} ResolveIsMinimum(ss: seq<Option<real>>)
    ensures Resolve(ss).Fin? ==>
              forall i :: 0 <= i < |ss| && ss[i].Some? ==> Resolve(ss).d <= ss[i].value
    decreases |ss|
  {
    if ss != [] {
      var init := ss[..|ss| - 1];
      ResolveIsMinimum(init);
      assert forall i :: 0 <= i < |init| ==> init[i] == ss[i];
    }
  }

  /** The depth tests the triangles `ts` make at pixel `(w, h)`, in order. */
  function Samples(ts: seq<Triangle3d>, w: int, h: int): (ss: seq<Option<real>>)
    ensures |ss| == |ts| && forall i :: 0 <= i < |ts| ==> ss[i] == Sample(ts[i], w, h)
  {
    seq(|ts|, i requires 0 <= i < |ts| => Sample(ts[i], w, h))
  }

  /** The cell at `(w, h)` after the triangles `ts` are drawn in order:
      infinity exactly when no triangle offers a depth there, otherwise a
      depth that one of them offers. */
  function DepthAfter(ts: seq<Triangle3d>, w: int, h: int): (r: Depth)
    ensures r.Inf? <==> forall i :: 0 <= i < |ts| ==> Sample(ts[i], w, h).None?
    ensures r.Fin? ==> exists i :: 0 <= i < |ts| && Sample(ts[i], w, h) == Some(r.d)
  {
    var ss := Samples(ts, w, h);
    var r := Resolve(ss);
    assert r.Fin? ==> exists i :: 0 <= i < |ss| && ss[i] == Some(r.d);
    r
  }

  /** Drawing one more triangle is one more depth test at every pixel. */
  lemma DepthAfterSnoc(ts: seq<Triangle3d>, t: Triangle3d, w: int, h: int)
    ensures DepthAfter(ts + [t], w, h) == Step(DepthAfter(ts, w, h), Sample(t, w, h))
  {
    var ss := Samples(ts + [t], w, h);
    assert ss[..|ts|] == Samples(ts, w, h);
  }

  /** A cell ends at infinity exactly when no triangle offers a depth
      there; otherwise it holds a depth some triangle offers, and no
      triangle offers a smaller one. */
  lemma DepthAfterIsMinimum(ts: seq<Triangle3d>, w: int, h: int)
    ensures DepthAfter(ts, w, h).Inf? <==> forall i :: 0 <= i < |ts| ==> Sample(ts[i], w, h).None?
    ensures DepthAfter(ts, w, h).Fin? ==>
              (exists i :: 0 <= i < |ts| && Sample(ts[i], w, h) == Some(DepthAfter(ts, w, h).d))
              && forall i :: 0 <= i < |ts| && Sample(ts[i], w, h).Some? ==> DepthAfter(ts, w, h).d <= Sample(ts[i], w, h).value
  {
    var ss := Samples(ts, w, h);
    var r := DepthAfter(ts, w, h);
    assert r == Resolve(ss);
    ResolveIsMinimum(ss);
    if r.Fin? {
      forall i | 0 <= i < |ts| && Sample(ts[i], w, h).Some?
        ensures r.d <= Sample(ts[i], w, h).value
      {
        assert ss[i] == Sample(ts[i], w, h);
      }
    }
  }

  /** Drawing the same triangles in any order leaves the same z-buffer:
      the painter's ordering of `mesh2screen` does not change which depth
      wins. */
  lemma DepthAfterOrderIndependent(ts: seq<Triangle3d>, us: seq<Triangle3d>, w: int, h: int)
    requires multiset(ts) == multiset(us)
    ensures DepthAfter(ts, w, h) == DepthAfter(us, w, h)
  {
    DepthAfterBelow(ts, us, w, h);
    DepthAfterBelow(us, ts, w, h);
  }

  /** A permutation of `ts` leaves a cell at least as near as `ts` does. */
  lemma DepthAfterBelow(ts: seq<Triangle3d>, us: seq<Triangle3d>, w: int, h: int)
    requires multiset(ts) == multiset(us)
    ensures NoFarther(DepthAfter(us, w, h), DepthAfter(ts, w, h))
  {
    var a := DepthAfter(ts, w, h);
    if a.Fin? {
      DepthAfterIsMinimum(ts, w, h);
      var i :| 0 <= i < |ts| && Sample(ts[i], w, h) == Some(a.d);
      var j := PermutationIndex(ts, us, i);
      SampleBounds(us, j, w, h);
    }
  }

  /** The cell is at least as near as any one triangle's sample. */
  lemma SampleBounds(ts: seq<Triangle3d>, j: int, w: int, h: int)
    requires 0 <= j < |ts| && Sample(ts[j], w, h).Some?
    ensures NoFarther(DepthAfter(ts, w, h), Fin(Sample(ts[j], w, h).value))
  {
    DepthAfterIsMinimum(ts, w, h);
  }

  /** A triangle changes only cells it covers, and never makes one
      farther. */
  lemma DepthAfterLastTriangle(ts: seq<Triangle3d>, t: Triangle3d, w: int, h: int)
    ensures !Covers(t, w, h) ==> DepthAfter(ts + [t], w, h) == DepthAfter(ts, w, h)
    ensures DepthAfter(ts + [t], w, h).Inf? ==> DepthAfter(ts, w, h).Inf?
    ensures DepthAfter(ts, w, h).Fin? ==> DepthAfter(ts + [t], w, h).Fin? && DepthAfter(ts + [t], w, h).d <= DepthAfter(ts, w, h).d
  {
    DepthAfterSnoc(ts, t, w, h);
  }

  // ---------------------------------------------------------------------
  // Shading

  /** `max_brightness - (int)((d - zmin) / (zmax - zmin) * max_brightness)`,
      with `zmin` and `zmax` the z entries of the model's bounding box.
      The source divides by `zmax - zmin`, so the two must differ. */
  function RedIntensity(d: real, zmin: real, zmax: real): (red: int)
    requires zmin != zmax
    ensures d == zmin ==> red == MaxBrightness
    ensures d == zmax ==> red == 0
  {
    var f := (d - zmin) / (zmax - zmin);
    assert d == zmax ==> f == 1.0 by {
      if d == zmax {
        DivideOut(zmax - zmin, 1.0);
      }
    }
    MaxBrightness - Trunc(f * MaxBrightness as real)
  }

  /** A depth inside the box gives an intensity from 0 (at `zmax`) to
      `max_brightness` (at `zmin`). */
  lemma RedIntensityBounds(d: real, zmin: real, zmax: real)
    requires zmin < zmax && zmin <= d <= zmax
    ensures 0 <= RedIntensity(d, zmin, zmax) <= MaxBrightness
  {
    var f := (d - zmin) / (zmax - zmin);
    DivideBounds(d - zmin, zmax - zmin, 0.0, 1.0);
    MulNonNeg(f, MaxBrightness as real);
    MulNonNeg(1.0 - f, MaxBrightness as real);
    TruncMonotone(0.0, f * MaxBrightness as real);
    TruncMonotone(f * MaxBrightness as real, MaxBrightness as real);
  }

  /** Nearer is brighter. */
  lemma RedIntensityMonotone(d1: real, d2: real, zmin: real, zmax: real)
    requires zmin < zmax && d1 <= d2
    ensures RedIntensity(d1, zmin, zmax) >= RedIntensity(d2, zmin, zmax)
  {
    var k := MaxBrightness as real / (zmax - zmin);
    assert (d1 - zmin) / (zmax - zmin) * MaxBrightness as real == (d1 - zmin) * k;
    assert (d2 - zmin) / (zmax - zmin) * MaxBrightness as real == (d2 - zmin) * k;
    MulNonNeg(d2 - d1, k);
    TruncMonotone((d1 - zmin) * k, (d2 - zmin) * k);
  }

  /** Nothing painted, or a pure red of at most `max_brightness`. */
  predicate IsRedShade(c: Option<int>) {
    c.Some? ==> GreenOf(c.value) == 0 && BlueOf(c.value) == 0 && 0 <= RedOf(c.value) <= MaxBrightness
  }

  /** The colour a pixel is painted for a z-buffer cell,
      `RGB2Hex(red_intensity, 0, 0)`: nothing for an untouched cell, and for
      a depth inside the box a pure red whose red channel is the
      intensity. */
  function Shade(cell: Depth, zmin: real, zmax: real): (c: Option<int>)
    requires zmin != zmax
    ensures c.None? <==> cell.Inf?
    ensures cell.Fin? && zmin < zmax && zmin <= cell.d <= zmax ==>
              IsRedShade(c) && RedOf(c.value) == RedIntensity(cell.d, zmin, zmax)
  {
    match cell
    case Inf => None
    case Fin(d) =>
      var red := RedIntensity(d, zmin, zmax);
      assert zmin < zmax && zmin <= d <= zmax ==> 0 <= red <= MaxBrightness by {
        if zmin < zmax && zmin <= d <= zmax {
          RedIntensityBounds(d, zmin, zmax);
        }
      }
      Some(RGB2Hex(red, 0, 0))
  }

  /** When the z range `[zmin, zmax]` holds every triangle, every pixel
      drawn is a pure red of at most `max_brightness`. */
  lemma PaintedPixelsAreRed(ts: seq<Triangle3d>, zmin: real, zmax: real, w: int, h: int)
    requires zmin < zmax
    requires forall i :: 0 <= i < |ts| ==> zmin <= MinZ(ts[i]) && MaxZ(ts[i]) <= zmax
    ensures IsRedShade(Shade(DepthAfter(ts, w, h), zmin, zmax))
  {
    DepthAfterIsMinimum(ts, w, h);
    var cell := DepthAfter(ts, w, h);
    if cell.Fin? {
      var i :| 0 <= i < |ts| && Sample(ts[i], w, h) == Some(cell.d);
    }
  }

  /** Triangles within a box on the z axis have their depths in its z range. */
  lemma WithinZ(box: BBox, ts: seq<Triangle3d>)
    requires forall i :: 0 <= i < |ts| ==> TriangleWithinOn(box, ts[i], Z)
    ensures forall i :: 0 <= i < |ts| ==> box.lo.z <= MinZ(ts[i]) && MaxZ(ts[i]) <= box.hi.z
  {
    forall i | 0 <= i < |ts|
      ensures box.lo.z <= MinZ(ts[i]) && MaxZ(ts[i]) <= box.hi.z
    {
      assert TriangleWithinOn(box, ts[i], Z);
    }
  }

  /** Triangles a box holds on the z axis are drawn in pure red when the
      box's z entries are the shading range. */
  lemma BoxedPixelsAreRed(box: BBox, ts: seq<Triangle3d>, w: int, h: int)
    requires box.lo.z < box.hi.z
    requires forall i :: 0 <= i < |ts| ==> TriangleWithinOn(box, ts[i], Z)
    ensures IsRedShade(Shade(DepthAfter(ts, w, h), box.lo.z, box.hi.z))
  {
    WithinZ(box, ts);
    PaintedPixelsAreRed(ts, box.lo.z, box.hi.z, w, h);
  }

  /** A model whose box holds every triangle on the z axis keeps that
      on screen, so every pixel drawn with the box's z entries is a pure
      red of at most `max_brightness`. */
  lemma ScreenPixelsAreRed(m: Model, angle: (real, real) -> real, w: int, h: int)
    requires m.bbox.lo.z < m.bbox.hi.z
    requires forall i :: 0 <= i < |m.triangles| ==> TriangleWithinOn(m.bbox, m.triangles[i], Z)
    ensures var r := MeshToScreen(m, angle);
            IsRedShade(Shade(DepthAfter(r.triangles, w, h), r.bbox.lo.z, r.bbox.hi.z))
  {
    var r := MeshToScreen(m, angle);
    MeshToScreenWithinOn(m, angle, Z);
    BoxedPixelsAreRed(r.bbox, r.triangles, w, h);
  }

  /** The frame loop of the program: after `rotateY` and `mesh2screen`,
      the z entries of the model's box hold every triangle, so each pixel
      drawn with them is a pure red of at most `max_brightness`, and the
      z-buffer does not depend on the back-to-front order. */
  lemma FrameAfterRotateY(m: Model, cosTheta: real, sinTheta: real, angle: (real, real) -> real, w: int, h: int)
    requires var box := Mesh.RotateY(m, cosTheta, sinTheta).bbox; box.lo.z < box.hi.z
    ensures var r := MeshToScreen(Mesh.RotateY(m, cosTheta, sinTheta), angle);
            IsRedShade(Shade(DepthAfter(r.triangles, w, h), r.bbox.lo.z, r.bbox.hi.z))
    ensures var m1 := Mesh.RotateY(m, cosTheta, sinTheta);
            DepthAfter(MeshToScreen(m1, angle).triangles, w, h) == DepthAfter(Wound(m1.triangles, angle), w, h)
  {
    var m1 := Mesh.RotateY(m, cosTheta, sinTheta);
    ScreenPixelsAreRed(m1, angle, w, h);
    DepthAfterOrderIndependent(MeshToScreen(m1, angle).triangles, Wound(m1.triangles, angle), w, h);
  }

  // ---------------------------------------------------------------------
  // One frame

  /** A 640 x 480 grid, indexed `[h][w]` like `zbuffer`. */
  predicate IsGrid<T>(g: seq<seq<T>>) {
    |g| == Height && forall h :: 0 <= h < Height ==> |g[h]| == Width
  }

  function Grid<T>(x: T): (g: seq<seq<T>>)
    ensures IsGrid(g) && forall h, w :: InFrame(w, h) ==> g[h][w] == x
  {
    seq(Height, h => seq(Width, w => x))
  }

  function Put<T>(g: seq<seq<T>>, w: int, h: int, x: T): (r: seq<seq<T>>)
    requires IsGrid(g) && InFrame(w, h)
    ensures IsGrid(r) && r[h][w] == x
    ensures forall h', w' :: InFrame(w', h') && (h', w') != (h, w) ==> r[h'][w'] == g[h'][w']
  {
    g[h := g[h][w := x]]
  }

  /** Every pixel any triangle reads lies in the frame; `zbuffer[h][w]` is
      out of range otherwise. */
  ghost predicate CoveredInFrame(ts: seq<Triangle3d>) {
    forall i, w, h :: 0 <= i < |ts| && Covers(ts[i], w, h) ==> InFrame(w, h)
  }

  /** Pixel `(w, h)` comes before `(cw, ch)` in the loops' visiting order. */
  predicate VisitedBefore(w: int, h: int, cw: int, ch: int) {
    w < cw || (w == cw && h < ch)
  }

  /** While triangle `t` is drawn over `zbuf0`: the pixels visited before
      `(cw, ch)` have had their depth test, the others not yet. */
  ghost predicate Stepped(zbuf: seq<seq<Depth>>, zbuf0: seq<seq<Depth>>, t: Triangle3d, cw: int, ch: int) {
    IsGrid(zbuf) && IsGrid(zbuf0)
    && forall h, w :: InFrame(w, h) ==>
         zbuf[h][w] == if VisitedBefore(w, h, cw, ch) then Step(zbuf0[h][w], Sample(t, w, h)) else zbuf0[h][w]
  }

  /** Every pixel shows the shade of its z-buffer cell. */
  ghost predicate Shaded(zbuf: seq<seq<Depth>>, image: seq<seq<Option<int>>>, zmin: real, zmax: real)
    requires zmin != zmax
  {
    IsGrid(zbuf) && IsGrid(image)
    && forall h, w :: InFrame(w, h) ==> image[h][w] == Shade(zbuf[h][w], zmin, zmax)
  }

  lemma ShadedPut(zbuf: seq<seq<Depth>>, image: seq<seq<Option<int>>>, w: int, h: int, d: real, zmin: real, zmax: real)
    requires zmin != zmax && Shaded(zbuf, image, zmin, zmax) && InFrame(w, h)
    ensures Shaded(Put(zbuf, w, h, Fin(d)), Put(image, w, h, Shade(Fin(d), zmin, zmax)), zmin, zmax)
  {
  }

  /** Nothing is visited outside the bounding box, so the test there is a
      no-op and the start of the loops can be taken as already passed. */
  lemma SteppedStart(zbuf0: seq<seq<Depth>>, t: Triangle3d)
    requires IsGrid(zbuf0)
    ensures Stepped(zbuf0, zbuf0, t, Trunc(MinX(t)), Trunc(MinY(t)))
  {
  }

  /** A pixel whose test writes nothing. */
  lemma SteppedSkip(zbuf: seq<seq<Depth>>, zbuf0: seq<seq<Depth>>, t: Triangle3d, w: int, h: int)
    requires Stepped(zbuf, zbuf0, t, w, h)
    requires InFrame(w, h) ==> Step(zbuf0[h][w], Sample(t, w, h)) == zbuf0[h][w]
    ensures Stepped(zbuf, zbuf0, t, w, h + 1)
  {
  }

  /** A pixel whose test writes `d`. */
  lemma SteppedWrite(zbuf: seq<seq<Depth>>, zbuf0: seq<seq<Depth>>, t: Triangle3d, w: int, h: int, d: real)
    requires Stepped(zbuf, zbuf0, t, w, h) && InFrame(w, h)
    requires Step(zbuf0[h][w], Sample(t, w, h)) == Fin(d)
    ensures Stepped(Put(zbuf, w, h, Fin(d)), zbuf0, t, w, h + 1)
  {
  }

  /** The end of a column. */
  lemma SteppedColumnDone(zbuf: seq<seq<Depth>>, zbuf0: seq<seq<Depth>>, t: Triangle3d, w: int, h: int)
    requires Stepped(zbuf, zbuf0, t, w, h) && h as real > MaxY(t)
    ensures Stepped(zbuf, zbuf0, t, w + 1, Trunc(MinY(t)))
  {
    forall h', w' | InFrame(w', h') && w' == w && h' >= h
      ensures Sample(t, w', h') == None
    {
      assert !InBox(t, w', h');
    }
  }

  /** The end of the box: every pixel has had its test. */
  lemma SteppedAll(zbuf: seq<seq<Depth>>, zbuf0: seq<seq<Depth>>, t: Triangle3d, w: int, h: int)
    requires Stepped(zbuf, zbuf0, t, w, h) && w as real > MaxX(t)
    ensures forall h', w' :: InFrame(w', h') ==> zbuf[h'][w'] == Step(zbuf0[h'][w'], Sample(t, w', h'))
  {
    forall h', w' | InFrame(w', h') && !VisitedBefore(w', h', w, h)
      ensures Sample(t, w', h') == None
    {
      assert !InBox(t, w', h');
    }
  }

  /** The block of the frame loop that draws `obj.triangles`: the final
      z-buffer holds, at every pixel, the depth left by drawing the
      triangles in order, and the image holds the shade of that depth. */
  method DrawFrame(ts: seq<Triangle3d>, zmin: real, zmax: real) returns (zbuf: seq<seq<Depth>>, image: seq<seq<Option<int>>>)
    requires zmin != zmax
    requires CoveredInFrame(ts)
    ensures IsGrid(zbuf) && IsGrid(image)
    ensures forall h, w :: InFrame(w, h) ==> zbuf[h][w] == DepthAfter(ts, w, h)
    ensures forall h, w :: InFrame(w, h) ==> image[h][w] == Shade(DepthAfter(ts, w, h), zmin, zmax)
  {
    zbuf := Grid(Inf);
    image := Grid(None);
    var i := 0;
    while i < |ts|
      invariant 0 <= i <= |ts|
      invariant IsGrid(zbuf) && Shaded(zbuf, image, zmin, zmax)
      invariant forall h, w :: InFrame(w, h) ==> zbuf[h][w] == DepthAfter(ts[..i], w, h)
    {
      assert ts[..i + 1] == ts[..i] + [ts[i]];
      zbuf, image := DrawTriangle(ts[..i], ts[i], zbuf, image, zmin, zmax);
      i := i + 1;
    }
    assert ts[..i] == ts;
  }

  /** The two loops over the bounding box of one triangle `t`, drawn after
      the triangles `done`. */
  method DrawTriangle(done: seq<Triangle3d>, t: Triangle3d, zbuf0: seq<seq<Depth>>, image0: seq<seq<Option<int>>>,
                      zmin: real, zmax: real) returns (zbuf: seq<seq<Depth>>, image: seq<seq<Option<int>>>)
    requires zmin != zmax
    requires forall w, h :: Covers(t, w, h) ==> InFrame(w, h)
    requires IsGrid(zbuf0) && Shaded(zbuf0, image0, zmin, zmax)
    requires forall h, w :: InFrame(w, h) ==> zbuf0[h][w] == DepthAfter(done, w, h)
    ensures IsGrid(zbuf) && Shaded(zbuf, image, zmin, zmax)
    ensures forall h, w :: InFrame(w, h) ==> zbuf[h][w] == DepthAfter(done + [t], w, h)
  {
    zbuf, image := zbuf0, image0;
    var w := Trunc(MinX(t));
    SteppedStart(zbuf0, t);
    while w as real <= MaxX(t)
      invariant Trunc(MinX(t)) <= w
      invariant Stepped(zbuf, zbuf0, t, w, Trunc(MinY(t))) && Shaded(zbuf, image, zmin, zmax)
      decreases MaxX(t).Floor + 1 - w
    {
      zbuf, image := DrawColumn(t, w, zbuf0, zbuf, image, zmin, zmax);
      w := w + 1;
    }
    SteppedAll(zbuf, zbuf0, t, w, Trunc(MinY(t)));
    forall h, w' | InFrame(w', h)
      ensures zbuf[h][w'] == DepthAfter(done + [t], w', h)
    {
      DepthAfterSnoc(done, t, w', h);
    }
  }

  /** The inner loop: column `w` of the bounding box. */
  method DrawColumn(t: Triangle3d, w: int, zbuf0: seq<seq<Depth>>, zbufIn: seq<seq<Depth>>, imageIn: seq<seq<Option<int>>>,
                    zmin: real, zmax: real) returns (zbuf: seq<seq<Depth>>, image: seq<seq<Option<int>>>)
    requires zmin != zmax
    requires forall w', h' :: Covers(t, w', h') ==> InFrame(w', h')
    requires Trunc(MinX(t)) <= w && w as real <= MaxX(t)
    requires Stepped(zbufIn, zbuf0, t, w, Trunc(MinY(t))) && Shaded(zbufIn, imageIn, zmin, zmax)
    ensures Stepped(zbuf, zbuf0, t, w + 1, Trunc(MinY(t))) && Shaded(zbuf, image, zmin, zmax)
  {
    zbuf, image := zbufIn, imageIn;
    var h := Trunc(MinY(t));
    while h as real <= MaxY(t)
      invariant Trunc(MinY(t)) <= h
      invariant Stepped(zbuf, zbuf0, t, w, h) && Shaded(zbuf, image, zmin, zmax)
      decreases MaxY(t).Floor + 1 - h
    {
      if IsPointInside(Project(t), Point2d(w, h)) {
        assert Covers(t, w, h);
        var s := Sample(t, w, h);
        if s.Some? && Nearer(s.value, zbuf[h][w]) {
          SteppedWrite(zbuf, zbuf0, t, w, h, s.value);
          ShadedPut(zbuf, image, w, h, s.value, zmin, zmax);
          zbuf := Put(zbuf, w, h, Fin(s.value));
          image := Put(image, w, h, Shade(Fin(s.value), zmin, zmax));
        } else {
          SteppedSkip(zbuf, zbuf0, t, w, h);
        }
      } else {
        SteppedSkip(zbuf, zbuf0, t, w, h);
      }
      h := h + 1;
    }
    SteppedColumnDone(zbuf, zbuf0, t, w, h);
  }
}
