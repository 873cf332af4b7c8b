# RenderBox core in Dafny

RenderBox is a small software rasteriser. It has four parts:

- a loader for Wavefront OBJ meshes (`load_obj`);
- a mesh model with in-place passes: triangulation (`mesh_model`), rotations about X, Y and Z, and the screen pass `mesh2screen`;
- integer screen geometry: the edge-function inside test and area-weighted depth interpolation (`getDepth`);
- the z-buffered frame loop in `main`, which paints each visible pixel a shade of red.

This project models those parts as pure Dafny functions over immutable datatypes, plus one method with loops for the frame. It proves what each part promises. `double` and `float` are idealised as `real`. The C++ `(int)` conversion is truncation toward zero (`Geometry.Trunc`).

Modules, in dependency order:

- `Wrappers`: `Option` and `Result`.
- `Text`: `split`, i.e. what repeated `std::getline` with a one-character delimiter yields.
- `Geometry`: `src/geometry.cpp`.
- `Bounds`: bounding boxes and the running min/max folds.
- `Sorting`: the descending orders used by both sorts of `mesh2screen`.
- `Colors`: `src/colors.cpp`.
- `Mesh`: `struct Model`, the rotations, `mesh_model` and `mesh2screen`.
- `ObjLoader`: `load_obj`.
- `Raster`: the z-buffer block of `src/main.cpp`.

`load_obj` moves the middle of the box it has accumulated onto the target point (`src/obj_parser.cpp:172-182`). That is the middle of a bounding box, not the centroid of the vertices, so for a triangle such as `(0,0,0), (2,0,0), (0,2,0)` the centroid does not land on the target. The box also starts from the first vertex before it is scaled (`src/obj_parser.cpp:157-158`; see "## Findings"), so the vertices are centred only when that unscaled vertex lies within the scaled ones, at scale 1 in particular. `ObjLoader.Load` models the code as written; `ObjLoader.LoadCorrected` seeds the box from the scaled first vertex and always centres.

## Model

| member | source | states |
|---|---|---|
| Colors.RGB2Hex | src/colors.cpp:1-3 | `(r << 16) + (g << 8) + b` is `r*65536 + g*256 + b`; for three bytes it is a 24-bit value from which each channel reads back |
| Colors.UnpackBytes | src/colors.cpp:1-3 | red, green and blue are recovered from a packed byte triple by division and remainder |
| Colors.RGB2HexInjective | src/colors.cpp:1-3 | distinct byte triples pack to distinct colours |
| Colors.Color2Hex | src/colors.cpp:11-13 | packing a `Color` record agrees with `RGB2Hex` on its channels |
| Geometry.Trunc | src/geometry.cpp:142-144 | the `(int)` conversion lands within one unit of its argument, on the side of zero |
| Geometry.Point2dOfSeq | src/geometry.cpp:20-24 | the two-element vector constructor; converting back gives the same vector |
| Geometry.Point3dOfSeq | src/geometry.cpp:42-47 | the three-element vector constructor; converting back gives the same vector |
| Geometry.PointSeqRoundTrip | src/geometry.cpp:11-54 | a point turned into a vector and back is the same point |
| Geometry.MakeVector | src/geometry.cpp:63-68 | the vector keeps its endpoints, and adding it to `from` reaches `to` |
| Geometry.MakeVectorTranslate | src/geometry.cpp:63-68 | the components depend only on the displacement: moving both endpoints alike keeps them |
| Geometry.Cross | src/geometry.cpp:78-80 | the cross product of a vector with an equal vector is zero |
| Geometry.Dot | src/geometry.cpp:74-76 | the dot product of a vector with an equal vector is never negative |
| Geometry.CrossDotLaws | src/geometry.cpp:74-80 | cross is antisymmetric and zero on equal vectors; dot is symmetric |
| Geometry.IsPointInside | src/geometry.cpp:95-105 | the three edge functions add up to the orientation, so a triangle clockwise on screen accepts no point |
| Geometry.InsideTranslationInvariant | src/geometry.cpp:95-105 | moving the triangle and the test point together keeps the inside verdict |
| Geometry.InsideRotationInvariant | src/geometry.cpp:95-105 | cycling the vertices keeps the inside verdict |
| Geometry.EdgeAtIsOrientation | src/geometry.cpp:95-105 | each edge function at the opposite vertex equals the triangle's signed doubled area |
| Geometry.VertexInsideIffCounterClockwise | src/geometry.cpp:95-105 | a vertex is accepted as inside exactly when the triangle is counter-clockwise on a y-down screen or degenerate |
| Geometry.DegenerateTriangleContainsAll | src/geometry.cpp:95-105 | a triangle collapsed to one point accepts every point |
| Geometry.Rot2Inverse | src/geometry.cpp:125-126 | with `cos² + sin² = 1`, rotating by the opposite angle undoes the plane rotation |
| Geometry.RotateY | src/geometry.cpp:120-139 | `Triangle3d::rotateY` keeps every y; rotating back by the opposite angle restores the triangle |
| Geometry.AsPoints | src/geometry.cpp:152-154 | `as_points` lists exactly the three vertices, and rebuilding from them gives the triangle |
| Geometry.SubAreas | src/geometry.cpp:142-147 | the three sub-triangle areas are non-negative |
| Geometry.WeightedMean | src/geometry.cpp:149 | with non-negative weights of positive sum, the mean lies between the smallest and largest depth |
| Geometry.WeightedMeanSingle | src/geometry.cpp:149 | all the weight on one vertex gives exactly that vertex's depth |
| Geometry.GetDepth | src/geometry.cpp:141-150 | where the total area is positive, the interpolated depth lies within the triangle's z range |
| Geometry.GetDepthAtVertices | src/geometry.cpp:141-150 | at the projection of each vertex of a non-degenerate projected triangle, the area is positive and the depth is that vertex's z |
| Bounds.FoldMin | src/obj_parser.cpp:163-165 | the running `std::min` is at most the seed and every coordinate, and equals the seed or one of them |
| Bounds.FoldMax | src/obj_parser.cpp:166-168 | the running `std::max` is at least the seed and every coordinate, and equals the seed or one of them |
| Bounds.FoldBox | src/obj_parser.cpp:157-168 | the other axes keep their entries; on the chosen axes the box only grows, holds every point, and each entry is the starting entry or some point's coordinate |
| Bounds.Midpoint | src/obj_parser.cpp:172-174 | on every axis the centre is as far from the low entry as from the high one, and lies within the box |
| Sorting.Insert | src/obj_parser.cpp:231-235 | insertion adds one element, keeps the others, and keeps a descending list descending |
| Sorting.SortDesc | src/obj_parser.cpp:231-235 | `std::sort` by a descending key: a permutation of the input, in non-increasing key order |
| Sorting.SortDescOfSorted | src/obj_parser.cpp:231-235 | sorting an already sorted list leaves it unchanged |
| Sorting.SumPermutation | src/obj_parser.cpp:216-217 | a sum does not depend on the order of its terms |
| Mesh.MeshModel | src/obj_parser.cpp:195-206 | one triangle per face, its corners the indexed vertices in order; vertices emptied; nothing else changes |
| Mesh.MeshModelVertices | src/obj_parser.cpp:195-206 | every triangle vertex is a loaded vertex, and every vertex a face names is in that face's triangle |
| Mesh.RotatePoint | src/obj_parser.cpp:29-37 | the coordinate on the rotation axis is kept |
| Mesh.RotatePointRigid | src/obj_parser.cpp:29-37 | with `cos² + sin² = 1`, the squared distance from the rotation axis through the offset is kept |
| Mesh.RotatePointInverse | src/obj_parser.cpp:31-37 | rotating about the offset by the opposite angle restores the point |
| Mesh.FoldMinTriangles | src/obj_parser.cpp:58-73 | the running minimum over all triangle vertices bounds each of them, and is the seed or one of their coordinates |
| Mesh.FoldMaxTriangles | src/obj_parser.cpp:58-73 | the running maximum over all triangle vertices, likewise |
| Mesh.RotatedBox | src/obj_parser.cpp:53-81 | the entries on the rotation axis are kept; on every other axis the box brackets 0.0 and every triangle vertex, and each entry is 0.0 or some vertex coordinate |
| Mesh.Rotate | src/obj_parser.cpp:24-110 | every vertex is rotated about the offset. The axis' box entries are kept. The other entries bracket 0.0 and every new vertex, and each is 0.0 or some vertex coordinate. Nothing else changes |
| Mesh.RotateInverse | src/obj_parser.cpp:24-110 | rotating back by the opposite angle restores every triangle |
| Mesh.RotateX | src/obj_parser.cpp:24-52 | x and the x entries of the box stay; the y and z entries hold 0.0 and every vertex |
| Mesh.RotateY | src/obj_parser.cpp:53-81 | y and the y entries of the box stay; the x and z entries hold 0.0 and every vertex |
| Mesh.RotateZ | src/obj_parser.cpp:82-110 | z and the z entries of the box stay; the x and y entries hold 0.0 and every vertex |
| Mesh.TriangleRotateYAboutOrigin | src/geometry.cpp:120-139 | `Triangle3d::rotateY` is the model rotation about Y through the origin |
| Mesh.Wind | src/obj_parser.cpp:210-230 | the three vertices, each with its own z, reordered by non-increasing angle about the centroid |
| Mesh.Wound | src/obj_parser.cpp:210-230 | one triangle per input triangle, in place; each is in non-increasing angle order, has the same centroid and average depth, and is left unchanged by winding again (under the stable order for equal angle keys) |
| Mesh.MeshToScreen | src/obj_parser.cpp:208-237 | the triangles become a permutation of the wound triangles, ordered back to front by average z; nothing else changes |
| Mesh.WindKeepsCentroidAndDepth | src/obj_parser.cpp:216-233 | winding keeps the centroid and the average depth the second sort uses |
| Mesh.WindWithinOn | src/obj_parser.cpp:210-230 | winding keeps a triangle inside any box that held it |
| Mesh.ScreenTriangleOrigin | src/obj_parser.cpp:208-237 | each screen triangle is the wound form of some input triangle |
| Mesh.MeshToScreenWithinOn | src/obj_parser.cpp:208-237 | a box that held every triangle on an axis still holds every screen triangle |
| Mesh.MeshToScreenPermutes | src/obj_parser.cpp:208-237 | each screen triangle has the vertices and the average depth of some input triangle |
| Mesh.WindSorted | src/obj_parser.cpp:219-223 | the wound vertices are in non-increasing angle order |
| Mesh.WindOfSorted | src/obj_parser.cpp:219-223 | a triangle already in winding order is left unchanged, with equal angle keys kept in place (stable order) |
| Mesh.WindIdempotent | src/obj_parser.cpp:210-230 | winding twice is winding once, given the stable order for equal angle keys |
| Mesh.ScreenTrianglesWound | src/obj_parser.cpp:208-237 | the screen triangles are already wound, given the stable order for equal angle keys |
| Mesh.MeshToScreenIdempotent | src/obj_parser.cpp:208-237 | a second `mesh2screen` with no rotation in between changes nothing |
| Text.FirstIndex | src/obj_parser.cpp:117 | the position of the first delimiter, or the length; no delimiter before it |
| Text.Split | src/obj_parser.cpp:113-121 | no token holds the delimiter, and there are no tokens exactly when the input is empty |
| Text.JoinSplit | src/obj_parser.cpp:113-121 | joining the tokens with the delimiter gives back the input, except a final delimiter |
| Text.SplitJoin | src/obj_parser.cpp:113-121 | delimiter-free tokens with a non-empty last one split back into themselves |
| ObjLoader.FaceIndex | src/obj_parser.cpp:145-150 | only the part before the first `/` is read; success gives one less than the number it holds, and failure is a number error on exactly that part |
| ObjLoader.FaceIndexWhole | src/obj_parser.cpp:145-150 | a face field without `/` is read whole: one less than its number, or a number error on it |
| ObjLoader.FaceIndexIgnoresTail | src/obj_parser.cpp:145-150 | in a face field `v/vt/vn` only the part before the first `/` matters |
| ObjLoader.ParseRecord | src/obj_parser.cpp:132-152 | a line reads iff it has every token the code reads and every number converts. Tokens are read left to right, so a number error on an earlier field wins over a missing later one. The record kind follows the first token |
| ObjLoader.NumberErrorBeforeMissingField | src/obj_parser.cpp:135-139 | `v abc` is a number error on `abc`, not a missing-token case |
| ObjLoader.NumberErrorBeforeEmptyField | src/obj_parser.cpp:145-150 | `f x  2` is a number error on `x`, although its third field is empty |
| ObjLoader.FaceIndexOfShown | src/obj_parser.cpp:145-150 | a printed index `n` reads back as the 0-based index `n - 1` |
| ObjLoader.ParseRecordContents | src/obj_parser.cpp:133-151 | a `v` line that reads yields the vertex of its first three coordinates, an `o` line the name in its second token, an `f` line the face of the indices in its first three fields, however many tokens follow |
| ObjLoader.QuadKeepsFirstThree | src/obj_parser.cpp:144-151 | the quad `f 1 2 3 4` yields the face `(0, 1, 2)`; its fourth corner is never read |
| ObjLoader.ParseFormat | src/obj_parser.cpp:132-152 | reading a written `v`, `o`, `f` or other record gives the record back |
| ObjLoader.ParseFrom | src/obj_parser.cpp:131-153 | the loop only appends vertices and faces; an error is the error of one of the lines |
| ObjLoader.OtherLineSkipped | src/obj_parser.cpp:131-153 | a non-empty line that is not `v`, `o` or `f` does not change the loop's state |
| ObjLoader.ParseFromConcat | src/obj_parser.cpp:131-153 | reading two blocks of lines is reading the first, then the second from where it stopped |
| ObjLoader.ParseFromErrors | src/obj_parser.cpp:131-153 | the loop succeeds iff every line reads; otherwise it reports the first failing line's error |
| ObjLoader.Apply | src/obj_parser.cpp:133-151 | one pass of the loop body: a `v` record pushes its vertex, an `f` record its face, an `o` record sets the name; nothing else changes |
| ObjLoader.ApplyCounts | src/obj_parser.cpp:133-152 | a `v` line appends one vertex and an `f` line one face, after those already read |
| ObjLoader.ParseFromCounts | src/obj_parser.cpp:131-153 | one vertex per `v` line and one face per `f` line, appended after those already read |
| ObjLoader.ParseFromContents | src/obj_parser.cpp:131-153 | the loop appends exactly the vertices of the `v` lines and the faces of the `f` lines, in file order |
| ObjLoader.ApplyName | src/obj_parser.cpp:140-142 | an `o` line sets the name to the token after `o`; other lines keep it |
| ObjLoader.ParseFromName | src/obj_parser.cpp:140-142 | the name is that of the last `o` line, or the earlier name when there is none |
| ObjLoader.Difference | src/obj_parser.cpp:175-177 | the offset moves the box centre exactly onto the target |
| ObjLoader.Extent | src/obj_parser.cpp:157-168 | the box holds every point on every axis |
| ObjLoader.ExtentAttained | src/obj_parser.cpp:157-168 | each entry of the box is some point's coordinate, so it is the smallest such box |
| ObjLoader.Centre | src/obj_parser.cpp:172-192 | the model centre is the box midpoint; every vertex moves by the offset, which carries the centre to the target |
| ObjLoader.NormaliseAsWritten | src/obj_parser.cpp:156-192 | the code as written: each vertex is scaled and moved by the offset. The stored box is the extent of the scaled vertices and the UNSCALED first vertex, and its middle is moved onto the target |
| ObjLoader.NormaliseAsWrittenCentres | src/obj_parser.cpp:156-192 | the stored box is the scaled vertices' extent iff the unscaled first vertex lies within it; then the code agrees with the corrected form and centres the vertices |
| ObjLoader.UnitScaleSeedWithin | src/obj_parser.cpp:156-168 | at scale 1 the first vertex lies within the vertices' extent |
| ObjLoader.AsWrittenMissesCenter | src/obj_parser.cpp:157-158 | one vertex (1,1,1) at scale 2: the box runs from the unscaled seed (1,1,1) to (2,2,2), and the vertex misses the target |
| ObjLoader.Normalise | src/obj_parser.cpp:156-192 | with the fold seeded by the scaled first vertex, the stored box is exactly the extent of the scaled vertices |
| ObjLoader.NormaliseAtUnitScale | src/obj_parser.cpp:156-168 | at scale 1 the code as written and the corrected form agree |
| ObjLoader.ExtentTranslate | src/obj_parser.cpp:178-182 | translating all points translates the middle of their box by the same amount |
| ObjLoader.NormaliseCentres | src/obj_parser.cpp:156-192 | the middle of the loaded vertices' bounding box is exactly the target centre |
| ObjLoader.ParseFacts | src/obj_parser.cpp:129-154 | from the start of a file: success iff every line reads, and then the vertices and faces are those of the `v` and `f` lines in file order, with their counts and the name |
| ObjLoader.LoadLines | src/obj_parser.cpp:123-193 | success iff every line reads, and any error is a number error. On success: vertex `i` is the vertex of the `i`-th `v` line, scaled and moved by the offset; the faces are those of the `f` lines in file order; then the last `o` name, no triangles, and the stored box's middle moved onto the target. The vertices are centred when the unscaled first vertex lies within the scaled ones, and always at scale 1 |
| ObjLoader.Finish | src/obj_parser.cpp:156-192 | an exception passes through; otherwise each read vertex is scaled and moved by the offset, in order, with faces and name kept, the stored box's middle on the target, and the vertices centred when the unscaled first vertex lies within the scaled ones |
| ObjLoader.FromState | src/obj_parser.cpp:156-192 | the model built from the loop's state keeps its counts, faces and name, and vertex `i` is read vertex `i` scaled and moved by the offset. Its box spans the scaled vertices and the unscaled first vertex, and the box's middle lands on the target. The box is the scaled extent iff that vertex lies within it, and then the vertices are centred |
| ObjLoader.Load | src/obj_parser.cpp:123-193 | the file text loads iff each of its lines reads. Then there is at least one vertex, the stored box's middle lands on the target, and at scale 1 the vertices are centred on it |
| ObjLoader.FromStateCorrected | src/obj_parser.cpp:156-192 | with the box seeded from the scaled first vertex, the box is the scaled extent and the vertices are centred on the target |
| ObjLoader.LoadLinesCorrected | src/obj_parser.cpp:123-193 | the corrected loader succeeds iff every line reads; then it has one vertex per `v` line and centres the vertices on the target |
| ObjLoader.LoadCorrected | src/obj_parser.cpp:123-193 | on a file's text, the corrected loader succeeds iff every line reads and then centres the vertices on the target |
| ObjLoader.LoadCorrectedAgrees | src/obj_parser.cpp:156-168 | the corrected loader fails with the same error as `load_obj`, and at scale 1 returns the same model |
| Raster.Sample | src/main.cpp:52-53 | a depth is offered only at a visited pixel the inside test accepts, and lies in the triangle's z range |
| Raster.Step | src/main.cpp:54-58 | a depth test leaves the cell or the offered depth, whichever is nearer; a missing depth leaves the cell |
| Raster.Resolve | src/main.cpp:54-58 | after a run of depth tests from infinity, the cell is infinity iff no test offered a depth, and otherwise one of the offered depths |
| Raster.ResolveIsMinimum | src/main.cpp:54-58 | after a run of depth tests the cell is infinity iff none offered a depth; otherwise it is the smallest offered |
| Raster.DepthAfterSnoc | src/main.cpp:40-58 | drawing one more triangle is one more depth test at every pixel |
| Raster.DepthAfter | src/main.cpp:39-64 | a cell is infinity iff no triangle offers a depth there, and otherwise holds a depth some triangle offers |
| Raster.DepthAfterIsMinimum | src/main.cpp:39-64 | after all triangles a cell is infinity iff none offers a depth there; otherwise it holds the smallest depth offered |
| Raster.DepthAfterOrderIndependent | src/main.cpp:39-64 | drawing the same triangles in any order leaves the same z-buffer |
| Raster.DepthAfterBelow | src/main.cpp:39-64 | a permutation of the triangles leaves each cell at least as near |
| Raster.DepthAfterLastTriangle | src/main.cpp:50-58 | a triangle changes only cells it covers, and never makes one farther |
| Raster.RedIntensity | src/main.cpp:59 | the nearest depth `zmin` gives full brightness 240 and the farthest `zmax` gives 0 |
| Raster.RedIntensityBounds | src/main.cpp:59 | a depth within the box gives an intensity from 0 at `zmax` to 240 at `zmin` |
| Raster.RedIntensityMonotone | src/main.cpp:59 | a nearer depth is at least as bright |
| Raster.Shade | src/main.cpp:54-60 | a pixel is painted iff its cell holds a depth; within the z range the colour is a pure red whose red channel is the intensity |
| Raster.PaintedPixelsAreRed | src/main.cpp:39-64 | when the z range holds every triangle, each painted pixel is a pure red of at most 240 |
| Raster.BoxedPixelsAreRed | src/main.cpp:59-60 | shading with a box's z entries paints the triangles it holds in pure red |
| Raster.ScreenPixelsAreRed | src/main.cpp:37-60 | after `mesh2screen` of a model whose box holds its triangles on z, each pixel drawn is pure red |
| Raster.FrameAfterRotateY | src/main.cpp:35-60 | after `rotateY` and `mesh2screen`, each pixel drawn is pure red, and the z-buffer is as if the triangles were drawn unsorted |
| Raster.Grid | src/main.cpp:39 | a 480-row, 640-column grid with every cell set to the given value |
| Raster.Put | src/main.cpp:55 | one cell is written; every other cell keeps its value |
| Raster.DrawFrame | src/main.cpp:39-64 | the loops leave, at every pixel, the depth left by drawing the triangles in order, and the image holds that depth's shade |
| Raster.DrawTriangle | src/main.cpp:40-63 | drawing one triangle over the buffer of the triangles before it gives the buffer of both |
| Raster.DrawColumn | src/main.cpp:51-62 | the inner loop gives one column of the bounding box its depth tests and keeps the image shaded |

## Left out

- Display and frame loop: the X11 window, `drawpixel` (modelled as writing into an image grid), clearing to white, `XCopyArea` and the endless frame loop. These are I/O; one frame of the loop is modelled (`Raster.DrawFrame`, `Raster.FrameAfterRotateY`).
- `getRandomNumber`: randomness, and never called.
- File I/O: `load_obj` takes the file's text instead of a path. A file that does not open reads as no lines.
- `std::stod` and `std::stoi` are parameters, with `None` for their exceptions. Their number syntax is not modelled.
- Floating point is idealised as `real`. This covers the `float` centroid and average depth in `mesh2screen`, the `float` z-buffer cells and NaN. The one NaN that matters, `getDepth` at total area 0, is modelled as "no sample".
- `cos`, `sin`, `atan2` and `M_PI` are not modelled. Rotations take the cosine and sine as reals. `atan2` is an arbitrary function `angle`.
- `Vector::magnitude`: it uses `sqrt`, and nothing in the core calls it.
- Machine integers are unbounded. The model has no overflow of `stoi(...) - 1`, of `RGB2Hex` shifts or of the `int` casts.
- Mesh.Wind: does not state that the result is counter-clockwise on a y-down screen (orientation at most 0), the order the inside test accepts. That depends on the values of `atan2`, which are not modelled. Only the descending angle order is proved.
- Sorting.SortDesc: `std::sort` leaves the order of equal keys unspecified. The model fixes one order: a stable insertion sort.
- Sorting.SortDescOfSorted: holds for the stable order the model fixes. `std::sort` is not stable, so for a list with equal keys the source does not promise to leave it unchanged.
- Mesh.MeshToScreenIdempotent: relies on the same stable order in both sorts: for triangles of equal average depth, and, through `Mesh.ScreenTrianglesWound`, for vertices of equal angle key. With `std::sort` a second `mesh2screen` may reorder either.
- Mesh.Wound: its clause that winding again leaves each triangle unchanged holds only for the stable order the model fixes for the vertex angle sort. `std::sort` may reorder vertices with equal angle keys. That happens on real input: an edge-on projected triangle (0,0), (3,0), (6,0) has its centroid at (3,0), so its keys are pi, 0, 0.
- Mesh.WindOfSorted: holds only for the stable order the model fixes. For a triangle with two equal angle keys, `std::sort` may swap those two vertices.
- Mesh.WindIdempotent: rests on `Mesh.WindOfSorted`, so it holds only for the stable order of equal angle keys.
- Mesh.ScreenTrianglesWound: rests on `Mesh.WindIdempotent`, so it holds only for the stable order of equal angle keys.
- ObjLoader.Load: requires `LoadDefined`. No line read before the loop ends or throws may make the code read a token that is not there: an empty line, a `v`, `o` or `f` line that runs out of fields before a number fails to convert, or an empty `f` field. At least one vertex must be read. Those cases are undefined behaviour in the source.
- ObjLoader.Load: centres the vertices on the target only at scale 1 or when the unscaled first vertex lies within the scaled ones, because that is all the code achieves.
- ObjLoader.ParseRecordContents: an `f` line with more than three fields, such as a quad, keeps only the first three, as the source does; polygons are not triangulated. An `o` name is only the first token after `o`.
- Mesh.MeshModel: requires every face index to address a vertex. An index out of range is undefined behaviour in the source.
- Raster.DrawFrame: requires `zmin != zmax`, because the intensity divides by their difference. It also requires every accepted pixel to lie in the frame, because `zbuffer[h][w]` is not range-checked.
- Raster.FrameAfterRotateY: requires the z entries of the rotated box to differ. It does not cover the `rotateZ(M_PI)` of the setup, which leaves the z entries as they were.

## Findings

| source | as written | input that shows it | evidently intended | confidence | as-written member | corrected member |
|---|---|---|---|---|---|---|
| src/obj_parser.cpp:157-158 | `vmin` and `vmax` start from `vert[0]` before it is scaled, while the loop folds in the scaled vertices | one vertex `(1,1,1)`, scale 2, target the origin: the box is `(1,1,1)`–`(2,2,2)` and the vertex lands at `(0.5,0.5,0.5)`, not at the target | start the fold from the scaled first vertex, so the box is the extent of the scaled vertices and their middle lands on the target | not executed | ObjLoader.NormaliseAsWritten, ObjLoader.AsWrittenMissesCenter, ObjLoader.Load | ObjLoader.Normalise, ObjLoader.NormaliseCentres, ObjLoader.LoadCorrected |
