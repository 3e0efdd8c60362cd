# Perpetual skyline — a Dafny model

This project models the skyline of `src/js/perpetual.js`: an endless wireframe city that scrolls
sideways across the page.

- `addBuildings` lays out rows of boxes for the viewport. A row starts at `-W/4`; while the anchor
  is left of `W/4` it draws a width, a height, a depth and a gap from `Math.random`, builds a
  building at the anchor, and moves the anchor on by the width plus the gap. There are
  `ceil(H / 200)` rows, 10 units apart, starting at depth `-H/30`.
- A `Building` is nine meshes sharing the origin `(x, h/2, z)`, in creation order:
  - six face meshes: front, back, left, right, top, bottom;
  - a translucent solid box;
  - an invisible wireframe box;
  - a point cloud.
- Each face is sampled on a `ceil(1.2·extent)` grid (`createFacePoints`). The face mesh is built by
  `createMeshFromPoints`: it drops `z`, triangulates, and lifts every triangle back to the 3D
  sample points. The point cloud holds the samples of all six faces.
- Every animation frame, every building pans left by `0.03` (`Building.pan`). A mesh that ends
  left of `-100` jumps right by 200. One that ends right of `100` is removed from the scene and
  from the building. Any other mesh stays where it is.
- `clearBuildings` removes every building's meshes from the scene and empties the array. It
  leaves every other scene object alone, such as the ambient light added at line 202.
- `clampCameraPosition` clamps each camera coordinate into its own interval.

Two facts about how the file wires these together:
- `addBuildings` and `animate` are each started twice: once in the font loader's callback
  (lines 253 and 255) and once at the end of `perpetual` (lines 512 and 513). So two
  `requestAnimationFrame` chains run, and each display refresh pans every building twice by
  `0.03`. `City.Frames` counts calls of `animate`, whichever chain makes them.
- `const controls` at line 235 declares a new local that shadows the outer `controls` of line 9,
  which stays `undefined`. So `if (controls)` at line 344 is always false, and `animate` never
  calls `clampCameraPosition`. The model states what `clampCameraPosition` would do if called.

Modules, one file each:

| module | what it holds |
|---|---|
| `Wrappers` | `Option` |
| `Sampling` | face grids, the sampling loops, flat `x, y, z` point lists |
| `FaceMesh` | projection to the plane and the lift step of the face mesh |
| `Buildings` | meshes, the constructor, the point cloud, mesh ids |
| `Recycling` | one building's pan step and the recycling band |
| `Layout` | the row loop and the city loop of `addBuildings`, as placements |
| `City` | the scene and the buildings array; clearing, adding, animating |
| `Camera` | camera clamping |

Modelling choices:
- Coordinates are exact reals.
- The scene is the set of ids of the objects it holds. A new mesh takes the id `nextId`, which
  then advances; this stands in for object identity in the page. The invariant `City.Issued`
  says that every id in the scene was handed out before `nextId`, so new ids are fresh.
- `Math.random` is a parameter `rand`: the `n`-th draw is `rand(n)`, and every draw lies in `[0, 1)`.
- The Delaunay routine is a parameter `tri`. It must return index triples into the list it is given.
- The viewport size `W × H` is a parameter.

## Model

| member | source | states |
|---|---|---|
| `Sampling.Ceil` | src/js/perpetual.js:121-132 | `Math.ceil`: the result is the least integer not below its argument |
| `Sampling.GridSize` | src/js/perpetual.js:115-134 | each grid count is the ceiling of 1.2 times the extent the face sweeps on that axis (width and height for front/back, depth and height for left/right, width and depth for top/bottom); it is at least 1 when both extents are positive |
| `Sampling.SweepEndpoints` | src/js/perpetual.js:142-169 | grid index 0 lands on `-extent/2` and index `grid` on `+extent/2` exactly |
| `Sampling.SweepBounds` | src/js/perpetual.js:142-169 | every grid index from 0 to `grid` lands inside `[-extent/2, extent/2]`, and coordinates strictly increase with the index |
| `Sampling.PointAt` | src/js/perpetual.js:140-171 | the `switch` of the sampling loop: the grid point `(i, j)` lies on the face's plane, and its two swept coordinates are `i·extent/grid − extent/2` along each axis the face sweeps (line 142 and its five siblings) |
| `Sampling.PointAtOnFace` | src/js/perpetual.js:140-171 | every grid point has the face's fixed coordinate exactly and its two swept coordinates inside the face's rectangle |
| `Sampling.CornersExact` | src/js/perpetual.js:137-171 | the first and last grid points are the two opposite corners of the face |
| `Sampling.FlattenPointOf` | src/js/perpetual.js:172 | pushing `x, y, z` per point gives a flat list whose `k`-th triple is the `k`-th point |
| `Sampling.UnflattenRoundTrip` | src/js/perpetual.js:172 | reading a flat list of whole triples as points and pushing them back gives the same list |
| `Sampling.RowsLayout` | src/js/perpetual.js:137-174 | with the inner loop over `j`, point `(i, j)` is the `(i·(gridY+1) + j)`-th point emitted |
| `Sampling.FacePointsCount` | src/js/perpetual.js:137-138 | a face yields `(gridX + 1)·(gridY + 1)` points, three numbers each |
| `Sampling.FacePointsOnFace` | src/js/perpetual.js:137-173 | every point a face yields lies on that face of the box |
| `Sampling.FacePointsOrder` | src/js/perpetual.js:137-173 | the face's list is row-major: entry `i·(gridY+1) + j` is the grid point `(i, j)` |
| `Sampling.SampleRow` | src/js/perpetual.js:138-173 | the inner loop appends exactly row `i` of the grid to the points emitted so far |
| `Sampling.CreateFacePoints` | src/js/perpetual.js:111-176 | the two nested loops produce the face's flat list; the lemmas above say what is in it |
| `FaceMesh.Project` | src/js/perpetual.js:305-308 | the triangulation input has one 2D point per sample, its `x` and `y` |
| `FaceMesh.Lift` | src/js/perpetual.js:315-321 | triangle corner `t` of the output is the sample point that index `t` names |
| `FaceMesh.LiftIdentity` | src/js/perpetual.js:315-321 | lifting with the indices `0, 1, 2, …` gives back the sample list unchanged |
| `FaceMesh.MeshVertices` | src/js/perpetual.js:304-321 | a face mesh has whole triangles, and each vertex is one of the face's sample points |
| `FaceMesh.MeshOnFace` | src/js/perpetual.js:304-321 | every vertex of a face mesh lies on that face |
| `FaceMesh.DegenerateFacesProjectCollinear` | src/js/perpetual.js:305-308 | four of the six faces project onto a single line, so their triangulation input is collinear: left and right onto `x = ∓w/2`, top and bottom onto `y = ±h/2` |
| `Buildings.GeometryOf` | src/js/perpetual.js:23-77 | each primitive gets its own kind of geometry: a face mesh gets whole triangles, the solid and wireframe boxes get the box `w × h × d` (lines 38-60), the point cloud gets whole `x, y, z` triples (lines 76-77) |
| `Buildings.CloudPoints` | src/js/perpetual.js:67-74 | the point cloud's data is whole `x, y, z` triples |
| `Buildings.NewBuilding` | src/js/perpetual.js:22-93 | a new building keeps its extents and owns nine meshes: six faces, solid, wireframe, point cloud, in that order, with consecutive fresh ids, all at `(x, h/2, z)`, so each stands on the ground |
| `Buildings.NewBuildingIds` | src/js/perpetual.js:28-93 | the nine meshes own exactly the nine ids they were given, all distinct |
| `Buildings.FaceMeshOnFace` | src/js/perpetual.js:28-34 | each of the six face meshes is made of whole triangles lying on its face |
| `Buildings.CloudOnSurface` | src/js/perpetual.js:67-77 | every point of the point cloud lies on the surface of the box |
| `Buildings.CloudCount` | src/js/perpetual.js:67-74 | the point cloud holds the grid points of all six faces, no more and no fewer |
| `Recycling.Step` | src/js/perpetual.js:179-192 | a mesh is dropped exactly when `x − delta > 100`; a kept mesh changes only in `x`, which is `x − delta + 200` exactly when `x − delta < −100` and `x − delta` otherwise |
| `Recycling.Survivors` | src/js/perpetual.js:179-193 | the indices of the kept meshes, increasing: index `i` is among them exactly when mesh `i` is not dropped |
| `Recycling.PanMeshes` | src/js/perpetual.js:179-193 | the filter never grows the list, and every kept mesh is at or left of 100 |
| `Recycling.PanKeepsSurvivors` | src/js/perpetual.js:179-193 | the filter's result is the stepped survivors, in their original order, one for one |
| `Recycling.PanAllDropped` | src/js/perpetual.js:187-190 | when every mesh is dropped, the building keeps none |
| `Recycling.RemoveDropped` | src/js/perpetual.js:187-189 | the scene loses exactly the ids of the dropped meshes |
| `Recycling.Pan` | src/js/perpetual.js:178-194 | `pan` leaves the building with the filtered meshes and the scene without the dropped ids |
| `Recycling.PanAppend` | src/js/perpetual.js:353 | panning works mesh by mesh, so panning joined lists is joining the panned lists |
| `Recycling.PanIds` | src/js/perpetual.js:179-193 | with distinct ids, the kept meshes carry exactly the old ids minus the dropped ones, still distinct |
| `Recycling.BandPreserved` | src/js/perpetual.js:181-192 | if every mesh is in `[-100, 100]` and `0 ≤ delta ≤ 200`, a step drops nothing, keeps each mesh in its place (same id, same primitive), and leaves all in the band |
| `Recycling.BandPreservedForever` | src/js/perpetual.js:340-353 | once every mesh is in the band, this holds after any number of frames, with no mesh lost |
| `Recycling.FarLeftStaysOutside` | src/js/perpetual.js:184-186 | a mesh that ends more than 300 left of the band is kept but is still left of `-100` after the jump |
| `Recycling.JustRightOfBandKept` | src/js/perpetual.js:187 | a mesh starting in `(100, 100 + delta]` is kept, moved by `-delta` only |
| `Recycling.AnchorBeyondBandDropped` | src/js/perpetual.js:187-190 | a building anchored right of `100 + delta` loses all nine meshes on its first frame, and all nine ids leave the scene |
| `Layout.Width` | src/js/perpetual.js:290 | `minWidth + Math.random() * (maxWidth - minWidth)` from the building's first draw; `Layout.DrawExtents` states its range |
| `Layout.Height` | src/js/perpetual.js:291 | `Math.random() * 50 + 20` from the building's second draw; `Layout.DrawExtents` states its range |
| `Layout.Depth` | src/js/perpetual.js:292 | `minDepth + Math.random() * (maxDepth - minDepth)` from the building's third draw; `Layout.DrawExtents` states its range |
| `Layout.Gap` | src/js/perpetual.js:296 | `minGap + Math.random() * (maxGap - minGap)` from the building's fourth draw; `Layout.GapRange` states its range |
| `Layout.Next` | src/js/perpetual.js:297 | `x += width + gap`; `Layout.Advance` states that the anchor moves right by more than 5 |
| `Layout.DrawExtents` | src/js/perpetual.js:290-292 | drawn widths lie in `[5, 25)`, heights in `[20, 70)`, depths in `[5, 20)`; all are positive |
| `Layout.GapRange` | src/js/perpetual.js:276-296 | the gap lies between 25 and `W/4`, in whichever order those two come, and is positive for a positive width |
| `Layout.Advance` | src/js/perpetual.js:297 | each building moves the anchor right by more than the minimum width, so the row loop ends |
| `Layout.LayFrom` | src/js/perpetual.js:287-298 | the `while (x < xEnd)` loop as a recursive reference from anchor `x`; `Layout.LayStep`, `Layout.LayFromLaid` and `Layout.LaidIsReference` state what it lays |
| `Layout.LayRow` | src/js/perpetual.js:286-298 | the reference row from `xStart`; `Layout.RowLaidUnique` states that it is the only complete row |
| `Layout.LayStep` | src/js/perpetual.js:289-298 | one loop round: the row from an anchor left of `W/4` is the building there, then the row from the next anchor |
| `Layout.LayFromLaid` | src/js/perpetual.js:286-298 | the row the loop lays is complete: anchors chained by width plus gap, four draws per building in order, all anchors left of `W/4`, the one after the last at or past it |
| `Layout.LaidIsReference` | src/js/perpetual.js:286-298 | any complete row from a given anchor and draw is the one the loop lays |
| `Layout.RowLaidUnique` | src/js/perpetual.js:286-298 | a row is complete exactly when it is the row the loop lays |
| `Layout.PlanRow` | src/js/perpetual.js:286-298 | the inner `while` loop lays the complete row, using four draws per building |
| `Layout.RowAnchors` | src/js/perpetual.js:287-297 | the anchors of a row lie in `[-W/4, W/4)` and increase by more than 5 each time |
| `Layout.NeighboursApartWhenWide` | src/js/perpetual.js:272-297 | when `W ≥ 100`, neighbouring boxes in a row do not overlap |
| `Layout.RowCount` | src/js/perpetual.js:269 | the number of rows is `ceil(H / 200)`, or none when `H ≤ 0` |
| `Layout.RowZ` | src/js/perpetual.js:279 | the `zPositions` entry for row `k`; `Layout.RowDepths` states the recurrence |
| `Layout.RowDepths` | src/js/perpetual.js:279 | the first row is at depth `-H/30`, and each further row is 10 behind the one before |
| `Layout.PlanCity` | src/js/perpetual.js:279-299 | one complete row per row depth; each row takes its draws from where the previous row stopped |
| `Layout.ConcatAnchors` | src/js/perpetual.js:265-298 | every building of the city is anchored in `[-W/4, W/4)` |
| `City.RemoveMeshes` | src/js/perpetual.js:492-494 | removing a building's meshes one by one takes exactly their ids out of the scene |
| `City.RemoveBuildings` | src/js/perpetual.js:491-495 | the nested loop takes out of the scene exactly the ids the buildings own |
| `City.ClearBuildings` | src/js/perpetual.js:490-497 | the scene loses exactly the buildings' meshes, and the array is emptied |
| `City.ClearIdempotent` | src/js/perpetual.js:490-497 | clearing twice is clearing once, and clearing a city whose scene ids were all handed out leaves it well formed |
| `City.Construct` | src/js/perpetual.js:289-294 | placement `k` becomes a building with its anchor, extents and row, taking the fresh ids from `firstId + 9k` |
| `City.ConstructIds` | src/js/perpetual.js:289-294 | mesh `a` of the new buildings has id `firstId + a` |
| `City.BuiltIds` | src/js/perpetual.js:289-294 | the new buildings own exactly the ids `firstId .. firstId + 9n − 1`, all distinct |
| `City.Populate` | src/js/perpetual.js:282-299 | after clearing and building: the old meshes are gone, everything else in the scene stays, and the new buildings own distinct ids, all in the scene; when every id in the scene was handed out before, the new ids were not in the scene and the scene stays that way |
| `City.PopulateInBand` | src/js/perpetual.js:286-294 | buildings anchored inside `[-100, 100]` have every mesh inside it |
| `City.AddBuildings` | src/js/perpetual.js:259-300 | `addBuildings` lays complete rows and builds them in row order, four draws per building; for a viewport at most 400 wide every mesh starts in the band |
| `City.AddBuildingsWellFormed` | src/js/perpetual.js:259-300 | after `addBuildings` the city is well formed, whatever buildings it had, as long as every id in its scene was handed out |
| `City.OthersSurvive` | src/js/perpetual.js:490-497 | a scene object no building owns, such as the ambient light, is still in the scene after `addBuildings`, and no new building owns it, so a later `clearBuildings` keeps it too |
| `City.PanAll` | src/js/perpetual.js:353 | each building pans in turn: the meshes are panned and the scene loses exactly the dropped ids |
| `City.Frame` | src/js/perpetual.js:352-353 | one frame: the scene only shrinks, by the dropped ids; the buildings' meshes are the panned meshes |
| `City.FrameWellFormed` | src/js/perpetual.js:352-353 | a frame keeps the city well formed |
| `City.FrameInBand` | src/js/perpetual.js:352-353 | once every mesh is in the band, a frame removes nothing and leaves every mesh in the band |
| `City.Frames` | src/js/perpetual.js:340-353 | `n` calls of `animate`; `City.FramesShrink` and `City.AnimateKeepsBand` state what they keep |
| `City.FrameFollows` | src/js/perpetual.js:352-353 | one frame hands out no id, only shrinks the scene, keeps every building in the array and keeps a well-formed city well formed |
| `City.FramesShrink` | src/js/perpetual.js:340-353 | the same holds for any number of frames |
| `City.AnimateStep` | src/js/perpetual.js:352-353 | one frame at speed 0.03 of a well-formed city in the band keeps it well formed and in the band, removes no mesh and leaves the scene unchanged |
| `City.AnimateKeepsBand` | src/js/perpetual.js:340-353 | from a well-formed city in the band, any number of frames at speed 0.03 keeps it well formed and in the band, with the same scene |
| `Camera.Clamp` | src/js/perpetual.js:505-507 | `Math.max(lo, Math.min(hi, v))` lies in `[lo, hi]`, is `v` when `v` is inside, and is the nearer end otherwise |
| `Camera.ClampPosition` | src/js/perpetual.js:499-508 | the clamped camera is in the allowed box, and a camera already inside does not move |
| `Camera.ClampIdempotent` | src/js/perpetual.js:499-508 | clamping twice is clamping once |
| `Camera.ClampNearest` | src/js/perpetual.js:499-508 | on each axis, the clamped coordinate is the one in the box closest to the original |

### What the recycling band guarantees

`pan` keeps every mesh inside `[-100, 100]` only if the mesh is already inside the band:
- A viewport wider than 1200 puts anchors left of `-300`. Those meshes jump by 200 and are still
  left of the band (`Recycling.FarLeftStaysOutside`).
- A viewport wider than 400 can put anchors in `(100, W/4)`. Those further right than
  `100 + delta` lose every mesh on the first frame (`Recycling.AnchorBeyondBandDropped`).
- For a viewport at most 400 wide every mesh starts in the band and stays there for any number
  of frames (`City.AddBuildings`, `City.AnimateKeepsBand`).
- The drop test is on the position after the step. A mesh whose `x` before the step lies in
  `(100, 100 + delta]` is kept (`Recycling.JustRightOfBandKept`).

## Left out

- Rendering through three.js is not modelled: materials, colours, `BoxGeometry`, `BufferGeometry`,
  the renderer, the lights, `setupThreeJS` and `zoomOrthographicCamera`. A mesh is its id, its
  primitive and its position; `GeometryOf` records each primitive's geometry data.
- The Delaunay triangulation (`d3-delaunay`) is foreign code. It is the parameter `tri`, and the model
  asks only that it return index triples into its input. What it returns for degenerate input is
  not modelled. Four faces give such input: left, right, top and bottom project onto a line,
  with points repeated.
- `Math.random`, `window.innerWidth` and `window.innerHeight` are the parameters `rand`, `W` and
  `H`.
- Floating point is not modelled: coordinates are exact reals, with no IEEE rounding in the
  sweep and no `Float32BufferAttribute` conversion. With rounding, the last grid point of a face
  need not land exactly on its edge.
- `Sampling.CreateFacePoints` requires both extents a face sweeps to be positive. With a zero
  extent the code divides zero by zero. With a negative extent of at most `-5/6` the grid count
  is at most `-1`, and the code returns an empty list. `addBuildings` never produces either kind
  of building.
- Text is not modelled: font loading, `addTextSprites`, `createTextMesh`, `panTextEntities`,
  `clearTextEntities` and `initializeCharGeometries`.
- The double start of `addBuildings` and `animate` (lines 253-255 and 512-513) is not modelled
  beyond counting frames; the model has no clock.
- The camera's start position with `getRandomValue` is not modelled. Neither are
  `MapControls.update` (the camera position is an input to clamping) nor a NaN coordinate.
- The `requestAnimationFrame` loop is `City.Frames`, a given number of frames. `onWindowResize`
  is not modelled beyond the `clearBuildings` and `addBuildings` it calls.
- `src/js/primitives.js` is not part of this model.
