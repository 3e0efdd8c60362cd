/**
 Building assembly: one building is nine renderable meshes that share one origin.

 In constructor order they are the six face meshes (front, back, left, right,
 top, bottom), a translucent solid box, an invisible wireframe box and a point
 cloud holding every sample point of the six faces. The scene graph is modelled
 only by the ids of the meshes it holds.
 */
module Buildings {
  import opened Sampling
  import opened FaceMesh

  /** Identity of a renderable mesh; the scene is a set of these. */
  type MeshId = nat

  /** What a mesh renders. */
  datatype Primitive = FaceSurface(face: Face) | SolidBox | WireframeBox | PointCloud

  /** A mesh placed in the scene at `(x, y, z)`. */
  datatype Mesh = Mesh(id: MeshId, primitive: Primitive, x: real, y: real, z: real)

  /**
   A building records the extents it was made with and owns the meshes it still has;
   recycling may drop some of them.
   */
  datatype Building = Building(width: real, height: real, depth: real, meshes: seq<Mesh>)

  /** Geometry payloads: a triangle vertex list, a box, or a point list. */
  datatype Geometry = Triangles(vertices: seq<real>) | Box(width: real, height: real, depth: real) | Points(positions: seq<real>)

  /** Number of meshes a new building creates. */
  const MeshesPerBuilding: nat := 9

  /** Buildings are always made with positive extents; every extent is swept by some face. */
  predicate ValidExtents(w: real, h: real, d: real)
  {
    w > 0.0 && h > 0.0 && d > 0.0
  }

  /** `p` lies on one of the six faces of the `w × h × d` box. */
  predicate OnSurface(w: real, h: real, d: real, p: Point)
  {
    || OnFace(Front, w, h, d, p) || OnFace(Back, w, h, d, p)
    || OnFace(Left, w, h, d, p) || OnFace(Right, w, h, d, p)
    || OnFace(Top, w, h, d, p) || OnFace(Bottom, w, h, d, p)
  }

  /** Reading a point of a concatenation of whole-point lists. */
  lemma PointOfAppend(a: seq<real>, b: seq<real>, k: int)
    requires |a| % 3 == 0 && 0 <= k && 3 * k + 2 < |a| + |b|
    ensures k < |a| / 3 ==> PointOf(a + b, k) == PointOf(a, k)
    ensures k >= |a| / 3 ==> PointOf(a + b, k) == PointOf(b, k - |a| / 3)
  {
  }

  /** Joining two lists of whole points gives a list of whole points. */
  lemma WholePoints(a: seq<real>, b: seq<real>)
    requires |a| % 3 == 0 && |b| % 3 == 0
    ensures |a + b| % 3 == 0
  {
    assert |a + b| == 3 * (|a| / 3 + |b| / 3);
  }

  /** The point cloud's data: the six face samplings joined front, back, left, right, top, bottom. */
  function CloudPoints(w: real, h: real, d: real): (r: seq<real>)
    requires ValidExtents(w, h, d)
    ensures |r| % 3 == 0
  {
    var f0, f1, f2 := FacePoints(Front, w, h, d), FacePoints(Back, w, h, d), FacePoints(Left, w, h, d);
    var f3, f4, f5 := FacePoints(Right, w, h, d), FacePoints(Top, w, h, d), FacePoints(Bottom, w, h, d);
    WholePoints(f0, f1);
    WholePoints(f0 + f1, f2);
    WholePoints(f0 + f1 + f2, f3);
    WholePoints(f0 + f1 + f2 + f3, f4);
    WholePoints(f0 + f1 + f2 + f3 + f4, f5);
    f0 + f1 + f2 + f3 + f4 + f5
  }

  /** All points of a whole-point list lie on the surface of the box. */
  predicate AllOnSurface(w: real, h: real, d: real, s: seq<real>)
    requires |s| % 3 == 0
  {
    forall k :: 0 <= k < |s| / 3 ==> OnSurface(w, h, d, PointOf(s, k))
  }

  /** Joining two lists of surface points gives a list of surface points. */
  lemma AppendOnSurface(w: real, h: real, d: real, a: seq<real>, b: seq<real>)
    requires |a| % 3 == 0 && |b| % 3 == 0
    requires AllOnSurface(w, h, d, a) && AllOnSurface(w, h, d, b)
    ensures |a + b| % 3 == 0 && AllOnSurface(w, h, d, a + b)
  {
    forall k | 0 <= k < |a + b| / 3
      ensures OnSurface(w, h, d, PointOf(a + b, k))
    {
      PointOfAppend(a, b, k);
    }
  }

  /** The sampling of any one face lies on the surface of the box. */
  lemma FaceOnSurface(face: Face, w: real, h: real, d: real)
    requires ValidExtents(w, h, d)
    ensures AllOnSurface(w, h, d, FacePoints(face, w, h, d))
  {
    FacePointsOnFace(face, w, h, d);
  }

  /** The primitives of a new building, in the order the constructor creates them. */
  const Primitives: seq<Primitive> := [
    FaceSurface(Front), FaceSurface(Back), FaceSurface(Left), FaceSurface(Right),
    FaceSurface(Top), FaceSurface(Bottom), SolidBox, WireframeBox, PointCloud]

  /**
   The geometry a primitive is created with: a face mesh is the lifted triangulation
   of its face's samples, both boxes share the exact box extents, and the point cloud
   holds the samples of all six faces.
   */
  function GeometryOf(p: Primitive, w: real, h: real, d: real, tri: seq<(real, real)> -> seq<nat>): (g: Geometry)
    requires ValidExtents(w, h, d) && Triangulator(tri)
    ensures p.FaceSurface? <==> g.Triangles?
    ensures p == PointCloud <==> g.Points?
    ensures g.Box? ==> g == Box(w, h, d)
    ensures g.Triangles? ==> |g.vertices| % 9 == 0
    ensures g.Points? ==> |g.positions| % 3 == 0
  {
    match p
    case FaceSurface(face) => Triangles(MeshVertices(FacePoints(face, w, h, d), tri))
    case SolidBox => Box(w, h, d)
    case WireframeBox => Box(w, h, d)
    case PointCloud => Points(CloudPoints(w, h, d))
  }

  /** Meshes for the primitives `prims`, in order, with consecutive ids from `firstId`, all at `(x, y, z)`. */
  function Place(prims: seq<Primitive>, firstId: MeshId, x: real, y: real, z: real): (ms: seq<Mesh>)
    ensures |ms| == |prims|
    ensures forall k :: 0 <= k < |ms| ==> ms[k] == Mesh(firstId + k, prims[k], x, y, z)
  {
    seq(|prims|, k requires 0 <= k < |prims| => Mesh(firstId + k, prims[k], x, y, z))
  }

  /**
   The `Building` constructor at anchor `x`, row `z`, with extents `w × h × d`: nine meshes,
   six faces then solid, wireframe and point cloud, taking the fresh ids `firstId .. firstId + 8`
   in creation order, all centred at `(x, h/2, z)` so the box stands on the ground plane.
   */
  function NewBuilding(x: real, w: real, h: real, d: real, z: real, firstId: MeshId): (b: Building)
    requires ValidExtents(w, h, d)
    ensures (b.width, b.height, b.depth) == (w, h, d)
    ensures |b.meshes| == MeshesPerBuilding
    ensures forall k :: 0 <= k < |b.meshes| ==>
              && b.meshes[k].id == firstId + k
              && b.meshes[k].primitive == Primitives[k]
              && b.meshes[k].x == x && b.meshes[k].y == h / 2.0 && b.meshes[k].z == z
  {
    Building(w, h, d, Place(Primitives, firstId, x, h / 2.0, z))
  }

  /** The ids of a sequence of meshes. */
  function Ids(ms: seq<Mesh>): (r: set<MeshId>)
    ensures forall m :: m in ms ==> m.id in r
    ensures forall id :: id in r ==> exists m :: m in ms && m.id == id
  {
    set m | m in ms :: m.id
  }

  /** No two meshes of `ms` share an id. */
  predicate UniqueIds(ms: seq<Mesh>)
  {
    forall i, j :: 0 <= i < j < |ms| ==> ms[i].id != ms[j].id
  }

  /** A list grown by one mesh has unique ids exactly when the list does and the new id is not among them. */
  lemma UniqueSnoc(ms: seq<Mesh>, m: Mesh)
    ensures UniqueIds(ms + [m]) <==> UniqueIds(ms) && m.id !in Ids(ms)
  {
    var s := ms + [m];
    if UniqueIds(s) {
      forall i, j | 0 <= i < j < |ms|
        ensures ms[i].id != ms[j].id
      {
        assert s[i] == ms[i] && s[j] == ms[j];
      }
      forall mm | mm in ms
        ensures mm.id != m.id
      {
        var i :| 0 <= i < |ms| && ms[i] == mm;
        assert s[i] == mm && s[|ms|] == m;
      }
    }
  }

  /** The ids `lo .. hi - 1`. */
  function IdRange(lo: MeshId, hi: MeshId): (r: set<MeshId>)
    ensures forall id :: id in r <==> lo <= id < hi
    decreases hi - lo
  {
    if lo >= hi then {} else IdRange(lo, hi - 1) + {hi - 1}
  }

  /** A new building owns exactly the nine consecutive ids it was given, all distinct. */
  lemma NewBuildingIds(x: real, w: real, h: real, d: real, z: real, firstId: MeshId)
    requires ValidExtents(w, h, d)
    ensures var b := NewBuilding(x, w, h, d, z, firstId);
            && Ids(b.meshes) == IdRange(firstId, firstId + MeshesPerBuilding)
            && UniqueIds(b.meshes)
  {
    var b := NewBuilding(x, w, h, d, z, firstId);
    forall id | id in IdRange(firstId, firstId + MeshesPerBuilding)
      ensures id in Ids(b.meshes)
    {
      assert b.meshes[id - firstId] in b.meshes;
    }
  }

  /** The point cloud's data is exactly the points of the six faces, all on the surface of the box. */
  lemma CloudOnSurface(w: real, h: real, d: real, tri: seq<(real, real)> -> seq<nat>)
    requires ValidExtents(w, h, d) && Triangulator(tri)
    ensures var g := GeometryOf(PointCloud, w, h, d, tri);
            && |g.positions| % 3 == 0
            && AllOnSurface(w, h, d, g.positions)
  {
    var f0, f1, f2 := FacePoints(Front, w, h, d), FacePoints(Back, w, h, d), FacePoints(Left, w, h, d);
    var f3, f4, f5 := FacePoints(Right, w, h, d), FacePoints(Top, w, h, d), FacePoints(Bottom, w, h, d);
    FaceOnSurface(Front, w, h, d);
    FaceOnSurface(Back, w, h, d);
    FaceOnSurface(Left, w, h, d);
    FaceOnSurface(Right, w, h, d);
    FaceOnSurface(Top, w, h, d);
    FaceOnSurface(Bottom, w, h, d);
    AppendOnSurface(w, h, d, f0, f1);
    AppendOnSurface(w, h, d, f0 + f1, f2);
    AppendOnSurface(w, h, d, f0 + f1 + f2, f3);
    AppendOnSurface(w, h, d, f0 + f1 + f2 + f3, f4);
    AppendOnSurface(w, h, d, f0 + f1 + f2 + f3 + f4, f5);
  }

  /** Every vertex of a face mesh is a sample point of that face, so it lies on the face. */
  lemma FaceMeshOnFace(face: Face, w: real, h: real, d: real, tri: seq<(real, real)> -> seq<nat>)
    requires ValidExtents(w, h, d) && Triangulator(tri)
    ensures var g := GeometryOf(FaceSurface(face), w, h, d, tri);
            && |g.vertices| % 9 == 0
            && forall t :: 0 <= t < |g.vertices| / 3 ==> OnFace(face, w, h, d, PointOf(g.vertices, t))
  {
    MeshOnFace(face, w, h, d, tri);
  }

  /**
   The point cloud holds one point per grid cell corner of every face:
   `(gridX + 1) * (gridY + 1)` points for each of the six faces.
   */
  lemma CloudCount(w: real, h: real, d: real)
    requires ValidExtents(w, h, d)
    ensures |CloudPoints(w, h, d)| == 3 * (
              FaceCount(Front, w, h, d) + FaceCount(Back, w, h, d) + FaceCount(Left, w, h, d)
              + FaceCount(Right, w, h, d) + FaceCount(Top, w, h, d) + FaceCount(Bottom, w, h, d))
  {
    FacePointsCount(Front, w, h, d);
    FacePointsCount(Back, w, h, d);
    FacePointsCount(Left, w, h, d);
    FacePointsCount(Right, w, h, d);
    FacePointsCount(Top, w, h, d);
    FacePointsCount(Bottom, w, h, d);
  }
}
