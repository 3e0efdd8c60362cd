/**
 Face meshing: project a face's flat point list to the plane by dropping `z`,
 triangulate it, and lift every triangle back to the original 3D points.

 The triangulation itself is a foreign Delaunay routine; it appears here as a
 parameter `tri` that, like `Delaunay.triangles`, returns a flat list of vertex
 indices, three per triangle, into the list it was given.
 */
module FaceMesh {
  import opened Sampling

  /** The contract the model asks of the triangulation routine. */
  ghost predicate Triangulator(tri: seq<(real, real)> -> seq<nat>)
  {
    forall pts :: ValidTriangles(tri(pts), |pts|)
  }

  /** A flat list of vertex indices, three per triangle, each below `n`. */
  predicate ValidTriangles(tris: seq<nat>, n: nat)
  {
    |tris| % 3 == 0 && forall t :: 0 <= t < |tris| ==> tris[t] < n
  }

  /** The 2D points handed to the triangulation: `(x, y)` of every point, `z` dropped. */
  function Project(points: seq<real>): (r: seq<(real, real)>)
    requires |points| % 3 == 0
    ensures |r| == |points| / 3
    ensures forall k :: 0 <= k < |r| ==> r[k] == (PointOf(points, k).x, PointOf(points, k).y)
  {
    seq(|points| / 3, k requires 0 <= k < |points| / 3 => (points[3 * k], points[3 * k + 1]))
  }

  /** The vertex list of a mesh: for every index `t` of the triangle list, the 3D point it names. */
  function Lift(points: seq<real>, tris: seq<nat>): (r: seq<real>)
    requires ValidTriangles(tris, |points| / 3)
    ensures |r| == 3 * |tris|
    ensures forall t :: 0 <= t < |tris| ==> PointOf(r, t) == PointOf(points, tris[t])
  {
    var vs := seq(|tris|, t requires 0 <= t < |tris| => PointOf(points, tris[t]));
    FlattenPointOf(vs);
    Flatten(vs)
  }

  /** The index list `0, 1, …, n - 1`. */
  function Identity(n: nat): (r: seq<nat>)
    ensures |r| == n && forall k :: 0 <= k < n ==> r[k] == k
  {
    seq(n, k requires 0 <= k < n => k)
  }

  /** Lifting a list of whole triangles with the identity index list gives it back: the lift only copies. */
  lemma LiftIdentity(points: seq<real>)
    requires |points| % 9 == 0
    ensures ValidTriangles(Identity(|points| / 3), |points| / 3)
    ensures Lift(points, Identity(|points| / 3)) == points
  {
    var n := |points| / 3;
    var vs := seq(n, t requires 0 <= t < n => PointOf(points, Identity(n)[t]));
    assert vs == Unflatten(points);
    UnflattenRoundTrip(points);
  }

  /** The mesh geometry of one face: the lifted triangulation of its projected points. */
  function MeshVertices(points: seq<real>, tri: seq<(real, real)> -> seq<nat>): (r: seq<real>)
    requires |points| % 3 == 0 && Triangulator(tri)
    ensures |r| % 9 == 0
    ensures forall t :: 0 <= t < |r| / 3 ==> PointOf(r, t) in Unflatten(points)
  {
    var pr := Project(points);
    var tris := tri(pr);
    assert ValidTriangles(tris, |pr|);
    var r := Lift(points, tris);
    var ps := Unflatten(points);
    assert forall t :: 0 <= t < |tris| ==> PointOf(r, t) == ps[tris[t]];
    r
  }

  /** Every vertex of a face's mesh is one of the face's sample points, so it lies on the face. */
  lemma MeshOnFace(face: Face, w: real, h: real, d: real, tri: seq<(real, real)> -> seq<nat>)
    requires Sampleable(face, w, h, d) && Triangulator(tri)
    ensures var r := MeshVertices(FacePoints(face, w, h, d), tri);
            forall t :: 0 <= t < |r| / 3 ==> OnFace(face, w, h, d, PointOf(r, t))
  {
    var points := FacePoints(face, w, h, d);
    var ps := Unflatten(points);
    var r := MeshVertices(points, tri);
    FacePointsOnFace(face, w, h, d);
    forall t | 0 <= t < |r| / 3
      ensures OnFace(face, w, h, d, PointOf(r, t))
    {
      var k :| 0 <= k < |ps| && ps[k] == PointOf(r, t);
    }
  }

  /**
   The projection drops `z`, so four of the six faces lose a dimension: the side faces
   (`Left`, `Right`) project onto the vertical line `x = ∓w/2`, and `Top` and `Bottom`
   onto the horizontal line `y = ±h/2`. Their triangulation input is collinear.
   */
  lemma DegenerateFacesProjectCollinear(face: Face, w: real, h: real, d: real)
    requires Sampleable(face, w, h, d) && face !in {Front, Back}
    ensures var pr := Project(FacePoints(face, w, h, d));
            && (face == Left ==> forall k :: 0 <= k < |pr| ==> pr[k].0 == -w / 2.0)
            && (face == Right ==> forall k :: 0 <= k < |pr| ==> pr[k].0 == w / 2.0)
            && (face == Top ==> forall k :: 0 <= k < |pr| ==> pr[k].1 == h / 2.0)
            && (face == Bottom ==> forall k :: 0 <= k < |pr| ==> pr[k].1 == -h / 2.0)
  {
    FacePointsOnFace(face, w, h, d);
  }
}
