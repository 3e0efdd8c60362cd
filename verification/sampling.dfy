/**
 Face sampling: the grid of points a building lays on each face of its box.

 A box of extents `w × h × d` is centred at the origin. Each face sweeps two
 of the three axes over an inclusive integer grid and holds the third axis at
 the face's fixed offset. Points are emitted row-major (outer index `i`,
 inner index `j`) into a flat list of coordinates `x, y, z, x, y, z, …`.
 */
module Sampling {

  datatype Face = Front | Back | Left | Right | Top | Bottom

  /** The six faces in the order the building constructor visits them. */
  const Faces: seq<Face> := [Front, Back, Left, Right, Top, Bottom]

  datatype Point = Point(x: real, y: real, z: real)

  /** Sampling density, in grid steps per unit of extent. */
  const PointsPerUnit: real := 1.2

  /** `Math.ceil` over the reals: the least integer not below `r`. */
  function Ceil(r: real): (c: int)
    ensures r <= c as real < r + 1.0
  {
    if r.Floor as real == r then r.Floor else r.Floor + 1
  }

  /** The extents a face sweeps: the one indexed by `i` first, then the one indexed by `j`. */
  function SweptExtents(face: Face, w: real, h: real, d: real): (real, real)
  {
    match face
    case Front | Back => (w, h)
    case Left | Right => (d, h)
    case Top | Bottom => (w, d)
  }

  /** A face can be sampled when both extents it sweeps are positive (otherwise the grid divides by zero). */
  predicate Sampleable(face: Face, w: real, h: real, d: real)
  {
    SweptExtents(face, w, h, d).0 > 0.0 && SweptExtents(face, w, h, d).1 > 0.0
  }

  /** Grid size `(gridX, gridY)` of a face: `ceil(extent * 1.2)` along each swept axis. */
  function GridSize(face: Face, w: real, h: real, d: real): (g: (int, int))
    ensures var (ex, ey) := SweptExtents(face, w, h, d);
            && ex * PointsPerUnit <= g.0 as real < ex * PointsPerUnit + 1.0
            && ey * PointsPerUnit <= g.1 as real < ey * PointsPerUnit + 1.0
    ensures Sampleable(face, w, h, d) ==> g.0 >= 1 && g.1 >= 1
  {
    var (ex, ey) := SweptExtents(face, w, h, d);
    (Ceil(ex * PointsPerUnit), Ceil(ey * PointsPerUnit))
  }

  /** Coordinate of grid index `k` along an axis of extent `dim` split into `grid` steps, centred on 0. */
  function Sweep(k: int, dim: real, grid: int): real
    requires grid > 0
  {
    (k as real) * dim / (grid as real) - dim / 2.0
  }

  /** The grid's first and last indices land exactly on the two edges of the extent. */
  lemma SweepEndpoints(dim: real, grid: int)
    requires grid > 0
    ensures Sweep(0, dim, grid) == -dim / 2.0
    ensures Sweep(grid, dim, grid) == dim / 2.0
  {
  }

  /** Scaling by a factor in `[0, 1]` stays between `0` and the scaled value. */
  lemma ScaleUnit(t: real, dim: real)
    requires 0.0 <= t <= 1.0 && dim >= 0.0
    ensures 0.0 <= t * dim <= dim
  {
  }

  /** A sweep coordinate is the fraction `k / grid` of the extent, and consecutive indices are `dim / grid` apart. */
  lemma SweepForm(k: int, dim: real, grid: int)
    requires grid > 0
    ensures Sweep(k, dim, grid) == ((k as real) / (grid as real)) * dim - dim / 2.0
    ensures Sweep(k + 1, dim, grid) == Sweep(k, dim, grid) + dim / (grid as real)
  {
    var g := grid as real;
    assert (k as real) * dim / g == ((k as real) / g) * dim;
    assert ((k + 1) as real) * dim / g == (k as real) * dim / g + dim / g;
  }

  /** Every index of the inclusive grid stays within the extent, and larger indices lie further along. */
  lemma SweepBounds(k: int, dim: real, grid: int)
    requires grid > 0 && dim >= 0.0 && 0 <= k <= grid
    ensures -dim / 2.0 <= Sweep(k, dim, grid) <= dim / 2.0
    ensures k < grid && dim > 0.0 ==> Sweep(k, dim, grid) < Sweep(k + 1, dim, grid)
  {
    var g := grid as real;
    var t := (k as real) / g;
    assert 0.0 <= t <= 1.0;
    SweepForm(k, dim, grid);
    ScaleUnit(t, dim);
    if dim > 0.0 {
      assert dim / g > 0.0;
    }
  }

  /**
   The point for grid indices `(i, j)` of a face, the body of the sampling loop: it lies on
   the face's plane, and its two swept coordinates are the `i`-th and `j`-th sweep positions.
   */
  function PointAt(face: Face, w: real, h: real, d: real, g: (int, int), i: int, j: int): (r: Point)
    requires g.0 > 0 && g.1 > 0
    ensures OnPlane(face, w, h, d, r)
    ensures var (ex, ey) := SweptExtents(face, w, h, d);
            Swept(face, r) == (Sweep(i, ex, g.0), Sweep(j, ey, g.1))
  {
    var (ex, ey) := SweptExtents(face, w, h, d);
    var u := Sweep(i, ex, g.0);
    var v := Sweep(j, ey, g.1);
    match face
    case Front => Point(u, v, d / 2.0)
    case Back => Point(u, v, -d / 2.0)
    case Left => Point(-w / 2.0, v, u)
    case Right => Point(w / 2.0, v, u)
    case Top => Point(u, h / 2.0, v)
    case Bottom => Point(u, -h / 2.0, v)
  }

  /** The coordinate a face holds fixed, as the box geometry requires. */
  predicate OnPlane(face: Face, w: real, h: real, d: real, p: Point)
  {
    match face
    case Front => p.z == d / 2.0
    case Back => p.z == -d / 2.0
    case Left => p.x == -w / 2.0
    case Right => p.x == w / 2.0
    case Top => p.y == h / 2.0
    case Bottom => p.y == -h / 2.0
  }

  /** `p` lies on the plane of `face` and inside the face's rectangle. */
  predicate OnFace(face: Face, w: real, h: real, d: real, p: Point)
  {
    && OnPlane(face, w, h, d, p)
    && (face !in {Left, Right} ==> -w / 2.0 <= p.x <= w / 2.0)
    && (face !in {Top, Bottom} ==> -h / 2.0 <= p.y <= h / 2.0)
    && (face !in {Front, Back} ==> -d / 2.0 <= p.z <= d / 2.0)
  }

  /** Every grid point of a sampleable face lies on that face. */
  lemma PointAtOnFace(face: Face, w: real, h: real, d: real, i: int, j: int)
    requires Sampleable(face, w, h, d)
    requires 0 <= i <= GridSize(face, w, h, d).0 && 0 <= j <= GridSize(face, w, h, d).1
    ensures OnFace(face, w, h, d, PointAt(face, w, h, d, GridSize(face, w, h, d), i, j))
  {
    var g := GridSize(face, w, h, d);
    var (ex, ey) := SweptExtents(face, w, h, d);
    SweepBounds(i, ex, g.0);
    SweepBounds(j, ey, g.1);
  }

  /** The corner points `(0, 0)` and `(gridX, gridY)` are the two opposite corners of the face. */
  lemma CornersExact(face: Face, w: real, h: real, d: real)
    requires Sampleable(face, w, h, d)
    ensures var g := GridSize(face, w, h, d);
            var (ex, ey) := SweptExtents(face, w, h, d);
            var lo := PointAt(face, w, h, d, g, 0, 0);
            var hi := PointAt(face, w, h, d, g, g.0, g.1);
            && Swept(face, lo) == (-ex / 2.0, -ey / 2.0)
            && Swept(face, hi) == (ex / 2.0, ey / 2.0)
  {
    var g := GridSize(face, w, h, d);
    var (ex, ey) := SweptExtents(face, w, h, d);
    SweepEndpoints(ex, g.0);
    SweepEndpoints(ey, g.1);
  }

  /** The two swept coordinates of a point of `face`, in `(i, j)` axis order. */
  function Swept(face: Face, p: Point): (real, real)
  {
    match face
    case Front | Back => (p.x, p.y)
    case Left | Right => (p.z, p.y)
    case Top | Bottom => (p.x, p.z)
  }

  /** Row `i` of a face grid: the points for `j = 0 .. gridY`. */
  function Row(face: Face, w: real, h: real, d: real, g: (int, int), i: int): (r: seq<Point>)
    requires g.0 > 0 && g.1 > 0
    ensures |r| == g.1 + 1
    ensures forall j :: 0 <= j < |r| ==> r[j] == PointAt(face, w, h, d, g, i, j)
  {
    seq(g.1 + 1, j => PointAt(face, w, h, d, g, i, j))
  }

  /** The first `n` rows of a face grid, concatenated. */
  function Rows(face: Face, w: real, h: real, d: real, g: (int, int), n: nat): seq<Point>
    requires g.0 > 0 && g.1 > 0
  {
    if n == 0 then [] else Rows(face, w, h, d, g, n - 1) + Row(face, w, h, d, g, n - 1)
  }

  lemma MulMonotone(a: int, b: int, c: int)
    requires 0 <= a <= b && c >= 0
    ensures a * c <= b * c
  {
  }

  /** Index arithmetic of a row-major grid with `m` columns: cell `(i, j)` of the first `n` rows. */
  lemma RowIndex(i: int, j: int, n: int, m: int)
    requires 0 <= i < n && 0 <= j < m
    ensures 0 <= i * m + j < n * m
    ensures n * m == (n - 1) * m + m
    ensures i < n - 1 ==> i * m + j < (n - 1) * m
    ensures i == n - 1 ==> i * m + j - (n - 1) * m == j
  {
    MulMonotone(i + 1, n, m);
    if i < n - 1 {
      MulMonotone(i + 1, n - 1, m);
    }
  }

  /** The first `n` rows hold `n * (gridY + 1)` points. */
  lemma {:induction false} RowsLength(face: Face, w: real, h: real, d: real, g: (int, int), n: nat)
    requires g.0 > 0 && g.1 > 0
    ensures |Rows(face, w, h, d, g, n)| == n * (g.1 + 1)
  {
    if n > 0 {
      RowsLength(face, w, h, d, g, n - 1);
      assert n * (g.1 + 1) == (n - 1) * (g.1 + 1) + (g.1 + 1);
    }
  }

  /** Row-major layout: point `(i, j)` of the first `n` rows sits at position `i * (gridY + 1) + j`. */
  lemma {:induction false} RowsLayout(face: Face, w: real, h: real, d: real, g: (int, int), n: nat, i: int, j: int)
    requires g.0 > 0 && g.1 > 0
    requires 0 <= i < n && 0 <= j <= g.1
    ensures 0 <= i * (g.1 + 1) + j < |Rows(face, w, h, d, g, n)|
    ensures Rows(face, w, h, d, g, n)[i * (g.1 + 1) + j] == PointAt(face, w, h, d, g, i, j)
  {
    var m := g.1 + 1;
    var prev := Rows(face, w, h, d, g, n - 1);
    var row := Row(face, w, h, d, g, n - 1);
    RowsLength(face, w, h, d, g, n - 1);
    RowIndex(i, j, n, m);
    var k := i * m + j;
    if i < n - 1 {
      RowsLayout(face, w, h, d, g, n - 1, i, j);
      assert (prev + row)[k] == prev[k];
    } else {
      assert (prev + row)[k] == row[j];
    }
  }

  /** Every point among the first `n` rows (with `n` within the grid) lies on the face. */
  lemma {:induction false} RowsOnFace(face: Face, w: real, h: real, d: real, n: nat)
    requires Sampleable(face, w, h, d)
    requires n <= GridSize(face, w, h, d).0 + 1
    ensures forall p :: p in Rows(face, w, h, d, GridSize(face, w, h, d), n) ==> OnFace(face, w, h, d, p)
  {
    var g := GridSize(face, w, h, d);
    if n > 0 {
      RowsOnFace(face, w, h, d, n - 1);
      var row := Row(face, w, h, d, g, n - 1);
      forall p | p in row
        ensures OnFace(face, w, h, d, p)
      {
        var j :| 0 <= j < |row| && row[j] == p;
        PointAtOnFace(face, w, h, d, n - 1, j);
      }
    }
  }

  /** Flat coordinate list of a sequence of points: `x, y, z` per point, in order. */
  function Flatten(ps: seq<Point>): (r: seq<real>)
    ensures |r| == 3 * |ps|
  {
    if |ps| == 0 then []
    else
      var p := ps[|ps| - 1];
      Flatten(ps[..|ps| - 1]) + [p.x, p.y, p.z]
  }

  /** The `k`-th point of a flat coordinate list. */
  function PointOf(s: seq<real>, k: int): Point
    requires 0 <= k && 3 * k + 2 < |s|
  {
    Point(s[3 * k], s[3 * k + 1], s[3 * k + 2])
  }

  /** Reading point `k` back from a flattened list gives point `k`. */
  lemma {:induction false} FlattenPointOf(ps: seq<Point>)
    ensures forall k :: 0 <= k < |ps| ==> PointOf(Flatten(ps), k) == ps[k]
  {
    if |ps| > 0 {
      var init := ps[..|ps| - 1];
      FlattenPointOf(init);
      forall k | 0 <= k < |ps|
        ensures PointOf(Flatten(ps), k) == ps[k]
      {
        if k < |init| {
          assert PointOf(Flatten(ps), k) == PointOf(Flatten(init), k);
        }
      }
    }
  }

  /** Flattening distributes over concatenation. */
  lemma {:induction false} FlattenAppend(a: seq<Point>, b: seq<Point>)
    ensures Flatten(a + b) == Flatten(a) + Flatten(b)
  {
    if |b| > 0 {
      var b' := b[..|b| - 1];
      assert (a + b)[..|a + b| - 1] == a + b';
      FlattenAppend(a, b');
    } else {
      assert a + b == a;
    }
  }

  /** The points of a flat coordinate list, in order. */
  function Unflatten(s: seq<real>): (ps: seq<Point>)
    ensures |ps| == |s| / 3
    ensures forall k :: 0 <= k < |ps| ==> ps[k] == PointOf(s, k)
  {
    seq(|s| / 3, k requires 0 <= k < |s| / 3 => PointOf(s, k))
  }

  /** A flat list of whole points is the flattening of the points read back from it. */
  lemma {:induction false} UnflattenRoundTrip(s: seq<real>)
    requires |s| % 3 == 0
    ensures Flatten(Unflatten(s)) == s
  {
    if |s| > 0 {
      var init := s[..|s| - 3];
      UnflattenRoundTrip(init);
      assert Unflatten(s)[..|s| / 3 - 1] == Unflatten(init);
      assert s == init + [s[|s| - 3], s[|s| - 2], s[|s| - 1]];
    }
  }

  /** The full grid of a face, row-major. */
  function GridPoints(face: Face, w: real, h: real, d: real): seq<Point>
    requires Sampleable(face, w, h, d)
  {
    var g := GridSize(face, w, h, d);
    Rows(face, w, h, d, g, g.0 + 1)
  }

  /** The flat point list of one face, as `createFacePoints` returns it. */
  function FacePoints(face: Face, w: real, h: real, d: real): (r: seq<real>)
    requires Sampleable(face, w, h, d)
    ensures |r| % 3 == 0
  {
    Flatten(GridPoints(face, w, h, d))
  }

  /** Number of grid points on one face: `(gridX + 1) * (gridY + 1)`. */
  function FaceCount(face: Face, w: real, h: real, d: real): int
  {
    var g := GridSize(face, w, h, d);
    (g.0 + 1) * (g.1 + 1)
  }

  /** A face of grid size `(gridX, gridY)` yields `(gridX + 1) * (gridY + 1)` points. */
  lemma FacePointsCount(face: Face, w: real, h: real, d: real)
    requires Sampleable(face, w, h, d)
    ensures |FacePoints(face, w, h, d)| == 3 * FaceCount(face, w, h, d)
  {
    var g := GridSize(face, w, h, d);
    RowsLength(face, w, h, d, g, g.0 + 1);
  }

  /** Every point a face yields lies on that face: fixed coordinate exact, swept coordinates within the extent. */
  lemma FacePointsOnFace(face: Face, w: real, h: real, d: real)
    requires Sampleable(face, w, h, d)
    ensures var r := FacePoints(face, w, h, d);
            forall k :: 0 <= k < |r| / 3 ==> OnFace(face, w, h, d, PointOf(r, k))
  {
    var g := GridSize(face, w, h, d);
    var ps := GridPoints(face, w, h, d);
    RowsOnFace(face, w, h, d, g.0 + 1);
    FlattenPointOf(ps);
    forall k | 0 <= k < |ps|
      ensures OnFace(face, w, h, d, PointOf(Flatten(ps), k))
    {
      assert ps[k] in ps;
    }
  }

  /** Point `(i, j)` of a face's flat list sits at position `i * (gridY + 1) + j`. */
  lemma FacePointsOrder(face: Face, w: real, h: real, d: real, i: int, j: int)
    requires Sampleable(face, w, h, d)
    requires 0 <= i <= GridSize(face, w, h, d).0 && 0 <= j <= GridSize(face, w, h, d).1
    ensures var g := GridSize(face, w, h, d);
            var k := i * (g.1 + 1) + j;
            && |FacePoints(face, w, h, d)| == 3 * FaceCount(face, w, h, d)
            && 0 <= k < FaceCount(face, w, h, d)
            && PointOf(FacePoints(face, w, h, d), k) == PointAt(face, w, h, d, g, i, j)
  {
    var g := GridSize(face, w, h, d);
    var ps := GridPoints(face, w, h, d);
    RowsLayout(face, w, h, d, g, g.0 + 1, i, j);
    RowsLength(face, w, h, d, g, g.0 + 1);
    MulMonotone(i + 1, g.0 + 1, g.1 + 1);
    assert (i + 1) * (g.1 + 1) == i * (g.1 + 1) + (g.1 + 1);
    FlattenPointOf(ps);
    FacePointsCount(face, w, h, d);
  }

  /** Appending one point appends its three coordinates. */
  lemma FlattenSnoc(ps: seq<Point>, p: Point)
    ensures Flatten(ps + [p]) == Flatten(ps) + [p.x, p.y, p.z]
  {
    assert (ps + [p])[..|ps|] == ps;
  }

  /** The inner sampling loop: appends row `i`, `j = 0 .. gridY`, to the points of the rows before it. */
  method SampleRow(face: Face, w: real, h: real, d: real, g: (int, int), i: nat, before: seq<real>)
    returns (points: seq<real>)
    requires g.0 > 0 && g.1 > 0
    requires before == Flatten(Rows(face, w, h, d, g, i))
    ensures points == Flatten(Rows(face, w, h, d, g, i + 1))
  {
    ghost var rows := Rows(face, w, h, d, g, i);
    ghost var row := Row(face, w, h, d, g, i);
    points := before;
    var j := 0;
    assert rows + row[..0] == rows;
    while j <= g.1
      invariant 0 <= j <= g.1 + 1
      invariant points == Flatten(rows + row[..j])
    {
      var p := PointAt(face, w, h, d, g, i, j);
      assert rows + row[..j + 1] == (rows + row[..j]) + [p];
      FlattenSnoc(rows + row[..j], p);
      points := points + [p.x, p.y, p.z];
      j := j + 1;
    }
    assert row[..j] == row;
  }

  /** The sampling loop: outer `i` over `0 .. gridX`, inner `j` over `0 .. gridY`, pushing `x, y, z`. */
  method CreateFacePoints(face: Face, w: real, h: real, d: real) returns (points: seq<real>)
    requires Sampleable(face, w, h, d)
    ensures points == FacePoints(face, w, h, d)
  {
    var g := GridSize(face, w, h, d);
    points := [];
    var i := 0;
    while i <= g.0
      invariant 0 <= i <= g.0 + 1
      invariant points == Flatten(Rows(face, w, h, d, g, i))
    {
      points := SampleRow(face, w, h, d, g, i, points);
      i := i + 1;
    }
  }
}
