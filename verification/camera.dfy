/**
 `clampCameraPosition`: after the controls update, each coordinate of the camera is
 clamped into its own interval, `x` and `z` to `[-50, 50]` and `y` to `[10, 100]`.
 */
module Camera {

  datatype Position = Position(x: real, y: real, z: real)

  const MinX: real := -50.0
  const MaxX: real := 50.0
  const MinY: real := 10.0
  const MaxY: real := 100.0
  const MinZ: real := -50.0
  const MaxZ: real := 50.0

  function Min(a: real, b: real): real { if a <= b then a else b }
  function Max(a: real, b: real): real { if a >= b then a else b }

  /**
   `Math.max(lo, Math.min(hi, v))`: for `lo <= hi` the result lies in `[lo, hi]`, equals `v`
   when `v` already does, and is the nearer end otherwise.
   */
  function Clamp(lo: real, hi: real, v: real): (r: real)
    requires lo <= hi
    ensures lo <= r <= hi
    ensures lo <= v <= hi ==> r == v
    ensures v < lo ==> r == lo
    ensures hi < v ==> r == hi
  {
    Max(lo, Min(hi, v))
  }

  /** The camera lies in the allowed box. */
  predicate InBox(p: Position)
  {
    && MinX <= p.x <= MaxX
    && MinY <= p.y <= MaxY
    && MinZ <= p.z <= MaxZ
  }

  /** `clampCameraPosition`: the result is in the box, and a camera already inside does not move. */
  function ClampPosition(p: Position): (r: Position)
    ensures InBox(r)
    ensures InBox(p) ==> r == p
  {
    Position(Clamp(MinX, MaxX, p.x), Clamp(MinY, MaxY, p.y), Clamp(MinZ, MaxZ, p.z))
  }

  /** Clamping twice is clamping once. */
  lemma ClampIdempotent(p: Position)
    ensures ClampPosition(ClampPosition(p)) == ClampPosition(p)
  {
  }

  /** The clamped camera is, coordinate by coordinate, the closest point of the box to the original. */
  lemma ClampNearest(p: Position, q: Position)
    requires InBox(q)
    ensures var r := ClampPosition(p);
            && Dist(r.x, p.x) <= Dist(q.x, p.x)
            && Dist(r.y, p.y) <= Dist(q.y, p.y)
            && Dist(r.z, p.z) <= Dist(q.z, p.z)
  {
  }

  function Dist(a: real, b: real): real { if a >= b then a - b else b - a }
}
