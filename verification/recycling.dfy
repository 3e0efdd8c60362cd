/**
 Recycling: the per-frame `pan` of one building's meshes.

 Every mesh moves left by `delta`. A mesh that ends left of the band
 `[-100, 100]` is moved right by 200 and kept; one that ends right of it is
 removed from the scene and dropped from the building; any other is kept where
 it is. The policy is asymmetric: nothing ever re-enters from the left.
 */
module Recycling {
  import opened Wrappers
  import opened Buildings

  const BandLow: real := -100.0
  const BandHigh: real := 100.0
  const WrapDistance: real := 200.0

  /** Whether one pan step by `delta` drops `m`: it ends right of the band. */
  predicate Dropped(m: Mesh, delta: real)
  {
    m.x - delta > BandHigh
  }

  /** One mesh's pan step: `None` when the mesh is dropped, otherwise the mesh at its new position. */
  function Step(m: Mesh, delta: real): (r: Option<Mesh>)
    ensures r.None? <==> Dropped(m, delta)
    ensures r.Some? ==> r.value == m.(x := r.value.x)
    ensures r.Some? ==> (r.value.x == m.x - delta + WrapDistance <==> m.x - delta < BandLow)
    ensures r.Some? ==> (r.value.x == m.x - delta <==> m.x - delta >= BandLow)
    ensures r.Some? ==> r.value.x <= BandHigh
    ensures r.Some? && m.x - delta >= BandLow - WrapDistance ==> BandLow <= r.value.x
  {
    var x := m.x - delta;
    if x < BandLow then Some(m.(x := x + WrapDistance))
    else if x > BandHigh then None
    else Some(m.(x := x))
  }

  /** Indices of the meshes one pan step keeps, in increasing order: an independent description of the filter. */
  function Survivors(ms: seq<Mesh>, delta: real): (idx: seq<nat>)
    ensures forall k :: 0 <= k < |idx| ==> idx[k] < |ms|
    ensures forall k, l :: 0 <= k < l < |idx| ==> idx[k] < idx[l]
    ensures forall i :: 0 <= i < |ms| ==> (i in idx <==> !Dropped(ms[i], delta))
  {
    if |ms| == 0 then []
    else
      var init := Survivors(ms[..|ms| - 1], delta);
      if Dropped(ms[|ms| - 1], delta) then init else init + [|ms| - 1]
  }

  /** The mesh list after `pan`: `Array.filter` with the step applied to each mesh in turn. */
  function PanMeshes(ms: seq<Mesh>, delta: real): (r: seq<Mesh>)
    ensures |r| <= |ms|
    ensures forall k :: 0 <= k < |r| ==> r[k].x <= BandHigh
  {
    if |ms| == 0 then []
    else
      var init := PanMeshes(ms[..|ms| - 1], delta);
      match Step(ms[|ms| - 1], delta)
      case None => init
      case Some(m) => init + [m]
  }

  /**
   The filter keeps exactly the survivors, moved, in their original order:
   mesh `k` of the result is the stepped `Survivors[k]`-th mesh of the input.
   */
  lemma {:induction false} PanKeepsSurvivors(ms: seq<Mesh>, delta: real)
    ensures var r := PanMeshes(ms, delta);
            var idx := Survivors(ms, delta);
            && |r| == |idx|
            && forall k :: 0 <= k < |r| ==> Step(ms[idx[k]], delta) == Some(r[k])
  {
    if |ms| > 0 {
      var init := ms[..|ms| - 1];
      PanKeepsSurvivors(init, delta);
      var r0 := PanMeshes(init, delta);
      var idx0 := Survivors(init, delta);
      var r := PanMeshes(ms, delta);
      var idx := Survivors(ms, delta);
      forall k | 0 <= k < |r|
        ensures Step(ms[idx[k]], delta) == Some(r[k])
      {
        if k < |r0| {
          assert idx[k] == idx0[k] && r[k] == r0[k];
          assert ms[idx0[k]] == init[idx0[k]];
        }
      }
    }
  }

  /** When every mesh is dropped, nothing is kept. */
  lemma {:induction false} PanAllDropped(ms: seq<Mesh>, delta: real)
    requires forall k :: 0 <= k < |ms| ==> Dropped(ms[k], delta)
    ensures PanMeshes(ms, delta) == []
  {
    if |ms| > 0 {
      PanAllDropped(ms[..|ms| - 1], delta);
    }
  }

  /** Ids of the meshes one pan step drops. */
  function DroppedIds(ms: seq<Mesh>, delta: real): set<MeshId>
  {
    set m | m in ms && Dropped(m, delta) :: m.id
  }

  /** The scene after `pan` removes, one by one, each mesh it drops. */
  function RemoveDropped(scene: set<MeshId>, ms: seq<Mesh>, delta: real): (r: set<MeshId>)
    ensures r == scene - DroppedIds(ms, delta)
  {
    if |ms| == 0 then scene
    else
      var m := ms[|ms| - 1];
      assert ms == ms[..|ms| - 1] + [m];
      var rest := RemoveDropped(scene, ms[..|ms| - 1], delta);
      if Dropped(m, delta) then rest - {m.id} else rest
  }

  /** `Building.pan(delta)` against the scene: the building keeps its survivors, the scene loses the dropped ids. */
  function Pan(b: Building, scene: set<MeshId>, delta: real): (r: (Building, set<MeshId>))
    ensures r.0 == b.(meshes := PanMeshes(b.meshes, delta))
    ensures r.1 == scene - DroppedIds(b.meshes, delta)
  {
    (b.(meshes := PanMeshes(b.meshes, delta)), RemoveDropped(scene, b.meshes, delta))
  }

  /** `pan` works mesh by mesh, so it distributes over concatenation. */
  lemma {:induction false} PanAppend(a: seq<Mesh>, b: seq<Mesh>, delta: real)
    ensures PanMeshes(a + b, delta) == PanMeshes(a, delta) + PanMeshes(b, delta)
    ensures DroppedIds(a + b, delta) == DroppedIds(a, delta) + DroppedIds(b, delta)
    decreases |b|
  {
    if |b| == 0 {
      assert a + b == a;
    } else {
      var ab := a + b;
      assert ab[..|ab| - 1] == a + b[..|b| - 1];
      assert ab[|ab| - 1] == b[|b| - 1];
      PanAppend(a, b[..|b| - 1], delta);
    }
  }

  /** Ids of a list grown by one mesh. */
  lemma IdsSnoc(ms: seq<Mesh>, m: Mesh, delta: real)
    ensures Ids(ms + [m]) == Ids(ms) + {m.id}
    ensures DroppedIds(ms + [m], delta) == DroppedIds(ms, delta) + (if Dropped(m, delta) then {m.id} else {})
  {
    assert forall mm :: mm in ms + [m] <==> mm in ms || mm == m;
  }

  /** Panning a list grown by one mesh pans the list, then keeps or drops that mesh. */
  lemma PanSnoc(init: seq<Mesh>, last: Mesh, delta: real)
    ensures PanMeshes(init + [last], delta)
              == match Step(last, delta)
                 case None => PanMeshes(init, delta)
                 case Some(m) => PanMeshes(init, delta) + [m]
  {
    var ms := init + [last];
    assert ms[..|ms| - 1] == init && ms[|ms| - 1] == last;
  }

  /** The kept case of `PanIdsSnoc`: the moved mesh brings its new id to the kept list. */
  lemma PanIdsKept(init: seq<Mesh>, last: Mesh, delta: real)
    requires Step(last, delta).Some? && last.id !in Ids(init)
    requires Ids(PanMeshes(init, delta)) == Ids(init) - DroppedIds(init, delta)
    requires UniqueIds(PanMeshes(init, delta))
    ensures var r := PanMeshes(init, delta) + [Step(last, delta).value];
            && Ids(r) == (Ids(init) + {last.id}) - DroppedIds(init, delta)
            && UniqueIds(r)
  {
    var r0, m := PanMeshes(init, delta), Step(last, delta).value;
    IdsSnoc(r0, m, delta);
    UniqueSnoc(r0, m);
  }

  /** The step from a list to the list grown by one mesh whose id is new, for `PanIds`. */
  lemma PanIdsSnoc(init: seq<Mesh>, last: Mesh, delta: real)
    requires last.id !in Ids(init)
    requires Ids(PanMeshes(init, delta)) == Ids(init) - DroppedIds(init, delta)
    requires UniqueIds(PanMeshes(init, delta))
    ensures Ids(PanMeshes(init + [last], delta)) == Ids(init + [last]) - DroppedIds(init + [last], delta)
    ensures UniqueIds(PanMeshes(init + [last], delta))
  {
    IdsSnoc(init, last, delta);
    PanSnoc(init, last, delta);
    if Step(last, delta).Some? {
      PanIdsKept(init, last, delta);
    }
  }

  /**
   With unique ids, the meshes `pan` keeps are exactly the ones it does not drop:
   their ids are the old ids minus the dropped ones, and they stay unique.
   */
  lemma {:induction false} PanIds(ms: seq<Mesh>, delta: real)
    requires UniqueIds(ms)
    ensures Ids(PanMeshes(ms, delta)) == Ids(ms) - DroppedIds(ms, delta)
    ensures UniqueIds(PanMeshes(ms, delta))
  {
    if |ms| > 0 {
      var init, last := ms[..|ms| - 1], ms[|ms| - 1];
      assert ms == init + [last];
      UniqueSnoc(init, last);
      PanIds(init, delta);
      PanIdsSnoc(init, last, delta);
    }
  }

  /** Every mesh lies in the band `[-100, 100]`. */
  predicate InBand(ms: seq<Mesh>)
  {
    forall k :: 0 <= k < |ms| ==> BandLow <= ms[k].x <= BandHigh
  }

  /**
   Band invariant: when every mesh is in the band and `0 <= delta <= 200`, a pan step
   drops nothing, keeps every mesh in its place in the list (same id, same primitive),
   and leaves every mesh in the band.
   */
  lemma {:induction false} BandPreserved(ms: seq<Mesh>, delta: real)
    requires InBand(ms) && 0.0 <= delta <= WrapDistance
    ensures var r := PanMeshes(ms, delta);
            && |r| == |ms|
            && (forall k :: 0 <= k < |r| ==> r[k].id == ms[k].id && r[k].primitive == ms[k].primitive)
            && InBand(r)
            && DroppedIds(ms, delta) == {}
  {
    if |ms| > 0 {
      var init := ms[..|ms| - 1];
      var last := ms[|ms| - 1];
      assert ms == init + [last];
      BandPreserved(init, delta);
      var r0 := PanMeshes(init, delta);
      var m := Step(last, delta);
      assert m.Some? && BandLow <= m.value.x <= BandHigh;
      var r := PanMeshes(ms, delta);
      assert r == r0 + [m.value];
      forall k | 0 <= k < |r|
        ensures r[k].id == ms[k].id && r[k].primitive == ms[k].primitive
        ensures BandLow <= r[k].x <= BandHigh
      {
        if k < |r0| {
          assert r[k] == r0[k];
        }
      }
      forall mm | mm in ms
        ensures !Dropped(mm, delta)
      {
        var i :| 0 <= i < |ms| && ms[i] == mm;
      }
    }
  }

  /** `n` successive frames of `pan` with the same `delta`. */
  function PanFrames(ms: seq<Mesh>, delta: real, n: nat): seq<Mesh>
    decreases n
  {
    if n == 0 then ms else PanFrames(PanMeshes(ms, delta), delta, n - 1)
  }

  /** Once all meshes are in the band, they stay in it, all of them, for any number of frames. */
  lemma {:induction false} BandPreservedForever(ms: seq<Mesh>, delta: real, n: nat)
    requires InBand(ms) && 0.0 <= delta <= WrapDistance
    ensures var r := PanFrames(ms, delta, n);
            && |r| == |ms|
            && (forall k :: 0 <= k < |r| ==> r[k].id == ms[k].id)
            && InBand(r)
    decreases n
  {
    if n > 0 {
      BandPreserved(ms, delta);
      BandPreservedForever(PanMeshes(ms, delta), delta, n - 1);
    }
  }

  /**
   A mesh far left of the band (before the step, more than 300 left of the band's left
   edge plus `delta`) is kept but is still left of the band after one wrap: the band is
   only maintained for meshes already inside it.
   */
  lemma FarLeftStaysOutside(m: Mesh, delta: real)
    requires m.x - delta < BandLow - WrapDistance
    ensures Step(m, delta).Some?
    ensures Step(m, delta).value.x < BandLow
  {
  }

  /** A mesh just right of the band, with `100 < x <= 100 + delta`, is kept: only `x - delta > 100` drops. */
  lemma JustRightOfBandKept(m: Mesh, delta: real)
    requires BandHigh < m.x <= BandHigh + delta && delta <= WrapDistance
    ensures Step(m, delta) == Some(m.(x := m.x - delta))
  {
  }

  /**
   A building created with its anchor further right than `100 + delta` loses every mesh
   on the first frame, and all nine of its ids leave the scene.
   */
  lemma {:induction false} AnchorBeyondBandDropped(x: real, w: real, h: real, d: real, z: real, firstId: MeshId,
                                                   scene: set<MeshId>, delta: real)
    requires ValidExtents(w, h, d) && x - delta > BandHigh
    ensures var (b, s) := Pan(NewBuilding(x, w, h, d, z, firstId), scene, delta);
            && b.meshes == []
            && s == scene - IdRange(firstId, firstId + MeshesPerBuilding)
  {
    var b := NewBuilding(x, w, h, d, z, firstId);
    NewBuildingIds(x, w, h, d, z, firstId);
    PanAllDropped(b.meshes, delta);
    assert DroppedIds(b.meshes, delta) == Ids(b.meshes);
  }
}
