/**
 The running city: the scene, the `buildings` array, and the three operations that
 change them — `clearBuildings`, `addBuildings` and one animation frame of `pan`.

 The scene is the set of mesh ids it holds (lights and text are not modelled). A fresh
 mesh takes the id `nextId`, which then advances, standing in for object identity.
 */
module City {
  import opened Buildings
  import opened Recycling
  import opened Layout

  /** The page state the skyline code reads and writes. */
  datatype World = World(scene: set<MeshId>, buildings: seq<Building>, nextId: MeshId)

  /** Every mesh the buildings own, building by building. */
  function AllMeshes(bs: seq<Building>): seq<Mesh>
  {
    if |bs| == 0 then [] else AllMeshes(bs[..|bs| - 1]) + bs[|bs| - 1].meshes
  }

  /** Ids of every mesh the buildings own. */
  function OwnedIds(bs: seq<Building>): set<MeshId>
  {
    Ids(AllMeshes(bs))
  }

  /** Growing the array by one building adds that building's meshes at the end. */
  lemma AllMeshesSnoc(bs: seq<Building>, b: Building)
    ensures AllMeshes(bs + [b]) == AllMeshes(bs) + b.meshes
  {
    assert (bs + [b])[..|bs|] == bs;
  }

  /** Ids of a concatenation. */
  lemma IdsAppend(a: seq<Mesh>, b: seq<Mesh>)
    ensures Ids(a + b) == Ids(a) + Ids(b)
  {
    assert forall m :: m in a + b <==> m in a || m in b;
  }

  /**
   Every object in the scene, a building's mesh or not (the ambient light, say), was
   given its id before `nextId`, so the ids from `nextId` on are fresh.
   */
  predicate Issued(w: World)
  {
    forall id :: id in w.scene ==> id < w.nextId
  }

  /**
   The invariant the skyline keeps: the buildings' meshes have distinct ids, all of them
   are in the scene, and every id in the scene was handed out before `nextId`.
   */
  predicate WellFormed(w: World)
  {
    && UniqueIds(AllMeshes(w.buildings))
    && OwnedIds(w.buildings) <= w.scene
    && Issued(w)
  }

  /** `building.meshes.forEach(mesh => scene.remove(mesh))`. */
  function RemoveMeshes(scene: set<MeshId>, ms: seq<Mesh>): (r: set<MeshId>)
    ensures r == scene - Ids(ms)
  {
    if |ms| == 0 then scene
    else
      IdsAppend(ms[..|ms| - 1], [ms[|ms| - 1]]);
      assert ms == ms[..|ms| - 1] + [ms[|ms| - 1]];
      RemoveMeshes(scene, ms[..|ms| - 1]) - {ms[|ms| - 1].id}
  }

  /** `buildings.forEach(...)`: each building's meshes leave the scene in turn. */
  function RemoveBuildings(scene: set<MeshId>, bs: seq<Building>): (r: set<MeshId>)
    ensures r == scene - OwnedIds(bs)
  {
    if |bs| == 0 then scene
    else
      var init, last := bs[..|bs| - 1], bs[|bs| - 1];
      assert bs == init + [last];
      AllMeshesSnoc(init, last);
      IdsAppend(AllMeshes(init), last.meshes);
      RemoveMeshes(RemoveBuildings(scene, init), last.meshes)
  }

  /**
   `clearBuildings`: the scene loses exactly the meshes the buildings own, the array is
   emptied, and no fresh id is used.
   */
  function ClearBuildings(w: World): (r: World)
    ensures r.buildings == [] && r.nextId == w.nextId
    ensures r.scene == w.scene - OwnedIds(w.buildings)
  {
    World(RemoveBuildings(w.scene, w.buildings), [], w.nextId)
  }

  /**
   Clearing an already cleared city changes nothing, and a cleared city is well formed
   when every id in its scene was issued.
   */
  lemma ClearIdempotent(w: World)
    ensures ClearBuildings(ClearBuildings(w)) == ClearBuildings(w)
    ensures Issued(w) ==> WellFormed(ClearBuildings(w))
  {
  }

  /**
   The buildings `addBuildings` constructs from the planned placements, in order: placement
   `k` becomes a building with its anchor, extents and row, taking the nine fresh ids from
   `firstId + 9k`.
   */
  function Construct(ps: seq<Placement>, firstId: MeshId): (bs: seq<Building>)
    requires forall k :: 0 <= k < |ps| ==> InUnit(ps[k].u)
    ensures |bs| == |ps|
    ensures forall k :: 0 <= k < |ps| ==> ValidExtents(Width(ps[k]), Height(ps[k]), Depth(ps[k]))
    ensures forall k :: 0 <= k < |ps| ==>
              bs[k] == NewBuilding(ps[k].x, Width(ps[k]), Height(ps[k]), Depth(ps[k]), ps[k].z,
                                   firstId + MeshesPerBuilding * k)
  {
    if |ps| == 0 then []
    else
      var n := |ps| - 1;
      var p := ps[n];
      DrawExtents(p);
      Construct(ps[..n], firstId)
        + [NewBuilding(p.x, Width(p), Height(p), Depth(p), p.z, firstId + MeshesPerBuilding * n)]
  }

  /**
   The meshes of constructed buildings carry consecutive ids: mesh `a` of the whole
   array has id `firstId + a`, so they are distinct and fill `firstId .. firstId + 9·|ps| - 1`.
   */
  lemma {:induction false} ConstructIds(ps: seq<Placement>, firstId: MeshId)
    requires forall k :: 0 <= k < |ps| ==> InUnit(ps[k].u)
    ensures var ms := AllMeshes(Construct(ps, firstId));
            && |ms| == MeshesPerBuilding * |ps|
            && forall a :: 0 <= a < |ms| ==> ms[a].id == firstId + a
  {
    if |ps| > 0 {
      var n := |ps| - 1;
      var bs := Construct(ps, firstId);
      var init := Construct(ps[..n], firstId);
      assert bs == init + [bs[n]];
      ConstructIds(ps[..n], firstId);
      AllMeshesSnoc(init, bs[n]);
    }
  }

  /** Consecutive ids are distinct and are exactly the id range they span. */
  lemma ConsecutiveIds(ms: seq<Mesh>, firstId: MeshId)
    requires forall a :: 0 <= a < |ms| ==> ms[a].id == firstId + a
    ensures UniqueIds(ms)
    ensures Ids(ms) == IdRange(firstId, firstId + |ms|)
  {
    forall id | id in IdRange(firstId, firstId + |ms|)
      ensures id in Ids(ms)
    {
      assert ms[id - firstId] in ms;
    }
  }

  /** Constructed buildings own exactly the ids `firstId .. firstId + 9·|ps| - 1`, all distinct. */
  lemma BuiltIds(ps: seq<Placement>, firstId: MeshId)
    requires forall k :: 0 <= k < |ps| ==> InUnit(ps[k].u)
    ensures OwnedIds(Construct(ps, firstId)) == IdRange(firstId, firstId + MeshesPerBuilding * |ps|)
    ensures UniqueIds(AllMeshes(Construct(ps, firstId)))
  {
    ConstructIds(ps, firstId);
    ConsecutiveIds(AllMeshes(Construct(ps, firstId)), firstId);
  }

  /**
   The second half of `addBuildings`: after clearing, one building per placement, in order,
   each added to the scene and to the array. The old buildings' meshes are gone from the
   scene and everything else in it stays; the new buildings own exactly the ids
   `w.nextId .. r.nextId - 1`, nine each, all distinct, and all of them are in the scene.
   When every id in the scene was issued before `w.nextId`, those ids are fresh: none of
   them was in the scene before, and the scene stays issued-only.
   */
  function Populate(w: World, ps: seq<Placement>): (r: World)
    requires forall k :: 0 <= k < |ps| ==> InUnit(ps[k].u)
    ensures |r.buildings| == |ps|
    ensures forall k :: 0 <= k < |ps| ==>
              && ValidExtents(Width(ps[k]), Height(ps[k]), Depth(ps[k]))
              && r.buildings[k] == NewBuilding(ps[k].x, Width(ps[k]), Height(ps[k]), Depth(ps[k]), ps[k].z,
                                               w.nextId + MeshesPerBuilding * k)
    ensures r.nextId == w.nextId + MeshesPerBuilding * |ps|
    ensures OwnedIds(r.buildings) == IdRange(w.nextId, r.nextId)
    ensures UniqueIds(AllMeshes(r.buildings))
    ensures r.scene == (w.scene - OwnedIds(w.buildings)) + IdRange(w.nextId, r.nextId)
    ensures Issued(w) ==> IdRange(w.nextId, r.nextId) !! w.scene && Issued(r)
  {
    var bs := Construct(ps, w.nextId);
    BuiltIds(ps, w.nextId);
    World(ClearBuildings(w).scene + OwnedIds(bs), bs, w.nextId + MeshesPerBuilding * |bs|)
  }

  /**
   `addBuildings` for a `W × H` viewport with `Math.random` as `rand`, starting at draw `draw0`.

   It clears the old buildings first, then lays the rows (`rows[i]` from draw `starts[i]`)
   and builds one building per placement, row after row, as `Populate` describes; four
   draws were consumed per building.
   */
  method AddBuildings(w: World, W: real, H: real, rand: nat -> real, draw0: nat)
      returns (r: World, rows: seq<seq<Placement>>, starts: seq<nat>, draw: nat)
    requires Unit(rand)
    ensures |rows| == |starts| == RowCount(H)
    ensures forall i :: 0 <= i < |rows| ==> RowLaid(W, RowZ(H, i), rand, starts[i], rows[i])
    ensures |rows| > 0 ==> starts[0] == draw0
    ensures forall i :: 0 <= i < |rows| - 1 ==> starts[i + 1] == starts[i] + DrawsPerBuilding * |rows[i]|
    ensures forall k :: 0 <= k < |Concat(rows)| ==> InUnit(Concat(rows)[k].u)
    ensures r == Populate(w, Concat(rows))
    ensures draw == draw0 + DrawsPerBuilding * |r.buildings|
    ensures W <= 4.0 * BandHigh ==> InBand(AllMeshes(r.buildings))
  {
    rows, starts, draw := PlanCity(W, H, rand, draw0);
    ConcatInUnit(W, H, rand, rows, starts);
    r := Populate(w, Concat(rows));
    if W <= 4.0 * BandHigh {
      ConcatAnchors(W, H, rand, rows, starts);
      PopulateInBand(w, Concat(rows));
    }
  }

  /** Buildings whose meshes all lie in the band `[-100, 100]` give a mesh list in the band. */
  lemma {:induction false} BuildingsInBand(bs: seq<Building>)
    requires forall k, j :: 0 <= k < |bs| && 0 <= j < |bs[k].meshes| ==> BandLow <= bs[k].meshes[j].x <= BandHigh
    ensures InBand(AllMeshes(bs))
  {
    if |bs| > 0 {
      var init, last := bs[..|bs| - 1], bs[|bs| - 1];
      BuildingsInBand(init);
      var a: seq<Mesh>, b: seq<Mesh> := AllMeshes(init), last.meshes;
      var ab := a + b;
      forall i | 0 <= i < |ab|
        ensures BandLow <= ab[i].x <= BandHigh
      {
        if i >= |a| {
          assert ab[i] == b[i - |a|];
        } else {
          assert ab[i] == a[i];
        }
      }
      AllMeshesSnoc(init, last);
      assert bs == init + [last];
    }
  }

  /** Buildings anchored inside the band put every one of their meshes inside it. */
  lemma PopulateInBand(w: World, ps: seq<Placement>)
    requires forall k :: 0 <= k < |ps| ==> InUnit(ps[k].u)
    requires forall k :: 0 <= k < |ps| ==> BandLow <= ps[k].x <= BandHigh
    ensures InBand(AllMeshes(Populate(w, ps).buildings))
  {
    var bs := Populate(w, ps).buildings;
    forall k: nat, j: nat | k < |bs| && j < |bs[k].meshes|
      ensures BandLow <= bs[k].meshes[j].x <= BandHigh
    {
      assert bs[k].meshes[j].x == ps[k].x;
    }
    BuildingsInBand(bs);
  }

  /**
   After `addBuildings` the city is well formed, whatever buildings it had, as long as
   every id in its scene was issued.
   */
  lemma AddBuildingsWellFormed(w: World, ps: seq<Placement>)
    requires forall k :: 0 <= k < |ps| ==> InUnit(ps[k].u)
    ensures Issued(w) ==> WellFormed(Populate(w, ps))
  {
  }

  /**
   A scene object no building owns (the ambient light, say) survives `addBuildings` and
   any later `clearBuildings`: the new buildings never take its id.
   */
  lemma OthersSurvive(w: World, ps: seq<Placement>, id: MeshId)
    requires forall k :: 0 <= k < |ps| ==> InUnit(ps[k].u)
    requires Issued(w) && id in w.scene && id !in OwnedIds(w.buildings)
    ensures var r := Populate(w, ps);
            && id in r.scene && id !in OwnedIds(r.buildings)
            && id in ClearBuildings(r).scene
  {
  }

  /**
   `buildings.forEach(b => b.pan(delta))`: every building pans in array order, each
   removing its dropped meshes from the scene the previous one left.
   */
  function PanAll(bs: seq<Building>, scene: set<MeshId>, delta: real): (r: (seq<Building>, set<MeshId>))
    ensures |r.0| == |bs|
    ensures forall k :: 0 <= k < |bs| ==> r.0[k] == bs[k].(meshes := PanMeshes(bs[k].meshes, delta))
    ensures AllMeshes(r.0) == PanMeshes(AllMeshes(bs), delta)
    ensures r.1 == scene - DroppedIds(AllMeshes(bs), delta)
  {
    if |bs| == 0 then ([], scene)
    else
      var init, last := bs[..|bs| - 1], bs[|bs| - 1];
      var (done, s) := PanAll(init, scene, delta);
      var (b, s') := Pan(last, s, delta);
      AllMeshesSnoc(init, last);
      AllMeshesSnoc(done, b);
      PanAppend(AllMeshes(init), last.meshes, delta);
      (done + [b], s')
  }

  /** One animation frame of the skyline: every building pans by `delta`. */
  function Frame(w: World, delta: real): (r: World)
    ensures r.nextId == w.nextId && r.scene <= w.scene
    ensures |r.buildings| == |w.buildings|
    ensures AllMeshes(r.buildings) == PanMeshes(AllMeshes(w.buildings), delta)
    ensures r.scene == w.scene - DroppedIds(AllMeshes(w.buildings), delta)
  {
    var (bs, scene) := PanAll(w.buildings, w.scene, delta);
    World(scene, bs, w.nextId)
  }

  /**
   A frame keeps the city well formed: the meshes that stay keep their distinct ids and
   are still in the scene, because a building only removes from the scene what it drops.
   */
  lemma FrameWellFormed(w: World, delta: real)
    requires WellFormed(w)
    ensures WellFormed(Frame(w, delta))
  {
    PanIds(AllMeshes(w.buildings), delta);
  }

  /**
   Once every mesh of the city is in the band, a frame with `0 <= delta <= 200` removes
   nothing from the scene and leaves every mesh in the band.
   */
  lemma FrameInBand(w: World, delta: real)
    requires InBand(AllMeshes(w.buildings)) && 0.0 <= delta <= WrapDistance
    ensures Frame(w, delta).scene == w.scene
    ensures InBand(AllMeshes(Frame(w, delta).buildings))
    ensures |AllMeshes(Frame(w, delta).buildings)| == |AllMeshes(w.buildings)|
  {
    BandPreserved(AllMeshes(w.buildings), delta);
  }

  /** The distance every building moves left per animation frame. */
  const PanSpeed: real := 0.03

  /** `n` iterations of `animate`, as far as the buildings are concerned. */
  function Frames(w: World, n: nat): World
    decreases n
  {
    if n == 0 then w else Frames(Frame(w, PanSpeed), n - 1)
  }

  /**
   `r` is a later state of `w` under animation: no id was handed out, the scene only
   shrank, no building left the array, and a well-formed city stayed well formed.
   */
  predicate Follows(w: World, r: World)
  {
    && r.nextId == w.nextId && r.scene <= w.scene
    && |r.buildings| == |w.buildings|
    && (WellFormed(w) ==> WellFormed(r))
  }

  /** One frame leads to a later state. */
  lemma FrameFollows(w: World, delta: real)
    ensures Follows(w, Frame(w, delta))
  {
    if WellFormed(w) {
      FrameWellFormed(w, delta);
    }
  }

  /** A later state of a later state is a later state. */
  lemma FollowsTrans(a: World, b: World, c: World)
    requires Follows(a, b) && Follows(b, c)
    ensures Follows(a, c)
  {
  }

  /**
   However many frames run, no id is handed out, the scene only shrinks, no building
   leaves the array, and a well-formed city stays well formed.
   */
  lemma {:induction false} FramesShrink(w: World, n: nat)
    ensures Follows(w, Frames(w, n))
    decreases n
  {
    if n > 0 {
      var next := Frame(w, PanSpeed);
      FrameFollows(w, PanSpeed);
      FramesShrink(next, n - 1);
      FollowsTrans(w, next, Frames(next, n - 1));
      FramesUnroll(w, n);
    }
  }

  /** One frame at `PanSpeed` of a well-formed city in the band: still well formed and in the band, nothing removed. */
  lemma AnimateStep(w: World)
    requires WellFormed(w) && InBand(AllMeshes(w.buildings))
    ensures var r := Frame(w, PanSpeed);
            && WellFormed(r)
            && InBand(AllMeshes(r.buildings))
            && |AllMeshes(r.buildings)| == |AllMeshes(w.buildings)|
            && r.scene == w.scene
  {
    FrameInBand(w, PanSpeed);
    FrameWellFormed(w, PanSpeed);
  }

  /**
   A well-formed city whose meshes are all in the band stays so under animation for any
   number of frames: every mesh stays in the band, none is removed, the scene is unchanged.
   */
  lemma {:induction false} AnimateKeepsBand(w: World, n: nat)
    requires WellFormed(w) && InBand(AllMeshes(w.buildings))
    ensures var r := Frames(w, n);
            && WellFormed(r)
            && InBand(AllMeshes(r.buildings))
            && |AllMeshes(r.buildings)| == |AllMeshes(w.buildings)|
            && r.scene == w.scene
    decreases n
  {
    if n > 0 {
      var next := Frame(w, PanSpeed);
      AnimateStep(w);
      AnimateKeepsBand(next, n - 1);
      FramesUnroll(w, n);
    }
  }

  /** The first of `n > 0` frames is one `Frame`; the rest are `n - 1` frames from there. */
  lemma FramesUnroll(w: World, n: nat)
    requires n > 0
    ensures Frames(w, n) == Frames(Frame(w, PanSpeed), n - 1)
  {
  }
}
