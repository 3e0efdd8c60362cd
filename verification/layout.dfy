/**
 City layout: where `addBuildings` puts buildings for a viewport of `W × H` pixels.

 There are `ceil(H / 200)` rows, row `k` at depth `z = -H/30 + 10·k`. In each row the
 anchor starts at `-W/4`; while it is left of `W/4` a building is drawn (width, height,
 depth, then the gap after it, four random draws) and the anchor advances by the
 building's width plus the gap.

 `Math.random` is the parameter `rand`: the `n`-th draw of the run is `rand(n)`.
 */
module Layout {
  import opened Sampling
  import opened Buildings

  const MinWidth: real := 5.0
  const MaxWidth: real := 25.0
  const MinHeight: real := 20.0
  const HeightSpread: real := 50.0
  const MinDepth: real := 5.0
  /** Depth of one row; a building may be up to two rows deep. */
  const RowDepth: real := 10.0
  const MaxDepth: real := 2.0 * RowDepth
  const MinGap: real := MaxWidth
  /** Viewport pixels per row. */
  const PixelsPerRow: real := 200.0
  /** Random draws consumed per building: width, height, depth and gap. */
  const DrawsPerBuilding: nat := 4

  function MaxGap(W: real): real { W / 4.0 }
  function XStart(W: real): real { -W / 4.0 }
  function XEnd(W: real): real { W / 4.0 }

  /** Every draw lies in `[0, 1)`, as `Math.random` promises. */
  ghost predicate Unit(rand: nat -> real)
  {
    forall n: nat :: 0.0 <= rand(n) < 1.0
  }

  /** The four draws one building consumes, each in `[0, 1)`: width, height, depth, then gap. */
  datatype Draws = Draws(width: real, height: real, depth: real, gap: real)

  /** One planned building: anchor `x`, row depth `z`, and the draws that fix its extents and gap. */
  datatype Placement = Placement(x: real, z: real, u: Draws)

  /** The four consecutive draws starting at draw `n`. */
  function DrawsAt(rand: nat -> real, n: nat): Draws
  {
    Draws(rand(n), rand(n + 1), rand(n + 2), rand(n + 3))
  }

  /** `lo + r * c`: a draw `r` scaled to the range that starts at `lo` and spans `c`. */
  function Lerp(r: real, lo: real, c: real): real
  {
    lo + r * c
  }

  /** The building's width, from its first draw. */
  function Width(p: Placement): real
  {
    Lerp(p.u.width, MinWidth, MaxWidth - MinWidth)
  }

  /** The building's height, from its second draw. */
  function Height(p: Placement): real
  {
    Lerp(p.u.height, MinHeight, HeightSpread)
  }

  /** The building's depth, from its third draw. */
  function Depth(p: Placement): real
  {
    Lerp(p.u.depth, MinDepth, MaxDepth - MinDepth)
  }

  /** The gap after the building, from its fourth draw. */
  function Gap(p: Placement, W: real): real
  {
    Lerp(p.u.gap, MinGap, MaxGap(W) - MinGap)
  }

  /** Where the anchor goes after this building: past its right edge by the gap. */
  function Next(p: Placement, W: real): real
  {
    p.x + Width(p) + Gap(p, W)
  }

  /** All four draws lie in `[0, 1)`. */
  predicate InUnit(u: Draws)
  {
    && 0.0 <= u.width < 1.0 && 0.0 <= u.height < 1.0
    && 0.0 <= u.depth < 1.0 && 0.0 <= u.gap < 1.0
  }

  /** A draw in `[0, 1)` scales `c` to somewhere between `0` and `c`, reaching `0` but never `c`. */
  lemma Scale(r: real, c: real)
    requires 0.0 <= r < 1.0
    ensures c >= 0.0 ==> 0.0 <= r * c <= c
    ensures c > 0.0 ==> r * c < c
    ensures c < 0.0 ==> c < r * c <= 0.0
  {
  }

  /** A value drawn uniformly between `lo` and `lo + c`: `lo` is reachable, `lo + c` is not. */
  lemma Between(r: real, lo: real, c: real)
    requires 0.0 <= r < 1.0
    ensures c > 0.0 ==> lo <= Lerp(r, lo, c) < lo + c
    ensures c == 0.0 ==> Lerp(r, lo, c) == lo
    ensures c < 0.0 ==> lo + c < Lerp(r, lo, c) <= lo
  {
    Scale(r, c);
    if c < 0.0 {
      assert c < r * c <= 0.0;
      assert lo + c < lo + r * c <= lo;
    }
  }

  /**
   Extents of a drawn building: width in `[5, 25)`, height in `[20, 70)` and depth in
   `[5, 20)`, so a box can always be built from them.
   */
  lemma DrawExtents(p: Placement)
    requires InUnit(p.u)
    ensures MinWidth <= Width(p) < MaxWidth
    ensures MinHeight <= Height(p) < MinHeight + HeightSpread
    ensures MinDepth <= Depth(p) < MaxDepth
    ensures ValidExtents(Width(p), Height(p), Depth(p))
  {
  }

  /**
   The gap after a building lies between `25` and `W/4`, whichever way round they are,
   and is positive for a positive viewport width.
   */
  lemma GapRange(p: Placement, W: real)
    requires InUnit(p.u)
    ensures MaxGap(W) >= MinGap ==> MinGap <= Gap(p, W) <= MaxGap(W)
    ensures MaxGap(W) < MinGap ==> MaxGap(W) < Gap(p, W) <= MinGap
    ensures W > 0.0 ==> Gap(p, W) > 0.0
  {
    Between(p.u.gap, MinGap, MaxGap(W) - MinGap);
  }

  /**
   `row` is a complete row laid from anchor `x0` and draw `n0`: building `k` stands in row
   `z` and is made from the draws starting at `n0 + 4k`, the first is anchored at `x0`, each
   next anchor is the previous anchor plus its width and gap, every anchor is left of `W/4`,
   the row is non-empty exactly when `x0` is left of `W/4`, and the anchor after its last
   building has reached `W/4`.
   */
  predicate LaidFrom(W: real, z: real, rand: nat -> real, x0: real, n0: nat, row: seq<Placement>)
  {
    && (forall k :: 0 <= k < |row| ==> row[k].z == z && row[k].u == DrawsAt(rand, n0 + DrawsPerBuilding * k))
    && (|row| > 0 ==> row[0].x == x0)
    && (forall k :: 0 <= k < |row| - 1 ==> row[k + 1].x == Next(row[k], W))
    && (forall k :: 0 <= k < |row| ==> row[k].x < XEnd(W))
    && (|row| > 0 <==> x0 < XEnd(W))
    && (|row| > 0 ==> Next(row[|row| - 1], W) >= XEnd(W))
  }

  /**
   A complete row of the city: laid from `-W/4`, so it is non-empty exactly when the
   viewport has positive width.
   */
  predicate RowLaid(W: real, z: real, rand: nat -> real, n0: nat, row: seq<Placement>)
  {
    LaidFrom(W, z, rand, XStart(W), n0, row)
  }

  /** Moving at least one unit further lowers the whole-unit distance left to `e`. */
  lemma FloorDecreases(e: real, x: real, step: real)
    requires step >= 1.0
    ensures (e - (x + step)).Floor < (e - x).Floor
  {
  }

  /**
   A building placed at an anchor left of `W/4` moves the anchor right by more than one
   minimum width, so the whole-unit distance left to `W/4` goes down.
   */
  lemma Advance(W: real, p: Placement)
    requires InUnit(p.u) && XStart(W) <= p.x < XEnd(W)
    ensures p.x + MinWidth < Next(p, W)
    ensures (XEnd(W) - Next(p, W)).Floor < (XEnd(W) - p.x).Floor
  {
    DrawExtents(p);
    GapRange(p, W);
    FloorDecreases(XEnd(W), p.x, Width(p) + Gap(p, W));
  }

  /**
   The row laid from anchor `x` and draw `n`, as a recursive reference for the loop: it
   holds a building exactly when `x` is left of `W/4`.
   */
  function LayFrom(W: real, z: real, rand: nat -> real, x: real, n: nat): (r: seq<Placement>)
    requires Unit(rand) && x >= XStart(W)
    decreases (XEnd(W) - x).Floor
  {
    if x < XEnd(W) then
      var p := Placement(x, z, DrawsAt(rand, n));
      Advance(W, p);
      [p] + LayFrom(W, z, rand, Next(p, W), n + DrawsPerBuilding)
    else []
  }

  /** The row at depth `z` whose first building takes draw `n0`; empty exactly when the viewport has no width. */
  function LayRow(W: real, z: real, rand: nat -> real, n0: nat): (r: seq<Placement>)
    requires Unit(rand)
  {
    LayFrom(W, z, rand, XStart(W), n0)
  }

  /** One step of the reference: a row laid from a building's anchor is that building followed by the row from the next anchor. */
  lemma LayStep(W: real, z: real, rand: nat -> real, x: real, n: nat)
    requires Unit(rand) && XStart(W) <= x < XEnd(W)
    ensures var p := Placement(x, z, DrawsAt(rand, n));
            && x < Next(p, W)
            && (XEnd(W) - Next(p, W)).Floor < (XEnd(W) - x).Floor
            && LayFrom(W, z, rand, x, n) == [p] + LayFrom(W, z, rand, Next(p, W), n + DrawsPerBuilding)
  {
    Advance(W, Placement(x, z, DrawsAt(rand, n)));
  }

  /** Putting a building in front of a complete row laid from its next anchor gives a complete row laid from its own. */
  lemma LaidCons(W: real, z: real, rand: nat -> real, p: Placement, n: nat, rest: seq<Placement>)
    requires p.z == z && p.u == DrawsAt(rand, n) && p.x < XEnd(W)
    requires LaidFrom(W, z, rand, Next(p, W), n + DrawsPerBuilding, rest)
    ensures LaidFrom(W, z, rand, p.x, n, [p] + rest)
  {
    var row := [p] + rest;
    forall k | 1 <= k < |row|
      ensures row[k] == rest[k - 1]
      ensures row[k].u == DrawsAt(rand, n + DrawsPerBuilding * k)
    {
      assert n + DrawsPerBuilding + DrawsPerBuilding * (k - 1) == n + DrawsPerBuilding * k;
    }
  }

  /** The reference row is a complete row in the sense of `LaidFrom`. */
  lemma {:induction false} LayFromLaid(W: real, z: real, rand: nat -> real, x: real, n: nat)
    requires Unit(rand) && x >= XStart(W)
    ensures LaidFrom(W, z, rand, x, n, LayFrom(W, z, rand, x, n))
    decreases (XEnd(W) - x).Floor
  {
    if x < XEnd(W) {
      var p := Placement(x, z, DrawsAt(rand, n));
      LayStep(W, z, rand, x, n);
      LayFromLaid(W, z, rand, Next(p, W), n + DrawsPerBuilding);
      LaidCons(W, z, rand, p, n, LayFrom(W, z, rand, Next(p, W), n + DrawsPerBuilding));
    }
  }

  /** Dropping the first building of a complete row leaves a complete row laid from the next anchor. */
  lemma LaidTail(W: real, z: real, rand: nat -> real, x0: real, n0: nat, row: seq<Placement>)
    requires LaidFrom(W, z, rand, x0, n0, row) && |row| > 0
    ensures LaidFrom(W, z, rand, Next(row[0], W), n0 + DrawsPerBuilding, row[1..])
  {
    var rest := row[1..];
    forall k | 0 <= k < |rest|
      ensures rest[k] == row[k + 1]
      ensures rest[k].u == DrawsAt(rand, n0 + DrawsPerBuilding + DrawsPerBuilding * k)
    {
      assert n0 + DrawsPerBuilding * (k + 1) == n0 + DrawsPerBuilding + DrawsPerBuilding * k;
    }
  }

  /**
   A complete row is determined by where it starts: any row laid from anchor `x0` and draw
   `n0` is the reference row, so `LaidFrom` is a full description of what the loop builds.
   */
  lemma {:induction false} LaidIsReference(W: real, z: real, rand: nat -> real, x0: real, n0: nat, row: seq<Placement>)
    requires Unit(rand) && x0 >= XStart(W) && LaidFrom(W, z, rand, x0, n0, row)
    ensures row == LayFrom(W, z, rand, x0, n0)
    decreases |row|
  {
    if x0 < XEnd(W) {
      var p := Placement(x0, z, DrawsAt(rand, n0));
      LaidHead(W, z, rand, x0, n0, row);
      LayStep(W, z, rand, x0, n0);
      LaidTail(W, z, rand, x0, n0, row);
      LaidIsReference(W, z, rand, Next(p, W), n0 + DrawsPerBuilding, row[1..]);
      SplitHead(row);
    }
  }

  /** A complete row laid from an anchor left of `W/4` starts with the building at that anchor. */
  lemma LaidHead(W: real, z: real, rand: nat -> real, x0: real, n0: nat, row: seq<Placement>)
    requires LaidFrom(W, z, rand, x0, n0, row) && x0 < XEnd(W)
    ensures |row| > 0 && row[0] == Placement(x0, z, DrawsAt(rand, n0))
  {
  }

  /** A non-empty sequence is its head followed by its tail. */
  lemma SplitHead<T>(s: seq<T>)
    requires |s| > 0
    ensures s == [s[0]] + s[1..]
  {
  }

  /** Exactly one row of a viewport is complete for a given depth and first draw: the reference row. */
  lemma RowLaidUnique(W: real, z: real, rand: nat -> real, n0: nat, row: seq<Placement>)
    requires Unit(rand)
    ensures RowLaid(W, z, rand, n0, row) <==> row == LayRow(W, z, rand, n0)
  {
    if RowLaid(W, z, rand, n0, row) {
      LaidIsReference(W, z, rand, XStart(W), n0, row);
    } else {
      LayFromLaid(W, z, rand, XStart(W), n0);
    }
  }

  /** The inner `while (x < xEnd)` loop of `addBuildings` for the row at depth `z`. */
  method PlanRow(W: real, z: real, rand: nat -> real, draw0: nat) returns (row: seq<Placement>, draw: nat)
    requires Unit(rand)
    ensures row == LayRow(W, z, rand, draw0)
    ensures RowLaid(W, z, rand, draw0, row)
    ensures draw == draw0 + DrawsPerBuilding * |row|
  {
    var x := XStart(W);
    row, draw := [], draw0;
    while x < XEnd(W)
      invariant x >= XStart(W)
      invariant draw == draw0 + DrawsPerBuilding * |row|
      invariant row + LayFrom(W, z, rand, x, draw) == LayRow(W, z, rand, draw0)
      decreases (XEnd(W) - x).Floor
    {
      var p := Placement(x, z, DrawsAt(rand, draw));
      LayStep(W, z, rand, x, draw);
      var rest := LayFrom(W, z, rand, Next(p, W), draw + DrawsPerBuilding);
      assert row + ([p] + rest) == (row + [p]) + rest;
      row := row + [p];
      draw := draw + DrawsPerBuilding;
      x := Next(p, W);
    }
    assert row + [] == row;
    LayFromLaid(W, z, rand, XStart(W), draw0);
  }

  /**
   Along a laid row the anchors stay in `[-W/4, W/4)` and strictly increase, each at least
   one minimum width past the one before.
   */
  lemma {:induction false} RowAnchors(W: real, z: real, rand: nat -> real, n0: nat, row: seq<Placement>)
    requires Unit(rand) && RowLaid(W, z, rand, n0, row)
    ensures forall k :: 0 <= k < |row| ==> XStart(W) <= row[k].x < XEnd(W)
    ensures forall k, l :: 0 <= k < l < |row| ==> row[k].x + MinWidth < row[l].x
  {
    forall k | 0 <= k < |row| - 1
      ensures row[k].x + MinWidth < row[k + 1].x
    {
      DrawExtents(row[k]);
      GapRange(row[k], W);
    }
    AnchorsIncrease(row, |row|);
  }

  /** Consecutive steps of more than `MinWidth` add up along the first `n` anchors. */
  lemma {:induction false} AnchorsIncrease(row: seq<Placement>, n: nat)
    requires n <= |row|
    requires forall k :: 0 <= k < |row| - 1 ==> row[k].x + MinWidth < row[k + 1].x
    ensures forall k, l :: 0 <= k < l < n ==> row[k].x + MinWidth < row[l].x
    ensures forall k :: 0 <= k < n ==> row[0].x <= row[k].x
  {
    if n > 1 {
      AnchorsIncrease(row, n - 1);
      assert row[n - 2].x + MinWidth < row[n - 1].x;
    }
  }

  /**
   For a viewport at least 100 wide every gap is at least the largest width, so the boxes
   of neighbouring buildings in a row, each centred on its anchor, never overlap.
   */
  lemma NeighboursApartWhenWide(W: real, z: real, rand: nat -> real, n0: nat, row: seq<Placement>, k: nat)
    requires Unit(rand) && RowLaid(W, z, rand, n0, row) && W >= 4.0 * MinGap
    requires k + 1 < |row|
    ensures row[k].x + Width(row[k]) / 2.0 < row[k + 1].x - Width(row[k + 1]) / 2.0
  {
    DrawExtents(row[k]);
    DrawExtents(row[k + 1]);
    GapRange(row[k], W);
  }

  /** Number of rows, `Math.ceil(H / 200)`, with no rows for a non-positive height. */
  function RowCount(H: real): (n: nat)
    ensures H <= 0.0 ==> n == 0
    ensures H > 0.0 ==> (n - 1) as real * PixelsPerRow < H <= n as real * PixelsPerRow
  {
    var c := Ceil(H / PixelsPerRow);
    if c < 0 then 0 else c
  }

  /** Depth of row `k`: rows start at `-H/30` and are `RowDepth` apart. */
  function RowZ(H: real, k: nat): real
  {
    -H / 30.0 + k as real * RowDepth
  }

  /** The first row is at depth `-H/30`, and each further row is one row depth behind the one before. */
  lemma RowDepths(H: real, k: nat)
    ensures RowZ(H, 0) == -H / 30.0
    ensures RowZ(H, k + 1) == RowZ(H, k) + RowDepth
  {
  }

  /** All buildings of the rows, row by row. */
  function Concat(rows: seq<seq<Placement>>): (r: seq<Placement>)
  {
    if |rows| == 0 then [] else Concat(rows[..|rows| - 1]) + rows[|rows| - 1]
  }

  /**
   What the outer loop has laid so far: row `k` is the reference row at depth `RowZ(H, k)`
   laid from draw `starts[k]`, the first row starts at `draw0`, each next row where the
   previous one stopped, and `draw` is where the last one stopped.
   */
  predicate Planned(W: real, H: real, rand: nat -> real, draw0: nat,
                    rows: seq<seq<Placement>>, starts: seq<nat>, draw: nat)
    requires Unit(rand)
  {
    && |rows| == |starts|
    && (forall k :: 0 <= k < |rows| ==> rows[k] == LayRow(W, RowZ(H, k), rand, starts[k]))
    && (|rows| > 0 ==> starts[0] == draw0)
    && (forall k :: 0 <= k < |rows| - 1 ==> starts[k + 1] == starts[k] + DrawsPerBuilding * |rows[k]|)
    && (|rows| > 0 ==> draw == starts[|rows| - 1] + DrawsPerBuilding * |rows[|rows| - 1]|)
    && draw == draw0 + DrawsPerBuilding * |Concat(rows)|
  }

  /** Laying the next row from where the last one stopped keeps `Planned`. */
  lemma PlannedSnoc(W: real, H: real, rand: nat -> real, draw0: nat,
                    rows: seq<seq<Placement>>, starts: seq<nat>, draw: nat, row: seq<Placement>)
    requires Unit(rand) && Planned(W, H, rand, draw0, rows, starts, draw)
    requires row == LayRow(W, RowZ(H, |rows|), rand, draw)
    ensures Planned(W, H, rand, draw0, rows + [row], starts + [draw], draw + DrawsPerBuilding * |row|)
  {
    ConcatSnoc(rows, row);
    var rows', starts' := rows + [row], starts + [draw];
    forall k | 0 <= k < |rows'|
      ensures rows'[k] == LayRow(W, RowZ(H, k), rand, starts'[k])
    {
      if k < |rows| {
        assert rows'[k] == rows[k] && starts'[k] == starts[k];
      }
    }
    forall k | 0 <= k < |rows'| - 1
      ensures starts'[k + 1] == starts'[k] + DrawsPerBuilding * |rows'[k]|
    {
      if k < |rows| - 1 {
        assert starts'[k + 1] == starts[k + 1] && starts'[k] == starts[k] && rows'[k] == rows[k];
      }
    }
  }

  /** Every reference row is a complete row. */
  lemma PlannedLaid(W: real, H: real, rand: nat -> real, rows: seq<seq<Placement>>, starts: seq<nat>)
    requires Unit(rand) && |rows| == |starts|
    requires forall k :: 0 <= k < |rows| ==> rows[k] == LayRow(W, RowZ(H, k), rand, starts[k])
    ensures forall k :: 0 <= k < |rows| ==> RowLaid(W, RowZ(H, k), rand, starts[k], rows[k])
  {
    forall k | 0 <= k < |rows|
      ensures RowLaid(W, RowZ(H, k), rand, starts[k], rows[k])
    {
      LayFromLaid(W, RowZ(H, k), rand, XStart(W), starts[k]);
    }
  }

  /**
   The outer `zPositions.forEach` of `addBuildings`: one row per row depth. Row `i` is the
   reference row laid from draw `starts[i]`, and so a complete row; the first row starts at
   `draw0` and each next row where the previous one stopped, and `draw` is where the last
   one stopped.
   */
  method PlanCity(W: real, H: real, rand: nat -> real, draw0: nat)
      returns (rows: seq<seq<Placement>>, starts: seq<nat>, draw: nat)
    requires Unit(rand)
    ensures |rows| == |starts| == RowCount(H)
    ensures forall i :: 0 <= i < |rows| ==> rows[i] == LayRow(W, RowZ(H, i), rand, starts[i])
    ensures forall i :: 0 <= i < |rows| ==> RowLaid(W, RowZ(H, i), rand, starts[i], rows[i])
    ensures |rows| > 0 ==> starts[0] == draw0
    ensures forall i :: 0 <= i < |rows| - 1 ==> starts[i + 1] == starts[i] + DrawsPerBuilding * |rows[i]|
    ensures draw == draw0 + DrawsPerBuilding * |Concat(rows)|
  {
    rows, starts, draw := [], [], draw0;
    while |rows| < RowCount(H)
      invariant |rows| <= RowCount(H)
      invariant Planned(W, H, rand, draw0, rows, starts, draw)
      decreases RowCount(H) - |rows|
    {
      var row, next := PlanRow(W, RowZ(H, |rows|), rand, draw);
      PlannedSnoc(W, H, rand, draw0, rows, starts, draw, row);
      rows, starts, draw := rows + [row], starts + [draw], next;
    }
    PlannedLaid(W, H, rand, rows, starts);
  }

  /** Growing the rows by one extends the concatenation by that row. */
  lemma ConcatSnoc(rows: seq<seq<Placement>>, row: seq<Placement>)
    ensures Concat(rows + [row]) == Concat(rows) + row
  {
    assert (rows + [row])[..|rows|] == rows;
  }

  /** Every building of laid rows is made from draws in `[0, 1)`. */
  lemma {:induction false} ConcatInUnit(W: real, H: real, rand: nat -> real, rows: seq<seq<Placement>>, starts: seq<nat>)
    requires Unit(rand) && |starts| == |rows|
    requires forall i :: 0 <= i < |rows| ==> RowLaid(W, RowZ(H, i), rand, starts[i], rows[i])
    ensures forall k :: 0 <= k < |Concat(rows)| ==> InUnit(Concat(rows)[k].u)
  {
    if |rows| > 0 {
      var n := |rows| - 1;
      ConcatInUnit(W, H, rand, rows[..n], starts[..n]);
      var last := rows[n];
      assert RowLaid(W, RowZ(H, n), rand, starts[n], last);
      assert forall k :: 0 <= k < |last| ==> InUnit(last[k].u);
    }
  }

  /** Every building of laid rows is anchored in `[-W/4, W/4)`. */
  lemma {:induction false} ConcatAnchors(W: real, H: real, rand: nat -> real, rows: seq<seq<Placement>>, starts: seq<nat>)
    requires Unit(rand) && |starts| == |rows|
    requires forall i :: 0 <= i < |rows| ==> RowLaid(W, RowZ(H, i), rand, starts[i], rows[i])
    ensures forall k :: 0 <= k < |Concat(rows)| ==> XStart(W) <= Concat(rows)[k].x < XEnd(W)
  {
    if |rows| > 0 {
      var n := |rows| - 1;
      ConcatAnchors(W, H, rand, rows[..n], starts[..n]);
      RowAnchors(W, RowZ(H, n), rand, starts[n], rows[n]);
    }
  }
}
