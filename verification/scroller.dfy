/** `Update`: one frame of scrolling. Pass 1 moves every segment by
    `dir * speed * dt`; pass 2 visits the segments in array order and moves
    any segment that has left the run to the far side of its ring
    neighbour, edge to edge. Pass 2 is sequential: a neighbour visited
    earlier in the same pass is read at its new position. */
module Scroller {
  import opened Vectors
  import opened Rounding
  import opened Segments
  import opened Run

  /** `Dist(currentPos, targetPos, dir)`: the distance from `current` to
      `target`, signed by how the direction toward `target` lines up with
      `dir`. For two points on one line parallel to the z axis it is the
      offset `target.z - current.z` scaled by `dir.z`, except that it is
      zero when the points are no more than `NormalizeEpsilon` apart, where
      `normalized` gives the zero vector. */
  function Dist(current: Vec3, target: Vec3, dir: Vec3): (d: real)
    requires current.x == target.x && current.y == target.y
    ensures Abs(target.z - current.z) > NormalizeEpsilon ==> d == dir.z * (target.z - current.z)
    ensures Abs(target.z - current.z) <= NormalizeEpsilon ==> d == 0.0
  {
    var delta := target.Minus(current);
    var towards := NormalizedOnAxis(delta);
    assert towards.z * DistanceOnAxis(target, current) == (if towards == Zero then 0.0 else delta.z);
    Dot(towards, dir) * DistanceOnAxis(target, current)
  }

  /** A run going forward in z whose ends share x and y and whose length
      can be divided by. */
  predicate Measurable(run: RunGeometry) {
    && run.startPos.x == run.endPos.x
    && run.startPos.y == run.endPos.y
    && run.startPos.z < run.endPos.z
    && run.totalDistance > 0.0
  }

  /** `distanceToStartNEW` in `Update` for a segment at `z` on a run going
      forward in z: the segment's offset `z - start.z` from the run start,
      or zero when the run or the offset is no longer than
      `NormalizeEpsilon`, because `normalized` then gives the zero vector. */
  function DistanceToStart(z: real, run: RunGeometry): real {
    if run.endPos.z - run.startPos.z > NormalizeEpsilon && Abs(z - run.startPos.z) > NormalizeEpsilon
    then z - run.startPos.z
    else 0.0
  }

  /** `Dist` from a segment on the run's line to the run start, against the
      axis `(startPos - endPos).normalized`, is `DistanceToStart`. */
  lemma DistanceToStartIsDist(pos: Vec3, run: RunGeometry)
    requires run.startPos.x == run.endPos.x && run.startPos.y == run.endPos.y
    requires pos.x == run.startPos.x && pos.y == run.startPos.y
    requires run.startPos.z < run.endPos.z
    ensures Dist(pos, run.startPos, NormalizedOnAxis(run.startPos.Minus(run.endPos))) == DistanceToStart(pos.z, run)
  {
    var axis := RunAxis(run);
    DistOnLine(pos, run.startPos, axis);
    assert Abs(run.startPos.z - pos.z) == Abs(pos.z - run.startPos.z);
    if run.endPos.z - run.startPos.z > NormalizeEpsilon {
      assert axis.z * (run.startPos.z - pos.z) == pos.z - run.startPos.z;
    } else {
      assert axis.z * (run.startPos.z - pos.z) == 0.0;
    }
  }

  /** `(startPos - endPos).normalized` on a run going forward in z: backward
      along z, or zero when the run is no longer than `NormalizeEpsilon`. */
  lemma RunAxis(run: RunGeometry) returns (axis: Vec3)
    requires run.startPos.x == run.endPos.x && run.startPos.y == run.endPos.y
    requires run.startPos.z < run.endPos.z
    ensures axis == NormalizedOnAxis(run.startPos.Minus(run.endPos))
    ensures axis.z == if run.endPos.z - run.startPos.z > NormalizeEpsilon then -1.0 else 0.0
  {
    axis := NormalizedOnAxis(run.startPos.Minus(run.endPos));
  }

  /** `Dist`'s contract for one fixed `dir`, as a fact to instantiate. */
  lemma DistOnLine(current: Vec3, target: Vec3, dir: Vec3)
    requires current.x == target.x && current.y == target.y
    ensures Dist(current, target, dir)
      == if Abs(target.z - current.z) > NormalizeEpsilon then dir.z * (target.z - current.z) else 0.0
  {
  }

  /** On a run at least `2000 * NormalizeEpsilon` long the cutoff near the
      start never changes which side of a threshold a segment is on: the
      thresholds below can be read on the plain offset `z - start.z`. */
  lemma ThresholdsOnLongRun(z: real, run: RunGeometry)
    requires run.totalDistance == run.endPos.z - run.startPos.z >= 2000.0 * NormalizeEpsilon
    ensures NearStart(z, run) <==> 2000.0 * (z - run.startPos.z) <= run.totalDistance
    ensures NearEnd(z, run) <==> 1000.0 * (z - run.startPos.z) >= 999.5 * run.totalDistance
  {
  }

  /** `t` in `Update`: `distanceToStart / totalDistance` rounded to three
      decimals. It is within half a thousandth of the unrounded ratio;
      `t <= 0` exactly when the segment is `NearStart`, and `t >= 1` exactly
      when it is `NearEnd`. */
  function Progress(pos: Vec3, run: RunGeometry): (t: real)
    requires run.totalDistance > 0.0
    ensures -0.0005 <= DistanceToStart(pos.z, run) / run.totalDistance - t <= 0.0005
    ensures t <= 0.0 <==> NearStart(pos.z, run)
    ensures t >= 1.0 <==> NearEnd(pos.z, run)
  {
    var v := DistanceToStart(pos.z, run) / run.totalDistance;
    ThreeDecimalsNonPositive(v);
    ThreeDecimalsAtLeastOne(v);
    ThresholdsWithoutDivision(DistanceToStart(pos.z, run), run.totalDistance);
    ThreeDecimals(v)
  }

  /** The segment at `z` measures at most half a thousandth of the run's
      length from the run start: `1000 d / D <= 1/2` for `d` its
      `DistanceToStart`, written without the division. */
  predicate NearStart(z: real, run: RunGeometry) {
    2000.0 * DistanceToStart(z, run) <= run.totalDistance
  }

  /** The segment at `z` measures at least 999.5 thousandths of the run's
      length from the run start: `1000 d / D >= 999.5`, written without the
      division. */
  predicate NearEnd(z: real, run: RunGeometry) {
    1000.0 * DistanceToStart(z, run) >= 999.5 * run.totalDistance
  }

  /** The two thresholds on `1000 d / D`, multiplied out by the positive `D`. */
  lemma ThresholdsWithoutDivision(d: real, D: real)
    requires D > 0.0
    ensures d / D * 1000.0 <= 0.5 <==> 2000.0 * d <= D
    ensures d / D * 1000.0 >= 999.5 <==> 1000.0 * d >= 999.5 * D
  {
    var w := d / D * 1000.0;
    assert w * D == 1000.0 * d;
    ScaleByPositive(w, 0.5, D);
    ScaleByPositive(999.5, w, D);
  }

  lemma ScaleByPositive(a: real, b: real, d: real)
    requires d > 0.0
    ensures a <= b <==> a * d <= b * d
  {
    if a <= b {
      assert (b - a) * d >= 0.0;
    } else {
      assert (a - b) * d > 0.0;
    }
  }

  /** `i2Next` when moving toward the start: the ring predecessor, one index
      back modulo `n`. */
  function Pred(i: nat, n: nat): (p: nat)
    requires i < n
    ensures p < n
    ensures (p + 1) % n == i
  {
    if i == 0 then
      assert (n - 1 + 1) % n == n % n == 0;
      n - 1
    else
      assert i % n == i by { ModOfSmaller(i, n); }
      i - 1
  }

  /** `i2Next` when moving toward the end: the ring successor, one index on
      modulo `n`. */
  function Succ(i: nat, n: nat): (s: nat)
    requires i < n
    ensures s < n
    ensures s == (i + 1) % n
  {
    if i == n - 1 then
      assert (i + 1) % n == n % n == 0;
      0
    else
      ModOfSmaller(i + 1, n);
      i + 1
  }

  lemma ModOfSmaller(k: nat, n: nat)
    requires k < n
    ensures k % n == k
  {
  }

  /** The distance between the centres of two segments laid edge to edge. */
  function HalfDepths(a: Segment, b: Segment): real {
    a.depth * 0.5 + b.depth * 0.5
  }

  /** Pass 1 of one frame: every segment moved by `movement`. */
  function Translate(segs: seq<Segment>, movement: Vec3): (moved: seq<Segment>)
    ensures |moved| == |segs|
  {
    seq(|segs|, i requires 0 <= i < |segs| => segs[i].(pos := segs[i].pos.Plus(movement)))
  }

  /** Pass 1 as `Update` performs it, with `movement = dir * speed * dt`.
      Segments keep their identity and depth, and stay on the run's line. */
  function Pass1(road: Road, speed: real, dt: real): (moved: seq<Segment>)
    requires Valid(road)
    ensures |moved| == |road.segments|
    ensures OnLine(moved, road.run.startPos.x, road.run.startPos.y)
    ensures forall i :: 0 <= i < |moved| ==>
      moved[i].id == road.segments[i].id && moved[i].depth == road.segments[i].depth
  {
    Translate(road.segments, road.run.dir.Scale(speed).Scale(dt))
  }

  /** On a valid road pass 1 moves every segment exactly `speed * dt`
      backward along z and leaves its x and y alone; on a run no longer
      than `NormalizeEpsilon`, where `dir` is zero, it moves nothing. */
  lemma Pass1Shifts(road: Road, speed: real, dt: real)
    requires Valid(road)
    ensures forall i :: 0 <= i < |road.segments| ==>
      Pass1(road, speed, dt)[i]
        == road.segments[i].(pos := Vec3(road.segments[i].pos.x, road.segments[i].pos.y,
                                         road.segments[i].pos.z - Shift(road.run, speed, dt)))
  {
  }

  /** How far pass 1 moves every segment backward along z. */
  function Shift(run: RunGeometry, speed: real, dt: real): real {
    if run.totalDistance > NormalizeEpsilon then speed * dt else 0.0
  }

  /** Pass 2's body for index `i`: test the segment's progress, and if it has
      left the run on the side it is moving toward, put it edge to edge
      behind its ring predecessor (`speed >= 0`) or ahead of its ring
      successor (`speed < 0`). Only index `i` changes, and only its position. */
  function Step(cur: seq<Segment>, i: nat, run: RunGeometry, speed: real): (next: seq<Segment>)
    requires i < |cur|
    requires Measurable(run)
    requires OnLine(cur, run.startPos.x, run.startPos.y)
    ensures |next| == |cur|
    ensures OnLine(next, run.startPos.x, run.startPos.y)
    ensures forall j :: 0 <= j < |cur| && j != i ==> next[j] == cur[j]
    ensures next[i].id == cur[i].id && next[i].depth == cur[i].depth
  {
    var obj := cur[i];
    var t := Progress(obj.pos, run);
    if speed >= 0.0 then
      if t <= 0.0 then
        var p := Pred(i, |cur|);
        cur[i := obj.(pos := cur[p].pos.Plus(Vec3(0.0, 0.0, HalfDepths(obj, cur[p]))))]
      else
        cur
    else
      if t >= 1.0 then
        var s := Succ(i, |cur|);
        cur[i := obj.(pos := cur[s].pos.Minus(Vec3(0.0, 0.0, HalfDepths(obj, cur[s]))))]
      else
        cur
  }

  /** Pass 2 after its first `k` iterations: indices from `k` on are still at
      their pass-1 positions, and nothing but positions has changed. */
  function RecycleUpTo(moved: seq<Segment>, k: nat, run: RunGeometry, speed: real): (r: seq<Segment>)
    requires k <= |moved|
    requires Measurable(run)
    requires OnLine(moved, run.startPos.x, run.startPos.y)
    ensures |r| == |moved|
    ensures OnLine(r, run.startPos.x, run.startPos.y)
    ensures forall j :: k <= j < |moved| ==> r[j] == moved[j]
    ensures forall j :: 0 <= j < |moved| ==> r[j].id == moved[j].id && r[j].depth == moved[j].depth
    decreases k
  {
    if k == 0 then moved
    else Step(RecycleUpTo(moved, k - 1, run, speed), k - 1, run, speed)
  }

  /** One frame, `Update`: pass 1 then pass 2. The road stays valid, the run
      geometry is untouched, and the array keeps its length, its segments
      and their order; nothing is re-sorted. */
  function Tick(road: Road, speed: real, dt: real): (next: Road)
    requires Valid(road)
    ensures Valid(next)
    ensures next.run == road.run
    ensures |next.segments| == |road.segments|
    ensures forall i :: 0 <= i < |road.segments| ==>
      next.segments[i].id == road.segments[i].id && next.segments[i].depth == road.segments[i].depth
  {
    var moved := Pass1(road, speed, dt);
    assert Measurable(road.run);
    Road(RecycleUpTo(moved, |moved|, road.run, speed), road.run)
  }

  /** What pass 2 leaves at index `i`, stated without the loop. The segment
      is judged by its pass-1 position. If it re-anchors, it lands half its
      depth plus half its neighbour's depth from the neighbour, where a
      neighbour with a lower index is read at its final position and one
      with a higher index at its pass-1 position. Otherwise it stays at its
      pass-1 position. Identity, depth, x and y never change. */
  predicate RecycledAt(moved: seq<Segment>, r: seq<Segment>, i: nat, run: RunGeometry, speed: real)
    requires 2 <= |moved| == |r|
    requires i < |moved|
    requires Measurable(run)
    requires OnLine(moved, run.startPos.x, run.startPos.y)
  {
    var n := |moved|;
    && r[i].id == moved[i].id
    && r[i].depth == moved[i].depth
    && r[i].pos.x == moved[i].pos.x
    && r[i].pos.y == moved[i].pos.y
    && r[i].pos.z ==
         if speed >= 0.0 && Progress(moved[i].pos, run) <= 0.0 then
           (if i == 0 then moved[n - 1].pos.z else r[i - 1].pos.z) + HalfDepths(moved[i], moved[Pred(i, n)])
         else if speed < 0.0 && Progress(moved[i].pos, run) >= 1.0 then
           (if i == n - 1 then r[0].pos.z else moved[i + 1].pos.z) - HalfDepths(moved[i], moved[Succ(i, n)])
         else
           moved[i].pos.z
  }

  /** The first `k` iterations of pass 2 produce, at every visited index,
      the outcome `RecycledAt` describes. */
  lemma {:induction false} RecycleIsSequential(moved: seq<Segment>, k: nat, run: RunGeometry, speed: real)
    requires 2 <= |moved|
    requires k <= |moved|
    requires Measurable(run)
    requires OnLine(moved, run.startPos.x, run.startPos.y)
    ensures forall i :: 0 <= i < k ==> RecycledAt(moved, RecycleUpTo(moved, k, run, speed), i, run, speed)
  {
    if k > 0 {
      RecycleIsSequential(moved, k - 1, run, speed);
      var prev := RecycleUpTo(moved, k - 1, run, speed);
      var cur := RecycleUpTo(moved, k, run, speed);
      assert cur == Step(prev, k - 1, run, speed);
      forall i | 0 <= i < k ensures RecycledAt(moved, cur, i, run, speed) {
        if i < k - 1 {
          assert RecycledAt(moved, prev, i, run, speed);
          assert cur[i] == prev[i] && cur[0] == prev[0];
          assert i > 0 ==> cur[i - 1] == prev[i - 1];
        } else {
          assert prev[i] == moved[i];
          assert prev[Pred(i, |moved|)].depth == moved[Pred(i, |moved|)].depth;
          assert prev[Succ(i, |moved|)].depth == moved[Succ(i, |moved|)].depth;
          assert i == 0 ==> prev[|moved| - 1] == moved[|moved| - 1];
          assert i > 0 ==> prev[i - 1] == cur[i - 1];
          assert i < |moved| - 1 ==> prev[i + 1] == moved[i + 1];
          assert i == |moved| - 1 ==> prev[0] == cur[0];
        }
      }
    }
  }

  /** A whole frame, index by index: `Tick` leaves every segment where
      `RecycledAt` says, relative to the pass-1 positions. */
  lemma TickIsSequential(road: Road, speed: real, dt: real)
    requires Valid(road)
    ensures forall i :: 0 <= i < |road.segments| ==>
      RecycledAt(Pass1(road, speed, dt), Tick(road, speed, dt).segments, i, road.run, speed)
  {
    var moved := Pass1(road, speed, dt);
    RecycleIsSequential(moved, |moved|, road.run, speed);
  }

  /** Index `i` of one frame's outcome, split by which branch of pass 2 the
      segment takes. */
  lemma TickAt(road: Road, speed: real, dt: real, i: nat)
    requires Valid(road)
    requires i < |road.segments|
    ensures var n := |road.segments|;
            var moved := Pass1(road, speed, dt);
            var r := Tick(road, speed, dt).segments;
      && (speed >= 0.0 && Progress(moved[i].pos, road.run) <= 0.0 ==>
            r[i].pos.z == (if i == 0 then moved[n - 1].pos.z else r[i - 1].pos.z)
                          + HalfDepths(road.segments[i], road.segments[Pred(i, n)]))
      && (speed < 0.0 && Progress(moved[i].pos, road.run) >= 1.0 ==>
            r[i].pos.z == (if i == n - 1 then r[0].pos.z else moved[i + 1].pos.z)
                          - HalfDepths(road.segments[i], road.segments[Succ(i, n)]))
      && (var stays := (speed >= 0.0 ==> Progress(moved[i].pos, road.run) > 0.0)
                    && (speed < 0.0 ==> Progress(moved[i].pos, road.run) < 1.0);
          stays ==> r[i] == moved[i])
  {
    var n := |road.segments|;
    var moved := Pass1(road, speed, dt);
    var r := Tick(road, speed, dt).segments;
    TickIsSequential(road, speed, dt);
    assert RecycledAt(moved, r, i, road.run, speed);
    assert moved[i].depth == road.segments[i].depth;
    assert moved[Pred(i, n)].depth == road.segments[Pred(i, n)].depth;
    assert moved[Succ(i, n)].depth == road.segments[Succ(i, n)].depth;
  }

  /** Moving toward the start (`speed >= 0`), a segment whose translated
      position is `NearStart` is put edge to edge behind its ring
      predecessor: the final predecessor for `i > 0`, the translated last
      segment for `i == 0`. This includes `speed == 0`, where nothing moves
      but a segment exactly at the start still wraps. */
  lemma ReanchorBehindPredecessor(road: Road, speed: real, dt: real, i: nat)
    requires Valid(road)
    requires speed >= 0.0
    requires i < |road.segments|
    requires NearStart(Pass1(road, speed, dt)[i].pos.z, road.run)
    ensures var n := |road.segments|;
            var moved := Pass1(road, speed, dt);
            var r := Tick(road, speed, dt).segments;
      r[i].pos.z
        == (if i == 0 then moved[n - 1].pos.z else r[i - 1].pos.z)
           + HalfDepths(road.segments[i], road.segments[Pred(i, n)])
  {
    TickAt(road, speed, dt, i);
  }

  /** Moving toward the end (`speed < 0`), a segment whose translated
      position is `NearEnd` is put edge to edge ahead of its ring successor:
      the translated successor for `i < n - 1`, the final segment 0 for the
      last index. */
  lemma ReanchorAheadOfSuccessor(road: Road, speed: real, dt: real, i: nat)
    requires Valid(road)
    requires speed < 0.0
    requires i < |road.segments|
    requires NearEnd(Pass1(road, speed, dt)[i].pos.z, road.run)
    ensures var n := |road.segments|;
            var moved := Pass1(road, speed, dt);
            var r := Tick(road, speed, dt).segments;
      r[i].pos.z
        == (if i == n - 1 then r[0].pos.z else moved[i + 1].pos.z)
           - HalfDepths(road.segments[i], road.segments[Succ(i, n)])
  {
    TickAt(road, speed, dt, i);
  }

  /** A segment that is not near the end of the run it moves toward ends the
      frame at its translated position. */
  lemma KeepsTranslatedPosition(road: Road, speed: real, dt: real, i: nat)
    requires Valid(road)
    requires i < |road.segments|
    requires speed >= 0.0 ==> !NearStart(Pass1(road, speed, dt)[i].pos.z, road.run)
    requires speed < 0.0 ==> !NearEnd(Pass1(road, speed, dt)[i].pos.z, road.run)
    ensures Tick(road, speed, dt).segments[i] == Pass1(road, speed, dt)[i]
  {
    TickAt(road, speed, dt, i);
  }

  /** On a run no longer than `NormalizeEpsilon` the measuring axis is zero,
      so every segment measures a distance of 0 and has `t == 0`. Moving
      toward the start (`speed >= 0`), every segment is therefore
      re-anchored behind its ring predecessor on every frame, although
      pass 1 moves nothing. */
  lemma ShortRunReanchorsEverySegment(road: Road, speed: real, dt: real, i: nat)
    requires Valid(road)
    requires road.run.totalDistance <= NormalizeEpsilon
    requires speed >= 0.0
    requires i < |road.segments|
    ensures Pass1(road, speed, dt) == road.segments
    ensures Progress(road.segments[i].pos, road.run) == 0.0
    ensures var n := |road.segments|;
            var r := Tick(road, speed, dt).segments;
      r[i].pos.z
        == (if i == 0 then road.segments[n - 1].pos.z else r[i - 1].pos.z)
           + HalfDepths(road.segments[i], road.segments[Pred(i, n)])
  {
    Pass1Shifts(road, speed, dt);
    assert Pass1(road, speed, dt) == road.segments;
    assert DistanceToStart(road.segments[i].pos.z, road.run) == 0.0;
    ReanchorBehindPredecessor(road, speed, dt, i);
  }

  /** A stationary road (`speed == 0`) fresh from `Start`, whose first
      segment sits exactly at the run start, still moves that segment: its
      progress rounds to 0, so it wraps to just behind the last segment. */
  lemma StationaryRoadWrapsFirst(road: Road, dt: real)
    requires Valid(road)
    requires road.segments[0].pos == road.run.startPos
    requires road.segments[|road.segments| - 1].pos == road.run.endPos
    ensures Tick(road, 0.0, dt).segments[0].pos.z
      == road.run.endPos.z + road.segments[0].depth / 2.0 + road.segments[|road.segments| - 1].depth / 2.0
  {
    var n := |road.segments|;
    var moved := Pass1(road, 0.0, dt);
    Pass1Shifts(road, 0.0, dt);
    assert moved[0].pos.z == road.run.startPos.z;
    assert moved[n - 1].pos.z == road.run.endPos.z;
    ReanchorBehindPredecessor(road, 0.0, dt, 0);
  }

  /** Pass 1 of `Update` as written: one loop adding `movement` to every
      position. */
  method TranslateAll(segs: seq<Segment>, movement: Vec3) returns (moved: seq<Segment>)
    ensures moved == Translate(segs, movement)
  {
    moved := segs;
    var i := 0;
    while i < |moved|
      invariant 0 <= i <= |moved| == |segs|
      invariant forall j :: 0 <= j < i ==> moved[j] == segs[j].(pos := segs[j].pos.Plus(movement))
      invariant forall j :: i <= j < |moved| ==> moved[j] == segs[j]
    {
      moved := moved[i := moved[i].(pos := moved[i].pos.Plus(movement))];
      i := i + 1;
    }
  }

  /** Pass 2 of `Update` as written: one loop over the indices in order,
      re-anchoring in place, so that each neighbour is read at its current
      position in the array. */
  method ReanchorAll(moved: seq<Segment>, run: RunGeometry, speed: real) returns (objects: seq<Segment>)
    requires Measurable(run)
    requires OnLine(moved, run.startPos.x, run.startPos.y)
    ensures objects == RecycleUpTo(moved, |moved|, run, speed)
  {
    objects := moved;
    var i := 0;
    while i < |objects|
      invariant 0 <= i <= |objects| == |moved|
      invariant objects == RecycleUpTo(moved, i, run, speed)
    {
      ghost var before := objects;
      var obj := objects[i];
      var t := Progress(obj.pos, run);
      if speed >= 0.0 {
        if t <= 0.0 {
          var i2Next := if i == 0 then |objects| - 1 else i - 1;
          assert i2Next == Pred(i, |before|);
          objects := objects[i := obj.(pos := objects[i2Next].pos.Plus(Vec3(0.0, 0.0, obj.depth * 0.5 + objects[i2Next].depth * 0.5)))];
        }
      } else {
        if t >= 1.0 {
          var i2Next := if i == |objects| - 1 then 0 else i + 1;
          assert i2Next == Succ(i, |before|);
          objects := objects[i := obj.(pos := objects[i2Next].pos.Minus(Vec3(0.0, 0.0, obj.depth * 0.5 + objects[i2Next].depth * 0.5)))];
        }
      }
      assert objects == Step(before, i, run, speed);
      i := i + 1;
    }
  }

  /** `Update`: pass 1 with `movement = dir * speed * dt`, then pass 2. It
      computes exactly one `Tick`, and the road it leaves is still valid and
      has the same run geometry. */
  method Update(road: Road, speed: real, dt: real) returns (next: Road)
    requires Valid(road)
    ensures next == Tick(road, speed, dt)
    ensures Valid(next) && next.run == road.run
  {
    var movement := road.run.dir.Scale(speed).Scale(dt);
    var objects := TranslateAll(road.segments, movement);
    assert objects == Pass1(road, speed, dt);
    objects := ReanchorAll(objects, road.run, speed);
    next := Road(objects, road.run);
  }
}
