/** `Start`: arrange the children, then fix the run's geometry from the first
    and last arranged segments. The geometry never changes afterwards. */
module Run {
  import opened Vectors
  import opened Segments
  import opened Arrangement

  /** `_startPos`, `_endPos`, `_dir` and `_totalDistance`. */
  datatype RunGeometry = RunGeometry(startPos: Vec3, endPos: Vec3, dir: Vec3, totalDistance: real)

  /** The road's state between frames: `_objects` and the run geometry. */
  datatype Road = Road(segments: seq<Segment>, run: RunGeometry)

  /** The geometry `Start` reads off the arranged segments: the run goes from
      the first to the last, `dir` is the normalised vector from the last
      back to the first, and `totalDistance` is the distance between them.
      `dir` points backward along z when the run is longer than
      `NormalizeEpsilon` and is zero when the ends are closer than that. On
      a z-sorted arrangement the distance is `end.z - start.z`. */
  function StartRun(arranged: seq<Segment>): (g: RunGeometry)
    requires |arranged| >= 1
    requires OnLine(arranged, arranged[0].pos.x, arranged[0].pos.y)
    ensures g.startPos == arranged[0].pos && g.endPos == arranged[|arranged| - 1].pos
    ensures g.totalDistance == Abs(g.endPos.z - g.startPos.z)
    ensures g.endPos.z - g.startPos.z > NormalizeEpsilon ==> g.dir == Backward
    ensures g.startPos.z - g.endPos.z > NormalizeEpsilon ==> g.dir == Vec3(0.0, 0.0, 1.0)
    ensures Abs(g.endPos.z - g.startPos.z) <= NormalizeEpsilon ==> g.dir == Zero
    ensures SortedByZ(arranged) ==> 0.0 <= g.totalDistance == g.endPos.z - g.startPos.z
  {
    var startPos := arranged[0].pos;
    var endPos := arranged[|arranged| - 1].pos;
    RunGeometry(startPos, endPos, NormalizedOnAxis(startPos.Minus(endPos)), DistanceOnAxis(startPos, endPos))
  }

  /** What ticking relies on: at least two segments, a run of positive length
      going forward in z, `dir` as `Start` computes it (backward along z, or
      zero on a run no longer than `NormalizeEpsilon`), and every segment on
      the run's line. */
  predicate Valid(road: Road) {
    && |road.segments| >= 2
    && road.run.startPos.x == road.run.endPos.x
    && road.run.startPos.y == road.run.endPos.y
    && road.run.startPos.z < road.run.endPos.z
    && road.run.totalDistance == road.run.endPos.z - road.run.startPos.z
    && (road.run.totalDistance > NormalizeEpsilon ==> road.run.dir == Backward)
    && (road.run.totalDistance <= NormalizeEpsilon ==> road.run.dir == Zero)
    && OnLine(road.segments, road.run.startPos.x, road.run.startPos.y)
  }

  /** `Start`: the arranged segments and their run geometry. The run is never
      negative; with at least two children and positive gaps it has positive
      length, and the road is ready to tick. */
  method Start(depths: seq<Depth>, pivot: Vec3, spacing: real) returns (road: Road)
    requires |depths| >= 1
    ensures |road.segments| == |depths|
    ensures OnLine(road.segments, pivot.x, pivot.y)
    ensures SortedByZ(road.segments)
    ensures multiset(road.segments) == multiset(Placement(depths, pivot, spacing))
    ensures road.run == StartRun(road.segments)
    ensures road.run.totalDistance == road.run.endPos.z - road.run.startPos.z >= 0.0
    ensures road.run.startPos.x == pivot.x && road.run.startPos.y == pivot.y
    ensures road.run.totalDistance > 0.0 && |depths| >= 2 ==> Valid(road)
    ensures |depths| >= 2 && PositiveGaps(depths, spacing) ==> Valid(road)
  {
    var arranged := ArrangeObjects(depths, pivot, spacing);
    road := Road(arranged, StartRun(arranged));
    if |depths| >= 2 && PositiveGaps(depths, spacing) {
      PlacementIncreasing(depths, pivot, spacing);
    }
  }
}
