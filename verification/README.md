# Endless road: layout and recycling

This project models the `EndlessRoad` Unity component, which is found in
`Assets/endlessroad/Scripts/EndlessRoad.cs`. The component takes the child
objects of a road object and lays them out edge to edge along the z axis. It
then scrolls them every frame. When a segment leaves the run on the side it
is moving toward, it is put back edge to edge against its neighbour in the
ring of segments. This makes the road look endless.

The model covers four parts of the component:

- `ArrangeObjects` places the children and sorts them by z.
- `Start` fixes the run geometry from the first and last arranged segments.
- `Dist` is the signed distance used to measure progress along the run.
- `Update` is the two-pass frame: translate every segment, then re-anchor
  the segments in array order.

Modules, in dependency order:

- `Vectors`: positions (`Vec3` over reals). It also holds normalisation and
  distance for vectors on the z axis.
- `Rounding`: `Mathf.Round` (to nearest, ties to even) and the three-decimal
  rounding of a segment's progress.
- `Segments`: a segment, meaning its child index `id`, its depth along z and
  its position. Also the predicates on sequences of segments.
- `Arrangement`: the placement loops and the sort.
- `Run`: the run geometry and `Start`.
- `Scroller`: `Dist`, the progress `t`, and the tick.

The tick comes in two forms. `Scroller.Tick` is a pure function that folds
pass 2 over the indices (`RecycleUpTo`). `Scroller.Update` is the loop as
written, and it is proved equal to `Tick`. `RecycledAt` describes the result
of pass 2 index by index without the loop. It keeps the sequential nature of
the pass: a neighbour with a lower index has already been visited, so it is
read at its final position.

Three behaviours are kept exactly as the code has them:

- Placement centres the run on the pivot only when `spacing` is zero.
  `totalDepth` includes one trailing `spacing`, so the trailing edge of the
  run is at `pivot.z + totalDepth/2 - spacing` (`Arrangement.PlacementEdges`).
  Depths 1, 2 and 3 with spacing 0.5 around z = 0 are placed at -3.25, -1.25
  and 1.75 (`Arrangement.PlacementExample`). A layout centred on the pivot
  would span [-3.5, 3.5] and put the centres at -3.0, -1.0 and 2.0. The code
  places every child `spacing / 2` = 0.25 before that.
- With `speed == 0`, a segment exactly at the run start has `t = 0`, so it is
  re-anchored anyway (`Scroller.StationaryRoadWrapsFirst`).
- Unity's `Vector3.normalized` returns the zero vector when the magnitude is
  at most `Vector3.kEpsilon` (0.00001), and the model keeps that cutoff
  (`Vectors.NormalizeEpsilon`). It has three effects:
  - A run no longer than 0.00001 gets a zero `_dir`, so pass 1 moves nothing.
  - On such a run the same zero vector is the axis `Dist` measures against.
    Every segment therefore measures 0 and has `t = 0`. With `speed >= 0`
    every segment is re-anchored behind its predecessor on every frame
    (`Scroller.ShortRunReanchorsEverySegment`).
  - A segment within 0.00001 of the run start measures a `Dist` of zero. On a
    run at least 0.02 long this never changes a decision
    (`Scroller.ThresholdsOnLongRun`).
  `Vector3` is engine code and is not part of this model; the constant is
  the one Unity publishes for `kEpsilon`.

## Model

| member | source | states |
|---|---|---|
| `Arrangement.Place` | Assets/endlessroad/Scripts/EndlessRoad.cs:98-113 | the two loops produce `Placement`: child `i` keeps its index and depth, sits on the pivot's x and y, and has z = `pivot.z - totalDepth/2 + Σ_{j<i}(depth_j + spacing) + depth_i/2` |
| `Arrangement.TotalDepthSplits` | Assets/endlessroad/Scripts/EndlessRoad.cs:99-104 | `totalDepth` is the sum of the depths plus `spacing` once per child |
| `Arrangement.PlacementGap` | Assets/endlessroad/Scripts/EndlessRoad.cs:107-113 | consecutive placed children are `depth_i/2 + spacing + depth_(i+1)/2` apart in z, and every placed child has the pivot's x and y |
| `Arrangement.PlacementEdges` | Assets/endlessroad/Scripts/EndlessRoad.cs:99-113 | the leading edge is `totalDepth/2` before the pivot and the trailing edge is `totalDepth/2 - spacing` after it; the run spans the depths plus `n - 1` spacings |
| `Arrangement.PlacementExample` | Assets/endlessroad/Scripts/EndlessRoad.cs:107-113 | depths 1, 2, 3 with spacing 0.5 around z = 0 land at -3.25, -1.25 and 1.75 |
| `Arrangement.PlacementIncreasing` | Assets/endlessroad/Scripts/EndlessRoad.cs:107-113 | when every gap is positive, the placement is strictly increasing in z |
| `Arrangement.InsertByZ` | Assets/endlessroad/Scripts/EndlessRoad.cs:116-119 | inserting into a z-sorted sequence keeps it z-sorted and adds exactly the one element |
| `Arrangement.SortByZ` | Assets/endlessroad/Scripts/EndlessRoad.cs:116-119 | the sort by the z comparison returns a permutation of its input that is non-decreasing in z |
| `Arrangement.SortedPermutationUnique` | Assets/endlessroad/Scripts/EndlessRoad.cs:116-119 | a strictly z-increasing sequence is the only z-sorted permutation of its elements, so an unstable sort cannot reorder it |
| `Arrangement.ArrangeObjects` | Assets/endlessroad/Scripts/EndlessRoad.cs:89-120 | the arranged children are a z-sorted permutation of the placement on the pivot's x and y; with positive gaps they are the placement in child order |
| `Vectors.NormalizedOnAxis` | Assets/endlessroad/Scripts/EndlessRoad.cs:25 | `.normalized` of a vector on the z axis is the zero vector exactly when its length is at most `kEpsilon` = 0.00001, and otherwise a unit vector on the z axis pointing the same way |
| `Vectors.DistanceOnAxis` | Assets/endlessroad/Scripts/EndlessRoad.cs:26 | `Vector3.Distance` between two points sharing x and y is the absolute difference of their z |
| `Run.StartRun` | Assets/endlessroad/Scripts/EndlessRoad.cs:21-26 | start and end are the first and last arranged positions; the distance is the absolute difference of their z; `dir` is `(0,0,-1)` when end is more than 0.00001 past start, `(0,0,1)` when it is more than 0.00001 before start, and zero otherwise; on a sorted arrangement the distance is `end.z - start.z >= 0` |
| `Run.Start` | Assets/endlessroad/Scripts/EndlessRoad.cs:16-27 | `Start` yields the arranged children with the run read off them; the run is never negative, lies on the pivot's line, and with two or more children and positive gaps the road is ready to tick |
| `Rounding.RoundHalfEven` | Assets/endlessroad/Scripts/EndlessRoad.cs:52 | `Mathf.Round` is within one half of its argument and is even on a tie |
| `Rounding.RoundHalfEvenUnique` | Assets/endlessroad/Scripts/EndlessRoad.cs:52 | those two properties determine the rounded value |
| `Rounding.RoundedAtMostEven` | Assets/endlessroad/Scripts/EndlessRoad.cs:52 | `x` rounds to at most an even `k` exactly when `x <= k + 1/2` |
| `Rounding.RoundedAtLeastEven` | Assets/endlessroad/Scripts/EndlessRoad.cs:52 | `x` rounds to at least an even `k` exactly when `x >= k - 1/2` |
| `Rounding.ThreeDecimals` | Assets/endlessroad/Scripts/EndlessRoad.cs:52 | rounding to three decimals moves a value by at most half a thousandth |
| `Rounding.ThreeDecimalsNonPositive` | Assets/endlessroad/Scripts/EndlessRoad.cs:52-56 | the rounded value is `<= 0` exactly when `1000 v <= 1/2` |
| `Rounding.ThreeDecimalsAtLeastOne` | Assets/endlessroad/Scripts/EndlessRoad.cs:52-72 | the rounded value is `>= 1` exactly when `1000 v >= 999.5` |
| `Scroller.Dist` | Assets/endlessroad/Scripts/EndlessRoad.cs:29-34 | for two points on one z-parallel line, `Dist` is `dir.z * (target.z - current.z)` when they are more than 0.00001 apart, and zero otherwise |
| `Scroller.DistanceToStartIsDist` | Assets/endlessroad/Scripts/EndlessRoad.cs:51 | measured against `(startPos - endPos).normalized`, the distance from a segment to the run start is its offset `z - start.z`, or zero when the run or the offset is at most 0.00001 |
| `Scroller.Progress` | Assets/endlessroad/Scripts/EndlessRoad.cs:51-52 | `t` is within half a thousandth of `distanceToStart / D`; `t <= 0` exactly when `2000 distanceToStart <= D`, and `t >= 1` exactly when `1000 distanceToStart >= 999.5 D` |
| `Scroller.ThresholdsOnLongRun` | Assets/endlessroad/Scripts/EndlessRoad.cs:51-72 | on a run at least 0.02 long, `t <= 0` exactly when `2000 (z - start.z) <= D` and `t >= 1` exactly when `1000 (z - start.z) >= 999.5 D`, so the cutoff near the start never matters |
| `Scroller.Pred` | Assets/endlessroad/Scripts/EndlessRoad.cs:58-62 | `i2Next` when moving toward the start is the index one back modulo the length: the predecessor of 0 is the last index |
| `Scroller.Succ` | Assets/endlessroad/Scripts/EndlessRoad.cs:74-78 | `i2Next` when moving toward the end is the index one on modulo the length: the successor of the last index is 0 |
| `Scroller.Pass1` | Assets/endlessroad/Scripts/EndlessRoad.cs:38-45 | pass 1 keeps the array's length, each segment's identity and depth, and the run's line |
| `Scroller.Pass1Shifts` | Assets/endlessroad/Scripts/EndlessRoad.cs:25-45 | pass 1 changes every z by exactly `-speed * dt` (by nothing on a run no longer than 0.00001, where `dir` is zero) and leaves x and y alone |
| `Scroller.TranslateAll` | Assets/endlessroad/Scripts/EndlessRoad.cs:41-45 | the pass-1 loop adds `movement` to every position and to nothing else |
| `Scroller.Step` | Assets/endlessroad/Scripts/EndlessRoad.cs:49-85 | one iteration of pass 2 changes only index `i`, and only its z |
| `Scroller.RecycleUpTo` | Assets/endlessroad/Scripts/EndlessRoad.cs:48-86 | after `k` iterations of pass 2, indices from `k` on are untouched, and no identity or depth has changed |
| `Scroller.ReanchorAll` | Assets/endlessroad/Scripts/EndlessRoad.cs:48-86 | the pass-2 loop, which updates the array in place and reads neighbours from it, performs exactly the iterations of `RecycleUpTo` |
| `Scroller.RecycleIsSequential` | Assets/endlessroad/Scripts/EndlessRoad.cs:48-86 | every visited index ends where `RecycledAt` says: a lower-index neighbour is read at its new position, and a higher-index neighbour at its pass-1 position |
| `Scroller.TickIsSequential` | Assets/endlessroad/Scripts/EndlessRoad.cs:36-87 | a whole frame leaves every index where `RecycledAt` says, relative to the pass-1 positions |
| `Scroller.Tick` | Assets/endlessroad/Scripts/EndlessRoad.cs:36-87 | a frame keeps the road valid, leaves the run geometry unchanged, and keeps the length, membership and order of the segments |
| `Scroller.TickAt` | Assets/endlessroad/Scripts/EndlessRoad.cs:50-85 | index `i` of a frame's outcome, split by branch: behind the predecessor, ahead of the successor, or kept at its pass-1 position |
| `Scroller.ReanchorBehindPredecessor` | Assets/endlessroad/Scripts/EndlessRoad.cs:51-68 | with `speed >= 0` and `1000 distanceToStart_i / D <= 1/2`, segment `i` gets `z_pred + depth_i/2 + depth_pred/2`; the predecessor of 0 is the last index |
| `Scroller.ReanchorAheadOfSuccessor` | Assets/endlessroad/Scripts/EndlessRoad.cs:51-84 | with `speed < 0` and `1000 distanceToStart_i / D >= 999.5`, segment `i` gets `z_succ - depth_i/2 - depth_succ/2`; the successor of the last index is 0 |
| `Scroller.KeepsTranslatedPosition` | Assets/endlessroad/Scripts/EndlessRoad.cs:48-86 | a segment that meets neither threshold keeps its pass-1 position |
| `Scroller.ShortRunReanchorsEverySegment` | Assets/endlessroad/Scripts/EndlessRoad.cs:25-67 | on a run no longer than 0.00001 with `speed >= 0`, pass 1 moves nothing, every segment has `t = 0`, and every segment is re-anchored behind its ring predecessor |
| `Scroller.StationaryRoadWrapsFirst` | Assets/endlessroad/Scripts/EndlessRoad.cs:54-67 | with `speed == 0`, a first segment exactly at the run start still wraps to just behind the last segment |
| `Scroller.Update` | Assets/endlessroad/Scripts/EndlessRoad.cs:36-87 | the two loops compute exactly one `Tick`, and the road stays valid with the same run geometry |

## Left out

- The Unity lifecycle is left out. `Start`, `Update` and `Reset` are engine hooks, and `Reset` only calls `Start` and logs (EndlessRoad.cs:145-149). `Time.deltaTime` becomes the parameter `dt`, and `speed` and `spacing` are parameters too.
- Child enumeration through `transform.GetChild` (EndlessRoad.cs:92-96) is left out. The children are the depths given in child order, and child `i` gets `id == i`.
- `GetBounds` (EndlessRoad.cs:123-143) reads renderer bounds from the engine. Each segment's depth is a fixed non-negative input instead.
- IEEE single-precision arithmetic is replaced by reals. The only numeric detail kept is the three-decimal, ties-to-even rounding of `t`.
- 3D normalisation and distance are left out because they need square roots. Both are given only for vectors on the z axis. This is enough because every segment shares the pivot's x and y, and no operation changes that.
- The unused local `bound` in `Start` (EndlessRoad.cs:21) is left out.
- Run.Start: requires at least one child. With no children the code throws at `_objects[0]` (EndlessRoad.cs:21 and :23), and that exception is not modelled.
- Scroller.Tick: requires `Valid`, which means at least two segments, `start.z < end.z`, `dir` as `Start` computes it, and every segment on the run's line. A run of length zero is not modelled. This includes every road with a single child. In floats, `t` is then 0/0 = NaN (EndlessRoad.cs:52), both `t <= 0` and `t >= 1` are false, and `_dir` is zero, so the code freezes such a road: nothing moves and nothing is re-anchored.
- Scroller.Progress: computes `distanceToStart` as the offset from the run start with the `kEpsilon` cutoff written out (`DistanceToStart`), not by unfolding `Dist`. `Scroller.DistanceToStartIsDist` proves the two are equal.
- Arrangement.ArrangeObjects: does not fix the order of segments with equal z, because `Array.Sort` is not stable. Only the z-sorted permutation is promised, and the placement order when every gap is positive.
