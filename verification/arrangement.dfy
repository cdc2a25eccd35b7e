/** `ArrangeObjects`: lay the road's children out edge to edge along the
    travel axis around the road object's position, then sort them by z. */
module Arrangement {
  import opened Vectors
  import opened Segments

  /** Sum of `depth + spacing` over the first `i` children: how far the
      placement cursor has advanced when child `i` is placed. */
  function Offset(depths: seq<Depth>, spacing: real, i: nat): real
    requires i <= |depths|
  {
    if i == 0 then 0.0 else Offset(depths, spacing, i - 1) + depths[i - 1] + spacing
  }

  /** `totalDepth`: the cursor's advance over all children, trailing spacing included. */
  function TotalDepth(depths: seq<Depth>, spacing: real): real {
    Offset(depths, spacing, |depths|)
  }

  function SumDepths(depths: seq<Depth>): real {
    if |depths| == 0 then 0.0 else SumDepths(depths[..|depths| - 1]) + depths[|depths| - 1]
  }

  /** The z the placement loop gives child `i`. */
  function PlacedZ(depths: seq<Depth>, pivotZ: real, spacing: real, i: nat): real
    requires i < |depths|
  {
    pivotZ - TotalDepth(depths, spacing) / 2.0 + Offset(depths, spacing, i) + depths[i] / 2.0
  }

  /** The children after placement and before sorting, in child order. */
  function Placement(depths: seq<Depth>, pivot: Vec3, spacing: real): seq<Segment> {
    seq(|depths|, i requires 0 <= i < |depths| =>
      Segment(i, depths[i], Vec3(pivot.x, pivot.y, PlacedZ(depths, pivot.z, spacing, i))))
  }

  /** Every gap between the centres of two consecutive placed children is positive. */
  predicate PositiveGaps(depths: seq<Depth>, spacing: real) {
    forall i :: 0 <= i < |depths| - 1 ==> depths[i] / 2.0 + spacing + depths[i + 1] / 2.0 > 0.0
  }

  /** The two placement loops: sum `depth + spacing` into `totalDepth`, then
      walk a cursor from `pivot.z - totalDepth / 2`, centring each child half
      its depth past the cursor and advancing the cursor by `depth + spacing`. */
  method Place(depths: seq<Depth>, pivot: Vec3, spacing: real) returns (placed: seq<Segment>)
    ensures placed == Placement(depths, pivot, spacing)
  {
    var totalDepth := 0.0;
    var k := 0;
    while k < |depths|
      invariant 0 <= k <= |depths|
      invariant totalDepth == Offset(depths, spacing, k)
    {
      totalDepth := totalDepth + depths[k] + spacing;
      k := k + 1;
    }

    var currentZ := pivot.z - totalDepth / 2.0;
    placed := [];
    var i := 0;
    while i < |depths|
      invariant 0 <= i <= |depths|
      invariant |placed| == i
      invariant currentZ == pivot.z - totalDepth / 2.0 + Offset(depths, spacing, i)
      invariant forall j :: 0 <= j < i ==>
        placed[j] == Segment(j, depths[j], Vec3(pivot.x, pivot.y, PlacedZ(depths, pivot.z, spacing, j)))
    {
      placed := placed + [Segment(i, depths[i], Vec3(pivot.x, pivot.y, currentZ + depths[i] / 2.0))];
      currentZ := currentZ + depths[i] + spacing;
      i := i + 1;
    }
  }

  /** `totalDepth` is the sum of the depths plus one spacing per child. */
  lemma {:induction false} TotalDepthSplits(depths: seq<Depth>, spacing: real)
    ensures TotalDepth(depths, spacing) == SumDepths(depths) + |depths| as real * spacing
  {
    OffsetSplits(depths, spacing, |depths|);
    assert depths[..|depths|] == depths;
  }

  lemma {:induction false} OffsetSplits(depths: seq<Depth>, spacing: real, i: nat)
    requires i <= |depths|
    ensures Offset(depths, spacing, i) == SumDepths(depths[..i]) + i as real * spacing
  {
    if i > 0 {
      OffsetSplits(depths, spacing, i - 1);
      assert depths[..i][..i - 1] == depths[..i - 1];
    }
  }

  /** Consecutive placed children are `depth_i / 2 + spacing + depth_(i+1) / 2`
      apart, and every placed child sits on the pivot's x and y. */
  lemma PlacementGap(depths: seq<Depth>, pivot: Vec3, spacing: real, i: nat)
    requires i + 1 < |depths|
    ensures Placement(depths, pivot, spacing)[i + 1].pos.z - Placement(depths, pivot, spacing)[i].pos.z
      == depths[i] / 2.0 + spacing + depths[i + 1] / 2.0
    ensures OnLine(Placement(depths, pivot, spacing), pivot.x, pivot.y)
  {
  }

  /** The leading edge of the run is `totalDepth / 2` before the pivot, but the
      trailing edge is `totalDepth / 2 - spacing` after it: the trailing
      spacing counted in `totalDepth` shifts the run by `spacing / 2`, so the
      run is centred on the pivot only when `spacing` is zero. */
  lemma PlacementEdges(depths: seq<Depth>, pivot: Vec3, spacing: real)
    requires |depths| >= 1
    ensures Placement(depths, pivot, spacing)[0].pos.z - depths[0] / 2.0
      == pivot.z - TotalDepth(depths, spacing) / 2.0
    ensures Placement(depths, pivot, spacing)[|depths| - 1].pos.z + depths[|depths| - 1] / 2.0
      == pivot.z + TotalDepth(depths, spacing) / 2.0 - spacing
    ensures (Placement(depths, pivot, spacing)[|depths| - 1].pos.z + depths[|depths| - 1] / 2.0)
      - (Placement(depths, pivot, spacing)[0].pos.z - depths[0] / 2.0)
      == SumDepths(depths) + (|depths| - 1) as real * spacing
  {
    TotalDepthSplits(depths, spacing);
  }

  /** Depths 1, 2, 3 with spacing 0.5 around z = 0 are placed at
      -3.25, -1.25 and 1.75. */
  lemma PlacementExample()
    ensures var p := Placement([1.0, 2.0, 3.0], Zero, 0.5);
      p[0].pos.z == -3.25 && p[1].pos.z == -1.25 && p[2].pos.z == 1.75
  {
  }

  /** With positive gaps the placement is strictly increasing in z. */
  lemma {:induction false} PlacementIncreasing(depths: seq<Depth>, pivot: Vec3, spacing: real)
    requires PositiveGaps(depths, spacing)
    ensures StrictlyIncreasingZ(Placement(depths, pivot, spacing))
  {
    var p := Placement(depths, pivot, spacing);
    forall i, j | 0 <= i < j < |p| ensures p[i].pos.z < p[j].pos.z {
      PlacementIncreasingFrom(depths, pivot, spacing, i, j);
    }
  }

  lemma {:induction false} PlacementIncreasingFrom(depths: seq<Depth>, pivot: Vec3, spacing: real, i: nat, j: nat)
    requires PositiveGaps(depths, spacing)
    requires i < j < |depths|
    ensures Placement(depths, pivot, spacing)[i].pos.z < Placement(depths, pivot, spacing)[j].pos.z
    decreases j - i
  {
    PlacementGap(depths, pivot, spacing, j - 1);
    if i < j - 1 {
      PlacementIncreasingFrom(depths, pivot, spacing, i, j - 1);
    }
  }

  /** Insert `x` into a z-sorted sequence before the first segment at or past its z. */
  function InsertByZ(x: Segment, s: seq<Segment>): (r: seq<Segment>)
    requires SortedByZ(s)
    ensures |r| == |s| + 1
    ensures SortedByZ(r)
    ensures multiset(r) == multiset(s) + multiset{x}
  {
    if |s| == 0 then [x]
    else if x.pos.z <= s[0].pos.z then
      ConsSorted(x, s);
      [x] + s
    else
      var rest := InsertByZ(x, s[1..]);
      LowerBoundKept(rest, s[1..], x, s[0].pos.z);
      ConsSorted(s[0], rest);
      ConsMultiset(s, rest, x);
      [s[0]] + rest
  }

  /** Putting the head of `s` back in front of a permutation of its tail
      and `x` gives a permutation of `s` and `x`. */
  lemma ConsMultiset(s: seq<Segment>, rest: seq<Segment>, x: Segment)
    requires |s| > 0
    requires multiset(rest) == multiset(s[1..]) + multiset{x}
    ensures multiset([s[0]] + rest) == multiset(s) + multiset{x}
  {
    assert s == [s[0]] + s[1..];
  }

  /** A segment no further along z than any segment of a z-sorted sequence
      can go in front of it. */
  lemma ConsSorted(h: Segment, t: seq<Segment>)
    requires SortedByZ(t)
    requires forall k :: 0 <= k < |t| ==> h.pos.z <= t[k].pos.z
    ensures SortedByZ([h] + t)
  {
  }

  /** A permutation of `s + [x]` keeps every lower bound on z that `s` and
      `x` respect. */
  lemma LowerBoundKept(rest: seq<Segment>, s: seq<Segment>, x: Segment, lo: real)
    requires multiset(rest) == multiset(s) + multiset{x}
    requires lo <= x.pos.z
    requires forall k :: 0 <= k < |s| ==> lo <= s[k].pos.z
    ensures forall k :: 0 <= k < |rest| ==> lo <= rest[k].pos.z
  {
    forall k | 0 <= k < |rest| ensures lo <= rest[k].pos.z {
      assert rest[k] in multiset(rest);
      if rest[k] != x {
        assert rest[k] in multiset(s);
        assert rest[k] in s;
      }
    }
  }

  /** A permutation of `s` that is non-decreasing in z. */
  function SortByZ(s: seq<Segment>): (r: seq<Segment>)
    ensures |r| == |s|
    ensures SortedByZ(r)
    ensures multiset(r) == multiset(s)
  {
    if |s| == 0 then []
    else
      assert s == [s[0]] + s[1..];
      InsertByZ(s[0], SortByZ(s[1..]))
  }

  /** A sequence strictly increasing in z is the only z-sorted arrangement of
      its elements, whatever sorting algorithm produced it. */
  lemma {:induction false} SortedPermutationUnique(a: seq<Segment>, b: seq<Segment>)
    requires StrictlyIncreasingZ(a)
    requires SortedByZ(b)
    requires multiset(a) == multiset(b)
    ensures a == b
  {
    assert |a| == |multiset(a)| == |multiset(b)| == |b|;
    if |a| > 0 {
      HeadsAgree(a, b);
      TailsPermute(a, b);
      SortedPermutationUnique(a[1..], b[1..]);
      assert a == [a[0]] + a[1..] && b == [b[0]] + b[1..];
    }
  }

  lemma HeadsAgree(a: seq<Segment>, b: seq<Segment>)
    requires StrictlyIncreasingZ(a)
    requires SortedByZ(b)
    requires multiset(a) == multiset(b)
    requires |a| > 0 && |b| > 0
    ensures a[0] == b[0]
  {
    assert a[0] in multiset(b);
    var j :| 0 <= j < |b| && b[j] == a[0];
    assert b[0] in multiset(a);
    var k :| 0 <= k < |a| && a[k] == b[0];
    assert a[k].pos.z <= a[0].pos.z;
  }

  lemma TailsPermute(a: seq<Segment>, b: seq<Segment>)
    requires |a| > 0 && |b| > 0 && a[0] == b[0]
    requires multiset(a) == multiset(b)
    ensures multiset(a[1..]) == multiset(b[1..])
  {
    assert a == [a[0]] + a[1..];
    assert b == [b[0]] + b[1..];
    assert multiset(a) == multiset{a[0]} + multiset(a[1..]);
    assert multiset(b) == multiset{a[0]} + multiset(b[1..]);
    forall x ensures multiset(a[1..])[x] == multiset(b[1..])[x] {
      assert multiset(a)[x] == multiset{a[0]}[x] + multiset(a[1..])[x];
      assert multiset(b)[x] == multiset{a[0]}[x] + multiset(b[1..])[x];
    }
  }

  /** `ArrangeObjects`: the children placed edge to edge, then sorted by z.
      The result is a z-sorted permutation of the placement, on the pivot's
      x and y; when every gap is positive it is the placement itself. */
  method ArrangeObjects(depths: seq<Depth>, pivot: Vec3, spacing: real) returns (arranged: seq<Segment>)
    ensures |arranged| == |depths|
    ensures SortedByZ(arranged)
    ensures multiset(arranged) == multiset(Placement(depths, pivot, spacing))
    ensures OnLine(arranged, pivot.x, pivot.y)
    ensures PositiveGaps(depths, spacing) ==> arranged == Placement(depths, pivot, spacing)
  {
    var placed := Place(depths, pivot, spacing);
    arranged := SortByZ(placed);
    forall k | 0 <= k < |arranged| ensures arranged[k].pos.x == pivot.x && arranged[k].pos.y == pivot.y {
      assert arranged[k] in multiset(placed);
    }
    if PositiveGaps(depths, spacing) {
      PlacementIncreasing(depths, pivot, spacing);
      SortedPermutationUnique(placed, arranged);
    }
  }
}
