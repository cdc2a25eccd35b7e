/** A road segment as the road component sees it: which child of the road
    object it is, its extent along the travel axis, and its position. */
module Segments {
  import opened Vectors

  /** A segment's size along the travel axis, as its bounding box reports it. */
  type Depth = r: real | r >= 0.0

  /** `id` is the segment's child index under the road object; it never
      changes, so it tells the segments apart after sorting. */
  datatype Segment = Segment(id: nat, depth: Depth, pos: Vec3)

  predicate SortedByZ(s: seq<Segment>) {
    forall i, j :: 0 <= i < j < |s| ==> s[i].pos.z <= s[j].pos.z
  }

  predicate StrictlyIncreasingZ(s: seq<Segment>) {
    forall i, j :: 0 <= i < j < |s| ==> s[i].pos.z < s[j].pos.z
  }

  /** Every segment lies on the line through (x, y) parallel to the travel axis. */
  predicate OnLine(s: seq<Segment>, x: real, y: real) {
    forall i :: 0 <= i < |s| ==> s[i].pos.x == x && s[i].pos.y == y
  }
}
