/** Positions in the road's world space and the few vector operations the
    road needs. The road keeps every segment on one line parallel to the
    travel (z) axis, so normalisation and distance are given here only for
    vectors on that axis, where they need no square root. */
module Vectors {

  datatype Vec3 = Vec3(x: real, y: real, z: real) {

    function Plus(v: Vec3): Vec3 {
      Vec3(x + v.x, y + v.y, z + v.z)
    }

    function Minus(v: Vec3): Vec3 {
      Vec3(x - v.x, y - v.y, z - v.z)
    }

    function Scale(k: real): Vec3 {
      Vec3(x * k, y * k, z * k)
    }
  }

  /** The unit vector pointing backward along the travel axis. */
  const Backward: Vec3 := Vec3(0.0, 0.0, -1.0)

  const Zero: Vec3 := Vec3(0.0, 0.0, 0.0)

  function Sign(r: real): real {
    if r > 0.0 then 1.0 else if r < 0.0 then -1.0 else 0.0
  }

  function Abs(r: real): (a: real)
    ensures a >= 0.0
    ensures a == r || a == -r
  {
    if r < 0.0 then -r else r
  }

  function Dot(a: Vec3, b: Vec3): real {
    a.x * b.x + a.y * b.y + a.z * b.z
  }

  /** `Vector3.kEpsilon`: `normalized` returns the zero vector for any
      vector whose magnitude is at most this. */
  const NormalizeEpsilon: real := 0.00001

  /** `v.normalized` for a vector whose x and y are zero: a unit vector
      with the direction of `v`, or the zero vector when `v` is no longer
      than `NormalizeEpsilon`. */
  function NormalizedOnAxis(v: Vec3): (u: Vec3)
    requires v.x == 0.0 && v.y == 0.0
    ensures u.x == 0.0 && u.y == 0.0
    ensures Abs(v.z) <= NormalizeEpsilon <==> u == Zero
    ensures Abs(v.z) > NormalizeEpsilon ==> Abs(u.z) == 1.0 && u.z * v.z > 0.0
  {
    if Abs(v.z) > NormalizeEpsilon then Vec3(0.0, 0.0, Sign(v.z)) else Zero
  }

  /** `Vector3.Distance(a, b)` for two points that share x and y. */
  function DistanceOnAxis(a: Vec3, b: Vec3): (d: real)
    requires a.x == b.x && a.y == b.y
    ensures d >= 0.0
    ensures d == a.z - b.z || d == b.z - a.z
  {
    Abs(a.z - b.z)
  }
}
