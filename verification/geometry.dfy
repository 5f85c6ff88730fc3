/** The axis-aligned bounding cube (`AABC`) of the gravity simulation's
    spatial octree. */
module Geometry {
  import opened Vectors

  /** A cube given by its full edge length `size` and its `center`.
      Nothing constrains `size`: a cube with `size <= 0` contains no point. */
  datatype AABC = AABC(size: real, center: Vec3)

  /** Half the edge length: the distance from the center to each face. */
  function HalfSize(c: AABC): real {
    0.5 * c.size
  }

  /** The coordinates of `point` relative to the cube's center. */
  function Local(c: AABC, point: Vec3): Vec3 {
    Sub(point, c.center)
  }

  /** Strict open-box containment: on every axis the local coordinate lies
      strictly between minus and plus half the edge length.  Equivalently,
      the Chebyshev distance from the center is below half the edge. */
  function Inside(c: AABC, point: Vec3): (r: bool)
    ensures r <==> MaxNorm(Sub(point, c.center)) < c.size / 2.0
    ensures r ==> c.size > 0.0
  {
    var halfSize := HalfSize(c);
    var localPoint := Local(c, point);
    && -halfSize < localPoint.x && localPoint.x < halfSize
    && -halfSize < localPoint.y && localPoint.y < halfSize
    && -halfSize < localPoint.z && localPoint.z < halfSize
  }

  /** Whether bit `k` (0, 1 or 2) of the octant index `i` is set. */
  predicate BitSet(i: nat, k: nat)
    requires k < 3
  {
    var weight := if k == 0 then 1 else if k == 1 then 2 else 4;
    (i / weight) % 2 == 1
  }

  /** The offset sign for an axis: negative exactly when its bit is set. */
  function AxisSign(i: nat, k: nat): (s: real)
    requires k < 3
    ensures s == 1.0 || s == -1.0
    ensures s == -1.0 <==> BitSet(i, k)
  {
    if BitSet(i, k) then -1.0 else 1.0
  }

  /** The direction of octant `i`'s center from the parent center:
      bit 2 selects the sign on x, bit 1 on y, bit 0 on z. */
  function SignVector(i: nat): Vec3 {
    Vec3(AxisSign(i, 2), AxisSign(i, 1), AxisSign(i, 0))
  }

  /** The eight sub-cubes of half the edge length, each centered a quarter
      edge away from the parent center on every axis, listed from
      (+,+,+) to (-,-,-) with z varying fastest. */
  function SplitIntoOctants(c: AABC): (r: seq<AABC>)
    ensures |r| == 8
    ensures forall i :: 0 <= i < 8 ==> r[i].size == c.size / 2.0
    ensures forall i :: 0 <= i < 8 ==>
      r[i].center == Add(c.center, Scale(c.size / 4.0, SignVector(i)))
  {
    var octantSize := 0.5 * c.size;
    var q := 0.25 * c.size;
    [
      AABC(octantSize, Add(c.center, Scale(q, Vec3( 1.0,  1.0,  1.0)))),
      AABC(octantSize, Add(c.center, Scale(q, Vec3( 1.0,  1.0, -1.0)))),
      AABC(octantSize, Add(c.center, Scale(q, Vec3( 1.0, -1.0,  1.0)))),
      AABC(octantSize, Add(c.center, Scale(q, Vec3( 1.0, -1.0, -1.0)))),
      AABC(octantSize, Add(c.center, Scale(q, Vec3(-1.0,  1.0,  1.0)))),
      AABC(octantSize, Add(c.center, Scale(q, Vec3(-1.0,  1.0, -1.0)))),
      AABC(octantSize, Add(c.center, Scale(q, Vec3(-1.0, -1.0,  1.0)))),
      AABC(octantSize, Add(c.center, Scale(q, Vec3(-1.0, -1.0, -1.0))))
    ]
  }
}
