/** Real-valued 3-vectors, standing in for the single-precision `Vector3`
    of the graphics library. Arithmetic is exact: no rounding is modelled. */
module Vectors {

  datatype Vec3 = Vec3(x: real, y: real, z: real)

  /** Component-wise sum `a + b`. */
  function Add(a: Vec3, b: Vec3): Vec3 {
    Vec3(a.x + b.x, a.y + b.y, a.z + b.z)
  }

  /** Component-wise difference `a - b`. */
  function Sub(a: Vec3, b: Vec3): Vec3 {
    Vec3(a.x - b.x, a.y - b.y, a.z - b.z)
  }

  /** Scalar multiple `k * v`. */
  function Scale(k: real, v: Vec3): Vec3 {
    Vec3(k * v.x, k * v.y, k * v.z)
  }

  function Abs(r: real): real {
    if r < 0.0 then -r else r
  }

  function Max(a: real, b: real): real {
    if a < b then b else a
  }

  /** Largest absolute coordinate of `v` (the Chebyshev norm). */
  function MaxNorm(v: Vec3): (n: real)
    ensures n >= 0.0
    ensures Abs(v.x) <= n && Abs(v.y) <= n && Abs(v.z) <= n
    ensures n == Abs(v.x) || n == Abs(v.y) || n == Abs(v.z)
  {
    Max(Abs(v.x), Max(Abs(v.y), Abs(v.z)))
  }

  /** Translating both ends of a difference by the same vector cancels out. */
  lemma SubTranslate(p: Vec3, c: Vec3, v: Vec3)
    ensures Sub(Add(p, v), Add(c, v)) == Sub(p, c)
  {
  }
}
