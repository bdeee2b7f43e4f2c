/** A ray: an origin and a direction (src/ray.rs). */
module Rays {
  import opened Vectors

  datatype Ray = Ray(origin: Point3, direction: Vector3)

  /** `Ray::at`: the point reached after travelling `t` along the direction. */
  function At(r: Ray, t: real): Point3
  {
    Add(r.origin, ScalarMul(t, r.direction))
  }

  /** The ray starts at its origin. */
  lemma AtZero(r: Ray)
    ensures At(r, 0.0) == r.origin
  {
  }

  /** `at(t)` is `origin + t * direction`, coordinate by coordinate. */
  lemma AtComponents(r: Ray, t: real)
    ensures At(r, t).x == r.origin.x + t * r.direction.x
    ensures At(r, t).y == r.origin.y + t * r.direction.y
    ensures At(r, t).z == r.origin.z + t * r.direction.z
  {
  }

  /** Travelling `s` and then `t` further lands where travelling `s + t` does. */
  lemma AtShift(r: Ray, s: real, t: real)
    ensures At(r, s + t) == Add(At(r, s), ScalarMul(t, r.direction))
  {
  }

  /** A ray with a zero direction never leaves its origin. */
  lemma AtZeroDirection(r: Ray, t: real)
    requires r.direction == ZERO
    ensures At(r, t) == r.origin
  {
  }
}
