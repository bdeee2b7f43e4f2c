/** The pinhole camera (src/camera.rs): every primary ray starts at the
    camera's origin and aims at a point of the image rectangle. */
module Cameras {
  import opened Vectors
  import opened Rays

  datatype Camera = Camera(origin: Point3, horizontal: Vector3, vertical: Vector3, focalLength: real)

  /** `lower_left_corner`: the origin moved back by half the rectangle in
      each direction and by the focal length along `Z`. */
  function LowerLeftCorner(c: Camera): Vector3
  {
    Sub(Sub(Sub(c.origin, Div(c.horizontal, 2.0)), Div(c.vertical, 2.0)), ScalarMul(c.focalLength, Z))
  }

  /** `get_ray(u, v)`: from the origin towards the point at fractions `u`, `v`
      of the rectangle. */
  function GetRay(c: Camera, u: real, v: real): Ray
  {
    Ray(c.origin, Sub(Add(Add(LowerLeftCorner(c), ScalarMul(u, c.horizontal)), ScalarMul(v, c.vertical)), c.origin))
  }

  /** Every ray leaves from the camera's origin. */
  lemma GetRayOrigin(c: Camera, u: real, v: real)
    ensures GetRay(c, u, v).origin == c.origin
  {
  }

  /** The corner sits half the rectangle and the focal length away from the origin. */
  lemma LowerLeftCornerOffset(c: Camera)
    ensures Add(LowerLeftCorner(c), Add(Add(ScalarMul(0.5, c.horizontal), ScalarMul(0.5, c.vertical)), Vector3(0.0, 0.0, c.focalLength))) == c.origin
  {
  }

  /** The ray through the centre of the image looks straight down `-Z`,
      at the focal length. */
  lemma CentreRay(c: Camera)
    ensures GetRay(c, 0.5, 0.5).direction == Vector3(0.0, 0.0, -c.focalLength)
  {
  }

  /** The direction is affine in `u` and `v`: a step `du` adds `du * horizontal`,
      a step `dv` adds `dv * vertical`. */
  lemma GetRayAffine(c: Camera, u: real, v: real, du: real, dv: real)
    ensures GetRay(c, u + du, v).direction == Add(GetRay(c, u, v).direction, ScalarMul(du, c.horizontal))
    ensures GetRay(c, u, v + dv).direction == Add(GetRay(c, u, v).direction, ScalarMul(dv, c.vertical))
  {
  }

  /** `get_ray(0, 0)` aims at the lower left corner itself. */
  lemma CornerRay(c: Camera)
    ensures At(GetRay(c, 0.0, 0.0), 1.0) == LowerLeftCorner(c)
  {
  }
}
