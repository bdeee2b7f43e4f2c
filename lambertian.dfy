/** The diffuse material (src/material/lambertian.rs). The random unit
    vector the source draws from its generator is a parameter here. */
module Lambertians {
  import opened Vectors
  import opened Rays
  import opened Hit
  import opened Materials

  datatype Lambertian = Lambertian(albedo: Colour)

  /** Below this squared length the sum `normal + u` counts as degenerate. */
  const DEGENERATE_LENGTH_SQUARED: real := 0.001

  /** The scatter direction: `normal + u`, or the normal itself when that
      sum is too short to be a usable direction. The fallback does its job:
      as long as the normal itself is not degenerate (a unit normal, say),
      the direction is never degenerate and in particular never zero,
      whatever `u` was drawn; and the sum is only ever replaced when it was
      degenerate. */
  function ScatterDirection(normal: Vector3, u: Vector3): (d: Vector3)
    ensures d == Add(normal, u) || d == normal
    ensures d != Add(normal, u) ==> LengthSquared(Add(normal, u)) < DEGENERATE_LENGTH_SQUARED
    ensures LengthSquared(normal) >= DEGENERATE_LENGTH_SQUARED ==>
              LengthSquared(d) >= DEGENERATE_LENGTH_SQUARED && d != ZERO
  {
    var sum := Add(normal, u);
    var d := if LengthSquared(sum) < DEGENERATE_LENGTH_SQUARED then normal else sum;
    LengthSquaredZeroIffZero(d);
    d
  }

  /** `Lambertian::scatter`: absorbs nothing that was hit, keeps the albedo
      as attenuation and leaves from the hit position. */
  function LambertianScatter<M>(m: Lambertian, ray: Ray, hit: HitResult<M>, u: Vector3): (r: Scatter)
    ensures r.Scatter? <==> hit.Hit?
    ensures r.Scatter? ==> r.attenuation == m.albedo && r.ray.origin == hit.point
    ensures r.Scatter? ==> r.ray.direction == ScatterDirection(hit.normal, u)
  {
    match hit
    case Hit(position, normal, _, _, _) =>
      Scatter.Scatter(m.albedo, Ray(position, ScatterDirection(normal, u)))
    case None => Scatter.None
  }

  /** A unit `u` exactly opposite the normal is the case the fallback
      exists for: without it the direction would be zero. */
  lemma OppositeDrawFallsBack(normal: Vector3)
    ensures Add(normal, Neg(normal)) == ZERO
    ensures ScatterDirection(normal, Neg(normal)) == normal
  {
  }
}
