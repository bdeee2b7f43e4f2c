/** The mirror-like material with optional roughness
    (src/material/metallic.rs). The random point in the unit sphere the
    source draws is the parameter `sample`; `reflect` and `sqrt` come in
    through `Externals`. */
module Metals {
  import opened Vectors
  import opened Rays
  import opened Hit
  import opened Materials

  datatype Metallic = Metallic(albedo: Colour, fuzziness: real)

  /** The mirror direction of the incoming ray about the normal. */
  function Reflected(ray: Ray, normal: Vector3, ext: Externals): Vector3
    requires Length(ray.direction, ext.sqrt) != 0.0
  {
    ext.reflect(UnitVector(ray.direction, ext.sqrt), normal)
  }

  /** `Metallic::scatter`: the reflection, pushed by `fuzziness` times the
      sample. A hit is never absorbed, even when the pushed direction
      points back into the surface. The source normalises the incoming
      direction, so a hit needs a ray of non-zero length. */
  function MetallicScatter<M>(m: Metallic, ray: Ray, hit: HitResult<M>, sample: Vector3, ext: Externals): (r: Scatter)
    requires hit.Hit? ==> Length(ray.direction, ext.sqrt) != 0.0
    ensures r.Scatter? <==> hit.Hit?
    ensures r.Scatter? ==> r.attenuation == m.albedo && r.ray.origin == hit.point
    ensures r.Scatter? ==> Sub(r.ray.direction, Reflected(ray, hit.normal, ext)) == ScalarMul(m.fuzziness, sample)
  {
    match hit
    case Hit(position, normal, _, _, _) =>
      Scatter.Scatter(m.albedo, Ray(position, Add(Reflected(ray, normal, ext), ScalarMul(m.fuzziness, sample))))
    case None => Scatter.None
  }

  /** Without roughness the scattered direction is the pure reflection,
      whatever sample was drawn. */
  lemma SmoothMetalMirrors<M>(m: Metallic, ray: Ray, hit: HitResult<M>, sample: Vector3, ext: Externals)
    requires hit.Hit? && Length(ray.direction, ext.sqrt) != 0.0
    requires m.fuzziness == 0.0
    ensures MetallicScatter(m, ray, hit, sample, ext).ray.direction == Reflected(ray, hit.normal, ext)
  {
  }

  lemma ScaledLengthSquared(s: real, v: Vector3)
    ensures LengthSquared(ScalarMul(s, v)) == Mul(s, s) * LengthSquared(v)
  {
  }

  /** With a sample inside the unit sphere, the scattered direction stays
      within `fuzziness` of the pure reflection. */
  lemma {:induction false} FuzzBounded<M>(m: Metallic, ray: Ray, hit: HitResult<M>, sample: Vector3, ext: Externals)
    requires hit.Hit? && Length(ray.direction, ext.sqrt) != 0.0
    requires LengthSquared(sample) <= 1.0
    ensures LengthSquared(Sub(MetallicScatter(m, ray, hit, sample, ext).ray.direction, Reflected(ray, hit.normal, ext)))
            <= Mul(m.fuzziness, m.fuzziness)
  {
    ScaledLengthSquared(m.fuzziness, sample);
    SquareSign(m.fuzziness);
    ScaleBelow(Mul(m.fuzziness, m.fuzziness), LengthSquared(sample));
  }
}
