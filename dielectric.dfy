/** The glass-like material (src/material/dielectric.rs): Schlick's
    reflectance and the reflect-or-refract decision. The uniform draw the
    source takes from its generator is the parameter `draw`; `sqrt`,
    `reflect` and `refract` come in through `Externals`. */
module Dielectrics {
  import opened Vectors
  import opened Rays
  import opened Hit
  import opened Materials

  datatype Dielectric = Dielectric(refractionIndex: real)

  /** `x.powi(5)` */
  function Pow5(x: real): real
  {
    Mul(Mul(Mul(Mul(x, x), x), x), x)
  }

  /** The reflectance at normal incidence, `((1 - ratio) / (1 + ratio))²`. */
  function NormalReflectance(ratio: real): real
    requires ratio != -1.0
  {
    var q := (1.0 - ratio) / (1.0 + ratio);
    Mul(q, q)
  }

  /** `reflectance`: Schlick's approximation of the share of light reflected. */
  function Reflectance(cos: real, ratio: real): real
    requires ratio != -1.0
  {
    var r0 := NormalReflectance(ratio);
    r0 + (1.0 - r0) * Pow5(1.0 - cos)
  }

  /** `refraction_ratio`: leaving air for the material when the ray struck
      the outside, the other way round when it struck the inside. Only the
      outside case divides by the index. A positive index gives a positive
      ratio, and for a material denser than air (index at least 1) a ray
      entering it gets a ratio of at most 1 and a ray leaving it one of at
      least 1. */
  function RefractionRatio(m: Dielectric, outward: bool): (ratio: real)
    requires outward ==> m.refractionIndex != 0.0
    ensures m.refractionIndex > 0.0 ==> ratio > 0.0
    ensures m.refractionIndex >= 1.0 ==> (outward ==> ratio <= 1.0) && (!outward ==> ratio >= 1.0)
  {
    if outward then 1.0 / m.refractionIndex else m.refractionIndex
  }

  /** The two faces use reciprocal ratios: what entering multiplies,
      leaving divides. */
  lemma FacesUseReciprocalRatios(m: Dielectric)
    requires m.refractionIndex != 0.0
    ensures RefractionRatio(m, true) * RefractionRatio(m, false) == 1.0
  {
  }

  /** `cos_theta`: the cosine between the reversed unit direction and the
      normal, capped at 1. */
  function CosTheta(unit: Vector3, normal: Vector3): (cos: real)
    ensures cos <= 1.0
    ensures cos == Dot(Neg(unit), normal) || cos == 1.0
    ensures Dot(Neg(unit), normal) <= 1.0 ==> cos == Dot(Neg(unit), normal)
  {
    var d := Dot(Neg(unit), normal);
    if d < 1.0 then d else 1.0
  }

  function SinTheta(cos: real, sqrt: real -> real): real
  {
    sqrt(1.0 - Mul(cos, cos))
  }

  /** `cannot_refract`: Snell's law has no solution. */
  predicate CannotRefract(ratio: real, cos: real, sqrt: real -> real)
  {
    ratio * SinTheta(cos, sqrt) > 1.0
  }

  /** Whether the ray is reflected: always when it cannot refract, and
      otherwise when the reflectance exceeds the draw. The source's `||`
      short-circuits, so the draw only matters in the second case. */
  predicate Reflects(ratio: real, cos: real, draw: real, sqrt: real -> real)
    requires ratio != -1.0
  {
    CannotRefract(ratio, cos, sqrt) || Reflectance(cos, ratio) > draw
  }

  /** What a hit on glass needs in this model: the source divides by the
      index on an outside hit, by `1 + ratio` on every hit (zero exactly when
      the index is -1, on either face) and by the length of the incoming
      direction. */
  predicate Scatterable<M>(m: Dielectric, ray: Ray, hit: HitResult<M>, sqrt: real -> real)
  {
    hit.Hit? ==>
      && (hit.outward ==> m.refractionIndex != 0.0)
      && m.refractionIndex != -1.0
      && Length(ray.direction, sqrt) != 0.0
  }

  /** `Dielectric::scatter` */
  function DielectricScatter<M>(m: Dielectric, ray: Ray, hit: HitResult<M>, draw: real, ext: Externals): (r: Scatter)
    requires Scatterable(m, ray, hit, ext.sqrt)
    ensures r.Scatter? <==> hit.Hit?
    ensures r.Scatter? ==> r.attenuation == ONE && r.ray.origin == hit.point
    ensures r.Scatter? ==>
      var unit := UnitVector(ray.direction, ext.sqrt);
      var ratio := RefractionRatio(m, hit.outward);
      r.ray.direction == ext.reflect(unit, hit.normal) || r.ray.direction == ext.refract(unit, hit.normal, ratio)
  {
    match hit
    case Hit(position, normal, _, _, outward) =>
      var ratio := RefractionRatio(m, outward);
      var unit := UnitVector(ray.direction, ext.sqrt);
      var cos := CosTheta(unit, normal);
      var direction :=
        if Reflects(ratio, cos, draw, ext.sqrt) then ext.reflect(unit, normal)
        else ext.refract(unit, normal, ratio);
      Scatter.Scatter(ONE, Ray(position, direction))
    case None => Scatter.None
  }

  // ---- Schlick's reflectance ----

  lemma {:induction false} UnitIntervalProduct(p: real, q: real)
    requires 0.0 <= p <= 1.0 && 0.0 <= q <= 1.0
    ensures 0.0 <= Mul(p, q) <= p
  {
    NonNegativeProduct(p, q);
    ScaleBelow(p, q);
  }

  /** A fifth power of a number in [0, 1] stays in [0, 1]. */
  lemma {:induction false} Pow5UnitInterval(x: real)
    requires 0.0 <= x <= 1.0
    ensures 0.0 <= Pow5(x) <= 1.0
  {
    UnitIntervalProduct(x, x);
    UnitIntervalProduct(Mul(x, x), x);
    UnitIntervalProduct(Mul(Mul(x, x), x), x);
    UnitIntervalProduct(Mul(Mul(Mul(x, x), x), x), x);
  }

  /** At normal incidence the reflectance is `r0`, which is never negative;
      at grazing incidence everything is reflected. */
  lemma ReflectanceEnds(ratio: real)
    requires ratio != -1.0
    ensures Reflectance(1.0, ratio) == NormalReflectance(ratio)
    ensures NormalReflectance(ratio) >= 0.0
    ensures Reflectance(0.0, ratio) == 1.0
  {
    SquareSign((1.0 - ratio) / (1.0 + ratio));
  }

  /** For a positive ratio, `r0` is below 1. */
  lemma {:induction false} NormalReflectanceBelowOne(ratio: real)
    requires ratio > 0.0
    ensures 0.0 <= NormalReflectance(ratio) < 1.0
  {
    var q := (1.0 - ratio) / (1.0 + ratio);
    assert -1.0 < q < 1.0;
    SquareSign(q);
    if q >= 0.0 {
      UnitIntervalProduct(q, q);
    } else {
      SquareOfNegation(q);
      UnitIntervalProduct(-q, -q);
    }
  }

  /** For an angle with cosine in [0, 1] and a positive ratio, the
      reflectance lies between `r0` and 1: it is a probability. */
  lemma {:induction false} ReflectanceBounds(cos: real, ratio: real)
    requires 0.0 <= cos <= 1.0 && ratio > 0.0
    ensures NormalReflectance(ratio) <= Reflectance(cos, ratio) <= 1.0
  {
    var r0 := NormalReflectance(ratio);
    NormalReflectanceBelowOne(ratio);
    Pow5UnitInterval(1.0 - cos);
    var p := Pow5(1.0 - cos);
    assert (1.0 - r0) * p >= 0.0;
    ScaleBelow(1.0 - r0, p);
  }

  // ---- The reflect-or-refract decision ----

  /** When Snell's law has no solution the ray is reflected, whatever
      number was drawn. */
  lemma TotalInternalReflection<M>(m: Dielectric, ray: Ray, hit: HitResult<M>, draw1: real, draw2: real, ext: Externals)
    requires hit.Hit? && Scatterable(m, ray, hit, ext.sqrt)
    requires CannotRefract(RefractionRatio(m, hit.outward), CosTheta(UnitVector(ray.direction, ext.sqrt), hit.normal), ext.sqrt)
    ensures DielectricScatter(m, ray, hit, draw1, ext) == DielectricScatter(m, ray, hit, draw2, ext)
    ensures DielectricScatter(m, ray, hit, draw1, ext).ray.direction == ext.reflect(UnitVector(ray.direction, ext.sqrt), hit.normal)
  {
  }

  /** When the ray can refract, the draw decides: a draw below the
      reflectance reflects, any other draw refracts with the chosen ratio. */
  lemma DrawDecides<M>(m: Dielectric, ray: Ray, hit: HitResult<M>, draw: real, ext: Externals)
    requires hit.Hit? && Scatterable(m, ray, hit, ext.sqrt)
    requires !CannotRefract(RefractionRatio(m, hit.outward), CosTheta(UnitVector(ray.direction, ext.sqrt), hit.normal), ext.sqrt)
    ensures var unit := UnitVector(ray.direction, ext.sqrt);
      var ratio := RefractionRatio(m, hit.outward);
      var direction := DielectricScatter(m, ray, hit, draw, ext).ray.direction;
      && (Reflectance(CosTheta(unit, hit.normal), ratio) > draw ==> direction == ext.reflect(unit, hit.normal))
      && (Reflectance(CosTheta(unit, hit.normal), ratio) <= draw ==> direction == ext.refract(unit, hit.normal, ratio))
  {
  }

  lemma {:induction false} RootOfUnitInterval(v: real, sqrt: real -> real)
    requires SqrtLaw(sqrt)
    requires 0.0 <= v <= 1.0
    ensures 0.0 <= sqrt(v) <= 1.0
  {
    var s := sqrt(v);
    if s > 1.0 {
      MulOfPositives(s - 1.0, s);
    }
  }

  /** With a ratio of at most 1 and a cosine in [0, 1], Snell's law
      always has a solution. */
  lemma {:induction false} NoTotalReflectionBelowRatioOne(ratio: real, cos: real, sqrt: real -> real)
    requires SqrtLaw(sqrt)
    requires 0.0 < ratio <= 1.0 && 0.0 <= cos <= 1.0
    ensures !CannotRefract(ratio, cos, sqrt)
  {
    UnitIntervalProduct(cos, cos);
    RootOfUnitInterval(1.0 - Mul(cos, cos), sqrt);
    UnitIntervalProduct(ratio, SinTheta(cos, sqrt));
  }

  /** A ray entering the glass from the outside, towards a normal it faces,
      is never totally internally reflected when the index is at least 1. */
  lemma {:induction false} EnteringNeverTotallyReflects<M>(m: Dielectric, ray: Ray, hit: HitResult<M>, ext: Externals)
    requires SqrtLaw(ext.sqrt)
    requires hit.Hit? && hit.outward && Scatterable(m, ray, hit, ext.sqrt)
    requires m.refractionIndex >= 1.0
    requires Dot(Neg(UnitVector(ray.direction, ext.sqrt)), hit.normal) >= 0.0
    ensures !CannotRefract(RefractionRatio(m, hit.outward), CosTheta(UnitVector(ray.direction, ext.sqrt), hit.normal), ext.sqrt)
  {
    NoTotalReflectionBelowRatioOne(RefractionRatio(m, true), CosTheta(UnitVector(ray.direction, ext.sqrt), hit.normal), ext.sqrt);
  }

  /** A ray meeting glass of index 1 edge-on is still reflected for every
      draw below 1, because Schlick's term `(1 - cos)^5` is then 1. */
  lemma IndexOneStillReflects(draw: real, sqrt: real -> real)
    requires draw < 1.0
    ensures NormalReflectance(1.0) == 0.0
    ensures Reflects(1.0, 0.0, draw, sqrt)
  {
  }
}
