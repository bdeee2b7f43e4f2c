# A verified model of the basic_pathtracer rendering core

This project models in Dafny the discrete core of a small Rust path tracer:

- the permuted congruential random generator;
- the nearest-hit scan over a list of surfaces;
- the sphere intersection: quadratic roots, choice of root, normal orientation;
- the scatter decisions of the three materials (Lambertian, metallic, dielectric);
- the vector, ray and pinhole-camera algebra these rely on.

`f32` is idealised as `real`, and nothing is claimed about rounding.
The generator works on exact wrapping `u64` arithmetic, which is modelled with `bv64`.

Some functions are called by the core but are not defined in the files it
consists of. These are passed in as function-valued parameters (`Vectors.Externals`):

- `f32::sqrt`. Proofs that need it assume `Vectors.SqrtLaw`: the non-negative root of a non-negative number.
- `Vector3::reflect` and `Vector3::refract`.

The random values the materials draw are plain parameters:

- the random unit vector (Lambertian);
- the random point in the unit sphere (metallic);
- the uniform draw `next_f32` (dielectric).

Files, one module each, following the source layout:

| file | module | source |
|---|---|---|
| vectors.dfy | `Vectors` | src/vector_3.rs |
| rays.dfy | `Rays` | src/ray.rs |
| cameras.dfy | `Cameras` | src/camera.rs |
| random.dfy | `Random` | src/random.rs |
| hit.dfy | `Hit` | src/hit.rs |
| spheres.dfy | `Spheres` | src/geometry/sphere.rs |
| material.dfy | `Materials` | src/material.rs |
| lambertian.dfy | `Lambertians` | src/material/lambertian.rs |
| metallic.dfy | `Metals` | src/material/metallic.rs |
| dielectric.dfy | `Dielectrics` | src/material/dielectric.rs |

Imperative parts are imperative here too:

- `PCGR` is the class `Random.Pcgr`, and `next` updates its `state` field in place.
- `HitList` is the class `Hit.HitList`. Its `hit` is a loop proved against the recursive specification `Hit.Scan`, and `add` appends to its `objects` field.
- `+=` on vectors is `Vectors.MutableVector3.AddAssign`.

Everything else in the core is a pure expression and is a function here.

A surface is a function from a ray and an open range `(min, max)` to a
`HitResult`. The material carried by a hit is a type parameter. The
nearest-hit property of the list holds for any surfaces that report their
nearest distance in range, and the sphere is proved to be such a surface.
`Spheres.SpheresNearest` puts the two together: for a ray whose direction is
not zero, scanning a list of spheres returns the nearest point, strictly
between `min` and `max`, at which the ray meets any of them. A ray with a zero
direction hits no sphere (`Spheres.ZeroDirectionMisses`); see "## Left out".

Some behaviour of the code differs from what the usual textbook version of
this kind of renderer does. The model follows the code:

- A metallic hit is never absorbed. There is no back-face test (src/material/metallic.rs:18-21).
- A metallic scatter takes its random sample even when `fuzziness` is 0 (src/material/metallic.rs:20).
- Glass of refraction index 1 does not always transmit. Schlick's term `(1 - cos)^5` still makes it reflect, certainly so at grazing incidence (`Dielectrics.IndexOneStillReflects`).
- The generator's output is not narrowed to 32 bits as reference PCG32's is (`Random.OutputExceeds32Bits`).

## Model

| member | source | states |
|---|---|---|
| `Vectors.Add` | src/vector_3.rs:28-34 | `+`, componentwise; its laws are in `Vectors.AddComponents` |
| `Vectors.Neg` | src/vector_3.rs:36-42 | unary `-`, componentwise; see `Vectors.SubIsAddNeg` |
| `Vectors.Sub` | src/vector_3.rs:44-50 | binary `-`, componentwise; see `Vectors.SubIsAddNeg` |
| `Vectors.MulVector` | src/vector_3.rs:52-57 | vector times vector, a scalar; see `Vectors.MulVectorIsDot` |
| `Vectors.MulScalar` | src/vector_3.rs:59-65 | vector times scalar; see `Vectors.ScalarMulCommutes` |
| `Vectors.ScalarMul` | src/vector_3.rs:67-72 | scalar times vector; see `Vectors.ScalarMulCommutes` |
| `Vectors.Div` | src/vector_3.rs:74-80 | vector divided by a non-zero scalar; see `Vectors.DivUndoesScale` and `Vectors.ScaleUndoesDiv` |
| `Vectors.LengthSquared` | src/vector_3.rs:83-85 | `self * self`; see `Vectors.LengthSquaredZeroIffZero` |
| `Vectors.Length` | src/vector_3.rs:87-89 | the square root of `length_squared`; see `Vectors.LengthIsRoot` |
| `Vectors.UnitVector` | src/vector_3.rs:91-93 | the vector divided by its non-zero length; see `Vectors.UnitVectorIsUnit` |
| `Vectors.Dot` | src/vector_3.rs:95-97 | `dot`; see `Vectors.MulVectorIsDot` |
| `Vectors.AddComponents` | src/vector_3.rs:28-34 | `+` is componentwise and commutative, and `ZERO` is its identity |
| `Vectors.SubIsAddNeg` | src/vector_3.rs:36-50 | `a - b == a + (-b)`, `(a - b) + b == a`, and negation is an involution |
| `Vectors.MulVectorIsDot` | src/vector_3.rs:52-57 | vector-times-vector `Mul` equals `dot`, and `dot` is symmetric |
| `Vectors.ScalarMulCommutes` | src/vector_3.rs:59-72 | `v * s == s * v`; scaling by 1 is the identity and scaling by 0 gives `ZERO` |
| `Vectors.DivUndoesScale` | src/vector_3.rs:74-80 | dividing by a non-zero scalar undoes multiplying by it |
| `Vectors.ScaleUndoesDiv` | src/vector_3.rs:74-80 | multiplying by a non-zero scalar undoes dividing by it |
| `Vectors.LengthSquaredZeroIffZero` | src/vector_3.rs:83-85 | `length_squared` is never negative and is zero exactly for `ZERO` |
| `Vectors.LengthSquaredDiv` | src/vector_3.rs:74-85 | `length_squared(v / s) * s² == length_squared(v)` |
| `Vectors.LengthIsRoot` | src/vector_3.rs:87-89 | `length` is non-negative and squares to `length_squared` |
| `Vectors.UnitVectorIsUnit` | src/vector_3.rs:91-93 | `unit_vector` of a vector of non-zero length has squared length 1 |
| `Vectors.MutableVector3.AddAssign` | src/vector_3.rs:20-26 | after `+=` the vector equals its old value plus `other` |
| `Rays.At` | src/ray.rs:10-12 | `at(t)`; its laws are in the `Rays.At…` rows below |
| `Rays.AtZero` | src/ray.rs:10-12 | `at(0)` is the origin |
| `Rays.AtComponents` | src/ray.rs:11 | `at(t)` is `origin + t * direction`, coordinate by coordinate |
| `Rays.AtShift` | src/ray.rs:11 | `at(s + t) == at(s) + t * direction` |
| `Rays.AtZeroDirection` | src/ray.rs:11 | a ray with zero direction stays at its origin for every `t` |
| `Cameras.GetRay` | src/camera.rs:12-14 | `get_ray(u, v)`; see the `Cameras` lemma rows below |
| `Cameras.LowerLeftCorner` | src/camera.rs:16-18 | `lower_left_corner`; see `Cameras.LowerLeftCornerOffset` and `Cameras.CornerRay` |
| `Cameras.GetRayOrigin` | src/camera.rs:12-14 | every primary ray starts at the camera origin |
| `Cameras.LowerLeftCornerOffset` | src/camera.rs:16-18 | the corner plus half of each side plus the focal length along `Z` gives back the origin |
| `Cameras.CentreRay` | src/camera.rs:12-18 | `get_ray(0.5, 0.5)` has direction `(0, 0, -focal_length)` |
| `Cameras.GetRayAffine` | src/camera.rs:12-14 | a step `du` in `u` adds `du * horizontal` to the direction, and likewise `dv` and `vertical` |
| `Cameras.CornerRay` | src/camera.rs:12-18 | the ray for `(0, 0)` reaches the lower left corner at `t = 1` |
| `Random.Advance` | src/random.rs:12 | the state advance, in wrapping 64-bit arithmetic; used by `Random.Pcgr.Next` |
| `Random.XorShifted` | src/random.rs:14 | the xorshift of the old state; see `Random.XorShiftedBelow` |
| `Random.Rotate` | src/random.rs:16 | `(x >> rot) \| (x << ((-rot) & 31))` for a rotation below 32; see `Random.NoRotationIsIdentity` and `Random.ShiftAmountsComplement` |
| `Random.Output` | src/random.rs:14-16 | the value `next` returns, from the old state; see `Random.OutputExceeds32Bits` |
| `Random.Pcgr.Next` | src/random.rs:9-17 | the new `state` is old `state` times 6364136223846793005 plus `inc` with its low bit set, modulo 2^64; `inc` is unchanged; the result is the output of the old state only |
| `Random.Rotation` | src/random.rs:15 | the rotation `oldstate >> 59` is below 32 |
| `Random.LeftShift` | src/random.rs:16 | the left-shift amount `(-rot) & 31`, computed in 128 bits, is below 32 |
| `Random.IncrementIsOdd` | src/random.rs:12 | the increment actually added, `inc` with its low bit set, is odd |
| `Random.XorShiftedBelow` | src/random.rs:14 | the xorshifted value is below 2^37 |
| `Random.NoRotationIsIdentity` | src/random.rs:15-16 | with rotation 0 the output is the xorshifted value |
| `Random.ShiftAmountsComplement` | src/random.rs:15-16 | for a rotation in 1..31 the right and left shift amounts add up to 32 |
| `Random.OutputExceeds32Bits` | src/random.rs:14-16 | an old state whose output is at least 2^32: the output is not confined to 32 bits |
| `Hit.HitList.Add` | src/hit.rs:36-38 | `add` appends exactly one surface at the end and keeps the earlier ones in order |
| `Hit.HitList.Hit` | src/hit.rs:21-32 | the loop returns `Scan(objects, …)`, the result of visiting the surfaces in order and shrinking the bound to each hit; it modifies nothing |
| `Hit.Scan` | src/hit.rs:22-31 | the value of `hit_record` after visiting the surfaces in order with the shrinking bound; its properties are the `Hit.Scan…` lemma rows below |
| `Hit.ScanEmpty` | src/hit.rs:22-31 | an empty list is never hit |
| `Hit.ScanWithinBounds` | src/hit.rs:21-31 | with surfaces that stay in range, the bound never exceeds `max` and a hit lies strictly inside `(min, max)` |
| `Hit.ScanBoundStep` | src/hit.rs:25-29 | for a surface that stays in range, its step leaves the bound passed to later surfaces equal or lower |
| `Hit.ScanMissesIffAllMiss` | src/hit.rs:25-31 | the list is missed exactly when every surface misses under `(min, max)` |
| `Hit.ScanIsLastHit` | src/hit.rs:25-30 | a hit is what some surface reported under the bound left by the ones before it, with `min` unchanged, and every later surface missed under the shrunk bound |
| `Hit.ScanNearest` | src/hit.rs:21-32 | if every surface reports its nearest distance in range, the list reports the nearest distance of all surfaces in `(min, max)`, or misses when there is none |
| `Hit.UnionRootsOfPermutation` | src/hit.rs:25 | the distances of all surfaces together do not depend on the order of the surfaces |
| `Hit.ScanDistanceOrderIndependent` | src/hit.rs:21-32 | under that contract, reordering the surfaces changes neither whether the list is hit nor the distance hit |
| `Hit.LaterHitOnlyIfNearer` | src/hit.rs:26-28 | a later surface replaces an earlier hit only with a strictly nearer one, so on equal distances the earlier surface's record is kept |
| `Spheres.Discriminant` | src/geometry/sphere.rs:21 | `b * b - 4 * a * c`; used by `Spheres.SolveQuadratic` |
| `Spheres.CoefficientA` | src/geometry/sphere.rs:35 | `a`, the squared length of the direction; see `Spheres.QuadraticOfRay` |
| `Spheres.CoefficientB` | src/geometry/sphere.rs:34-36 | `b`, twice `dot(origin - center, direction)`; see `Spheres.QuadraticOfRay` |
| `Spheres.CoefficientC` | src/geometry/sphere.rs:34-37 | `c`, `length_squared(origin - center) - radius²`; see `Spheres.QuadraticOfRay` |
| `Spheres.SolveQuadratic` | src/geometry/sphere.rs:19-28 | `solve_quadratic`; see `Spheres.NoRootsIffNegativeDiscriminant`, `Spheres.RootsOrdered` and `Spheres.RootsAreSolutions` |
| `Spheres.FaceHit` | src/geometry/sphere.rs:43-53 | the hit record for a chosen root; see `Spheres.SphereNormalFacesRay` and `Spheres.SphereNormalIsUnit` |
| `Spheres.SphereHit` | src/geometry/sphere.rs:32-59 | `Sphere::hit`; see `Spheres.SphereHitInRange`, `Spheres.SphereReportsNearest` and `Spheres.ZeroDirectionMisses` |
| `Spheres.NoRootsIffNegativeDiscriminant` | src/geometry/sphere.rs:19-28 | `solve_quadratic` finds no roots exactly when `b² - 4ac < 0` |
| `Spheres.RootsOrdered` | src/geometry/sphere.rs:26 | with `a > 0` the first root is at most the second, and the two are equal when the discriminant is 0 |
| `Spheres.RootsAreSolutions` | src/geometry/sphere.rs:19-28 | `t` solves `a t² + b t + c = 0` exactly when it is one of the two roots returned |
| `Spheres.QuadraticOfRay` | src/geometry/sphere.rs:34-37 | the squared distance from `at(t)` to the centre, minus `r²`, equals `a t² + b t + c` for the coefficients `hit` computes |
| `Spheres.RootsAreOnSphere` | src/geometry/sphere.rs:34-41 | for a ray with non-zero direction, the candidate distances are exactly those where the ray is on the sphere |
| `Spheres.ZeroDirectionMisses` | src/geometry/sphere.rs:34-41 | a ray with zero direction (`a = 0`) is never hit |
| `Spheres.SphereHitInRange` | src/geometry/sphere.rs:41-56 | a reported hit has `t` strictly inside `(min, max)`, is one of the roots, lies at `ray.at(t)` and carries the sphere's material |
| `Spheres.SphereStaysInBounds` | src/geometry/sphere.rs:42-55 | as a surface, the sphere only reports distances inside the range it is given |
| `Spheres.SphereReportsNearest` | src/geometry/sphere.rs:39-57 | the smaller root is reported when in range, the larger only when the smaller is not, and a miss means neither is in range |
| `Spheres.SphereNormalFacesRay` | src/geometry/sphere.rs:44-46 | `outward` is `dot(direction, (p - center)/radius) < 0`; the stored normal is that normal or its negation accordingly, so `dot(direction, normal) <= 0` |
| `Spheres.SphereNormalIsUnit` | src/geometry/sphere.rs:43-44 | the reported normal has squared length 1 |
| `Spheres.SpheresNearest` | src/hit.rs:21-32 | for a ray whose direction is not zero, scanning a list of spheres gives the nearest point in `(min, max)` at which the ray meets any of them, and misses only when there is none; the zero direction is `Spheres.ZeroDirectionMisses` |
| `Lambertians.ScatterDirection` | src/material/lambertian.rs:18-21 | the direction is `normal + u` or `normal`; the sum is replaced only when its squared length is below 0.001; and with a normal of squared length at least 0.001 the direction is never degenerate and never zero, whatever the draw |
| `Lambertians.LambertianScatter` | src/material/lambertian.rs:15-29 | a miss gives `None`; a hit always scatters, with attenuation `albedo`, from the hit position, in the fallback-protected direction |
| `Lambertians.OppositeDrawFallsBack` | src/material/lambertian.rs:18-21 | a draw opposite the normal cancels it and the fallback then returns the normal |
| `Metals.Reflected` | src/material/metallic.rs:19 | `reflected`, the reflection of the unit direction; used by `Metals.MetallicScatter` |
| `Metals.MetallicScatter` | src/material/metallic.rs:16-24 | a miss gives `None`; a hit always scatters, with attenuation `albedo`, from the hit position, and the direction exceeds the reflection of the unit direction by exactly `fuzziness * sample` |
| `Metals.SmoothMetalMirrors` | src/material/metallic.rs:19-20 | with `fuzziness == 0` the direction is the pure reflection, whatever the sample |
| `Metals.FuzzBounded` | src/material/metallic.rs:19-20 | with a sample in the unit ball, the direction lies within `fuzziness` of the pure reflection |
| `Dielectrics.RefractionRatio` | src/material/dielectric.rs:23 | a positive index gives a positive ratio; for an index of at least 1, a ray entering (outside hit) gets a ratio of at most 1 and a ray leaving (inside hit) one of at least 1; only the outside hit needs a non-zero index |
| `Dielectrics.FacesUseReciprocalRatios` | src/material/dielectric.rs:23 | the outside and inside ratios multiply to 1 |
| `Dielectrics.CosTheta` | src/material/dielectric.rs:26 | `cos_theta` is `dot(-unit, normal)` capped at 1 |
| `Dielectrics.DielectricScatter` | src/material/dielectric.rs:20-40 | a miss gives `None`; a hit always scatters, with attenuation `ONE`, from the hit position, by reflecting or refracting the unit direction with the chosen ratio |
| `Dielectrics.TotalInternalReflection` | src/material/dielectric.rs:29-31 | when refraction is impossible the ray is reflected, and the result does not depend on the draw |
| `Dielectrics.DrawDecides` | src/material/dielectric.rs:30-33 | otherwise a draw below the reflectance reflects and any other draw refracts |
| `Dielectrics.NormalReflectance` | src/material/dielectric.rs:13-14 | `r0`; see `Dielectrics.NormalReflectanceBelowOne` |
| `Dielectrics.Reflectance` | src/material/dielectric.rs:12-16 | `reflectance`; see `Dielectrics.ReflectanceEnds` and `Dielectrics.ReflectanceBounds` |
| `Dielectrics.Pow5` | src/material/dielectric.rs:15 | `powi(5)`; see `Dielectrics.Pow5UnitInterval` |
| `Dielectrics.SinTheta` | src/material/dielectric.rs:27 | `sin_theta`, `sqrt(1 - cos²)` |
| `Dielectrics.CannotRefract` | src/material/dielectric.rs:29 | `cannot_refract`; see `Dielectrics.NoTotalReflectionBelowRatioOne` and `Dielectrics.TotalInternalReflection` |
| `Dielectrics.Reflects` | src/material/dielectric.rs:30 | the condition that picks reflection; see `Dielectrics.DrawDecides` |
| `Dielectrics.Pow5UnitInterval` | src/material/dielectric.rs:15 | `powi(5)` keeps a number of [0, 1] in [0, 1] |
| `Dielectrics.ReflectanceEnds` | src/material/dielectric.rs:12-16 | `reflectance(1, r) == r0 >= 0` and `reflectance(0, r) == 1` |
| `Dielectrics.NormalReflectanceBelowOne` | src/material/dielectric.rs:13-14 | for a positive ratio, `r0` lies in [0, 1) |
| `Dielectrics.ReflectanceBounds` | src/material/dielectric.rs:12-16 | for `cos` in [0, 1] and a positive ratio, the reflectance lies in [`r0`, 1] |
| `Dielectrics.NoTotalReflectionBelowRatioOne` | src/material/dielectric.rs:26-29 | with a ratio in (0, 1] and `cos` in [0, 1], refraction is always possible |
| `Dielectrics.EnteringNeverTotallyReflects` | src/material/dielectric.rs:23-29 | a ray entering glass of index at least 1 from outside, against a normal it faces, is never totally internally reflected |
| `Dielectrics.IndexOneStillReflects` | src/material/dielectric.rs:12-16 | at index 1, `r0 == 0` and yet a ray meeting the glass edge-on reflects for every draw below 1 |

## Left out

- `PCGR::random` (src/random.rs:19-21) converts to `f32` and divides, so its whole effect is floating-point rounding. It is not modelled.
- The determinism of `next` is not stated as a separate lemma. It follows from `Random.Pcgr.Next`'s contract: the new state and the result are functions of the old `state` and `inc`.
- src/main.rs is the render loop and PPM output, all I/O, and is not part of this model. So are src/colour.rs (printing and the saturating float-to-byte cast) and src/scene/random_spheres.rs (scene authoring driven by a foreign generator).
- The `xorshift` generator is a foreign library. Its draws are parameters of the scatter functions. How much of the generator each call uses is not modelled. In particular, the dielectric draws nothing when refraction is impossible; the model captures this only as independence from the draw (`Dielectrics.TotalInternalReflection`).
- `f32::sqrt`, `Vector3::reflect`, `Vector3::refract`, `Vector3::random_unit_vector` and `Vector3::random_in_sphere` are not defined in the modelled files. They are parameters, and only `sqrt` is given a law.
- Floating-point rounding, infinities and NaN are not modelled. Divisions by zero in the source become preconditions, or types that exclude zero:
  - `Vectors.Div` and `Vectors.UnitVector` require a non-zero divisor.
  - A sphere's radius has type `Spheres.Radius`, which excludes 0.
  - `Spheres.SolveQuadratic` requires `a != 0` for the division by `2a` (src/geometry/sphere.rs:26). Its only caller, `Spheres.SphereHit`, handles `a = 0` itself, as the `Spheres.SphereHit` line below explains.
  - `Metals.MetallicScatter` and `Dielectrics.DielectricScatter` require an incoming direction of non-zero length on a hit.
  - `Dielectrics.DielectricScatter` also requires an index other than -1 on every hit, and an index other than 0 on an outside hit. These are the cases where the source divides by zero. An inside hit with index 0 is allowed: there the source divides by nothing.
- Lambertians.ScatterDirection: its contract does not itself say that a degenerate sum is replaced when the normal is degenerate too. When the normal is not degenerate, its last clause forces the replacement.
- `Hit.ScanDistanceOrderIndependent` stops at whether the list is hit and at the distance. When two surfaces report the same distance, the earlier surface's record wins (`Hit.LaterHitOnlyIfNearer`), because src/hit.rs:26 passes the shrunk bound and surfaces report only distances strictly below it. So the normal, material and `outward` flag reported can depend on the order of the surfaces.
- `Spheres.SphereHit` returns `None` outright for a zero direction (`a = 0`). In the source, both roots are then 0/0 = NaN and every range test fails, so the outcome is the same.
- `Rc<dyn Material>` and `Box<dyn Surface>` sharing and dynamic dispatch are not modelled. A material is a type parameter of the hit record, and a surface is a function value.
- The `Material` trait of src/material.rs is not a Dafny member. Each material's `scatter` is a function of its own module, and the `Scatter` enum is the datatype `Materials.Scatter`.
