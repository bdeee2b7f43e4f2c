/** The sphere surface (src/geometry/sphere.rs): where a ray meets the
    sphere, which of the two meeting points is reported, and which way the
    reported normal faces. */
module Spheres {
  import opened Vectors
  import opened Rays
  import opened Hit

  /** The source divides by the radius; a zero radius would give NaN normals. */
  type Radius = r: real | r != 0.0 witness 1.0

  datatype Sphere<M> = Sphere(center: Point3, radius: Radius, material: M)

  /** `QuadraticSolution`: no real roots, or the two roots in the order
      `solve_quadratic` computes them. */
  datatype QuadraticSolution = None | Result(one: real, two: real)

  function Discriminant(a: real, b: real, c: real): real
  {
    Mul(b, b) - 4.0 * a * c
  }

  /** `solve_quadratic`: no roots for a negative discriminant, otherwise
      `(-b - √d) / 2a` and `(-b + √d) / 2a`. The source divides by `2a`
      unguarded; a zero `a` is handled by its caller here. */
  function SolveQuadratic(a: real, b: real, c: real, sqrt: real -> real): QuadraticSolution
    requires a != 0.0
  {
    var d := Discriminant(a, b, c);
    if d < 0.0 then QuadraticSolution.None
    else QuadraticSolution.Result((-b - sqrt(d)) / (2.0 * a), (-b + sqrt(d)) / (2.0 * a))
  }

  /** The coefficients `a`, `b`, `c` of `Sphere::hit`: the distances `t`
      where the ray meets the sphere are the roots of `a t² + b t + c`. */
  function CoefficientA<M>(s: Sphere<M>, ray: Ray): real
  {
    LengthSquared(ray.direction)
  }

  function CoefficientB<M>(s: Sphere<M>, ray: Ray): real
  {
    2.0 * Dot(Sub(ray.origin, s.center), ray.direction)
  }

  function CoefficientC<M>(s: Sphere<M>, ray: Ray): real
  {
    LengthSquared(Sub(ray.origin, s.center)) - Mul(s.radius, s.radius)
  }

  /** The hit record for distance `t`: the point `ray.at(t)`, the outward
      normal `(p - center) / radius` turned to face the ray, and the flag
      saying whether it had to be turned. */
  function FaceHit<M>(s: Sphere<M>, ray: Ray, t: real): HitResult<M>
  {
    var p := At(ray, t);
    var n := Div(Sub(p, s.center), s.radius);
    var outward := Dot(ray.direction, n) < 0.0;
    HitResult.Hit(p, if outward then n else Neg(n), t, s.material, outward)
  }

  /** `Sphere::hit`. A ray with zero direction makes `a` zero; in the source
      both roots are then 0/0 = NaN, every range test fails and the result
      is `None`, which is what this function returns for it. */
  function SphereHit<M>(s: Sphere<M>, ray: Ray, min: real, max: real, sqrt: real -> real): HitResult<M>
  {
    var a := CoefficientA(s, ray);
    if a == 0.0 then HitResult.None
    else
      match SolveQuadratic(a, CoefficientB(s, ray), CoefficientC(s, ray), sqrt)
      case None => HitResult.None
      case Result(one, two) =>
        if min < one && one < max then FaceHit(s, ray, one)
        else if min < two && two < max then FaceHit(s, ray, two)
        else HitResult.None
  }

  /** The sphere as a surface of a hit list. */
  function SphereSurface<M>(s: Sphere<M>, sqrt: real -> real): SurfaceFn<M>
  {
    (ray: Ray, min: real, max: real) => SphereHit(s, ray, min, max, sqrt)
  }

  /** The distances at which `Sphere::hit` can report the ray. */
  function SphereRoots<M>(s: Sphere<M>, ray: Ray, sqrt: real -> real): set<real>
  {
    var a := CoefficientA(s, ray);
    if a == 0.0 then {}
    else
      match SolveQuadratic(a, CoefficientB(s, ray), CoefficientC(s, ray), sqrt)
      case None => {}
      case Result(one, two) => {one, two}
  }

  /** The point at distance `t` along the ray lies on the sphere. */
  ghost predicate OnSphere<M>(s: Sphere<M>, ray: Ray, t: real)
  {
    LengthSquared(Sub(At(ray, t), s.center)) == Mul(s.radius, s.radius)
  }

  // ---- Arithmetic of the quadratic ----

  lemma DivMonotone(x: real, y: real, p: real)
    requires x <= y && p > 0.0
    ensures x / p <= y / p
  {
  }

  /** With `a > 0` the first root is never the larger, and the two coincide
      when the discriminant is zero. */
  lemma RootsOrdered(a: real, b: real, c: real, sqrt: real -> real)
    requires SqrtLaw(sqrt)
    requires a > 0.0
    requires SolveQuadratic(a, b, c, sqrt).Result?
    ensures SolveQuadratic(a, b, c, sqrt).one <= SolveQuadratic(a, b, c, sqrt).two
    ensures Discriminant(a, b, c) == 0.0 ==> SolveQuadratic(a, b, c, sqrt).one == SolveQuadratic(a, b, c, sqrt).two
  {
    var d := Discriminant(a, b, c);
    var root := sqrt(d);
    DivMonotone(-b - root, -b + root, 2.0 * a);
    if d == 0.0 {
      assert Mul(root, root) == 0.0;
      ZeroProduct(root, root);
    }
  }

  /** A negative discriminant means no roots, and no roots only comes from one. */
  lemma NoRootsIffNegativeDiscriminant(a: real, b: real, c: real, sqrt: real -> real)
    requires a != 0.0
    ensures SolveQuadratic(a, b, c, sqrt).None? <==> Discriminant(a, b, c) < 0.0
  {
  }

  lemma ZeroProduct(p: real, q: real)
    requires Mul(p, q) == 0.0
    ensures p == 0.0 || q == 0.0
  {
    if p != 0.0 {
      assert q == Mul(p, q) / p;
    }
  }

  lemma CompletedSquare(a: real, b: real, c: real, t: real)
    ensures 4.0 * a * (a * Mul(t, t) + b * t + c) == Mul(2.0 * a * t + b, 2.0 * a * t + b) - Discriminant(a, b, c)
  {
  }

  /** `a t² + b t + c = 0` exactly when `(2at + b)² = b² - 4ac`. */
  lemma SolutionIffSquare(a: real, b: real, c: real, t: real)
    requires a != 0.0
    ensures a * Mul(t, t) + b * t + c == 0.0 <==> Mul(2.0 * a * t + b, 2.0 * a * t + b) == Discriminant(a, b, c)
  {
    CompletedSquare(a, b, c, t);
    var q := a * Mul(t, t) + b * t + c;
    if Mul(2.0 * a * t + b, 2.0 * a * t + b) == Discriminant(a, b, c) {
      assert Mul(4.0 * a, q) == 0.0;
      ZeroProduct(4.0 * a, q);
    }
  }

  /** Two numbers with equal squares are equal up to sign. */
  lemma EqualSquares(e: real, r: real)
    ensures Mul(e, e) == Mul(r, r) <==> e == r || e == -r
  {
    if Mul(e, e) == Mul(r, r) {
      assert Mul(e - r, e + r) == 0.0;
      ZeroProduct(e - r, e + r);
    }
  }

  lemma LinearSolve(a: real, b: real, t: real, r: real)
    requires a != 0.0
    ensures 2.0 * a * t + b == r <==> t == (r - b) / (2.0 * a)
  {
  }

  /** The roots of `solve_quadratic` are exactly the solutions of
      `a t² + b t + c = 0`. */
  lemma {:induction false} RootsAreSolutions(a: real, b: real, c: real, sqrt: real -> real, t: real)
    requires SqrtLaw(sqrt)
    requires a != 0.0
    ensures a * Mul(t, t) + b * t + c == 0.0 <==>
              SolveQuadratic(a, b, c, sqrt).Result? &&
              (t == SolveQuadratic(a, b, c, sqrt).one || t == SolveQuadratic(a, b, c, sqrt).two)
  {
    var d := Discriminant(a, b, c);
    var e := 2.0 * a * t + b;
    SolutionIffSquare(a, b, c, t);
    SquareSign(e);
    if d >= 0.0 {
      var root := sqrt(d);
      EqualSquares(e, root);
      LinearSolve(a, b, t, root);
      LinearSolve(a, b, t, -root);
      assert (-root - b) / (2.0 * a) == SolveQuadratic(a, b, c, sqrt).one;
      assert (root - b) / (2.0 * a) == SolveQuadratic(a, b, c, sqrt).two;
    }
  }

  // ---- The quadratic of Sphere::hit describes the sphere ----

  /** A vector as long as the radius, divided by the radius, has unit length. */
  lemma {:induction false} DivByRadius(v: Vector3, r: real)
    requires r != 0.0
    requires LengthSquared(v) == Mul(r, r)
    ensures LengthSquared(Div(v, r)) == 1.0
  {
    LengthSquaredDiv(v, r);
    SquareSign(r);
    CancelFactor(LengthSquared(Div(v, r)), Mul(r, r));
  }

  lemma ComponentSquare(o: real, d: real, t: real)
    ensures Mul(o + t * d, o + t * d) == Mul(o, o) + 2.0 * t * (o * d) + Mul(t, t) * Mul(d, d)
  {
  }

  /** `|ray.at(t) - center|² - r²` is the quadratic `a t² + b t + c`. */
  lemma {:induction false} QuadraticOfRay<M>(s: Sphere<M>, ray: Ray, t: real)
    ensures LengthSquared(Sub(At(ray, t), s.center)) - Mul(s.radius, s.radius) ==
              CoefficientA(s, ray) * Mul(t, t) + CoefficientB(s, ray) * t + CoefficientC(s, ray)
  {
    var o := Sub(ray.origin, s.center);
    var d := ray.direction;
    var tt := Mul(t, t);
    assert Sub(At(ray, t), s.center) == Add(o, ScalarMul(t, d));
    ExpandedLength(o, d, t);
    Regroup(Mul(o.x, o.x), Mul(o.y, o.y), Mul(o.z, o.z), o.x * d.x, o.y * d.y, o.z * d.z,
            Mul(d.x, d.x), Mul(d.y, d.y), Mul(d.z, d.z), t, tt);
  }

  lemma {:induction false} ExpandedLength(o: Vector3, d: Vector3, t: real)
    ensures LengthSquared(Add(o, ScalarMul(t, d))) ==
              (Mul(o.x, o.x) + 2.0 * t * (o.x * d.x) + Mul(t, t) * Mul(d.x, d.x))
              + (Mul(o.y, o.y) + 2.0 * t * (o.y * d.y) + Mul(t, t) * Mul(d.y, d.y))
              + (Mul(o.z, o.z) + 2.0 * t * (o.z * d.z) + Mul(t, t) * Mul(d.z, d.z))
  {
    ComponentSquare(o.x, d.x, t);
    ComponentSquare(o.y, d.y, t);
    ComponentSquare(o.z, d.z, t);
  }

  /** Collecting the terms of three expanded squares by powers of `t`. */
  lemma Regroup(p1: real, p2: real, p3: real, q1: real, q2: real, q3: real,
                r1: real, r2: real, r3: real, t: real, tt: real)
    ensures (p1 + 2.0 * t * q1 + tt * r1) + (p2 + 2.0 * t * q2 + tt * r2) + (p3 + 2.0 * t * q3 + tt * r3)
            == (r1 + r2 + r3) * tt + 2.0 * (q1 + q2 + q3) * t + (p1 + p2 + p3)
  {
  }

  /** For a ray with a non-zero direction, the distances `Sphere::hit` can
      report are exactly those at which the ray is on the sphere. */
  lemma {:induction false} RootsAreOnSphere<M>(s: Sphere<M>, ray: Ray, sqrt: real -> real, t: real)
    requires SqrtLaw(sqrt)
    requires ray.direction != ZERO
    ensures t in SphereRoots(s, ray, sqrt) <==> OnSphere(s, ray, t)
  {
    LengthSquaredZeroIffZero(ray.direction);
    QuadraticOfRay(s, ray, t);
    RootsAreSolutions(CoefficientA(s, ray), CoefficientB(s, ray), CoefficientC(s, ray), sqrt, t);
  }

  /** A ray with zero direction (`a = 0`) never hits the sphere. */
  lemma ZeroDirectionMisses<M>(s: Sphere<M>, ray: Ray, min: real, max: real, sqrt: real -> real)
    requires ray.direction == ZERO
    ensures SphereHit(s, ray, min, max, sqrt).None?
    ensures SphereRoots(s, ray, sqrt) == {}
  {
  }

  /** What `Sphere::hit` reports: a distance strictly inside `(min, max)`
      that is one of the roots, the point `ray.at(t)` and the sphere's own
      material. */
  lemma SphereHitInRange<M>(s: Sphere<M>, ray: Ray, min: real, max: real, sqrt: real -> real)
    requires SphereHit(s, ray, min, max, sqrt).Hit?
    ensures min < SphereHit(s, ray, min, max, sqrt).t < max
    ensures SphereHit(s, ray, min, max, sqrt).t in SphereRoots(s, ray, sqrt)
    ensures SphereHit(s, ray, min, max, sqrt).point == At(ray, SphereHit(s, ray, min, max, sqrt).t)
    ensures SphereHit(s, ray, min, max, sqrt).material == s.material
  {
  }

  /** A sphere, as a surface, respects the range it is given. */
  lemma SphereStaysInBounds<M>(s: Sphere<M>, sqrt: real -> real)
    ensures StaysInBounds(SphereSurface(s, sqrt))
  {
    forall ray: Ray, lo: real, hi: real | SphereSurface(s, sqrt)(ray, lo, hi).Hit?
      ensures lo < SphereSurface(s, sqrt)(ray, lo, hi).t < hi
    {
      SphereHitInRange(s, ray, lo, hi, sqrt);
    }
  }

  /** `Sphere::hit` reports the nearer of the two roots inside the range,
      and misses exactly when neither root is inside it. */
  lemma {:induction false} SphereReportsNearest<M>(s: Sphere<M>, ray: Ray, min: real, sqrt: real -> real)
    requires SqrtLaw(sqrt)
    ensures ReportsNearest(SphereSurface(s, sqrt), ray, min, SphereRoots(s, ray, sqrt))
  {
    var a := CoefficientA(s, ray);
    LengthSquaredZeroIffZero(ray.direction);
    forall hi: real
      ensures NearestIn(SphereSurface(s, sqrt)(ray, min, hi), SphereRoots(s, ray, sqrt), min, hi)
    {
      if a != 0.0 {
        var q := SolveQuadratic(a, CoefficientB(s, ray), CoefficientC(s, ray), sqrt);
        if q.Result? {
          RootsOrdered(a, CoefficientB(s, ray), CoefficientC(s, ray), sqrt);
        }
      }
    }
  }

  /** The reported normal always faces against the ray, and the outward flag
      says whether it is the outward normal `(p - center) / radius`. */
  lemma SphereNormalFacesRay<M>(s: Sphere<M>, ray: Ray, min: real, max: real, sqrt: real -> real)
    requires SphereHit(s, ray, min, max, sqrt).Hit?
    ensures var h := SphereHit(s, ray, min, max, sqrt);
      var n := Div(Sub(h.point, s.center), s.radius);
      && Dot(ray.direction, h.normal) <= 0.0
      && (h.outward <==> Dot(ray.direction, n) < 0.0)
      && h.normal == (if h.outward then n else Neg(n))
  {
  }

  /** The reported normal has unit length: the point is on the sphere, and
      dividing by the radius scales its offset from the centre to length 1. */
  lemma {:induction false} SphereNormalIsUnit<M>(s: Sphere<M>, ray: Ray, min: real, max: real, sqrt: real -> real)
    requires SqrtLaw(sqrt)
    requires SphereHit(s, ray, min, max, sqrt).Hit?
    ensures LengthSquared(SphereHit(s, ray, min, max, sqrt).normal) == 1.0
  {
    var h := SphereHit(s, ray, min, max, sqrt);
    SphereHitInRange(s, ray, min, max, sqrt);
    LengthSquaredZeroIffZero(ray.direction);
    RootsAreOnSphere(s, ray, sqrt, h.t);
    var v := Sub(h.point, s.center);
    assert LengthSquared(v) == Mul(s.radius, s.radius);
    DivByRadius(v, s.radius);
    var n := Div(v, s.radius);
    SquareOfNegation(n.x);
    SquareOfNegation(n.y);
    SquareOfNegation(n.z);
  }

  // ---- A list of spheres ----

  /** The spheres of a scene as the surfaces of a hit list, in order. */
  function Surfaces<M>(spheres: seq<Sphere<M>>, sqrt: real -> real): (objects: seq<SurfaceFn<M>>)
    ensures |objects| == |spheres|
    ensures forall i :: 0 <= i < |spheres| ==> objects[i] == SphereSurface(spheres[i], sqrt)
  {
    seq(|spheres|, i requires 0 <= i < |spheres| => SphereSurface(spheres[i], sqrt))
  }

  ghost function AllRoots<M>(spheres: seq<Sphere<M>>, ray: Ray, sqrt: real -> real): (roots: seq<set<real>>)
    ensures |roots| == |spheres|
    ensures forall i :: 0 <= i < |spheres| ==> roots[i] == SphereRoots(spheres[i], ray, sqrt)
  {
    seq(|spheres|, i requires 0 <= i < |spheres| => SphereRoots(spheres[i], ray, sqrt))
  }

  /** `HitList::hit` over spheres finds the nearest point where the ray,
      travelling strictly between `min` and `max`, meets any of them, and
      misses exactly when there is no such point. */
  lemma {:induction false} SpheresNearest<M>(spheres: seq<Sphere<M>>, ray: Ray, min: real, max: real, sqrt: real -> real)
    requires SqrtLaw(sqrt)
    requires ray.direction != ZERO
    ensures var rec := Scan(Surfaces(spheres, sqrt), ray, min, max);
      && (rec.Hit? ==> min < rec.t < max && exists i :: 0 <= i < |spheres| && OnSphere(spheres[i], ray, rec.t))
      && (rec.Hit? ==> forall i, u :: 0 <= i < |spheres| && OnSphere(spheres[i], ray, u) && min < u < max ==> rec.t <= u)
      && (rec.None? ==> forall i, u :: 0 <= i < |spheres| && OnSphere(spheres[i], ray, u) ==> !(min < u < max))
  {
    var objects, roots := Surfaces(spheres, sqrt), AllRoots(spheres, ray, sqrt);
    EachSphereReportsNearest(spheres, ray, min, sqrt);
    ScanNearest(objects, roots, ray, min, max);
    var rec := Scan(objects, ray, min, max);
    forall i, u | 0 <= i < |spheres| && OnSphere(spheres[i], ray, u)
      ensures rec.Hit? && min < u < max ==> rec.t <= u
      ensures rec.None? ==> !(min < u < max)
    {
      OnSphereInUnion(spheres, ray, sqrt, i, u);
    }
    if rec.Hit? {
      UnionOnSomeSphere(spheres, ray, sqrt, rec.t);
    }
  }

  lemma EachSphereReportsNearest<M>(spheres: seq<Sphere<M>>, ray: Ray, min: real, sqrt: real -> real)
    requires SqrtLaw(sqrt)
    ensures forall i :: 0 <= i < |spheres| ==> ReportsNearest(Surfaces(spheres, sqrt)[i], ray, min, AllRoots(spheres, ray, sqrt)[i])
  {
    forall i | 0 <= i < |spheres|
      ensures ReportsNearest(Surfaces(spheres, sqrt)[i], ray, min, AllRoots(spheres, ray, sqrt)[i])
    {
      SphereReportsNearest(spheres[i], ray, min, sqrt);
    }
  }

  lemma OnSphereInUnion<M>(spheres: seq<Sphere<M>>, ray: Ray, sqrt: real -> real, i: nat, u: real)
    requires SqrtLaw(sqrt)
    requires ray.direction != ZERO
    requires i < |spheres| && OnSphere(spheres[i], ray, u)
    ensures u in UnionRoots(AllRoots(spheres, ray, sqrt))
  {
    RootsAreOnSphere(spheres[i], ray, sqrt, u);
    UnionRootsMembership(AllRoots(spheres, ray, sqrt), u);
  }

  lemma UnionOnSomeSphere<M>(spheres: seq<Sphere<M>>, ray: Ray, sqrt: real -> real, t: real)
    requires SqrtLaw(sqrt)
    requires ray.direction != ZERO
    requires t in UnionRoots(AllRoots(spheres, ray, sqrt))
    ensures exists i :: 0 <= i < |spheres| && OnSphere(spheres[i], ray, t)
  {
    var roots := AllRoots(spheres, ray, sqrt);
    UnionRootsMembership(roots, t);
    var i :| 0 <= i < |roots| && t in roots[i];
    RootsAreOnSphere(spheres[i], ray, sqrt, t);
  }
}
