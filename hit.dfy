/** Ray–surface hits and the nearest-hit scan over a list of surfaces
    (src/hit.rs). */
module Hit {
  import opened Vectors
  import opened Rays

  /** `HitResult`: position, normal, distance along the ray, the material of
      the surface hit (a value of the type parameter `M`) and whether the ray
      struck the outside of the surface. */
  datatype HitResult<M> =
    | Hit(point: Point3, normal: Vector3, t: real, material: M, outward: bool)
    | None

  /** The `Surface` trait: given a ray and the open range `(min, max)` of
      distances to consider, a surface reports a hit or none. */
  type SurfaceFn<M> = (Ray, real, real) -> HitResult<M>

  /** The upper bound the scan passes on after seeing `rec`: the distance of
      the latest hit, or the caller's `max` while nothing has been hit. */
  function Bound<M>(rec: HitResult<M>, max: real): real
  {
    if rec.Hit? then rec.t else max
  }

  /** The value of `hit_record` once the loop of `HitList::hit` has visited
      every surface of `objects`, in order. */
  function Scan<M>(objects: seq<SurfaceFn<M>>, ray: Ray, min: real, max: real): HitResult<M>
    decreases |objects|
  {
    if |objects| == 0 then HitResult.None
    else
      var prev := Scan(objects[..|objects| - 1], ray, min, max);
      var r := objects[|objects| - 1](ray, min, Bound(prev, max));
      if r.Hit? then r else prev
  }

  /** A surface that only reports distances strictly inside the range it is given. */
  ghost predicate StaysInBounds<M>(s: SurfaceFn<M>)
  {
    forall ray: Ray, lo: real, hi: real :: s(ray, lo, hi).Hit? ==> lo < s(ray, lo, hi).t < hi
  }

  /** `rec` is the nearest of the distances `roots` that lie strictly inside
      `(min, max)`, or `None` when there is none. */
  ghost predicate NearestIn<M>(rec: HitResult<M>, roots: set<real>, min: real, max: real)
  {
    && (rec.Hit? ==> rec.t in roots && min < rec.t < max && forall u :: u in roots && min < u < max ==> rec.t <= u)
    && (rec.None? ==> forall u :: u in roots ==> !(min < u < max))
  }

  /** The contract of a surface that always reports its nearest in-range
      distance: `roots` are the distances at which the ray meets it. */
  ghost predicate ReportsNearest<M>(s: SurfaceFn<M>, ray: Ray, min: real, roots: set<real>)
  {
    forall hi: real :: NearestIn(s(ray, min, hi), roots, min, hi)
  }

  /** All the distances of a list of surfaces together. */
  ghost function UnionRoots(roots: seq<set<real>>): set<real>
    decreases |roots|
  {
    if |roots| == 0 then {} else UnionRoots(roots[..|roots| - 1]) + roots[|roots| - 1]
  }

  /** An empty list is never hit. */
  lemma ScanEmpty<M>(ray: Ray, min: real, max: real)
    ensures Scan([], ray, min, max) == HitResult<M>.None
  {
  }

  /** When every surface stays inside the range it is given, the bound passed
      along never grows, and a hit of the list lies strictly inside `(min, max)`. */
  lemma {:induction false} ScanWithinBounds<M>(objects: seq<SurfaceFn<M>>, ray: Ray, min: real, max: real)
    requires forall i :: 0 <= i < |objects| ==> StaysInBounds(objects[i])
    ensures Bound(Scan(objects, ray, min, max), max) <= max
    ensures Scan(objects, ray, min, max).Hit? ==> min < Scan(objects, ray, min, max).t < max
  {
    if |objects| > 0 {
      var prefix := objects[..|objects| - 1];
      ScanWithinBounds(prefix, ray, min, max);
      var b := Bound(Scan(prefix, ray, min, max), max);
      var r := objects[|objects| - 1](ray, min, b);
      assert StaysInBounds(objects[|objects| - 1]);
      assert r.Hit? ==> min < r.t < b;
    }
  }

  /** Each step of the scan leaves the bound where it was or lowers it. */
  lemma ScanBoundStep<M>(objects: seq<SurfaceFn<M>>, ray: Ray, min: real, max: real, k: nat)
    requires k < |objects|
    requires StaysInBounds(objects[k])
    ensures Bound(Scan(objects[..k + 1], ray, min, max), max) <= Bound(Scan(objects[..k], ray, min, max), max)
  {
    assert objects[..k + 1][..k] == objects[..k];
  }

  /** The list is missed exactly when every surface misses under the
      caller's own range: the bound only moves after a hit. */
  lemma {:induction false} ScanMissesIffAllMiss<M>(objects: seq<SurfaceFn<M>>, ray: Ray, min: real, max: real)
    ensures Scan(objects, ray, min, max).None? <==> forall j :: 0 <= j < |objects| ==> objects[j](ray, min, max).None?
  {
    if |objects| > 0 {
      var prefix := objects[..|objects| - 1];
      ScanMissesIffAllMiss(prefix, ray, min, max);
      assert forall j :: 0 <= j < |prefix| ==> prefix[j] == objects[j];
    }
  }

  /** A hit of the list is the last hit the scan saw: it is what surface `k`
      reported under the bound left by the surfaces before it, with `min`
      unchanged, and every later surface missed under the shrunk bound `t`. */
  lemma {:induction false} ScanIsLastHit<M>(objects: seq<SurfaceFn<M>>, ray: Ray, min: real, max: real) returns (k: nat)
    requires Scan(objects, ray, min, max).Hit?
    ensures k < |objects|
    ensures Scan(objects, ray, min, max) == objects[k](ray, min, Bound(Scan(objects[..k], ray, min, max), max))
    ensures forall j :: k < j < |objects| ==> objects[j](ray, min, Scan(objects, ray, min, max).t).None?
  {
    var n := |objects|;
    var prefix := objects[..n - 1];
    var prev := Scan(prefix, ray, min, max);
    var r := objects[n - 1](ray, min, Bound(prev, max));
    if r.Hit? {
      k := n - 1;
    } else {
      k := ScanIsLastHit(prefix, ray, min, max);
      assert prefix[..k] == objects[..k];
      forall j | k < j < n - 1
        ensures objects[j](ray, min, prev.t).None?
      {
        assert prefix[j] == objects[j];
      }
    }
  }

  /** Under the nearest-distance contract for every surface, the scan's
      result is the nearest distance of all the surfaces inside `(min, max)`. */
  lemma {:induction false} ScanNearest<M>(objects: seq<SurfaceFn<M>>, roots: seq<set<real>>, ray: Ray, min: real, max: real)
    requires |roots| == |objects|
    requires forall i :: 0 <= i < |objects| ==> ReportsNearest(objects[i], ray, min, roots[i])
    ensures NearestIn(Scan(objects, ray, min, max), UnionRoots(roots), min, max)
  {
    var n := |objects|;
    if n > 0 {
      var prefix, rootsBefore := objects[..n - 1], roots[..n - 1];
      assert forall i :: 0 <= i < n - 1 ==> prefix[i] == objects[i] && rootsBefore[i] == roots[i];
      ScanNearest(prefix, rootsBefore, ray, min, max);
      var prev := Scan(prefix, ray, min, max);
      var b := Bound(prev, max);
      var r := objects[n - 1](ray, min, b);
      assert ReportsNearest(objects[n - 1], ray, min, roots[n - 1]);
      assert NearestIn(r, roots[n - 1], min, b);
      assert UnionRoots(roots) == UnionRoots(rootsBefore) + roots[n - 1];
    }
  }

  /** Membership in the union: a distance belongs to some surface's set. */
  lemma {:induction false} UnionRootsMembership(roots: seq<set<real>>, u: real)
    ensures u in UnionRoots(roots) <==> exists i :: 0 <= i < |roots| && u in roots[i]
  {
    if |roots| > 0 {
      var before := roots[..|roots| - 1];
      UnionRootsMembership(before, u);
      if u in UnionRoots(before) {
        var i :| 0 <= i < |before| && u in before[i];
        assert u in roots[i];
      }
      if exists i :: 0 <= i < |roots| && u in roots[i] {
        var i :| 0 <= i < |roots| && u in roots[i];
        if i < |roots| - 1 {
          assert u in before[i];
        }
      }
    }
  }

  /** The union does not depend on the order of the surfaces. */
  lemma UnionRootsOfPermutation(roots1: seq<set<real>>, roots2: seq<set<real>>)
    requires multiset(roots1) == multiset(roots2)
    ensures UnionRoots(roots1) == UnionRoots(roots2)
  {
    forall u | u in UnionRoots(roots1)
      ensures u in UnionRoots(roots2)
    {
      UnionRootsMembership(roots1, u);
      UnionRootsMembership(roots2, u);
      var i :| 0 <= i < |roots1| && u in roots1[i];
      assert roots1[i] in multiset(roots2);
    }
    forall u | u in UnionRoots(roots2)
      ensures u in UnionRoots(roots1)
    {
      UnionRootsMembership(roots1, u);
      UnionRootsMembership(roots2, u);
      var i :| 0 <= i < |roots2| && u in roots2[i];
      assert roots2[i] in multiset(roots1);
    }
  }

  /** Two nearest distances of the same set within the same range agree. */
  lemma NearestUnique<M>(rec1: HitResult<M>, rec2: HitResult<M>, roots: set<real>, min: real, max: real)
    requires NearestIn(rec1, roots, min, max) && NearestIn(rec2, roots, min, max)
    ensures rec1.Hit? == rec2.Hit?
    ensures rec1.Hit? ==> rec1.t == rec2.t
  {
  }

  /** Under the nearest-distance contract, listing the same surfaces in
      another order changes neither whether the list is hit nor the
      distance of the hit. */
  lemma ScanDistanceOrderIndependent<M>(objects1: seq<SurfaceFn<M>>, roots1: seq<set<real>>,
                                        objects2: seq<SurfaceFn<M>>, roots2: seq<set<real>>,
                                        ray: Ray, min: real, max: real)
    requires |roots1| == |objects1| && |roots2| == |objects2|
    requires forall i :: 0 <= i < |objects1| ==> ReportsNearest(objects1[i], ray, min, roots1[i])
    requires forall i :: 0 <= i < |objects2| ==> ReportsNearest(objects2[i], ray, min, roots2[i])
    requires multiset(roots1) == multiset(roots2)
    ensures Scan(objects1, ray, min, max).Hit? == Scan(objects2, ray, min, max).Hit?
    ensures Scan(objects1, ray, min, max).Hit? ==> Scan(objects1, ray, min, max).t == Scan(objects2, ray, min, max).t
  {
    ScanNearest(objects1, roots1, ray, min, max);
    ScanNearest(objects2, roots2, ray, min, max);
    UnionRootsOfPermutation(roots1, roots2);
    NearestUnique(Scan(objects1, ray, min, max), Scan(objects2, ray, min, max), UnionRoots(roots1), min, max);
  }

  /** Why order independence stops at the distance: a later surface
      replaces an earlier hit only with a strictly nearer one, so when two
      surfaces report the same distance the earlier one's record (normal,
      material, outward flag) is kept. */
  lemma {:induction false} LaterHitOnlyIfNearer<M>(first: SurfaceFn<M>, second: SurfaceFn<M>, ray: Ray, min: real, max: real)
    requires StaysInBounds(second)
    requires first(ray, min, max).Hit?
    ensures var rec := Scan([first, second], ray, min, max);
      rec.Hit? && (rec == first(ray, min, max) || rec.t < first(ray, min, max).t)
  {
    var objects := [first, second];
    assert objects[..1] == [first];
    assert [first][..0] == [];
    assert Scan([first][..0], ray, min, max).None?;
    assert Scan(objects[..1], ray, min, max) == first(ray, min, max);
  }

  /** `HitList`: a list of surfaces that is itself a surface. */
  class HitList<M> {
    var objects: seq<SurfaceFn<M>>

    constructor ()
      ensures objects == []
    {
      objects := [];
    }

    /** `HitList::add`: appends one surface at the end. */
    method Add(surface: SurfaceFn<M>)
      modifies this
      ensures objects == old(objects) + [surface]
    {
      objects := objects + [surface];
    }

    /** `HitList::hit`: asks every surface in turn, shrinking the upper bound
        to each hit found, and returns the last hit. */
    method Hit(ray: Ray, min: real, max: real) returns (rec: HitResult<M>)
      ensures rec == Scan(objects, ray, min, max)
    {
      rec := HitResult.None;
      var bound := max;
      var i := 0;
      while i < |objects|
        invariant 0 <= i <= |objects|
        invariant rec == Scan(objects[..i], ray, min, max)
        invariant bound == Bound(rec, max)
      {
        var r := objects[i](ray, min, bound);
        if r.Hit? {
          bound := r.t;
          rec := r;
        }
        assert objects[..i + 1][..i] == objects[..i];
        i := i + 1;
      }
      assert objects[..i] == objects;
    }
  }
}
