/** Hit records and the contract of a hittable object (src/hittable.rs). */
module Hittables {
  import opened Vectors
  import opened Rays

  datatype Option<T> = None | Some(value: T)

  /** An upper bound on the ray parameter: a finite value or `f64::INFINITY`.
      The renderer rejects a root when `t_max < root`. */
  datatype Bound = Finite(value: real) | Infinite {

    /** `t` passes the test `!(t_max < t)`; an infinite bound admits every `t`. */
    predicate Admits(t: real)
    {
      Infinite? || t <= value
    }

    /** This bound is at least as tight as `other`: it admits nothing that
        `other` rejects. */
    predicate AtMost(other: Bound)
    {
      other.Infinite? || (Finite? && value <= other.value)
    }
  }

  /** `t` passes the closed range test `!(t < t_min || t_max < t)`. */
  predicate InRange(t: real, tMin: real, tMax: Bound)
  {
    tMin <= t && tMax.Admits(t)
  }

  /** A ray-surface intersection. */
  datatype HitRecord = HitRecord(p: Point3, normal: Vec3, t: real, frontFace: bool) {

    /** `set_face_normal`: records whether the ray meets the outward face and
        orients the stored normal against the ray. Point and parameter are
        kept. */
    function SetFaceNormal(r: Ray, outwardNormal: Vec3): (rec: HitRecord)
      ensures rec.p == p && rec.t == t
      ensures rec.frontFace <==> r.dir.Dot(outwardNormal) < 0.0
      ensures rec.frontFace ==> rec.normal == outwardNormal
      ensures !rec.frontFace ==> rec.normal == outwardNormal.Scale(-1.0)
      ensures r.dir.Dot(rec.normal) <= 0.0
    {
      var frontFace := r.dir.Dot(outwardNormal) < 0.0;
      this.(frontFace := frontFace,
            normal := if frontFace then outwardNormal else outwardNormal.Scale(-1.0))
    }
  }

  /** `Hittable::hit`: given an object, a ray and the interval `[t_min, t_max]`,
      an optional record of where the ray meets the object. */
  type HitFunction<!T> = (T, Ray, real, Bound) -> Option<HitRecord>

  /** Every record `hit` returns has its parameter inside the requested
      interval. */
  ghost predicate RespectsBounds<T(!new)>(hit: HitFunction<T>)
  {
    forall o, r, tMin, tMax :: hit(o, r, tMin, tMax).Some? ==>
      InRange(hit(o, r, tMin, tMax).value.t, tMin, tMax)
  }

  /** Widening or narrowing the upper bound never loses a hit that the new
      bound still admits, and never makes it farther. */
  ghost predicate MonotoneInBound<T(!new)>(hit: HitFunction<T>)
  {
    forall o, r, tMin, tMax, tMax': Bound ::
      hit(o, r, tMin, tMax).Some? && tMax'.Admits(hit(o, r, tMin, tMax).value.t) ==>
        hit(o, r, tMin, tMax').Some? &&
        hit(o, r, tMin, tMax').value.t <= hit(o, r, tMin, tMax).value.t
  }
}
