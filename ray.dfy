/** Rays (src/ray.rs): an origin and a direction. `Ray::new`, used by the
    camera, is the datatype constructor. */
module Rays {
  import opened Vectors

  datatype Ray = Ray(orig: Point3, dir: Vec3) {

    /** The point reached after travelling `t` units of `dir` from `orig`. */
    function At(t: real): Point3
    {
      orig.Add(dir.Scale(t))
    }
  }

  /** The offset of `r.At(t)` from the origin is the direction scaled by `t`. */
  lemma AtOffsetFromOrigin(r: Ray, t: real)
    ensures r.At(t).Sub(r.orig) == r.dir.Scale(t)
  {
  }

  lemma AtZero(r: Ray)
    ensures r.At(0.0) == r.orig
  {
  }

  /** Moving along a ray from parameter `s` to parameter `t` displaces the
      point by `dir * (t - s)`. */
  lemma AtDifference(r: Ray, t: real, s: real)
    ensures r.At(t).Sub(r.At(s)) == r.dir.Scale(t - s)
  {
  }

  /** A ray with a zero direction stays at its origin. */
  lemma AtZeroDirection(r: Ray, t: real)
    requires r.dir == Zero
    ensures r.At(t) == r.orig
  {
  }
}
