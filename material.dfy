/** Surface materials and how they scatter light (src/material.rs). The
    random unit vector, `near_zero` and `reflect` are not defined in the
    vector file and are parameters here. */
module Materials {
  import opened Vectors
  import opened Rays
  import opened Hittables

  datatype Material = Lambertian(albedo: Color) | Metal(albedo: Color) {

    /** `scatter`: a diffuse surface always scatters, along the normal plus
        the random unit vector `randomUnit` (or along the normal alone when that
        sum is near zero); a metal reflects the incoming unit direction and
        absorbs the ray when the reflection does not leave the surface. Both
        attenuate by the albedo and start the new ray at the hit point. A metal
        needs a non-zero incoming direction (the renderer would produce NaN). */
    function Scatter(rIn: Ray, rec: HitRecord, randomUnit: Vec3, nearZero: Vec3 -> bool,
                     reflect: (Vec3, Vec3) -> Vec3, sqrt: real -> real): (res: Option<(Color, Ray)>)
      requires Metal? ==> IsSqrt(sqrt) && 0.0 < rIn.dir.LengthSquared()
      ensures Lambertian? ==> res.Some?
      ensures res.Some? ==> res.value.0 == albedo && res.value.1.orig == rec.p
      ensures Lambertian? ==>
        (res.value.1.dir == rec.normal.Add(randomUnit) && !nearZero(rec.normal.Add(randomUnit)))
        || (res.value.1.dir == rec.normal && nearZero(rec.normal.Add(randomUnit)))
      ensures Metal? ==>
        (res.Some? <==> reflect(rIn.dir.UnitVector(sqrt), rec.normal).Dot(rec.normal) > 0.0)
      ensures Metal? && res.Some? ==> res.value.1.dir == reflect(rIn.dir.UnitVector(sqrt), rec.normal)
    {
      match this
      case Lambertian(albedo) =>
        var scatterDirection := rec.normal.Add(randomUnit);
        var scatterDirection := if nearZero(scatterDirection) then rec.normal else scatterDirection;
        var scattered := Ray(rec.p, scatterDirection);
        Some((albedo, scattered))
      case Metal(albedo) =>
        var reflected := reflect(rIn.dir.UnitVector(sqrt), rec.normal);
        var scattered := Ray(rec.p, reflected);
        var attenuation := albedo;
        if scattered.dir.Dot(rec.normal) > 0.0 then Some((attenuation, scattered)) else None
    }
  }

  /** The fallback to the normal keeps a diffuse bounce from leaving along a
      degenerate direction: when the normal itself is not near zero, neither
      is the scattered direction. */
  lemma LambertianDirectionNotNearZero(albedo: Color, rIn: Ray, rec: HitRecord, randomUnit: Vec3,
                                       nearZero: Vec3 -> bool, reflect: (Vec3, Vec3) -> Vec3, sqrt: real -> real)
    requires !nearZero(rec.normal)
    ensures !nearZero(Lambertian(albedo).Scatter(rIn, rec, randomUnit, nearZero, reflect, sqrt).value.1.dir)
  {
  }

  /** For the mirror reflection `v - 2 (v . n) n` about a unit normal, the
      reflection's component along the normal is the negated incoming one. */
  lemma MirrorDot(v: Vec3, n: Vec3, reflected: Vec3)
    requires n.LengthSquared() == 1.0
    requires reflected == v.Sub(n.Scale(2.0 * v.Dot(n)))
    ensures reflected.Dot(n) == -v.Dot(n)
  {
    var d := v.Dot(n);
    calc {
      reflected.Dot(n);
      d - (2.0 * d) * n.LengthSquared();
      -d;
    }
  }

  /** Scaling a vector by a positive factor keeps the sign of its dot product
      with any other vector. */
  lemma PositiveScaleDotSign(v: Vec3, len: real, n: Vec3)
    requires 0.0 < len
    ensures v.Scale(len).Dot(n) < 0.0 <==> v.Dot(n) < 0.0
  {
    var d := v.Dot(n);
    assert v.Scale(len).Dot(n) == len * d;
    if d < 0.0 {
      assert len * d < 0.0;
    } else {
      assert 0.0 <= len * d;
    }
  }

  /** With `reflect` the mirror reflection `v - 2 (v . n) n` and a unit
      normal, a metal scatters exactly when the incoming ray travels against
      the normal, that is, when it meets the surface from the normal's side. */
  lemma MetalScattersIffIncoming(albedo: Color, rIn: Ray, rec: HitRecord, randomUnit: Vec3,
                                 nearZero: Vec3 -> bool, reflect: (Vec3, Vec3) -> Vec3, sqrt: real -> real)
    requires IsSqrt(sqrt) && 0.0 < rIn.dir.LengthSquared()
    requires forall v, n :: reflect(v, n) == v.Sub(n.Scale(2.0 * v.Dot(n)))
    requires rec.normal.LengthSquared() == 1.0
    ensures Metal(albedo).Scatter(rIn, rec, randomUnit, nearZero, reflect, sqrt).Some?
            <==> rIn.dir.Dot(rec.normal) < 0.0
  {
    var v := rIn.dir.UnitVector(sqrt);
    MirrorDot(v, rec.normal, reflect(v, rec.normal));
    PositiveScaleDotSign(v, rIn.dir.Length(sqrt), rec.normal);
  }
}
