/** Ray-sphere intersection (src/sphere.rs). */
module Spheres {
  import opened Vectors
  import opened Rays
  import opened Hittables

  // Scalar identities behind the intersection test, over plain variables.

  lemma DivOrder(p: real, q: real, a: real)
    requires 0.0 < a && p <= q
    ensures p / a <= q / a
  {
  }

  /** `|o + d t|^2 = |o|^2 + 2 t (o . d) + t^2 |d|^2`. */
  lemma ExpandLengthSquared(o: Vec3, d: Vec3, t: real)
    ensures Vec3(o.x + d.x * t, o.y + d.y * t, o.z + d.z * t).LengthSquared()
         == o.LengthSquared() + 2.0 * t * o.Dot(d) + (t * t) * d.LengthSquared()
  {
    calc {
      Vec3(o.x + d.x * t, o.y + d.y * t, o.z + d.z * t).LengthSquared();
      (o.x + d.x * t) * (o.x + d.x * t) + (o.y + d.y * t) * (o.y + d.y * t)
        + (o.z + d.z * t) * (o.z + d.z * t);
      (o.x * o.x + o.y * o.y + o.z * o.z) + 2.0 * t * (o.x * d.x + o.y * d.y + o.z * d.z)
        + (t * t) * (d.x * d.x + d.y * d.y + d.z * d.z);
      o.LengthSquared() + 2.0 * t * o.Dot(d) + (t * t) * d.LengthSquared();
    }
  }

  /** `(-halfB +- sd) / a` solves `a t^2 + 2 halfB t + c = 0` when
      `sd^2 = halfB^2 - a c`. */
  lemma QuadraticFormula(a: real, halfB: real, c: real, sd: real, t: real, sign: real)
    requires a != 0.0 && sd * sd == halfB * halfB - a * c
    requires sign == 1.0 || sign == -1.0
    requires t == (-halfB + sign * sd) / a
    ensures (t * t) * a + 2.0 * t * halfB + c == 0.0
  {
    var at := -halfB + sign * sd;
    assert t * a == at;
    calc {
      a * ((t * t) * a + 2.0 * t * halfB + c);
      (t * a) * (t * a) + 2.0 * (t * a) * halfB + a * c;
      at * at + 2.0 * at * halfB + a * c;
      (sign * sign) * (sd * sd) - halfB * halfB + a * c;
      0.0;
    }
  }

  /** At a root `t`, `(a t + halfB)^2` is the discriminant. */
  lemma RootSquare(a: real, halfB: real, c: real, t: real)
    requires (t * t) * a + 2.0 * t * halfB + c == 0.0
    ensures (a * t + halfB) * (a * t + halfB) == halfB * halfB - a * c
  {
    calc {
      (a * t + halfB) * (a * t + halfB);
      a * ((t * t) * a + 2.0 * t * halfB) + halfB * halfB;
      a * ((t * t) * a + 2.0 * t * halfB + c) + halfB * halfB - a * c;
      halfB * halfB - a * c;
    }
  }

  /** Two numbers with the same square, one of them non-negative, are equal
      up to sign. */
  lemma SquareRootsEqual(x: real, sd: real)
    requires x * x == sd * sd && 0.0 <= sd
    ensures x == sd || x == -sd
  {
    assert (x - sd) * (x + sd) == 0.0;
    if x - sd != 0.0 {
      assert x + sd == ((x - sd) * (x + sd)) / (x - sd);
    }
  }

  lemma SolveLinear(a: real, halfB: real, x: real, t: real)
    requires a != 0.0 && a * t + halfB == x
    ensures t == (-halfB + x) / a
  {
  }

  /** The quadratic `a t^2 + 2 halfB t + c = 0` in the half-coefficient form
      the intersection test uses. */
  datatype Quadratic = Quadratic(a: real, halfB: real, c: real) {

    function Discriminant(): real
    {
      halfB * halfB - a * c
    }

    predicate IsRoot(t: real)
    {
      (t * t) * a + 2.0 * t * halfB + c == 0.0
    }
  }

  datatype Sphere = Sphere(center: Point3, radius: real) {

    /** The coefficients for ray `r`: `a = |dir|^2`, `halfB = oc . dir` and
        `c = |oc|^2 - radius^2` with `oc = orig - center`. */
    function Coefficients(r: Ray): Quadratic
    {
      var oc := r.orig.Sub(center);
      Quadratic(r.dir.LengthSquared(), oc.Dot(r.dir), oc.LengthSquared() - radius * radius)
    }

    /** The outward unit normal at a point on the surface. */
    function OutwardNormal(p: Point3): (n: Vec3)
      requires radius != 0.0
      ensures n.Scale(radius) == p.Sub(center)
    {
      p.Sub(center).DivScalar(radius)
    }

    /** `(-halfB - sqrtd) / a`, the nearer intersection. */
    function NearRoot(r: Ray, sqrt: real -> real): (t: real)
      requires IsSqrt(sqrt) && 0.0 < r.dir.LengthSquared()
      requires 0.0 <= Coefficients(r).Discriminant()
      ensures Coefficients(r).a * t == -Coefficients(r).halfB - sqrt(Coefficients(r).Discriminant())
    {
      var q := Coefficients(r);
      (-q.halfB - sqrt(q.Discriminant())) / q.a
    }

    /** `(-halfB + sqrtd) / a`, the farther intersection. */
    function FarRoot(r: Ray, sqrt: real -> real): (t: real)
      requires IsSqrt(sqrt) && 0.0 < r.dir.LengthSquared()
      requires 0.0 <= Coefficients(r).Discriminant()
      ensures Coefficients(r).a * t == -Coefficients(r).halfB + sqrt(Coefficients(r).Discriminant())
    {
      var q := Coefficients(r);
      (-q.halfB + sqrt(q.Discriminant())) / q.a
    }

    /** The record filled in for a hit at parameter `t`: the point on the ray,
        then the normal oriented by `set_face_normal`. */
    function RecordAt(r: Ray, t: real): (rec: HitRecord)
      requires radius != 0.0
      ensures rec.t == t && rec.p == r.At(t)
      ensures rec.frontFace <==> r.dir.Dot(OutwardNormal(rec.p)) < 0.0
      ensures rec.frontFace ==> rec.normal == OutwardNormal(rec.p)
      ensures !rec.frontFace ==> rec.normal == OutwardNormal(rec.p).Scale(-1.0)
      ensures r.dir.Dot(rec.normal) <= 0.0
    {
      var p := r.At(t);
      HitRecord(p, Zero, t, false).SetFaceNormal(r, OutwardNormal(p))
    }

    /** What `Sphere::hit` reports: nothing when the discriminant is negative;
        otherwise the nearer root when it is in range, else the farther root
        when it is in range, else nothing. The ray direction must be non-zero
        and the radius non-zero (the renderer divides by both). */
    function HitSpec(r: Ray, tMin: real, tMax: Bound, sqrt: real -> real): (res: Option<HitRecord>)
      requires IsSqrt(sqrt) && 0.0 < r.dir.LengthSquared() && radius != 0.0
      ensures Coefficients(r).Discriminant() < 0.0 ==> res == None
      ensures res.Some? ==> InRange(res.value.t, tMin, tMax)
      ensures res.Some? ==> res.value.p == r.At(res.value.t)
      ensures res.Some? ==> r.dir.Dot(res.value.normal) <= 0.0
      ensures 0.0 <= Coefficients(r).Discriminant() && InRange(NearRoot(r, sqrt), tMin, tMax)
              ==> res.Some? && res.value.t == NearRoot(r, sqrt)
      ensures res.Some? && res.value.t != NearRoot(r, sqrt)
              ==> !InRange(NearRoot(r, sqrt), tMin, tMax) && res.value.t == FarRoot(r, sqrt)
      ensures 0.0 <= Coefficients(r).Discriminant()
              && !InRange(NearRoot(r, sqrt), tMin, tMax) && InRange(FarRoot(r, sqrt), tMin, tMax)
              ==> res.Some? && res.value.t == FarRoot(r, sqrt)
      ensures res.Some? ==> res.value == RecordAt(r, res.value.t)
      ensures 0.0 <= Coefficients(r).Discriminant()
              && !InRange(NearRoot(r, sqrt), tMin, tMax) && !InRange(FarRoot(r, sqrt), tMin, tMax)
              ==> res == None
    {
      if Coefficients(r).Discriminant() < 0.0 then None
      else if InRange(NearRoot(r, sqrt), tMin, tMax) then Some(RecordAt(r, NearRoot(r, sqrt)))
      else if InRange(FarRoot(r, sqrt), tMin, tMax) then Some(RecordAt(r, FarRoot(r, sqrt)))
      else None
    }

    /** `Sphere::hit`: solves the quadratic, tries the nearer root and then the
        farther one against `[t_min, t_max]`, and fills in the record. */
    method Hit(r: Ray, tMin: real, tMax: Bound, sqrt: real -> real) returns (res: Option<HitRecord>)
      requires IsSqrt(sqrt) && 0.0 < r.dir.LengthSquared() && radius != 0.0
      ensures res == HitSpec(r, tMin, tMax, sqrt)
    {
      var oc := r.orig.Sub(center);
      var a := r.dir.LengthSquared();
      var halfB := oc.Dot(r.dir);
      var c := oc.LengthSquared() - radius * radius;
      var discriminant := halfB * halfB - a * c;
      if discriminant < 0.0 {
        return None;
      }
      assert Coefficients(r) == Quadratic(a, halfB, c);
      assert discriminant == Coefficients(r).Discriminant();
      var sqrtd := sqrt(discriminant);
      var root := (-halfB - sqrtd) / a;
      assert root == NearRoot(r, sqrt);
      if root < tMin || !tMax.Admits(root) {
        root := (-halfB + sqrtd) / a;
        assert root == FarRoot(r, sqrt);
        if root < tMin || !tMax.Admits(root) {
          return None;
        }
      }
      var rec := HitRecord(Zero, Zero, 0.0, false);
      rec := rec.(t := root);
      rec := rec.(p := r.At(rec.t));
      var outwardNormal := rec.p.Sub(center).DivScalar(radius);
      rec := rec.SetFaceNormal(r, outwardNormal);
      return Some(rec);
    }
  }

  lemma AtOffset(s: Sphere, r: Ray, t: real)
    ensures var oc := r.orig.Sub(s.center);
      r.At(t).Sub(s.center) == Vec3(oc.x + r.dir.x * t, oc.y + r.dir.y * t, oc.z + r.dir.z * t)
  {
  }

  /** The offset from the centre to `r.At(t)` is `oc + dir t`, so its squared
      length is `|oc|^2 + 2 t (oc . dir) + t^2 |dir|^2`. */
  lemma OffsetLengthSquared(s: Sphere, r: Ray, t: real)
    ensures var oc := r.orig.Sub(s.center);
      r.At(t).Sub(s.center).LengthSquared()
      == oc.LengthSquared() + 2.0 * t * oc.Dot(r.dir) + (t * t) * r.dir.LengthSquared()
  {
    AtOffset(s, r, t);
    ExpandLengthSquared(r.orig.Sub(s.center), r.dir, t);
  }

  /** Given the expansion of the squared distance, the quadratic has `t` as a
      root exactly when that distance is the radius. */
  lemma RootValue(s: Sphere, r: Ray, t: real, len2: real)
    requires len2 == r.orig.Sub(s.center).LengthSquared() + 2.0 * t * r.orig.Sub(s.center).Dot(r.dir)
                     + (t * t) * r.dir.LengthSquared()
    ensures s.Coefficients(r).IsRoot(t) <==> len2 == s.radius * s.radius
  {
  }

  /** A parameter solves the quadratic exactly when the ray is on the sphere
      there. */
  lemma RootIffOnSphere(s: Sphere, r: Ray, t: real)
    ensures s.Coefficients(r).IsRoot(t)
        <==> r.At(t).Sub(s.center).LengthSquared() == s.radius * s.radius
  {
    OffsetLengthSquared(s, r, t);
    RootValue(s, r, t, r.At(t).Sub(s.center).LengthSquared());
  }

  /** Both roots solve the quadratic, and the nearer is not beyond the
      farther. */
  lemma RootsSolveQuadratic(s: Sphere, r: Ray, sqrt: real -> real)
    requires IsSqrt(sqrt) && 0.0 < r.dir.LengthSquared()
    requires 0.0 <= s.Coefficients(r).Discriminant()
    ensures s.Coefficients(r).IsRoot(s.NearRoot(r, sqrt))
    ensures s.Coefficients(r).IsRoot(s.FarRoot(r, sqrt))
    ensures s.NearRoot(r, sqrt) <= s.FarRoot(r, sqrt)
  {
    var q := s.Coefficients(r);
    var sd := sqrt(q.Discriminant());
    QuadraticFormula(q.a, q.halfB, q.c, sd, s.NearRoot(r, sqrt), -1.0);
    QuadraticFormula(q.a, q.halfB, q.c, sd, s.FarRoot(r, sqrt), 1.0);
    DivOrder(-q.halfB - sd, -q.halfB + sd, q.a);
  }

  /** Every root of the quadratic is the nearer or the farther root: the
      discriminant is then non-negative, and the two roots are all there is. */
  lemma RootIsNearOrFar(s: Sphere, r: Ray, sqrt: real -> real, t: real)
    requires IsSqrt(sqrt) && 0.0 < r.dir.LengthSquared()
    requires s.Coefficients(r).IsRoot(t)
    ensures 0.0 <= s.Coefficients(r).Discriminant()
    ensures t == s.NearRoot(r, sqrt) || t == s.FarRoot(r, sqrt)
  {
    var q := s.Coefficients(r);
    var x := q.a * t + q.halfB;
    RootSquare(q.a, q.halfB, q.c, t);
    assert 0.0 <= x * x;
    var sd := sqrt(q.Discriminant());
    SquareRootsEqual(x, sd);
    SolveLinear(q.a, q.halfB, x, t);
  }

  /** Conversely to `HitOnSphere`: whenever the ray meets the sphere at some
      `t` in `[t_min, t_max]`, the test reports a hit, and at a parameter no
      larger than `t`. */
  lemma HitWhenOnSphere(s: Sphere, r: Ray, tMin: real, tMax: Bound, sqrt: real -> real, t: real)
    requires IsSqrt(sqrt) && 0.0 < r.dir.LengthSquared() && s.radius != 0.0
    requires InRange(t, tMin, tMax)
    requires r.At(t).Sub(s.center).LengthSquared() == s.radius * s.radius
    ensures s.HitSpec(r, tMin, tMax, sqrt).Some?
    ensures s.HitSpec(r, tMin, tMax, sqrt).value.t <= t
  {
    RootIffOnSphere(s, r, t);
    RootIsNearOrFar(s, r, sqrt, t);
    RootsSolveQuadratic(s, r, sqrt);
  }

  /** At a point on the surface the outward normal has unit length. */
  lemma UnitOutwardNormal(s: Sphere, p: Point3)
    requires s.radius != 0.0
    requires p.Sub(s.center).LengthSquared() == s.radius * s.radius
    ensures s.OutwardNormal(p).LengthSquared() == 1.0
  {
    var d := p.Sub(s.center);
    var n := s.OutwardNormal(p);
    UnitFromQuotients(d.x, d.y, d.z, s.radius, n.x, n.y, n.z);
  }

  lemma NegatedLengthSquared(v: Vec3)
    ensures v.Scale(-1.0).LengthSquared() == v.LengthSquared()
  {
  }

  /** A reported hit lies on the sphere, and its normal has unit length. */
  lemma HitOnSphere(s: Sphere, r: Ray, tMin: real, tMax: Bound, sqrt: real -> real)
    requires IsSqrt(sqrt) && 0.0 < r.dir.LengthSquared() && s.radius != 0.0
    requires s.HitSpec(r, tMin, tMax, sqrt).Some?
    ensures var rec := s.HitSpec(r, tMin, tMax, sqrt).value;
      rec.p.Sub(s.center).LengthSquared() == s.radius * s.radius
      && rec.normal.LengthSquared() == 1.0
  {
    var rec := s.HitSpec(r, tMin, tMax, sqrt).value;
    RootsSolveQuadratic(s, r, sqrt);
    RootIffOnSphere(s, r, rec.t);
    UnitOutwardNormal(s, rec.p);
    NegatedLengthSquared(s.OutwardNormal(rec.p));
  }

  /** The sphere keeps the contract the nearest-hit scan relies on: a
      reported hit lies in the requested interval, and a hit is never lost or
      moved farther by a bound that still admits it. */
  lemma SphereMonotoneInBound(s: Sphere, r: Ray, tMin: real, tMax: Bound, tMax': Bound, sqrt: real -> real)
    requires IsSqrt(sqrt) && 0.0 < r.dir.LengthSquared() && s.radius != 0.0
    requires s.HitSpec(r, tMin, tMax, sqrt).Some?
    requires tMax'.Admits(s.HitSpec(r, tMin, tMax, sqrt).value.t)
    ensures s.HitSpec(r, tMin, tMax', sqrt).Some?
    ensures s.HitSpec(r, tMin, tMax', sqrt).value.t == s.HitSpec(r, tMin, tMax, sqrt).value.t
  {
    RootsSolveQuadratic(s, r, sqrt);
  }
}
