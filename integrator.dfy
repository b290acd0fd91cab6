/** The recursive path tracer `ray_color` (src/main.rs). The scene query
    (`hittable_list_hit` over the world) and the material's `scatter` are
    parameters. */
module Integrator {
  import opened Vectors
  import opened Rays
  import opened Hittables

  /** The world query `hittable_list_hit(&world, r, t_min, t_max)`. */
  type World = (Ray, real, Bound) -> Option<HitRecord>

  /** `rec.material.scatter(r, rec)`: attenuation and scattered ray, if any. */
  type Scatterer = (Ray, HitRecord) -> Option<(Color, Ray)>

  /** The scene is queried from just in front of the surface, without an
      upper bound. */
  const TMin: real := 0.001

  /** Every ray a scatterer produces has a non-zero direction. */
  ghost predicate ScattersNonDegenerate(scatter: Scatterer)
  {
    forall r, rec :: scatter(r, rec).Some? ==> 0.0 < scatter(r, rec).value.1.dir.LengthSquared()
  }

  /** Every attenuation a scatterer produces has components in [0, 1]. */
  ghost predicate AttenuatesWithinUnit(scatter: Scatterer)
  {
    forall r, rec :: scatter(r, rec).Some? ==> InUnitCube(scatter(r, rec).value.0)
  }

  predicate InUnitCube(c: Color)
  {
    0.0 <= c.x <= 1.0 && 0.0 <= c.y <= 1.0 && 0.0 <= c.z <= 1.0
  }

  lemma NonNegativeProduct(a: real, b: real)
    requires 0.0 <= a && 0.0 <= b
    ensures 0.0 <= a * b
  {
  }

  lemma SquareNonNegative(a: real)
    ensures 0.0 <= a * a
  {
  }

  lemma UnitIntervalProduct(a: real, b: real)
    requires 0.0 <= a <= 1.0 && 0.0 <= b <= 1.0
    ensures 0.0 <= a * b <= 1.0
  {
    NonNegativeProduct(a, b);
    NonNegativeProduct(a, 1.0 - b);
    assert a * (1.0 - b) == a - a * b;
  }

  /** Filtering a colour in the unit cube by another keeps it there. */
  lemma FilterInUnitCube(a: Color, b: Color)
    requires InUnitCube(a) && InUnitCube(b)
    ensures InUnitCube(a.Mul(b))
  {
    UnitIntervalProduct(a.x, b.x);
    UnitIntervalProduct(a.y, b.y);
    UnitIntervalProduct(a.z, b.z);
  }

  /** A unit vector's components lie in [-1, 1]. */
  lemma UnitComponent(u: Vec3)
    requires u.LengthSquared() == 1.0
    ensures -1.0 <= u.y <= 1.0
  {
    var x, y, z := u.x, u.y, u.z;
    SquareNonNegative(x);
    SquareNonNegative(z);
    SquareAtMostOne(y);
  }

  /** The background for a ray that escapes: a vertical blend from white at
      the bottom to light blue at the top, driven by the height of the unit
      direction. Every component lies in [0.5, 1] (red), [0.7, 1] (green) and
      blue is exactly 1. */
  function Sky(dir: Vec3, sqrt: real -> real): (c: Color)
    requires IsSqrt(sqrt) && 0.0 < dir.LengthSquared()
    ensures 0.5 <= c.x <= 1.0 && 0.7 <= c.y <= 1.0 && c.z == 1.0
  {
    var unitDirection := dir.UnitVector(sqrt);
    UnitComponent(unitDirection);
    var t := 0.5 * (unitDirection.y + 1.0);
    One.Scale(1.0 - t).Add(Vec3(0.5, 0.7, 1.0).Scale(t))
  }

  /** `ray_color`: black once the depth budget is spent; otherwise, on a hit,
      the attenuation times the colour of the scattered ray with one less
      bounce (black when the surface absorbs the ray); on a miss, the sky. */
  function RayColor(r: Ray, world: World, scatter: Scatterer, depth: int, sqrt: real -> real): (c: Color)
    requires IsSqrt(sqrt) && 0.0 < r.dir.LengthSquared() && ScattersNonDegenerate(scatter)
    ensures depth <= 0 ==> c == Zero
    ensures 0 < depth && world(r, TMin, Infinite).None? ==> c == Sky(r.dir, sqrt)
    ensures 0 < depth && world(r, TMin, Infinite).Some? && scatter(r, world(r, TMin, Infinite).value).None?
            ==> c == Zero
    ensures 0 < depth && world(r, TMin, Infinite).Some? && scatter(r, world(r, TMin, Infinite).value).Some?
            ==> var (attenuation, scattered) := scatter(r, world(r, TMin, Infinite).value).value;
                c == attenuation.Mul(RayColor(scattered, world, scatter, depth - 1, sqrt))
    decreases depth
  {
    if depth <= 0 then Zero
    else
      match world(r, TMin, Infinite)
      case Some(rec) =>
        (match scatter(r, rec)
         case Some((attenuation, scattered)) =>
           attenuation.Mul(RayColor(scattered, world, scatter, depth - 1, sqrt))
         case None => Vec3(0.0, 0.0, 0.0))
      case None => Sky(r.dir, sqrt)
  }

  /** When every attenuation lies in [0, 1], so does every colour `ray_color`
      returns: light is only ever absorbed along a path. */
  lemma {:induction false} RayColorInUnitCube(r: Ray, world: World, scatter: Scatterer, depth: int,
                                              sqrt: real -> real)
    requires IsSqrt(sqrt) && 0.0 < r.dir.LengthSquared() && ScattersNonDegenerate(scatter)
    requires AttenuatesWithinUnit(scatter)
    ensures InUnitCube(RayColor(r, world, scatter, depth, sqrt))
    decreases depth
  {
    if 0 < depth && world(r, TMin, Infinite).Some? {
      var rec := world(r, TMin, Infinite).value;
      if scatter(r, rec).Some? {
        var (attenuation, scattered) := scatter(r, rec).value;
        RayColorInUnitCube(scattered, world, scatter, depth - 1, sqrt);
        var below := RayColor(scattered, world, scatter, depth - 1, sqrt);
        assert RayColor(r, world, scatter, depth, sqrt) == attenuation.Mul(below);
        FilterInUnitCube(attenuation, below);
      }
    }
  }

  /** The number of recursive `ray_color` calls made for a ray. */
  function Bounces(r: Ray, world: World, scatter: Scatterer, depth: int): (n: nat)
    ensures n <= (if depth < 0 then 0 else depth)
    ensures 0 < depth && world(r, TMin, Infinite).None? ==> n == 0
    decreases depth
  {
    if depth <= 0 then 0
    else
      match world(r, TMin, Infinite)
      case Some(rec) =>
        (match scatter(r, rec)
         case Some((_, scattered)) => 1 + Bounces(scattered, world, scatter, depth - 1)
         case None => 0)
      case None => 0
  }

  /** A path that ends before the bounce budget is spent does not depend on
      the budget: one more level of depth leaves the colour unchanged. */
  lemma {:induction false} SpareDepthUnused(r: Ray, world: World, scatter: Scatterer, depth: int,
                                            sqrt: real -> real)
    requires IsSqrt(sqrt) && 0.0 < r.dir.LengthSquared() && ScattersNonDegenerate(scatter)
    requires Bounces(r, world, scatter, depth) < depth
    ensures RayColor(r, world, scatter, depth + 1, sqrt) == RayColor(r, world, scatter, depth, sqrt)
    decreases depth
  {
    var hit := world(r, TMin, Infinite);
    if hit.Some? && scatter(r, hit.value).Some? {
      var (attenuation, scattered) := scatter(r, hit.value).value;
      SpareDepthUnused(scattered, world, scatter, depth - 1, sqrt);
    }
  }

  /** The sky grows bluer as the ray turns upward: a direction whose unit
      vector is higher gets no more red and no more green. */
  lemma SkyBluerUpward(d1: Vec3, d2: Vec3, sqrt: real -> real)
    requires IsSqrt(sqrt) && 0.0 < d1.LengthSquared() && 0.0 < d2.LengthSquared()
    requires d1.UnitVector(sqrt).y <= d2.UnitVector(sqrt).y
    ensures Sky(d2, sqrt).x <= Sky(d1, sqrt).x && Sky(d2, sqrt).y <= Sky(d1, sqrt).y
  {
    SkyComponents(d1, sqrt);
    SkyComponents(d2, sqrt);
  }

  /** Red and green of the sky as affine functions of the blend factor. */
  lemma SkyComponents(dir: Vec3, sqrt: real -> real)
    requires IsSqrt(sqrt) && 0.0 < dir.LengthSquared()
    ensures var t := 0.5 * (dir.UnitVector(sqrt).y + 1.0);
      Sky(dir, sqrt).x == 1.0 - 0.5 * t && Sky(dir, sqrt).y == 1.0 - 0.3 * t
  {
  }

  /** Straight up the sky is the full blue `(0.5, 0.7, 1)`, straight down the
      full white. */
  lemma SkyAtZenithAndNadir(dir: Vec3, sqrt: real -> real)
    requires IsSqrt(sqrt) && 0.0 < dir.LengthSquared()
    ensures dir.UnitVector(sqrt).y == 1.0 ==> Sky(dir, sqrt) == Vec3(0.5, 0.7, 1.0)
    ensures dir.UnitVector(sqrt).y == -1.0 ==> Sky(dir, sqrt) == One
  {
  }
}
