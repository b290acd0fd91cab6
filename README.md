# Ray tracer core in Dafny

A model of the rendering core of a small Rust path tracer, taken over the exact
reals instead of IEEE doubles:

- **Vector algebra**: `Vec3`, with `Color` and `Point3` as aliases. It covers
  the norm, dot and cross products, the unit vector, the component-wise
  operators, and the compound assignments `+=`, `*=` and `/=`.
- **Rays** and the point `Ray::at` reaches at a parameter `t`.
- **Hit records**: `set_face_normal`, which orients the stored normal against
  the incoming ray.
- **Sphere intersection**: the half-coefficient quadratic, the discriminant
  test, the nearer-then-farther root selection against the closed interval
  `[t_min, t_max]`, and filling in the record.
- **Nearest-hit scan** (`hittable_list_hit`): a linear pass over the objects
  that shrinks `closest_so_far` after every hit.
- **Material scattering** for Lambertian and Metal surfaces.
- **The camera**: its orthonormal frame, its viewport, and `get_ray`.
- **`ray_color`**: the depth-bounded recursive integrator.

Module by module:

- `Vectors` (vec3.dfy):
  - `Vec3` is a datatype whose member functions are the operators.
  - `MutableVec3` is a class whose methods overwrite its fields, as
    `AddAssign`, `MulAssign` and `DivAssign` overwrite `*self`.
- `Rays` (ray.dfy): the `Ray` datatype and `At`.
- `Hittables` (hittable.dfy):
  - the hit record;
  - the `Bound` on `t`, which is either finite or `f64::INFINITY`;
  - the `Hittable` trait, as a function type `HitFunction`;
  - the two properties the scan relies on: a hit lies in the requested
    interval, and a hit is monotone in the upper bound.
- `Spheres` (sphere.dfy):
  - `Sphere.Hit` is a method that follows the source step by step,
    reassigning `root`.
  - It is proved equal to the specification function `Sphere.HitSpec`.
  - The geometric lemmas are about `HitSpec`.
- `HittableList` (hittable_list.dfy):
  - `HittableListHit` keeps the source's `for` loop over `temp_rec`,
    `hit_anything` and `closest_so_far`.
  - It is proved equal to the fold `ScanPrefix`.
  - The nearest-hit and last-success lemmas are about `ScanPrefix`.
- `Materials` (material.dfy): `Material.Scatter`.
- `Cameras` (camera.dfy): `NewCamera` and `Camera.GetRay`.
- `Integrator` (integrator.dfy): `RayColor` and `Sky`.

These are parameters of the model:

- the square root, `sqrt`, constrained by `IsSqrt`;
- `tan(theta/2)` in the camera, `h`;
- the random unit vector of a diffuse bounce;
- `near_zero` and `reflect`;
- in `ray_color`, the world query and the material's scatter, as oracles.

Several source lines do not compile as written. The model follows their
evident intent:

- `False` in src/sphere.rs:23,33 is read as `false`.
- The bare `center`/`radius` in src/sphere.rs:39 are read as the sphere's
  fields.
- The `hit` trait method returns an optional record, as
  src/hittable_list.rs:17 consumes it, rather than a `bool` with an
  out-parameter.
- `-outward_normal` in src/hittable.rs:11 is the negated vector, written
  `Scale(-1.0)` because no `Neg` impl is shown.
- The bare `front_face` in src/hittable.rs:11 is the field just assigned.
- Integer literals in `f64` positions are reals: the `0` in
  src/hittable.rs:10 and the colours in src/main.rs:38 and src/main.rs:46.
- `Color::zero()` in src/main.rs:29 is the zero vector.

## Model

| member | source | states |
|---|---|---|
| Vectors.Vec3.LengthSquared | src/vec3.rs:18-20 | no contract of its own: it computes `x^2 + y^2 + z^2`, and `LengthSquaredNonNegative` and `DotSelf` state its properties |
| Vectors.LengthSquaredNonNegative | src/vec3.rs:18-20 | the squared norm is never negative |
| Vectors.Vec3.Length | src/vec3.rs:22-24 | the length is non-negative, its square is the squared norm, and it is positive when the squared norm is |
| Vectors.Vec3.Dot | src/vec3.rs:26-28 | no contract of its own: `DotSymmetric` and `DotSelf` state its properties, and `Cross` its orthogonality to the cross product |
| Vectors.DotSelf | src/vec3.rs:18-28 | `v . v` is the squared length of `v` |
| Vectors.DotSymmetric | src/vec3.rs:26-28 | the dot product is symmetric |
| Vectors.Vec3.Cross | src/vec3.rs:30-36 | the cross product is orthogonal to both factors |
| Vectors.CrossLengthSquared | src/vec3.rs:30-36 | Lagrange's identity: the squared length of `a x b` is `a.length_squared() * b.length_squared() - (a . b)^2` |
| Vectors.Vec3.UnitVector | src/vec3.rs:38-45 | for a non-zero vector the result has squared length 1, and scaling it by the positive length gives back the input |
| Vectors.Vec3.Add | src/vec3.rs:48-57 | adding `other` is undone by subtracting `other` |
| Vectors.AddSubCancel | src/vec3.rs:48-68 | `(a + b) - b == a` |
| Vectors.Vec3.Sub | src/vec3.rs:59-68 | the difference is the zero vector exactly when the operands are equal |
| Vectors.Vec3.Scale | src/vec3.rs:70-79 | no contract of its own: `ScaleDivCancel` states that dividing by the same non-zero factor undoes it |
| Vectors.ScaleDivCancel | src/vec3.rs:70-101 | `(v * t) / t == v` for `t != 0` |
| Vectors.Vec3.Mul | src/vec3.rs:81-90 | the component-wise product has the all-ones vector as identity and the zero vector as absorbing element |
| Vectors.MulCommutative | src/vec3.rs:81-90 | the component-wise product is commutative |
| Vectors.Vec3.DivScalar | src/vec3.rs:92-101 | every component of `v / t`, multiplied by `t`, is the original component |
| Vectors.Vec3.Div | src/vec3.rs:103-112 | the component-wise quotient is undone by the component-wise product |
| Vectors.MutableVec3.AddAssign | src/vec3.rs:114-122 | after `+=` the stored value is the old value plus `other` |
| Vectors.MutableVec3.MulAssign | src/vec3.rs:124-132 | after `*=` the stored value is the old value scaled by the factor |
| Vectors.MutableVec3.DivAssign | src/vec3.rs:134-142 | after `/=` the stored value is the old value divided by the divisor |
| Rays.Ray.At | src/ray.rs:10-12 | no contract of its own: `AtOffsetFromOrigin`, `AtZero`, `AtDifference` and `AtZeroDirection` state its properties |
| Rays.AtOffsetFromOrigin | src/ray.rs:10-12 | `at(t) - orig == dir * t` |
| Rays.AtZero | src/ray.rs:10-12 | `at(0) == orig` |
| Rays.AtDifference | src/ray.rs:10-12 | `at(t) - at(s) == dir * (t - s)` |
| Rays.AtZeroDirection | src/ray.rs:10-12 | a ray with zero direction stays at its origin for every `t` |
| Hittables.HitRecord.SetFaceNormal | src/hittable.rs:9-12 | `p` and `t` are kept; `front_face` holds exactly when `dir . outward < 0`; the normal is `outward` on the front face and its negation otherwise; afterwards `dir . normal <= 0` |
| Spheres.Sphere.Coefficients | src/sphere.rs:16-19 | no contract of its own: `RootIffOnSphere` states that its roots are exactly the parameters where the ray meets the sphere |
| Spheres.Sphere.NearRoot | src/sphere.rs:26-28 | `a * t == -half_b - sqrtd`; `RootsSolveQuadratic` states that it is a root and not beyond the farther one |
| Spheres.Sphere.FarRoot | src/sphere.rs:26-31 | `a * t == -half_b + sqrtd`; `RootsSolveQuadratic` states that it is a root |
| Spheres.Sphere.OutwardNormal | src/sphere.rs:39 | scaled by the radius it gives back `p - center`; `UnitOutwardNormal` states it has unit length on the surface |
| Spheres.Sphere.RecordAt | src/sphere.rs:37-40 | the record for root `t` has `t` and `p == r.at(t)`; `front_face` holds exactly when `dir . outward < 0`, where `outward = (p - center)/radius`; the normal is `outward` on the front face and `-outward` otherwise, and it opposes the ray |
| Spheres.Sphere.HitSpec | src/sphere.rs:20-42 | a negative discriminant gives no hit; a hit lies in `[t_min, t_max]` with `p == r.at(t)` and a normal opposing the ray; the nearer root is returned whenever it is in range; when it is out of range and the farther root is in range, the farther root is returned; any other result is the farther root with the nearer one out of range; both out of range gives no hit; every hit is the record `RecordAt` fills in for its root |
| Spheres.Sphere.Hit | src/sphere.rs:15-43 | the step-by-step computation (setup, early return, `root` reassignment, record fill) returns exactly `HitSpec` |
| Spheres.RootIffOnSphere | src/sphere.rs:16-20 | `t` solves `a t^2 + 2 half_b t + c = 0` exactly when `(r.at(t) - center).length_squared() == radius^2` |
| Spheres.RootsSolveQuadratic | src/sphere.rs:26-31 | with a non-negative discriminant, both `(-half_b -/+ sqrtd)/a` are roots, and the nearer is at most the farther |
| Spheres.RootIsNearOrFar | src/sphere.rs:20-31 | every root of the quadratic has a non-negative discriminant and is either `(-half_b - sqrtd)/a` or `(-half_b + sqrtd)/a` |
| Spheres.UnitOutwardNormal | src/sphere.rs:39 | at a point on the surface `(p - center)/radius` has unit length |
| Spheres.HitOnSphere | src/sphere.rs:16-40 | a reported hit point lies on the sphere and its normal has unit length |
| Spheres.HitWhenOnSphere | src/sphere.rs:20-42 | conversely, whenever the ray meets the sphere at some `t` in `[t_min, t_max]`, the test reports a hit at a parameter no larger than `t`: the nearest valid intersection |
| Spheres.SphereMonotoneInBound | src/sphere.rs:28-35 | a hit is not lost when the upper bound changes to one that still admits its `t`, and the reported `t` stays the same |
| HittableList.ScanPrefix | src/hittable_list.rs:12-21 | after each prefix of the scan, `closest_so_far` is `t_max` if nothing was hit, and otherwise the `t` of the record kept |
| HittableList.HittableListHit | src/hittable_list.rs:10-25 | the loop over `temp_rec`, `hit_anything` and `closest_so_far` returns the record of the full scan `ScanPrefix` |
| HittableList.EmptyListMisses | src/hittable_list.rs:12-24 | an empty list returns `None` |
| HittableList.NoneIffNoCallSucceeded | src/hittable_list.rs:13-24 | the result is `None` exactly when no `hit` call of the scan succeeded |
| HittableList.LastSuccess | src/hittable_list.rs:16-21 | the index of the last successful call: it succeeded, and no later call did |
| HittableList.LastSuccessfulHit | src/hittable_list.rs:17-20 | the record returned is the one reported by the last successful call |
| HittableList.ClosestNeverGrows | src/hittable_list.rs:14-19 | with bound-respecting objects, `closest_so_far` never increases during the scan and never exceeds `t_max` |
| HittableList.ResultInBounds | src/hittable_list.rs:14-17 | with bound-respecting objects, the returned `t` lies in `[t_min, t_max]` |
| HittableList.NearestHit | src/hittable_list.rs:16-21 | with bound-respecting and monotone objects, the scan hits whenever some object is hit on `[t_min, t_max]`, and the returned `t` is at most that object's `t` |
| Materials.Material.Scatter | src/material.rs:13-41 | Lambertian always scatters; both variants attenuate by the albedo and start the new ray at `rec.p`; the Lambertian direction is `normal + random` unless that is near zero, in which case it is `normal`; Metal scatters exactly when `reflect(unit(dir), normal) . normal > 0`, along that reflection |
| Materials.LambertianDirectionNotNearZero | src/material.rs:16-19 | when the normal is not near zero, the diffuse direction is not near zero |
| Materials.MetalScattersIffIncoming | src/material.rs:28-38 | when `reflect` is the mirror reflection `v - 2 (v . n) n` and the normal has unit length, a metal scatters exactly when `dir . normal < 0`, i.e. when the ray arrives against the normal |
| Cameras.ViewW | src/camera.rs:24 | `w` has unit length, and scaled by the distance it gives back `lookfrom - lookat` |
| Cameras.ViewU | src/camera.rs:25 | `u` has unit length, and scaled by the length of `vup x w` it gives back `vup x w` |
| Cameras.Camera.GetRay | src/camera.rs:46-51 | every generated ray starts at the camera origin |
| Cameras.NewCamera | src/camera.rs:17-44 | `viewport_height == 2h` and `viewport_width == aspect_ratio * viewport_height`; focal length 1; origin `lookfrom`; `horizontal == u * viewport_width`, `vertical == (w x u) * viewport_height` and `lower_left_corner == origin - horizontal/2 - vertical/2 - w`; the centre ray's direction is `-w` |
| Cameras.CameraBasisOrthonormal | src/camera.rs:24-26 | `w`, `u` and `v` have unit length; `u` is orthogonal to `vup` and `w`; `v` is orthogonal to `w` and `u` |
| Cameras.CentreRayTowardLookat | src/camera.rs:24-49 | `get_ray(0.5, 0.5)` points from `lookfrom` at `lookat`: scaled by the positive distance, its direction is `lookat - lookfrom` |
| Cameras.GetRayAffine | src/camera.rs:46-51 | the direction is the corner ray plus `horizontal * s + vertical * t` |
| Cameras.CornerSpan | src/camera.rs:29-49 | `get_ray(1,1).dir - get_ray(0,0).dir == horizontal + vertical` |
| Integrator.Sky | src/main.rs:43-46 | on a miss, red lies in [0.5, 1], green in [0.7, 1] and blue is 1 |
| Integrator.SkyBluerUpward | src/main.rs:43-46 | a direction pointing higher gets no more red and no more green |
| Integrator.SkyAtZenithAndNadir | src/main.rs:43-46 | straight up the sky is `(0.5, 0.7, 1)`, straight down it is white |
| Integrator.RayColor | src/main.rs:27-47 | depth `<= 0` gives black; a miss in `(0.001, infinity)` gives the sky; an absorbed hit gives black; a scattered hit gives the attenuation times the colour one bounce deeper |
| Integrator.RayColorInUnitCube | src/main.rs:27-47 | when every attenuation lies in [0, 1], every colour returned lies in [0, 1]^3 |
| Integrator.Bounces | src/main.rs:28-35 | the number of nested calls is at most `max(depth, 0)`, and zero on a miss |
| Integrator.SpareDepthUnused | src/main.rs:28-35 | when the path makes fewer nested calls than the depth allows, one more level of depth leaves the colour unchanged |

## Left out

- Floating point is not modelled: the model uses exact reals, with no
  rounding, no NaN and no infinities except the `Bound.Infinite` upper bound.
- `sqrt`, `tan` and `theta = vfov * PI / 180` are not modelled as
  functions. The square root is a parameter constrained by `IsSqrt`, and the
  camera takes `h = tan(theta/2)` as input.
- `random_unit_vector`, `reflect` and `near_zero` are not defined in
  src/vec3.rs, so they are parameters of `Scatter`.
- Randomness is not modelled: the scene query and the material's `scatter`
  inside `ray_color` are oracles.
- Hittables.HitRecord.SetFaceNormal: returns the updated record instead of
  mutating it through `&mut self`. `&mut self` is an exclusive borrow, so no
  other reference can observe the record during the update, and returning
  the new record loses no aliasing.
- Spheres.Sphere.Hit: returns `Option<HitRecord>` instead of a `bool` plus an
  out-parameter.
- HittableList.HittableListHit: the initial `HitRecord::new()` is not part of
  this model and is replaced by an arbitrary placeholder. It is never
  returned unless overwritten.
- The material reference in the hit record is not modelled, because
  `ray_color` receives `scatter` as a parameter.
- Vectors.Vec3.UnitVector: requires a non-zero vector, where the renderer
  produces NaN.
- Spheres.Sphere.HitSpec: requires a non-zero ray direction and a non-zero
  radius, where the renderer divides by zero.
- Materials.Material.Scatter: requires a non-zero incoming direction, for
  the same reason.
- Cameras.NewCamera: requires `lookfrom != lookat` and `vup` not parallel to
  the view direction, both stated as positive squared lengths.
- Integrator.RayColor: requires every direction it meets to be non-zero,
  including the scattered ones (`ScattersNonDegenerate`). The renderer
  normalises the direction only on a miss.
- Vectors.LengthSquaredNonNegative: "only the zero vector has squared
  length zero" is not proved. Non-degeneracy is stated throughout as a
  positive squared length.
- Spheres.SphereMonotoneInBound: proves the monotonicity and bounds
  contract of `HittableList` for each sphere. It is not restated as an
  instance of `HitFunction` over a list of spheres.
- The Dielectric material, the metal `fuzz` and the camera's aperture and
  focus distance are not in src/material.rs or src/camera.rs.
- `random_scene`, the pixel loop and its parallelism, `write_image`,
  `write_color` and `vec3::to_rgb` are left out. They are scene setup, I/O
  or undefined.
