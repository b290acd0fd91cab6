/** The pinhole camera (src/camera.rs). `tan(theta / 2)` for the vertical
    field of view is supplied as `h`. */
module Cameras {
  import opened Vectors
  import opened Rays

  // Scalar helpers.

  lemma ProductZero(a: real, b: real)
    requires b != 0.0 && a * b == 0.0
    ensures a == 0.0
  {
    assert a == (a * b) / b;
  }

  lemma ScaleDot(u: Vec3, len: real, o: Vec3, d: real, e: real)
    requires d == u.Dot(o) && e == u.Scale(len).Dot(o)
    ensures e == d * len
  {
  }

  /** A non-zero multiple of `u` is orthogonal to `o` only if `u` is. */
  lemma ScaledOrthogonal(u: Vec3, len: real, o: Vec3)
    requires len != 0.0 && u.Scale(len).Dot(o) == 0.0
    ensures u.Dot(o) == 0.0
  {
    ScaleDot(u, len, o, u.Dot(o), u.Scale(len).Dot(o));
    ProductZero(u.Dot(o), len);
  }

  /** `w`: the unit vector from `lookat` back to `lookfrom`. */
  function ViewW(lookfrom: Point3, lookat: Point3, sqrt: real -> real): (w: Vec3)
    requires IsSqrt(sqrt) && 0.0 < lookfrom.Sub(lookat).LengthSquared()
    ensures w.LengthSquared() == 1.0
    ensures w.Scale(lookfrom.Sub(lookat).Length(sqrt)) == lookfrom.Sub(lookat)
  {
    lookfrom.Sub(lookat).UnitVector(sqrt)
  }

  /** `u`: the unit vector along `vup x w`, pointing right in the image. */
  function ViewU(vup: Vec3, w: Vec3, sqrt: real -> real): (u: Vec3)
    requires IsSqrt(sqrt) && 0.0 < vup.Cross(w).LengthSquared()
    ensures u.LengthSquared() == 1.0
    ensures u.Scale(vup.Cross(w).Length(sqrt)) == vup.Cross(w)
  {
    vup.Cross(w).UnitVector(sqrt)
  }

  /** The camera's fields as the renderer stores them. */
  datatype Camera = Camera(aspectRatio: real, viewportHeight: real, viewportWidth: real,
                           focalLength: real, origin: Point3, horizontal: Vec3, vertical: Vec3,
                           lowerLeftCorner: Point3, vfov: real) {

    /** `get_ray`: the ray from the camera origin through the viewport point
        at fractions `s` across and `t` up. */
    function GetRay(s: real, t: real): (r: Ray)
      ensures r.orig == origin
    {
      Ray(origin, lowerLeftCorner.Add(horizontal.Scale(s)).Add(vertical.Scale(t)).Sub(origin))
    }
  }

  /** `Camera::new`: an orthonormal frame `(u, v, w)` looking from `lookfrom`
      towards `lookat`, and a viewport of height `2 h` and width
      `aspect_ratio` times that, one unit in front of the origin. The two
      viewing vectors must not be degenerate (the renderer would produce NaN):
      `lookfrom` differs from `lookat` and `vup` is not parallel to the view
      direction. */
  function NewCamera(lookfrom: Point3, lookat: Point3, vup: Vec3, vfov: real, aspectRatio: real,
                     h: real, sqrt: real -> real): (c: Camera)
    requires IsSqrt(sqrt) && 0.0 < lookfrom.Sub(lookat).LengthSquared()
    requires 0.0 < vup.Cross(ViewW(lookfrom, lookat, sqrt)).LengthSquared()
    ensures c.viewportHeight == 2.0 * h && c.viewportWidth == aspectRatio * c.viewportHeight
    ensures c.focalLength == 1.0 && c.origin == lookfrom && c.vfov == vfov
    ensures c.GetRay(0.5, 0.5).dir == ViewW(lookfrom, lookat, sqrt).Scale(-1.0)
    ensures var w := ViewW(lookfrom, lookat, sqrt);
      var u := ViewU(vup, w, sqrt);
      && c.horizontal == u.Scale(c.viewportWidth)
      && c.vertical == w.Cross(u).Scale(c.viewportHeight)
      && c.lowerLeftCorner == lookfrom.Sub(c.horizontal.DivScalar(2.0)).Sub(c.vertical.DivScalar(2.0)).Sub(w)
  {
    var viewportHeight := 2.0 * h;
    var viewportWidth := aspectRatio * viewportHeight;
    var focalLength := 1.0;
    var w := ViewW(lookfrom, lookat, sqrt);
    var u := ViewU(vup, w, sqrt);
    var v := w.Cross(u);
    var origin := lookfrom;
    var horizontal := u.Scale(viewportWidth);
    var vertical := v.Scale(viewportHeight);
    var lowerLeftCorner := origin.Sub(horizontal.DivScalar(2.0)).Sub(vertical.DivScalar(2.0)).Sub(w);
    Camera(aspectRatio, viewportHeight, viewportWidth, focalLength, origin, horizontal, vertical,
           lowerLeftCorner, vfov)
  }

  /** The camera frame is orthonormal: `w` and `u` have unit length by
      construction, `u` is orthogonal to `vup` and to `w`, and `v = w x u`
      is a unit vector orthogonal to both. */
  lemma CameraBasisOrthonormal(lookfrom: Point3, lookat: Point3, vup: Vec3, sqrt: real -> real)
    requires IsSqrt(sqrt) && 0.0 < lookfrom.Sub(lookat).LengthSquared()
    requires 0.0 < vup.Cross(ViewW(lookfrom, lookat, sqrt)).LengthSquared()
    ensures var w := ViewW(lookfrom, lookat, sqrt);
      var u := ViewU(vup, w, sqrt);
      var v := w.Cross(u);
      && w.LengthSquared() == 1.0 && u.LengthSquared() == 1.0 && v.LengthSquared() == 1.0
      && u.Dot(vup) == 0.0 && u.Dot(w) == 0.0 && v.Dot(w) == 0.0 && v.Dot(u) == 0.0
  {
    var w := ViewW(lookfrom, lookat, sqrt);
    var c := vup.Cross(w);
    var u := ViewU(vup, w, sqrt);
    var len := c.Length(sqrt);
    ScaledOrthogonal(u, len, vup);
    ScaledOrthogonal(u, len, w);
    CrossLengthSquared(w, u);
    DotSymmetric(w, u);
  }

  /** The centre ray points from `lookfrom` straight at `lookat`: its direction
      is a positive multiple of `lookat - lookfrom`. */
  lemma CentreRayTowardLookat(lookfrom: Point3, lookat: Point3, vup: Vec3, vfov: real,
                              aspectRatio: real, h: real, sqrt: real -> real)
    requires IsSqrt(sqrt) && 0.0 < lookfrom.Sub(lookat).LengthSquared()
    requires 0.0 < vup.Cross(ViewW(lookfrom, lookat, sqrt)).LengthSquared()
    ensures var len := lookfrom.Sub(lookat).Length(sqrt);
      0.0 < len && NewCamera(lookfrom, lookat, vup, vfov, aspectRatio, h, sqrt).GetRay(0.5, 0.5).dir.Scale(len)
                   == lookat.Sub(lookfrom)
  {
    var d := lookfrom.Sub(lookat);
    var w := ViewW(lookfrom, lookat, sqrt);
    var len := d.Length(sqrt);
    assert w.Scale(len) == d;
    NegatedScale(w, len, d);
  }

  lemma NegatedScale(w: Vec3, len: real, d: Vec3)
    requires w.Scale(len) == d
    ensures w.Scale(-1.0).Scale(len) == d.Scale(-1.0)
  {
  }

  /** The ray direction is affine in `(s, t)`: it moves by `horizontal` per
      unit of `s` and by `vertical` per unit of `t` from the corner ray. */
  lemma GetRayAffine(c: Camera, s: real, t: real)
    ensures c.GetRay(s, t).dir == c.GetRay(0.0, 0.0).dir.Add(c.horizontal.Scale(s)).Add(c.vertical.Scale(t))
  {
  }

  /** Opposite corners of the viewport differ by `horizontal + vertical`. */
  lemma CornerSpan(c: Camera)
    ensures c.GetRay(1.0, 1.0).dir.Sub(c.GetRay(0.0, 0.0).dir) == c.horizontal.Add(c.vertical)
  {
  }
}
