/** Three-component vectors over the reals (src/vec3.rs). The same type stands
    for points, directions and colours. */
module Vectors {

  /** `sqrt` is a square root on the non-negative reals: non-negative, and its
      square gives back the argument. The renderer uses f64::sqrt; the model
      receives the square root as a parameter. */
  ghost predicate IsSqrt(sqrt: real -> real)
  {
    forall x :: 0.0 <= x ==> 0.0 <= sqrt(x) && sqrt(x) * sqrt(x) == x
  }

  // Arithmetic helpers, stated over plain variables so that the solver's
  // non-linear reasoning stays small.

  lemma SquareRootNonZero(s: real, r: real)
    requires r * r == s
    ensures s != 0.0 ==> r != 0.0
  {
  }

  lemma SquaredDifference(u: real, len: real, x: real)
    requires u * len == x
    ensures (u * u) * (len * len) == x * x
  {
  }

  lemma CancelSquare(s: real, len: real)
    requires len != 0.0 && s * (len * len) == len * len
    ensures s == 1.0
  {
    assert (s * len) * len == 1.0 * len * len;
    assert s * len == len;
  }

  /** If `(u, v, w) * len == (x, y, z)` and `len` is the length of `(x, y, z)`,
      then `(u, v, w)` has squared length one. */
  lemma UnitFromQuotients(x: real, y: real, z: real, len: real, u: real, v: real, w: real)
    requires len != 0.0 && len * len == x * x + y * y + z * z
    requires u * len == x && v * len == y && w * len == z
    ensures u * u + v * v + w * w == 1.0
  {
    SquaredDifference(u, len, x);
    SquaredDifference(v, len, y);
    SquaredDifference(w, len, z);
    var s := u * u + v * v + w * w;
    calc {
      s * (len * len);
      (u * u) * (len * len) + (v * v) * (len * len) + (w * w) * (len * len);
      x * x + y * y + z * z;
      len * len;
    }
    CancelSquare(s, len);
  }

  lemma UnitSum(x: real, y: real, z: real, len: real)
    requires len != 0.0 && len * len == x * x + y * y + z * z
    ensures (x / len) * (x / len) + (y / len) * (y / len) + (z / len) * (z / len) == 1.0
  {
    UnitFromQuotients(x, y, z, len, x / len, y / len, z / len);
  }

  /** A number whose square is at most one lies in [-1, 1]. */
  lemma SquareAtMostOne(a: real)
    requires a * a <= 1.0
    ensures -1.0 <= a <= 1.0
  {
  }

  type Color = Vec3
  type Point3 = Vec3

  const Zero: Vec3 := Vec3(0.0, 0.0, 0.0)
  const One: Vec3 := Vec3(1.0, 1.0, 1.0)

  /** `Vec3::new` is the datatype constructor. */
  datatype Vec3 = Vec3(x: real, y: real, z: real) {

    /** The squared Euclidean norm `x^2 + y^2 + z^2`. */
    function LengthSquared(): real
    {
      x * x + y * y + z * z
    }

    /** The Euclidean norm: the non-negative number whose square is the
        squared norm, positive when the squared norm is. */
    function Length(sqrt: real -> real): (len: real)
      requires IsSqrt(sqrt)
      ensures 0.0 <= len && len * len == LengthSquared()
      ensures 0.0 < LengthSquared() ==> 0.0 < len
    {
      LengthSquaredNonNegative(this);
      var len := sqrt(LengthSquared());
      SquareRootNonZero(LengthSquared(), len);
      len
    }

    /** The dot product. */
    function Dot(other: Vec3): real
    {
      x * other.x + y * other.y + z * other.z
    }

    /** The cross product, orthogonal to both factors. */
    function Cross(other: Vec3): (c: Vec3)
      ensures c.Dot(this) == 0.0 && c.Dot(other) == 0.0
    {
      Vec3(y * other.z - z * other.y,
           z * other.x - x * other.z,
           x * other.y - y * other.x)
    }

    /** The vector divided by its length: it has length one and scaling it by
        the (positive) length gives back the input. The input must have a
        positive length (for the zero vector the renderer divides by zero and
        produces NaN components). */
    function UnitVector(sqrt: real -> real): (u: Vec3)
      requires IsSqrt(sqrt) && 0.0 < LengthSquared()
      ensures u.LengthSquared() == 1.0
      ensures 0.0 < Length(sqrt) && u.Scale(Length(sqrt)) == this
    {
      var len := Length(sqrt);
      UnitSum(x, y, z, len);
      Vec3(x / len, y / len, z / len)
    }

    /** `+`: adding `other` is undone by subtracting it. */
    function Add(other: Vec3): (r: Vec3)
      ensures r.Sub(other) == this
    {
      Vec3(x + other.x, y + other.y, z + other.z)
    }

    /** `-`: the difference is zero exactly when the operands are equal. */
    function Sub(other: Vec3): (r: Vec3)
      ensures r == Zero <==> this == other
    {
      Vec3(x - other.x, y - other.y, z - other.z)
    }

    /** `* f64`: scales every component by `t`. */
    function Scale(t: real): Vec3
    {
      Vec3(x * t, y * t, z * t)
    }

    /** `* Vec3`: the component-wise (colour filter) product; the all-ones
        vector is its identity and the zero vector absorbs. */
    function Mul(other: Vec3): (r: Vec3)
      ensures other == One ==> r == this
      ensures this == Zero ==> r == Zero
    {
      Vec3(x * other.x, y * other.y, z * other.z)
    }

    /** `/ f64`: each component of the quotient times `t` is the original
        component. */
    function DivScalar(t: real): (r: Vec3)
      requires t != 0.0
      ensures r.x * t == x && r.y * t == y && r.z * t == z
    {
      Vec3(x / t, y / t, z / t)
    }

    /** `/ Vec3`: the component-wise quotient, undone by the component-wise
        product. */
    function Div(other: Vec3): (r: Vec3)
      requires other.x != 0.0 && other.y != 0.0 && other.z != 0.0
      ensures r.Mul(other) == this
    {
      Vec3(x / other.x, y / other.y, z / other.z)
    }
  }

  /** The squared norm is never negative. */
  lemma LengthSquaredNonNegative(v: Vec3)
    ensures 0.0 <= v.LengthSquared()
  {
  }

  /** A vector dotted with itself is its squared length. */
  lemma DotSelf(v: Vec3)
    ensures v.Dot(v) == v.LengthSquared()
  {
  }

  lemma DotSymmetric(a: Vec3, b: Vec3)
    ensures a.Dot(b) == b.Dot(a)
  {
  }

  lemma AddSubCancel(a: Vec3, b: Vec3)
    ensures a.Add(b).Sub(b) == a
  {
  }

  lemma ScaleDivCancel(v: Vec3, t: real)
    requires t != 0.0
    ensures v.Scale(t).DivScalar(t) == v
  {
  }

  lemma MulCommutative(a: Vec3, b: Vec3)
    ensures a.Mul(b) == b.Mul(a)
  {
  }

  /** Lagrange's identity: |a x b|^2 = |a|^2 |b|^2 - (a . b)^2. */
  lemma CrossLengthSquared(a: Vec3, b: Vec3)
    ensures a.Cross(b).LengthSquared()
         == a.LengthSquared() * b.LengthSquared() - a.Dot(b) * a.Dot(b)
  {
  }

  /** A place holding a `Vec3` that the compound assignments `+=`, `*=` and
      `/=` overwrite in place. */
  class MutableVec3 {
    var x: real
    var y: real
    var z: real

    function Value(): Vec3
      reads this
    {
      Vec3(x, y, z)
    }

    constructor (v: Vec3)
      ensures Value() == v
    {
      x, y, z := v.x, v.y, v.z;
    }

    /** `+=`: the new value is the old value plus `other`. */
    method AddAssign(other: Vec3)
      modifies this
      ensures Value() == old(Value()).Add(other)
    {
      x, y, z := x + other.x, y + other.y, z + other.z;
    }

    /** `*=`: the new value is the old value scaled by `t`. */
    method MulAssign(t: real)
      modifies this
      ensures Value() == old(Value()).Scale(t)
    {
      x, y, z := x * t, y * t, z * t;
    }

    /** `/=`: the new value is the old value divided by `t`. */
    method DivAssign(t: real)
      requires t != 0.0
      modifies this
      ensures Value() == old(Value()).DivScalar(t)
    {
      x, y, z := x / t, y / t, z / t;
    }
  }
}
