/** Three-component vectors used for points, directions and colours
    (src/vector_3.rs, src/colour.rs). The source computes in f32; this
    model computes over exact reals and makes no claim about rounding. */
module Vectors {

  datatype Vector3 = Vector3(x: real, y: real, z: real)

  /** The source distinguishes points and colours from directions only by name. */
  type Point3 = Vector3
  type Colour = Vector3

  const ZERO: Point3 := Vector3(0.0, 0.0, 0.0)
  const X: Point3 := Vector3(1.0, 0.0, 0.0)
  const Y: Point3 := Vector3(0.0, 1.0, 0.0)
  const Z: Point3 := Vector3(0.0, 0.0, 1.0)
  const ONE: Point3 := Vector3(1.0, 1.0, 1.0)

  /** The functions the vector code is called with but whose definitions are
      not part of this model: `f32::sqrt`, and `Vector3::reflect`,
      `Vector3::refract`, which the materials call but vector_3.rs does not
      define. They are passed in rather than guessed. */
  datatype Externals = Externals(
    sqrt: real -> real,
    reflect: (Vector3, Vector3) -> Vector3,
    refract: (Vector3, Vector3, real) -> Vector3)

  /** What the model assumes of `sqrt`: the non-negative square root of a
      non-negative argument. Nothing is assumed of negative arguments. */
  ghost predicate SqrtLaw(sqrt: real -> real)
  {
    forall v: real :: 0.0 <= v ==> 0.0 <= sqrt(v) && Mul(sqrt(v), sqrt(v)) == v
  }

  /** Real multiplication, named so that squares such as `Mul(v.x, v.x)`
      stay a single term in the proofs below. */
  function Mul(p: real, q: real): real
  {
    p * q
  }

  // ---- Operators (impl ops::… for Vector3) ----

  function Add(a: Vector3, b: Vector3): Vector3
  {
    Vector3(a.x + b.x, a.y + b.y, a.z + b.z)
  }

  function Neg(a: Vector3): Vector3
  {
    Vector3(-a.x, -a.y, -a.z)
  }

  function Sub(a: Vector3, b: Vector3): Vector3
  {
    Vector3(a.x - b.x, a.y - b.y, a.z - b.z)
  }

  /** `Vector3 * Vector3`, which the source defines to be the dot product. */
  function MulVector(a: Vector3, b: Vector3): real
  {
    Mul(a.x, b.x) + Mul(a.y, b.y) + Mul(a.z, b.z)
  }

  /** `Vector3 * f32` */
  function MulScalar(v: Vector3, s: real): Vector3
  {
    Vector3(v.x * s, v.y * s, v.z * s)
  }

  /** `f32 * Vector3` */
  function ScalarMul(s: real, v: Vector3): Vector3
  {
    Vector3(s * v.x, s * v.y, s * v.z)
  }

  /** `Vector3 / f32`; the source divides by zero silently (giving infinities
      or NaN), which has no real-number counterpart. */
  function Div(v: Vector3, s: real): Vector3
    requires s != 0.0
  {
    Vector3(v.x / s, v.y / s, v.z / s)
  }

  /** `Vector3::dot`, written out separately from `Mul` in the source. */
  function Dot(v: Vector3, w: Vector3): real
  {
    v.x * w.x + v.y * w.y + v.z * w.z
  }

  /** `length_squared` is `self * self`. */
  function LengthSquared(v: Vector3): real
  {
    MulVector(v, v)
  }

  function Length(v: Vector3, sqrt: real -> real): real
  {
    sqrt(LengthSquared(v))
  }

  function UnitVector(v: Vector3, sqrt: real -> real): Vector3
    requires Length(v, sqrt) != 0.0
  {
    Div(v, Length(v, sqrt))
  }

  // ---- Algebraic facts the rest of the model relies on ----

  lemma AddComponents(a: Vector3, b: Vector3)
    ensures Add(a, b).x == a.x + b.x && Add(a, b).y == a.y + b.y && Add(a, b).z == a.z + b.z
    ensures Add(a, b) == Add(b, a)
    ensures Add(a, ZERO) == a
  {
  }

  lemma SubIsAddNeg(a: Vector3, b: Vector3)
    ensures Sub(a, b) == Add(a, Neg(b))
    ensures Add(Sub(a, b), b) == a
    ensures Neg(Neg(a)) == a
  {
  }

  lemma MulVectorIsDot(a: Vector3, b: Vector3)
    ensures MulVector(a, b) == Dot(a, b)
    ensures Dot(a, b) == Dot(b, a)
  {
  }

  lemma ScalarMulCommutes(v: Vector3, s: real)
    ensures MulScalar(v, s) == ScalarMul(s, v)
    ensures ScalarMul(1.0, v) == v
    ensures ScalarMul(0.0, v) == ZERO
  {
  }

  /** Dividing by a non-zero scalar undoes multiplying by it ... */
  lemma DivUndoesScale(v: Vector3, s: real)
    requires s != 0.0
    ensures Div(MulScalar(v, s), s) == v
  {
  }

  /** ... and multiplying undoes dividing. */
  lemma ScaleUndoesDiv(v: Vector3, s: real)
    requires s != 0.0
    ensures MulScalar(Div(v, s), s) == v
  {
  }

  lemma MulOfPositives(p: real, q: real)
    requires p > 0.0 && q > 0.0
    ensures Mul(p, q) > 0.0
  {
  }

  lemma NonNegativeProduct(p: real, q: real)
    requires p >= 0.0 && q >= 0.0
    ensures Mul(p, q) >= 0.0
  {
    if p > 0.0 && q > 0.0 {
      MulOfPositives(p, q);
    }
  }

  /** Scaling a non-negative number by at most 1 does not enlarge it. */
  lemma {:induction false} ScaleBelow(p: real, q: real)
    requires p >= 0.0 && q <= 1.0
    ensures p * q <= p
  {
    NonNegativeProduct(p, 1.0 - q);
    assert p - p * q == Mul(p, 1.0 - q);
  }

  lemma SquareOfNegation(a: real)
    ensures Mul(-a, -a) == Mul(a, a)
  {
  }

  /** A square is never negative, and is positive unless its root is zero. */
  lemma SquareSign(a: real)
    ensures Mul(a, a) >= 0.0
    ensures a != 0.0 ==> Mul(a, a) > 0.0
  {
    if a > 0.0 {
      MulOfPositives(a, a);
    } else if a < 0.0 {
      MulOfPositives(-a, -a);
      SquareOfNegation(a);
    }
  }

  /** `length_squared` is non-negative and zero exactly at the zero vector. */
  lemma {:induction false} LengthSquaredZeroIffZero(v: Vector3)
    ensures LengthSquared(v) >= 0.0
    ensures LengthSquared(v) == 0.0 <==> v == ZERO
  {
    SquareSign(v.x);
    SquareSign(v.y);
    SquareSign(v.z);
  }

  /** The length squared of `v / s` is the length squared of `v` over `s * s`. */
  lemma {:induction false} LengthSquaredDiv(v: Vector3, s: real)
    requires s != 0.0
    ensures LengthSquared(Div(v, s)) * Mul(s, s) == LengthSquared(v)
  {
    var d := Div(v, s);
    assert d.x * s == v.x && d.y * s == v.y && d.z * s == v.z;
    calc {
      LengthSquared(d) * Mul(s, s);
      (d.x * s) * (d.x * s) + (d.y * s) * (d.y * s) + (d.z * s) * (d.z * s);
      v.x * v.x + v.y * v.y + v.z * v.z;
    }
  }

  lemma LengthIsRoot(v: Vector3, sqrt: real -> real)
    requires SqrtLaw(sqrt)
    ensures Length(v, sqrt) >= 0.0
    ensures Mul(Length(v, sqrt), Length(v, sqrt)) == LengthSquared(v)
  {
    LengthSquaredZeroIffZero(v);
  }

  lemma CancelFactor(m: real, q: real)
    requires q != 0.0
    requires m * q == q
    ensures m == 1.0
  {
    assert m == (m * q) / q;
  }

  /** `unit_vector` has unit length once the length it divides by is non-zero. */
  lemma {:induction false} UnitVectorIsUnit(v: Vector3, sqrt: real -> real)
    requires SqrtLaw(sqrt)
    requires Length(v, sqrt) != 0.0
    ensures LengthSquared(UnitVector(v, sqrt)) == 1.0
  {
    var l := Length(v, sqrt);
    LengthIsRoot(v, sqrt);
    LengthSquaredDiv(v, l);
    SquareSign(l);
    CancelFactor(LengthSquared(Div(v, l)), Mul(l, l));
  }

  /** A variable of type `Vector3` updated in place by `+=` (`impl AddAssign`). */
  class MutableVector3 {
    var x: real
    var y: real
    var z: real

    function Value(): Vector3
      reads this
    {
      Vector3(x, y, z)
    }

    constructor (v: Vector3)
      ensures Value() == v
    {
      x, y, z := v.x, v.y, v.z;
    }

    method AddAssign(other: Vector3)
      modifies this
      ensures Value() == Add(old(Value()), other)
    {
      x := x + other.x;
      y := y + other.y;
      z := z + other.z;
    }
  }
}
