/** Three-component real vectors: the `Vector3` value type every part of the
    ray tracer exchanges.  Reals stand in for `double`; rounding, NaN and the
    infinities are not modelled. */
module Vectors {

  datatype Vector3 = Vector3(x: real, y: real, z: real)

  const Zero := Vector3(0.0, 0.0, 0.0)

  function Add(a: Vector3, b: Vector3): Vector3 {
    Vector3(a.x + b.x, a.y + b.y, a.z + b.z)
  }

  function Sub(a: Vector3, b: Vector3): Vector3 {
    Vector3(a.x - b.x, a.y - b.y, a.z - b.z)
  }

  function Neg(a: Vector3): Vector3 {
    Vector3(-a.x, -a.y, -a.z)
  }

  function Scale(a: Vector3, k: real): Vector3 {
    Vector3(a.x * k, a.y * k, a.z * k)
  }

  function Dot(a: Vector3, b: Vector3): real {
    a.x * b.x + a.y * b.y + a.z * b.z
  }

  function Cross(a: Vector3, b: Vector3): Vector3 {
    Vector3(a.y * b.z - a.z * b.y, a.z * b.x - a.x * b.z, a.x * b.y - a.y * b.x)
  }

  /** A square-root routine, passed in where the source calls `Math.Sqrt`. */
  type SqrtFn = real -> real

  /** The idealisation of `Math.Sqrt`: on every non-negative argument it returns
      the non-negative root exactly. */
  ghost predicate ExactSqrt(sqrt: SqrtFn) {
    forall x: real :: 0.0 <= x ==> 0.0 <= sqrt(x) && sqrt(x) * sqrt(x) == x
  }

  function Length(sqrt: SqrtFn, v: Vector3): real {
    sqrt(Dot(v, v))
  }

  /** `Vector3.Normalized()`: the vector divided by its length.  The source
      leaves the zero vector undefined (it yields NaN); here it maps to itself. */
  function Normalized(sqrt: SqrtFn, v: Vector3): (r: Vector3)
    ensures v == Zero ==> r == Zero
    ensures ExactSqrt(sqrt) && v != Zero ==>
              Dot(r, r) == 1.0 && Cross(r, v) == Zero && Dot(r, v) > 0.0
  {
    var len := sqrt(Dot(v, v));
    if len == 0.0 then
      ZeroLength(sqrt, v);
      v
    else
      UnitScale(sqrt, v, len, 1.0 / len);
      Scale(v, 1.0 / len)
  }

  /** Under an exact root only the zero vector has length zero. */
  lemma ZeroLength(sqrt: SqrtFn, v: Vector3)
    requires sqrt(Dot(v, v)) == 0.0
    ensures ExactSqrt(sqrt) ==> v == Zero
  {
    if ExactSqrt(sqrt) {
      DotSelfNonNegative(v);
      assert sqrt(Dot(v, v)) * sqrt(Dot(v, v)) == Dot(v, v);
      DotSelfPositive(v);
    }
  }

  /** Dividing a non-zero vector by its exact length gives a unit vector
      parallel to it and pointing its way. */
  lemma UnitScale(sqrt: SqrtFn, v: Vector3, len: real, k: real)
    requires len == sqrt(Dot(v, v)) && len != 0.0 && k == 1.0 / len
    ensures ExactSqrt(sqrt) && v != Zero ==>
              Dot(Scale(v, k), Scale(v, k)) == 1.0 && Cross(Scale(v, k), v) == Zero
              && Dot(Scale(v, k), v) > 0.0
  {
    if ExactSqrt(sqrt) && v != Zero {
      DotSelfNonNegative(v);
      assert len * len == Dot(v, v) && len >= 0.0;
      var r := Scale(v, k);
      ScaledDots(v.x, v.y, v.z, k, Dot(v, v), Dot(r, r), Dot(r, v));
      InverseSquare(len, k, Dot(v, v));
      assert Cross(r, v) == Zero by { ParallelCross(v.x, v.y, v.z, k); }
    }
  }

  lemma ScaledDots(x: real, y: real, z: real, k: real, dd: real, rr: real, rv: real)
    requires dd == x * x + y * y + z * z
    requires rr == (x * k) * (x * k) + (y * k) * (y * k) + (z * k) * (z * k)
    requires rv == (x * k) * x + (y * k) * y + (z * k) * z
    ensures rr == k * k * dd && rv == k * dd
  {
  }

  lemma InverseSquare(len: real, k: real, dd: real)
    requires len > 0.0 && k == 1.0 / len && dd == len * len
    ensures k * k * dd == 1.0 && k * dd > 0.0
  {
    assert k * len == 1.0;
    calc {
      k * k * dd;
      (k * len) * (k * len);
      1.0;
    }
    calc {
      k * dd;
      (k * len) * len;
      len;
    }
  }

  lemma ParallelCross(x: real, y: real, z: real, k: real)
    ensures (y * k) * z - (z * k) * y == 0.0
    ensures (z * k) * x - (x * k) * z == 0.0
    ensures (x * k) * y - (y * k) * x == 0.0
  {
  }

  /** Normalising a vector of positive squared length gives the unit vector
      pointing its way. */
  lemma NormalizedIsUnit(sqrt: SqrtFn, v: Vector3)
    requires ExactSqrt(sqrt) && Dot(v, v) > 0.0
    ensures var r := Normalized(sqrt, v);
            Dot(r, r) == 1.0 && Cross(r, v) == Zero && Dot(r, v) > 0.0
  {
    DotSelfPositive(v);
  }

  lemma DotSelfNonNegative(v: Vector3)
    ensures Dot(v, v) >= 0.0
  {
  }

  /** Only the zero vector has zero squared length. */
  lemma DotSelfPositive(v: Vector3)
    ensures Dot(v, v) > 0.0 <==> v != Zero
  {
    if v != Zero {
      assert v.x * v.x > 0.0 || v.y * v.y > 0.0 || v.z * v.z > 0.0;
      assert v.x * v.x >= 0.0 && v.y * v.y >= 0.0 && v.z * v.z >= 0.0;
      calc {
        Dot(v, v);
        v.x * v.x + v.y * v.y + v.z * v.z;
        > 0.0;
      }
    }
  }

  lemma SquarePositive(a: real)
    requires a != 0.0
    ensures a * a > 0.0
  {
  }

  /** An exact square root of a positive number is positive. */
  lemma SqrtPositive(sqrt: SqrtFn, x: real)
    requires ExactSqrt(sqrt) && x > 0.0
    ensures sqrt(x) > 0.0 && sqrt(x) * sqrt(x) == x
  {
  }

  /** Under an exact square root, a length is the non-negative root of the
      squared length. */
  lemma LengthSquared(sqrt: SqrtFn, v: Vector3)
    requires ExactSqrt(sqrt)
    ensures Length(sqrt, v) >= 0.0
    ensures Length(sqrt, v) * Length(sqrt, v) == Dot(v, v)
  {
    DotSelfNonNegative(v);
  }

  /** Lagrange's identity and its corollary, the Cauchy-Schwarz inequality. */
  lemma CauchySchwarz(a: Vector3, b: Vector3)
    ensures Dot(a, b) * Dot(a, b) + Dot(Cross(a, b), Cross(a, b)) == Dot(a, a) * Dot(b, b)
    ensures Dot(a, b) * Dot(a, b) <= Dot(a, a) * Dot(b, b)
  {
    DotSelfNonNegative(Cross(a, b));
  }

  /** The cross product is perpendicular to both of its factors. */
  lemma CrossPerpendicular(a: Vector3, b: Vector3)
    ensures Dot(a, Cross(a, b)) == 0.0 && Dot(b, Cross(a, b)) == 0.0
  {
    var p := Cross(a, b);
    PerpendicularScalar(a.x, a.y, a.z, b.x, b.y, b.z, p.x, p.y, p.z);
  }

  lemma PerpendicularScalar(a1: real, a2: real, a3: real, b1: real, b2: real, b3: real,
                            p1: real, p2: real, p3: real)
    requires p1 == a2 * b3 - a3 * b2 && p2 == a3 * b1 - a1 * b3 && p3 == a1 * b2 - a2 * b1
    ensures a1 * p1 + a2 * p2 + a3 * p3 == 0.0
    ensures b1 * p1 + b2 * p2 + b3 * p3 == 0.0
  {
  }

  /** The scalar triple product is invariant under cyclic rotation and changes
      sign when two factors swap. */
  lemma TripleProduct(a: Vector3, b: Vector3, c: Vector3)
    ensures Dot(a, Cross(b, c)) == Dot(b, Cross(c, a))
    ensures Dot(a, Cross(b, c)) == Dot(c, Cross(a, b))
    ensures Dot(a, Cross(c, b)) == -Dot(a, Cross(b, c))
  {
    assert Dot(a, Cross(b, c)) == Dot(b, Cross(c, a)) by { TripleRotate(a, b, c); }
    assert Dot(b, Cross(c, a)) == Dot(c, Cross(a, b)) by { TripleRotate(b, c, a); }
    assert Dot(a, Cross(c, b)) == -Dot(a, Cross(b, c)) by { TripleSwap(a, b, c); }
  }

  lemma TripleRotate(a: Vector3, b: Vector3, c: Vector3)
    ensures Dot(a, Cross(b, c)) == Dot(b, Cross(c, a))
  {
    var p := Cross(b, c);
    var q := Cross(c, a);
    RotateTriple(a.x, a.y, a.z, b.x, b.y, b.z, c.x, c.y, c.z, p.x, p.y, p.z, q.x, q.y, q.z);
  }

  lemma TripleSwap(a: Vector3, b: Vector3, c: Vector3)
    ensures Dot(a, Cross(c, b)) == -Dot(a, Cross(b, c))
  {
    var p := Cross(b, c);
    var n := Cross(c, b);
    NegatedDot(a.x, a.y, a.z, p.x, p.y, p.z, n.x, n.y, n.z);
  }

  /** With `p = b x c` and `q = c x a`: `a . p == b . q`. */
  lemma RotateTriple(a1: real, a2: real, a3: real, b1: real, b2: real, b3: real,
                     c1: real, c2: real, c3: real,
                     p1: real, p2: real, p3: real, q1: real, q2: real, q3: real)
    requires p1 == b2 * c3 - b3 * c2 && p2 == b3 * c1 - b1 * c3 && p3 == b1 * c2 - b2 * c1
    requires q1 == c2 * a3 - c3 * a2 && q2 == c3 * a1 - c1 * a3 && q3 == c1 * a2 - c2 * a1
    ensures a1 * p1 + a2 * p2 + a3 * p3 == b1 * q1 + b2 * q2 + b3 * q3
  {
  }

  lemma NegatedDot(a1: real, a2: real, a3: real, p1: real, p2: real, p3: real,
                   n1: real, n2: real, n3: real)
    requires n1 == -p1 && n2 == -p2 && n3 == -p3
    ensures a1 * n1 + a2 * n2 + a3 * n3 == -(a1 * p1 + a2 * p2 + a3 * p3)
  {
  }
}
