/** The Moller-Trumbore ray/triangle test shared by `Triangle.Intersect`
    (src/scene/primitives/Triangle.cs) and `ObjModel.IntersectTriangle`
    (src/extensions/ObjModel.cs).  Both reject a near-zero determinant
    (`a > -1e-5 && a < 1e-5` in the one, `|det| < 1e-5` in the other, the same
    condition), a `u` outside `[0, 1]`, a `v < 0` or `u + v > 1`, and a
    `t <= 1e-5`, and compute `u`, `v`, `t` as the same real numbers. */
module MollerTrumbore {
  import opened Wrappers
  import opened Vectors
  import opened Geometry

  /** The threshold `0.00001` used for both the determinant and `t`. */
  const Epsilon: real := 0.00001

  /** The ray parameter and the barycentric coordinates of a hit. */
  datatype Barycentric = Barycentric(t: real, u: real, v: real)

  /** `e1 . (D x e2)`, with the edges `e1 = v1 - v0` and `e2 = v2 - v0`. */
  function Determinant(ray: Ray, v0: Vector3, v1: Vector3, v2: Vector3): real {
    Dot(Sub(v1, v0), Cross(ray.direction, Sub(v2, v0)))
  }

  /** The ray is parallel to the triangle's plane, or nearly so. */
  predicate NearParallel(det: real) {
    -Epsilon < det < Epsilon
  }

  /** The coordinates lie in the closed triangle and the hit is past the
      self-intersection threshold. */
  predicate Accepted(b: Barycentric) {
    0.0 <= b.u <= 1.0 && 0.0 <= b.v && b.u + b.v <= 1.0 && b.t > Epsilon
  }

  /** `v0 + u e1 + v e2`: the point of the triangle's plane with barycentric
      coordinates `(1 - u - v, u, v)`. */
  function SurfacePoint(v0: Vector3, v1: Vector3, v2: Vector3, u: real, v: real): Vector3 {
    Add(v0, Add(Scale(Sub(v1, v0), u), Scale(Sub(v2, v0), v)))
  }

  /** Cramer's rule for `u e1 + v e2 - t D = s`, multiplied through by the
      determinant `e1 . (D x e2)`: the `x` component. */
  lemma CramerX(e1: Vector3, e2: Vector3, d: Vector3, s: Vector3)
    ensures s.x * Dot(e1, Cross(d, e2))
            == e1.x * Dot(s, Cross(d, e2)) + e2.x * Dot(d, Cross(s, e1)) - d.x * Dot(e2, Cross(s, e1))
  {
  }

  /** The `y` component of Cramer's rule. */
  lemma CramerY(e1: Vector3, e2: Vector3, d: Vector3, s: Vector3)
    ensures s.y * Dot(e1, Cross(d, e2))
            == e1.y * Dot(s, Cross(d, e2)) + e2.y * Dot(d, Cross(s, e1)) - d.y * Dot(e2, Cross(s, e1))
  {
  }

  /** The `z` component of Cramer's rule. */
  lemma CramerZ(e1: Vector3, e2: Vector3, d: Vector3, s: Vector3)
    ensures s.z * Dot(e1, Cross(d, e2))
            == e1.z * Dot(s, Cross(d, e2)) + e2.z * Dot(d, Cross(s, e1)) - d.z * Dot(e2, Cross(s, e1))
  {
  }

  /** Dividing one component of Cramer's identity by the determinant. */
  lemma Divide(det: real, f: real, sc: real, ac: real, bc: real, dc: real,
               sp: real, dq: real, bq: real, u: real, v: real, t: real)
    requires det != 0.0 && f == 1.0 / det
    requires sc * det == ac * sp + bc * dq - dc * bq
    requires u == f * sp && v == f * dq && t == f * bq
    ensures sc == ac * u + bc * v - dc * t
  {
    assert f * det == 1.0;
    calc {
      ac * u + bc * v - dc * t;
      f * (ac * sp + bc * dq - dc * bq);
      f * (sc * det);
      sc * (f * det);
      sc;
    }
  }

  /** With `f = 1 / det`, Cramer's coordinates satisfy
      `O + t D == v0 + u e1 + v e2`. */
  lemma SolvedPoint(ray: Ray, v0: Vector3, v1: Vector3, v2: Vector3, f: real, t: real, u: real, v: real)
    requires Determinant(ray, v0, v1, v2) != 0.0
    requires f == 1.0 / Determinant(ray, v0, v1, v2)
    requires u == f * Dot(Sub(ray.origin, v0), Cross(ray.direction, Sub(v2, v0)))
    requires v == f * Dot(ray.direction, Cross(Sub(ray.origin, v0), Sub(v1, v0)))
    requires t == f * Dot(Sub(v2, v0), Cross(Sub(ray.origin, v0), Sub(v1, v0)))
    ensures PointAt(ray, t) == SurfacePoint(v0, v1, v2, u, v)
  {
    var s := Sub(ray.origin, v0);
    var e1 := Sub(v1, v0);
    var e2 := Sub(v2, v0);
    var d := ray.direction;
    var c := Sub(Add(Scale(e1, u), Scale(e2, v)), Scale(d, t));
    assert s == c by {
      SolvedX(e1, e2, d, s, f, u, v, t);
      SolvedY(e1, e2, d, s, f, u, v, t);
      SolvedZ(e1, e2, d, s, f, u, v, t);
    }
  }

  /** The origin, seen from `v0`, is `u e1 + v e2 - t D`: the `x` component. */
  lemma SolvedX(e1: Vector3, e2: Vector3, d: Vector3, s: Vector3, f: real, u: real, v: real, t: real)
    requires Dot(e1, Cross(d, e2)) != 0.0
    requires f == 1.0 / Dot(e1, Cross(d, e2))
    requires u == f * Dot(s, Cross(d, e2))
    requires v == f * Dot(d, Cross(s, e1))
    requires t == f * Dot(e2, Cross(s, e1))
    ensures s.x == e1.x * u + e2.x * v - d.x * t
  {
    CramerX(e1, e2, d, s);
    Divide(Dot(e1, Cross(d, e2)), f, s.x, e1.x, e2.x, d.x,
           Dot(s, Cross(d, e2)), Dot(d, Cross(s, e1)), Dot(e2, Cross(s, e1)), u, v, t);
  }

  /** The `y` component of the solved point. */
  lemma SolvedY(e1: Vector3, e2: Vector3, d: Vector3, s: Vector3, f: real, u: real, v: real, t: real)
    requires Dot(e1, Cross(d, e2)) != 0.0
    requires f == 1.0 / Dot(e1, Cross(d, e2))
    requires u == f * Dot(s, Cross(d, e2))
    requires v == f * Dot(d, Cross(s, e1))
    requires t == f * Dot(e2, Cross(s, e1))
    ensures s.y == e1.y * u + e2.y * v - d.y * t
  {
    CramerY(e1, e2, d, s);
    Divide(Dot(e1, Cross(d, e2)), f, s.y, e1.y, e2.y, d.y,
           Dot(s, Cross(d, e2)), Dot(d, Cross(s, e1)), Dot(e2, Cross(s, e1)), u, v, t);
  }

  /** The `z` component of the solved point. */
  lemma SolvedZ(e1: Vector3, e2: Vector3, d: Vector3, s: Vector3, f: real, u: real, v: real, t: real)
    requires Dot(e1, Cross(d, e2)) != 0.0
    requires f == 1.0 / Dot(e1, Cross(d, e2))
    requires u == f * Dot(s, Cross(d, e2))
    requires v == f * Dot(d, Cross(s, e1))
    requires t == f * Dot(e2, Cross(s, e1))
    ensures s.z == e1.z * u + e2.z * v - d.z * t
  {
    CramerZ(e1, e2, d, s);
    Divide(Dot(e1, Cross(d, e2)), f, s.z, e1.z, e2.z, d.z,
           Dot(s, Cross(d, e2)), Dot(d, Cross(s, e1)), Dot(e2, Cross(s, e1)), u, v, t);
  }

  /** The coordinates Cramer's rule assigns to the ray and the triangle's
      plane, as the source computes them: with `f = 1 / det` and `s = O - v0`,
      `u = f (s . p)`, `v = f (D . q)` and `t = f (e2 . q)`, where
      `p = D x e2` and `q = s x e1`. */
  function Candidate(ray: Ray, v0: Vector3, v1: Vector3, v2: Vector3): Barycentric
    requires Determinant(ray, v0, v1, v2) != 0.0
  {
    var e1 := Sub(v1, v0);
    var e2 := Sub(v2, v0);
    var s := Sub(ray.origin, v0);
    var p := Cross(ray.direction, e2);
    var q := Cross(s, e1);
    var f := 1.0 / Dot(e1, p);
    Barycentric(f * Dot(e2, q), f * Dot(s, p), f * Dot(ray.direction, q))
  }

  /** Off a zero determinant, Cramer's coordinates name a point on both the
      ray and the triangle's plane. */
  lemma CandidateSound(ray: Ray, v0: Vector3, v1: Vector3, v2: Vector3)
    requires Determinant(ray, v0, v1, v2) != 0.0
    ensures var b := Candidate(ray, v0, v1, v2);
            PointAt(ray, b.t) == SurfacePoint(v0, v1, v2, b.u, b.v)
  {
    var b := Candidate(ray, v0, v1, v2);
    SolvedPoint(ray, v0, v1, v2, 1.0 / Determinant(ray, v0, v1, v2), b.t, b.u, b.v);
  }

  /** The test itself: `None` where the source returns `null` before building
      a hit, in the order it checks (determinant, then `u`, then `v`, then
      `t`), and the accepted `(t, u, v)` otherwise.  A returned triple names a
      point that is both on the ray and inside the triangle. */
  function Solve(ray: Ray, v0: Vector3, v1: Vector3, v2: Vector3): (r: Option<Barycentric>)
    ensures NearParallel(Determinant(ray, v0, v1, v2)) ==> r.None?
    ensures r.Some? ==>
              Accepted(r.value)
              && PointAt(ray, r.value.t) == SurfacePoint(v0, v1, v2, r.value.u, r.value.v)
  {
    var det := Determinant(ray, v0, v1, v2);
    if -Epsilon < det < Epsilon then None
    else
      var b := Candidate(ray, v0, v1, v2);
      if b.u < 0.0 || b.u > 1.0 then None
      else if b.v < 0.0 || b.u + b.v > 1.0 then None
      else if b.t > Epsilon then
        CandidateSound(ray, v0, v1, v2);
        Some(b)
      else None
  }

  /** Completeness: off a near-parallel determinant, a point both on the ray
      and on the triangle's plane is reported exactly when its coordinates
      pass the source's tests, and with those coordinates. */
  lemma SolveComplete(ray: Ray, v0: Vector3, v1: Vector3, v2: Vector3, b: Barycentric)
    requires !NearParallel(Determinant(ray, v0, v1, v2))
    requires PointAt(ray, b.t) == SurfacePoint(v0, v1, v2, b.u, b.v)
    ensures Solve(ray, v0, v1, v2) == (if Accepted(b) then Some(b) else None)
  {
    CandidateUnique(ray, v0, v1, v2, b);
  }

  /** Off a zero determinant the ray meets the triangle's plane in exactly one
      point, so Cramer's coordinates are the only ones naming a common point. */
  lemma CandidateUnique(ray: Ray, v0: Vector3, v1: Vector3, v2: Vector3, b: Barycentric)
    requires Determinant(ray, v0, v1, v2) != 0.0
    requires PointAt(ray, b.t) == SurfacePoint(v0, v1, v2, b.u, b.v)
    ensures Candidate(ray, v0, v1, v2) == b
  {
    var d := ray.direction;
    var e1 := Sub(v1, v0);
    var e2 := Sub(v2, v0);
    assert Sub(ray.origin, v0) == Combination(e1, e2, d, b.u, b.v, b.t);
    Recover(e1, e2, d, b.u, b.v, b.t);
  }

  /** Dividing the three coordinates of `CoordinateU`, `CoordinateV` and
      `CoordinateT` by a non-zero determinant recovers `u`, `v` and `t`. */
  lemma Recover(e1: Vector3, e2: Vector3, d: Vector3, u: real, v: real, t: real)
    requires Dot(e1, Cross(d, e2)) != 0.0
    ensures var f := 1.0 / Dot(e1, Cross(d, e2));
            var c := Combination(e1, e2, d, u, v, t);
            f * Dot(c, Cross(d, e2)) == u && f * Dot(d, Cross(c, e1)) == v
            && f * Dot(e2, Cross(c, e1)) == t
  {
    RecoverU(e1, e2, d, u, v, t);
    RecoverV(e1, e2, d, u, v, t);
    RecoverT(e1, e2, d, u, v, t);
  }

  lemma RecoverU(e1: Vector3, e2: Vector3, d: Vector3, u: real, v: real, t: real)
    requires Dot(e1, Cross(d, e2)) != 0.0
    ensures (1.0 / Dot(e1, Cross(d, e2))) * Dot(Combination(e1, e2, d, u, v, t), Cross(d, e2)) == u
  {
    CoordinateU(e1, e2, d, u, v, t);
    Cancel(Dot(e1, Cross(d, e2)), 1.0 / Dot(e1, Cross(d, e2)),
           Dot(Combination(e1, e2, d, u, v, t), Cross(d, e2)), u);
  }

  lemma RecoverV(e1: Vector3, e2: Vector3, d: Vector3, u: real, v: real, t: real)
    requires Dot(e1, Cross(d, e2)) != 0.0
    ensures (1.0 / Dot(e1, Cross(d, e2))) * Dot(d, Cross(Combination(e1, e2, d, u, v, t), e1)) == v
  {
    CoordinateV(e1, e2, d, u, v, t);
    Cancel(Dot(e1, Cross(d, e2)), 1.0 / Dot(e1, Cross(d, e2)),
           Dot(d, Cross(Combination(e1, e2, d, u, v, t), e1)), v);
  }

  lemma RecoverT(e1: Vector3, e2: Vector3, d: Vector3, u: real, v: real, t: real)
    requires Dot(e1, Cross(d, e2)) != 0.0
    ensures (1.0 / Dot(e1, Cross(d, e2))) * Dot(e2, Cross(Combination(e1, e2, d, u, v, t), e1)) == t
  {
    CoordinateT(e1, e2, d, u, v, t);
    Cancel(Dot(e1, Cross(d, e2)), 1.0 / Dot(e1, Cross(d, e2)),
           Dot(e2, Cross(Combination(e1, e2, d, u, v, t), e1)), t);
  }

  lemma Cancel(det: real, f: real, x: real, k: real)
    requires det != 0.0 && f == 1.0 / det && x == k * det
    ensures f * x == k
  {
    assert f * det == 1.0;
    calc {
      f * x;
      f * (k * det);
      k * (f * det);
      k;
    }
  }

  /** `u e1 + v e2 - t D`. */
  function Combination(e1: Vector3, e2: Vector3, d: Vector3, u: real, v: real, t: real): Vector3 {
    Sub(Add(Scale(e1, u), Scale(e2, v)), Scale(d, t))
  }

  /** Cramer's rule read backwards, first coordinate: `s . (D x e2) == u det`
      for `s = u e1 + v e2 - t D`. */
  lemma CoordinateU(e1: Vector3, e2: Vector3, d: Vector3, u: real, v: real, t: real)
    ensures Dot(Combination(e1, e2, d, u, v, t), Cross(d, e2)) == u * Dot(e1, Cross(d, e2))
  {
  }

  /** Second coordinate: `D . (s x e1) == v det`. */
  lemma CoordinateV(e1: Vector3, e2: Vector3, d: Vector3, u: real, v: real, t: real)
    ensures Dot(d, Cross(Combination(e1, e2, d, u, v, t), e1)) == v * Dot(e1, Cross(d, e2))
  {
    var det := Dot(e1, Cross(d, e2));
    CrossCombination(e1, e2, d, u, v, t, e1);
    DotCombination(Cross(e1, e1), Cross(e2, e1), Cross(d, e1), u, v, t, d);
    CrossPerpendicular(e1, e1);
    CrossPerpendicular(d, e1);
    TripleRotate(e1, d, e2);
    Weighted(u, v, t, Dot(d, Cross(e1, e1)), Dot(d, Cross(e2, e1)), Dot(d, Cross(d, e1)), 0.0, det, 0.0);
  }

  /** Third coordinate: `e2 . (s x e1) == t det`. */
  lemma CoordinateT(e1: Vector3, e2: Vector3, d: Vector3, u: real, v: real, t: real)
    ensures Dot(e2, Cross(Combination(e1, e2, d, u, v, t), e1)) == t * Dot(e1, Cross(d, e2))
  {
    var det := Dot(e1, Cross(d, e2));
    CrossCombination(e1, e2, d, u, v, t, e1);
    DotCombination(Cross(e1, e1), Cross(e2, e1), Cross(d, e1), u, v, t, e2);
    CrossPerpendicular(e1, e1);
    CrossPerpendicular(e2, e1);
    TripleProduct(e1, d, e2);
    TripleSwap(e2, e1, d);
    Weighted(u, v, t, Dot(e2, Cross(e1, e1)), Dot(e2, Cross(e2, e1)), Dot(e2, Cross(d, e1)), 0.0, 0.0, -det);
  }

  /** Substituting equals in a weighted sum `u X + v Y - t Z`. */
  lemma Weighted(u: real, v: real, t: real, x: real, y: real, z: real, x': real, y': real, z': real)
    requires x == x' && y == y' && z == z'
    ensures u * x + v * y - t * z == u * x' + v * y' - t * z'
  {
  }

  /** The cross product distributes over a combination. */
  lemma CrossCombination(a: Vector3, b: Vector3, c: Vector3, u: real, v: real, t: real, w: Vector3)
    ensures Cross(Combination(a, b, c, u, v, t), w)
            == Combination(Cross(a, w), Cross(b, w), Cross(c, w), u, v, t)
  {
    CrossCombinationX(a, b, c, u, v, t, w);
    CrossCombinationY(a, b, c, u, v, t, w);
    CrossCombinationZ(a, b, c, u, v, t, w);
  }

  /** The `x` component of `CrossCombination`. */
  lemma CrossCombinationX(a: Vector3, b: Vector3, c: Vector3, u: real, v: real, t: real, w: Vector3)
    ensures Cross(Combination(a, b, c, u, v, t), w).x
            == Combination(Cross(a, w), Cross(b, w), Cross(c, w), u, v, t).x
  {
    var m := Combination(a, b, c, u, v, t);
    LinearMinor(m.y, m.z, Cross(a, w).x, Cross(b, w).x, Cross(c, w).x, a.y, a.z, b.y, b.z, c.y, c.z, u, v, t, w.y, w.z);
  }

  /** The `y` component of `CrossCombination`. */
  lemma CrossCombinationY(a: Vector3, b: Vector3, c: Vector3, u: real, v: real, t: real, w: Vector3)
    ensures Cross(Combination(a, b, c, u, v, t), w).y
            == Combination(Cross(a, w), Cross(b, w), Cross(c, w), u, v, t).y
  {
    var m := Combination(a, b, c, u, v, t);
    LinearMinor(m.z, m.x, Cross(a, w).y, Cross(b, w).y, Cross(c, w).y, a.z, a.x, b.z, b.x, c.z, c.x, u, v, t, w.z, w.x);
  }

  /** The `z` component of `CrossCombination`. */
  lemma CrossCombinationZ(a: Vector3, b: Vector3, c: Vector3, u: real, v: real, t: real, w: Vector3)
    ensures Cross(Combination(a, b, c, u, v, t), w).z
            == Combination(Cross(a, w), Cross(b, w), Cross(c, w), u, v, t).z
  {
    var m := Combination(a, b, c, u, v, t);
    LinearMinor(m.x, m.y, Cross(a, w).z, Cross(b, w).z, Cross(c, w).z, a.x, a.y, b.x, b.y, c.x, c.y, u, v, t, w.x, w.y);
  }

  /** One component of `CrossCombination`, over the reals. */
  lemma LinearMinor(m1: real, m2: real, ka: real, kb: real, kc: real,
                    a1: real, a2: real, b1: real, b2: real, c1: real, c2: real,
                    u: real, v: real, t: real, w1: real, w2: real)
    requires m1 == a1 * u + b1 * v - c1 * t && m2 == a2 * u + b2 * v - c2 * t
    requires ka == a1 * w2 - a2 * w1 && kb == b1 * w2 - b2 * w1 && kc == c1 * w2 - c2 * w1
    ensures m1 * w2 - m2 * w1 == ka * u + kb * v - kc * t
  {
  }

  /** The dot product distributes over a combination. */
  lemma DotCombination(a: Vector3, b: Vector3, c: Vector3, u: real, v: real, t: real, w: Vector3)
    ensures Dot(w, Combination(a, b, c, u, v, t)) == u * Dot(w, a) + v * Dot(w, b) - t * Dot(w, c)
  {
  }
}
