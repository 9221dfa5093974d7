/** `Sphere` and its quadratic solver (src/scene/primitives/Sphere.cs). */
module Spheres {
  import opened Wrappers
  import opened Vectors
  import opened Geometry

  datatype Sphere = Sphere(center: Vector3, radius: real, material: Material)

  /** `q` is at distance `radius` from the centre (compared squared). */
  predicate OnSphere(s: Sphere, q: Vector3) {
    Dot(Sub(q, s.center), Sub(q, s.center)) == s.radius * s.radius
  }

  /** `p` lies inside or on the sphere. */
  predicate WithinSphere(s: Sphere, p: Vector3) {
    Dot(Sub(p, s.center), Sub(p, s.center)) <= s.radius * s.radius
  }

  /** `t` solves `a t^2 + b t + c = 0`. */
  predicate IsRoot(a: real, b: real, c: real, t: real) {
    a * t * t + b * t + c == 0.0
  }

  function Discriminant(a: real, b: real, c: real): real {
    b * b - 4.0 * a * c
  }

  /** The outcome of `solveQuadratic`: its boolean result and the final values
      of its two `ref` parameters. */
  datatype Roots = Roots(found: bool, t0: real, t1: real)

  /** A zero discriminant gives the double root `-b / 2a`. */
  lemma DoubleRoot(a: real, b: real, c: real)
    requires a != 0.0 && Discriminant(a, b, c) == 0.0
    ensures var root := -0.5 * b / a;
            a * (root + root) == -b && a * (root * root) == c
  {
    var root := -0.5 * b / a;
    assert a * root == -0.5 * b;
    assert a * (a * (root * root)) == (a * root) * (a * root);
    assert (a * root) * (a * root) == 0.25 * (b * b);
    assert 0.25 * (b * b) == a * c;
  }

  /** The sign-aware `q`: `-(b + sqrt d) / 2` when `b > 0`, else `-(b - sqrt d) / 2`. */
  function StableQ(b: real, sd: real): real {
    if b > 0.0 then -0.5 * (b + sd) else -0.5 * (b - sd)
  }

  /** `q * q + b * q + a * c == 0` whichever sign `q` takes. */
  lemma StableQIsRootOfScaled(a: real, b: real, c: real, sd: real)
    requires sd * sd == Discriminant(a, b, c)
    ensures var q := StableQ(b, sd); q * q + b * q + a * c == 0.0
  {
  }

  /** With a positive discriminant, `q` is non-zero and `q/a`, `c/q` satisfy
      Vieta's formulas. */
  lemma StableRoots(a: real, b: real, c: real, sd: real)
    requires a != 0.0 && sd > 0.0 && sd * sd == Discriminant(a, b, c)
    ensures StableQ(b, sd) != 0.0
    ensures var q := StableQ(b, sd);
            a * (q / a + c / q) == -b && a * ((q / a) * (c / q)) == c
  {
    var q := StableQ(b, sd);
    StableQIsRootOfScaled(a, b, c, sd);
    assert q != 0.0;
    var r0 := q / a;
    var r1 := c / q;
    assert a * r0 == q;
    assert q * r1 == c;
    assert a * (r0 * r1) == (a * r0) * r1;
    assert q * (a * r1) == a * c;
    assert q * (a * r1) == q * (-q - b);
    assert a * r1 == -q - b;
  }

  /** `solveQuadratic(a, b, c, ref t0, ref t1)`.  It fails exactly when the
      discriminant is negative and then leaves `t0`, `t1` untouched; otherwise
      the two values it stores are the roots of the quadratic, as Vieta's
      formulas say (their sum is `-b/a` and their product `c/a`), with a
      double root when the discriminant is zero.  With a positive
      discriminant the second root comes from `c/q`, and `q` is never zero. */
  function SolveQuadratic(sqrt: SqrtFn, a: real, b: real, c: real, t0: real, t1: real): (r: Roots)
    requires ExactSqrt(sqrt) && a != 0.0
    ensures r.found <==> Discriminant(a, b, c) >= 0.0
    ensures !r.found ==> r.t0 == t0 && r.t1 == t1
    ensures r.found ==> a * (r.t0 + r.t1) == -b && a * (r.t0 * r.t1) == c
    ensures Discriminant(a, b, c) == 0.0 ==> r.t0 == r.t1
  {
    var discriminant := b * b - 4.0 * a * c;
    if discriminant < 0.0 then
      Roots(false, t0, t1)
    else if discriminant == 0.0 then
      DoubleRoot(a, b, c);
      var root := -0.5 * b / a;
      Roots(true, root, root)
    else
      DistinctRoots(sqrt, a, b, c)
  }

  /** The branch of `solveQuadratic` for a positive discriminant:
      `q = -(b +- sqrt d) / 2` with the sign of `b`, then `q / a` and `c / q`. */
  function DistinctRoots(sqrt: SqrtFn, a: real, b: real, c: real): (r: Roots)
    requires ExactSqrt(sqrt) && a != 0.0 && Discriminant(a, b, c) > 0.0
    ensures r.found && a * (r.t0 + r.t1) == -b && a * (r.t0 * r.t1) == c
  {
    var sd := sqrt(Discriminant(a, b, c));
    SqrtPositive(sqrt, Discriminant(a, b, c));
    StableRoots(a, b, c, sd);
    var q := StableQ(b, sd);
    Roots(true, q / a, c / q)
  }

  /** Vieta's formulas mean the quadratic factors through the two roots. */
  lemma Factorisation(a: real, b: real, c: real, t0: real, t1: real, t: real)
    requires a * (t0 + t1) == -b && a * (t0 * t1) == c
    ensures a * t * t + b * t + c == a * ((t - t0) * (t - t1))
  {
  }

  lemma ZeroProduct(x: real, y: real)
    requires x * y == 0.0
    ensures x == 0.0 || y == 0.0
  {
    if x != 0.0 {
      assert y == (x * y) / x;
    }
  }

  /** The quadratic has no real root when the discriminant is negative. */
  lemma NoRootBelowZero(a: real, b: real, c: real, t: real)
    requires a != 0.0 && Discriminant(a, b, c) < 0.0
    ensures !IsRoot(a, b, c, t)
  {
    var u := 2.0 * a * t + b;
    assert 4.0 * a * (a * t * t + b * t + c) == u * u - Discriminant(a, b, c);
    assert u * u >= 0.0;
    assert 4.0 * a * (a * t * t + b * t + c) != 0.0;
  }

  /** Two values related to the coefficients as `solveQuadratic` promises are
      all the roots there are. */
  lemma ReportedRootsAreAllRoots(a: real, b: real, c: real, r: Roots, t: real)
    requires a != 0.0
    requires r.found <==> Discriminant(a, b, c) >= 0.0
    requires r.found ==> a * (r.t0 + r.t1) == -b && a * (r.t0 * r.t1) == c
    ensures IsRoot(a, b, c, t) <==> r.found && (t == r.t0 || t == r.t1)
  {
    if r.found {
      Factorisation(a, b, c, r.t0, r.t1, t);
      if IsRoot(a, b, c, t) {
        ZeroProduct(a, (t - r.t0) * (t - r.t1));
        ZeroProduct(t - r.t0, t - r.t1);
      }
    } else {
      NoRootBelowZero(a, b, c, t);
    }
  }

  /** What `solveQuadratic` reports is all the roots there are. */
  lemma SolveQuadraticFindsAllRoots(sqrt: SqrtFn, a: real, b: real, c: real, t: real)
    requires ExactSqrt(sqrt) && a != 0.0
    ensures var r := SolveQuadratic(sqrt, a, b, c, 0.0, 0.0);
            IsRoot(a, b, c, t) <==> r.found && (t == r.t0 || t == r.t1)
  {
    ReportedRootsAreAllRoots(a, b, c, SolveQuadratic(sqrt, a, b, c, 0.0, 0.0), t);
  }

  /** The coefficients of `a t^2 + b t + c`. */
  datatype Quadratic = Quadratic(a: real, b: real, c: real)

  /** The quadratic `Sphere.Intersect` sets up, with `L = O - C`: `a = D.D`,
      `b = 2 D.L` and `c = L.L - r^2`. */
  function Coefficients(s: Sphere, ray: Ray): Quadratic {
    var L := Sub(ray.origin, s.center);
    Quadratic(Dot(ray.direction, ray.direction), 2.0 * Dot(ray.direction, L), Dot(L, L) - s.radius * s.radius)
  }

  /** The ray point at `t` is on the sphere exactly when `t` is a root of the
      quadratic set up for it. */
  lemma SphereEquation(s: Sphere, ray: Ray, t: real)
    ensures var q := Coefficients(s, ray);
            OnSphere(s, PointAt(ray, t)) <==> IsRoot(q.a, q.b, q.c, t)
  {
    var L := Sub(ray.origin, s.center);
    var p := Sub(PointAt(ray, t), s.center);
    assert Dot(ray.direction, ray.direction) * t * t + 2.0 * Dot(ray.direction, L) * t + Dot(L, L)
           == Dot(p, p);
  }

  /** The ray's quadratic evaluated at `t` is the squared distance of the ray
      point from the centre minus the squared radius. */
  lemma QuadraticValue(s: Sphere, ray: Ray, t: real)
    ensures var q := Coefficients(s, ray);
            var p := Sub(PointAt(ray, t), s.center);
            q.a * t * t + q.b * t + q.c == Dot(p, p) - s.radius * s.radius
  {
    var L := Sub(ray.origin, s.center);
    var p := Sub(PointAt(ray, t), s.center);
    assert Dot(ray.direction, ray.direction) * t * t + 2.0 * Dot(ray.direction, L) * t + Dot(L, L)
           == Dot(p, p);
  }

  /** With `a > 0`, a point where the quadratic is not positive bounds the
      discriminant from below by `(2 a t + b)^2`. */
  lemma DiscriminantBound(a: real, b: real, c: real, t: real, w: real, disc: real)
    requires a > 0.0 && a * t * t + b * t + c <= 0.0
    requires w == 2.0 * a * t + b && disc == b * b - 4.0 * a * c
    ensures disc >= w * w
  {
    var f := a * t * t + b * t + c;
    assert w * w == 4.0 * a * f + disc;
    assert a * f <= 0.0;
  }

  /** Under that bound the larger root `(-b + sqrt disc) / 2a` is a root at or
      beyond `t`. */
  lemma RootBeyond(a: real, b: real, c: real, t: real, w: real, disc: real, sd: real, root: real)
    requires a > 0.0 && disc == b * b - 4.0 * a * c && w == 2.0 * a * t + b && disc >= w * w
    requires sd >= 0.0 && sd * sd == disc && root == (-b + sd) / (2.0 * a)
    ensures root >= t && IsRoot(a, b, c, root)
  {
    RootDominates(sd, w);
    var m := 2.0 * a * root;
    assert m == sd - b;
    assert 2.0 * a * (root - t) >= 0.0;
    assert root - t == (2.0 * a * (root - t)) / (2.0 * a);
    LargerRoot(a, b, c, sd, m, root);
  }

  lemma LargerRoot(a: real, b: real, c: real, sd: real, m: real, root: real)
    requires a != 0.0 && sd * sd == b * b - 4.0 * a * c && m == 2.0 * a * root && m == sd - b
    ensures IsRoot(a, b, c, root)
  {
    assert 4.0 * a * (a * root * root + b * root + c) == m * m + 2.0 * b * m + 4.0 * a * c;
    assert m * m + 2.0 * b * m + 4.0 * a * c == sd * sd - b * b + 4.0 * a * c;
  }

  /** A non-negative number whose square is at least `w^2` is at least `w`. */
  lemma RootDominates(sd: real, w: real)
    requires sd >= 0.0 && sd * sd >= w * w
    ensures sd >= w
  {
    if w > 0.0 {
      var y := sd + w;
      var x := (sd - w) * y;
      assert x == sd * sd - w * w;
      assert sd - w == x / y;
    }
  }

  /** A ray that passes through a point inside or on the sphere, at a
      parameter `t >= 0`, meets the sphere: `Sphere.Intersect` reports a hit. */
  lemma ReachedFromInside(sqrt: SqrtFn, s: Sphere, ray: Ray, t: real)
    requires ExactSqrt(sqrt) && Dot(ray.direction, ray.direction) > 0.0 && t >= 0.0
    requires WithinSphere(s, PointAt(ray, t))
    ensures Intersect(sqrt, s, ray).Some?
  {
    var q := Coefficients(s, ray);
    QuadraticValue(s, ray, t);
    var root := RootAtOrBeyond(sqrt, q.a, q.b, q.c, t);
    SphereEquation(s, ray, root);
    assert OnSphere(s, PointAt(ray, root));
  }

  /** An upward parabola that is not positive at `t` has a root at or beyond
      `t`, namely its larger root. */
  lemma RootAtOrBeyond(sqrt: SqrtFn, a: real, b: real, c: real, t: real) returns (root: real)
    requires ExactSqrt(sqrt) && a > 0.0 && a * t * t + b * t + c <= 0.0
    ensures root >= t && IsRoot(a, b, c, root)
  {
    var w := 2.0 * a * t + b;
    var disc := Discriminant(a, b, c);
    DiscriminantBound(a, b, c, t, w, disc);
    var sd := sqrt(disc);
    root := (-b + sd) / (2.0 * a);
    RootBeyond(a, b, c, t, w, disc, sd, root);
  }

  /** The ray parameter chosen by `Sphere.Intersect`: after ordering the roots
      `t0 <= t1`, `t0` when it is not negative, else `t1`, else none.  It is
      the nearest point of the ray (`t >= 0`, so an origin on the surface
      counts) on the sphere, and there is none exactly when the ray misses. */
  function HitParameter(sqrt: SqrtFn, s: Sphere, ray: Ray): (r: Option<real>)
    requires ExactSqrt(sqrt) && Dot(ray.direction, ray.direction) > 0.0
    ensures r.Some? ==> 0.0 <= r.value && OnSphere(s, PointAt(ray, r.value))
    ensures r.Some? ==> forall t :: 0.0 <= t && OnSphere(s, PointAt(ray, t)) ==> r.value <= t
    ensures r.None? ==> forall t :: 0.0 <= t ==> !OnSphere(s, PointAt(ray, t))
  {
    var q := Coefficients(s, ray);
    var roots := SolveQuadratic(sqrt, q.a, q.b, q.c, 0.0, 0.0);
    assert forall t :: OnSphere(s, PointAt(ray, t)) <==> roots.found && (t == roots.t0 || t == roots.t1) by {
      forall t
        ensures OnSphere(s, PointAt(ray, t)) <==> roots.found && (t == roots.t0 || t == roots.t1)
      {
        assert OnSphere(s, PointAt(ray, t)) <==> IsRoot(q.a, q.b, q.c, t) by {
          SphereEquation(s, ray, t);
        }
        assert IsRoot(q.a, q.b, q.c, t) <==> roots.found && (t == roots.t0 || t == roots.t1) by {
          SolveQuadraticFindsAllRoots(sqrt, q.a, q.b, q.c, t);
        }
      }
    }
    if !roots.found then None
    else
      var lo := if roots.t0 > roots.t1 then roots.t1 else roots.t0;
      var hi := if roots.t0 > roots.t1 then roots.t0 else roots.t1;
      if lo < 0.0 then
        if hi < 0.0 then None else Some(hi)
      else Some(lo)
  }

  /** At a point on a sphere of non-zero radius, the normalised offset from
      the centre is the outward unit normal. */
  lemma OutwardNormal(sqrt: SqrtFn, s: Sphere, p: Vector3)
    requires ExactSqrt(sqrt) && OnSphere(s, p) && s.radius != 0.0
    ensures var out := Sub(p, s.center);
            var n := Normalized(sqrt, out);
            Dot(n, n) == 1.0 && Cross(n, out) == Zero && Dot(n, out) > 0.0
  {
    var out := Sub(p, s.center);
    calc {
      Dot(out, out);
      s.radius * s.radius;
      > { SquarePositive(s.radius); }
      0.0;
    }
    NormalizedIsUnit(sqrt, out);
  }

  /** `Sphere.Intersect`: a hit exists exactly when the ray meets the sphere;
      the hit point is the nearest such ray point, lies on the sphere and
      carries the ray's own direction.  For a sphere of non-zero radius the
      normal is the outward unit normal there. */
  function Intersect(sqrt: SqrtFn, s: Sphere, ray: Ray): (r: Option<RayHit>)
    requires ExactSqrt(sqrt) && Dot(ray.direction, ray.direction) > 0.0
    ensures r.None? <==> forall t :: 0.0 <= t ==> !OnSphere(s, PointAt(ray, t))
    ensures r.Some? ==>
              && HitParameter(sqrt, s, ray).Some?
              && r.value.position == PointAt(ray, HitParameter(sqrt, s, ray).value)
              && OnSphere(s, r.value.position)
              && r.value.incident == ray.direction
              && r.value.material == s.material
    ensures r.Some? && s.radius != 0.0 ==>
              var out := Sub(r.value.position, s.center);
              Dot(r.value.normal, r.value.normal) == 1.0
              && Cross(r.value.normal, out) == Zero && Dot(r.value.normal, out) > 0.0
  {
    match HitParameter(sqrt, s, ray)
    case None => None
    case Some(t) =>
      var hitPoint := PointAt(ray, t);
      var out := Sub(hitPoint, s.center);
      var normal := Normalized(sqrt, out);
      assert s.radius != 0.0 ==>
               Dot(normal, normal) == 1.0 && Cross(normal, out) == Zero && Dot(normal, out) > 0.0 by {
        if s.radius != 0.0 {
          OutwardNormal(sqrt, s, hitPoint);
        }
      }
      Some(RayHit(hitPoint, normal, ray.direction, s.material))
  }
}
