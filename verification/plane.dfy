/** `Plane`: an infinite plane through a centre point, facing along a stored
    unit normal (src/scene/primitives/Plane.cs). */
module Planes {
  import opened Wrappers
  import opened Vectors
  import opened Geometry

  datatype Plane = Plane(center: Vector3, normal: Vector3, material: Material)

  /** The constructor stores the normalised normal: a unit vector pointing the
      same way as the one given. */
  function MakePlane(sqrt: SqrtFn, center: Vector3, normal: Vector3, material: Material): (p: Plane)
    ensures p.center == center && p.material == material
    ensures ExactSqrt(sqrt) && normal != Zero ==>
              Dot(p.normal, p.normal) == 1.0 && Cross(p.normal, normal) == Zero && Dot(p.normal, normal) > 0.0
  {
    Plane(center, Normalized(sqrt, normal), material)
  }

  /** `q` lies on the plane: its offset from the centre is orthogonal to the normal. */
  predicate OnPlane(p: Plane, q: Vector3) {
    Dot(Sub(q, p.center), p.normal) == 0.0
  }

  /** How far along the normal the point of the ray at parameter `s` sits. */
  lemma HeightAlongRay(p: Plane, ray: Ray, s: real)
    ensures Dot(Sub(PointAt(ray, s), p.center), p.normal)
            == Dot(ray.origin, p.normal) - Dot(p.center, p.normal) + s * Dot(ray.direction, p.normal)
  {
  }

  /** The parameter `t = -(O.n + d) / (D.n)` with `d = -(C.n)`: the one and only
      point where a non-parallel ray's line meets the plane. */
  function HitParameter(p: Plane, ray: Ray): (t: real)
    requires Dot(ray.direction, p.normal) != 0.0
    ensures OnPlane(p, PointAt(ray, t))
    ensures forall s :: OnPlane(p, PointAt(ray, s)) ==> s == t
  {
    var d := -Dot(p.center, p.normal);
    var t := -(Dot(ray.origin, p.normal) + d) / Dot(ray.direction, p.normal);
    PlaneRoot(p, ray, t);
    t
  }

  lemma PlaneRoot(p: Plane, ray: Ray, t: real)
    requires Dot(ray.direction, p.normal) != 0.0
    requires t == -(Dot(ray.origin, p.normal) + -Dot(p.center, p.normal)) / Dot(ray.direction, p.normal)
    ensures OnPlane(p, PointAt(ray, t))
    ensures forall s :: OnPlane(p, PointAt(ray, s)) ==> s == t
  {
    var k := Dot(ray.origin, p.normal) - Dot(p.center, p.normal);
    var dn := Dot(ray.direction, p.normal);
    assert k + t * dn == 0.0 by { DivideBack(k, dn, t); }
    HeightAlongRay(p, ray, t);
    forall s | OnPlane(p, PointAt(ray, s))
      ensures s == t
    {
      HeightAlongRay(p, ray, s);
      LinearRoot(k, dn, t, s);
    }
  }

  lemma DivideBack(k: real, dn: real, t: real)
    requires dn != 0.0 && t == -k / dn
    ensures k + t * dn == 0.0
  {
  }

  /** A linear equation with a non-zero slope has one root. */
  lemma LinearRoot(k: real, dn: real, t: real, s: real)
    requires dn != 0.0 && k + t * dn == 0.0 && k + s * dn == 0.0
    ensures s == t
  {
    assert (s - t) * dn == 0.0;
  }

  /** `Plane.Intersect`.  A ray parallel to the plane makes the source divide
      by zero, so the model takes `D.n != 0` as a precondition.  A hit exists
      exactly when the ray (parameters `t >= 0`, so an origin on the plane
      counts) meets the plane; the hit carries the stored normal whichever side
      the ray comes from, and the ray's own direction. */
  function Intersect(p: Plane, ray: Ray): (r: Option<RayHit>)
    requires Dot(ray.direction, p.normal) != 0.0
    ensures r.None? <==> forall s :: 0.0 <= s ==> !OnPlane(p, PointAt(ray, s))
    ensures r.Some? ==>
              && OnPlane(p, r.value.position)
              && r.value.position == PointAt(ray, HitParameter(p, ray))
              && 0.0 <= HitParameter(p, ray)
              && r.value.normal == p.normal
              && r.value.incident == ray.direction
              && r.value.material == p.material
  {
    var t := HitParameter(p, ray);
    if t < 0.0 then None
    else
      var position := PointAt(ray, t);
      Some(RayHit(position, p.normal, ray.direction, p.material))
  }
}
