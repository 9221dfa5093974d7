/** `Triangle`: three vertices and a material (src/scene/primitives/Triangle.cs). */
module Triangles {
  import opened Wrappers
  import opened Vectors
  import opened Geometry
  import opened MollerTrumbore

  datatype Triangle = Triangle(v0: Vector3, v1: Vector3, v2: Vector3, material: Material)

  /** `e1 x e2`, the normal the source reports.  Its call to `Normalized()`
      discards the result, so the vector is neither unit nor re-oriented. */
  function FaceNormal(tri: Triangle): (n: Vector3)
    ensures Dot(Sub(tri.v1, tri.v0), n) == 0.0 && Dot(Sub(tri.v2, tri.v0), n) == 0.0
  {
    CrossPerpendicular(Sub(tri.v1, tri.v0), Sub(tri.v2, tri.v0));
    Cross(Sub(tri.v1, tri.v0), Sub(tri.v2, tri.v0))
  }

  /** `Triangle.Intersect`.  A hit exists exactly when the Moller-Trumbore
      test accepts; its position is then both on the ray, past the `1e-5`
      threshold, and inside the closed triangle, and it carries the raw face
      normal, the ray's own direction and the triangle's material. */
  function Intersect(tri: Triangle, ray: Ray): (r: Option<RayHit>)
    ensures r.None? <==> Solve(ray, tri.v0, tri.v1, tri.v2).None?
    ensures NearParallel(Determinant(ray, tri.v0, tri.v1, tri.v2)) ==> r.None?
    ensures r.Some? ==>
              var b := Solve(ray, tri.v0, tri.v1, tri.v2).value;
              && Accepted(b)
              && r.value.position == PointAt(ray, b.t)
              && r.value.position == SurfacePoint(tri.v0, tri.v1, tri.v2, b.u, b.v)
              && r.value.normal == Cross(Sub(tri.v1, tri.v0), Sub(tri.v2, tri.v0))
              && r.value.incident == ray.direction
              && r.value.material == tri.material
  {
    match Solve(ray, tri.v0, tri.v1, tri.v2)
    case None => None
    case Some(b) => Some(RayHit(PointAt(ray, b.t), FaceNormal(tri), ray.direction, tri.material))
  }

  /** `b` names a point of the closed triangle that the ray reaches past the
      threshold. */
  predicate OnTriangleAlongRay(tri: Triangle, ray: Ray, b: Barycentric) {
    Accepted(b) && PointAt(ray, b.t) == SurfacePoint(tri.v0, tri.v1, tri.v2, b.u, b.v)
  }

  /** Off a near-parallel determinant, the triangle reports a hit exactly when
      some point of the closed triangle lies on the ray past the threshold. */
  lemma IntersectComplete(tri: Triangle, ray: Ray)
    requires !NearParallel(Determinant(ray, tri.v0, tri.v1, tri.v2))
    ensures Intersect(tri, ray).Some? <==>
              exists b: Barycentric :: OnTriangleAlongRay(tri, ray, b)
  {
    if Intersect(tri, ray).Some? {
      assert OnTriangleAlongRay(tri, ray, Solve(ray, tri.v0, tri.v1, tri.v2).value);
    }
    if b: Barycentric :| OnTriangleAlongRay(tri, ray, b) {
      SolveComplete(ray, tri.v0, tri.v1, tri.v2, b);
    }
  }
}
