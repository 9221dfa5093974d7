/** The broad-phase bound of an OBJ model (src/extensions/ObjModel.cs): the
    axis-aligned box of the vertices, folded from the origin, and a sphere
    around it. */
module Bounds {
  import opened Vectors
  import opened Geometry
  import opened Spheres
  import opened MollerTrumbore

  datatype Box = Box(lo: Vector3, hi: Vector3)

  predicate InBox(b: Box, p: Vector3) {
    && b.lo.x <= p.x <= b.hi.x
    && b.lo.y <= p.y <= b.hi.y
    && b.lo.z <= p.z <= b.hi.z
  }

  /** One pass of the box loop: six independent comparisons. */
  function Grow(b: Box, v: Vector3): Box {
    Box(Vector3(if v.x < b.lo.x then v.x else b.lo.x,
                if v.y < b.lo.y then v.y else b.lo.y,
                if v.z < b.lo.z then v.z else b.lo.z),
        Vector3(if v.x > b.hi.x then v.x else b.hi.x,
                if v.y > b.hi.y then v.y else b.hi.y,
                if v.z > b.hi.z then v.z else b.hi.z))
  }

  /** The loop over the vertices, starting from the degenerate box at the
      origin.  The result holds the origin and every vertex. */
  function BoxOf(vertices: seq<Vector3>): (b: Box)
    ensures InBox(b, Zero)
    ensures forall i :: 0 <= i < |vertices| ==> InBox(b, vertices[i])
  {
    if |vertices| == 0 then Box(Zero, Zero)
    else
      var last := |vertices| - 1;
      var front := vertices[..last];
      assert forall i :: 0 <= i < last ==> vertices[i] == front[i];
      Grow(BoxOf(front), vertices[last])
  }

  /** The box is the least one holding the origin and the vertices: any box
      that holds them holds it. */
  lemma {:induction false} BoxOfIsLeast(vertices: seq<Vector3>, other: Box)
    requires InBox(other, Zero)
    requires forall i :: 0 <= i < |vertices| ==> InBox(other, vertices[i])
    ensures InBox(other, BoxOf(vertices).lo) && InBox(other, BoxOf(vertices).hi)
  {
    if |vertices| > 0 {
      var last := |vertices| - 1;
      var front := vertices[..last];
      assert forall i :: 0 <= i < last ==> front[i] == vertices[i];
      BoxOfIsLeast(front, other);
      assert InBox(other, vertices[last]);
    }
  }

  function Center(b: Box): Vector3 {
    Vector3((b.hi.x + b.lo.x) / 2.0, (b.hi.y + b.lo.y) / 2.0, (b.hi.z + b.lo.z) / 2.0)
  }

  /** The radius the source computes: the largest half-extent, taken with
      strict comparisons in the order x, y, z. */
  function HalfExtentRadius(b: Box): (r: real)
    ensures r >= (b.hi.x - b.lo.x) / 2.0 && r >= (b.hi.y - b.lo.y) / 2.0 && r >= (b.hi.z - b.lo.z) / 2.0
    ensures r == (b.hi.x - b.lo.x) / 2.0 || r == (b.hi.y - b.lo.y) / 2.0 || r == (b.hi.z - b.lo.z) / 2.0
  {
    var r := (b.hi.x - b.lo.x) / 2.0;
    var r := if (b.hi.y - b.lo.y) / 2.0 > r then (b.hi.y - b.lo.y) / 2.0 else r;
    if (b.hi.z - b.lo.z) / 2.0 > r then (b.hi.z - b.lo.z) / 2.0 else r
  }

  /** The bounding sphere as the source builds it. */
  function HalfExtentSphere(b: Box, material: Material): Sphere {
    Sphere(Center(b), HalfExtentRadius(b), material)
  }

  /** The largest half-extent only reaches the middles of the box's faces:
      the corner `(2, 2, 2)` of the box from the origin to `(2, 2, 2)` lies at
      squared distance 3 from the centre, outside the radius-1 sphere. */
  lemma HalfExtentMissesCorner(material: Material)
    ensures var b := Box(Zero, Vector3(2.0, 2.0, 2.0));
            InBox(b, b.hi) && !WithinSphere(HalfExtentSphere(b, material), b.hi)
  {
    var b := Box(Zero, Vector3(2.0, 2.0, 2.0));
    assert Center(b) == Vector3(1.0, 1.0, 1.0);
    assert HalfExtentRadius(b) == 1.0;
  }

  /** The radius that makes the sphere enclose the box: half its diagonal. */
  function EnclosingRadius(sqrt: SqrtFn, b: Box): real {
    Length(sqrt, Sub(b.hi, b.lo)) / 2.0
  }

  function EnclosingSphere(sqrt: SqrtFn, b: Box, material: Material): Sphere {
    Sphere(Center(b), EnclosingRadius(sqrt, b), material)
  }

  /** Every point of the box lies inside or on the half-diagonal sphere. */
  lemma BoxInsideEnclosingSphere(sqrt: SqrtFn, b: Box, p: Vector3, material: Material)
    requires ExactSqrt(sqrt) && InBox(b, p)
    ensures WithinSphere(EnclosingSphere(sqrt, b, material), p)
  {
    var e := Sub(b.hi, b.lo);
    var c := Center(b);
    var d := Sub(p, c);
    LengthSquared(sqrt, e);
    var len := Length(sqrt, e);
    HalfOffset(b.lo.x, b.hi.x, p.x, d.x);
    HalfOffset(b.lo.y, b.hi.y, p.y, d.y);
    HalfOffset(b.lo.z, b.hi.z, p.z, d.z);
    assert Dot(d, d) <= (e.x * e.x + e.y * e.y + e.z * e.z) / 4.0;
    assert (len / 2.0) * (len / 2.0) == len * len / 4.0;
  }

  /** On one axis, the offset from the middle of `[lo, hi]` is at most half
      the extent. */
  lemma HalfOffset(lo: real, hi: real, p: real, d: real)
    requires lo <= p <= hi && d == p - (hi + lo) / 2.0
    ensures d * d <= (hi - lo) * (hi - lo) / 4.0
  {
    var h := (hi - lo) / 2.0;
    assert -h <= d <= h;
    assert h * h - d * d == (h - d) * (h + d);
    assert (h - d) * (h + d) >= 0.0;
  }

  /** Every point of a triangle whose corners are in a box is in the box. */
  lemma SurfaceInBox(b: Box, v0: Vector3, v1: Vector3, v2: Vector3, u: real, v: real)
    requires InBox(b, v0) && InBox(b, v1) && InBox(b, v2)
    requires 0.0 <= u && 0.0 <= v && u + v <= 1.0
    ensures InBox(b, SurfacePoint(v0, v1, v2, u, v))
  {
    var p := SurfacePoint(v0, v1, v2, u, v);
    assert b.lo.x <= p.x <= b.hi.x by { SurfaceInBoxX(b, v0, v1, v2, u, v); }
    assert b.lo.y <= p.y <= b.hi.y by { SurfaceInBoxY(b, v0, v1, v2, u, v); }
    assert b.lo.z <= p.z <= b.hi.z by { SurfaceInBoxZ(b, v0, v1, v2, u, v); }
  }

  lemma SurfaceInBoxX(b: Box, v0: Vector3, v1: Vector3, v2: Vector3, u: real, v: real)
    requires b.lo.x <= v0.x <= b.hi.x && b.lo.x <= v1.x <= b.hi.x && b.lo.x <= v2.x <= b.hi.x
    requires 0.0 <= u && 0.0 <= v && u + v <= 1.0
    ensures b.lo.x <= SurfacePoint(v0, v1, v2, u, v).x <= b.hi.x
  {
    ConvexInRange(b.lo.x, b.hi.x, v0.x, v1.x, v2.x, u, v, SurfacePoint(v0, v1, v2, u, v).x);
  }

  lemma SurfaceInBoxY(b: Box, v0: Vector3, v1: Vector3, v2: Vector3, u: real, v: real)
    requires b.lo.y <= v0.y <= b.hi.y && b.lo.y <= v1.y <= b.hi.y && b.lo.y <= v2.y <= b.hi.y
    requires 0.0 <= u && 0.0 <= v && u + v <= 1.0
    ensures b.lo.y <= SurfacePoint(v0, v1, v2, u, v).y <= b.hi.y
  {
    ConvexInRange(b.lo.y, b.hi.y, v0.y, v1.y, v2.y, u, v, SurfacePoint(v0, v1, v2, u, v).y);
  }

  lemma SurfaceInBoxZ(b: Box, v0: Vector3, v1: Vector3, v2: Vector3, u: real, v: real)
    requires b.lo.z <= v0.z <= b.hi.z && b.lo.z <= v1.z <= b.hi.z && b.lo.z <= v2.z <= b.hi.z
    requires 0.0 <= u && 0.0 <= v && u + v <= 1.0
    ensures b.lo.z <= SurfacePoint(v0, v1, v2, u, v).z <= b.hi.z
  {
    ConvexInRange(b.lo.z, b.hi.z, v0.z, v1.z, v2.z, u, v, SurfacePoint(v0, v1, v2, u, v).z);
  }

  /** One axis of `SurfaceInBox`. */
  lemma ConvexInRange(lo: real, hi: real, a0: real, a1: real, a2: real, u: real, v: real, p: real)
    requires lo <= a0 <= hi && lo <= a1 <= hi && lo <= a2 <= hi
    requires 0.0 <= u && 0.0 <= v && u + v <= 1.0
    requires p == a0 + ((a1 - a0) * u + (a2 - a0) * v)
    ensures lo <= p <= hi
  {
    var w := 1.0 - u - v;
    assert p - lo == w * (a0 - lo) + u * (a1 - lo) + v * (a2 - lo);
    assert hi - p == w * (hi - a0) + u * (hi - a1) + v * (hi - a2);
    NonNegativeProduct(w, a0 - lo);
    NonNegativeProduct(u, a1 - lo);
    NonNegativeProduct(v, a2 - lo);
    NonNegativeProduct(w, hi - a0);
    NonNegativeProduct(u, hi - a1);
    NonNegativeProduct(v, hi - a2);
  }

  lemma NonNegativeProduct(x: real, y: real)
    requires x >= 0.0 && y >= 0.0
    ensures x * y >= 0.0
  {
  }
}
