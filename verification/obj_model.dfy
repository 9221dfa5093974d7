/** `ObjModel` (src/extensions/ObjModel.cs): a triangle mesh read from an OBJ
    file, bounded by a sphere for a broad-phase test, intersected face by
    face with the nearest hit kept. */
module ObjModels {
  import opened Wrappers
  import opened Vectors
  import opened Geometry
  import opened ObjParse
  import opened Text
  import opened Spheres
  import opened Bounds
  import opened MollerTrumbore
  import Triangles

  /** The loaded model: the three lists read from the file, the material and
      the bounding sphere (`ObjSphere`).  Faces hold their three 1-based
      indices as reals, as the source stores them in a `Vector3`. */
  datatype Mesh = Mesh(vertices: seq<Vector3>, normals: seq<Vector3>, faces: seq<Vector3>,
                       material: Material, bound: Sphere)

  /** The bound is the half-diagonal sphere of the vertices' box. */
  predicate Enclosed(sqrt: SqrtFn, mesh: Mesh) {
    mesh.bound == EnclosingSphere(sqrt, BoxOf(mesh.vertices), mesh.material)
  }

  /** The bound is the largest-half-extent sphere the source builds. */
  predicate HalfExtentBound(mesh: Mesh) {
    mesh.bound == HalfExtentSphere(BoxOf(mesh.vertices), mesh.material)
  }

  /** The constructor as written: read the lines, then bound the vertices by
      the sphere around their box whose radius is the largest half-extent.
      It fails exactly when the reading loop throws, with the same first bad
      line, and otherwise keeps the three lists in file order. */
  function Load(parse: NumberParser, lines: seq<string>, offset: Vector3, scale: real,
                material: Material): (r: Result<Mesh, LoadError>)
    ensures r.Err? <==> ParseLines(parse, offset, scale, lines).Err?
    ensures r.Err? ==> r.error == ParseLines(parse, offset, scale, lines).error
    ensures r.Ok? ==>
              var data := ParseLines(parse, offset, scale, lines).value;
              && r.value.vertices == data.vertices
              && r.value.normals == data.normals
              && r.value.faces == data.faces
              && r.value.material == material
              && HalfExtentBound(r.value)
  {
    match ParseLines(parse, offset, scale, lines)
    case Err(e) => Err(e)
    case Ok(data) =>
      Ok(Mesh(data.vertices, data.normals, data.faces, material,
              HalfExtentSphere(BoxOf(data.vertices), material)))
  }

  /** The constructor with the corrected bound: the same mesh as `Load`,
      but bounded by the half-diagonal sphere of the box, which holds every
      vertex. */
  function LoadEnclosed(sqrt: SqrtFn, parse: NumberParser, lines: seq<string>, offset: Vector3, scale: real,
                        material: Material): (r: Result<Mesh, LoadError>)
    ensures r.Ok? <==> Load(parse, lines, offset, scale, material).Ok?
    ensures r.Err? ==> r == Load(parse, lines, offset, scale, material)
    ensures r.Ok? ==>
              var m := Load(parse, lines, offset, scale, material).value;
              r.value == m.(bound := EnclosingSphere(sqrt, BoxOf(m.vertices), material))
    ensures r.Ok? ==> Enclosed(sqrt, r.value)
    ensures r.Ok? && ExactSqrt(sqrt) ==>
              forall i :: 0 <= i < |r.value.vertices| ==> WithinSphere(r.value.bound, r.value.vertices[i])
  {
    match Load(parse, lines, offset, scale, material)
    case Err(e) => Err(e)
    case Ok(m) =>
      var box := BoxOf(m.vertices);
      var mesh := m.(bound := EnclosingSphere(sqrt, box, material));
      assert ExactSqrt(sqrt) ==> forall i :: 0 <= i < |mesh.vertices| ==> WithinSphere(mesh.bound, mesh.vertices[i]) by {
        if ExactSqrt(sqrt) {
          forall i | 0 <= i < |mesh.vertices| ensures WithinSphere(mesh.bound, mesh.vertices[i]) {
            BoxInsideEnclosingSphere(sqrt, box, mesh.vertices[i], material);
          }
        }
      }
      Ok(mesh)
  }

  /** `(int)x`: the cast to `int` truncates toward zero. */
  function Truncate(x: real): (n: int)
    ensures x >= 0.0 ==> n as real <= x < n as real + 1.0
    ensures x < 0.0 ==> n as real - 1.0 < x <= n as real
  {
    if x >= 0.0 then x.Floor else -((-x).Floor)
  }

  /** A whole number is its own truncation. */
  lemma TruncateWhole(k: int)
    ensures Truncate(k as real) == k
  {
  }

  /** `(int)x - 1`: a face's 1-based index turned into a list position. */
  function FaceIndex(x: real): int {
    Truncate(x) - 1
  }

  /** The three corner positions and normals of a face. */
  datatype Corners = Corners(v0: Vector3, v1: Vector3, v2: Vector3, n0: Vector3, n1: Vector3, n2: Vector3)

  /** All three indices of a face address both a vertex and a normal. */
  predicate ValidFace(mesh: Mesh, face: Vector3) {
    && 0 <= FaceIndex(face.x) < |mesh.vertices| && 0 <= FaceIndex(face.y) < |mesh.vertices|
    && 0 <= FaceIndex(face.z) < |mesh.vertices|
    && 0 <= FaceIndex(face.x) < |mesh.normals| && 0 <= FaceIndex(face.y) < |mesh.normals|
    && 0 <= FaceIndex(face.z) < |mesh.normals|
  }

  /** The `ArgumentOutOfRangeException` of an `ArrayList` lookup. */
  datatype MeshError = IndexOutOfRange

  /** The six lookups at the top of the face loop.  The same index picks a
      corner's position and its normal. */
  function FaceCorners(mesh: Mesh, face: Vector3): (r: Result<Corners, MeshError>)
    ensures r.Ok? <==> ValidFace(mesh, face)
    ensures r.Ok? ==>
              var i, j, k := FaceIndex(face.x), FaceIndex(face.y), FaceIndex(face.z);
              r.value == Corners(mesh.vertices[i], mesh.vertices[j], mesh.vertices[k],
                                 mesh.normals[i], mesh.normals[j], mesh.normals[k])
  {
    var i, j, k := FaceIndex(face.x), FaceIndex(face.y), FaceIndex(face.z);
    if ValidFace(mesh, face) then
      Ok(Corners(mesh.vertices[i], mesh.vertices[j], mesh.vertices[k],
                 mesh.normals[i], mesh.normals[j], mesh.normals[k]))
    else Err(IndexOutOfRange)
  }

  /** `(1 - u - v) n0 + u n1 + v n2`, left unnormalised: the source calls
      `Normalized()` and discards the result. */
  function Interpolate(n0: Vector3, n1: Vector3, n2: Vector3, u: real, v: real): Vector3 {
    Add(Add(Scale(n0, 1.0 - u - v), Scale(n1, u)), Scale(n2, v))
  }

  /** At the corner `u = v = 0` the interpolated normal is the first
      corner's normal. */
  lemma InterpolateAtFirst(n0: Vector3, n1: Vector3, n2: Vector3)
    ensures Interpolate(n0, n1, n2, 0.0, 0.0) == n0
  {
    assert Scale(n0, 1.0 - 0.0 - 0.0) == n0;
    assert Scale(n1, 0.0) == Zero;
    assert Scale(n2, 0.0) == Zero;
  }

  /** At the corner `u = 1, v = 0` it is the second corner's normal. */
  lemma InterpolateAtSecond(n0: Vector3, n1: Vector3, n2: Vector3)
    ensures Interpolate(n0, n1, n2, 1.0, 0.0) == n1
  {
    assert Scale(n0, 1.0 - 1.0 - 0.0) == Zero;
    assert Scale(n1, 1.0) == n1;
    assert Scale(n2, 0.0) == Zero;
  }

  /** At the corner `u = 0, v = 1` it is the third corner's normal. */
  lemma InterpolateAtThird(n0: Vector3, n1: Vector3, n2: Vector3)
    ensures Interpolate(n0, n1, n2, 0.0, 1.0) == n2
  {
    assert Scale(n0, 1.0 - 0.0 - 1.0) == Zero;
    assert Scale(n1, 0.0) == Zero;
    assert Scale(n2, 1.0) == n2;
  }

  /** A face with one normal at every corner is shaded flat: the weights sum
      to one. */
  lemma InterpolateFlat(n: Vector3, u: real, v: real)
    ensures Interpolate(n, n, n, u, v) == n
  {
  }

  /** `IntersectTriangle`: the Moller-Trumbore test, with the normal
      interpolated from the corner normals and the incident direction
      normalised.  Under an exact root the incident is the unit vector along
      the ray. */
  function IntersectTriangle(sqrt: SqrtFn, ray: Ray, v0: Vector3, v1: Vector3, v2: Vector3,
                             n0: Vector3, n1: Vector3, n2: Vector3, material: Material)
    : (r: Option<RayHit>)
    ensures r.None? <==> Solve(ray, v0, v1, v2).None?
    ensures r.Some? ==>
              var b := Solve(ray, v0, v1, v2).value;
              && Accepted(b)
              && r.value.position == PointAt(ray, b.t)
              && r.value.position == SurfacePoint(v0, v1, v2, b.u, b.v)
              && r.value.normal == Interpolate(n0, n1, n2, b.u, b.v)
              && r.value.material == material
    ensures r.Some? && ExactSqrt(sqrt) && ray.direction != Zero ==>
              && Dot(r.value.incident, r.value.incident) == 1.0
              && Cross(r.value.incident, ray.direction) == Zero
              && Dot(r.value.incident, ray.direction) > 0.0
  {
    match Solve(ray, v0, v1, v2)
    case None => None
    case Some(b) =>
      Some(RayHit(PointAt(ray, b.t), Interpolate(n0, n1, n2, b.u, b.v),
                  Normalized(sqrt, ray.direction), material))
  }

  /** The mesh's face test and `Triangle.Intersect` accept the same rays at
      the same points; they differ only in the normal and incident they
      report. */
  lemma FaceTestMatchesTriangle(sqrt: SqrtFn, ray: Ray, v0: Vector3, v1: Vector3, v2: Vector3,
                                n0: Vector3, n1: Vector3, n2: Vector3, material: Material)
    ensures var mine := IntersectTriangle(sqrt, ray, v0, v1, v2, n0, n1, n2, material);
            var plain := Triangles.Intersect(Triangles.Triangle(v0, v1, v2, material), ray);
            && (mine.None? <==> plain.None?)
            && (mine.Some? ==> mine.value.position == plain.value.position
                               && mine.value.material == plain.value.material)
  {
  }

  /** A face's hit together with its distance from the ray origin. */
  datatype FaceHit = FaceHit(hit: RayHit, distance: real)

  /** One face of the loop: its lookups, its test and the distance
      `(hit.Position - ray.Origin).Length()`. */
  function TestFace(sqrt: SqrtFn, mesh: Mesh, ray: Ray, face: Vector3): (r: Result<Option<FaceHit>, MeshError>)
    ensures r.Ok? <==> ValidFace(mesh, face)
    ensures r.Ok? && r.value.Some? ==>
              var c := FaceCorners(mesh, face).value;
              var h := IntersectTriangle(sqrt, ray, c.v0, c.v1, c.v2, c.n0, c.n1, c.n2, mesh.material);
              && h.Some? && r.value.value.hit == h.value
              && r.value.value.distance == Length(sqrt, Sub(h.value.position, ray.origin))
    ensures r.Ok? && r.value.None? ==>
              var c := FaceCorners(mesh, face).value;
              IntersectTriangle(sqrt, ray, c.v0, c.v1, c.v2, c.n0, c.n1, c.n2, mesh.material).None?
    ensures r.Ok? && r.value.Some? && ExactSqrt(sqrt) ==> r.value.value.distance >= 0.0
  {
    match FaceCorners(mesh, face)
    case Err(e) => Err(e)
    case Ok(c) =>
      match IntersectTriangle(sqrt, ray, c.v0, c.v1, c.v2, c.n0, c.n1, c.n2, mesh.material)
      case None => Ok(None)
      case Some(h) =>
        var d := Length(sqrt, Sub(h.position, ray.origin));
        assert ExactSqrt(sqrt) ==> d >= 0.0 by {
          if ExactSqrt(sqrt) {
            LengthSquared(sqrt, Sub(h.position, ray.origin));
          }
        }
        Ok(Some(FaceHit(h, d)))
  }

  /** The face tests in face order; the first face with a bad index aborts
      the whole loop. */
  function TestFaces(sqrt: SqrtFn, mesh: Mesh, ray: Ray, faces: seq<Vector3>)
    : (r: Result<seq<Option<FaceHit>>, MeshError>)
    ensures r.Ok? <==> forall i :: 0 <= i < |faces| ==> ValidFace(mesh, faces[i])
    ensures r.Ok? ==> |r.value| == |faces|
    ensures r.Ok? ==> forall i :: 0 <= i < |faces| ==> r.value[i] == TestFace(sqrt, mesh, ray, faces[i]).value
  {
    if |faces| == 0 then Ok([])
    else
      var last := |faces| - 1;
      var front := faces[..last];
      assert forall i :: 0 <= i < last ==> front[i] == faces[i];
      match TestFaces(sqrt, mesh, ray, front)
      case Err(e) => Err(e)
      case Ok(hits) =>
        match TestFace(sqrt, mesh, ray, faces[last])
        case Err(e) => Err(e)
        case Ok(h) => Ok(hits + [h])
  }

  /** Every reported distance is non-negative, as lengths are. */
  predicate NonNegativeDistances(hits: seq<Option<FaceHit>>) {
    forall j :: 0 <= j < |hits| && hits[j].Some? ==> hits[j].value.distance >= 0.0
  }

  /** Among the first `n` entries, `k` is a hit at the least distance and no
      later hit among them is as near: the last of the nearest. */
  predicate LatestNearestUpTo(hits: seq<Option<FaceHit>>, n: nat, k: nat) {
    && k < n <= |hits| && hits[k].Some?
    && (forall j :: 0 <= j < n && hits[j].Some? ==> hits[k].value.distance <= hits[j].value.distance)
    && (forall j :: k < j < n && hits[j].Some? ==> hits[k].value.distance < hits[j].value.distance)
  }

  predicate LatestNearest(hits: seq<Option<FaceHit>>, k: nat) {
    LatestNearestUpTo(hits, |hits|, k)
  }

  /** At most one entry is the last of the nearest. */
  lemma LatestNearestUnique(hits: seq<Option<FaceHit>>, k1: nat, k2: nat)
    requires LatestNearest(hits, k1) && LatestNearest(hits, k2)
    ensures k1 == k2
  {
  }

  /** The nearest-hit loop from entry `i` on, with its two variables: the
      distance `shortDis` (`-1` until a hit is seen) and the hit kept.  A hit
      replaces the kept one unless it is strictly farther. */
  function Scan(hits: seq<Option<FaceHit>>, i: nat, shortDis: real, shortHit: Option<FaceHit>)
    : Option<FaceHit>
    requires i <= |hits|
    decreases |hits| - i
  {
    if i == |hits| then shortHit
    else match hits[i]
      case None => Scan(hits, i + 1, shortDis, shortHit)
      case Some(h) =>
        if shortDis < 0.0 then Scan(hits, i + 1, h.distance, Some(h))
        else if shortDis < h.distance then Scan(hits, i + 1, shortDis, shortHit)
        else Scan(hits, i + 1, h.distance, Some(h))
  }

  /** The loop's variables before entry `i`: nothing seen yet (`k = -1`), or
      the kept hit is entry `k`, the last of the nearest so far. */
  predicate ScanState(hits: seq<Option<FaceHit>>, i: nat, shortDis: real, shortHit: Option<FaceHit>, k: int) {
    || (k == -1 && shortDis < 0.0 && shortHit.None? && i <= |hits|
        && forall j :: 0 <= j < i ==> hits[j].None?)
    || (0 <= k < |hits| && LatestNearestUpTo(hits, i, k) && shortHit == hits[k]
        && shortDis == hits[k].value.distance)
  }

  /** The loop ends with nothing exactly when no face was hit, and otherwise
      with the last of the nearest hits, entry `m`. */
  lemma {:induction false} ScanFinds(hits: seq<Option<FaceHit>>, i: nat, shortDis: real,
                                     shortHit: Option<FaceHit>, k: int) returns (m: int)
    requires i <= |hits| && NonNegativeDistances(hits)
    requires ScanState(hits, i, shortDis, shortHit, k)
    ensures var r := Scan(hits, i, shortDis, shortHit);
            && (r.None? <==> forall j :: 0 <= j < |hits| ==> hits[j].None?)
            && (r.Some? ==> 0 <= m < |hits| && LatestNearest(hits, m) && r == hits[m])
    decreases |hits| - i
  {
    if i == |hits| {
      ScanEnd(hits, shortDis, shortHit, k);
      m := k;
    } else {
      var sd, sh, k' := NextState(hits, i, shortDis, shortHit, k);
      m := ScanFinds(hits, i + 1, sd, sh, k');
    }
  }

  /** One pass of the loop body, with the index of the kept hit. */
  lemma NextState(hits: seq<Option<FaceHit>>, i: nat, shortDis: real, shortHit: Option<FaceHit>, k: int)
    returns (sd: real, sh: Option<FaceHit>, k': int)
    requires i < |hits| && NonNegativeDistances(hits)
    requires ScanState(hits, i, shortDis, shortHit, k)
    ensures Scan(hits, i, shortDis, shortHit) == Scan(hits, i + 1, sd, sh)
    ensures ScanState(hits, i + 1, sd, sh, k')
  {
    match hits[i]
    case None =>
      StepMiss(hits, i, shortDis, shortHit, k);
      sd, sh, k' := shortDis, shortHit, k;
    case Some(h) =>
      if shortDis < 0.0 {
        StepFirst(hits, i, shortDis, shortHit, k);
        sd, sh, k' := h.distance, Some(h), i;
      } else if shortDis < h.distance {
        StepKeep(hits, i, shortDis, shortHit, k);
        sd, sh, k' := shortDis, shortHit, k;
      } else {
        StepReplace(hits, i, shortDis, shortHit, k);
        sd, sh, k' := h.distance, Some(h), i;
      }
  }

  /** After the last entry the loop's state is its answer. */
  lemma ScanEnd(hits: seq<Option<FaceHit>>, shortDis: real, shortHit: Option<FaceHit>, k: int)
    requires ScanState(hits, |hits|, shortDis, shortHit, k)
    ensures shortHit.None? <==> forall j :: 0 <= j < |hits| ==> hits[j].None?
    ensures shortHit.Some? ==> 0 <= k < |hits| && LatestNearest(hits, k) && shortHit == hits[k]
  {
  }

  /** A face without a hit leaves the state as it is. */
  lemma StepMiss(hits: seq<Option<FaceHit>>, i: nat, shortDis: real, shortHit: Option<FaceHit>, k: int)
    requires i < |hits| && hits[i].None? && ScanState(hits, i, shortDis, shortHit, k)
    ensures ScanState(hits, i + 1, shortDis, shortHit, k)
  {
  }

  /** The first hit is kept, whatever its distance. */
  lemma StepFirst(hits: seq<Option<FaceHit>>, i: nat, shortDis: real, shortHit: Option<FaceHit>, k: int)
    requires i < |hits| && hits[i].Some? && NonNegativeDistances(hits)
    requires ScanState(hits, i, shortDis, shortHit, k) && shortDis < 0.0
    ensures k == -1
    ensures ScanState(hits, i + 1, hits[i].value.distance, hits[i], i)
  {
  }

  /** A strictly farther hit is passed over. */
  lemma StepKeep(hits: seq<Option<FaceHit>>, i: nat, shortDis: real, shortHit: Option<FaceHit>, k: int)
    requires i < |hits| && hits[i].Some? && NonNegativeDistances(hits)
    requires ScanState(hits, i, shortDis, shortHit, k) && 0.0 <= shortDis < hits[i].value.distance
    ensures ScanState(hits, i + 1, shortDis, shortHit, k)
  {
  }

  /** A hit at most as far as the kept one replaces it. */
  lemma StepReplace(hits: seq<Option<FaceHit>>, i: nat, shortDis: real, shortHit: Option<FaceHit>, k: int)
    requires i < |hits| && hits[i].Some? && NonNegativeDistances(hits)
    requires ScanState(hits, i, shortDis, shortHit, k) && 0.0 <= shortDis
    requires hits[i].value.distance <= shortDis
    ensures ScanState(hits, i + 1, hits[i].value.distance, hits[i], i)
  {
  }

  /** The whole loop, from the sentinel `-1`. */
  function Nearest(hits: seq<Option<FaceHit>>): (r: Option<FaceHit>)
    ensures NonNegativeDistances(hits) ==> (r.None? <==> forall j :: 0 <= j < |hits| ==> hits[j].None?)
    ensures NonNegativeDistances(hits) && r.Some? ==>
              exists m :: 0 <= m < |hits| && LatestNearest(hits, m) && r == hits[m]
  {
    var r := Scan(hits, 0, -1.0, None);
    assert NonNegativeDistances(hits) ==>
             && (r.None? <==> forall j :: 0 <= j < |hits| ==> hits[j].None?)
             && (r.Some? ==> exists m :: 0 <= m < |hits| && LatestNearest(hits, m) && r == hits[m]) by {
      if NonNegativeDistances(hits) {
        var m := ScanFinds(hits, 0, -1.0, None, -1);
        assert r.Some? ==> 0 <= m < |hits| && LatestNearest(hits, m) && r == hits[m];
      }
    }
    r
  }

  /** The bounding sphere rejects the ray. */
  predicate BroadMiss(sqrt: SqrtFn, mesh: Mesh, ray: Ray)
    requires ExactSqrt(sqrt) && Dot(ray.direction, ray.direction) > 0.0
  {
    Spheres.Intersect(sqrt, mesh.bound, ray).None?
  }

  /** `ObjModel.Intersect`.  A ray the sphere rejects gets no hit, whatever
      the faces hold.  Otherwise a bad face index is an error; and without
      one, the result is empty exactly when no face is hit, and is otherwise
      the hit of the last face among the nearest. */
  function Intersect(sqrt: SqrtFn, mesh: Mesh, ray: Ray): (r: Result<Option<RayHit>, MeshError>)
    requires ExactSqrt(sqrt) && Dot(ray.direction, ray.direction) > 0.0
    ensures BroadMiss(sqrt, mesh, ray) ==> r == Ok(None)
    ensures !BroadMiss(sqrt, mesh, ray) ==>
              (r.Ok? <==> forall i :: 0 <= i < |mesh.faces| ==> ValidFace(mesh, mesh.faces[i]))
    ensures r.Ok? && !BroadMiss(sqrt, mesh, ray) ==>
              var hits := TestFaces(sqrt, mesh, ray, mesh.faces).value;
              && (r.value.None? <==> forall j :: 0 <= j < |hits| ==> hits[j].None?)
              && (r.value.Some? ==>
                    exists m :: 0 <= m < |hits| && LatestNearest(hits, m) && r.value.value == hits[m].value.hit)
  {
    if BroadMiss(sqrt, mesh, ray) then Ok(None)
    else
      match TestFaces(sqrt, mesh, ray, mesh.faces)
      case Err(e) => Err(e)
      case Ok(hits) =>
        HitsAreAhead(sqrt, mesh, ray, hits);
        Ok(NearestHit(hits))
  }

  /** The hit of the last face among the nearest, without its distance. */
  function NearestHit(hits: seq<Option<FaceHit>>): (r: Option<RayHit>)
    requires NonNegativeDistances(hits)
    ensures r.None? <==> forall j :: 0 <= j < |hits| ==> hits[j].None?
    ensures r.Some? ==> exists m :: 0 <= m < |hits| && LatestNearest(hits, m) && r.value == hits[m].value.hit
  {
    match Nearest(hits)
    case None => None
    case Some(fh) => Some(fh.hit)
  }

  /** Under an exact root every face's distance is non-negative. */
  lemma HitsAreAhead(sqrt: SqrtFn, mesh: Mesh, ray: Ray, hits: seq<Option<FaceHit>>)
    requires ExactSqrt(sqrt) && TestFaces(sqrt, mesh, ray, mesh.faces) == Ok(hits)
    ensures NonNegativeDistances(hits)
  {
    forall j | 0 <= j < |hits| && hits[j].Some? ensures hits[j].value.distance >= 0.0 {
      assert hits[j] == TestFace(sqrt, mesh, ray, mesh.faces[j]).value;
    }
  }

  /** With the half-diagonal bound, the broad phase never discards a face
      hit: a face the ray hits makes the sphere test pass, so the mesh
      reports a hit whenever its face indices are valid. */
  lemma NoHitLost(sqrt: SqrtFn, mesh: Mesh, ray: Ray, i: nat)
    requires ExactSqrt(sqrt) && Dot(ray.direction, ray.direction) > 0.0 && Enclosed(sqrt, mesh)
    requires i < |mesh.faces|
    requires TestFace(sqrt, mesh, ray, mesh.faces[i]).Ok?
    requires TestFace(sqrt, mesh, ray, mesh.faces[i]).value.Some?
    ensures !BroadMiss(sqrt, mesh, ray)
    ensures Intersect(sqrt, mesh, ray).Ok? ==> Intersect(sqrt, mesh, ray).value.Some?
  {
    var c := FaceCorners(mesh, mesh.faces[i]).value;
    var b := Solve(ray, c.v0, c.v1, c.v2).value;
    var box := BoxOf(mesh.vertices);
    SurfaceInBox(box, c.v0, c.v1, c.v2, b.u, b.v);
    BoxInsideEnclosingSphere(sqrt, box, SurfacePoint(c.v0, c.v1, c.v2, b.u, b.v), mesh.material);
    ReachedFromInside(sqrt, mesh.bound, ray, b.t);
    if Intersect(sqrt, mesh, ray).Ok? {
      var hits := TestFaces(sqrt, mesh, ray, mesh.faces).value;
      assert hits[i].Some?;
    }
  }

  /** Every mesh the corrected constructor builds keeps its face hits: a
      face the ray hits gets past the broad phase, and the mesh reports a hit
      whenever its face indices are valid. */
  lemma LoadedMeshKeepsHits(sqrt: SqrtFn, parse: NumberParser, lines: seq<string>, offset: Vector3,
                            scale: real, material: Material, ray: Ray, i: nat)
    requires ExactSqrt(sqrt) && Dot(ray.direction, ray.direction) > 0.0
    requires LoadEnclosed(sqrt, parse, lines, offset, scale, material).Ok?
    requires var mesh := LoadEnclosed(sqrt, parse, lines, offset, scale, material).value;
             && i < |mesh.faces|
             && TestFace(sqrt, mesh, ray, mesh.faces[i]).Ok?
             && TestFace(sqrt, mesh, ray, mesh.faces[i]).value.Some?
    ensures var mesh := LoadEnclosed(sqrt, parse, lines, offset, scale, material).value;
            && !BroadMiss(sqrt, mesh, ray)
            && (Intersect(sqrt, mesh, ray).Ok? ==> Intersect(sqrt, mesh, ray).value.Some?)
  {
    NoHitLost(sqrt, LoadEnclosed(sqrt, parse, lines, offset, scale, material).value, ray, i);
  }

  // ------------------------------------------------ the counterexample mesh

  /** A stand-in for `double.Parse` that reads optionally signed whole
      numbers written in decimal digits. */
  function WholeNumber(s: string): Option<real> {
    if |s| > 0 && s[0] == '-' then
      match Digits(s[1..])
      case Some(n) => Some(-(n as real))
      case None => None
    else
      match Digits(s)
      case Some(n) => Some(n as real)
      case None => None
  }

  /** The value of a non-empty run of decimal digits. */
  function Digits(s: string): Option<nat>
    decreases |s|
  {
    if |s| == 0 || !('0' <= s[|s| - 1] <= '9') then None
    else
      var d := (s[|s| - 1] as int - '0' as int) as nat;
      if |s| == 1 then Some(d)
      else match Digits(s[..|s| - 1])
        case Some(n) => Some(10 * n + d)
        case None => None
  }

  const CornerMaterial := Material(Black, Diffuse, 1.0)

  /** How the counterexample's file spells its five numbers. */
  datatype CornerWords = CornerWords(two: string, zero: string, minusTwo: string, one: string, three: string)

  /** The counterexample's file: the triangle with corners on the three axes
      at distance 2 (the third written with `z = -2`, which the loader
      negates), three normals along `z`, and the face `f 3 2 1`, which the
      loader stores as the indices `(1, 2, 3)`. */
  function CornerFile(w: CornerWords): seq<string> {
    [VertexText(w.two, w.zero, w.zero), VertexText(w.zero, w.two, w.zero), VertexText(w.zero, w.zero, w.minusTwo),
     NormalText(w.zero, w.zero, w.one), NormalText(w.zero, w.zero, w.one), NormalText(w.zero, w.zero, w.one),
     FaceText(w.three, w.two, w.one)]
  }

  /** The spellings are single fields, the face's carry no `/`, and the
      number parser reads them as the numbers they name. */
  predicate CornerReadable(parse: NumberParser, w: CornerWords) {
    && ' ' !in w.two && ' ' !in w.zero && ' ' !in w.minusTwo && ' ' !in w.one && ' ' !in w.three
    && '/' !in w.two && '/' !in w.one && '/' !in w.three
    && parse(w.two) == Some(2.0) && parse(w.zero) == Some(0.0) && parse(w.minusTwo) == Some(-2.0)
    && parse(w.one) == Some(1.0) && parse(w.three) == Some(3.0)
  }

  /** The plain decimal spellings are read that way by `WholeNumber`. */
  lemma DecimalCornerReadable()
    ensures CornerReadable(WholeNumber, CornerWords("2", "0", "-2", "1", "3"))
  {
  }

  const CornerVertices := [Vector3(2.0, 0.0, 0.0), Vector3(0.0, 2.0, 0.0), Vector3(0.0, 0.0, 2.0)]

  /** `vn 0 0 1` read with its `z` negated. */
  const CornerNormal := Vector3(0.0, 0.0, -1.0)

  const CornerNormals := [CornerNormal, CornerNormal, CornerNormal]

  const CornerFaces := [Vector3(1.0, 2.0, 3.0)]

  /** The sphere the source builds around those vertices. */
  const CornerBound := Sphere(Vector3(1.0, 1.0, 1.0), 1.0, CornerMaterial)

  const CornerMesh := Mesh(CornerVertices, CornerNormals, CornerFaces, CornerMaterial, CornerBound)

  /** The three lists read from the counterexample's file, unscaled and
      unshifted. */
  lemma CornerData(parse: NumberParser, w: CornerWords, lines: seq<string>)
    requires CornerReadable(parse, w) && lines == CornerFile(w)
    ensures ParseLines(parse, Zero, 1.0, lines) == Ok(ObjData(CornerVertices, CornerNormals, CornerFaces))
  {
    CornerVerticesRead(parse, w, lines);
    ReadCornerNormal(parse, lines[3], w);
    ReadCornerNormal(parse, lines[4], w);
    ReadCornerNormal(parse, lines[5], w);
    CornerNormalLines(parse, lines);
    ReadCornerFace(parse, lines[6], w);
    CornerFaceLine(parse, lines);
  }

  /** The file's first three lines give its vertex list. */
  lemma CornerVerticesRead(parse: NumberParser, w: CornerWords, lines: seq<string>)
    requires CornerReadable(parse, w) && lines == CornerFile(w)
    ensures ParseLines(parse, Zero, 1.0, lines[..3]) == Ok(ObjData(CornerVertices, [], []))
  {
    ReadCornerVertex(parse, lines[0], w.two, w.zero, w.zero, 2.0, 0.0, 0.0);
    ReadCornerVertex(parse, lines[1], w.zero, w.two, w.zero, 0.0, 2.0, 0.0);
    ReadCornerVertex(parse, lines[2], w.zero, w.zero, w.minusTwo, 0.0, 0.0, -2.0);
    CornerVertexLines(parse, lines);
  }

  /** Three lines that read as the counterexample's vertices, whatever their
      text, give its vertex list. */
  lemma CornerVertexLines(parse: NumberParser, lines: seq<string>)
    requires |lines| >= 3
    requires ParseLine(parse, Zero, 1.0, lines[0]) == Some(VertexEntry(CornerVertices[0]))
    requires ParseLine(parse, Zero, 1.0, lines[1]) == Some(VertexEntry(CornerVertices[1]))
    requires ParseLine(parse, Zero, 1.0, lines[2]) == Some(VertexEntry(CornerVertices[2]))
    ensures ParseLines(parse, Zero, 1.0, lines[..3]) == Ok(ObjData(CornerVertices, [], []))
  {
    var v0, v1, v2 := VertexEntry(CornerVertices[0]), VertexEntry(CornerVertices[1]), VertexEntry(CornerVertices[2]);
    assert lines[..0] == [];
    ParseAt(parse, Zero, 1.0, lines, 0, ObjData([], [], []), v0);
    ParseAt(parse, Zero, 1.0, lines, 1, Append(ObjData([], [], []), v0), v1);
    ParseAt(parse, Zero, 1.0, lines, 2, Append(Append(ObjData([], [], []), v0), v1), v2);
    assert Append(Append(Append(ObjData([], [], []), v0), v1), v2) == ObjData(CornerVertices, [], []);
  }

  /** Three more lines that read as the counterexample's normals give its
      normal list. */
  lemma CornerNormalLines(parse: NumberParser, lines: seq<string>)
    requires |lines| >= 6
    requires ParseLines(parse, Zero, 1.0, lines[..3]) == Ok(ObjData(CornerVertices, [], []))
    requires ParseLine(parse, Zero, 1.0, lines[3]) == Some(NormalEntry(CornerNormal))
    requires ParseLine(parse, Zero, 1.0, lines[4]) == Some(NormalEntry(CornerNormal))
    requires ParseLine(parse, Zero, 1.0, lines[5]) == Some(NormalEntry(CornerNormal))
    ensures ParseLines(parse, Zero, 1.0, lines[..6]) == Ok(ObjData(CornerVertices, CornerNormals, []))
  {
    var n := NormalEntry(CornerNormal);
    ParseThree(parse, Zero, 1.0, lines, 3, ObjData(CornerVertices, [], []), n, n, n);
    assert Append(Append(Append(ObjData(CornerVertices, [], []), n), n), n) == ObjData(CornerVertices, CornerNormals, []);
  }

  /** A seventh and last line that reads as the counterexample's face
      completes its three lists. */
  lemma CornerFaceLine(parse: NumberParser, lines: seq<string>)
    requires |lines| == 7
    requires ParseLines(parse, Zero, 1.0, lines[..6]) == Ok(ObjData(CornerVertices, CornerNormals, []))
    requires ParseLine(parse, Zero, 1.0, lines[6]) == Some(FaceEntry(CornerFaces[0]))
    ensures ParseLines(parse, Zero, 1.0, lines) == Ok(ObjData(CornerVertices, CornerNormals, CornerFaces))
  {
    ParseSnoc(parse, Zero, 1.0, lines[..6], lines[6], ObjData(CornerVertices, CornerNormals, []), FaceEntry(CornerFaces[0]));
    assert lines[..6] + [lines[6]] == lines;
    assert [] + [CornerFaces[0]] == CornerFaces;
  }

  /** A vertex line read unscaled and unshifted. */
  lemma ReadCornerVertex(parse: NumberParser, line: string, a: string, b: string, c: string, x: real, y: real, z: real)
    requires line == VertexText(a, b, c)
    requires ' ' !in a && ' ' !in b && ' ' !in c
    requires parse(a) == Some(x) && parse(b) == Some(y) && parse(c) == Some(z)
    ensures ParseLine(parse, Zero, 1.0, line) == Some(VertexEntry(Vector3(x, y, -z)))
  {
    ReadVertexText(parse, Zero, 1.0, a, b, c, x, y, z);
  }

  /** The line `vn 0 0 1`. */
  lemma ReadCornerNormal(parse: NumberParser, line: string, w: CornerWords)
    requires CornerReadable(parse, w) && line == NormalText(w.zero, w.zero, w.one)
    ensures ParseLine(parse, Zero, 1.0, line) == Some(NormalEntry(CornerNormal))
  {
    ReadNormalText(parse, Zero, 1.0, w.zero, w.zero, w.one, 0.0, 0.0, 1.0);
  }

  /** The line `f 3 2 1`. */
  lemma ReadCornerFace(parse: NumberParser, line: string, w: CornerWords)
    requires CornerReadable(parse, w) && line == FaceText(w.three, w.two, w.one)
    ensures ParseLine(parse, Zero, 1.0, line) == Some(FaceEntry(CornerFaces[0]))
  {
    FirstFieldWhole(w.one, '/');
    FirstFieldWhole(w.two, '/');
    FirstFieldWhole(w.three, '/');
    ReadFaceText(parse, Zero, 1.0, w.three, w.two, w.one, 3.0, 2.0, 1.0);
  }

  /** The constructor as written turns the counterexample's file into the
      mesh with the radius-1 sphere around `(1, 1, 1)`. */
  lemma CornerLoad(parse: NumberParser, w: CornerWords, lines: seq<string>)
    requires CornerReadable(parse, w) && lines == CornerFile(w)
    ensures Load(parse, lines, Zero, 1.0, CornerMaterial) == Ok(CornerMesh)
  {
    CornerData(parse, w, lines);
    CornerBoundAsWritten();
  }

  /** A ray straight down from `(2, 0, h)`: it meets the triangle at its
      corner `(2, 0, 0)` at parameter `h`. */
  function CornerRay(h: real): Ray {
    Ray(Vector3(2.0, 0.0, h), Vector3(0.0, 0.0, -1.0))
  }

  /** The box runs from the origin to `(2, 2, 2)`, and the largest
      half-extent gives the radius-1 sphere around `(1, 1, 1)`, which leaves
      the vertex `(2, 0, 0)` outside. */
  lemma CornerBoundAsWritten()
    ensures BoxOf(CornerVertices) == Box(Zero, Vector3(2.0, 2.0, 2.0))
    ensures HalfExtentSphere(BoxOf(CornerVertices), CornerMaterial) == CornerBound
    ensures !WithinSphere(CornerBound, CornerVertices[0])
  {
    var vs := CornerVertices;
    assert vs[..0] == [] && vs[..1] == [vs[0]] && vs[..2] == [vs[0], vs[1]];
    assert BoxOf(vs[..1]) == Box(Zero, Vector3(2.0, 0.0, 0.0));
    assert BoxOf(vs[..2]) == Box(Zero, Vector3(2.0, 2.0, 0.0));
  }

  /** The ray stays at squared distance at least `2` from `(1, 1, 1)`: the
      sphere test rejects it. */
  lemma CornerRayMissesBound(sqrt: SqrtFn, mesh: Mesh, ray: Ray, h: real)
    requires ExactSqrt(sqrt) && mesh == CornerMesh && ray == CornerRay(h)
    ensures Dot(ray.direction, ray.direction) > 0.0 && BroadMiss(sqrt, mesh, ray)
  {
    forall t | 0.0 <= t ensures !OnSphere(mesh.bound, PointAt(ray, t)) {
      var d := Sub(PointAt(ray, t), mesh.bound.center);
      assert d.x == 1.0 && d.y == -1.0;
      assert d.z * d.z >= 0.0;
    }
  }

  /** The face `(1, 2, 3)` names the three vertices and normals in order,
      whatever the mesh's bound. */
  lemma CornerFace(mesh: Mesh)
    requires mesh.vertices == CornerVertices && mesh.normals == CornerNormals && mesh.faces == CornerFaces
    ensures FaceCorners(mesh, mesh.faces[0])
            == Ok(Corners(CornerVertices[0], CornerVertices[1], CornerVertices[2],
                          CornerNormal, CornerNormal, CornerNormal))
  {
    TruncateWhole(1);
    TruncateWhole(2);
    TruncateWhole(3);
  }

  /** The determinant of a ray straight down against the face is `4`. */
  lemma CornerDeterminant(ray: Ray, v0: Vector3, v1: Vector3, v2: Vector3)
    requires ray.direction == Vector3(0.0, 0.0, -1.0)
    requires v0 == CornerVertices[0] && v1 == CornerVertices[1] && v2 == CornerVertices[2]
    ensures Determinant(ray, v0, v1, v2) == 4.0
  {
    var e1, e2 := Sub(v1, v0), Sub(v2, v0);
    assert e1 == Vector3(-2.0, 2.0, 0.0);
    assert e2 == Vector3(-2.0, 0.0, 2.0);
    DownCross(ray.direction, e2);
  }

  /** Straight down crossed with the second edge. */
  lemma DownCross(d: Vector3, e: Vector3)
    requires d == Vector3(0.0, 0.0, -1.0) && e == Vector3(-2.0, 0.0, 2.0)
    ensures Cross(d, e) == Vector3(0.0, 2.0, 0.0)
  {
  }

  /** `h` units along the ray is the corner `v0`. */
  lemma CornerPoint(ray: Ray, v0: Vector3, h: real)
    requires ray == CornerRay(h) && v0 == CornerVertices[0]
    ensures PointAt(ray, h) == v0
  {
  }

  /** A ray that reaches the corner `v0` at a parameter past the threshold,
      off a near-parallel determinant, is accepted there with `u = v = 0`. */
  lemma SolveAtFirstCorner(ray: Ray, v0: Vector3, v1: Vector3, v2: Vector3, t: real, b: Barycentric)
    requires !NearParallel(Determinant(ray, v0, v1, v2))
    requires t > Epsilon && PointAt(ray, t) == v0 && b == Barycentric(t, 0.0, 0.0)
    ensures Solve(ray, v0, v1, v2) == Some(b)
  {
    VertexHit(ray, v0, v1, v2, t, b);
    VertexAccepted(t, b);
    SolveAccepts(ray, v0, v1, v2, b);
  }

  /** Reaching `v0` at `t` is reaching the triangle's plane at `u = v = 0`. */
  lemma VertexHit(ray: Ray, v0: Vector3, v1: Vector3, v2: Vector3, t: real, b: Barycentric)
    requires PointAt(ray, t) == v0 && b == Barycentric(t, 0.0, 0.0)
    ensures PointAt(ray, b.t) == SurfacePoint(v0, v1, v2, b.u, b.v)
  {
    SurfaceAtFirst(v0, v1, v2, b);
  }

  /** A corner reached past the threshold is accepted. */
  lemma VertexAccepted(t: real, b: Barycentric)
    requires t > Epsilon && b == Barycentric(t, 0.0, 0.0)
    ensures Accepted(b)
  {
  }

  /** Off a near-parallel determinant, accepted coordinates of a common
      point are what the test reports. */
  lemma SolveAccepts(ray: Ray, v0: Vector3, v1: Vector3, v2: Vector3, b: Barycentric)
    requires !NearParallel(Determinant(ray, v0, v1, v2))
    requires PointAt(ray, b.t) == SurfacePoint(v0, v1, v2, b.u, b.v)
    requires Accepted(b)
    ensures Solve(ray, v0, v1, v2) == Some(b)
  {
    SolveComplete(ray, v0, v1, v2, b);
  }

  /** Zero weights on both edges name the first corner. */
  lemma SurfaceAtFirst(v0: Vector3, v1: Vector3, v2: Vector3, b: Barycentric)
    requires b.u == 0.0 && b.v == 0.0
    ensures SurfacePoint(v0, v1, v2, b.u, b.v) == v0
  {
    assert Scale(Sub(v1, v0), 0.0) == Zero;
    assert Scale(Sub(v2, v0), 0.0) == Zero;
  }

  /** The ray meets the face, whatever the mesh's bound: the lookups give
      the three corners, the determinant is clear of the threshold, and `h`
      units along the ray is the first corner. */
  lemma CornerRayHitsFace(sqrt: SqrtFn, mesh: Mesh, ray: Ray, h: real)
    requires mesh.vertices == CornerVertices && mesh.normals == CornerNormals && mesh.faces == CornerFaces
    requires ray == CornerRay(h) && h > Epsilon
    ensures TestFace(sqrt, mesh, ray, mesh.faces[0]).Ok?
    ensures TestFace(sqrt, mesh, ray, mesh.faces[0]).value.Some?
  {
    var vs := CornerVertices;
    var c := Corners(vs[0], vs[1], vs[2], CornerNormal, CornerNormal, CornerNormal);
    assert FaceCorners(mesh, mesh.faces[0]) == Ok(c) by { CornerFace(mesh); }
    assert !NearParallel(Determinant(ray, c.v0, c.v1, c.v2)) by {
      CornerDeterminant(ray, c.v0, c.v1, c.v2);
    }
    assert PointAt(ray, h) == c.v0 by { CornerPoint(ray, c.v0, h); }
    FaceHitAtFirstCorner(sqrt, mesh, ray, mesh.faces[0], c, h, Barycentric(h, 0.0, 0.0));
  }

  /** A face whose first corner the ray reaches past the threshold, off a
      near-parallel determinant, is hit. */
  lemma FaceHitAtFirstCorner(sqrt: SqrtFn, mesh: Mesh, ray: Ray, face: Vector3, c: Corners, t: real, b: Barycentric)
    requires FaceCorners(mesh, face) == Ok(c)
    requires !NearParallel(Determinant(ray, c.v0, c.v1, c.v2))
    requires t > Epsilon && PointAt(ray, t) == c.v0 && b == Barycentric(t, 0.0, 0.0)
    ensures TestFace(sqrt, mesh, ray, face).Ok? && TestFace(sqrt, mesh, ray, face).value.Some?
  {
    SolveAtFirstCorner(ray, c.v0, c.v1, c.v2, t, b);
  }

  /** With the bound the source builds, the mesh loses hits: the
      constructor reads the counterexample's file into a one-face mesh with
      the radius-1 sphere around `(1, 1, 1)`; every ray straight down from
      `(2, 0, h)` with `h` past the threshold meets the face at its corner
      `(2, 0, 0)`, but that corner lies outside the sphere, the sphere
      rejects the ray first, and `Intersect` reports nothing. */
  lemma HalfExtentLosesHit(sqrt: SqrtFn, parse: NumberParser, w: CornerWords, lines: seq<string>, ray: Ray, h: real)
    requires ExactSqrt(sqrt) && CornerReadable(parse, w) && lines == CornerFile(w)
    requires ray == CornerRay(h) && h > Epsilon
    ensures Load(parse, lines, Zero, 1.0, CornerMaterial).Ok?
    ensures var mesh := Load(parse, lines, Zero, 1.0, CornerMaterial).value;
            && HalfExtentBound(mesh)
            && TestFace(sqrt, mesh, ray, mesh.faces[0]).Ok?
            && TestFace(sqrt, mesh, ray, mesh.faces[0]).value.Some?
            && Dot(ray.direction, ray.direction) > 0.0 && Intersect(sqrt, mesh, ray) == Ok(None)
  {
    CornerLoad(parse, w, lines);
    var mesh := CornerMesh;
    CornerRayHitsFace(sqrt, mesh, ray, h);
    CornerRayMissesBound(sqrt, mesh, ray, h);
    MissedByBound(sqrt, mesh, ray);
  }

  /** With the corrected bound the same file gives a mesh that reports the
      hit every such ray makes. */
  lemma EnclosedFindsCornerHit(sqrt: SqrtFn, parse: NumberParser, w: CornerWords, lines: seq<string>, ray: Ray, h: real)
    requires ExactSqrt(sqrt) && CornerReadable(parse, w) && lines == CornerFile(w)
    requires ray == CornerRay(h) && h > Epsilon
    ensures LoadEnclosed(sqrt, parse, lines, Zero, 1.0, CornerMaterial).Ok?
    ensures var mesh := LoadEnclosed(sqrt, parse, lines, Zero, 1.0, CornerMaterial).value;
            && Dot(ray.direction, ray.direction) > 0.0
            && Intersect(sqrt, mesh, ray).Ok? && Intersect(sqrt, mesh, ray).value.Some?
  {
    CornerLoad(parse, w, lines);
    var mesh := LoadEnclosed(sqrt, parse, lines, Zero, 1.0, CornerMaterial).value;
    EnclosedCornerHit(sqrt, mesh, ray, h);
  }

  /** A mesh with the counterexample's lists and an enclosing bound reports
      the hit of every such ray. */
  lemma EnclosedCornerHit(sqrt: SqrtFn, mesh: Mesh, ray: Ray, h: real)
    requires ExactSqrt(sqrt) && Enclosed(sqrt, mesh)
    requires mesh.vertices == CornerVertices && mesh.normals == CornerNormals && mesh.faces == CornerFaces
    requires ray == CornerRay(h) && h > Epsilon
    ensures Dot(ray.direction, ray.direction) > 0.0
    ensures Intersect(sqrt, mesh, ray).Ok? && Intersect(sqrt, mesh, ray).value.Some?
  {
    assert Dot(ray.direction, ray.direction) == 1.0;
    CornerRayHitsFace(sqrt, mesh, ray, h);
    NoHitLost(sqrt, mesh, ray, 0);
    assert forall i :: 0 <= i < |mesh.faces| ==> ValidFace(mesh, mesh.faces[i]);
  }

  /** A ray the bounding sphere rejects gets no hit. */
  lemma MissedByBound(sqrt: SqrtFn, mesh: Mesh, ray: Ray)
    requires ExactSqrt(sqrt) && Dot(ray.direction, ray.direction) > 0.0
    requires BroadMiss(sqrt, mesh, ray)
    ensures Intersect(sqrt, mesh, ray) == Ok(None)
  {
  }
}
