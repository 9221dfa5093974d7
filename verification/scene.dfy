/** The renderer's pure helpers (src/scene/Scene.cs): clamping, mirror
    reflection, Snell refraction, the Fresnel reflectance and the distance a
    refracted ray travels inside an entity. */
module Scenes {
  import opened Wrappers
  import opened Vectors
  import opened Geometry
  import Spheres
  import Planes
  import Triangles
  import ObjModels
  import MollerTrumbore

  /** `Math.Max` and `Math.Min` on reals (NaN is not modelled). */
  function Max(a: real, b: real): real {
    if a >= b then a else b
  }

  function Min(a: real, b: real): real {
    if a <= b then a else b
  }

  function Abs(a: real): real {
    if a < 0.0 then -a else a
  }

  // ---------------------------------------------------------------- clamp

  /** `clamp(lo, hi, v)`: the maximum of `lo` and the minimum of `hi` and `v`. */
  function Clamp(lo: real, hi: real, v: real): (r: real)
    ensures lo <= hi ==> lo <= r <= hi
    ensures lo <= v <= hi ==> r == v
    ensures v < lo ==> r == lo
    ensures lo <= hi < v ==> r == hi
  {
    Max(lo, Min(hi, v))
  }

  /** On a non-empty range the clamped value is the point of the range
      nearest to `v`. */
  lemma ClampIsNearest(lo: real, hi: real, v: real, w: real)
    requires lo <= hi && lo <= w <= hi
    ensures Abs(Clamp(lo, hi, v) - v) <= Abs(w - v)
  {
  }

  /** Clamping twice is clamping once. */
  lemma ClampIdempotent(lo: real, hi: real, v: real)
    requires lo <= hi
    ensures Clamp(lo, hi, Clamp(lo, hi, v)) == Clamp(lo, hi, v)
  {
  }

  // -------------------------------------------------------------- reflect

  /** `reflect(I, N) = I - 2 (I . N) N`.  The change is along `N` only, and
      for a unit `N` the component along `N` changes sign. */
  function Reflect(i: Vector3, n: Vector3): (r: Vector3)
    ensures Cross(Sub(r, i), n) == Zero
    ensures Dot(n, n) == 1.0 ==> Dot(r, n) == -Dot(i, n)
  {
    var k := 2.0 * Dot(i, n);
    var r := Sub(i, Scale(n, k));
    assert Sub(r, i) == Scale(n, -k);
    CrossSelfScaled(n, -k);
    NormalPart(i, n, k);
    r
  }

  /** The component of `i - k n` along `n`. */
  lemma NormalPart(i: Vector3, n: Vector3, k: real)
    ensures Dot(Sub(i, Scale(n, k)), n) == Dot(i, n) - k * Dot(n, n)
  {
    var r := Sub(i, Scale(n, k));
    AlongNormal(i.x, i.y, i.z, n.x, n.y, n.z, k, r.x, r.y, r.z);
  }

  /** `r = i - k n`, one component at a time. */
  lemma AlongNormal(i1: real, i2: real, i3: real, n1: real, n2: real, n3: real, k: real,
                    r1: real, r2: real, r3: real)
    requires r1 == i1 - n1 * k && r2 == i2 - n2 * k && r3 == i3 - n3 * k
    ensures r1 * n1 + r2 * n2 + r3 * n3 == (i1 * n1 + i2 * n2 + i3 * n3) - k * (n1 * n1 + n2 * n2 + n3 * n3)
    ensures r1 * r1 + r2 * r2 + r3 * r3
            == (i1 * i1 + i2 * i2 + i3 * i3) - 2.0 * k * (i1 * n1 + i2 * n2 + i3 * n3)
               + k * k * (n1 * n1 + n2 * n2 + n3 * n3)
  {
  }

  /** Reflecting twice in the same unit normal gives the direction back. */
  lemma ReflectTwice(i: Vector3, n: Vector3)
    requires Dot(n, n) == 1.0
    ensures Reflect(Reflect(i, n), n) == i
  {
    var r := Reflect(i, n);
    var d := Dot(i, n);
    assert Dot(r, n) == -d;
    var back := Reflect(r, n);
    assert back == Sub(r, Scale(n, 2.0 * -d));
    assert r == Sub(i, Scale(n, 2.0 * d));
  }

  /** Reflection in a unit normal keeps the length of the direction. */
  lemma ReflectKeepsLength(i: Vector3, n: Vector3)
    requires Dot(n, n) == 1.0
    ensures Dot(Reflect(i, n), Reflect(i, n)) == Dot(i, i)
  {
    var k := 2.0 * Dot(i, n);
    var r := Reflect(i, n);
    AlongNormal(i.x, i.y, i.z, n.x, n.y, n.z, k, r.x, r.y, r.z);
    KeptLength(Dot(i, i), Dot(i, n), k, Dot(r, r));
  }

  lemma KeptLength(ii: real, d: real, k: real, rr: real)
    requires k == 2.0 * d && rr == ii - 2.0 * k * d + k * k * 1.0
    ensures rr == ii
  {
  }

  // -------------------------------------------------------------- refract

  /** The side of the surface a ray meets: the cosine of the angle of
      incidence against the normal that faces the ray, the index ratio
      `etai / etat`, and that normal. */
  datatype Incidence = Incidence(cosi: real, eta: real, normal: Vector3)

  /** The set-up lines of `refract`.  A ray with `I . N < 0` enters: ratio
      `1 / ior`, normal `N`.  Every other ray, the grazing `I . N = 0` one
      included, leaves: ratio `ior`, normal `-N`.  For unit vectors `cosi` is
      the cosine against the chosen normal. */
  function RefractIncidence(i: Vector3, n: Vector3, ior: real): (s: Incidence)
    requires Dot(i, n) < 0.0 ==> ior != 0.0
    ensures 0.0 <= s.cosi <= 1.0
    ensures -1.0 <= Dot(i, n) <= 1.0 ==> s.cosi == -Dot(i, s.normal) && s.cosi == Abs(Dot(i, n))
    ensures Dot(s.normal, s.normal) == Dot(n, n)
    ensures Dot(i, n) < 0.0 ==> s.normal == n && s.eta * ior == 1.0
    ensures Dot(i, n) >= 0.0 ==> s.normal == Neg(n) && s.eta == ior
  {
    var cosi := Clamp(-1.0, 1.0, Dot(i, n));
    if cosi < 0.0 then
      Incidence(-cosi, 1.0 / ior, n)
    else
      NegatedNormal(i, n);
      Incidence(cosi, ior / 1.0, Neg(n))
  }

  lemma NegatedNormal(i: Vector3, n: Vector3)
    ensures Dot(i, Neg(n)) == -Dot(i, n) && Dot(Neg(n), Neg(n)) == Dot(n, n)
  {
    var m := Neg(n);
    NegatedDot(i.x, i.y, i.z, n.x, n.y, n.z, m.x, m.y, m.z);
    var nn, mm := Dot(n, n), Dot(m, m);
    assert mm == nn by {
      NegatedSquare(n.x, n.y, n.z, m.x, m.y, m.z, nn, mm);
    }
  }

  lemma NegatedSquare(n1: real, n2: real, n3: real, m1: real, m2: real, m3: real, nn: real, mm: real)
    requires m1 == -n1 && m2 == -n2 && m3 == -n3
    requires nn == n1 * n1 + n2 * n2 + n3 * n3 && mm == m1 * m1 + m2 * m2 + m3 * m3
    ensures mm == nn
  {
  }

  /** `k = 1 - eta^2 (1 - cosi^2)`: the squared cosine of the angle of
      refraction, negative exactly under total internal reflection. */
  function TransmittedCos2(s: Incidence): real {
    1.0 - s.eta * s.eta * (1.0 - s.cosi * s.cosi)
  }

  /** `refract(I, N, ior)`: the zero vector under total internal reflection,
      otherwise `eta I + (eta cosi - sqrt k) n`.  The refracted direction
      obeys Snell's law (its part across the normal is `eta` times the
      incident's) and, for a unit normal, makes the cosine `sqrt k` with the
      normal on the far side. */
  function Refract(sqrt: SqrtFn, i: Vector3, n: Vector3, ior: real): (r: Vector3)
    requires Dot(i, n) < 0.0 ==> ior != 0.0
    ensures var s := RefractIncidence(i, n, ior);
            TransmittedCos2(s) < 0.0 ==> r == Zero
    ensures var s := RefractIncidence(i, n, ior);
            TransmittedCos2(s) >= 0.0 ==> Cross(r, s.normal) == Scale(Cross(i, s.normal), s.eta)
    ensures var s := RefractIncidence(i, n, ior);
            ExactSqrt(sqrt) && TransmittedCos2(s) >= 0.0 && Dot(n, n) == 1.0 && -1.0 <= Dot(i, n) <= 1.0 ==>
              Dot(r, s.normal) == -sqrt(TransmittedCos2(s)) && Dot(r, s.normal) <= 0.0
    ensures var s := RefractIncidence(i, n, ior);
            ExactSqrt(sqrt) && TransmittedCos2(s) >= 0.0 && Dot(i, i) == 1.0 && Dot(n, n) == 1.0 ==>
              Dot(r, r) == 1.0
  {
    var s := RefractIncidence(i, n, ior);
    var k := TransmittedCos2(s);
    if k < 0.0 then Zero
    else
      var w := s.eta * s.cosi - sqrt(k);
      var r := Add(Scale(i, s.eta), Scale(s.normal, w));
      RefractedFacts(sqrt, i, n, s, k, w, r);
      r
  }

  /** The refracted direction's properties, for any side set-up `s` with the
      properties `RefractIncidence` guarantees. */
  lemma RefractedFacts(sqrt: SqrtFn, i: Vector3, n: Vector3, s: Incidence, k: real, w: real, r: Vector3)
    requires k == TransmittedCos2(s) && k >= 0.0 && w == s.eta * s.cosi - sqrt(k)
    requires r == Add(Scale(i, s.eta), Scale(s.normal, w))
    requires Dot(s.normal, s.normal) == Dot(n, n)
    requires -1.0 <= Dot(i, n) <= 1.0 ==> s.cosi == -Dot(i, s.normal)
    ensures Cross(r, s.normal) == Scale(Cross(i, s.normal), s.eta)
    ensures ExactSqrt(sqrt) && Dot(n, n) == 1.0 && -1.0 <= Dot(i, n) <= 1.0 ==>
              Dot(r, s.normal) == -sqrt(k) && Dot(r, s.normal) <= 0.0
    ensures ExactSqrt(sqrt) && Dot(i, i) == 1.0 && Dot(n, n) == 1.0 ==> Dot(r, r) == 1.0
  {
    TransmittedCrossVector(i, s.normal, s.eta, w, r);
    if ExactSqrt(sqrt) && Dot(n, n) == 1.0 && -1.0 <= Dot(i, n) <= 1.0 {
      RefractedCosine(sqrt, i, s, k, w, r);
    }
    if ExactSqrt(sqrt) && Dot(i, i) == 1.0 && Dot(n, n) == 1.0 {
      assert -1.0 <= Dot(i, n) <= 1.0 by {
        UnitDotBound(i, n);
      }
      RefractedUnit(sqrt, i, s, k, w, r);
    }
  }

  lemma RefractedCosine(sqrt: SqrtFn, i: Vector3, s: Incidence, k: real, w: real, r: Vector3)
    requires ExactSqrt(sqrt) && k >= 0.0 && w == s.eta * s.cosi - sqrt(k)
    requires r == Add(Scale(i, s.eta), Scale(s.normal, w))
    requires Dot(s.normal, s.normal) == 1.0 && s.cosi == -Dot(i, s.normal)
    ensures Dot(r, s.normal) == -sqrt(k) && Dot(r, s.normal) <= 0.0
  {
    var m := s.normal;
    TransmittedDotVector(i, m, s.eta, w, r);
    CosineAcross(s.eta, s.cosi, sqrt(k), w, Dot(i, m), Dot(m, m), Dot(r, m));
  }

  lemma RefractedUnit(sqrt: SqrtFn, i: Vector3, s: Incidence, k: real, w: real, r: Vector3)
    requires ExactSqrt(sqrt) && k == TransmittedCos2(s) && k >= 0.0 && w == s.eta * s.cosi - sqrt(k)
    requires r == Add(Scale(i, s.eta), Scale(s.normal, w))
    requires Dot(i, i) == 1.0 && Dot(s.normal, s.normal) == 1.0 && s.cosi == -Dot(i, s.normal)
    ensures Dot(r, r) == 1.0
  {
    var m := s.normal;
    TransmittedSquareVector(i, m, s.eta, w, r);
    UnitTransmission(s.eta, s.cosi, sqrt(k), w, k, Dot(i, i), Dot(i, m), Dot(m, m), Dot(r, r));
  }

  lemma CosineAcross(eta: real, c: real, root: real, w: real, im: real, mm: real, rm: real)
    requires w == eta * c - root && root >= 0.0 && im == -c && mm == 1.0 && rm == eta * im + w * mm
    ensures rm == -root && rm <= 0.0
  {
  }

  /** The part of `eta i + w m` across `m` is `eta` times that of `i`:
      the cross product is linear in its first argument and `m x m = 0`. */
  lemma TransmittedCrossVector(i: Vector3, m: Vector3, eta: real, w: real, r: Vector3)
    requires r == Add(Scale(i, eta), Scale(m, w))
    ensures Cross(r, m) == Scale(Cross(i, m), eta)
  {
    CrossAdd(Scale(i, eta), Scale(m, w), m);
    CrossScale(i, eta, m);
    CrossSelfScaled(m, w);
    var c := Scale(Cross(i, m), eta);
    assert Add(c, Zero) == c;
  }

  lemma CrossAdd(a: Vector3, b: Vector3, m: Vector3)
    ensures Cross(Add(a, b), m) == Add(Cross(a, m), Cross(b, m))
  {
  }

  lemma CrossScale(a: Vector3, k: real, m: Vector3)
    ensures Cross(Scale(a, k), m) == Scale(Cross(a, m), k)
  {
    CrossScaleX(a, k, m);
    CrossScaleY(a, k, m);
    CrossScaleZ(a, k, m);
  }

  lemma CrossScaleX(a: Vector3, k: real, m: Vector3)
    ensures Cross(Scale(a, k), m).x == Cross(a, m).x * k
  {
    ScaledMinor(a.y, a.z, m.y, m.z, k);
  }

  lemma CrossScaleY(a: Vector3, k: real, m: Vector3)
    ensures Cross(Scale(a, k), m).y == Cross(a, m).y * k
  {
    ScaledMinor(a.z, a.x, m.z, m.x, k);
  }

  lemma CrossScaleZ(a: Vector3, k: real, m: Vector3)
    ensures Cross(Scale(a, k), m).z == Cross(a, m).z * k
  {
    ScaledMinor(a.x, a.y, m.x, m.y, k);
  }

  lemma ScaledMinor(a1: real, a2: real, m1: real, m2: real, k: real)
    ensures (a1 * k) * m2 - (a2 * k) * m1 == (a1 * m2 - a2 * m1) * k
  {
  }

  lemma CrossSelfScaled(m: Vector3, w: real)
    ensures Cross(Scale(m, w), m) == Zero
  {
    CrossScale(m, w, m);
    assert Cross(m, m) == Zero;
    assert Scale(Zero, w) == Zero;
  }

  lemma TransmittedDotVector(i: Vector3, m: Vector3, eta: real, w: real, r: Vector3)
    requires r == Add(Scale(i, eta), Scale(m, w))
    ensures Dot(r, m) == eta * Dot(i, m) + w * Dot(m, m)
  {
    var im, mm, rm := Dot(i, m), Dot(m, m), Dot(r, m);
    TransmittedDot(i.x, i.y, i.z, m.x, m.y, m.z, eta, w, r.x, r.y, r.z, im, mm, rm);
  }

  lemma TransmittedSquareVector(i: Vector3, m: Vector3, eta: real, w: real, r: Vector3)
    requires r == Add(Scale(i, eta), Scale(m, w))
    ensures Dot(r, r) == eta * eta * Dot(i, i) + 2.0 * eta * w * Dot(i, m) + w * w * Dot(m, m)
  {
    var ii, im, mm, rr := Dot(i, i), Dot(i, m), Dot(m, m), Dot(r, r);
    TransmittedSquare(i.x, i.y, i.z, m.x, m.y, m.z, eta, w, r.x, r.y, r.z, ii, im, mm, rr);
  }

  lemma TransmittedDot(i1: real, i2: real, i3: real, m1: real, m2: real, m3: real, eta: real, w: real,
                       r1: real, r2: real, r3: real, im: real, mm: real, rm: real)
    requires r1 == i1 * eta + m1 * w && r2 == i2 * eta + m2 * w && r3 == i3 * eta + m3 * w
    requires im == i1 * m1 + i2 * m2 + i3 * m3 && mm == m1 * m1 + m2 * m2 + m3 * m3
    requires rm == r1 * m1 + r2 * m2 + r3 * m3
    ensures rm == eta * im + w * mm
  {
  }

  lemma TransmittedSquare(i1: real, i2: real, i3: real, m1: real, m2: real, m3: real, eta: real, w: real,
                          r1: real, r2: real, r3: real, ii: real, im: real, mm: real, rr: real)
    requires r1 == i1 * eta + m1 * w && r2 == i2 * eta + m2 * w && r3 == i3 * eta + m3 * w
    requires ii == i1 * i1 + i2 * i2 + i3 * i3 && im == i1 * m1 + i2 * m2 + i3 * m3
    requires mm == m1 * m1 + m2 * m2 + m3 * m3 && rr == r1 * r1 + r2 * r2 + r3 * r3
    ensures rr == eta * eta * ii + 2.0 * eta * w * im + w * w * mm
  {
  }

  lemma UnitTransmission(eta: real, c: real, root: real, w: real, k: real,
                         ii: real, im: real, mm: real, rr: real)
    requires k == 1.0 - eta * eta * (1.0 - c * c) && root * root == k && w == eta * c - root
    requires ii == 1.0 && mm == 1.0 && im == -c
    requires rr == eta * eta * ii + 2.0 * eta * w * im + w * w * mm
    ensures rr == 1.0
  {
  }

  /** Two unit vectors have a dot product in `[-1, 1]`, and the squared
      length of their cross product is `1 - (i . n)^2` (Lagrange). */
  lemma UnitDotBound(i: Vector3, n: Vector3)
    requires Dot(i, i) == 1.0 && Dot(n, n) == 1.0
    ensures -1.0 <= Dot(i, n) <= 1.0
    ensures Dot(Cross(i, n), Cross(i, n)) == 1.0 - Dot(i, n) * Dot(i, n)
  {
    CauchySchwarz(i, n);
    SquareAtMostOne(Dot(i, n));
  }

  lemma SquareAtMostOne(d: real)
    requires d * d <= 1.0
    ensures -1.0 <= d <= 1.0
  {
    assert (1.0 - d) * (1.0 + d) >= 0.0;
  }

  /** Total internal reflection, stated with the squared sine of incidence
      `1 - (i . n)^2` (for unit vectors the squared length of `i x n`, by
      `UnitDotBound`): `refract` gives the zero vector exactly when
      `eta^2 sin^2(i) > 1`, and a unit direction otherwise. */
  lemma RefractVanishesIffTotalInternal(sqrt: SqrtFn, i: Vector3, n: Vector3, ior: real)
    requires ExactSqrt(sqrt) && Dot(i, i) == 1.0 && Dot(n, n) == 1.0
    requires Dot(i, n) < 0.0 ==> ior != 0.0
    ensures var s := RefractIncidence(i, n, ior);
            && (Refract(sqrt, i, n, ior) == Zero <==> s.eta * s.eta * (1.0 - Dot(i, n) * Dot(i, n)) > 1.0)
            && (s.eta * s.eta * (1.0 - Dot(i, n) * Dot(i, n)) <= 1.0 ==>
                  Dot(Refract(sqrt, i, n, ior), Refract(sqrt, i, n, ior)) == 1.0)
  {
    var s := RefractIncidence(i, n, ior);
    assert -1.0 <= Dot(i, n) <= 1.0 by {
      UnitDotBound(i, n);
    }
    SineForm(i, n, ior);
    RefractOutcome(sqrt, i, n, ior);
    VanishesIffNegative(TransmittedCos2(s), s.eta, Dot(i, n), Refract(sqrt, i, n, ior));
  }

  /** With `cosi = |i . n|`: `k = 1 - eta^2 (1 - (i . n)^2)`. */
  lemma SineForm(i: Vector3, n: Vector3, ior: real)
    requires -1.0 <= Dot(i, n) <= 1.0
    requires Dot(i, n) < 0.0 ==> ior != 0.0
    ensures var s := RefractIncidence(i, n, ior);
            TransmittedCos2(s) == 1.0 - s.eta * s.eta * (1.0 - Dot(i, n) * Dot(i, n))
  {
    var s := RefractIncidence(i, n, ior);
    SineMeasure(s.eta, s.cosi, Dot(i, n), TransmittedCos2(s));
  }

  /** The two outcomes of `refract` for unit vectors. */
  lemma RefractOutcome(sqrt: SqrtFn, i: Vector3, n: Vector3, ior: real)
    requires ExactSqrt(sqrt) && Dot(i, i) == 1.0 && Dot(n, n) == 1.0
    requires Dot(i, n) < 0.0 ==> ior != 0.0
    ensures var k := TransmittedCos2(RefractIncidence(i, n, ior));
            && (k < 0.0 ==> Refract(sqrt, i, n, ior) == Zero)
            && (k >= 0.0 ==> Dot(Refract(sqrt, i, n, ior), Refract(sqrt, i, n, ior)) == 1.0)
  {
  }

  lemma VanishesIffNegative(k: real, eta: real, d: real, r: Vector3)
    requires k == 1.0 - eta * eta * (1.0 - d * d)
    requires k < 0.0 ==> r == Zero
    requires k >= 0.0 ==> Dot(r, r) == 1.0
    ensures r == Zero <==> eta * eta * (1.0 - d * d) > 1.0
    ensures eta * eta * (1.0 - d * d) <= 1.0 ==> Dot(r, r) == 1.0
  {
    DotSelfPositive(r);
  }

  /** With `cosi = |d|`: `k = 1 - eta^2 (1 - d^2)`. */
  lemma SineMeasure(eta: real, cosi: real, d: real, k: real)
    requires cosi == Abs(d) && k == 1.0 - eta * eta * (1.0 - cosi * cosi)
    ensures k == 1.0 - eta * eta * (1.0 - d * d)
  {
    SameSquare(cosi, d);
  }

  lemma SameSquare(a: real, b: real)
    requires a == b || a == -b
    ensures a * a == b * b
  {
  }

  // -------------------------------------------------------------- fresnel

  /** The refractive indices `fresnel` uses on each side: swapped only when
      `cosi > 0`. */
  datatype Indices = Indices(etai: real, etat: real)

  function FresnelIndices(cosi: real, ior: real): (e: Indices)
    ensures cosi > 0.0 ==> e == Indices(ior, 1.0)
    ensures cosi <= 0.0 ==> e == Indices(1.0, ior)
  {
    if cosi > 0.0 then Indices(ior, 1.0) else Indices(1.0, ior)
  }

  /** `(etai / etat)^2 (1 - cosi^2)`: by Snell's law, the squared sine of
      the angle of refraction `fresnel` works with. */
  function FresnelSine2(cosi: real, ior: real): real
    requires ior > 0.0
  {
    var e := FresnelIndices(cosi, ior);
    (e.etai / e.etat) * (e.etai / e.etat) * (1.0 - cosi * cosi)
  }

  /** `fresnel(I, N, ior)`: the fraction of light reflected.  It is 1 under
      total internal reflection (`sint >= 1`) and at grazing incidence, and
      lies in `[0, 1]` otherwise. */
  function Fresnel(sqrt: SqrtFn, i: Vector3, n: Vector3, ior: real): (kr: real)
    requires ExactSqrt(sqrt) && ior > 0.0
    ensures 0.0 <= kr <= 1.0
    ensures FresnelSine2(Clamp(-1.0, 1.0, Dot(i, n)), ior) >= 1.0 ==> kr == 1.0
    ensures Dot(i, n) == 0.0 ==> kr == 1.0
  {
    var cosi := Clamp(-1.0, 1.0, Dot(i, n));
    var e := FresnelIndices(cosi, ior);
    var ratio := e.etai / e.etat;
    var root := sqrt(Max(0.0, 1.0 - cosi * cosi));
    var sint := ratio * root;
    SineOfIncidence(cosi, ratio, root, sint, FresnelSine2(cosi, ior));
    if sint >= 1.0 then 1.0
    else
      var cost := sqrt(Max(0.0, 1.0 - sint * sint));
      assert cost > 0.0 by {
        PositiveCosine(sint);
        SqrtPositive(sqrt, 1.0 - sint * sint);
      }
      PartialReflectance(e.etai, e.etat, Abs(cosi), cost)
  }

  /** With `ratio > 0`, `sint >= 1` is the same test as
      `ratio^2 (1 - cosi^2) >= 1`. */
  lemma SineOfIncidence(cosi: real, ratio: real, root: real, sint: real, measure: real)
    requires -1.0 <= cosi <= 1.0 && ratio > 0.0
    requires root >= 0.0 && root * root == Max(0.0, 1.0 - cosi * cosi) && sint == ratio * root
    requires measure == ratio * ratio * (1.0 - cosi * cosi)
    ensures sint >= 0.0
    ensures sint >= 1.0 <==> measure >= 1.0
  {
    assert 1.0 - cosi * cosi >= 0.0 by {
      assert cosi * cosi <= 1.0 by { SquareBelowOne(cosi); }
    }
    assert sint * sint == measure;
    if sint >= 1.0 {
      assert sint * sint >= 1.0 * sint;
    } else {
      assert sint * sint < 1.0 by { SquareBelowOneNonNegative(sint); }
    }
  }

  lemma SquareBelowOne(c: real)
    requires -1.0 <= c <= 1.0
    ensures c * c <= 1.0
  {
    if c >= 0.0 {
      assert c * c <= 1.0 * c;
    } else {
      assert c * c <= -1.0 * c;
    }
  }

  lemma SquareBelowOneNonNegative(s: real)
    requires 0.0 <= s < 1.0
    ensures s * s < 1.0
  {
    assert s * s <= 1.0 * s;
  }

  lemma PositiveCosine(sint: real)
    requires 0.0 <= sint < 1.0
    ensures Max(0.0, 1.0 - sint * sint) == 1.0 - sint * sint > 0.0
  {
    SquareBelowOneNonNegative(sint);
  }

  /** The partial-reflection branch: the mean of the squared `s` and `p`
      amplitude ratios.  Each ratio lies in `[-1, 1]`, and both are `-1` at
      grazing incidence, which makes the reflectance 1 there. */
  function PartialReflectance(etai: real, etat: real, cosi: real, cost: real): (kr: real)
    requires etai > 0.0 && etat > 0.0 && cosi >= 0.0 && cost > 0.0
    ensures 0.0 <= kr <= 1.0
    ensures cosi == 0.0 ==> kr == 1.0
  {
    var a := etat * cosi;
    var b := etai * cost;
    AmplitudeRatio(a, b);
    var rs := (a - b) / (a + b);
    var a' := etai * cosi;
    var b' := etat * cost;
    AmplitudeRatio(a', b');
    var rp := (a' - b') / (a' + b');
    (rs * rs + rp * rp) / 2.0
  }

  /** `(a - b) / (a + b)` with `a >= 0` and `b > 0` lies in `[-1, 1]`, and is
      `-1` when `a = 0`. */
  lemma AmplitudeRatio(a: real, b: real)
    requires a >= 0.0 && b > 0.0
    ensures a + b > 0.0
    ensures var q := (a - b) / (a + b); 0.0 <= q * q <= 1.0 && (a == 0.0 ==> q == -1.0)
  {
    var q := (a - b) / (a + b);
    assert q * (a + b) == a - b;
    assert (1.0 - q) * (a + b) == 2.0 * b;
    assert (q + 1.0) * (a + b) == 2.0 * a;
    FactorSign(1.0 - q, a + b);
    FactorSign(q + 1.0, a + b);
    SquareBelowOne(q);
  }

  /** The sign of `x` follows from that of `x y` when `y > 0`. */
  lemma FactorSign(x: real, y: real)
    requires y > 0.0
    ensures x * y > 0.0 ==> x > 0.0
    ensures x * y >= 0.0 ==> x >= 0.0
    ensures x * y == 0.0 ==> x == 0.0
  {
  }

  /** At normal incidence from outside (`I . N = -1`) the reflectance is the
      classic `((ior - 1) / (ior + 1))^2`. */
  lemma FresnelNormalIncidence(sqrt: SqrtFn, i: Vector3, n: Vector3, ior: real)
    requires ExactSqrt(sqrt) && ior > 0.0 && Dot(i, n) == -1.0
    ensures Fresnel(sqrt, i, n, ior) == ((ior - 1.0) / (ior + 1.0)) * ((ior - 1.0) / (ior + 1.0))
  {
    var cosi := Clamp(-1.0, 1.0, Dot(i, n));
    assert cosi == -1.0;
    var root := sqrt(Max(0.0, 1.0 - cosi * cosi));
    assert root == 0.0 by {
      assert Max(0.0, 1.0 - cosi * cosi) == 0.0;
      RootOfZero(sqrt);
    }
    var sint := (1.0 / ior) * root;
    assert sint == 0.0;
    assert sqrt(Max(0.0, 1.0 - sint * sint)) == 1.0 by {
      assert Max(0.0, 1.0 - sint * sint) == 1.0;
      RootOfOne(sqrt);
    }
    NormalAmplitudes(ior);
  }

  lemma RootOfZero(sqrt: SqrtFn)
    requires ExactSqrt(sqrt)
    ensures sqrt(0.0) == 0.0
  {
    var s := sqrt(0.0);
    assert s * s == 0.0;
    Spheres.ZeroProduct(s, s);
  }

  lemma RootOfOne(sqrt: SqrtFn)
    requires ExactSqrt(sqrt)
    ensures sqrt(1.0) == 1.0
  {
    var s := sqrt(1.0);
    assert s >= 0.0 && s * s == 1.0;
    assert (s - 1.0) * (s + 1.0) == 0.0;
    Spheres.ZeroProduct(s - 1.0, s + 1.0);
  }

  lemma NormalAmplitudes(ior: real)
    requires ior > 0.0
    ensures PartialReflectance(1.0, ior, 1.0, 1.0) == ((ior - 1.0) / (ior + 1.0)) * ((ior - 1.0) / (ior + 1.0))
  {
    var rs := (ior * 1.0 - 1.0 * 1.0) / (ior * 1.0 + 1.0 * 1.0);
    var rp := (1.0 * 1.0 - ior * 1.0) / (1.0 * 1.0 + ior * 1.0);
    assert rp == -rs;
    assert rs == (ior - 1.0) / (ior + 1.0);
  }

  /** `refract` and `fresnel` choose their sides differently only at
      grazing incidence: there `refract` treats the ray as leaving (ratio
      `ior`) and `fresnel` as entering (ratio `1 / ior`).  The disagreement
      is harmless, because `fresnel` is 1 there and the caller only refracts
      when it is below 1. */
  lemma SidesDisagreeAtGrazing(sqrt: SqrtFn, i: Vector3, n: Vector3, ior: real)
    requires ExactSqrt(sqrt) && ior > 0.0 && Dot(i, n) == 0.0
    ensures RefractIncidence(i, n, ior).eta == ior
    ensures FresnelIndices(Clamp(-1.0, 1.0, Dot(i, n)), ior) == Indices(1.0, ior)
    ensures Fresnel(sqrt, i, n, ior) == 1.0
  {
  }

  /** When `fresnel` leaves something to transmit, `refract` has a real
      refracted ray: its `k` is positive, and for unit vectors the result is
      a unit direction rather than the zero vector. */
  lemma TransmissionWhenFresnelBelowOne(sqrt: SqrtFn, i: Vector3, n: Vector3, ior: real)
    requires ExactSqrt(sqrt) && ior > 0.0 && Fresnel(sqrt, i, n, ior) < 1.0
    ensures TransmittedCos2(RefractIncidence(i, n, ior)) > 0.0
    ensures Dot(i, i) == 1.0 && Dot(n, n) == 1.0 ==>
              Dot(Refract(sqrt, i, n, ior), Refract(sqrt, i, n, ior)) == 1.0
  {
    var c := Clamp(-1.0, 1.0, Dot(i, n));
    var s := RefractIncidence(i, n, ior);
    assert FresnelSine2(c, ior) < 1.0;
    SidesAgreeOffGrazing(i, n, ior);
    SameMeasure(c, ior, s);
  }

  /** Away from grazing incidence `refract` and `fresnel` use the same index
      ratio, and `refract`'s `cosi` is the magnitude of the clamped cosine. */
  lemma SidesAgreeOffGrazing(i: Vector3, n: Vector3, ior: real)
    requires ior > 0.0 && Dot(i, n) != 0.0
    ensures var c := Clamp(-1.0, 1.0, Dot(i, n));
            var s := RefractIncidence(i, n, ior);
            && s.eta == FresnelIndices(c, ior).etai / FresnelIndices(c, ior).etat
            && s.cosi == Abs(c)
  {
    var c := Clamp(-1.0, 1.0, Dot(i, n));
    if c < 0.0 {
      assert RefractIncidence(i, n, ior).eta == 1.0 / ior;
    }
  }

  /** Below the critical angle for `fresnel`, `refract`'s `k` is positive. */
  lemma SameMeasure(c: real, ior: real, s: Incidence)
    requires ior > 0.0 && FresnelSine2(c, ior) < 1.0
    requires s.eta == FresnelIndices(c, ior).etai / FresnelIndices(c, ior).etat && s.cosi == Abs(c)
    ensures TransmittedCos2(s) > 0.0
  {
    SameSquare(s.cosi, c);
  }

  // ------------------------------------------------------------- entities

  /** The scene entities the model covers, each with its own `Intersect`. */
  datatype Entity =
    | SphereEntity(sphere: Spheres.Sphere)
    | PlaneEntity(plane: Planes.Plane)
    | TriangleEntity(triangle: Triangles.Triangle)
    | ModelEntity(mesh: ObjModels.Mesh)

  /** What each entity's `Intersect` needs of the ray: a non-zero direction
      for the quadratic of a sphere or of a model's bounding sphere, and a
      direction not parallel to a plane. */
  predicate Intersectable(e: Entity, ray: Ray) {
    match e
    case SphereEntity(_) => Dot(ray.direction, ray.direction) > 0.0
    case PlaneEntity(p) => Dot(ray.direction, p.normal) != 0.0
    case TriangleEntity(_) => true
    case ModelEntity(_) => Dot(ray.direction, ray.direction) > 0.0
  }

  /** `entity.Intersect(ray)` for each kind of entity; only a model can fail,
      on a bad face index. */
  function EntityIntersect(sqrt: SqrtFn, e: Entity, ray: Ray): (r: Result<Option<RayHit>, ObjModels.MeshError>)
    requires ExactSqrt(sqrt) && Intersectable(e, ray)
    ensures r.Err? ==> e.ModelEntity?
  {
    match e
    case SphereEntity(s) => Ok(Spheres.Intersect(sqrt, s, ray))
    case PlaneEntity(p) => Ok(Planes.Intersect(p, ray))
    case TriangleEntity(t) => Ok(Triangles.Intersect(t, ray))
    case ModelEntity(m) => ObjModels.Intersect(sqrt, m, ray)
  }

  /** Every entity reports its hit at a point the ray reaches, `origin + t
      direction` with `t >= 0`. */
  lemma HitAhead(sqrt: SqrtFn, e: Entity, ray: Ray) returns (t: real)
    requires ExactSqrt(sqrt) && Intersectable(e, ray)
    requires EntityIntersect(sqrt, e, ray).Ok? && EntityIntersect(sqrt, e, ray).value.Some?
    ensures t >= 0.0 && EntityIntersect(sqrt, e, ray).value.value.position == PointAt(ray, t)
  {
    match e
    case SphereEntity(s) =>
      t := Spheres.HitParameter(sqrt, s, ray).value;
    case PlaneEntity(p) =>
      t := Planes.HitParameter(p, ray);
    case TriangleEntity(tri) =>
      t := MollerTrumbore.Solve(ray, tri.v0, tri.v1, tri.v2).value.t;
    case ModelEntity(mesh) =>
      t := ModelHitAhead(sqrt, mesh, ray);
  }

  lemma ModelHitAhead(sqrt: SqrtFn, mesh: ObjModels.Mesh, ray: Ray) returns (t: real)
    requires ExactSqrt(sqrt) && Dot(ray.direction, ray.direction) > 0.0
    requires ObjModels.Intersect(sqrt, mesh, ray).Ok? && ObjModels.Intersect(sqrt, mesh, ray).value.Some?
    ensures t >= 0.0 && ObjModels.Intersect(sqrt, mesh, ray).value.value.position == PointAt(ray, t)
  {
    var h := ObjModels.Intersect(sqrt, mesh, ray).value.value;
    assert !ObjModels.BroadMiss(sqrt, mesh, ray);
    var hits := ObjModels.TestFaces(sqrt, mesh, ray, mesh.faces).value;
    var m :| 0 <= m < |hits| && ObjModels.LatestNearest(hits, m) && h == hits[m].value.hit;
    var face := mesh.faces[m];
    assert hits[m] == ObjModels.TestFace(sqrt, mesh, ray, face).value;
    var c := ObjModels.FaceCorners(mesh, face).value;
    t := MollerTrumbore.Solve(ray, c.v0, c.v1, c.v2).value.t;
  }

  // ----------------------------------------------------------- refractDis

  /** `d` is the Euclidean length of `away`: non-negative, with square
      `away . away`. */
  predicate DistanceOf(d: real, away: Vector3) {
    d >= 0.0 && d * d == Dot(away, away)
  }

  /** `refractDis(direction, origin, entity)`: 0 when the ray from `origin`
      misses the entity, otherwise the distance from `origin` to the hit. */
  function RefractDis(sqrt: SqrtFn, direction: Vector3, origin: Vector3, e: Entity)
    : (r: Result<real, ObjModels.MeshError>)
    requires ExactSqrt(sqrt) && Intersectable(e, Ray(origin, direction))
    ensures r.Ok? <==> EntityIntersect(sqrt, e, Ray(origin, direction)).Ok?
    ensures EntityIntersect(sqrt, e, Ray(origin, direction)) == Ok(None) ==> r == Ok(0.0)
    ensures var hit := EntityIntersect(sqrt, e, Ray(origin, direction));
            hit.Ok? && hit.value.Some? ==> DistanceOf(r.value, Sub(hit.value.value.position, origin))
  {
    DistanceToHit(sqrt, origin, EntityIntersect(sqrt, e, Ray(origin, direction)))
  }

  /** The tail of `refractDis`: 0 for no hit, the distance to the hit
      otherwise, and the entity's failure passed on. */
  function DistanceToHit(sqrt: SqrtFn, origin: Vector3, hit: Result<Option<RayHit>, ObjModels.MeshError>)
    : (r: Result<real, ObjModels.MeshError>)
    requires ExactSqrt(sqrt)
    ensures r.Ok? <==> hit.Ok?
    ensures hit == Ok(None) ==> r == Ok(0.0)
    ensures hit.Ok? && hit.value.Some? ==> DistanceOf(r.value, Sub(hit.value.value.position, origin))
  {
    match hit
    case Err(err) => Err(err)
    case Ok(None) => Ok(0.0)
    case Ok(Some(h)) =>
      LengthSquared(sqrt, Sub(h.position, origin));
      Ok(Length(sqrt, Sub(h.position, origin)))
  }

  /** Along a unit direction (the caller normalises it), the distance is the
      ray parameter of the hit. */
  lemma RefractDisIsHitParameter(sqrt: SqrtFn, direction: Vector3, origin: Vector3, e: Entity) returns (t: real)
    requires ExactSqrt(sqrt) && Dot(direction, direction) == 1.0
    requires Intersectable(e, Ray(origin, direction))
    requires EntityIntersect(sqrt, e, Ray(origin, direction)).Ok?
    requires EntityIntersect(sqrt, e, Ray(origin, direction)).value.Some?
    ensures t >= 0.0
    ensures EntityIntersect(sqrt, e, Ray(origin, direction)).value.value.position == PointAt(Ray(origin, direction), t)
    ensures RefractDis(sqrt, direction, origin, e) == Ok(t)
  {
    t := HitAhead(sqrt, e, Ray(origin, direction));
    UnitRayDistance(origin, direction, t, RefractDis(sqrt, direction, origin, e).value);
  }

  /** Along a unit direction, the distance to `origin + t direction` with
      `t >= 0` is `t`. */
  lemma UnitRayDistance(origin: Vector3, direction: Vector3, t: real, d: real)
    requires Dot(direction, direction) == 1.0 && t >= 0.0
    requires DistanceOf(d, Sub(PointAt(Ray(origin, direction), t), origin))
    ensures d == t
  {
    var away := Sub(PointAt(Ray(origin, direction), t), origin);
    OffsetAlongRay(origin.x, origin.y, origin.z, direction.x, direction.y, direction.z, t, away.x, away.y, away.z);
    EqualSquares(d, t);
  }

  lemma OffsetAlongRay(o1: real, o2: real, o3: real, d1: real, d2: real, d3: real, t: real,
                       a1: real, a2: real, a3: real)
    requires d1 * d1 + d2 * d2 + d3 * d3 == 1.0
    requires a1 == o1 + d1 * t - o1 && a2 == o2 + d2 * t - o2 && a3 == o3 + d3 * t - o3
    ensures a1 * a1 + a2 * a2 + a3 * a3 == t * t
  {
    assert a1 * a1 + a2 * a2 + a3 * a3 == (d1 * d1 + d2 * d2 + d3 * d3) * (t * t);
  }

  lemma EqualSquares(a: real, b: real)
    requires a >= 0.0 && b >= 0.0 && a * a == b * b
    ensures a == b
  {
    assert (a - b) * (a + b) == 0.0;
    Spheres.ZeroProduct(a - b, a + b);
  }
}
