# Ray tracer kernel in Dafny

A Dafny model of the geometric kernel of a small C# ray tracer. It covers:

- the three primitives: `Sphere`, `Plane` and `Triangle`;
- the OBJ triangle mesh `ObjModel`: reading the file, its bounding box and bounding sphere, the broad phase and the nearest-hit scan over faces;
- the pure helpers of `Scene`: `clamp`, `reflect`, `refract`, `fresnel` and `refractDis`;
- the pixel loop of `Scene.Render`:
  - the aspect ratio;
  - the mapping of a sub-pixel to the camera plane;
  - the regular anti-aliasing grid;
  - the box filter that averages the sample colours.

Doubles are modelled as Dafny `real`s. Some routines cannot be computed exactly, or are not in view, so they are passed in as parameters:

| parameter | stands for | when it is exact |
|---|---|---|
| `sqrt` | `Math.Sqrt` | contracts that need an exact root require `ExactSqrt(sqrt)`: for every non-negative `x`, `sqrt(x)` is non-negative and squares to `x` |
| `parse` | `double.Parse` | — |
| `shade` | `castRay` for one sample | — |
| `tanHalf` | `tan(fov / 2)` | — |

`Vector3` and its `Normalized()` come from a file that is not part of this model. `Vectors` gives them the usual meaning: the vector divided by its length. A C# `null` hit is `None`. An exception is an `Err`:

- a malformed OBJ line;
- a face index out of range;
- a zero image height.

Modules follow the source:

- `Vectors` and `Geometry`: values;
- `Text`: `Split` and `StartsWith`;
- `ObjParse`: the constructor's reading loop;
- `Spheres`, `Planes`, `MollerTrumbore` and `Triangles`: the primitives;
- `Bounds`: the box and the sphere;
- `ObjModels`: the mesh;
- `Scenes`: the `Scene` helpers;
- `Rendering`: the pixel loop.

Two behaviours a reader may not expect are modelled as the code has them:

- **Tied hits.** Of two mesh faces hit at the same distance, the later one wins. The loop replaces the kept hit unless the new one is strictly farther (`ObjModel.cs:124`).
- **Sample positions.** Anti-aliasing samples sit at `k / n` of a pixel for `k = 1..n`. They are not centred in their cells, and the last one lies on the far edge of the pixel (`Scene.cs:66-74`, `Scene.cs:101-106`).

## Model

| member | source | states |
|---|---|---|
| Vectors.Normalized | src/scene/primitives/Sphere.cs:51 | The zero vector stays zero. Under an exact root, any other vector becomes the unit vector pointing the same way: parallel to it, with a positive dot product. |
| ObjParse.Classify | src/extensions/ObjModel.cs:35-53 | A line is a vertex, normal or face line exactly when it starts with `v `, `vn ` or `f `. The three prefixes exclude one another. |
| ObjParse.PlaceVertexInverse | src/extensions/ObjModel.cs:39-42 | With a non-zero scale, the placement (scale, negate `z`, offset) is a bijection. The file's coordinates can be recovered from the placed vertex. |
| ObjParse.PlacementKeepsShape | src/extensions/ObjModel.cs:39-50 | Placing two vertices turns their difference into the mirrored difference times the scale. Mirrored normals keep their dot product with placed edges, up to that scale, so smooth shading keeps its geometry. |
| ObjParse.MirrorIsometry | src/extensions/ObjModel.cs:47-50 | Negating `z` is an involution that preserves dot products. |
| ObjParse.ParseLine | src/extensions/ObjModel.cs:35-61 | A line outside the three prefixes is skipped. Any other line fails exactly when it has fewer than four space-separated fields or one of fields 1 to 3 does not parse (for a face, the text before its first `/`). Otherwise it yields an entry of the kind its prefix names. A vertex is the three numbers scaled, offset and with `z` negated, a normal the three numbers with `z` negated, and a face the three indices in reverse order. |
| ObjParse.ReadVertexText | src/extensions/ObjModel.cs:35-42 | Reading a written vertex line `v a b c` gives back its numbers, placed. |
| ObjParse.ReadNormalText | src/extensions/ObjModel.cs:43-51 | Reading a written normal line `vn a b c` gives back its numbers with `z` negated, neither scaled nor offset. |
| ObjParse.ReadFaceText | src/extensions/ObjModel.cs:53-60 | Reading a written face line keeps only the text before the first `/` of each field and reverses the order of the three indices. |
| ObjParse.ExtraFieldsIgnored | src/extensions/ObjModel.cs:35-60 | Fields after the third do not matter: two lines of the same kind that agree on their first four fields read the same. |
| ObjParse.Triple | src/extensions/ObjModel.cs:39-60 | Three fields form a vector exactly when all three parse. The vector holds their numbers in order. |
| ObjParse.Append | src/extensions/ObjModel.cs:39-57 | Each entry extends only the list of its own kind. A skipped line changes nothing. |
| ObjParse.ParseLines | src/extensions/ObjModel.cs:31-62 | Reading succeeds exactly when every line is readable. On failure it reports the first unreadable line. On success each list has one entry per line of its kind. |
| ObjParse.ParseSnoc | src/extensions/ObjModel.cs:32-61 | Reading one more readable line appends its entry to what the earlier lines gave. |
| ObjParse.FileOrder | src/extensions/ObjModel.cs:32-61 | For each of vertices, normals and faces, the `j`-th line of that kind is stored at list position `j`. Faces address vertex and normal `j` as index `j + 1`. |
| Text.Split | src/extensions/ObjModel.cs:38 | Splitting yields at least one field, and no field contains the separator. |
| Text.JoinSplit | src/extensions/ObjModel.cs:38 | Joining the fields of a split with the separator gives back the original line. |
| Text.SplitJoin | src/extensions/ObjModel.cs:38 | Splitting a join of separator-free fields gives back the fields. |
| Text.FirstField | src/extensions/ObjModel.cs:58-60 | The text before the first `/` is a prefix of the token, contains no `/`, and ends at the token's first `/` when there is one. |
| Text.FirstFieldIsPrefix | src/extensions/ObjModel.cs:58-60 | Taking field 0 of `Split('/')` is the same as `FirstField`. |
| Spheres.SolveQuadratic | src/scene/primitives/Sphere.cs:61-80 | The solver reports failure exactly when the discriminant is negative, and then leaves `t0` and `t1` unchanged. Otherwise the two values satisfy Vieta's formulas, and a zero discriminant gives a double root. |
| Spheres.DistinctRoots | src/scene/primitives/Sphere.cs:73-78 | With a positive discriminant, the sign-aware `q` is non-zero and `q/a` and `c/q` satisfy Vieta's formulas. |
| Spheres.StableRoots | src/scene/primitives/Sphere.cs:75-77 | With a positive discriminant, `q` is non-zero and `q/a` and `c/q` are both roots. |
| Spheres.DoubleRoot | src/scene/primitives/Sphere.cs:68-71 | With a zero discriminant, `-b/2a` is a root and its own Vieta partner. |
| Spheres.SolveQuadraticFindsAllRoots | src/scene/primitives/Sphere.cs:61-80 | A real number is a root of the quadratic exactly when the solver succeeds and reports it. Nothing is lost or invented. |
| Spheres.ReportedRootsAreAllRoots | src/scene/primitives/Sphere.cs:61-80 | Any pair related to the coefficients by Vieta's formulas consists of exactly the roots. |
| Spheres.SphereEquation | src/scene/primitives/Sphere.cs:37-40 | The ray point at `t` is on the sphere exactly when `t` is a root of the quadratic that `Intersect` sets up. |
| Spheres.HitParameter | src/scene/primitives/Sphere.cs:42-49 | The chosen parameter is the least non-negative `t` whose ray point is on the sphere. When no parameter is chosen, no such `t` exists. |
| Spheres.ReachedFromInside | src/scene/primitives/Sphere.cs:32-54 | A ray that passes through a point inside or on the sphere, at a non-negative parameter, gets a hit. |
| Spheres.OutwardNormal | src/scene/primitives/Sphere.cs:51 | At a point of a sphere of non-zero radius, the normalised offset from the centre is a unit vector pointing outward. |
| Spheres.Intersect | src/scene/primitives/Sphere.cs:32-54 | There is a hit exactly when the ray meets the sphere at some `t >= 0`. The hit is at the nearest such point, carries the ray's direction and the sphere's material, and, for a non-zero radius, the outward unit normal. |
| Planes.MakePlane | src/scene/primitives/Plane.cs:20-25 | The stored normal is the unit vector along the given one. The centre and material are kept. |
| Planes.HitParameter | src/scene/primitives/Plane.cs:35-36 | The computed `t` puts the ray point on the plane, and no other parameter does. |
| Planes.Intersect | src/scene/primitives/Plane.cs:32-45 | There is a hit exactly when the ray meets the plane at some `t >= 0`. The hit is that point, with the stored normal whichever side the ray comes from. |
| MollerTrumbore.Solve | src/scene/primitives/Triangle.cs:33-66 | A near-parallel determinant (`abs(det) < 1e-5`) is rejected. An accepted answer has `u, v >= 0`, `u + v <= 1` and `t > 1e-5`, and names one point on both the ray and the triangle. |
| MollerTrumbore.CandidateSound | src/scene/primitives/Triangle.cs:36-57 | Off a zero determinant, Cramer's coordinates give a point on both the ray and the triangle's plane. |
| MollerTrumbore.CandidateUnique | src/scene/primitives/Triangle.cs:36-57 | Off a zero determinant, the ray meets the triangle's plane at only one set of coordinates. |
| MollerTrumbore.SolveComplete | src/scene/primitives/Triangle.cs:33-66 | Off a near-parallel determinant, any point of the closed triangle on the ray past the threshold is what the test reports. The test rejects exactly when no such point exists. |
| Triangles.FaceNormal | src/scene/primitives/Triangle.cs:61-62 | The reported normal is perpendicular to both edges. It is the raw cross product, since the result of `Normalized()` is discarded. |
| Triangles.Intersect | src/scene/primitives/Triangle.cs:33-66 | There is a hit exactly when the test accepts. The hit is a point of the closed triangle on the ray past the threshold, with the raw face normal and the ray's direction. |
| Triangles.IntersectComplete | src/scene/primitives/Triangle.cs:33-66 | Off a near-parallel determinant, there is a hit exactly when some point of the closed triangle lies on the ray past the threshold. |
| Bounds.BoxOf | src/extensions/ObjModel.cs:63-77 | The box folded from the origin contains the origin and every vertex. |
| Bounds.BoxOfIsLeast | src/extensions/ObjModel.cs:63-77 | Any box that contains the origin and every vertex also contains the folded box. |
| Bounds.HalfExtentRadius | src/extensions/ObjModel.cs:82-84 | The radius is the largest of the three half-extents. |
| Bounds.HalfExtentMissesCorner | src/extensions/ObjModel.cs:78-85 | The source's sphere need not contain its own box: for the box from the origin to `(2,2,2)`, the corner lies outside the radius-1 sphere. |
| Bounds.BoxInsideEnclosingSphere | src/extensions/ObjModel.cs:78-85 | The corrected sphere, whose radius is half the box diagonal, contains every point of the box. |
| Bounds.SurfaceInBox | src/extensions/ObjModel.cs:63-77 | Every point of a triangle whose corners lie in a box lies in the box. |
| ObjModels.Load | src/extensions/ObjModel.cs:26-86 | The constructor as written. Loading fails exactly when reading fails, with the same first bad line. Otherwise it keeps the three lists in file order and the material, and bounds them by the largest-half-extent sphere of the vertices' box. |
| ObjModels.LoadEnclosed | src/extensions/ObjModel.cs:26-86 | The corrected constructor. It fails exactly when `Load` does, with the same error, and otherwise gives `Load`'s mesh with the half-diagonal sphere as bound. Under an exact root that sphere contains every vertex. |
| ObjModels.LoadedMeshKeepsHits | src/extensions/ObjModel.cs:26-136 | A mesh from the corrected constructor never loses a face hit to the broad phase. |
| ObjModels.Truncate | src/extensions/ObjModel.cs:107-114 | The `(int)` cast truncates toward zero: it rounds a non-negative number down and a negative number up, to within less than 1. |
| ObjModels.TruncateWhole | src/extensions/ObjModel.cs:107-114 | A whole number is its own truncation. |
| ObjModels.FaceCorners | src/extensions/ObjModel.cs:107-114 | The lookups succeed exactly when all three 1-based indices address both a vertex and a normal. They then pick the position and normal at the same index. |
| ObjModels.InterpolateAtFirst | src/extensions/ObjModel.cs:170 | At `u = v = 0`, the interpolated normal is the first corner's normal. |
| ObjModels.InterpolateAtSecond | src/extensions/ObjModel.cs:170 | At `u = 1, v = 0`, it is the second corner's normal. |
| ObjModels.InterpolateAtThird | src/extensions/ObjModel.cs:170 | At `u = 0, v = 1`, it is the third corner's normal. |
| ObjModels.InterpolateFlat | src/extensions/ObjModel.cs:170 | Equal corner normals give that normal everywhere, because the weights sum to 1. |
| ObjModels.IntersectTriangle | src/extensions/ObjModel.cs:146-177 | There is a hit exactly when the Moller-Trumbore test accepts. The hit is a point of the closed triangle on the ray, with the interpolated normal. Under an exact root, the incident is the unit vector along the ray. |
| ObjModels.FaceTestMatchesTriangle | src/extensions/ObjModel.cs:146-177 | The mesh's face test and `Triangle.Intersect` accept the same rays at the same points. |
| ObjModels.TestFace | src/extensions/ObjModel.cs:105-121 | The face test succeeds exactly when the face's indices are valid. A hit carries the face test's hit and the distance from the ray origin, which is non-negative under an exact root. |
| ObjModels.TestFaces | src/extensions/ObjModel.cs:105-133 | The scan succeeds exactly when every face is valid. It then lists one result per face, in face order. |
| ObjModels.LatestNearestUnique | src/extensions/ObjModel.cs:119-130 | At most one face is the last among the nearest. |
| ObjModels.ScanFinds | src/extensions/ObjModel.cs:100-133 | From any state the loop invariant allows, the loop ends with nothing exactly when no face was hit. Otherwise it ends with the hit of the last face at the least distance. |
| ObjModels.Nearest | src/extensions/ObjModel.cs:100-135 | The kept hit is empty exactly when no face was hit. Otherwise it is at the least distance, and is the last of the faces at that distance. |
| ObjModels.Intersect | src/extensions/ObjModel.cs:94-136 | A ray the bounding sphere rejects gets no hit. Otherwise a bad face index is an error, and without one the result is empty exactly when no face is hit, and is otherwise the last nearest face hit. |
| ObjModels.HitsAreAhead | src/extensions/ObjModel.cs:121-127 | Every distance the scan compares is non-negative, so the sentinel `-1` is never taken for a real distance. |
| ObjModels.NoHitLost | src/extensions/ObjModel.cs:94-136 | With the corrected bound, a face the ray hits is never discarded by the broad phase, and `Intersect` reports a hit. |
| ObjModels.MissedByBound | src/extensions/ObjModel.cs:98-103 | A ray that the bounding sphere rejects gets no hit, whatever the faces hold. |
| ObjModels.CornerLoad | src/extensions/ObjModel.cs:26-86 | The seven-line file `v 2 0 0`, `v 0 2 0`, `v 0 0 -2`, three lines `vn 0 0 1` and `f 3 2 1` loads as the triangle `(2,0,0)`, `(0,2,0)`, `(0,0,2)`. This holds for any spelling of the numbers the parser reads as those numbers. |
| ObjModels.HalfExtentLosesHit | src/extensions/ObjModel.cs:78-136 | With the sphere the source builds, the mesh loaded from that file loses hits. Every ray straight down from `(2, 0, h)`, with `h` past the threshold, hits the face at its corner `(2, 0, 0)`. The sphere rejects each such ray, so `Intersect` reports no hit. |
| ObjModels.EnclosedFindsCornerHit | src/extensions/ObjModel.cs:78-136 | The corrected constructor loads the same file, and `Intersect` reports a hit for every such ray. |
| Scenes.Clamp | src/scene/Scene.cs:286-289 | On a non-empty range the result lies in the range. A value inside the range is kept. A value below is raised to `lo`, and a value above is lowered to `hi`. |
| Scenes.ClampIsNearest | src/scene/Scene.cs:286-289 | On a non-empty range the clamped value is the point of the range nearest to `v`. |
| Scenes.ClampIdempotent | src/scene/Scene.cs:286-289 | Clamping twice is clamping once. |
| Scenes.Reflect | src/scene/Scene.cs:236-239 | The reflection changes the direction only along the normal. For a unit normal, the component along the normal changes sign. |
| Scenes.ReflectTwice | src/scene/Scene.cs:236-239 | Reflecting twice in a unit normal gives the direction back. |
| Scenes.ReflectKeepsLength | src/scene/Scene.cs:236-239 | Reflection in a unit normal preserves length. |
| Scenes.RefractIncidence | src/scene/Scene.cs:243-248 | A ray with `I.N < 0` enters: ratio `1/ior`, normal `N`. Every other ray leaves: ratio `ior`, normal `-N`. For unit vectors, `cosi` is the cosine against the chosen normal, in `[0, 1]`. |
| Scenes.Refract | src/scene/Scene.cs:241-252 | Under total internal reflection (`k < 0`) the result is the zero vector. Otherwise it obeys Snell's law: its part across the normal is `eta` times the incident's. For unit vectors it is a unit vector whose cosine with the far-side normal is `sqrt k`. |
| Scenes.RefractVanishesIffTotalInternal | src/scene/Scene.cs:241-252 | For unit vectors, `refract` returns the zero vector exactly when `eta^2 sin^2 > 1`. Otherwise it returns a unit direction. |
| Scenes.Fresnel | src/scene/Scene.cs:254-284 | The reflectance lies in `[0, 1]`. It is 1 when Snell's sine reaches 1 (total internal reflection) and at grazing incidence. |
| Scenes.PartialReflectance | src/scene/Scene.cs:276-280 | The mean of the squared `s` and `p` amplitude ratios lies in `[0, 1]`, and is 1 at grazing incidence. |
| Scenes.FresnelNormalIncidence | src/scene/Scene.cs:254-284 | At normal incidence from outside (`I.N = -1`), the reflectance is `((ior - 1) / (ior + 1))^2`. |
| Scenes.SidesDisagreeAtGrazing | src/scene/Scene.cs:243-266 | At `I.N = 0`, `refract` treats the ray as leaving and `fresnel` treats it as entering. There `fresnel` returns 1, so the caller does not refract. |
| Scenes.SidesAgreeOffGrazing | src/scene/Scene.cs:243-266 | Away from grazing, `refract` and `fresnel` use the same index ratio. `refract`'s `cosi` is the magnitude of `fresnel`'s. |
| Scenes.TransmissionWhenFresnelBelowOne | src/scene/Scene.cs:241-284 | Whenever `fresnel` is below 1, `refract`'s `k` is positive. For unit vectors `refract` then returns a unit direction, not the zero vector. |
| Scenes.EntityIntersect | src/scene/Scene.cs:294 | Only a mesh can fail on the virtual `Intersect` call. The other entities always answer. |
| Scenes.HitAhead | src/scene/Scene.cs:294 | Every entity reports its hit at a point the ray reaches, `origin + t direction` with `t >= 0`. |
| Scenes.RefractDis | src/scene/Scene.cs:291-299 | It fails exactly when the entity does. It is 0 when the ray misses, and otherwise the Euclidean distance from the origin to the hit. |
| Scenes.DistanceToHit | src/scene/Scene.cs:295-298 | No hit gives 0. A hit gives the non-negative number whose square is the squared distance. A failure is passed on. |
| Scenes.RefractDisIsHitParameter | src/scene/Scene.cs:291-299 | Along a unit direction, the distance returned is exactly the ray parameter of the hit. |
| Rendering.TruncatedAspect | src/scene/Scene.cs:56 | The aspect ratio as written: none for a zero height, since the integer division throws. Otherwise it is the integer quotient, the `q` with `q h <= w < (q + 1) h`. |
| Rendering.ExactAspect | src/scene/Scene.cs:56 | The corrected ratio: multiplied by the height it gives the width, and it is positive for a non-empty image. |
| Rendering.ScreenSpansFieldOfView | src/scene/Scene.cs:76-85 | The image's left and right edges map to `-tan` and `+tan` of half the field of view, and each column is `2 tan / width` wide. |
| Rendering.ScreenRowHeight | src/scene/Scene.cs:77-86 | Each pixel row is `2 tan / (height aspect)` high. |
| Rendering.ExactAspectSquarePixels | src/scene/Scene.cs:76-86 | With the real quotient, one column is exactly as wide as one row is high on the camera plane. |
| Rendering.CameraPlanePoint | src/scene/Scene.cs:56-91 | The unrotated camera vector as written, for an image at least as wide as high. It lies at depth 1, its `x` is `tan (2 px / width - 1)`, and its `y` times the truncated ratio is `tan (1 - 2 py / height)`. |
| Rendering.CameraPlanePointExact | src/scene/Scene.cs:56-91 | The corrected vector, with the real ratio. It lies at depth 1 with the same `x`, and its `y` times the width is `tan (height - 2 py)`. |
| Rendering.CameraPlaneAgreesWhenDivides | src/scene/Scene.cs:56-91 | When the height divides the width, the vector as written is the corrected one. |
| Rendering.CameraPlaneSquare | src/scene/Scene.cs:76-91 | With the corrected ratio, the same sample offset one pixel right moves as far as one pixel down. |
| Rendering.TruncatedAspectSquareIffDivides | src/scene/Scene.cs:56-86 | For a landscape image, the truncated ratio gives square pixels exactly when the height divides the width. Otherwise the picture is stretched vertically. |
| Rendering.TruncatedQuotient | src/scene/Scene.cs:56 | For `0 < height <= width`, the truncated quotient is at least 1. It is exact precisely when the height divides the width. |
| Rendering.TruncatedAspectCounterexamples | src/scene/Scene.cs:56 | 800 x 600 gives ratio 1 instead of 4/3. Every portrait image gives ratio 0. |
| Rendering.PixelSpacing | src/scene/Scene.cs:63-69 | The spacing is half a pixel for one sample and `1/n` of a pixel otherwise. It always lies in `(0, 1/2]`. |
| Rendering.SampleOffsets | src/scene/Scene.cs:63-106 | The loop, with its `x_pixel`, `y_pixel` and `turn` updates, produces `n * n` offsets. Offset `i` sits in column `i % n` and row `i / n` of the grid. |
| Rendering.SampleStep | src/scene/Scene.cs:101-106 | One pass of the loop body moves the offsets from sample `i` to sample `i + 1`, both when the column advances and when it wraps. |
| Rendering.SamplesInPixel | src/scene/Scene.cs:63-106 | Every sample lies in the pixel, in `(0, 1]` on both axes. |
| Rendering.GridCovered | src/scene/Scene.cs:63-106 | Each of the `n * n` grid cells is visited, by the sample at index `b n + a`. |
| Rendering.SamplesDistinct | src/scene/Scene.cs:63-106 | No two samples share a position. |
| Rendering.SingleSampleAtCentre | src/scene/Scene.cs:66-70 | With one sample per pixel, the sample sits at the pixel's centre. |
| Rendering.UniformPixel | src/scene/Scene.cs:62-109 | If all samples have the same colour, the pixel gets that colour. |
| Rendering.AverageWithinBounds | src/scene/Scene.cs:62-109 | The average stays within any per-channel bounds that every sample keeps. |
| Rendering.SumBounds | src/scene/Scene.cs:62-99 | The running sum of `k` colours within `[lo, hi]` lies within `[k lo, k hi]` on each channel. |
| Rendering.RenderPixel | src/scene/Scene.cs:62-109 | The pixel loop computes the box filter: the sum of the shades of the grid samples, divided by `n * n`. |

## Left out

- File and image I/O: the model takes the file's lines as a sequence, and returns each pixel's colour instead of writing it.
- `castRay` (`Scene.cs:115-234`), including shadows, Lambert shading, the recursion and Beer-Lambert absorption. Shading a sample is the parameter `shade` of `RenderPixel`.
- The transcendental functions: `Math.Sqrt` is a parameter, as is `tan` of half the field of view. The camera rotation (`Cos`, `Sin`, `Scene.cs:88-94`) and `Exp` are not modelled.
- The nested pixel loops over the image (`Scene.cs:58-61`): the model covers one pixel at a time.
- IEEE floating point: rounding, infinities and NaN are not modelled, and doubles are exact reals. A zero vector normalises to itself rather than to NaN.
- `(float)` and `0.0f` literals: the model uses their exact values.
- Integer widths: image sizes and the `(int)` face-index cast are unbounded integers, so overflow is not modelled.
- Planes.Intersect: requires `D.n != 0`. The source divides by it unguarded, which in floating point gives an infinite or NaN parameter.
- Spheres.Intersect: requires `D.D > 0`, the division by `a` in `solveQuadratic`. ObjModels.Intersect and Scenes.EntityIntersect inherit this for the bounding sphere.
- Scenes.Fresnel: requires `ior > 0`. Scenes.Refract requires `ior != 0` for entering rays. The source divides by the index.
- Rendering.PixelSpacing: requires an anti-aliasing multiplier of at least 1, which the program's options demand. A multiplier of 0 would divide by zero.
- Rendering.CameraPlanePoint: requires `height <= width`. For a portrait image the truncated ratio is 0, and the source's division by it gives an IEEE infinity or NaN, which reals cannot express.
- Rendering.ScreenY: requires a non-zero aspect ratio. The truncated ratio of a portrait image is 0, which the source divides by; `TruncatedAspectCounterexamples` exhibits this case.
- Scenes.RefractVanishesIffTotalInternal: states the squared sine of incidence as `1 - (I.N)^2`. For unit vectors this equals the squared length of `I x N` (by `UnitDotBound`), but the lemma does not restate it in that form.
- Triangles.FaceNormal: is the raw cross product `e1 x e2`, not a unit vector. This follows the source, which discards the result of `Normalized()`. The same holds for the mesh's interpolated normal.
- Text.StartsWith: is an ordinal prefix test. .NET's `String.StartsWith(string)` compares culture-sensitively, so with some cultures a line such as `v` followed by an ignorable character like a soft hyphen may also count as a vertex line.
- Material and colour arithmetic beyond the per-channel sum and division of `RenderPixel` are not modelled.

## Findings

| source | as written | input that shows it | evidently intended | confidence | as-written member | corrected member |
|---|---|---|---|---|---|---|
| src/extensions/ObjModel.cs:82-85 | The bounding sphere's radius is the largest half-extent of the vertices' box, which reaches only the middles of its faces. | The file `v 2 0 0`, `v 0 2 0`, `v 0 0 -2`, three lines `vn 0 0 1`, `f 3 2 1`: the triangle `(2,0,0)`, `(0,2,0)`, `(0,0,2)`, whose sphere has centre `(1,1,1)` and radius 1. Any ray from `(2,0,h)` along `(0,0,-1)` with `h > 1e-5` hits the face at `(2,0,0)`, but the broad phase rejects the ray and no hit is reported. | A sphere that contains every vertex, so that the broad phase never discards a real hit: radius half the box diagonal. | not executed | ObjModels.HalfExtentLosesHit | ObjModels.EnclosedFindsCornerHit |
| src/scene/Scene.cs:56 | `Width / Height` divides two `int`s, so the aspect ratio is truncated before it becomes a `double`. | An 800 x 600 image gets ratio 1 instead of 4/3, so its pixels are stretched vertically. A portrait image gets ratio 0. | The real quotient `Width / (double)Height`, which makes pixels square on the camera plane. | not executed | Rendering.TruncatedAspectSquareIffDivides | Rendering.CameraPlaneSquare |
