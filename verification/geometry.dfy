/** The value types the intersection routines and the renderer exchange:
    rays, colours, materials and ray hits. */
module Geometry {
  import opened Vectors

  /** A colour as three real channels; the external `Color` type is only
      needed here for the per-pixel averaging. */
  datatype Color = Color(r: real, g: real, b: real)

  const Black := Color(0.0, 0.0, 0.0)

  function AddColor(a: Color, b: Color): Color {
    Color(a.r + b.r, a.g + b.g, a.b + b.b)
  }

  function DivColor(a: Color, k: real): Color
    requires k != 0.0
  {
    Color(a.r / k, a.g / k, a.b / k)
  }

  datatype MaterialKind = Diffuse | Reflective | Refractive

  datatype Material = Material(color: Color, kind: MaterialKind, refractiveIndex: real)

  /** A half-line `origin + t * direction`; the direction need not be a unit vector. */
  datatype Ray = Ray(origin: Vector3, direction: Vector3)

  function PointAt(ray: Ray, t: real): Vector3 {
    Add(ray.origin, Scale(ray.direction, t))
  }

  /** The data of a successful intersection test. */
  datatype RayHit = RayHit(position: Vector3, normal: Vector3, incident: Vector3, material: Material)
}
