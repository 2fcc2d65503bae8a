/** Value types shared by the ray caster: colours, materials, vectors,
    distances along a ray, hit records and spheres. */
module Scene {

  /** One 8-bit colour channel. */
  newtype Byte = x: int | 0 <= x < 256

  /** An RGB colour; each channel is a byte. */
  datatype Color = Color(r: Byte, g: Byte, b: Byte)

  /** A flat material: only a diffuse colour, no lighting parameters. */
  datatype Material = Material(diffuse: Color)

  /** A point or direction; exact reals stand in for f32 components. */
  datatype Vec3 = Vec3(x: real, y: real, z: real)

  /** A distance along a ray, or +infinity (the z-buffer's starting value). */
  datatype Depth = Finite(value: real) | Infinite

  /** The floating-point `a < b` on distances: +infinity lies above every
      finite distance and is not below itself (NaN is not modelled). */
  predicate Below(a: Depth, b: Depth)
    ensures Below(a, b) ==> a.Finite?
    ensures a.Finite? && b.Infinite? ==> Below(a, b)
  {
    match a
    case Infinite => false
    case Finite(d) => b.Infinite? || d < b.value
  }

  /** `Below` is a strict total order on distances: irreflexive,
      transitive, and any two distinct distances are comparable. */
  lemma BelowIsStrictTotalOrder(a: Depth, b: Depth, c: Depth)
    ensures !Below(a, a)
    ensures Below(a, b) && Below(b, c) ==> Below(a, c)
    ensures a != b ==> Below(a, b) || Below(b, a)
  {
  }

  /** `a <= b` on distances. */
  predicate NotAbove(a: Depth, b: Depth) {
    !Below(b, a)
  }

  /** A hit record as every primitive's `ray_intersect` returns it. */
  datatype Intersect = Intersect(
    isIntersecting: bool,
    distance: Depth,
    point: Vec3,
    normal: Vec3,
    material: Material)

  const Zero := Vec3(0.0, 0.0, 0.0)

  /** The "no hit" sentinel: not intersecting, at +infinity, zero normal. */
  const Empty := Intersect(false, Infinite, Zero, Zero, Material(Color(0, 0, 0)))

  /** `Empty` reports no intersection, and every finite distance lies
      below its distance, so the first finite hit always replaces it. */
  lemma EmptyIsSentinel()
    ensures !Empty.isIntersecting && Empty.normal == Zero
    ensures forall d: real :: Below(Finite(d), Empty.distance)
    ensures forall e: Depth :: !Below(Empty.distance, e)
  {
  }

  /** A sphere of the scene. */
  datatype Sphere = Sphere(center: Vec3, radius: real, material: Material)

  /** `object.ray_intersect(origin, direction)`, whose floating-point
      geometry is not part of this model. */
  type Intersector = (Sphere, Vec3, Vec3) -> Intersect
}
