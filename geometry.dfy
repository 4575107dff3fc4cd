/** The little vector algebra the face classification needs. Face normals and
    face distances come from the CAD kernel and are parameters of the
    operations that use them; only the inner product is computed here. */
module Geometry {

  /** A vector of three real coordinates (a face or plane normal). */
  datatype Vec3 = Vec3(x: real, y: real, z: real)

  /** The Euclidean inner product `<a, b>`. */
  function InnerProduct(a: Vec3, b: Vec3): real {
    a.x * b.x + a.y * b.y + a.z * b.z
  }

  /** The opposite vector: the normal of a plane with flipped orientation. */
  function Negate(v: Vec3): (w: Vec3)
    ensures forall u :: InnerProduct(u, w) == -InnerProduct(u, v)
  {
    Vec3(-v.x, -v.y, -v.z)
  }
}
