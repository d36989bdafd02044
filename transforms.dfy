/**
 * Symbolic stand-in for dake::math::mat4. A transform is a word of
 * primitives read left to right as a matrix product: the identity is the
 * empty word, `m * n` is concatenation, and the in-place `m.translate(v)`,
 * `m.rotate(a, axis)` and the copying `m.translated(v)`, `m.rotated(a, axis)`
 * multiply by the primitive on the right, i.e. append it. With this
 * representation the order in which the forward-kinematics walk composes
 * its factors is an equality of sequences.
 */
module Transforms {
  import opened Common

  /** An angle: a value read from the input, or the arc cosine acosf(c) of a real. */
  datatype Angle = Radians(r: real) | ArcCos(c: real)

  datatype Prim =
    | Translate(v: Vec3)
    | Rotate(angle: Angle, axis: Vec3)
    | Inverse(w: seq<Prim>)

  type Word = seq<Prim>

  /** mat4::identity() */
  const Identity: Word := []

  /** The unit vectors the walk rotates about. */
  const XAxis := Vec3(1.0, 0.0, 0.0)
  const YAxis := Vec3(0.0, 1.0, 0.0)
  const ZAxis := Vec3(0.0, 0.0, 1.0)

  /** vec3::cross */
  function Cross(a: Vec3, b: Vec3): (c: Vec3)
    ensures a == YAxis ==> c == Vec3(b.z, 0.0, -b.x)
  {
    Vec3(a.y * b.z - a.z * b.y, a.z * b.x - a.x * b.z, a.x * b.y - a.y * b.x)
  }
}
