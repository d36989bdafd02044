/** Values shared by the skeleton and the motion readers. */
module Common {

  datatype Option<+T> = None | Some(value: T)

  /** The outcome of an operation that the C++ code may abort with an exception. */
  datatype Result<+T, +E> = Ok(value: T) | Err(error: E)

  /** The outcome of an operation that returns nothing but may throw. */
  datatype Outcome<+E> = Pass | Fail(error: E)

  /** dake::math::vec3, with exact reals in place of floats. */
  datatype Vec3 = Vec3(x: real, y: real, z: real)

  /** vec3::zero() */
  const Zero := Vec3(0.0, 0.0, 0.0)

  /** Componentwise scaling, as `v *= k` and `k * v` do on a vec3. */
  function Scale(k: real, v: Vec3): (r: Vec3)
    ensures k == 1.0 ==> r == v
    ensures v == Zero ==> r == Zero
  {
    Vec3(k * v.x, k * v.y, k * v.z)
  }

  /**
   * The angle unit that "deg" and ":DEGREES" select: the float value of
   * M_PI / 180. Nothing in the model depends on its digits, only on its
   * being positive and different from 1 (the unit of radians).
   */
  const DegreeUnit: real := 0.017453292519943295

  /** Puts `xs` in front of a list that may be missing. */
  function Prepend<T>(xs: seq<T>, r: Option<seq<T>>): Option<seq<T>> {
    if r.None? then None else Some(xs + r.value)
  }

  lemma PrependNil<T>(r: Option<seq<T>>)
    ensures Prepend([], r) == r
  {
    if r.Some? { assert [] + r.value == r.value; }
  }

  lemma PrependSnoc<T>(xs: seq<T>, x: T, r: Option<seq<T>>)
    ensures Prepend(xs, Prepend([x], r)) == Prepend(xs + [x], r)
  {
    if r.Some? { assert xs + ([x] + r.value) == xs + [x] + r.value; }
  }

  lemma PrependEnd<T>(xs: seq<T>)
    ensures Prepend(xs, Some([])) == Some(xs)
  {
    assert xs + [] == xs;
  }
}
