/**
 * The motion's data model (amc.hpp): per-bone rotation angles, frames,
 * and the frame buffer `fs` whose first element holds frame number `ff`.
 */
module AmcModel {
  import opened Common

  /** AMC::Transformation: the rotation angles one frame gives one bone. */
  datatype Transformation = Transformation(rx: real, ry: real, rz: real)

  /** A default-constructed Transformation. */
  const NoRotation := Transformation(0.0, 0.0, 0.0)

  /**
   * AMC::Frame. `transformations` is indexed like the skeleton's bone
   * list: entry i belongs to bone i.
   */
  datatype Frame = Frame(rootTranslation: Vec3, rootRotation: Vec3, transformations: seq<Transformation>)

  /** A default-constructed Frame: zero root translation and rotation, no transformations. */
  function NewFrame(): (f: Frame)
    ensures f.rootTranslation == Zero && f.rootRotation == Zero && f.transformations == []
  {
    Frame(Zero, Zero, [])
  }

  /** `transformations.resize(n)` on an empty list: n default Transformations. */
  function Rest(n: nat): (ts: seq<Transformation>)
    ensures |ts| == n && forall i :: 0 <= i < n ==> ts[i] == NoRotation
  {
    seq(n, _ => NoRotation)
  }

  /** A frame the frame-marker code adds: default root channels and one zero Transformation per bone. */
  function BlankFrame(boneCount: nat): (f: Frame)
    ensures f == NewFrame().(transformations := Rest(boneCount))
  {
    Frame(Zero, Zero, Rest(boneCount))
  }

  /** Every frame holds one Transformation per bone. */
  predicate Sized(fs: seq<Frame>, boneCount: nat) {
    forall i :: 0 <= i < |fs| ==> |fs[i].transformations| == boneCount
  }

  /** Frame number `n` is in the buffer: first_frame() <= n < first_frame() + frames().size(). */
  predicate Holds(fs: seq<Frame>, ff: int, n: int) {
    ff <= n < ff + |fs|
  }
}
