/**
 * The skeleton's data model (asf.hpp): channel kinds, bones with their
 * index-linked tree, unit settings, and the invariant that ties the raw
 * `parent`/`first_child`/`next_sibling` links to explicit children lists.
 */
module AsfModel {
  import opened Common
  import opened Transforms

  /**
   * ASF::Axis. The header declares RX, RY, RZ, TX, TY, TZ; asf.cpp also
   * stores LX, LY and LZ for the "lx"/"ly"/"lz" DOF words, so they are
   * kinds of their own here.
   */
  datatype Axis = RX | RY | RZ | TX | TY | TZ | LX | LY | LZ

  predicate IsRotation(a: Axis) {
    a.RX? || a.RY? || a.RZ?
  }

  predicate AllRotations(axes: seq<Axis>) {
    forall a :: a in axes ==> IsRotation(a)
  }

  /** A limit value: a float that may be -HUGE_VALF or HUGE_VALF. */
  datatype Ext = NegInf | PosInf | Fin(r: real)

  /** A (min, max) limit pair of a DOF. */
  datatype Range = Range(lo: Ext, hi: Ext)

  /** The pair (-HUGE_VALF, HUGE_VALF) that declaring a DOF stores. */
  const Unlimited := Range(NegInf, PosInf)

  /**
   * ASF::Bone. The tree links are indices into the bone list, -1 for none.
   * The last five fields are the transforms the forward-kinematics walk
   * overwrites.
   */
  datatype Bone = Bone(
    parent: int, firstChild: int, nextSibling: int,
    id: int,
    name: string,
    direction: Vec3,
    length: real,
    axis: Vec3,
    axisOrder: seq<Axis>, dofOrder: seq<Axis>,
    dof: map<Axis, Range>,
    localTrans: Word, localTransInv: Word,
    stillTrans: Word,
    motionTrans: Word,
    boneDirTrans: Word)

  predicate Unlinked(b: Bone) {
    b.parent == -1 && b.firstChild == -1 && b.nextSibling == -1
  }

  /**
   * A default-constructed Bone: no tree links, id 0, empty name, zero
   * direction, length and axis, no axis or DOF order and no limits.
   */
  function NewBone(): (b: Bone)
    ensures Unlinked(b)
    ensures b.id == 0 && b.name == "" && b.length == 0.0
    ensures b.direction == Zero && b.axis == Zero
    ensures b.axisOrder == [] && b.dofOrder == [] && b.dof == map[]
  {
    Bone(-1, -1, -1, 0, "", Zero, 0.0, Zero, [], [], map[],
         Identity, Identity, Identity, Identity, Identity)
  }

  /** The unit settings of an ASF object. */
  datatype Units = Units(massDefault: real, lengthDefault: real, lengthUnit: real, angleUnit: real)

  /**
   * The units an ASF object starts with: mass 1, length unit 2.54e-2
   * (inches to metres) and angle unit 1 (radians). asf.cpp reads a
   * `length_default` that no file shown gives an initial value, so it is
   * a parameter.
   */
  function InitialUnits(lengthDefault: real): (u: Units)
    ensures u.massDefault == 1.0 && u.lengthUnit == 0.0254 && u.angleUnit == 1.0
    ensures u.lengthDefault == lengthDefault
  {
    Units(1.0, lengthDefault, 0.0254, 1.0)
  }

  /**
   * What a root section specifies: the axis order its rotation is composed
   * in (`root_axis`), the order of the root's channels in a motion line
   * (`root_order`), its position and its orientation.
   */
  datatype RootSpec = RootSpec(axis: seq<Axis>, order: seq<Axis>, position: Vec3, orientation: Vec3)

  /** The root specification of a fresh ASF object: empty orders, zero vectors. */
  const NoRootSpec := RootSpec([], [], Zero, Zero)

  /**
   * The abstract value of an ASF object: its bone list, the children of
   * every bone in sibling-chain order (`kids`), the root specification,
   * the index of the root bone (-1 before a root section) and the units.
   */
  datatype Skeleton = Skeleton(
    bones: seq<Bone>,
    kids: seq<seq<int>>,
    rootSpec: RootSpec,
    root: int,
    units: Units)

  /** Bone `p`'s `first_child` starts its children list. */
  ghost predicate HeadLinked(bones: seq<Bone>, kids: seq<seq<int>>, p: int) {
    0 <= p < |bones| && p < |kids| &&
    bones[p].firstChild == (if kids[p] == [] then -1 else kids[p][0])
  }

  /** The k-th child of `p` names `p` as parent and the next child (or -1) as its next sibling. */
  ghost predicate ChildLinked(bones: seq<Bone>, kids: seq<seq<int>>, p: int, k: int) {
    && 0 <= p < |kids| && 0 <= k < |kids[p]|
    && 0 <= kids[p][k] < |bones|
    && bones[kids[p][k]].parent == p
    && bones[kids[p][k]].nextSibling == (if k + 1 < |kids[p]| then kids[p][k + 1] else -1)
  }

  /** A bone without a parent has parent -1 and no next sibling. */
  ghost predicate OrphanUnchained(bones: seq<Bone>, c: int) {
    0 <= c < |bones| && (bones[c].parent < 0 ==> bones[c].parent == -1 && bones[c].nextSibling == -1)
  }

  /**
   * The raw links spell out the children lists: a bone's `first_child`
   * starts its list and each child's `next_sibling` names the next one
   * (-1 after the last); every listed child names the bone as its parent;
   * a bone without a parent has no next sibling.
   */
  ghost predicate Linked(bones: seq<Bone>, kids: seq<seq<int>>) {
    && |kids| == |bones|
    && (forall p :: 0 <= p < |bones| ==> HeadLinked(bones, kids, p))
    && (forall p, k :: 0 <= p < |bones| && 0 <= k < |kids[p]| ==> ChildLinked(bones, kids, p, k))
    && (forall c :: 0 <= c < |bones| ==> OrphanUnchained(bones, c))
  }

  /**
   * The invariant every skeleton the reader builds keeps: consistent
   * links, rotation-only axis orders and a root index that is -1 or a bone.
   */
  ghost predicate Shaped(bones: seq<Bone>, kids: seq<seq<int>>, rootAxis: seq<Axis>, root: int) {
    && Linked(bones, kids)
    && AllRotations(rootAxis)
    && (forall b :: 0 <= b < |bones| ==> AllRotations(bones[b].axisOrder))
    && -1 <= root < |bones|
  }

  ghost predicate WellFormed(sk: Skeleton) {
    Shaped(sk.bones, sk.kids, sk.rootSpec.axis, sk.root)
  }

  /** An empty skeleton is well formed. */
  lemma EmptyWellFormed(units: Units)
    ensures WellFormed(Skeleton([], [], NoRootSpec, -1, units))
  {
  }

  /** Appending an unlinked bone keeps the links consistent; the new bone has no children. */
  lemma PushKeepsLinked(bones: seq<Bone>, kids: seq<seq<int>>, b: Bone)
    requires Linked(bones, kids) && Unlinked(b)
    ensures Linked(bones + [b], kids + [[]])
  {
    var bs, ks := bones + [b], kids + [[]];
    forall p | 0 <= p < |bs| ensures HeadLinked(bs, ks, p) {
      if p < |bones| { assert HeadLinked(bones, kids, p); }
    }
    forall p, k | 0 <= p < |bs| && 0 <= k < |ks[p]| ensures ChildLinked(bs, ks, p, k) {
      assert p < |bones| && ks[p] == kids[p];
      assert ChildLinked(bones, kids, p, k);
    }
    forall c | 0 <= c < |bs| ensures OrphanUnchained(bs, c) {
      if c < |bones| { assert OrphanUnchained(bones, c); }
    }
  }
}
