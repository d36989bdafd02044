/**
 * What AMC::apply_frame computes, over symbolic transform words: the
 * root's model-view word, the pose each bone is given, and the pre-order
 * walk over the bone tree that passes every bone's child word down to its
 * children.
 */
module Kinematics {
  import opened Common
  import opened Transforms
  import opened AsfModel
  import opened AmcModel

  /** apply_frame's error: the frame number is outside [ff, ff + |fs|). NoRoot stands for a skeleton without a root bone. */
  datatype PoseError = FrameOutOfRange(frame: int) | NoRoot

  /** `m.rotate(angle, axis)` for a rotation channel: the component of `angles` it names, about its unit axis. */
  function Rot(a: Axis, angles: Vec3): (p: Prim)
    requires IsRotation(a)
    ensures p.Rotate? && p.angle.Radians?
    ensures p.axis == (if a.RX? then XAxis else if a.RY? then YAxis else ZAxis)
    ensures p.angle.r == (if a.RX? then angles.x else if a.RY? then angles.y else angles.z)
  {
    match a
    case RX => Rotate(Radians(angles.x), XAxis)
    case RY => Rotate(Radians(angles.y), YAxis)
    case RZ => Rotate(Radians(angles.z), ZAxis)
  }

  /**
   * What `for (it = order.rbegin(); it != order.rend(); ++it) m.rotate(...)`
   * appends: one rotation per axis of `order`, the last axis first.
   */
  function Rotations(order: seq<Axis>, angles: Vec3): (w: Word)
    requires AllRotations(order)
    ensures |w| == |order|
    ensures forall i :: 0 <= i < |order| ==> w[i] == Rot(order[|order| - 1 - i], angles)
    decreases |order|
  {
    if order == [] then Identity
    else
      var init := order[..|order| - 1];
      assert AllRotations(init) by {
        forall a | a in init ensures IsRotation(a) { assert a in order; }
      }
      [Rot(order[|order| - 1], angles)] + Rotations(init, angles)
  }

  /** Reversal turns a concatenation around: the rotations of `o1 + o2` are those of `o2`, then those of `o1`. */
  lemma RotationsConcat(o1: seq<Axis>, o2: seq<Axis>, angles: Vec3)
    requires AllRotations(o1) && AllRotations(o2)
    ensures AllRotations(o1 + o2)
    ensures Rotations(o1 + o2, angles) == Rotations(o2, angles) + Rotations(o1, angles)
  {
    var o := o1 + o2;
    assert AllRotations(o);
    var w, w2, w1 := Rotations(o, angles), Rotations(o2, angles), Rotations(o1, angles);
    forall i | 0 <= i < |w| ensures w[i] == (w2 + w1)[i] {
      if i < |o2| {
        assert o[|o| - 1 - i] == o2[|o2| - 1 - i];
      } else {
        assert o[|o| - 1 - i] == o1[|o1| - 1 - (i - |o2|)];
      }
    }
  }

  /** The rotations a Transformation holds, as the vector the rotation words read them from. */
  function Angles(tr: Transformation): Vec3 {
    Vec3(tr.rx, tr.ry, tr.rz)
  }

  /**
   * bone_dir_trans: the rotation about Y × direction by acosf(direction.y)
   * that turns (0, 1, 0) towards the bone's direction; the zero rotation
   * about Z when the direction already is (0, 1, 0).
   */
  function BoneDirTrans(direction: Vec3): (w: Word)
    ensures |w| == 1 && w[0].Rotate?
    ensures direction == YAxis ==> w[0] == Rotate(Radians(0.0), ZAxis)
    ensures direction != YAxis ==> w[0].angle == ArcCos(direction.y) && w[0].axis == Cross(YAxis, direction)
  {
    if direction != YAxis then [Rotate(ArcCos(direction.y), Cross(YAxis, direction))]
    else [Rotate(Radians(0.0), ZAxis)]
  }

  function Dot(a: Vec3, b: Vec3): real {
    a.x * b.x + a.y * b.y + a.z * b.z
  }

  /** The axis bone_dir_trans rotates about is perpendicular to both (0, 1, 0) and the bone's direction. */
  lemma BoneDirAxisPerpendicular(direction: Vec3)
    ensures Dot(Cross(YAxis, direction), YAxis) == 0.0
    ensures Dot(Cross(YAxis, direction), direction) == 0.0
  {
  }

  /**
   * root_mv: the identity translated by the skeleton's root position and
   * the frame's root translation, then rotated by the frame's root
   * rotation about the root axes, last axis first.
   */
  function RootMv(position: Vec3, fr: Frame, rootAxis: seq<Axis>): (w: Word)
    requires AllRotations(rootAxis)
    ensures |w| == 2 + |rootAxis|
    ensures w[0] == Translate(position) && w[1] == Translate(fr.rootTranslation)
    ensures w[2..] == Rotations(rootAxis, fr.rootRotation)
  {
    [Translate(position), Translate(fr.rootTranslation)] + Rotations(rootAxis, fr.rootRotation)
  }

  /** A bone without the five transform fields the walk writes. */
  function Skeletal(b: Bone): Bone {
    b.(localTrans := Identity, localTransInv := Identity, stillTrans := Identity,
       motionTrans := Identity, boneDirTrans := Identity)
  }

  /** Two bone lists that differ at most in the transform fields. */
  predicate SameSkeleton(bs: seq<Bone>, bs': seq<Bone>) {
    |bs'| == |bs| && forall i :: 0 <= i < |bs| ==> Skeletal(bs'[i]) == Skeletal(bs[i])
  }

  /** Every bone's axis order names rotations only, as the skeleton reader guarantees. */
  predicate Oriented(bones: seq<Bone>) {
    forall i :: 0 <= i < |bones| ==> AllRotations(bones[i].axisOrder)
  }

  /**
   * What apply_frame_to_bone writes into a bone given the Transformation
   * `tr` of the frame and the word `mv` handed down: the direction
   * rotation, the local rotation about the bone's axis and its inverse,
   * `still_trans = mv` and `motion_trans = mv * local * motion * local⁻¹`.
   */
  function Pose(b: Bone, tr: Transformation, mv: Word): (r: Bone)
    requires AllRotations(b.axisOrder)
    ensures Skeletal(r) == Skeletal(b)
  {
    var local := Rotations(b.axisOrder, b.axis);
    b.(boneDirTrans := BoneDirTrans(b.direction),
       localTrans := local,
       localTransInv := [Inverse(local)],
       stillTrans := mv,
       motionTrans := mv + local + Rotations(b.axisOrder, Angles(tr)) + [Inverse(local)])
  }

  /**
   * A posed bone's motion word is its still word followed by the rotation
   * by the frame's angles conjugated by the local rotation, the angles
   * applied about the bone's axes in reverse axis order.
   */
  lemma PoseComposition(b: Bone, tr: Transformation, mv: Word)
    requires AllRotations(b.axisOrder)
    ensures var r := Pose(b, tr, mv);
            && r.stillTrans == mv
            && r.localTransInv == [Inverse(r.localTrans)]
            && r.motionTrans == r.stillTrans + r.localTrans + Rotations(b.axisOrder, Angles(tr)) + r.localTransInv
            && |r.motionTrans| == |mv| + 2 * |b.axisOrder| + 1
            && (b.axisOrder != [] ==>
                  r.motionTrans[|mv| + |b.axisOrder|] == Rot(b.axisOrder[|b.axisOrder| - 1], Angles(tr)))
  {
  }

  /** A pose overwrites every transform field: it depends on the bone only through its skeletal fields. */
  lemma PoseOverwrites(b: Bone, b': Bone, tr: Transformation, mv: Word)
    requires AllRotations(b.axisOrder) && Skeletal(b') == Skeletal(b)
    ensures b'.axisOrder == b.axisOrder
    ensures Pose(b', tr, mv) == Pose(b, tr, mv)
  {
    assert Skeletal(b').axisOrder == b'.axisOrder;
  }

  /** The word a bone hands to its children: its motion word, translated by length × direction. */
  function ChildMv(b: Bone): (w: Word)
    ensures |w| == |b.motionTrans| + 1 && w[..|b.motionTrans|] == b.motionTrans
    ensures w[|b.motionTrans|] == Translate(Scale(b.length, b.direction))
  {
    b.motionTrans + [Translate(Scale(b.length, b.direction))]
  }

  /**
   * A rank that falls from every ranked bone (rank above 0) to each of its
   * children, which are ranked too: no cycle is reachable from a ranked
   * bone, so the recursion from one ends. Bones of rank 0 are left
   * unconstrained, so a parent cycle that the walk never reaches is
   * allowed. (The skeleton reader does not rule cycles out;
   * apply_frame_to_bone recurses forever on one it reaches.)
   */
  ghost predicate Ranked(kids: seq<seq<int>>, rank: seq<nat>, n: nat) {
    && |kids| == n && |rank| == n
    && forall p, k :: 0 <= p < n && 0 < rank[p] && 0 <= k < |kids[p]| ==>
         0 <= kids[p][k] < n && 0 < rank[kids[p][k]] < rank[p]
  }

  /**
   * A parent cycle the root does not reach is admitted: root 0 has no
   * children, and bones 1 and 2 are each other's child (hierarchy lines
   * `A B` then `B A`). The root is ranked and the cycle is not.
   */
  lemma UnreachedCycleRanked()
    ensures Ranked([[], [2], [1]], [1, 0, 0], 3)
  {
  }

  /** The bones apply_frame_to_bone(p) visits, in the order it visits them: `p`, then each child's walk in turn. */
  function Walk(kids: seq<seq<int>>, ghost rank: seq<nat>, p: nat): (w: seq<int>)
    requires Ranked(kids, rank, |kids|) && p < |kids| && rank[p] > 0
    ensures w != [] && w[0] == p
    ensures forall x :: x in w ==> 0 <= x < |kids| && 0 < rank[x] <= rank[p]
    decreases rank[p], 1
  {
    [p] + WalkKids(kids, rank, p, 0)
  }

  /** The walks of the children of `p` from the k-th on. */
  function WalkKids(kids: seq<seq<int>>, ghost rank: seq<nat>, p: nat, k: nat): (w: seq<int>)
    requires Ranked(kids, rank, |kids|) && p < |kids| && k <= |kids[p]| && rank[p] > 0
    ensures forall x :: x in w ==> 0 <= x < |kids| && 0 < rank[x] < rank[p]
    decreases rank[p], 0, |kids[p]| - k
  {
    if k == |kids[p]| then []
    else Walk(kids, rank, kids[p][k]) + WalkKids(kids, rank, p, k + 1)
  }

  /** apply_frame_to_bone(p, frame, mv) on the bone list: pose `p`, then walk its children with its child word. */
  function PoseTree(bones: seq<Bone>, kids: seq<seq<int>>, ghost rank: seq<nat>, trs: seq<Transformation>,
                    p: nat, mv: Word): (r: seq<Bone>)
    requires Ranked(kids, rank, |bones|) && |trs| == |bones| && Oriented(bones) && p < |bones| && rank[p] > 0
    ensures SameSkeleton(bones, r) && Oriented(r)
    decreases rank[p], 1
  {
    var posed := bones[p := Pose(bones[p], trs[p], mv)];
    PoseKids(posed, kids, rank, trs, p, 0, ChildMv(posed[p]))
  }

  /** The children loop of apply_frame_to_bone(p) from the k-th child on, every child given `mv`. */
  function PoseKids(bones: seq<Bone>, kids: seq<seq<int>>, ghost rank: seq<nat>, trs: seq<Transformation>,
                    p: nat, k: nat, mv: Word): (r: seq<Bone>)
    requires Ranked(kids, rank, |bones|) && |trs| == |bones| && Oriented(bones) && p < |bones| && k <= |kids[p]| && rank[p] > 0
    ensures SameSkeleton(bones, r) && Oriented(r)
    decreases rank[p], 0, |kids[p]| - k
  {
    if k == |kids[p]| then bones
    else PoseKids(PoseTree(bones, kids, rank, trs, kids[p][k], mv), kids, rank, trs, p, k + 1, mv)
  }

  /** One step of the children loop: the k-th child's tree is posed, then the loop goes on from the next child. */
  lemma PoseKidsNext(bones: seq<Bone>, kids: seq<seq<int>>, rank: seq<nat>, trs: seq<Transformation>,
                     p: nat, k: nat, mv: Word)
    requires Ranked(kids, rank, |bones|) && |trs| == |bones| && Oriented(bones) && p < |bones| && k < |kids[p]| && rank[p] > 0
    ensures PoseKids(bones, kids, rank, trs, p, k, mv)
            == PoseKids(PoseTree(bones, kids, rank, trs, kids[p][k], mv), kids, rank, trs, p, k + 1, mv)
  {
  }

  // ---------------------------------------------------------------------
  // The walk is a tree walk

  /** The same skeleton keeps the links consistent. */
  lemma SameSkeletonLinked(bs: seq<Bone>, bs': seq<Bone>, kids: seq<seq<int>>)
    requires SameSkeleton(bs, bs') && Linked(bs, kids)
    ensures Linked(bs', kids)
  {
    forall i | 0 <= i < |bs| ensures bs'[i].parent == bs[i].parent && bs'[i].firstChild == bs[i].firstChild
                                      && bs'[i].nextSibling == bs[i].nextSibling
    {
      assert Skeletal(bs'[i]).parent == Skeletal(bs[i]).parent;
      assert Skeletal(bs'[i]).firstChild == Skeletal(bs[i]).firstChild;
      assert Skeletal(bs'[i]).nextSibling == Skeletal(bs[i]).nextSibling;
    }
    forall p | 0 <= p < |bs'| ensures HeadLinked(bs', kids, p) {
      assert HeadLinked(bs, kids, p);
    }
    forall p, k | 0 <= p < |bs'| && 0 <= k < |kids[p]| ensures ChildLinked(bs', kids, p, k) {
      assert ChildLinked(bs, kids, p, k);
    }
    forall c | 0 <= c < |bs'| ensures OrphanUnchained(bs', c) {
      assert OrphanUnchained(bs, c);
    }
  }

  /** A bone occurs at most once in a children list: a repeated bone would make the sibling chain cyclic. */
  lemma {:induction false} SiblingsDistinct(bones: seq<Bone>, kids: seq<seq<int>>, p: nat, j: nat, k: nat)
    requires Linked(bones, kids) && p < |bones| && j < k < |kids[p]|
    ensures kids[p][j] != kids[p][k]
    decreases |kids[p]| - k
  {
    if kids[p][j] == kids[p][k] {
      assert ChildLinked(bones, kids, p, j) && ChildLinked(bones, kids, p, k);
      assert ChildLinked(bones, kids, p, j + 1);
      if k + 1 < |kids[p]| {
        SiblingsDistinct(bones, kids, p, j + 1, k + 1);
      }
    }
  }

  /** The child of `p`, from the k-th on, in whose walk a bone of the children's walks is. */
  ghost function ChildIndex(kids: seq<seq<int>>, rank: seq<nat>, p: nat, k: nat, x: int): (j: nat)
    requires Ranked(kids, rank, |kids|) && p < |kids| && rank[p] > 0 && k <= |kids[p]| && x in WalkKids(kids, rank, p, k)
    ensures k <= j < |kids[p]| && x in Walk(kids, rank, kids[p][j])
    decreases |kids[p]| - k
  {
    if x in Walk(kids, rank, kids[p][k]) then k else ChildIndex(kids, rank, p, k + 1, x)
  }

  /** A bone in the walk of a child of `p`, from the k-th on, is in the children's walks. */
  lemma {:induction false} WalkKidsHas(kids: seq<seq<int>>, rank: seq<nat>, p: nat, k: nat, j: nat, x: int)
    requires Ranked(kids, rank, |kids|) && p < |kids| && rank[p] > 0 && k <= j < |kids[p]| && x in Walk(kids, rank, kids[p][j])
    ensures x in WalkKids(kids, rank, p, k)
    decreases j - k
  {
    if k < j {
      WalkKidsHas(kids, rank, p, k + 1, j, x);
    }
  }

  /**
   * Every bone of a walk but the first is a child of a bone earlier in
   * the walk: its parent link names that bone, and it is in that bone's
   * children list.
   */
  lemma {:induction false} WalkParent(bones: seq<Bone>, kids: seq<seq<int>>, rank: seq<nat>, p: nat, x: int)
    requires Linked(bones, kids) && Ranked(kids, rank, |bones|) && p < |bones| && rank[p] > 0
    requires x in Walk(kids, rank, p) && x != p
    ensures 0 <= bones[x].parent < |bones| && bones[x].parent in Walk(kids, rank, p)
    ensures x in kids[bones[x].parent] && rank[x] < rank[bones[x].parent]
    decreases rank[p]
  {
    var j := ChildIndex(kids, rank, p, 0, x);
    var c := kids[p][j];
    assert ChildLinked(bones, kids, p, j);
    if x != c {
      WalkParent(bones, kids, rank, c, x);
      WalkKidsHas(kids, rank, p, 0, j, bones[x].parent);
    }
  }

  /** The walks of two different children of a bone have no bone in common. */
  lemma {:induction false} WalksApart(bones: seq<Bone>, kids: seq<seq<int>>, rank: seq<nat>, p: nat, j: nat, k: nat, x: int)
    requires Linked(bones, kids) && Ranked(kids, rank, |bones|) && p < |bones| && rank[p] > 0
    requires j < |kids[p]| && k < |kids[p]| && kids[p][j] != kids[p][k]
    ensures !(x in Walk(kids, rank, kids[p][j]) && x in Walk(kids, rank, kids[p][k]))
    decreases if x in Walk(kids, rank, kids[p][j]) then rank[kids[p][j]] - rank[x] else 0
  {
    var a, b := kids[p][j], kids[p][k];
    assert ChildLinked(bones, kids, p, j) && ChildLinked(bones, kids, p, k);
    if x in Walk(kids, rank, a) && x in Walk(kids, rank, b) {
      if x == a {
        WalkParent(bones, kids, rank, b, a);
      } else if x == b {
        WalkParent(bones, kids, rank, a, b);
      } else {
        WalkParent(bones, kids, rank, a, x);
        WalkParent(bones, kids, rank, b, x);
        WalksApart(bones, kids, rank, p, j, k, bones[x].parent);
      }
    }
  }

  /** The k-th child's walk shares no bone with the walks of the children after it. */
  lemma WalkKidsApart(bones: seq<Bone>, kids: seq<seq<int>>, rank: seq<nat>, p: nat, k: nat, x: int)
    requires Linked(bones, kids) && Ranked(kids, rank, |bones|) && p < |bones| && k < |kids[p]| && rank[p] > 0
    ensures !(x in Walk(kids, rank, kids[p][k]) && x in WalkKids(kids, rank, p, k + 1))
  {
    if x in WalkKids(kids, rank, p, k + 1) {
      var j := ChildIndex(kids, rank, p, k + 1, x);
      SiblingsDistinct(bones, kids, p, k, j);
      WalksApart(bones, kids, rank, p, k, j, x);
    }
  }

  /** Parent before children: every bone of a walk after the first comes after its parent. */
  lemma {:induction false} WalkPreorder(bones: seq<Bone>, kids: seq<seq<int>>, rank: seq<nat>, p: nat)
    requires Linked(bones, kids) && Ranked(kids, rank, |bones|) && p < |bones| && rank[p] > 0
    ensures forall i :: 0 < i < |Walk(kids, rank, p)| ==> 0 <= Walk(kids, rank, p)[i] < |bones| && bones[Walk(kids, rank, p)[i]].parent in Walk(kids, rank, p)[..i]
    decreases rank[p], 1
  {
    var w := Walk(kids, rank, p);
    var wk := WalkKids(kids, rank, p, 0);
    WalkKidsPreorder(bones, kids, rank, p, 0);
    assert w == [p] + wk;
    forall i | 0 < i < |w| ensures 0 <= w[i] < |bones| && bones[w[i]].parent in w[..i] {
      assert w[i] == wk[i - 1] && w[..i] == [p] + wk[..i - 1];
      assert 0 <= wk[i - 1] < |bones| && (bones[wk[i - 1]].parent == p || bones[wk[i - 1]].parent in wk[..i - 1]);
    }
  }

  /** In the children's walks, every bone comes after its parent, unless its parent is `p`. */
  lemma {:induction false} WalkKidsPreorder(bones: seq<Bone>, kids: seq<seq<int>>, rank: seq<nat>, p: nat, k: nat)
    requires Linked(bones, kids) && Ranked(kids, rank, |bones|) && p < |bones| && k <= |kids[p]| && rank[p] > 0
    ensures forall i :: 0 <= i < |WalkKids(kids, rank, p, k)| ==> 0 <= WalkKids(kids, rank, p, k)[i] < |bones| && (bones[WalkKids(kids, rank, p, k)[i]].parent == p || bones[WalkKids(kids, rank, p, k)[i]].parent in WalkKids(kids, rank, p, k)[..i])
    decreases rank[p], 0, |kids[p]| - k
  {
    if k < |kids[p]| {
      var c := kids[p][k];
      var w, wc, wr := WalkKids(kids, rank, p, k), Walk(kids, rank, c), WalkKids(kids, rank, p, k + 1);
      WalkPreorder(bones, kids, rank, c);
      WalkKidsPreorder(bones, kids, rank, p, k + 1);
      assert ChildLinked(bones, kids, p, k);
      assert w == wc + wr && wc[0] == c;
      forall i | 0 <= i < |w| ensures 0 <= w[i] < |bones| && (bones[w[i]].parent == p || bones[w[i]].parent in w[..i]) {
        if i == 0 {
          assert w[0] == c;
        } else if i < |wc| {
          assert w[i] == wc[i] && w[..i] == wc[..i];
          assert 0 <= wc[i] < |bones| && bones[wc[i]].parent in wc[..i];
        } else {
          var i' := i - |wc|;
          assert w[i] == wr[i'] && w[..i] == wc + wr[..i'];
          assert 0 <= wr[i'] < |bones| && (bones[wr[i']].parent == p || bones[wr[i']].parent in wr[..i']);
        }
      }
    }
  }

  // ---------------------------------------------------------------------
  // What the walk writes

  /** Bones outside the walk from `p` keep their value. */
  lemma {:induction false} PoseTreeOutside(bones: seq<Bone>, kids: seq<seq<int>>, rank: seq<nat>,
                                           trs: seq<Transformation>, p: nat, mv: Word, x: int)
    requires Ranked(kids, rank, |bones|) && |trs| == |bones| && Oriented(bones) && p < |bones| && rank[p] > 0
    requires 0 <= x < |bones| && x !in Walk(kids, rank, p)
    ensures PoseTree(bones, kids, rank, trs, p, mv)[x] == bones[x]
    decreases rank[p], 1
  {
    var posed := bones[p := Pose(bones[p], trs[p], mv)];
    PoseKidsOutside(posed, kids, rank, trs, p, 0, ChildMv(posed[p]), x);
  }

  /** Bones outside the children's walks keep their value. */
  lemma {:induction false} PoseKidsOutside(bones: seq<Bone>, kids: seq<seq<int>>, rank: seq<nat>,
                                           trs: seq<Transformation>, p: nat, k: nat, mv: Word, x: int)
    requires Ranked(kids, rank, |bones|) && |trs| == |bones| && Oriented(bones) && p < |bones| && k <= |kids[p]| && rank[p] > 0
    requires 0 <= x < |bones| && x !in WalkKids(kids, rank, p, k)
    ensures PoseKids(bones, kids, rank, trs, p, k, mv)[x] == bones[x]
    decreases rank[p], 0, |kids[p]| - k
  {
    if k < |kids[p]| {
      var c := kids[p][k];
      PoseTreeOutside(bones, kids, rank, trs, c, mv, x);
      PoseKidsOutside(PoseTree(bones, kids, rank, trs, c, mv), kids, rank, trs, p, k + 1, mv, x);
    }
  }

  /**
   * The walk from `p` with word `mv` poses every bone it visits: `p` with
   * `mv`, and every other bone with the child word of its parent as the
   * walk leaves the parent. The parent's pose is final by then, so
   * still_trans of a child is its parent's motion_trans followed by the
   * translation along the parent.
   */
  lemma {:induction false} PoseTreeWrites(bones: seq<Bone>, kids: seq<seq<int>>, rank: seq<nat>,
                                          trs: seq<Transformation>, p: nat, mv: Word)
    requires Linked(bones, kids) && Ranked(kids, rank, |bones|) && |trs| == |bones| && Oriented(bones) && p < |bones| && rank[p] > 0
    ensures var r := PoseTree(bones, kids, rank, trs, p, mv);
            && r[p] == Pose(bones[p], trs[p], mv)
            && forall x :: x in Walk(kids, rank, p) && x != p ==>
                 0 <= bones[x].parent < |bones| && r[x] == Pose(bones[x], trs[x], ChildMv(r[bones[x].parent]))
    decreases rank[p], 1
  {
    var r := PoseTree(bones, kids, rank, trs, p, mv);
    var posed := bones[p := Pose(bones[p], trs[p], mv)];
    var cm := ChildMv(posed[p]);
    SameSkeletonLinked(bones, posed, kids);
    PoseKidsWrites(posed, kids, rank, trs, p, 0, cm);
    PoseKidsOutside(posed, kids, rank, trs, p, 0, cm, p);
    forall x | x in Walk(kids, rank, p) && x != p
      ensures 0 <= bones[x].parent < |bones| && r[x] == Pose(bones[x], trs[x], ChildMv(r[bones[x].parent]))
    {
      assert x in WalkKids(kids, rank, p, 0);
      assert posed[x] == bones[x];
    }
  }

  /** The children loop poses every bone of the children's walks: a child of `p` with `mv`, any other bone with its parent's child word. */
  lemma {:induction false} PoseKidsWrites(bones: seq<Bone>, kids: seq<seq<int>>, rank: seq<nat>,
                                          trs: seq<Transformation>, p: nat, k: nat, mv: Word)
    requires Linked(bones, kids) && Ranked(kids, rank, |bones|) && |trs| == |bones| && Oriented(bones)
    requires p < |bones| && rank[p] > 0 && k <= |kids[p]|
    ensures var r := PoseKids(bones, kids, rank, trs, p, k, mv);
            forall x :: x in WalkKids(kids, rank, p, k) ==>
              0 <= bones[x].parent < |bones| &&
              r[x] == Pose(bones[x], trs[x], if bones[x].parent == p then mv else ChildMv(r[bones[x].parent]))
    decreases rank[p], 0, |kids[p]| - k
  {
    if k < |kids[p]| {
      var c := kids[p][k];
      var mid := PoseTree(bones, kids, rank, trs, c, mv);
      var r := PoseKids(mid, kids, rank, trs, p, k + 1, mv);
      SameSkeletonLinked(bones, mid, kids);
      PoseTreeWrites(bones, kids, rank, trs, c, mv);
      PoseKidsWrites(mid, kids, rank, trs, p, k + 1, mv);
      assert ChildLinked(bones, kids, p, k);
      forall x | x in WalkKids(kids, rank, p, k)
        ensures 0 <= bones[x].parent < |bones| &&
                r[x] == Pose(bones[x], trs[x], if bones[x].parent == p then mv else ChildMv(r[bones[x].parent]))
      {
        WalkKidsApart(bones, kids, rank, p, k, x);
        assert Skeletal(mid[x]) == Skeletal(bones[x]);
        if x in Walk(kids, rank, c) {
          PoseKidsOutside(mid, kids, rank, trs, p, k + 1, mv, x);
          if x != c {
            WalkParent(bones, kids, rank, c, x);
            var y := bones[x].parent;
            WalkKidsApart(bones, kids, rank, p, k, y);
            PoseKidsOutside(mid, kids, rank, trs, p, k + 1, mv, y);
          }
        } else {
          PoseTreeOutside(bones, kids, rank, trs, c, mv, x);
        }
      }
    }
  }
}
