/**
 * The motion reader as the C++ class works: the constructor's line loop
 * grows the frame buffer `fs` in place and writes the values of each
 * channel line into the current frame. Each step is proved to compute
 * what the corresponding function of AmcParse specifies.
 */
module AmcReader {
  import opened Common
  import opened Lexing
  import opened AsfModel
  import opened AsfReader
  import opened AmcModel
  import opened AmcParse
  import opened Transforms
  import opened Kinematics

  /** amc.cpp's strip: a forward scan over leading and a backward scan over trailing whitespace. */
  method StripBoth(s: string) returns (r: string)
    ensures r == Trim(s)
  {
    if |s| == 0 {
      return "";
    }
    var front, back := 0, |s| - 1;
    while front <= back && IsSpace(s[front])
      invariant front <= |s| && back == |s| - 1
      invariant forall i :: 0 <= i < front ==> IsSpace(s[i])
    {
      front := front + 1;
    }
    while back >= front && IsSpace(s[back])
      invariant front - 1 <= back < |s|
      invariant forall i :: back < i < |s| ==> IsSpace(s[i])
    {
      back := back - 1;
    }
    if front > back {
      assert IsBlank(s);
      r := "";
    } else {
      assert LeadingSpaces(s) == front;
      assert TrailingSpaces(s) == |s| - 1 - back;
      r := s[front..back + 1];
    }
  }

  /**
   * amc.cpp's getline: read and strip lines until one is neither empty nor
   * a comment. `pos` is the number of lines the stream has given out.
   */
  method NextMotionLine(lines: seq<string>, pos: nat) returns (ok: bool, line: string, pos': nat)
    requires pos <= |lines|
    ensures var n := NextContent(TrimAll(lines), pos);
            && (ok <==> n < |lines|)
            && (ok ==> line == Trim(lines[n]) && IsContent(line) && pos' == n + 1)
            && (!ok ==> pos' == |lines|)
  {
    ghost var ts := TrimAll(lines);
    pos' := pos;
    while pos' < |lines|
      invariant pos <= pos' <= |lines|
      invariant NextContent(ts, pos') == NextContent(ts, pos)
    {
      line := StripBoth(lines[pos']);
      pos' := pos' + 1;
      if IsContent(line) {
        return true, line, pos';
      }
    }
    return false, "", pos';
  }

  /** The bone_indices loop: bone i's name maps to i, a later bone overwriting an earlier one of the same name. */
  method BuildBoneIndices(bones: seq<Bone>) returns (m: map<string, nat>)
    ensures m == BoneIndices(bones)
  {
    m := map[];
    for i := 0 to |bones|
      invariant m == BoneIndices(bones[..i])
    {
      assert bones[..i + 1][..i] == bones[..i];
      m := m[bones[i].name := i];
    }
    assert bones[..|bones|] == bones;
  }

  /**
   * The reverse loops of apply_frame and apply_frame_to_bone: `m.rotate`
   * once per axis of `order`, from the last axis to the first.
   */
  method RotateAll(m: Word, order: seq<Axis>, angles: Vec3) returns (r: Word)
    requires AllRotations(order)
    ensures r == m + Rotations(order, angles)
  {
    r := m;
    var i := |order|;
    assert order[i..] == [];
    while i > 0
      invariant 0 <= i <= |order|
      invariant AllRotations(order[i..]) && r == m + Rotations(order[i..], angles)
    {
      i := i - 1;
      assert order[i..] == [order[i]] + order[i + 1..];
      assert AllRotations([order[i]]) && AllRotations(order[i + 1..]);
      RotationsConcat([order[i]], order[i + 1..], angles);
      r := r + [Rot(order[i], angles)];
    }
    assert order[0..] == order;
  }

  class Amc {
    /** The skeleton the motion belongs to. */
    const asf: Asf
    /** The numeric conversions of the C library. */
    const num: Numerals

    var fs: seq<Frame>
    var ff: int

    /** What the line loop takes from the skeleton. */
    ghost function SkeletonRig(): Rig
      reads asf`bones, asf`rootOrder, asf`lengthUnit
    {
      Rig(asf.bones, asf.rootOrder, asf.lengthUnit)
    }

    /** The state of the line loop, given its locals. */
    ghost function State(current: int, cfi: int, angleUnit: real): Reading
      reads this`fs, this`ff
    {
      Reading(fs, ff, current, cfi, angleUnit)
    }

    /** The member initialisers: no frames, and ff = -1 until a frame marker is read. */
    constructor (asf: Asf, num: Numerals)
      ensures this.asf == asf && this.num == num
      ensures fs == [] && ff == -1
    {
      this.asf := asf;
      this.num := num;
      fs := [];
      ff := -1;
    }

    /**
     * `fs.resize(elements_required)` towards higher frame numbers, each new
     * frame given one zero Transformation per bone.
     */
    method AppendFrames(required: nat, blank: Frame)
      requires |fs| < required
      modifies this`fs
      ensures fs == old(fs) + seq(required - |old(fs)|, _ => blank)
    {
      ghost var fs0 := fs;
      while |fs| < required
        invariant |fs0| <= |fs| <= required
        invariant fs == fs0 + seq(|fs| - |fs0|, _ => blank)
      {
        fs := fs + [blank];
      }
    }

    /**
     * The prepend path: the frames move up by `count` places and `count`
     * frames with one zero Transformation per bone come in front.
     */
    method PrependFrames(count: nat, blank: Frame)
      modifies this`fs
      ensures fs == seq(count, _ => blank) + old(fs)
    {
      ghost var fs0 := fs;
      var k := 0;
      while k < count
        invariant k <= count
        invariant fs == seq(k, _ => blank) + fs0
      {
        fs := [blank] + fs;
        k := k + 1;
      }
    }

    /** A frame marker naming frame `n`: amc.cpp's lines 78-113. */
    method MarkFrame(n: int, line: string, current: int, cfi: int, angleUnit: real)
      returns (res: Outcome<AmcError>, current': int, cfi': int)
      modifies this`fs, this`ff
      ensures match FrameMarker(old(State(current, cfi, angleUnit)), n, |asf.bones|, line)
              case Ok(st) => res == Pass && fs == st.fs && ff == st.ff && current' == st.current && cfi' == st.cfi
              case Err(e) => res == Fail(e)
    {
      if n < 0 {
        return Fail(NegativeFrame(line)), current, cfi;
      }
      ghost var g := Grow(fs, if ff < 0 then n else ff, n, |asf.bones|);
      current' := n;
      if ff < 0 {
        ff := current';
      }
      var required := if current' >= ff then current' - ff + 1 else ff - current' + |fs|;
      if |fs| < required {
        if current' >= ff {
          AppendFrames(required, BlankFrame(|asf.bones|));
        } else {
          PrependFrames(ff - current', BlankFrame(|asf.bones|));
          ff := current';
        }
      }
      assert fs == g.0 && ff == g.1;
      cfi' := current' - ff;
      res := Pass;
    }

    /** A `root` line: the switch over root_order, the check for values left over, then the scaling. */
    method ReadRootLine(rest: string, current: int, cfi: int, angleUnit: real) returns (res: Outcome<AmcError>)
      requires 0 <= cfi < |fs|
      modifies this`fs
      ensures match RootLine(old(State(current, cfi, angleUnit)), SkeletonRig(), rest, num)
              case Ok(st) => res == Pass && fs == st.fs
              case Err(e) => res == Fail(e)
    {
      var order := asf.rootOrder;
      var fr, lineRest := fs[cfi], rest;
      assert order[0..] == order;
      for k := 0 to |order|
        invariant RootValues(fs[cfi], order, rest, current, num) == RootValues(fr, order[k..], lineRest, current, num)
      {
        assert order[k..][1..] == order[k + 1..];
        if Eof(lineRest) {
          return Fail(MissingRootAxes(current));
        }
        match RootChannel(fr, order[k], lineRest, num)
        case None => return Fail(UnknownRootAxis);
        case Some((fr', rest')) => fr, lineRest := fr', rest';
      }
      if !Eof(lineRest) {
        return Fail(TooManyRootAxes(current));
      }
      fr := fr.(rootRotation := Scale(angleUnit, fr.rootRotation),
                rootTranslation := Scale(asf.lengthUnit, fr.rootTranslation));
      fs := fs[cfi := fr];
      res := Pass;
    }

    /** A bone line: the name lookup, the switch over the bone's dof_order, the check for values left over. */
    method ReadBoneLine(indices: map<string, nat>, name: string, rest: string, line: string,
                        current: int, cfi: int, angleUnit: real) returns (res: Outcome<AmcError>)
      requires Consistent(State(current, cfi, angleUnit), |asf.bones|) && IndicesIn(indices, |asf.bones|)
      modifies this`fs
      ensures match BoneLine(old(State(current, cfi, angleUnit)), SkeletonRig(), indices, name, rest, line, num)
              case Ok(st) => res == Pass && fs == st.fs
              case Err(e) => res == Fail(e)
    {
      if name !in indices {
        return Fail(UnknownBone(name, current));
      }
      if cfi < 0 {
        return Fail(NoCurrentFrame(line));
      }
      var bi := indices[name];
      var dofs := asf.bones[bi].dofOrder;
      var trans, lineRest := fs[cfi].transformations[bi], rest;
      assert dofs[0..] == dofs;
      for k := 0 to |dofs|
        invariant BoneValues(fs[cfi].transformations[bi], dofs, rest, angleUnit, name, current, num)
                  == BoneValues(trans, dofs[k..], lineRest, angleUnit, name, current, num)
      {
        assert dofs[k..][1..] == dofs[k + 1..];
        if Eof(lineRest) {
          return Fail(MissingBoneAxes(name, current));
        }
        var (v, rest') := ReadReal(lineRest, 0.0, num);
        match BoneChannel(trans, dofs[k], InUnit(v, angleUnit))
        case None => return Fail(UnknownDof(dofs[k], name));
        case Some(trans') => trans, lineRest := trans', rest';
      }
      if !Eof(lineRest) {
        return Fail(TooManyBoneAxes(name, current));
      }
      fs := fs[cfi := fs[cfi].(transformations := fs[cfi].transformations[bi := trans])];
      res := Pass;
    }

    /** One line of the constructor's loop. */
    method ReadMotionLine(indices: map<string, nat>, line: string, current: int, cfi: int, angleUnit: real,
                          ghost rig: Rig)
      returns (res: Outcome<AmcError>, current': int, cfi': int, angleUnit': real)
      requires IsContent(line) && Consistent(State(current, cfi, angleUnit), |asf.bones|)
      requires IndicesIn(indices, |asf.bones|) && rig == SkeletonRig()
      modifies this`fs, this`ff
      ensures match MotionLine(old(State(current, cfi, angleUnit)), rig, indices, line, num)
              case Ok(st) => res == Pass && State(current', cfi', angleUnit') == st
              case Err(e) => res == Fail(e)
    {
      current', cfi', angleUnit' := current, cfi, angleUnit;
      if line[0] == ':' {
        if line == ":DEGREES" {
          angleUnit' := DegreeUnit;
        }
        return Pass, current', cfi', angleUnit';
      }
      match num.frame(line)
      case Some(n) =>
        res, current', cfi' := MarkFrame(n, line, current, cfi, angleUnit);
      case None =>
        var (name, rest) := ReadWord(line, "");
        if name == "root" {
          if cfi < 0 {
            return Fail(UnframedRoot(asf.rootOrder, rest, current, line)), current', cfi', angleUnit';
          }
          res := ReadRootLine(rest, current, cfi, angleUnit);
        } else {
          res := ReadBoneLine(indices, name, rest, line, current, cfi, angleUnit);
        }
    }

    /**
     * AMC::AMC: the bone-name map, then the line loop. The frames and the
     * first frame number are those Motion gives.
     */
    method Read(lines: seq<string>) returns (res: Outcome<AmcError>)
      requires fs == [] && ff == -1
      modifies this`fs, this`ff
      ensures match Motion(SkeletonRig(), lines, num)
              case Ok((frames, first)) => res == Pass && fs == frames && ff == first
              case Err(e) => res == Fail(e)
    {
      var indices := BuildBoneIndices(asf.bones);
      ghost var rig := SkeletonRig();
      ghost var goal := ReadAmc(Start, rig, indices, Content(TrimAll(lines), 0), num);
      res := ReadLines(lines, indices, rig, goal);
    }

    /**
     * The line loop over `lines`: every line is stripped, empty lines and
     * comments are skipped, and the first error ends the reading, which
     * then ends as ReadAmc says.
     */
    method ReadLines(lines: seq<string>, indices: map<string, nat>, ghost rig: Rig, ghost goal: Result<Reading, AmcError>)
      returns (res: Outcome<AmcError>)
      requires fs == [] && ff == -1 && IndicesIn(indices, |asf.bones|) && rig == SkeletonRig()
      requires goal == ReadAmc(Start, rig, indices, Content(TrimAll(lines), 0), num)
      modifies this`fs, this`ff
      ensures goal.Ok? ==> res == Pass && fs == goal.value.fs && ff == goal.value.ff
      ensures goal.Err? ==> res == Fail(goal.error)
    {
      var current, cfi, angleUnit := -1, -1, 1.0;
      ghost var ts := TrimAll(lines);
      var pos := 0;
      while true
        invariant pos <= |lines| && Consistent(State(current, cfi, angleUnit), |asf.bones|)
        invariant goal == ReadAmc(State(current, cfi, angleUnit), rig, indices, Content(ts, pos), num)
        decreases |lines| - pos
      {
        ghost var st, n := State(current, cfi, angleUnit), NextContent(ts, pos);
        ContentAt(ts, pos);
        var ok, line;
        ok, line, pos := NextMotionLine(lines, pos);
        if !ok {
          return Pass;
        }
        assert ts[n] == line && pos == n + 1;
        ghost var rest := Content(ts, pos);
        ReadAmcFirst(st, rig, indices, line, rest, num);
        res, current, cfi, angleUnit := ReadMotionLine(indices, line, current, cfi, angleUnit, rig);
        if res.Fail? {
          return;
        }
        assert goal == ReadAmc(State(current, cfi, angleUnit), rig, indices, rest, num);
      }
    }

    /**
     * AMC::apply_frame: the bounds check on the frame number, the root's
     * model-view word, then the walk from the root bone. Every bone the
     * walk reaches is posed; the others keep their transforms.
     */
    method ApplyFrame(frame: int, ghost rank: seq<nat>) returns (res: Outcome<PoseError>)
      requires Shaped(asf.bones, asf.kids, asf.rootAxis, asf.root)
      requires Ranked(asf.kids, rank, |asf.bones|) && Sized(fs, |asf.bones|)
      requires asf.root >= 0 ==> rank[asf.root] > 0
      modifies asf`bones
      ensures !Holds(fs, ff, frame) ==> res == Fail(FrameOutOfRange(frame)) && asf.bones == old(asf.bones)
      ensures Holds(fs, ff, frame) && asf.root < 0 ==> res == Fail(NoRoot) && asf.bones == old(asf.bones)
      ensures Holds(fs, ff, frame) && asf.root >= 0 ==>
                && res == Pass
                && asf.bones == PoseTree(old(asf.bones), asf.kids, rank, fs[frame - ff].transformations, asf.root,
                                         RootMv(asf.rootPosition, fs[frame - ff], asf.rootAxis))
    {
      if frame < ff || frame - ff >= |fs| {
        return Fail(FrameOutOfRange(frame));
      }
      if asf.root < 0 {
        return Fail(NoRoot);
      }
      var fr := fs[frame - ff];
      var rootMv := [Translate(asf.rootPosition), Translate(fr.rootTranslation)];
      rootMv := RotateAll(rootMv, asf.rootAxis, fr.rootRotation);
      ApplyFrameToBone(asf.root, frame, rootMv, rank);
      res := Pass;
    }

    /**
     * The first half of AMC::apply_frame_to_bone: bone `bi`'s direction
     * rotation, its local rotation and inverse, and its still and motion
     * words for the frame's Transformation `tr` and the word `mv`.
     */
    method PoseBone(bi: nat, tr: Transformation, mv: Word)
      requires bi < |asf.bones| && AllRotations(asf.bones[bi].axisOrder)
      modifies asf`bones
      ensures asf.bones == old(asf.bones)[bi := Pose(old(asf.bones)[bi], tr, mv)]
    {
      var bone := asf.bones[bi];
      var rotAxis, angle;
      if bone.direction != YAxis {
        rotAxis := Cross(YAxis, bone.direction);
        angle := ArcCos(bone.direction.y);
      } else {
        rotAxis := ZAxis;
        angle := Radians(0.0);
      }
      var local := RotateAll(Identity, bone.axisOrder, bone.axis);
      var motion := RotateAll(Identity, bone.axisOrder, Angles(tr));
      assert local == Rotations(bone.axisOrder, bone.axis) && motion == Rotations(bone.axisOrder, Angles(tr));
      assert [Rotate(angle, rotAxis)] == BoneDirTrans(bone.direction);
      asf.bones := asf.bones[bi := bone.(boneDirTrans := [Rotate(angle, rotAxis)], localTrans := local,
                                        localTransInv := [Inverse(local)], stillTrans := mv,
                                        motionTrans := mv + local + motion + [Inverse(local)])];
    }

    /**
     * AMC::apply_frame_to_bone: pose bone `bi` for the frame with the word
     * `mv`, then recurse into its children, each given the bone's child word.
     */
    method ApplyFrameToBone(bi: nat, frame: int, mv: Word, ghost rank: seq<nat>)
      requires Linked(asf.bones, asf.kids) && Oriented(asf.bones)
      requires Ranked(asf.kids, rank, |asf.bones|) && Sized(fs, |asf.bones|)
      requires bi < |asf.bones| && rank[bi] > 0 && Holds(fs, ff, frame)
      modifies asf`bones
      ensures asf.bones == PoseTree(old(asf.bones), asf.kids, rank, fs[frame - ff].transformations, bi, mv)
      decreases rank[bi], 2
    {
      PoseBone(bi, fs[frame - ff].transformations[bi], mv);
      SameSkeletonLinked(old(asf.bones), asf.bones, asf.kids);
      var bone := asf.bones[bi];
      var childMv := bone.motionTrans + [Translate(Scale(bone.length, bone.direction))];
      ApplyFrameToChildren(bi, frame, childMv, rank, asf.kids, fs[frame - ff].transformations);
    }

    /**
     * The children loop of AMC::apply_frame_to_bone: from bone `bi`'s
     * first_child along the next_sibling links, each child given `mv`.
     * `kids` and `trs` name the skeleton's children lists and the frame's
     * Transformations, which the loop does not change.
     */
    method ApplyFrameToChildren(bi: nat, frame: int, mv: Word, ghost rank: seq<nat>,
                                ghost kids: seq<seq<int>>, ghost trs: seq<Transformation>)
      requires Linked(asf.bones, kids) && Oriented(asf.bones)
      requires Ranked(kids, rank, |asf.bones|) && Sized(fs, |asf.bones|)
      requires bi < |asf.bones| && rank[bi] > 0 && Holds(fs, ff, frame)
      requires kids == asf.kids && trs == fs[frame - ff].transformations
      modifies asf`bones
      ensures asf.bones == PoseKids(old(asf.bones), kids, rank, trs, bi, 0, mv)
      decreases rank[bi], 1
    {
      assert HeadLinked(asf.bones, kids, bi);
      var child := asf.bones[bi].firstChild;
      ghost var k := 0;
      ghost var goal := PoseKids(asf.bones, kids, rank, trs, bi, k, mv);
      while child >= 0
        invariant k <= |kids[bi]|
        invariant Linked(asf.bones, kids) && Oriented(asf.bones) && Sized(fs, |asf.bones|)
        invariant child == (if k < |kids[bi]| then kids[bi][k] else -1)
        invariant goal == PoseKids(asf.bones, kids, rank, trs, bi, k, mv)
        decreases |kids[bi]| - k
      {
        ghost var before := asf.bones;
        child := ApplyFrameToChild(bi, child, frame, mv, k, rank, kids, trs);
        PoseKidsNext(before, kids, rank, trs, bi, k, mv);
        k := k + 1;
      }
    }

    /**
     * One turn of the children loop: `child`, the k-th child of bone `bi`, and the
     * bones below it are posed with `mv`, and the child's next_sibling
     * link gives the next child, -1 after the last.
     */
    method ApplyFrameToChild(bi: nat, child: int, frame: int, mv: Word, ghost k: nat, ghost rank: seq<nat>,
                             ghost kids: seq<seq<int>>, ghost trs: seq<Transformation>)
      returns (next: int)
      requires Linked(asf.bones, kids) && Oriented(asf.bones)
      requires Ranked(kids, rank, |asf.bones|) && Sized(fs, |asf.bones|)
      requires bi < |asf.bones| && rank[bi] > 0 && k < |kids[bi]| && child == kids[bi][k] && Holds(fs, ff, frame)
      requires kids == asf.kids && trs == fs[frame - ff].transformations
      modifies asf`bones
      ensures asf.bones == PoseTree(old(asf.bones), kids, rank, trs, child, mv)
      ensures Linked(asf.bones, kids) && Oriented(asf.bones)
      ensures next == if k + 1 < |kids[bi]| then kids[bi][k + 1] else -1
      decreases rank[bi], 0
    {
      assert ChildLinked(asf.bones, kids, bi, k);
      ghost var before := asf.bones;
      ApplyFrameToBone(child, frame, mv, rank);
      assert asf.kids == kids && fs[frame - ff].transformations == trs;
      SameSkeletonLinked(before, asf.bones, kids);
      assert ChildLinked(asf.bones, kids, bi, k);
      next := asf.bones[child].nextSibling;
    }
  }
}
