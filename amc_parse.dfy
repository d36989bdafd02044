/**
 * What AMC::AMC computes, as pure functions over the content lines the
 * motion reader's `getline` yields: frame markers that grow the frame
 * buffer at either end, and channel lines routed by the skeleton's root
 * order and each bone's DOF order into the current frame.
 */
module AmcParse {
  import opened Common
  import opened Lexing
  import opened AsfModel
  import opened AmcModel

  /** The exceptions AMC::AMC throws; NoCurrentFrame stands for a channel line before any frame marker. */
  datatype AmcError =
    | NegativeFrame(line: string)
    | NoCurrentFrame(line: string)
    | MissingRootAxes(frame: int)
    | UnknownRootAxis
    | TooManyRootAxes(frame: int)
    | UnknownBone(name: string, frame: int)
    | MissingBoneAxes(name: string, frame: int)
    | UnknownDof(axis: Axis, name: string)
    | TooManyBoneAxes(name: string, frame: int)

  /** What the motion reader takes from its skeleton: the bones, the root's channel order and the length unit. */
  datatype Rig = Rig(bones: seq<Bone>, rootOrder: seq<Axis>, lengthUnit: real)

  /**
   * The state of the constructor's line loop: the frame buffer `fs` and
   * its first frame number `ff` (members), and the locals current_frame,
   * cfi (the index of the current frame in `fs`) and angle_unit.
   */
  datatype Reading = Reading(fs: seq<Frame>, ff: int, current: int, cfi: int, angleUnit: real)

  /** The loop's initial state: no frames, ff = current_frame = cfi = -1, angles in radians. */
  const Start := Reading([], -1, -1, -1, 1.0)

  /**
   * The invariant the loop keeps: every frame has one Transformation per
   * bone, and `cfi` is -1 or the index of frame number current_frame.
   */
  predicate Consistent(st: Reading, boneCount: nat) {
    && Sized(st.fs, boneCount)
    && -1 <= st.cfi < |st.fs|
    && (st.cfi >= 0 ==> st.ff >= 0 && st.current == st.ff + st.cfi)
  }

  /** The values of a bone-name map are bone indices. */
  predicate IndicesIn(indices: map<string, nat>, boneCount: nat) {
    forall name :: name in indices ==> indices[name] < boneCount
  }

  // ---------------------------------------------------------------------
  // Bone lookup

  /** `bone_indices[bones[i].name] = i` for i = 0, 1, ...: each name maps to an index. */
  function BoneIndices(bones: seq<Bone>): (m: map<string, nat>)
    ensures forall name :: name in m ==> m[name] < |bones| && bones[m[name]].name == name
    decreases |bones|
  {
    if bones == [] then map[]
    else BoneIndices(bones[..|bones| - 1])[bones[|bones| - 1].name := |bones| - 1]
  }

  /** A name is in the map exactly when some bone has it, and it maps to the last such bone. */
  lemma {:induction false} BoneIndicesLast(bones: seq<Bone>, name: string)
    ensures name in BoneIndices(bones) <==> exists i :: 0 <= i < |bones| && bones[i].name == name
    ensures name in BoneIndices(bones) ==>
              forall j :: BoneIndices(bones)[name] < j < |bones| ==> bones[j].name != name
    decreases |bones|
  {
    if bones != [] {
      var init := bones[..|bones| - 1];
      BoneIndicesLast(init, name);
      if name != bones[|bones| - 1].name {
        if exists i :: 0 <= i < |bones| && bones[i].name == name {
          var i :| 0 <= i < |bones| && bones[i].name == name;
          assert init[i].name == name;
        }
        if name in BoneIndices(bones) {
          forall j | BoneIndices(bones)[name] < j < |bones| ensures bones[j].name != name {
            if j < |bones| - 1 { assert init[j] == bones[j]; }
          }
        }
      }
    }
  }

  // ---------------------------------------------------------------------
  // Frame markers

  /**
   * The frame buffer after marker `n` with first frame `ff`: appending
   * blank frames up to frame `n`, or, for a frame before `ff`, putting
   * `ff - n` blank frames in front so that every frame keeps its number.
   */
  function Grow(fs: seq<Frame>, ff: nat, n: nat, boneCount: nat): (r: (seq<Frame>, nat))
    ensures r.1 == if n < ff then n else ff
    ensures n < ff ==> |r.0| == |fs| + (ff - n)
    ensures n >= ff ==> |r.0| == if |fs| < n - ff + 1 then n - ff + 1 else |fs|
    ensures |fs| + (ff - r.1) <= |r.0|
    ensures r.0[ff - r.1 .. ff - r.1 + |fs|] == fs
    ensures forall i :: 0 <= i < |r.0| && !(ff <= i + r.1 < ff + |fs|) ==> r.0[i] == BlankFrame(boneCount)
  {
    if n >= ff then
      if |fs| < n - ff + 1 then (fs + seq(n - ff + 1 - |fs|, _ => BlankFrame(boneCount)), ff)
      else (fs, ff)
    else (seq(ff - n, _ => BlankFrame(boneCount)) + fs, n)
  }

  /**
   * A frame marker line naming frame `n`: negative numbers are fatal; the
   * first marker sets `ff`; the buffer grows to hold frame `n`, which
   * becomes the current frame.
   */
  function FrameMarker(st: Reading, n: int, boneCount: nat, line: string): (r: Result<Reading, AmcError>)
    ensures n < 0 ==> r == Err(NegativeFrame(line))
    ensures n >= 0 ==> r.Ok?
    ensures r.Ok? ==>
              && r.value.ff == (if st.ff < 0 || n < st.ff then n else st.ff)
              && r.value.current == n && r.value.cfi == n - r.value.ff
              && 0 <= r.value.cfi < |r.value.fs|
              && |st.fs| <= |r.value.fs| && r.value.angleUnit == st.angleUnit
    ensures r.Ok? && st.ff >= 0 ==>
              && |st.fs| + (st.ff - r.value.ff) <= |r.value.fs|
              && r.value.fs[st.ff - r.value.ff .. st.ff - r.value.ff + |st.fs|] == st.fs
    ensures r.Ok? && Sized(st.fs, boneCount) ==> Consistent(r.value, boneCount)
  {
    if n < 0 then Err(NegativeFrame(line))
    else
      var ff := if st.ff < 0 then n else st.ff;
      var (fs, ff') := Grow(st.fs, ff, n, boneCount);
      Ok(st.(fs := fs, ff := ff', current := n, cfi := n - ff'))
  }

  // ---------------------------------------------------------------------
  // Root lines

  /** Root channel kinds: rotations and translations, not the L-axes. */
  predicate IsRootChannel(a: Axis) {
    !(a.LX? || a.LY? || a.LZ?)
  }

  /** The component of a frame's root motion that a root channel names. */
  function RootComponent(fr: Frame, a: Axis): real
    requires IsRootChannel(a)
  {
    match a
    case RX => fr.rootRotation.x
    case RY => fr.rootRotation.y
    case RZ => fr.rootRotation.z
    case TX => fr.rootTranslation.x
    case TY => fr.rootTranslation.y
    case TZ => fr.rootTranslation.z
  }

  /** Every root channel other than `axis` has the same value in both frames. */
  predicate OthersKept(fr: Frame, fr': Frame, axis: Axis) {
    forall a :: IsRootChannel(a) && a != axis ==> RootComponent(fr', a) == RootComponent(fr, a)
  }

  /**
   * One case of the root line's switch: `line_ss >>` into the component
   * the axis names, which keeps its value when no number is left; the
   * other components and the bones' transformations stay.
   */
  function RootChannel(fr: Frame, axis: Axis, rest: string, num: Numerals): (r: Option<(Frame, string)>)
    ensures r.Some? <==> IsRootChannel(axis)
    ensures r.Some? ==> r.value.0.transformations == fr.transformations && r.value.1 == Extract(rest).rest
    ensures r.Some? ==> RootComponent(r.value.0, axis) == ReadReal(rest, RootComponent(fr, axis), num).0
    ensures r.Some? ==> OthersKept(fr, r.value.0, axis)
  {
    match axis
    case RX =>
      var (v, rest') := ReadReal(rest, fr.rootRotation.x, num);
      Some((fr.(rootRotation := fr.rootRotation.(x := v)), rest'))
    case RY =>
      var (v, rest') := ReadReal(rest, fr.rootRotation.y, num);
      Some((fr.(rootRotation := fr.rootRotation.(y := v)), rest'))
    case RZ =>
      var (v, rest') := ReadReal(rest, fr.rootRotation.z, num);
      Some((fr.(rootRotation := fr.rootRotation.(z := v)), rest'))
    case TX =>
      var (v, rest') := ReadReal(rest, fr.rootTranslation.x, num);
      Some((fr.(rootTranslation := fr.rootTranslation.(x := v)), rest'))
    case TY =>
      var (v, rest') := ReadReal(rest, fr.rootTranslation.y, num);
      Some((fr.(rootTranslation := fr.rootTranslation.(y := v)), rest'))
    case TZ =>
      var (v, rest') := ReadReal(rest, fr.rootTranslation.z, num);
      Some((fr.(rootTranslation := fr.rootTranslation.(z := v)), rest'))
    case _ => None
  }

  /** The `for (axis: root_order)` loop: one value per axis, fatal at the end of the line. */
  function RootValues(fr: Frame, order: seq<Axis>, rest: string, current: int, num: Numerals)
    : (r: Result<(Frame, string), AmcError>)
    ensures r.Ok? ==> r.value.0.transformations == fr.transformations
    decreases |order|
  {
    if order == [] then Ok((fr, rest))
    else if Eof(rest) then Err(MissingRootAxes(current))
    else
      match RootChannel(fr, order[0], rest, num)
      case None => Err(UnknownRootAxis)
      case Some((fr', rest')) => RootValues(fr', order[1..], rest', current, num)
  }

  /**
   * A root channel's value after the root loop, before scaling: the
   * number of the word at the channel's last position in the order when
   * it is listed, the frame's previous value when it is not.
   */
  function RootRead(fr: Frame, order: seq<Axis>, ws: seq<string>, a: Axis, num: Numerals): real
    requires IsRootChannel(a) && |order| <= |ws|
  {
    if a in order then num.toReal(ws[LastIndex(order, a)]) else RootComponent(fr, a)
  }

  /**
   * A `root` line of the current frame: the values in root-order, no
   * value left over, then the rotation scaled by the angle unit and the
   * translation by the skeleton's length unit.
   */
  function RootLine(st: Reading, rig: Rig, rest: string, num: Numerals): (r: Result<Reading, AmcError>)
    requires 0 <= st.cfi < |st.fs|
    ensures r.Ok? ==> |r.value.fs| == |st.fs| && r.value.fs[st.cfi].transformations == st.fs[st.cfi].transformations
    ensures r.Ok? ==> forall i :: 0 <= i < |st.fs| && i != st.cfi ==> r.value.fs[i] == st.fs[i]
    ensures r.Ok? ==> r.value == st.(fs := r.value.fs)
  {
    match RootValues(st.fs[st.cfi], rig.rootOrder, rest, st.current, num)
    case Err(e) => Err(e)
    case Ok((fr, rest')) =>
      if !Eof(rest') then Err(TooManyRootAxes(st.current))
      else
        var fr' := fr.(rootRotation := Scale(st.angleUnit, fr.rootRotation),
                       rootTranslation := Scale(rig.lengthUnit, fr.rootTranslation));
        Ok(st.(fs := st.fs[st.cfi := fr']))
  }

  /**
   * Where a root line's values go: each root channel gets the value of
   * the word at its last position in root-order (channels the order does
   * not name keep the frame's value), then the rotation is scaled by the
   * angle unit and the translation by the skeleton's length unit.
   */
  lemma RootLineRead(st: Reading, rig: Rig, rest: string, num: Numerals)
    requires 0 <= st.cfi < |st.fs|
    ensures var r := RootLine(st, rig, rest, num);
            r.Ok? && Tight(rest) ==>
              var (order, ws, fr) := (rig.rootOrder, Words(rest), st.fs[st.cfi]);
              && |order| <= |ws|
              && r.value.fs[st.cfi].rootRotation ==
                   Scale(st.angleUnit, Vec3(RootRead(fr, order, ws, RX, num), RootRead(fr, order, ws, RY, num),
                                            RootRead(fr, order, ws, RZ, num)))
              && r.value.fs[st.cfi].rootTranslation ==
                   Scale(rig.lengthUnit, Vec3(RootRead(fr, order, ws, TX, num), RootRead(fr, order, ws, TY, num),
                                              RootRead(fr, order, ws, TZ, num)))
  {
    var r := RootLine(st, rig, rest, num);
    if r.Ok? && Tight(rest) {
      var (order, ws, fr0) := (rig.rootOrder, Words(rest), st.fs[st.cfi]);
      var fr := RootValues(fr0, order, rest, st.current, num).value.0;
      RootValuesStore(fr0, order, rest, st.current, num);
      assert RootComponent(fr, RX) == RootRead(fr0, order, ws, RX, num);
      assert RootComponent(fr, RY) == RootRead(fr0, order, ws, RY, num);
      assert RootComponent(fr, RZ) == RootRead(fr0, order, ws, RZ, num);
      assert RootComponent(fr, TX) == RootRead(fr0, order, ws, TX, num);
      assert RootComponent(fr, TY) == RootRead(fr0, order, ws, TY, num);
      assert RootComponent(fr, TZ) == RootRead(fr0, order, ws, TZ, num);
      assert r.value.fs[st.cfi] == fr.(rootRotation := Scale(st.angleUnit, fr.rootRotation),
                                       rootTranslation := Scale(rig.lengthUnit, fr.rootTranslation));
    }
  }

  // ---------------------------------------------------------------------
  // Bone lines

  /** The angle a Transformation holds for a rotation axis. */
  function AngleOf(tr: Transformation, a: Axis): real
    requires IsRotation(a)
  {
    match a
    case RX => tr.rx
    case RY => tr.ry
    case RZ => tr.rz
  }

  /** One case of the bone line's switch: store the scaled value under a rotation axis; anything else is fatal. */
  function BoneChannel(tr: Transformation, axis: Axis, value: real): (r: Option<Transformation>)
    ensures r.Some? <==> IsRotation(axis)
    ensures r.Some? ==> AngleOf(r.value, axis) == value
    ensures r.Some? ==> forall a :: IsRotation(a) && a != axis ==> AngleOf(r.value, a) == AngleOf(tr, a)
  {
    match axis
    case RX => Some(tr.(rx := value))
    case RY => Some(tr.(ry := value))
    case RZ => Some(tr.(rz := value))
    case _ => None
  }

  /** A value read from the file times the unit it is given in. */
  function InUnit(v: real, unit: real): real {
    v * unit
  }

  /**
   * The `for (axis: bone.dof_order)` loop: at the end of the line it is
   * fatal; otherwise one value is read (into a fresh `val`) and stored
   * times the angle unit.
   */
  function BoneValues(tr: Transformation, dofs: seq<Axis>, rest: string, unit: real,
                      name: string, current: int, num: Numerals)
    : (r: Result<(Transformation, string), AmcError>)
    decreases |dofs|
  {
    if dofs == [] then Ok((tr, rest))
    else if Eof(rest) then Err(MissingBoneAxes(name, current))
    else
      var (v, rest') := ReadReal(rest, 0.0, num);
      match BoneChannel(tr, dofs[0], InUnit(v, unit))
      case None => Err(UnknownDof(dofs[0], name))
      case Some(tr') => BoneValues(tr', dofs[1..], rest', unit, name, current, num)
  }

  /**
   * A bone line: the name must be known; the values go, in DOF order, to
   * the bone's Transformation in the current frame; no value may be left.
   */
  function BoneLine(st: Reading, rig: Rig, indices: map<string, nat>, name: string, rest: string,
                    line: string, num: Numerals): (r: Result<Reading, AmcError>)
    requires Consistent(st, |rig.bones|) && IndicesIn(indices, |rig.bones|)
    ensures name !in indices ==> r == Err(UnknownBone(name, st.current))
    ensures r.Ok? ==> 0 <= st.cfi && |r.value.fs| == |st.fs| && r.value == st.(fs := r.value.fs)
    ensures r.Ok? ==> forall i :: 0 <= i < |st.fs| && i != st.cfi ==> r.value.fs[i] == st.fs[i]
    ensures r.Ok? ==> var bi := indices[name];
                      && r.value.fs[st.cfi] == st.fs[st.cfi].(transformations := r.value.fs[st.cfi].transformations)
                      && |r.value.fs[st.cfi].transformations| == |rig.bones|
                      && forall j :: 0 <= j < |rig.bones| && j != bi ==>
                           r.value.fs[st.cfi].transformations[j] == st.fs[st.cfi].transformations[j]
  {
    if name !in indices then Err(UnknownBone(name, st.current))
    else if st.cfi < 0 then Err(NoCurrentFrame(line))
    else
      var bi := indices[name];
      var fr := st.fs[st.cfi];
      match BoneValues(fr.transformations[bi], rig.bones[bi].dofOrder, rest, st.angleUnit, name, st.current, num)
      case Err(e) => Err(e)
      case Ok((tr, rest')) =>
        if !Eof(rest') then Err(TooManyBoneAxes(name, st.current))
        else Ok(st.(fs := st.fs[st.cfi := fr.(transformations := fr.transformations[bi := tr])]))
  }

  // ---------------------------------------------------------------------
  // Counting and routing the values of a channel line

  /** The words after the first one of a stripped line are a tight rest. */
  lemma ReadWordTight(line: string)
    requires Tight(line)
    ensures Tight(ReadWord(line, "").1)
  {
    ExtractTight(line);
  }

  /** A tight rest that is not at its end yields a word, and its words are that word and the words after it. */
  lemma WordsStep(rest: string)
    requires Tight(rest)
    ensures Eof(rest) ==> Words(rest) == []
    ensures !Eof(rest) ==> var e := Extract(rest);
                           e.token.Some? && Tight(e.rest) && Words(rest) == [e.token.value] + Words(e.rest)
  {
    ExtractTight(rest);
  }

  /**
   * The root loop reads one word per axis: with root-channel axes only it
   * succeeds exactly when the line holds at least |order| more words, and
   * leaves the words after them.
   */
  lemma {:induction false} RootValuesCount(fr: Frame, order: seq<Axis>, rest: string, current: int, num: Numerals)
    requires Tight(rest) && forall k :: 0 <= k < |order| ==> IsRootChannel(order[k])
    ensures var r := RootValues(fr, order, rest, current, num);
            && (r.Ok? <==> |order| <= |Words(rest)|)
            && (r.Ok? ==> Tight(r.value.1) && Words(r.value.1) == Words(rest)[|order|..])
            && (r.Err? ==> r == Err(MissingRootAxes(current)))
    decreases |order|
  {
    WordsStep(rest);
    if order != [] && !Eof(rest) {
      var e := Extract(rest);
      var fr' := RootChannel(fr, order[0], rest, num).value.0;
      var rest' := e.rest;
      RootValuesStep(fr, order, rest, current, num);
      RootValuesCount(fr', order[1..], rest', current, num);
      var ws, ws' := Words(rest), Words(rest');
      assert ws == [e.token.value] + ws' && |ws| == |ws'| + 1;
      if |order| <= |ws| {
        assert ws'[|order| - 1..] == ws[|order|..];
      }
    }
  }

  /**
   * A root line takes exactly |root_order| values: with root-channel axes
   * only, it succeeds exactly when the words after `root` number |root_order|;
   * too few is MissingRootAxes and too many TooManyRootAxes.
   */
  lemma RootLineCount(st: Reading, rig: Rig, rest: string, num: Numerals)
    requires 0 <= st.cfi < |st.fs| && Tight(rest)
    requires forall k :: 0 <= k < |rig.rootOrder| ==> IsRootChannel(rig.rootOrder[k])
    ensures var r := RootLine(st, rig, rest, num);
            && (r.Ok? <==> |Words(rest)| == |rig.rootOrder|)
            && (|Words(rest)| < |rig.rootOrder| ==> r == Err(MissingRootAxes(st.current)))
            && (|Words(rest)| > |rig.rootOrder| ==> r == Err(TooManyRootAxes(st.current)))
  {
    RootValuesCount(st.fs[st.cfi], rig.rootOrder, rest, st.current, num);
    var r := RootValues(st.fs[st.cfi], rig.rootOrder, rest, st.current, num);
    if r.Ok? {
      WordsStep(r.value.1);
    }
  }

  /** One turn of the root loop on a root channel with a word left. */
  lemma RootValuesStep(fr: Frame, order: seq<Axis>, rest: string, current: int, num: Numerals)
    requires Tight(rest) && order != [] && !Eof(rest) && IsRootChannel(order[0])
    ensures var e := Extract(rest);
            var fr' := RootChannel(fr, order[0], rest, num).value.0;
            && e.token.Some?
            && RootComponent(fr', order[0]) == num.toReal(e.token.value)
            && RootValues(fr, order, rest, current, num) == RootValues(fr', order[1..], e.rest, current, num)
  {
    ExtractTight(rest);
  }

  /**
   * What the root loop stores: for each root channel listed, the value of
   * the word at its last position; a channel not listed keeps its value.
   */
  lemma {:induction false} RootValuesStore(fr: Frame, order: seq<Axis>, rest: string, current: int, num: Numerals)
    ensures var r := RootValues(fr, order, rest, current, num);
            r.Ok? && Tight(rest) ==> |order| <= |Words(rest)| && forall a :: IsRootChannel(a) ==>
                                       RootComponent(r.value.0, a) == RootRead(fr, order, Words(rest), a, num)
    decreases |order|
  {
    var r := RootValues(fr, order, rest, current, num);
    if order != [] && r.Ok? && Tight(rest) {
      WordsStep(rest);
      var e := Extract(rest);
      var rest' := e.rest;
      var fr' := RootChannel(fr, order[0], rest, num).value.0;
      RootValuesStep(fr, order, rest, current, num);
      RootValuesStore(fr', order[1..], rest', current, num);
      forall a | IsRootChannel(a)
        ensures RootComponent(r.value.0, a) == RootRead(fr, order, Words(rest), a, num)
      {
        assert a in order <==> a == order[0] || a in order[1..];
        if a in order[1..] {
          assert LastIndex(order, a) == 1 + LastIndex(order[1..], a);
          assert Words(rest)[1 + LastIndex(order[1..], a)] == Words(rest')[LastIndex(order[1..], a)];
        } else if a == order[0] {
          assert LastIndex(order, a) == 0;
        }
      }
    }
  }

  /** The position of the last occurrence of `a` in `s`. */
  function LastIndex(s: seq<Axis>, a: Axis): (k: nat)
    requires a in s
    ensures k < |s| && s[k] == a && forall j :: k < j < |s| ==> s[j] != a
  {
    if a in s[1..] then 1 + LastIndex(s[1..], a) else 0
  }

  /** The position of the first DOF that is not a rotation, |dofs| when all are. */
  function FirstNonRotation(dofs: seq<Axis>): (k: nat)
    ensures k <= |dofs| && (k < |dofs| ==> !IsRotation(dofs[k]))
    ensures forall j :: 0 <= j < k ==> IsRotation(dofs[j])
    ensures k == |dofs| <==> AllRotations(dofs)
    decreases |dofs|
  {
    if dofs == [] then 0
    else if !IsRotation(dofs[0]) then 0
    else
      var k' := FirstNonRotation(dofs[1..]);
      assert AllRotations(dofs) <==> AllRotations(dofs[1..]) by {
        assert forall a :: a in dofs <==> a == dofs[0] || a in dofs[1..];
      }
      1 + k'
  }

  /**
   * The bone loop reads one word per axis. It succeeds exactly when every
   * DOF is a rotation and at least |dofs| words remain, and leaves the
   * words after them. Otherwise it stops at whichever comes first: the
   * first non-rotation DOF, once its value is read, is UnknownDof, and
   * running out of words is MissingBoneAxes.
   */
  lemma {:induction false} BoneValuesCount(tr: Transformation, dofs: seq<Axis>, rest: string, unit: real,
                                           name: string, current: int, num: Numerals)
    requires Tight(rest)
    ensures BoneValuesOutcome(BoneValues(tr, dofs, rest, unit, name, current, num), dofs, Words(rest), name, current)
    decreases |dofs|, 1
  {
    WordsStep(rest);
    if dofs != [] && !Eof(rest) {
      if IsRotation(dofs[0]) {
        BoneValuesCountRotation(tr, dofs, rest, unit, name, current, num);
      } else {
        BoneValuesUnknown(tr, dofs, rest, unit, name, current, num);
      }
    }
  }

  /**
   * What the bone loop gives for DOFs `dofs` and words `ws`: success with
   * the words after the first |dofs| left exactly when every DOF is a
   * rotation and there are enough words; otherwise UnknownDof for the
   * first non-rotation DOF when its word is there, and MissingBoneAxes
   * when the words run out first.
   */
  predicate BoneValuesOutcome(r: Result<(Transformation, string), AmcError>, dofs: seq<Axis>, ws: seq<string>,
                              name: string, current: int)
  {
    var k := FirstNonRotation(dofs);
    && (r.Ok? <==> AllRotations(dofs) && |dofs| <= |ws|)
    && (r.Ok? ==> Tight(r.value.1) && Words(r.value.1) == ws[|dofs|..])
    && (r.Err? ==> r == if k < |dofs| && k < |ws| then Err(UnknownDof(dofs[k], name))
                        else Err(MissingBoneAxes(name, current)))
  }

  /** BoneValuesCount when the first DOF is a rotation and a word is left: one turn, then the rest of the loop. */
  lemma BoneValuesCountRotation(tr: Transformation, dofs: seq<Axis>, rest: string, unit: real,
                                name: string, current: int, num: Numerals)
    requires Tight(rest) && dofs != [] && !Eof(rest) && IsRotation(dofs[0])
    ensures BoneValuesOutcome(BoneValues(tr, dofs, rest, unit, name, current, num), dofs, Words(rest), name, current)
    decreases |dofs|, 0
  {
    WordsStep(rest);
    var e := Extract(rest);
    var rest' := e.rest;
    var ws, ws' := Words(rest), Words(rest');
    assert ws == [e.token.value] + ws' && |ws| == |ws'| + 1;
    var tr' := BoneChannel(tr, dofs[0], InUnit(num.toReal(e.token.value), unit)).value;
    BoneValuesStep(tr, dofs, rest, unit, name, current, num);
    BoneValuesCount(tr', dofs[1..], rest', unit, name, current, num);
    assert FirstNonRotation(dofs) == 1 + FirstNonRotation(dofs[1..]);
    if |dofs| <= |ws| {
      assert ws'[|dofs| - 1..] == ws[|dofs|..];
    }
  }

  /** The bone loop on a non-rotation DOF with a word left reads the word and stops with UnknownDof. */
  lemma BoneValuesUnknown(tr: Transformation, dofs: seq<Axis>, rest: string, unit: real,
                          name: string, current: int, num: Numerals)
    requires Tight(rest) && dofs != [] && !Eof(rest) && !IsRotation(dofs[0])
    ensures BoneValues(tr, dofs, rest, unit, name, current, num) == Err(UnknownDof(dofs[0], name))
    ensures FirstNonRotation(dofs) == 0
  {
  }

  /** One turn of the bone loop on a rotation axis with a word left. */
  lemma BoneValuesStep(tr: Transformation, dofs: seq<Axis>, rest: string, unit: real,
                       name: string, current: int, num: Numerals)
    requires Tight(rest) && dofs != [] && !Eof(rest) && IsRotation(dofs[0])
    ensures var e := Extract(rest);
            && e.token.Some?
            && BoneValues(tr, dofs, rest, unit, name, current, num)
               == BoneValues(BoneChannel(tr, dofs[0], InUnit(num.toReal(e.token.value), unit)).value, dofs[1..], e.rest,
                             unit, name, current, num)
  {
    ExtractTight(rest);
  }

  /**
   * What the bone loop stores: for each rotation axis listed, the value of
   * the word at its last position times the angle unit; an axis not
   * listed keeps its previous angle.
   */
  lemma {:induction false} BoneValuesStore(tr: Transformation, dofs: seq<Axis>, rest: string, unit: real,
                                           name: string, current: int, num: Numerals)
    requires Tight(rest)
    ensures var r := BoneValues(tr, dofs, rest, unit, name, current, num);
            r.Ok? ==> |dofs| <= |Words(rest)| && forall a :: IsRotation(a) ==>
                        AngleOf(r.value.0, a) ==
                          if a in dofs then InUnit(num.toReal(Words(rest)[LastIndex(dofs, a)]), unit) else AngleOf(tr, a)
    decreases |dofs|
  {
    var r := BoneValues(tr, dofs, rest, unit, name, current, num);
    if dofs != [] && r.Ok? {
      WordsStep(rest);
      var e := Extract(rest);
      var rest' := e.rest;
      var v := num.toReal(e.token.value);
      var tr' := BoneChannel(tr, dofs[0], InUnit(v, unit)).value;
      BoneValuesStep(tr, dofs, rest, unit, name, current, num);
      BoneValuesStore(tr', dofs[1..], rest', unit, name, current, num);
      forall a | IsRotation(a)
        ensures AngleOf(r.value.0, a) ==
                  if a in dofs then InUnit(num.toReal(Words(rest)[LastIndex(dofs, a)]), unit) else AngleOf(tr, a)
      {
        assert a in dofs <==> a == dofs[0] || a in dofs[1..];
        if a in dofs[1..] {
          assert LastIndex(dofs, a) == 1 + LastIndex(dofs[1..], a);
          assert Words(rest)[1 + LastIndex(dofs[1..], a)] == Words(rest')[LastIndex(dofs[1..], a)];
        } else if a == dofs[0] {
          assert LastIndex(dofs, a) == 0;
        }
      }
    }
  }

  /**
   * A bone line takes exactly |dof_order| values: for a known bone in a
   * current frame it succeeds exactly when every DOF is a rotation and the
   * words after the name number |dof_order|, and then the bone's
   * Transformation holds the scaled values by the last-listed position of
   * each axis, and its previous angles elsewhere. A non-rotation DOF whose
   * value is there is UnknownDof; running out of words before it is
   * MissingBoneAxes; words left over after rotation DOFs only are
   * TooManyBoneAxes.
   */
  lemma BoneLineCount(st: Reading, rig: Rig, indices: map<string, nat>, name: string, rest: string,
                      line: string, num: Numerals)
    requires Consistent(st, |rig.bones|) && IndicesIn(indices, |rig.bones|)
    requires Tight(rest) && name in indices && st.cfi >= 0
    ensures var r := BoneLine(st, rig, indices, name, rest, line, num);
            var (dofs, ws) := (rig.bones[indices[name]].dofOrder, Words(rest));
            var k := FirstNonRotation(dofs);
            && (r.Ok? <==> AllRotations(dofs) && |ws| == |dofs|)
            && (k < |dofs| && k < |ws| ==> r == Err(UnknownDof(dofs[k], name)))
            && (|ws| < |dofs| && |ws| <= k ==> r == Err(MissingBoneAxes(name, st.current)))
            && (|ws| > |dofs| && AllRotations(dofs) ==> r == Err(TooManyBoneAxes(name, st.current)))
            && (r.Ok? ==> forall a :: IsRotation(a) ==>
                  var old_ := st.fs[st.cfi].transformations[indices[name]];
                  AngleOf(r.value.fs[st.cfi].transformations[indices[name]], a) ==
                    if a in dofs then InUnit(num.toReal(Words(rest)[LastIndex(dofs, a)]), st.angleUnit) else AngleOf(old_, a))
  {
    var bi := indices[name];
    var tr := st.fs[st.cfi].transformations[bi];
    var dofs := rig.bones[bi].dofOrder;
    BoneValuesCount(tr, dofs, rest, st.angleUnit, name, st.current, num);
    BoneValuesStore(tr, dofs, rest, st.angleUnit, name, st.current, num);
    var r := BoneValues(tr, dofs, rest, st.angleUnit, name, st.current, num);
    if r.Ok? {
      WordsStep(r.value.1);
    }
  }

  // ---------------------------------------------------------------------
  // The line loop

  /**
   * The error of a `root` line read while cfi is still -1. The root loop
   * finds a line with no value left, or an axis the switch does not
   * know, before it touches a frame; with an empty root order, values
   * left over are reported before the scaling. Any other such line reads
   * into or scales fs[-1], reported as NoCurrentFrame.
   */
  function UnframedRoot(order: seq<Axis>, rest: string, current: int, line: string): (e: AmcError)
    ensures order != [] && Eof(rest) ==> e == MissingRootAxes(current)
    ensures order != [] && !Eof(rest) && !IsRootChannel(order[0]) ==> e == UnknownRootAxis
    ensures order == [] && !Eof(rest) ==> e == TooManyRootAxes(current)
    ensures e.NoCurrentFrame? <==> (order == [] && Eof(rest)) || (order != [] && !Eof(rest) && IsRootChannel(order[0]))
  {
    if order == [] then
      if Eof(rest) then NoCurrentFrame(line) else TooManyRootAxes(current)
    else if Eof(rest) then MissingRootAxes(current)
    else if !IsRootChannel(order[0]) then UnknownRootAxis
    else NoCurrentFrame(line)
  }

  /** A line that strtol(line, &end, 0) reads completely, without error: a frame marker. */
  predicate IsMarker(line: string, num: Numerals) {
    IsContent(line) && line[0] != ':' && num.frame(line).Some?
  }

  /**
   * One content line: a ':' keyword (only `:DEGREES` changes anything), a
   * frame marker, a `root` line or a bone line.
   */
  function MotionLine(st: Reading, rig: Rig, indices: map<string, nat>, line: string, num: Numerals)
    : (r: Result<Reading, AmcError>)
    requires IsContent(line) && Consistent(st, |rig.bones|) && IndicesIn(indices, |rig.bones|)
    ensures r.Ok? ==> Consistent(r.value, |rig.bones|) && |st.fs| <= |r.value.fs|
  {
    if line[0] == ':' then
      Ok(if line == ":DEGREES" then st.(angleUnit := DegreeUnit) else st)
    else
      match num.frame(line)
      case Some(n) => FrameMarker(st, n, |rig.bones|, line)
      case None =>
        var (name, rest) := ReadWord(line, "");
        if name == "root" then
          if st.cfi < 0 then Err(UnframedRoot(rig.rootOrder, rest, st.current, line))
          else
            var r := RootLine(st, rig, rest, num);
            if r.Ok? then
              assert Sized(r.value.fs, |rig.bones|) by {
                forall i | 0 <= i < |r.value.fs| ensures |r.value.fs[i].transformations| == |rig.bones| {
                  if i != st.cfi { assert r.value.fs[i] == st.fs[i]; }
                }
              }
              r
            else r
        else
          var r := BoneLine(st, rig, indices, name, rest, line, num);
          if r.Ok? then
            assert Sized(r.value.fs, |rig.bones|) by {
              forall i | 0 <= i < |r.value.fs| ensures |r.value.fs[i].transformations| == |rig.bones| {
                if i != st.cfi { assert r.value.fs[i] == st.fs[i]; }
              }
            }
            r
          else r
  }

  /**
   * How a line is routed: `:DEGREES` switches the angle unit, any other
   * keyword line is skipped, a marker opens its frame, and a channel line
   * before the first marker fails; a root line there reports what reading
   * its values would have run into first. Within a frame, a `root` line
   * goes to RootLine and any other channel line to BoneLine.
   */
  lemma MotionLineRoutes(st: Reading, rig: Rig, indices: map<string, nat>, line: string, num: Numerals)
    requires IsContent(line) && Consistent(st, |rig.bones|) && IndicesIn(indices, |rig.bones|)
    ensures var r := MotionLine(st, rig, indices, line, num);
            && (line == ":DEGREES" ==> r == Ok(st.(angleUnit := DegreeUnit)))
            && (line[0] == ':' && line != ":DEGREES" ==> r == Ok(st))
            && (r.Ok? && !IsMarker(line, num) ==> r.value.ff == st.ff && r.value.cfi == st.cfi)
            && (IsMarker(line, num) ==> r == FrameMarker(st, num.frame(line).value, |rig.bones|, line))
            && (st.cfi < 0 && line[0] != ':' && !IsMarker(line, num) ==> r.Err?)
            && (st.cfi < 0 && line[0] != ':' && !IsMarker(line, num) && ReadWord(line, "").0 == "root" ==>
                  r == Err(UnframedRoot(rig.rootOrder, ReadWord(line, "").1, st.current, line)))
            && (st.cfi >= 0 && line[0] != ':' && !IsMarker(line, num) && ReadWord(line, "").0 == "root" ==>
                  r == RootLine(st, rig, ReadWord(line, "").1, num))
            && (line[0] != ':' && !IsMarker(line, num) && ReadWord(line, "").0 != "root" ==>
                  r == BoneLine(st, rig, indices, ReadWord(line, "").0, ReadWord(line, "").1, line, num))
  {
  }

  /** The frame numbers of the marker lines among `input`, in order. */
  function Markers(input: seq<string>, num: Numerals): seq<int>
    decreases |input|
  {
    if input == [] then []
    else (if IsMarker(input[0], num) then [num.frame(input[0]).value] else []) + Markers(input[1..], num)
  }

  /** The constructor's loop over the content lines; the first error ends it. */
  function ReadAmc(st: Reading, rig: Rig, indices: map<string, nat>, input: seq<string>, num: Numerals)
    : (r: Result<Reading, AmcError>)
    requires Consistent(st, |rig.bones|) && IndicesIn(indices, |rig.bones|)
    requires forall i :: 0 <= i < |input| ==> IsContent(input[i])
    ensures r.Ok? ==> Consistent(r.value, |rig.bones|) && |st.fs| <= |r.value.fs|
    decreases |input|
  {
    if input == [] then Ok(st)
    else
      match MotionLine(st, rig, indices, input[0], num)
      case Err(e) => Err(e)
      case Ok(st') => ReadAmc(st', rig, indices, input[1..], num)
  }

  /** The line loop on a first line and the lines after it. */
  lemma ReadAmcFirst(st: Reading, rig: Rig, indices: map<string, nat>, line: string, input: seq<string>, num: Numerals)
    requires Consistent(st, |rig.bones|) && IndicesIn(indices, |rig.bones|)
    requires IsContent(line) && forall i :: 0 <= i < |input| ==> IsContent(input[i])
    ensures forall i :: 0 <= i < |[line] + input| ==> IsContent(([line] + input)[i])
    ensures var m := MotionLine(st, rig, indices, line, num);
            && (m.Err? ==> ReadAmc(st, rig, indices, [line] + input, num) == Err(m.error))
            && (m.Ok? ==> ReadAmc(st, rig, indices, [line] + input, num) == ReadAmc(m.value, rig, indices, input, num))
  {
    assert ([line] + input)[1..] == input;
  }

  /**
   * `ff` is the smallest frame number any marker named: it stays -1 until
   * the first marker, and is then at most every marker seen and the first
   * frame number it started with, and is one of them.
   */
  lemma {:induction false} ReadAmcFirstFrame(st: Reading, rig: Rig, indices: map<string, nat>,
                                             input: seq<string>, num: Numerals)
    requires Consistent(st, |rig.bones|) && IndicesIn(indices, |rig.bones|)
    requires forall i :: 0 <= i < |input| ==> IsContent(input[i])
    ensures var r := ReadAmc(st, rig, indices, input, num);
            r.Ok? ==>
              && (r.value.ff < 0 <==> st.ff < 0 && Markers(input, num) == [])
              && (forall m :: m in Markers(input, num) ==> r.value.ff <= m)
              && (st.ff >= 0 ==> r.value.ff <= st.ff)
              && (r.value.ff == st.ff || r.value.ff in Markers(input, num))
    decreases |input|
  {
    var r := ReadAmc(st, rig, indices, input, num);
    if input != [] && r.Ok? {
      var st' := MotionLine(st, rig, indices, input[0], num).value;
      ReadAmcFirstFrame(st', rig, indices, input[1..], num);
      var ms := Markers(input[1..], num);
      assert Markers(input, num) == (if IsMarker(input[0], num) then [num.frame(input[0]).value] else []) + ms;
    }
  }

  /** Before the first frame marker the buffer is empty and `ff` is -1. */
  predicate Anchored(st: Reading) {
    st.ff < 0 ==> st.ff == -1 && st.fs == []
  }

  /** The frame numbers the buffer holds, from `ff` up to but excluding `hi`; None before the first marker. */
  function Span(st: Reading): Option<(int, int)> {
    if st.ff < 0 then None else Some((st.ff, st.ff + |st.fs|))
  }

  /** The smallest range of frame numbers that holds the range `sp` and frame `n`. */
  function Hull(sp: Option<(int, int)>, n: int): Option<(int, int)> {
    match sp
    case None => Some((n, n + 1))
    case Some((lo, hi)) => Some((if n < lo then n else lo, if hi < n + 1 then n + 1 else hi))
  }

  /** The smallest range that holds `sp` and every frame number of `ms`. */
  function HullAll(sp: Option<(int, int)>, ms: seq<int>): Option<(int, int)>
    decreases |ms|
  {
    if ms == [] then sp else HullAll(Hull(sp, ms[0]), ms[1..])
  }

  /**
   * The range HullAll gives is empty only when there is nothing to hold,
   * holds every frame number and the range it started from, and starts
   * and ends at one of them.
   */
  lemma {:induction false} HullAllBounds(sp: Option<(int, int)>, ms: seq<int>)
    requires sp.Some? ==> sp.value.0 < sp.value.1
    ensures HullAll(sp, ms).None? <==> sp.None? && ms == []
    ensures HullAll(sp, ms).Some? ==>
              var (lo, hi) := HullAll(sp, ms).value;
              && lo < hi
              && (forall m :: m in ms ==> lo <= m < hi)
              && (sp.Some? ==> lo <= sp.value.0 && sp.value.1 <= hi)
              && (lo in ms || (sp.Some? && lo == sp.value.0))
              && (hi - 1 in ms || (sp.Some? && hi == sp.value.1))
    decreases |ms|
  {
    if ms != [] {
      HullAllBounds(Hull(sp, ms[0]), ms[1..]);
      assert forall m :: m in ms ==> m == ms[0] || m in ms[1..];
    }
  }

  /** A frame marker widens the buffer's range to hold the frame it names, and leaves the state anchored. */
  lemma FrameMarkerSpan(st: Reading, n: int, boneCount: nat, line: string)
    requires Anchored(st)
    ensures var r := FrameMarker(st, n, boneCount, line);
            r.Ok? ==> Anchored(r.value) && Span(r.value) == Hull(Span(st), n)
  {
    if n >= 0 {
      var ff := if st.ff < 0 then n else st.ff;
      var g := Grow(st.fs, ff, n, boneCount);
      assert FrameMarker(st, n, boneCount, line).value.fs == g.0;
    }
  }

  /** Growing the buffer keeps every frame other than `n` under its number; a frame it did not hold is blank. */
  lemma GrowKeeps(fs: seq<Frame>, ff: nat, n: nat, boneCount: nat, k: int)
    requires k != n
    ensures var g := Grow(fs, ff, n, boneCount);
            FrameAt(g.0, g.1, k, boneCount) == FrameAt(fs, ff, k, boneCount)
  {
    if n < ff && n <= k < ff {
      assert Grow(fs, ff, n, boneCount).0[k - n] == BlankFrame(boneCount);
    } else if n >= ff && ff + |fs| <= k <= n {
      assert Grow(fs, ff, n, boneCount).0[k - ff] == BlankFrame(boneCount);
    }
  }

  /** A frame marker keeps every other frame under its number, wherever the buffer grows. */
  lemma FrameMarkerKeeps(st: Reading, n: int, boneCount: nat, line: string, k: int)
    requires Anchored(st) && k != n
    ensures var r := FrameMarker(st, n, boneCount, line);
            r.Ok? ==> AtFrame(r.value, k, boneCount) == AtFrame(st, k, boneCount)
  {
    if n >= 0 {
      var ff := if st.ff < 0 then n else st.ff;
      var g := Grow(st.fs, ff, n, boneCount);
      assert FrameMarker(st, n, boneCount, line).value.fs == g.0;
      assert FrameMarker(st, n, boneCount, line).value.ff == g.1;
      GrowKeeps(st.fs, ff, n, boneCount, k);
      assert AtFrame(st, k, boneCount) == FrameAt(st.fs, ff, k, boneCount);
    }
  }

  /**
   * How one line moves the buffer's range: a frame marker widens it to
   * hold the frame it names, any other line leaves it (and the buffer's
   * size) as it is.
   */
  lemma MotionLineSpan(st: Reading, rig: Rig, indices: map<string, nat>, line: string, num: Numerals)
    requires IsContent(line) && Consistent(st, |rig.bones|) && IndicesIn(indices, |rig.bones|) && Anchored(st)
    ensures var r := MotionLine(st, rig, indices, line, num);
            r.Ok? ==> && Anchored(r.value)
                      && Span(r.value) == (if IsMarker(line, num) then Hull(Span(st), num.frame(line).value) else Span(st))
                      && (!IsMarker(line, num) ==> |r.value.fs| == |st.fs|)
  {
    var r := MotionLine(st, rig, indices, line, num);
    MotionLineRoutes(st, rig, indices, line, num);
    if r.Ok? && line[0] != ':' {
      if IsMarker(line, num) {
        FrameMarkerSpan(st, num.frame(line).value, |rig.bones|, line);
      } else {
        var (name, rest) := ReadWord(line, "");
        if name == "root" {
          assert r == RootLine(st, rig, rest, num);
        } else {
          assert r == BoneLine(st, rig, indices, name, rest, line, num);
        }
      }
    }
  }

  /** Reading lines from an anchored state keeps it anchored, and the buffer's range becomes the hull of the markers read. */
  lemma {:induction false} ReadAmcSpan(st: Reading, rig: Rig, indices: map<string, nat>, input: seq<string>, num: Numerals)
    requires Consistent(st, |rig.bones|) && IndicesIn(indices, |rig.bones|) && Anchored(st)
    requires forall i :: 0 <= i < |input| ==> IsContent(input[i])
    ensures var r := ReadAmc(st, rig, indices, input, num);
            r.Ok? ==> Anchored(r.value) && Span(r.value) == HullAll(Span(st), Markers(input, num))
    decreases |input|
  {
    var r := ReadAmc(st, rig, indices, input, num);
    if input != [] && r.Ok? {
      MotionLineSpan(st, rig, indices, input[0], num);
      var st' := MotionLine(st, rig, indices, input[0], num).value;
      ReadAmcSpan(st', rig, indices, input[1..], num);
      if IsMarker(input[0], num) {
        assert Markers(input, num) == [num.frame(input[0]).value] + Markers(input[1..], num);
      } else {
        assert Markers(input, num) == Markers(input[1..], num);
      }
    }
  }

  /** Frame `k` of a buffer whose first entry is frame `ff`, or a blank frame when the buffer does not reach it. */
  function FrameAt(fs: seq<Frame>, ff: int, k: int, boneCount: nat): Frame {
    if ff <= k < ff + |fs| then fs[k - ff] else BlankFrame(boneCount)
  }

  /** The frame numbered `k` in a reading state; blank before the first marker. */
  function AtFrame(st: Reading, k: int, boneCount: nat): Frame {
    if st.ff < 0 then BlankFrame(boneCount) else FrameAt(st.fs, st.ff, k, boneCount)
  }

  /**
   * A line that does not write frame `k` leaves it as it was under its
   * number: a marker naming another frame, wherever the buffer grows, and
   * a channel line of another frame.
   */
  lemma MotionLineKeeps(st: Reading, rig: Rig, indices: map<string, nat>, line: string, num: Numerals, k: int)
    requires IsContent(line) && Consistent(st, |rig.bones|) && IndicesIn(indices, |rig.bones|) && Anchored(st)
    requires if IsMarker(line, num) then num.frame(line).value != k else st.cfi < 0 || k != st.current
    ensures var r := MotionLine(st, rig, indices, line, num);
            r.Ok? ==> && AtFrame(r.value, k, |rig.bones|) == AtFrame(st, k, |rig.bones|)
                      && Anchored(r.value) && (r.value.cfi < 0 || k != r.value.current)
  {
    var r := MotionLine(st, rig, indices, line, num);
    MotionLineRoutes(st, rig, indices, line, num);
    MotionLineSpan(st, rig, indices, line, num);
    if r.Ok? && line[0] != ':' {
      if IsMarker(line, num) {
        FrameMarkerKeeps(st, num.frame(line).value, |rig.bones|, line, k);
      } else {
        var (name, rest) := ReadWord(line, "");
        if name == "root" {
          assert r == RootLine(st, rig, rest, num);
        } else {
          assert r == BoneLine(st, rig, indices, name, rest, line, num);
        }
      }
    }
  }

  /**
   * Frame `k` keeps what it holds, under its number, to the end of the
   * read when no marker names it and the lines before the first marker
   * do not write it (it is not the current frame, or there are no such
   * lines).
   */
  lemma {:induction false} ReadAmcKeeps(st: Reading, rig: Rig, indices: map<string, nat>, input: seq<string>,
                                        num: Numerals, k: int)
    requires Consistent(st, |rig.bones|) && IndicesIn(indices, |rig.bones|) && Anchored(st)
    requires forall i :: 0 <= i < |input| ==> IsContent(input[i])
    requires k !in Markers(input, num)
    requires st.cfi < 0 || k != st.current || input == [] || IsMarker(input[0], num)
    ensures var r := ReadAmc(st, rig, indices, input, num);
            r.Ok? ==> AtFrame(r.value, k, |rig.bones|) == AtFrame(st, k, |rig.bones|)
    decreases |input|
  {
    var r := ReadAmc(st, rig, indices, input, num);
    if input != [] && r.Ok? {
      var head := if IsMarker(input[0], num) then [num.frame(input[0]).value] else [];
      assert Markers(input, num) == head + Markers(input[1..], num);
      assert k !in head && k !in Markers(input[1..], num);
      MotionLineKeeps(st, rig, indices, input[0], num, k);
      var st' := MotionLine(st, rig, indices, input[0], num).value;
      assert r == ReadAmc(st', rig, indices, input[1..], num);
      ReadAmcKeeps(st', rig, indices, input[1..], num, k);
    }
  }

  /** Reading two runs of lines in a row is reading them one after the other. */
  lemma {:induction false} ReadAmcSplit(st: Reading, rig: Rig, indices: map<string, nat>, before: seq<string>,
                                        after: seq<string>, num: Numerals)
    requires Consistent(st, |rig.bones|) && IndicesIn(indices, |rig.bones|)
    requires forall i :: 0 <= i < |before| ==> IsContent(before[i])
    requires forall i :: 0 <= i < |after| ==> IsContent(after[i])
    ensures forall i :: 0 <= i < |before + after| ==> IsContent((before + after)[i])
    ensures var r := ReadAmc(st, rig, indices, before, num);
            && (r.Err? ==> ReadAmc(st, rig, indices, before + after, num) == r)
            && (r.Ok? ==> ReadAmc(st, rig, indices, before + after, num) == ReadAmc(r.value, rig, indices, after, num))
    decreases |before|
  {
    if before == [] {
      assert before + after == after;
    } else {
      assert (before + after)[0] == before[0] && (before + after)[1..] == before[1..] + after;
      match MotionLine(st, rig, indices, before[0], num)
      case Err(_) =>
      case Ok(st') => ReadAmcSplit(st', rig, indices, before[1..], after, num);
    }
  }

  /** Reading on from an anchored state with frames never shrinks the range of frame numbers the buffer holds. */
  lemma ReadAmcCovers(s: Reading, rig: Rig, indices: map<string, nat>, after: seq<string>, num: Numerals)
    requires Consistent(s, |rig.bones|) && IndicesIn(indices, |rig.bones|) && Anchored(s) && s.ff >= 0 && s.fs != []
    requires forall i :: 0 <= i < |after| ==> IsContent(after[i])
    ensures var r := ReadAmc(s, rig, indices, after, num);
            r.Ok? ==> 0 <= r.value.ff <= s.ff && s.ff + |s.fs| <= r.value.ff + |r.value.fs|
  {
    ReadAmcSpan(s, rig, indices, after, num);
    HullAllBounds(Span(s), Markers(after, num));
  }

  /**
   * From a reading state whose current frame holds some data: if the next
   * line is a marker, or there is none, and no later marker names that
   * frame again, the read ends with the frame of that number holding the
   * same data, however many frames were put in front of it since.
   */
  lemma ReadAmcHolds(s: Reading, rig: Rig, indices: map<string, nat>, after: seq<string>, num: Numerals)
    requires Consistent(s, |rig.bones|) && IndicesIn(indices, |rig.bones|) && Anchored(s) && s.cfi >= 0
    requires forall i :: 0 <= i < |after| ==> IsContent(after[i])
    requires after == [] || IsMarker(after[0], num)
    requires s.current !in Markers(after, num)
    ensures var r := ReadAmc(s, rig, indices, after, num);
            r.Ok? ==> && 0 <= r.value.ff <= s.current < r.value.ff + |r.value.fs|
                      && AtFrame(r.value, s.current, |rig.bones|) == s.fs[s.cfi]
  {
    ReadAmcCovers(s, rig, indices, after, num);
    ReadAmcKeeps(s, rig, indices, after, num, s.current);
  }

  /**
   * Where frame data lands: the lines `before` leave the frame numbered
   * current_frame holding what they wrote into it. When the lines after
   * them start with a marker (or there are none) and never name that
   * frame again, the whole read ends with that frame, under the same
   * number, holding the same data, however many frames were put in
   * front of it since.
   */
  lemma ReadAmcLands(st: Reading, rig: Rig, indices: map<string, nat>, before: seq<string>, after: seq<string>,
                     s: Reading, num: Numerals)
    requires Consistent(st, |rig.bones|) && IndicesIn(indices, |rig.bones|) && Anchored(st)
    requires forall i :: 0 <= i < |before| ==> IsContent(before[i])
    requires forall i :: 0 <= i < |after| ==> IsContent(after[i])
    requires ReadAmc(st, rig, indices, before, num) == Ok(s) && s.cfi >= 0
    requires after == [] || IsMarker(after[0], num)
    requires s.current !in Markers(after, num)
    ensures var r := ReadAmc(st, rig, indices, before + after, num);
            r.Ok? ==> && 0 <= r.value.ff <= s.current < r.value.ff + |r.value.fs|
                      && AtFrame(r.value, s.current, |rig.bones|) == s.fs[s.cfi]
  {
    ReadAmcSplit(st, rig, indices, before, after, num);
    ReadAmcSpan(st, rig, indices, before, num);
    ReadAmcHolds(s, rig, indices, after, num);
  }

  /** The lines as the motion reader's strip leaves them. */
  function TrimAll(lines: seq<string>): (ts: seq<string>)
    ensures |ts| == |lines| && forall i :: 0 <= i < |lines| ==> ts[i] == Trim(lines[i])
  {
    seq(|lines|, i requires 0 <= i < |lines| => Trim(lines[i]))
  }

  /**
   * A buffer starting at frame `first` spans exactly the frame numbers
   * `ms`: the smallest is `first`, the largest is `first + |fs| - 1`, so
   * |fs| is their difference plus one; with none the buffer is empty and
   * `first` is -1.
   */
  predicate SpansMarkers(fs: seq<Frame>, first: int, ms: seq<int>) {
    && (ms == [] ==> fs == [] && first == -1)
    && (ms != [] ==> && first in ms && first + |fs| - 1 in ms
                     && forall m :: m in ms ==> first <= m < first + |fs|)
  }

  /** MotionSpan for the content lines themselves. */
  lemma StartSpan(rig: Rig, indices: map<string, nat>, input: seq<string>, num: Numerals)
    requires IndicesIn(indices, |rig.bones|)
    requires forall i :: 0 <= i < |input| ==> IsContent(input[i])
    ensures var r := ReadAmc(Start, rig, indices, input, num);
            r.Ok? ==> SpansMarkers(r.value.fs, r.value.ff, Markers(input, num))
  {
    ReadAmcSpan(Start, rig, indices, input, num);
    HullAllBounds(None, Markers(input, num));
  }

  /**
   * AMC::AMC: the frame buffer and first frame number that reading
   * `lines` against a skeleton gives, or the exception it throws.
   */
  function Motion(rig: Rig, lines: seq<string>, num: Numerals): (r: Result<(seq<Frame>, int), AmcError>)
    ensures r.Ok? ==> Sized(r.value.0, |rig.bones|)
  {
    var input := Content(TrimAll(lines), 0);
    match ReadAmc(Start, rig, BoneIndices(rig.bones), input, num)
    case Err(e) => Err(e)
    case Ok(st) => Ok((st.fs, st.ff))
  }

  /**
   * The buffer a whole read leaves spans exactly the frame numbers the
   * markers name: from the smallest to the largest, so its size is their
   * difference plus one; with no marker it is empty and the first frame
   * number stays -1.
   */
  lemma MotionSpan(rig: Rig, lines: seq<string>, num: Numerals)
    ensures var r := Motion(rig, lines, num);
            r.Ok? ==> SpansMarkers(r.value.0, r.value.1, Markers(Content(TrimAll(lines), 0), num))
  {
    var input := Content(TrimAll(lines), 0);
    var indices := BoneIndices(rig.bones);
    var m := ReadAmc(Start, rig, indices, input, num);
    assert Motion(rig, lines, num) == if m.Ok? then Ok((m.value.fs, m.value.ff)) else Err(m.error);
    StartSpan(rig, indices, input, num);
  }
}
