/**
 * The skeleton reader as the C++ class works: an object whose fields the
 * section readers update while they pull lines through a one-line
 * lookahead. Every reader is proved to compute what the corresponding
 * function of AsfParse specifies.
 */
module AsfReader {
  import opened Common
  import opened Lexing
  import opened AsfModel
  import opened AsfParse

  /** asf.cpp's strip: a forward scan over leading whitespace and a trailing scan that moves the wrong way. */
  method Strip(s: string) returns (r: string)
    ensures r == LTrim(s)
  {
    if |s| == 0 {
      return "";
    }
    var front: nat, back: nat := 0, |s| - 1;
    while front <= back && IsSpace(s[front])
      invariant front <= |s| && back == |s| - 1
      invariant forall i :: 0 <= i < front ==> IsSpace(s[i])
    {
      front := front + 1;
    }
    // `back` is incremented, so this stops at the terminating NUL at the latest.
    while back >= front && IsSpace(At(s, back))
      invariant |s| - 1 <= back <= |s|
      invariant front < |s| || back == |s| - 1
      decreases |s| - back
    {
      back := back + 1;
    }
    if front > back {
      r := "";
    } else {
      assert front < |s| && !IsSpace(s[front]);
      assert LeadingSpaces(s) == front;
      // substr clamps the count to the characters that are there.
      r := s[front..if back + 1 <= |s| then back + 1 else |s|];
    }
  }

  /** The axes `for (i = 0; axis_order[i]; i++)` appends, letter by letter. */
  method ParseAxisLetters(w: string) returns (r: Option<seq<Axis>>)
    ensures r == AxisLetters(w)
  {
    var axes: seq<Axis> := [];
    var i := 0;
    assert w[0..] == w;
    PrependNil(AxisLetters(w));
    while At(w, i) != '\0'
      invariant i <= |w|
      invariant AxisLetters(w) == Prepend(axes, AxisLetters(w[i..]))
      decreases |w| - i
    {
      assert w[i..][1..] == w[i + 1..];
      match AxisLetter(w[i])
      case None => return None;
      case Some(a) =>
        PrependSnoc(axes, a, AxisLetters(w[i + 1..]));
        axes := axes + [a];
      i := i + 1;
    }
    PrependEnd(axes);
    return Some(axes);
  }

  /** The `while (!line_ss.eof())` loop of a root `order` line; the word variable lives across rounds. */
  method ParseOrder(line: string) returns (r: Option<seq<Axis>>)
    ensures r == OrderWords(line, "")
  {
    var rest, axis := line, "";
    var order: seq<Axis> := [];
    PrependNil(OrderWords(line, ""));
    while !Eof(rest)
      invariant OrderWords(line, "") == Prepend(order, OrderWords(rest, axis))
      decreases |rest|
    {
      var (t, rest') := ReadWord(rest, axis);
      match OrderWord(t)
      case None => return None;
      case Some(a) =>
        PrependSnoc(order, a, OrderWords(rest', t));
        order := order + [a];
      axis, rest := t, rest';
    }
    PrependEnd(order);
    return Some(order);
  }

  /** The `while (!line_ss.eof())` loop of a bone `dof` line; the word variable is fresh each round. */
  method ParseDofs(line: string) returns (r: Option<seq<Axis>>)
    ensures r == DofWords(line)
  {
    var rest := line;
    var order: seq<Axis> := [];
    PrependNil(DofWords(line));
    while !Eof(rest)
      invariant DofWords(line) == Prepend(order, DofWords(rest))
      decreases |rest|
    {
      var (dofAxis, rest') := ReadWord(rest, "");
      match DofWord(dofAxis)
      case None => return None;
      case Some(a) =>
        PrependSnoc(order, a, DofWords(rest'));
        order := order + [a];
      rest := rest';
    }
    PrependEnd(order);
    return Some(order);
  }

  /** `for (Axis axis: dof_order) dof[axis] = (-HUGE_VALF, HUGE_VALF)` */
  method Declare(dof: map<Axis, Range>, axes: seq<Axis>) returns (m: map<Axis, Range>)
    ensures m == DeclareDofs(dof, axes)
  {
    m := dof;
    var j := 0;
    assert axes[0..] == axes;
    while j < |axes|
      invariant j <= |axes| && DeclareDofs(dof, axes) == DeclareDofs(m, axes[j..])
    {
      assert axes[j..][1..] == axes[j + 1..];
      m := m[axes[j] := Unlimited];
      j := j + 1;
    }
  }

  class Asf {
    /** The lines of the input stream; `pos` is how many `std::getline` has taken. */
    const lines: seq<string>
    var pos: nat
    /** The lookahead line and the flag that says whether it has been consumed. */
    var nextInputLine: string
    var refreshNil: bool

    var bones: seq<Bone>
    /** The children of every bone, in sibling-chain order. */
    ghost var kids: seq<seq<int>>
    var rootAxis: seq<Axis>
    var rootOrder: seq<Axis>
    var rootPosition: Vec3
    var rootOrientation: Vec3
    var root: int
    var massDefault: real
    var lengthDefault: real
    var lengthUnit: real
    var angleUnit: real

    /** The numeric conversions of the C library. */
    const num: Numerals

    /** The lines as the reader's strip leaves them. */
    ghost const stripped: seq<string>

    /** The content lines still to be offered: the lookahead line if unconsumed, then the unread lines. */
    ghost function Input(): seq<string>
      reads this`pos, this`nextInputLine, this`refreshNil
      requires pos <= |stripped|
    {
      (if refreshNil then [] else [nextInputLine]) + Content(stripped, pos)
    }

    ghost function UnitSettings(): Units
      reads this`massDefault, this`lengthDefault, this`lengthUnit, this`angleUnit
    {
      Units(massDefault, lengthDefault, lengthUnit, angleUnit)
    }

    ghost function RootSettings(): RootSpec
      reads this`rootAxis, this`rootOrder, this`rootPosition, this`rootOrientation
    {
      RootSpec(rootAxis, rootOrder, rootPosition, rootOrientation)
    }

    ghost function Model(): Skeleton
      reads this`bones, this`kids, this`rootAxis, this`rootOrder, this`rootPosition, this`rootOrientation,
            this`root, this`massDefault, this`lengthDefault, this`lengthUnit, this`angleUnit
    {
      Skeleton(bones, kids, RootSettings(), root, UnitSettings())
    }

    /** Every line is stripped as it is read; the cursor is within the input. */
    ghost predicate Lexed()
      reads this`pos
    {
      && |stripped| == |lines|
      && (forall i {:trigger LTrim(lines[i])} :: 0 <= i < |lines| ==> stripped[i] == LTrim(lines[i]))
      && pos <= |lines|
    }

    /** The line reader's invariant: the cursor is valid and an unconsumed lookahead line is a content line. */
    ghost predicate Ready()
      reads this`pos, this`nextInputLine, this`refreshNil
    {
      Lexed() && (!refreshNil ==> IsContent(nextInputLine))
    }

    /** The object invariant: a ready line reader and a well-formed skeleton. */
    ghost predicate Valid()
      reads this`pos, this`nextInputLine, this`refreshNil, this`bones, this`kids, this`rootAxis, this`root
    {
      Ready() && Shaped(bones, kids, rootAxis, root)
    }

    /**
     * The member initialisers: no bones, empty root orders, zero root
     * vectors, no root, mass 1, length unit 2.54e-2, angle unit 1, and a
     * consumed lookahead, so the first `getline` reads a fresh line.
     */
    constructor (lines: seq<string>, lengthDefault: real, num: Numerals)
      ensures Valid() && this.lines == lines && this.num == num
      ensures Model() == Skeleton([], [], NoRootSpec, -1, InitialUnits(lengthDefault))
      ensures refreshNil && Input() == Content(stripped, 0)
    {
      this.lines := lines;
      this.num := num;
      stripped := seq(|lines|, i requires 0 <= i < |lines| => LTrim(lines[i]));
      pos := 0;
      nextInputLine := "";
      refreshNil := true;
      bones := [];
      kids := [];
      rootAxis, rootOrder := [], [];
      rootPosition, rootOrientation := Zero, Zero;
      root := -1;
      massDefault := 1.0;
      this.lengthDefault := lengthDefault;
      lengthUnit := 0.0254;
      angleUnit := 1.0;
      new;
      EmptyWellFormed(InitialUnits(lengthDefault));
    }

    /**
     * The `do { std::getline; strip } while (empty or comment)` loop of
     * ASF::getline: it stops after the first line that is neither empty
     * nor a comment, with that line as lookahead, or fails at the end of
     * the input.
     */
    method ReadContentLine() returns (ok: bool)
      requires Lexed()
      modifies this`pos, this`nextInputLine
      ensures Lexed()
      ensures var n := NextContent(stripped, old(pos));
              && (ok <==> n < |lines|)
              && (ok ==> nextInputLine == stripped[n] && pos == n + 1)
              && (!ok ==> pos == |lines|)
    {
      var p := pos;
      while p < |lines|
        invariant pos == old(pos) <= p <= |lines|
        invariant NextContent(stripped, p) == NextContent(stripped, pos)
      {
        var line := Strip(lines[p]);
        nextInputLine, p := line, p + 1;
        if IsContent(line) {
          pos := p;
          return true;
        }
      }
      pos := p;
      return false;
    }

    /**
     * ASF::getline: with an unconsumed lookahead line it offers that line
     * again; otherwise it reads a fresh content line. Either way the lines
     * still to be offered stay the same, and on success the lookahead is
     * the first of them.
     */
    method GetLine() returns (ok: bool)
      requires Ready()
      modifies this`pos, this`nextInputLine, this`refreshNil
      ensures Ready() && Model() == old(Model())
      ensures Input() == old(Input())
      ensures ok <==> Input() != []
      ensures ok ==> !refreshNil && nextInputLine == Input()[0]
      ensures !old(refreshNil) ==> ok && nextInputLine == old(nextInputLine) && pos == old(pos)
    {
      if !refreshNil {
        return true;
      }
      ContentAt(stripped, pos);
      ok := ReadContentLine();
      if ok {
        refreshNil := false;
      }
    }

    /** `refresh_nil = true`: the lookahead line is taken. */
    method Consume()
      requires Ready() && !refreshNil
      modifies this`refreshNil
      ensures Ready() && refreshNil
      ensures Input() == old(Input())[1..]
    {
      refreshNil := true;
    }

    /** The body of read_units_section's loop: the keyword of one line and the setting it changes. */
    method ReadUnitsLine(line: string) returns (res: Outcome<AsfError>)
      modifies this`massDefault, this`lengthDefault, this`angleUnit
      ensures match UnitsLine(old(UnitSettings()), line, num)
              case Ok(u) => res == Pass && UnitSettings() == u
              case Err(e) => res == Fail(e)
    {
      ghost var u := UnitSettings();
      var (unit, rest) := ReadWord(line, "");
      if unit == "mass" {
        massDefault := ReadReal(rest, massDefault, num).0;
        assert UnitSettings() == u.(massDefault := ReadReal(rest, u.massDefault, num).0);
      } else if unit == "length" {
        lengthDefault := ReadReal(rest, lengthDefault, num).0;
        assert UnitSettings() == u.(lengthDefault := ReadReal(rest, u.lengthDefault, num).0);
      } else if unit == "angle" {
        var (w, _) := ReadWord(rest, unit);
        if w == "deg" {
          angleUnit := DegreeUnit;
        } else if w == "rad" {
          angleUnit := 1.0;
        } else {
          return Fail(BadAngleUnit(w));
        }
      }
      return Pass;
    }

    /** ASF::read_units_section: it changes the units and nothing else of the skeleton. */
    method ReadUnitsSection() returns (res: Outcome<AsfError>)
      requires Valid()
      modifies this`pos, this`nextInputLine, this`refreshNil, this`massDefault, this`lengthDefault, this`angleUnit
      ensures match UnitsSection(old(UnitSettings()), old(Input()), num)
              case Ok((u, rest)) => res == Pass && Valid() && UnitSettings() == u && Input() == rest
              case Err(e) => res == Fail(e)
    {
      while true
        invariant Ready()
        invariant UnitsSection(old(UnitSettings()), old(Input()), num) == UnitsSection(UnitSettings(), Input(), num)
        decreases |Input()|
      {
        var ok := GetLine();
        if !ok || nextInputLine[0] == ':' {
          return Pass;
        }
        res := ReadUnitsStep();
        if res.Fail? {
          return;
        }
      }
    }

    /** One round of read_units_section's loop: the lookahead line is taken and applied. */
    method ReadUnitsStep() returns (res: Outcome<AsfError>)
      requires Ready() && !refreshNil
      modifies this`pos, this`nextInputLine, this`refreshNil, this`massDefault, this`lengthDefault, this`angleUnit
      ensures match UnitsLine(old(UnitSettings()), old(nextInputLine), num)
              case Ok(u) => res == Pass && Ready() && UnitSettings() == u && Input() == old(Input())[1..]
              case Err(e) => res == Fail(e)
    {
      Consume();
      res := ReadUnitsLine(nextInputLine);
    }

    /** The body of read_root_section's loop: the keyword of one line and the root setting it changes. */
    method ReadRootLine(line: string) returns (res: Outcome<AsfError>)
      modifies this`rootAxis, this`rootOrder, this`rootPosition, this`rootOrientation
      ensures match RootLine(old(RootSettings()), line, num)
              case Ok(rs) => res == Pass && RootSettings() == rs
              case Err(e) => res == Fail(e)
    {
      ghost var rs := RootSettings();
      var (keyword, rest) := ReadWord(line, "");
      if keyword == "axis" {
        var axes := ParseAxisLetters(ReadWord(rest, "").0);
        if axes.None? {
          return Fail(BadRootAxis);
        }
        rootAxis := rootAxis + axes.value;
        assert RootSettings() == rs.(axis := rs.axis + axes.value);
      } else if keyword == "order" {
        var order := ParseOrder(rest);
        if order.None? {
          return Fail(BadRootOrder);
        }
        rootOrder := rootOrder + order.value;
        assert RootSettings() == rs.(order := rs.order + order.value);
      } else if keyword == "position" {
        rootPosition := ReadVec3(rest, rootPosition, num).0;
        assert RootSettings() == rs.(position := ReadVec3(rest, rs.position, num).0);
      } else if keyword == "orientation" {
        rootOrientation := ReadVec3(rest, rootOrientation, num).0;
        assert RootSettings() == rs.(orientation := ReadVec3(rest, rs.orientation, num).0);
      }
      return Pass;
    }

    /** The loop of read_root_section: it changes the root settings and nothing else. */
    method ReadRootLines() returns (res: Outcome<AsfError>)
      requires Valid()
      modifies this`pos, this`nextInputLine, this`refreshNil, this`rootAxis, this`rootOrder,
               this`rootPosition, this`rootOrientation
      ensures match RootLines(old(RootSettings()), old(Input()), num)
              case Ok((rs, rest)) => res == Pass && Valid() && RootSettings() == rs && Input() == rest
              case Err(e) => res == Fail(e)
    {
      while true
        invariant Ready() && Shaped(bones, kids, rootAxis, root)
        invariant RootLines(old(RootSettings()), old(Input()), num) == RootLines(RootSettings(), Input(), num)
        decreases |Input()|
      {
        var ok := GetLine();
        if !ok || nextInputLine[0] == ':' {
          return Pass;
        }
        res := ReadRootStep();
        if res.Fail? {
          return;
        }
      }
    }

    /** One round of read_root_section's loop: the lookahead line is taken and applied. */
    method ReadRootStep() returns (res: Outcome<AsfError>)
      requires Ready() && !refreshNil
      modifies this`pos, this`nextInputLine, this`refreshNil, this`rootAxis, this`rootOrder,
               this`rootPosition, this`rootOrientation
      ensures match RootLine(old(RootSettings()), old(nextInputLine), num)
              case Ok(rs) => res == Pass && Ready() && RootSettings() == rs && Input() == old(Input())[1..]
              case Err(e) => res == Fail(e)
    {
      Consume();
      res := ReadRootLine(nextInputLine);
    }

    /**
     * ASF::read_root_section: fatal when a root was read before; otherwise
     * the root settings are read and a root bone is appended and made the
     * root.
     */
    method ReadRootSection() returns (res: Outcome<AsfError>)
      requires Valid()
      modifies this`pos, this`nextInputLine, this`refreshNil, this`rootAxis, this`rootOrder,
               this`rootPosition, this`rootOrientation, this`bones, this`kids, this`root
      ensures res.Pass? ==> Valid()
      ensures match RootSection(old(Model()), old(Input()), num)
              case Ok((sk, rest)) =>
                && res == Pass && Input() == rest
                && RootSettings() == sk.rootSpec && bones == sk.bones && kids == sk.kids && root == sk.root
              case Err(e) => res == Fail(e)
    {
      if root >= 0 {
        return Fail(RootRedefined);
      }
      ghost var sk, input := Model(), Input();
      res := ReadRootLines();
      if res.Fail? {
        return;
      }
      ghost var rs, rest := RootSettings(), Input();
      assert RootLines(sk.rootSpec, input, num) == Ok((rs, rest));
      AppendRootBone();
    }

    /** The end of read_root_section: a bone named "root" is appended and becomes the root. */
    method AppendRootBone()
      requires Valid() && root == -1
      modifies this`bones, this`kids, this`root
      ensures Valid()
      ensures bones == old(bones) + [RootBone(RootSettings())] && kids == old(kids) + [[]] && root == |old(bones)|
    {
      var rootBone := NewBone();
      rootBone := rootBone.(id := 0, name := "root", direction := rootOrientation);
      PushBone(rootBone);
      root := |bones| - 1;
    }

    /** One line of a bone block other than `limits` and `end`, applied to the local bone. */
    method ReadBoneLine(b: Bone, line: string) returns (r: Result<Bone, AsfError>)
      ensures r == BoneLine(b, line, angleUnit, num)
    {
      var (keyword, rest) := ReadWord(line, "");
      var bone := b;
      if keyword == "id" {
        bone := bone.(id := ReadInt(rest, bone.id, num).0);
      } else if keyword == "name" {
        bone := bone.(name := ReadWord(rest, bone.name).0);
      } else if keyword == "direction" {
        bone := bone.(direction := ReadVec3(rest, bone.direction, num).0);
      } else if keyword == "length" {
        bone := bone.(length := ReadReal(rest, bone.length, num).0);
      } else if keyword == "axis" {
        var (v, rest') := ReadVec3(rest, bone.axis, num);
        bone := bone.(axis := Scale(angleUnit, v), axisOrder := []);
        var axes := ParseAxisLetters(ReadWord(rest', "").0);
        if axes.None? {
          return Err(BadBoneAxis(bone.name));
        }
        bone := bone.(axisOrder := axes.value);
      } else if keyword == "dof" {
        var axes := ParseDofs(rest);
        if axes.None? {
          return Err(BadDofAxis(bone.name));
        }
        var dof := Declare(bone.dof, axes.value);
        bone := bone.(dofOrder := axes.value, dof := dof);
      }
      return Ok(bone);
    }

    /**
     * The `for (Axis axis: bone.dof_order)` loop of a `limits` line, which
     * the caller has pushed back so that it is read again as the first
     * limit line: one line per DOF, each storing its pair.
     */
    method ReadLimits(b: Bone) returns (r: Result<Bone, AsfError>)
      requires Ready()
      modifies this`pos, this`nextInputLine, this`refreshNil
      ensures match LimitLines(b, b.dofOrder, true, old(Input()), num)
              case Ok((b', rest)) => r == Ok(b') && Ready() && Input() == rest
              case Err(e) => r == Err(e)
    {
      var bone, j := b, 0;
      assert b.dofOrder[0..] == b.dofOrder;
      while j < |b.dofOrder|
        invariant j <= |b.dofOrder| && Ready()
        invariant LimitLines(b, b.dofOrder, true, old(Input()), num)
               == LimitLines(bone, b.dofOrder[j..], j == 0, Input(), num)
      {
        assert b.dofOrder[j..][1..] == b.dofOrder[j + 1..];
        r := ReadLimitLine(bone, b.dofOrder[j], j == 0);
        if r.Err? {
          return;
        }
        bone := r.value;
        j := j + 1;
      }
      return Ok(bone);
    }

    /** One round of the limits loop: the line for `axis`, matched with or without the "limits" prefix. */
    method ReadLimitLine(b: Bone, axis: Axis, first: bool) returns (r: Result<Bone, AsfError>)
      requires Ready()
      modifies this`pos, this`nextInputLine, this`refreshNil
      ensures match LimitLine(b, axis, first, old(Input()), num)
              case Ok(b') => r == Ok(b') && Ready() && Input() == old(Input())[1..]
              case Err(e) => r == Err(e)
    {
      var ok := GetLine();
      if !ok {
        return Err(LimitsEof);
      }
      Consume();
      if nextInputLine[0] == ':' {
        return Err(LimitsSectionEnd);
      }
      var pair := LimitPair(nextInputLine, first, num);
      if pair.None? {
        return Err(LimitsMismatch);
      }
      return Ok(b.(dof := b.dof[axis := Range(Fin(pair.value.0), Fin(pair.value.1))]));
    }

    /**
     * The inner loop of read_bonedata_section: the lines of one block up
     * to `end`, starting from the bone `start`.
     */
    method ReadBoneBlock(start: Bone) returns (r: Result<Bone, AsfError>)
      requires Ready()
      modifies this`pos, this`nextInputLine, this`refreshNil
      ensures match BoneBlock(start, old(Input()), angleUnit, num)
              case Ok((b, rest)) => r == Ok(b) && Ready() && Input() == rest
              case Err(e) => r == Err(e)
    {
      var bone := start;
      while true
        invariant Ready()
        invariant BoneBlock(start, old(Input()), angleUnit, num) == BoneBlock(bone, Input(), angleUnit, num)
        decreases |Input()|
      {
        var ok := GetLine();
        if !ok || nextInputLine[0] == ':' {
          return Err(EarlyEndOfBone(bone.name));
        }
        if nextInputLine == "end" {
          Consume();
          return Ok(bone);
        }
        r := ReadBlockLine(bone);
        if r.Err? {
          return;
        }
        bone := r.value;
      }
    }

    /** One round of the inner loop of read_bonedata_section, at a lookahead line other than `end`. */
    method ReadBlockLine(b: Bone) returns (r: Result<Bone, AsfError>)
      requires Ready() && !refreshNil
      modifies this`pos, this`nextInputLine, this`refreshNil
      ensures match BlockLine(b, old(Input()), angleUnit, num)
              case Ok((b', rest)) => r == Ok(b') && Ready() && Input() == rest
              case Err(e) => r == Err(e)
    {
      Consume();
      if Keyword(nextInputLine) == "limits" {
        if b.dofOrder == [] {
          return Err(LimitsWithoutDof(b.name));
        }
        // The limits line is pushed back and read again as the first limit line.
        refreshNil := false;
        r := ReadLimits(b);
      } else {
        r := ReadBoneLine(b, nextInputLine);
      }
    }

    /** ASF::read_bonedata_section: every `begin ... end` block appends one bone. */
    method ReadBonedataSection() returns (res: Outcome<AsfError>)
      requires Valid()
      modifies this`pos, this`nextInputLine, this`refreshNil, this`bones, this`kids
      ensures res.Pass? ==> Valid()
      ensures match BonedataSection(old(Model()), old(Input()), num)
              case Ok((sk, rest)) => res == Pass && bones == sk.bones && kids == sk.kids && Input() == rest
              case Err(e) => res == Fail(e)
    {
      ghost var sk := Model();
      var start := NewBone();
      start := start.(axisOrder := rootAxis, length := lengthDefault);
      assert start == BlockStart(sk);
      while true
        invariant Valid()
        invariant BonedataSection(sk, old(Input()), num)
               == BonedataSection(sk.(bones := bones, kids := kids), Input(), num)
        decreases |Input()|
      {
        var ok := GetLine();
        if !ok || nextInputLine[0] == ':' {
          return Pass;
        }
        var r := ReadBonedataBlock(start);
        if r.Err? {
          return Fail(r.error);
        }
        PushBone(r.value);
      }
    }

    /** One round of read_bonedata_section's loop, once the lookahead line is known not to start a section. */
    method ReadBonedataBlock(start: Bone) returns (r: Result<Bone, AsfError>)
      requires Ready() && !refreshNil
      modifies this`pos, this`nextInputLine, this`refreshNil
      ensures match BonedataBlock(start, angleUnit, old(Input()), num)
              case Ok((b, rest)) => r == Ok(b) && Ready() && Input() == rest
              case Err(e) => r == Err(e)
    {
      Consume();
      if nextInputLine != "begin" {
        return Err(ExpectedBegin(nextInputLine));
      }
      r := ReadBoneBlock(start);
    }

    /** ASF::find_bone: the first bone with the name, None where the C++ code throws. */
    method FindBoneIndex(name: string) returns (r: Option<nat>)
      ensures r == FindBone(bones, name)
    {
      var i := 0;
      while i < |bones|
        invariant i <= |bones|
        invariant forall j :: 0 <= j < i ==> bones[j].name != name
      {
        if bones[i].name == name {
          return Some(i);
        }
        i := i + 1;
      }
      return None;
    }

    /**
     * The `child_pointer` walk of read_hierarchy_section: from bone `p`'s
     * `first_child` along the `next_sibling` links to the first one that
     * holds -1.
     */
    method ChainTail(p: nat) returns (slot: Slot)
      requires Linked(bones, kids) && p < |bones|
      ensures slot == TailSlot(kids, p)
    {
      slot := FirstChildOf(p);
      ghost var k := 0;
      assert HeadLinked(bones, kids, p);
      assert forall j :: 0 <= j < |kids[p]| ==> 0 <= kids[p][j] by {
        forall j | 0 <= j < |kids[p]| ensures 0 <= kids[p][j] {
          assert ChildLinked(bones, kids, p, j);
        }
      }
      while SlotValue(bones, slot) >= 0
        invariant k <= |kids[p]| && 0 <= slot.b < |bones|
        invariant slot == if k == 0 then FirstChildOf(p) else NextSiblingOf(kids[p][k - 1])
        invariant SlotValue(bones, slot) == if k < |kids[p]| then kids[p][k] else -1
        decreases |kids[p]| - k
      {
        assert ChildLinked(bones, kids, p, k);
        slot := NextSiblingOf(SlotValue(bones, slot));
        k := k + 1;
      }
    }

    /**
     * The child loop of one hierarchy line: `rest` holds the names after
     * the parent's, read into a variable that starts out holding `prev`.
     */
    method ReadChildren(p: nat, rest: string, prev: string) returns (res: Outcome<AsfError>)
      requires Linked(bones, kids) && p < |bones|
      modifies this`bones, this`kids
      ensures match LinkChildren(old(bones), old(kids), p, rest, prev)
              case Ok((bs, ks)) => res == Pass && bones == bs && kids == ks
              case Err(e) => res == Fail(e)
    {
      var slot := ChainTail(p);
      var lineRest, boneName := rest, prev;
      while !Eof(lineRest)
        invariant Linked(bones, kids) && p < |bones| && slot == TailSlot(kids, p)
        invariant LinkChildren(old(bones), old(kids), p, rest, prev) == LinkChildren(bones, kids, p, lineRest, boneName)
        decreases |lineRest|
      {
        var (name, lineRest') := ReadWord(lineRest, boneName);
        boneName, lineRest := name, lineRest';
        var c := FindBoneIndex(name);
        if c.None? {
          return Fail(UnknownBone(name));
        }
        var child := c.value;
        if bones[child].parent >= 0 {
          if bones[child].parent != p {
            return Fail(MultipleParents(name));
          }
        } else {
          assert OrphanUnchained(bones, child);
          TailSlotEmpty(bones, kids, p);
          ghost var linked := AppendChild(bones, kids, p, child);
          bones := bones[child := bones[child].(parent := p)];
          bones := WriteSlot(bones, slot, child);
          kids := kids[p := kids[p] + [child]];
          slot := NextSiblingOf(child);
          assert bones == linked;
        }
      }
      return Pass;
    }

    /** One line of the hierarchy section other than `end`: a parent's name, then its children's. */
    method ReadHierarchyLine(line: string) returns (res: Outcome<AsfError>)
      requires Linked(bones, kids)
      modifies this`bones, this`kids
      ensures match HierarchyLine(old(bones), old(kids), line)
              case Ok((bs, ks)) => res == Pass && bones == bs && kids == ks
              case Err(e) => res == Fail(e)
    {
      var (name, rest) := ReadWord(line, "");
      var p := FindBoneIndex(name);
      if p.None? {
        return Fail(UnknownBone(name));
      }
      res := ReadChildren(p.value, rest, name);
    }

    /** ASF::read_hierarchy_section: `begin`, then hierarchy lines up to `end` or the end of input. */
    method ReadHierarchySection() returns (res: Outcome<AsfError>)
      requires Valid()
      modifies this`pos, this`nextInputLine, this`refreshNil, this`bones, this`kids
      ensures res.Pass? ==> Valid()
      ensures match HierarchySection(old(Model()), old(Input()))
              case Ok((sk, rest)) => res == Pass && bones == sk.bones && kids == sk.kids && Input() == rest
              case Err(e) => res == Fail(e)
    {
      ghost var sk := Model();
      var ok := GetLine();
      if !ok {
        return Fail(HierarchyEof);
      }
      Consume();
      if nextInputLine != "begin" {
        return Fail(HierarchyBegin(nextInputLine));
      }
      res := ReadHierarchyLines();
    }

    /** The loop of read_hierarchy_section: hierarchy lines up to `end` or the end of input. */
    method ReadHierarchyLines() returns (res: Outcome<AsfError>)
      requires Ready() && Linked(bones, kids)
      modifies this`pos, this`nextInputLine, this`refreshNil, this`bones, this`kids
      ensures match HierarchyLines(old(bones), old(kids), old(Input()))
              case Ok((bs, ks, rest)) => res == Pass && Ready() && bones == bs && kids == ks && Input() == rest
              case Err(e) => res == Fail(e)
    {
      while true
        invariant Ready() && Linked(bones, kids)
        invariant HierarchyLines(old(bones), old(kids), old(Input())) == HierarchyLines(bones, kids, Input())
        decreases |Input()|
      {
        var ok := GetLine();
        if !ok {
          return Pass;
        }
        Consume();
        if nextInputLine == "end" {
          return Pass;
        }
        res := ReadHierarchyLine(nextInputLine);
        if res.Fail? {
          return;
        }
      }
    }

    /** The loop that skips an unknown section: lines up to the next ':' line. */
    method SkipLines()
      requires Ready()
      modifies this`pos, this`nextInputLine, this`refreshNil
      ensures Ready() && Input() == SkipSection(old(Input()))
    {
      while true
        invariant Ready() && SkipSection(old(Input())) == SkipSection(Input())
        decreases |Input()|
      {
        var ok := GetLine();
        if !ok || nextInputLine[0] == ':' {
          return;
        }
        SkipSectionStep(Input());
        Consume();
      }
    }

    /**
     * The dispatch of the constructor's loop on a section name: `version`
     * reads nothing further, `units` runs its reader, the sections that
     * build the bone tree are read by ReadTreeSection, and any other
     * section is skipped.
     */
    method ReadSectionNamed(section: string) returns (res: Outcome<AsfError>)
      requires Valid()
      modifies this
      ensures match ReadSection(old(Model()), section, old(Input()), num)
              case Ok((sk, rest)) => res == Pass && Ready() && Input() == rest && Model() == sk
              case Err(e) => res == Fail(e)
    {
      if section == "version" {
        res := Pass;
      } else if section == "units" {
        res := ReadUnitsSection();
      } else if section in {"root", "bonedata", "hierarchy"} {
        res := ReadTreeSection(section);
      } else {
        SkipLines();
        res := Pass;
      }
    }

    /** The `root`, `bonedata` and `hierarchy` branches of the dispatch. */
    method ReadTreeSection(section: string) returns (res: Outcome<AsfError>)
      requires Valid() && section in {"root", "bonedata", "hierarchy"}
      modifies this
      ensures match TreeSection(old(Model()), section, old(Input()), num)
              case Ok((sk, rest)) => res == Pass && Ready() && Input() == rest && Model() == sk
              case Err(e) => res == Fail(e)
    {
      if section == "root" {
        res := ReadRootSection();
      } else if section == "bonedata" {
        res := ReadBonedataSection();
      } else {
        res := ReadHierarchySection();
      }
    }

    /**
     * The constructor's loop: every line it reads must be a ':' line, whose
     * first word after the colon names the section read next; any other
     * line is fatal. It ends at the end of the input.
     */
    method Read() returns (res: Outcome<AsfError>)
      requires Valid()
      modifies this
      ensures match ReadAsf(old(Model()), old(Input()), num)
              case Ok(sk) => res == Pass && Valid() && Model() == sk && Input() == []
              case Err(e) => res == Fail(e)
    {
      while true
        invariant Valid()
        invariant ReadAsf(old(Model()), old(Input()), num) == ReadAsf(Model(), Input(), num)
        decreases |Input()|
      {
        var ok := GetLine();
        if !ok {
          return Pass;
        }
        Consume();
        if nextInputLine[0] != ':' {
          return Fail(UnexpectedLine(nextInputLine));
        }
        var stripped := Strip(nextInputLine[1..]);
        var section := ReadWord(stripped, "").0;
        ghost var sk, input := Model(), Input();
        res := ReadSectionNamed(section);
        if res.Fail? {
          return;
        }
        ReadSectionPreserves(sk, section, input, num);
        SuffixIsDrop(Input(), input);
      }
    }

    /** `bones.push_back(bone)`: a parentless bone without children joins the list. */
    method PushBone(b: Bone)
      requires Valid() && Unlinked(b) && AllRotations(b.axisOrder)
      modifies this`bones, this`kids
      ensures Valid() && bones == old(bones) + [b] && kids == old(kids) + [[]]
    {
      PushKeepsLinked(bones, kids, b);
      bones := bones + [b];
      kids := kids + [[]];
    }
  }
}
