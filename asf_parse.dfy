/**
 * What the skeleton reader (asf.cpp) computes, as functions over the
 * content lines still to be read: each section reader takes the lines
 * after its section header and returns the new state together with the
 * lines it leaves unread, the first of which (a ':' line) is offered
 * again to the section dispatcher.
 */
module AsfParse {
  import opened Common
  import opened Lexing
  import opened AsfModel

  /** The exceptions asf.cpp throws, one kind per throw site. */
  datatype AsfError =
    | UnexpectedLine(line: string)
    | BadAngleUnit(unit: string)
    | RootRedefined
    | BadRootAxis
    | BadRootOrder
    | ExpectedBegin(line: string)
    | BadBoneAxis(bone: string)
    | BadDofAxis(bone: string)
    | LimitsWithoutDof(bone: string)
    | LimitsEof
    | LimitsSectionEnd
    | LimitsMismatch
    | EarlyEndOfBone(bone: string)
    | HierarchyEof
    | HierarchyBegin(line: string)
    | UnknownBone(name: string)
    | MultipleParents(bone: string)

  /** A line that starts a section: `next_input_line.front() == ':'`. */
  predicate IsSectionLine(l: string) {
    l != "" && l[0] == ':'
  }

  /** The first word of a line, as `line_ss >> keyword` reads it. */
  function Keyword(line: string): string {
    ReadWord(line, "").0
  }

  /** What follows the first word of a line. */
  function AfterKeyword(line: string): string {
    ReadWord(line, "").1
  }

  // ---------------------------------------------------------------------
  // Axis words

  /** An axis-order letter: X, Y and Z name the three rotations. */
  function AxisLetter(c: char): (r: Option<Axis>)
    ensures r.Some? ==> IsRotation(r.value)
    ensures r == Some(RX) <==> c == 'X'
    ensures r == Some(RY) <==> c == 'Y'
    ensures r == Some(RZ) <==> c == 'Z'
    ensures r.None? <==> c != 'X' && c != 'Y' && c != 'Z'
  {
    if c == 'X' then Some(RX) else if c == 'Y' then Some(RY) else if c == 'Z' then Some(RZ) else None
  }

  /**
   * The axes an axis-order word spells, letter by letter up to its end or
   * a NUL character; None when a letter is not X, Y or Z.
   */
  function AxisLetters(w: string): (r: Option<seq<Axis>>)
    ensures r.Some? ==> AllRotations(r.value) && |r.value| <= |w|
    ensures r.Some? && (forall i :: 0 <= i < |w| ==> w[i] != '\0') ==>
              |r.value| == |w| && forall i :: 0 <= i < |w| ==> AxisLetter(w[i]) == Some(r.value[i])
    ensures (forall i :: 0 <= i < |w| ==> w[i] != '\0') && r.None? ==>
              exists i :: 0 <= i < |w| && AxisLetter(w[i]).None?
  {
    if w == "" || w[0] == '\0' then Some([])
    else match AxisLetter(w[0])
      case None => None
      case Some(a) =>
        match AxisLetters(w[1..])
        case None => None
        case Some(rest) => Some([a] + rest)
  }

  /** A kind a root channel can have: a rotation or a translation. */
  predicate IsChannel(a: Axis) {
    !a.LX? && !a.LY? && !a.LZ?
  }

  /** A kind a bone DOF can have: a rotation or an L-axis. */
  predicate IsDof(a: Axis) {
    !a.TX? && !a.TY? && !a.TZ?
  }

  /** A channel word of a root `order` line. */
  function OrderWord(t: string): (r: Option<Axis>)
    ensures r.Some? ==> IsChannel(r.value)
    ensures r == Some(RX) <==> t == "RX"
    ensures r == Some(RY) <==> t == "RY"
    ensures r == Some(RZ) <==> t == "RZ"
    ensures r == Some(TX) <==> t == "TX"
    ensures r == Some(TY) <==> t == "TY"
    ensures r == Some(TZ) <==> t == "TZ"
    ensures r.None? <==> t !in {"RX", "RY", "RZ", "TX", "TY", "TZ"}
  {
    if t == "RX" then Some(RX) else if t == "RY" then Some(RY) else if t == "RZ" then Some(RZ)
    else if t == "TX" then Some(TX) else if t == "TY" then Some(TY) else if t == "TZ" then Some(TZ)
    else None
  }

  /** A DOF word of a bone `dof` line. */
  function DofWord(t: string): (r: Option<Axis>)
    ensures r.Some? ==> IsDof(r.value)
    ensures r == Some(RX) <==> t == "rx"
    ensures r == Some(RY) <==> t == "ry"
    ensures r == Some(RZ) <==> t == "rz"
    ensures r == Some(LX) <==> t == "lx"
    ensures r == Some(LY) <==> t == "ly"
    ensures r == Some(LZ) <==> t == "lz"
    ensures r.None? <==> t !in {"rx", "ry", "rz", "lx", "ly", "lz"}
  {
    if t == "rx" then Some(RX) else if t == "ry" then Some(RY) else if t == "rz" then Some(RZ)
    else if t == "lx" then Some(LX) else if t == "ly" then Some(LY) else if t == "lz" then Some(LZ)
    else None
  }

  /**
   * The words a `while (!eof) stream >> word` loop reads from `rest`, one
   * per round. When `keep` holds the word variable outlives the loop and
   * starts out holding `prev`, so a round whose read finds only whitespace
   * yields the previous word once more; otherwise the variable is fresh
   * on every round and such a round yields "".
   */
  function LoopWords(rest: string, prev: string, keep: bool): (ws: seq<string>)
    ensures Eof(rest) ==> ws == []
    ensures !Eof(rest) && IsBlank(rest) ==> ws == [if keep then prev else ""]
    ensures Tight(rest) ==> ws == Words(rest)
    decreases |rest|
  {
    if Eof(rest) then []
    else
      var (t, rest') := ReadWord(rest, if keep then prev else "");
      ExtractTightWhen(rest);
      [t] + LoopWords(rest', t, keep)
  }

  lemma ExtractTightWhen(s: string)
    ensures Tight(s) && s != "" ==> Extract(s).token.Some?
    ensures Tight(s) ==> Tight(Extract(s).rest)
  {
    if Tight(s) {
      ExtractTight(s);
    }
  }

  /**
   * The channels of a root `order` line, read while the stream is not at
   * its end. The word variable outlives the loop, so a read that finds
   * only whitespace leaves the previous word in it, which is stored again.
   */
  function OrderWords(rest: string, prev: string): (r: Option<seq<Axis>>)
    ensures r.Some? ==> forall a :: a in r.value ==> IsChannel(a)
    ensures Eof(rest) ==> r == Some([])
    decreases |rest|
  {
    if Eof(rest) then Some([])
    else
      var (t, rest') := ReadWord(rest, prev);
      match OrderWord(t)
      case None => None
      case Some(a) =>
        match OrderWords(rest', t)
        case None => None
        case Some(tail) => Some([a] + tail)
  }

  /**
   * The root `order` line succeeds exactly when every word its loop reads
   * is a channel name, and then stores those channels, one per word and
   * in order.
   */
  lemma {:induction false} OrderWordsRead(rest: string, prev: string)
    ensures var (r, ws) := (OrderWords(rest, prev), LoopWords(rest, prev, true));
            && (r.Some? <==> forall i :: 0 <= i < |ws| ==> OrderWord(ws[i]).Some?)
            && (r.Some? ==> |r.value| == |ws| && forall i :: 0 <= i < |ws| ==> OrderWord(ws[i]) == Some(r.value[i]))
    decreases |rest|
  {
    if !Eof(rest) {
      var (t, rest') := ReadWord(rest, prev);
      var ws, ws' := LoopWords(rest, prev, true), LoopWords(rest', t, true);
      assert ws == [t] + ws';
      OrderWordsRead(rest', t);
      if OrderWord(t).None? {
        assert OrderWord(ws[0]).None?;
      } else if OrderWords(rest', t).None? {
        var j :| 0 <= j < |ws'| && OrderWord(ws'[j]).None?;
        assert ws[j + 1] == ws'[j];
      } else {
        forall i | 0 <= i < |ws| ensures OrderWord(ws[i]).Some? {
          if i > 0 { assert ws[i] == ws'[i - 1]; }
        }
      }
    }
  }

  /**
   * The axes of a bone `dof` line, read while the stream is not at its
   * end. The word variable is fresh on every round, so a read that finds
   * only whitespace yields "" and fails.
   */
  function DofWords(rest: string): (r: Option<seq<Axis>>)
    ensures r.Some? ==> forall a :: a in r.value ==> IsDof(a)
    ensures Eof(rest) ==> r == Some([])
    decreases |rest|
  {
    if Eof(rest) then Some([])
    else
      var (t, rest') := ReadWord(rest, "");
      match DofWord(t)
      case None => None
      case Some(a) =>
        match DofWords(rest')
        case None => None
        case Some(tail) => Some([a] + tail)
  }

  /**
   * A bone's `dof` line succeeds exactly when every word its loop reads
   * (with "" for a read that finds only whitespace) is a DOF name, and
   * then stores those axes, one per word and in order.
   */
  lemma {:induction false} DofWordsRead(rest: string)
    ensures var (r, ws) := (DofWords(rest), LoopWords(rest, "", false));
            && (r.Some? <==> forall i :: 0 <= i < |ws| ==> DofWord(ws[i]).Some?)
            && (r.Some? ==> |r.value| == |ws| && forall i :: 0 <= i < |ws| ==> DofWord(ws[i]) == Some(r.value[i]))
    decreases |rest|
  {
    if !Eof(rest) {
      var (t, rest') := ReadWord(rest, "");
      var ws, ws' := LoopWords(rest, "", false), LoopWords(rest', "", false);
      assert ws == [t] + LoopWords(rest', t, false);
      assert LoopWords(rest', t, false) == ws';
      DofWordsRead(rest');
      if DofWord(t).None? {
        assert DofWord(ws[0]).None?;
      } else if DofWords(rest').None? {
        var j :| 0 <= j < |ws'| && DofWord(ws'[j]).None?;
        assert ws[j + 1] == ws'[j];
      } else {
        forall i | 0 <= i < |ws| ensures DofWord(ws[i]).Some? {
          if i > 0 { assert ws[i] == ws'[i - 1]; }
        }
      }
    }
  }

  // ---------------------------------------------------------------------
  // Units section

  /**
   * One line of the units section: `mass` sets the default mass, `length`
   * the default bone length, `angle` the angle unit ("deg": pi/180, "rad":
   * 1, anything else is fatal); any other keyword only warns.
   */
  function UnitsLine(u: Units, line: string, num: Numerals): (r: Result<Units, AsfError>)
    ensures r.Ok? ==> r.value.lengthUnit == u.lengthUnit
    ensures Keyword(line) == "angle" ==>
              var w := ReadWord(AfterKeyword(line), "angle").0;
              && (w == "deg" ==> r == Ok(u.(angleUnit := DegreeUnit)))
              && (w == "rad" ==> r == Ok(u.(angleUnit := 1.0)))
              && (w != "deg" && w != "rad" ==> r == Err(BadAngleUnit(w)))
    ensures Keyword(line) == "mass" ==> r == Ok(u.(massDefault := ReadReal(AfterKeyword(line), u.massDefault, num).0))
    ensures Keyword(line) == "length" ==> r == Ok(u.(lengthDefault := ReadReal(AfterKeyword(line), u.lengthDefault, num).0))
    ensures Keyword(line) != "mass" && Keyword(line) != "length" && Keyword(line) != "angle" ==> r == Ok(u)
    ensures r.Ok? && Keyword(line) != "angle" ==> r.value.angleUnit == u.angleUnit
  {
    var (unit, rest) := ReadWord(line, "");
    if unit == "mass" then Ok(u.(massDefault := ReadReal(rest, u.massDefault, num).0))
    else if unit == "length" then Ok(u.(lengthDefault := ReadReal(rest, u.lengthDefault, num).0))
    else if unit == "angle" then
      var (w, _) := ReadWord(rest, unit);
      if w == "deg" then Ok(u.(angleUnit := DegreeUnit))
      else if w == "rad" then Ok(u.(angleUnit := 1.0))
      else Err(BadAngleUnit(w))
    else Ok(u)
  }

  // ---------------------------------------------------------------------
  // Root section

  /**
   * One line of the root section: `axis` appends the axes its letters
   * spell to the root axis order (it does not replace it), `order` appends
   * the channels it lists, `position` and `orientation` read three numbers
   * each; any other keyword only warns.
   */
  function RootLine(rs: RootSpec, line: string, num: Numerals): (r: Result<RootSpec, AsfError>)
    ensures r.Ok? && AllRotations(rs.axis) ==> AllRotations(r.value.axis)
    ensures r.Ok? ==> rs.axis <= r.value.axis && rs.order <= r.value.order
    ensures Keyword(line) == "axis" ==>
              var letters := AxisLetters(ReadWord(AfterKeyword(line), "").0);
              && (letters.None? ==> r == Err(BadRootAxis))
              && (letters.Some? ==> r == Ok(rs.(axis := rs.axis + letters.value)))
    ensures Keyword(line) == "order" ==>
              var channels := OrderWords(AfterKeyword(line), "");
              && (channels.None? ==> r == Err(BadRootOrder))
              && (channels.Some? ==> r == Ok(rs.(order := rs.order + channels.value)))
    ensures Keyword(line) == "position" ==> r == Ok(rs.(position := ReadVec3(AfterKeyword(line), rs.position, num).0))
    ensures Keyword(line) == "orientation" ==>
              r == Ok(rs.(orientation := ReadVec3(AfterKeyword(line), rs.orientation, num).0))
    ensures (Keyword(line) != "axis" && Keyword(line) != "order" && Keyword(line) != "position" &&
             Keyword(line) != "orientation") ==> r == Ok(rs)
  {
    var (keyword, rest) := ReadWord(line, "");
    if keyword == "axis" then
      match AxisLetters(ReadWord(rest, "").0)
      case None => Err(BadRootAxis)
      case Some(axes) => Ok(rs.(axis := rs.axis + axes))
    else if keyword == "order" then
      match OrderWords(rest, "")
      case None => Err(BadRootOrder)
      case Some(axes) => Ok(rs.(order := rs.order + axes))
    else if keyword == "position" then Ok(rs.(position := ReadVec3(rest, rs.position, num).0))
    else if keyword == "orientation" then Ok(rs.(orientation := ReadVec3(rest, rs.orientation, num).0))
    else Ok(rs)
  }

  // ---------------------------------------------------------------------
  // Bonedata section

  /** Declaring DOFs gives each of them, in turn, the limits (-inf, +inf); other entries stay. */
  function DeclareDofs(dof: map<Axis, Range>, axes: seq<Axis>): (m: map<Axis, Range>)
    ensures m.Keys == dof.Keys + set a | a in axes
    ensures forall a :: a in axes ==> m[a] == Unlimited
    ensures forall a :: a in dof && a !in axes ==> m[a] == dof[a]
    decreases |axes|
  {
    if axes == [] then dof
    else
      var m := DeclareDofs(dof[axes[0] := Unlimited], axes[1..]);
      assert forall a :: a in axes <==> a == axes[0] || a in axes[1..];
      m
  }

  /** A bone line changes neither the tree links nor the transforms. */
  predicate SameLinks(b: Bone, b': Bone) {
    b'.parent == b.parent && b'.firstChild == b.firstChild && b'.nextSibling == b.nextSibling
  }

  /**
   * One line of a bone block other than `limits` and `end`: `id`, `name`,
   * `direction`, `length` set those fields; `axis` reads three angles,
   * scales them by the angle unit and replaces the axis order by the
   * letters that follow; `dof` replaces the DOF order and declares each of
   * its axes unlimited; any other keyword only warns.
   */
  function BoneLine(b: Bone, line: string, angleUnit: real, num: Numerals): (r: Result<Bone, AsfError>)
    ensures r.Ok? ==> SameLinks(b, r.value)
    ensures r.Ok? && AllRotations(b.axisOrder) ==> AllRotations(r.value.axisOrder)
    ensures Keyword(line) == "axis" && r.Ok? ==> AllRotations(r.value.axisOrder)
    ensures Keyword(line) == "dof" && r.Ok? ==>
              forall a :: a in r.value.dofOrder ==> a in r.value.dof && r.value.dof[a] == Unlimited
    ensures Keyword(line) == "id" ==> r == Ok(b.(id := ReadInt(AfterKeyword(line), b.id, num).0))
    ensures Keyword(line) == "name" ==> r == Ok(b.(name := ReadWord(AfterKeyword(line), b.name).0))
    ensures Keyword(line) == "direction" ==> r == Ok(b.(direction := ReadVec3(AfterKeyword(line), b.direction, num).0))
    ensures Keyword(line) == "length" ==> r == Ok(b.(length := ReadReal(AfterKeyword(line), b.length, num).0))
    ensures Keyword(line) == "axis" ==>
              var (v, rest) := ReadVec3(AfterKeyword(line), b.axis, num);
              var letters := AxisLetters(ReadWord(rest, "").0);
              && (letters.None? ==> r == Err(BadBoneAxis(b.name)))
              && (letters.Some? ==> r == Ok(b.(axis := Scale(angleUnit, v), axisOrder := letters.value)))
    ensures Keyword(line) == "dof" ==>
              var axes := DofWords(AfterKeyword(line));
              && (axes.None? ==> r == Err(BadDofAxis(b.name)))
              && (axes.Some? ==> r == Ok(b.(dofOrder := axes.value, dof := DeclareDofs(b.dof, axes.value))))
    ensures (Keyword(line) != "id" && Keyword(line) != "name" && Keyword(line) != "direction" &&
             Keyword(line) != "length" && Keyword(line) != "axis" && Keyword(line) != "dof") ==> r == Ok(b)
  {
    var (keyword, rest) := ReadWord(line, "");
    if keyword == "id" then Ok(b.(id := ReadInt(rest, b.id, num).0))
    else if keyword == "name" then Ok(b.(name := ReadWord(rest, b.name).0))
    else if keyword == "direction" then Ok(b.(direction := ReadVec3(rest, b.direction, num).0))
    else if keyword == "length" then Ok(b.(length := ReadReal(rest, b.length, num).0))
    else if keyword == "axis" then
      var (v, rest') := ReadVec3(rest, b.axis, num);
      match AxisLetters(ReadWord(rest', "").0)
      case None => Err(BadBoneAxis(b.name))
      case Some(axes) => Ok(b.(axis := Scale(angleUnit, v), axisOrder := axes))
    else if keyword == "dof" then
      match DofWords(rest)
      case None => Err(BadDofAxis(b.name))
      case Some(axes) => Ok(b.(dofOrder := axes, dof := DeclareDofs(b.dof, axes)))
    else Ok(b)
  }

  /**
   * Whether a limit line matches: the first one against
   * "limits (%g %g)" (the literal word, any whitespace, then the pair),
   * the others against "(%g %g)".
   */
  function LimitPair(line: string, first: bool, num: Numerals): (r: Option<(real, real)>)
    ensures !first ==> r == num.pair(line)
    ensures first && r.Some? ==> "limits" <= line
    ensures first && "limits" <= line ==> r == num.pair(LTrim(line[6..]))
  {
    if !first then num.pair(line)
    else if |line| >= 6 && line[..6] == "limits" then num.pair(LTrim(line[6..]))
    else None
  }

  /**
   * One limit line, for axis `axis`: the end of input, a ':' line or a
   * line that does not match is fatal; a match stores the pair, unscaled,
   * as the axis's limits.
   */
  function LimitLine(b: Bone, axis: Axis, first: bool, input: seq<string>, num: Numerals): (r: Result<Bone, AsfError>)
    ensures input == [] ==> r == Err(LimitsEof)
    ensures r.Ok? ==> input != [] && !IsSectionLine(input[0]) && LimitPair(input[0], first, num).Some?
    ensures r.Ok? ==> var (lo, hi) := LimitPair(input[0], first, num).value;
                      r.value == b.(dof := b.dof[axis := Range(Fin(lo), Fin(hi))])
  {
    if input == [] then Err(LimitsEof)
    else if IsSectionLine(input[0]) then Err(LimitsSectionEnd)
    else match LimitPair(input[0], first, num)
      case None => Err(LimitsMismatch)
      case Some((lo, hi)) => Ok(b.(dof := b.dof[axis := Range(Fin(lo), Fin(hi))]))
  }

  /** The limit lines of a bone: one limit line per axis of `axes`, in order. */
  function LimitLines(b: Bone, axes: seq<Axis>, first: bool, input: seq<string>, num: Numerals)
    : (r: Result<(Bone, seq<string>), AsfError>)
    ensures r.Ok? ==> |axes| <= |input| && r.value.1 == input[|axes|..]
    ensures r.Ok? ==> r.value.0 == b.(dof := r.value.0.dof)
    decreases axes
  {
    if axes == [] then Ok((b, input))
    else
      match LimitLine(b, axes[0], first, input, num)
      case Err(e) => Err(e)
      case Ok(b') => LimitLines(b', axes[1..], false, input[1..], num)
  }

  /**
   * Reading limits needs a line per axis, none of them a ':' line; it
   * gives every listed axis limits and leaves the other axes' as they were.
   */
  lemma {:induction false} LimitLinesDof(b: Bone, axes: seq<Axis>, first: bool, input: seq<string>, num: Numerals)
    ensures |input| < |axes| ==> LimitLines(b, axes, first, input, num).Err?
    ensures var r := LimitLines(b, axes, first, input, num);
            r.Ok? ==> forall k :: 0 <= k < |axes| ==> !IsSectionLine(input[k])
    ensures var r := LimitLines(b, axes, first, input, num);
            r.Ok? ==> r.value.0.dof.Keys == b.dof.Keys + set a | a in axes
    ensures var r := LimitLines(b, axes, first, input, num);
            r.Ok? ==> forall a :: a in b.dof && a !in axes ==> a in r.value.0.dof && r.value.0.dof[a] == b.dof[a]
    decreases axes
  {
    if axes != [] && LimitLine(b, axes[0], first, input, num).Ok? {
      var b' := LimitLine(b, axes[0], first, input, num).value;
      LimitLinesDof(b', axes[1..], false, input[1..], num);
      var r := LimitLines(b, axes, first, input, num);
      if r.Ok? {
        assert r == LimitLines(b', axes[1..], false, input[1..], num);
        assert (set a | a in axes) == {axes[0]} + set a | a in axes[1..];
        assert forall k :: 1 <= k < |axes| ==> input[k] == input[1..][k - 1];
      }
    }
  }

  /**
   * Each axis's limits are the pair of its own line, the first line read
   * with the "limits" prefix; an axis listed twice keeps its last pair.
   */
  lemma {:induction false} LimitLinesStore(b: Bone, axes: seq<Axis>, first: bool, input: seq<string>, num: Numerals, k: nat)
    requires LimitLines(b, axes, first, input, num).Ok?
    requires k < |axes| && axes[k] !in axes[k + 1..]
    ensures k < |input| && LimitPair(input[k], first && k == 0, num).Some?
    ensures var (lo, hi) := LimitPair(input[k], first && k == 0, num).value;
            var dof := LimitLines(b, axes, first, input, num).value.0.dof;
            axes[k] in dof && dof[axes[k]] == Range(Fin(lo), Fin(hi))
    decreases axes
  {
    var b' := LimitLine(b, axes[0], first, input, num).value;
    assert LimitLines(b, axes, first, input, num) == LimitLines(b', axes[1..], false, input[1..], num);
    LimitLinesDof(b', axes[1..], false, input[1..], num);
    if k == 0 {
      assert axes[1..] == axes[k + 1..];
    } else {
      LimitLinesStore(b', axes[1..], false, input[1..], num, k - 1);
      assert axes[1..][k - 1] == axes[k] && axes[1..][k - 1 + 1..] == axes[k + 1..];
      assert input[1..][k - 1] == input[k];
    }
  }

  /** `rest` is what is left of `input` after some lines were read from its front. */
  predicate Suffix(rest: seq<string>, input: seq<string>)
    decreases |input|
  {
    |rest| <= |input| && (rest == input || (input != [] && Suffix(rest, input[1..])))
  }

  /** A suffix is exactly the lines of `input` from some index on. */
  lemma {:induction false} SuffixIsDrop(rest: seq<string>, input: seq<string>)
    ensures Suffix(rest, input) <==> |rest| <= |input| && rest == input[|input| - |rest|..]
    decreases |input|
  {
    if input != [] && |rest| < |input| {
      SuffixIsDrop(rest, input[1..]);
      assert input[1..][|input| - 1 - |rest|..] == input[|input| - |rest|..];
    }
  }

  /** What is left of the lines after the first `k` is what is left of all of them. */
  lemma {:induction false} SuffixDrop(rest: seq<string>, input: seq<string>, k: nat)
    requires k <= |input| && Suffix(rest, input[k..])
    ensures Suffix(rest, input)
    decreases k
  {
    if k == 0 {
      assert input[0..] == input;
    } else {
      assert input[1..][k - 1..] == input[k..];
      SuffixDrop(rest, input[1..], k - 1);
    }
  }

  lemma {:induction false} SuffixTrans(a: seq<string>, b: seq<string>, c: seq<string>)
    requires Suffix(a, b) && Suffix(b, c)
    ensures Suffix(a, c)
    decreases |c|
  {
    if b != c {
      SuffixTrans(a, b, c[1..]);
    }
  }

  /**
   * The lines of one bone block after its `begin`, up to and including
   * `end`. A `limits` line is itself the first of the limit lines (the
   * reader pushes it back before reading them); with no DOF declared the
   * C++ reader offers that line to itself forever, which this model
   * reports as LimitsWithoutDof. The end of input or a ':' line before
   * `end` is fatal.
   */
  function BoneBlock(b: Bone, input: seq<string>, angleUnit: real, num: Numerals)
    : (r: Result<(Bone, seq<string>), AsfError>)
    ensures r.Ok? ==> Suffix(r.value.1, input) && |r.value.1| < |input|
    ensures r.Ok? ==> input[|input| - |r.value.1| - 1] == "end"
    ensures r.Ok? ==> SameLinks(b, r.value.0)
    ensures r.Ok? && AllRotations(b.axisOrder) ==> AllRotations(r.value.0.axisOrder)
    ensures (input == [] || IsSectionLine(input[0])) ==> r == Err(EarlyEndOfBone(b.name))
    ensures r.Ok? ==> forall k :: 0 <= k < |input| - |r.value.1| ==> !IsSectionLine(input[k])
    decreases |input|
  {
    if input == [] || IsSectionLine(input[0]) then Err(EarlyEndOfBone(b.name))
    else if input[0] == "end" then Ok((b, input[1..]))
    else
      match BlockLine(b, input, angleUnit, num)
      case Err(e) => Err(e)
      case Ok((b', rest)) =>
        var r := BoneBlock(b', rest, angleUnit, num);
        if r.Ok? then
          SuffixTrans(r.value.1, rest, input);
          SuffixIsDrop(rest, input);
          assert forall k :: |input| - |rest| <= k < |input| ==> input[k] == rest[k - (|input| - |rest|)];
          r
        else r
  }

  /**
   * One round of a bone block, at a line other than `end`: a `limits`
   * line starts the limit lines, any other line is a bone line.
   */
  function BlockLine(b: Bone, input: seq<string>, angleUnit: real, num: Numerals)
    : (r: Result<(Bone, seq<string>), AsfError>)
    requires input != []
    ensures r.Ok? ==> Suffix(r.value.1, input) && |r.value.1| < |input|
    ensures r.Ok? ==> SameLinks(b, r.value.0)
    ensures r.Ok? && AllRotations(b.axisOrder) ==> AllRotations(r.value.0.axisOrder)
    ensures r.Ok? ==> forall k :: 1 <= k < |input| - |r.value.1| ==> !IsSectionLine(input[k])
  {
    if Keyword(input[0]) == "limits" then
      if b.dofOrder == [] then Err(LimitsWithoutDof(b.name))
      else
        var r := LimitLines(b, b.dofOrder, true, input, num);
        LimitLinesDof(b, b.dofOrder, true, input, num);
        if r.Ok? then SuffixDrop(r.value.1, input, |b.dofOrder|); r else r
    else
      match BoneLine(b, input[0], angleUnit, num)
      case Err(e) => Err(e)
      case Ok(b') => SuffixDrop(input[1..], input, 1); Ok((b', input[1..]))
  }

  /** The bone a block starts from: axis order from the root, the default length. */
  function BlockStart(sk: Skeleton): (b: Bone)
    ensures Unlinked(b) && b.id == 0 && b.name == "" && b.dofOrder == [] && b.dof == map[]
    ensures b.axisOrder == sk.rootSpec.axis && b.length == sk.units.lengthDefault
  {
    NewBone().(axisOrder := sk.rootSpec.axis, length := sk.units.lengthDefault)
  }

  /** The parts of a skeleton other than its bones. */
  predicate SameSettings(sk: Skeleton, sk': Skeleton) {
    sk'.rootSpec == sk.rootSpec && sk'.root == sk.root && sk'.units == sk.units
  }

  /**
   * The bones of the `begin ... end` blocks at the front of `input`, one
   * per block and in order, up to the end of input or the next ':' line;
   * each is filled in from `start`.
   */
  function Blocks(start: Bone, angleUnit: real, input: seq<string>, num: Numerals)
    : Result<(seq<Bone>, seq<string>), AsfError>
    decreases |input|
  {
    if input == [] || IsSectionLine(input[0]) then Ok(([], input))
    else
      match BonedataBlock(start, angleUnit, input, num)
      case Err(e) => Err(e)
      case Ok((b, rest)) =>
        match Blocks(start, angleUnit, rest, num)
        case Err(e) => Err(e)
        case Ok((bs, rest')) => Ok(([b] + bs, rest'))
  }

  /**
   * The bonedata section: `begin ... end` blocks up to the end of input or
   * the next ':' line, each appending one bone; a line other than `begin`
   * where a block should start is fatal.
   */
  function BonedataSection(sk: Skeleton, input: seq<string>, num: Numerals)
    : (r: Result<(Skeleton, seq<string>), AsfError>)
    ensures r.Ok? ==> SameSettings(sk, r.value.0)
    ensures r.Ok? ==> Suffix(r.value.1, input) && (r.value.1 == [] || IsSectionLine(r.value.1[0]))
    ensures r.Ok? ==> sk.bones <= r.value.0.bones && sk.kids <= r.value.0.kids
    ensures r.Ok? ==> |r.value.0.kids| - |sk.kids| == |r.value.0.bones| - |sk.bones|
    ensures r.Ok? ==> forall i :: |sk.kids| <= i < |r.value.0.kids| ==> r.value.0.kids[i] == []
    ensures r.Ok? ==> 2 * (|r.value.0.bones| - |sk.bones|) <= |input| - |r.value.1|
    decreases |input|
  {
    if input == [] || IsSectionLine(input[0]) then Ok((sk, input))
    else
      match BonedataBlock(BlockStart(sk), sk.units.angleUnit, input, num)
      case Err(e) => Err(e)
      case Ok((b, rest)) =>
        var r := BonedataSection(sk.(bones := sk.bones + [b], kids := sk.kids + [[]]), rest, num);
        if r.Ok? then
          SuffixTrans(r.value.1, rest, input);
          r
        else r
  }

  /**
   * The bonedata section appends to the skeleton exactly the bones its
   * blocks describe, in order, each filled in from the same template, and
   * fails with the first block's error.
   */
  lemma {:induction false} BonedataBlocks(sk: Skeleton, input: seq<string>, num: Numerals)
    ensures var (r, blocks) := (BonedataSection(sk, input, num), Blocks(BlockStart(sk), sk.units.angleUnit, input, num));
            && (r.Ok? <==> blocks.Ok?)
            && (r.Err? ==> r == Err(blocks.error))
            && (r.Ok? ==> r.value.0.bones == sk.bones + blocks.value.0 && r.value.1 == blocks.value.1)
    decreases |input|
  {
    if input != [] && !IsSectionLine(input[0]) {
      match BonedataBlock(BlockStart(sk), sk.units.angleUnit, input, num)
      case Err(e) =>
      case Ok((b, rest)) =>
        var sk' := sk.(bones := sk.bones + [b], kids := sk.kids + [[]]);
        assert BlockStart(sk') == BlockStart(sk);
        BonedataBlocks(sk', rest, num);
        var blocks := Blocks(BlockStart(sk), sk.units.angleUnit, rest, num);
        if blocks.Ok? {
          assert sk.bones + [b] + blocks.value.0 == sk.bones + ([b] + blocks.value.0);
        }
    }
  }

  /**
   * One round of the bonedata section: a `begin` line, then the block
   * that fills in the bone `start`. A line other than `begin` is fatal.
   */
  function BonedataBlock(start: Bone, angleUnit: real, input: seq<string>, num: Numerals)
    : (r: Result<(Bone, seq<string>), AsfError>)
    requires input != []
    ensures input[0] != "begin" ==> r == Err(ExpectedBegin(input[0]))
    ensures r.Ok? ==> Suffix(r.value.1, input) && |r.value.1| + 2 <= |input|
    ensures r.Ok? ==> SameLinks(start, r.value.0)
    ensures r.Ok? && AllRotations(start.axisOrder) ==> AllRotations(r.value.0.axisOrder)
  {
    if input[0] != "begin" then Err(ExpectedBegin(input[0]))
    else
      var r := BoneBlock(start, input[1..], angleUnit, num);
      if r.Ok? then SuffixDrop(r.value.1, input, 1); r else r
  }

  /** The bones a bonedata section appends are parentless and childless, so the skeleton stays well formed. */
  lemma {:induction false} BonedataWellFormed(sk: Skeleton, input: seq<string>, num: Numerals)
    requires WellFormed(sk)
    ensures BonedataSection(sk, input, num).Ok? ==> WellFormed(BonedataSection(sk, input, num).value.0)
    decreases |input|
  {
    if input != [] && !IsSectionLine(input[0]) {
      match BonedataBlock(BlockStart(sk), sk.units.angleUnit, input, num)
      case Err(_) =>
      case Ok((b, rest)) =>
        PushKeepsLinked(sk.bones, sk.kids, b);
        BonedataWellFormed(sk.(bones := sk.bones + [b], kids := sk.kids + [[]]), rest, num);
    }
  }

  /** The units after applying UnitsLine to each of `lines` in turn; the first fatal line stops it. */
  function UnitsFold(u: Units, lines: seq<string>, num: Numerals): Result<Units, AsfError>
    decreases |lines|
  {
    if lines == [] then Ok(u)
    else
      match UnitsLine(u, lines[0], num)
      case Err(e) => Err(e)
      case Ok(u') => UnitsFold(u', lines[1..], num)
  }

  /**
   * The units section: one UnitsLine per line up to the end of input or
   * the next ':' line, which it leaves unread.
   */
  function UnitsSection(u: Units, input: seq<string>, num: Numerals)
    : (r: Result<(Units, seq<string>), AsfError>)
    ensures r.Ok? ==> Suffix(r.value.1, input) && (r.value.1 == [] || IsSectionLine(r.value.1[0]))
    ensures r.Ok? ==> r.value.0.lengthUnit == u.lengthUnit
    ensures r == match UnitsFold(u, input[..SectionEnd(input, 0)], num)
                 case Err(e) => Err(e)
                 case Ok(u') => Ok((u', input[SectionEnd(input, 0)..]))
    decreases |input|
  {
    if input == [] || IsSectionLine(input[0]) then
      assert input[..0] == [] && input[0..] == input;
      Ok((u, input))
    else
      SectionEndStep(input);
      match UnitsLine(u, input[0], num)
      case Err(e) => Err(e)
      case Ok(u') =>
        var r := UnitsSection(u', input[1..], num);
        r
  }

  /** The root specification after applying RootLine to each of `lines` in turn; the first fatal line stops it. */
  function RootFold(rs: RootSpec, lines: seq<string>, num: Numerals): Result<RootSpec, AsfError>
    decreases |lines|
  {
    if lines == [] then Ok(rs)
    else
      match RootLine(rs, lines[0], num)
      case Err(e) => Err(e)
      case Ok(rs') => RootFold(rs', lines[1..], num)
  }

  /**
   * The lines of a root section: one RootLine each up to the end of input
   * or the next ':' line, which it leaves unread.
   */
  function RootLines(rs: RootSpec, input: seq<string>, num: Numerals)
    : (r: Result<(RootSpec, seq<string>), AsfError>)
    ensures r.Ok? ==> Suffix(r.value.1, input) && (r.value.1 == [] || IsSectionLine(r.value.1[0]))
    ensures r.Ok? && AllRotations(rs.axis) ==> AllRotations(r.value.0.axis)
    ensures r == match RootFold(rs, input[..SectionEnd(input, 0)], num)
                 case Err(e) => Err(e)
                 case Ok(rs') => Ok((rs', input[SectionEnd(input, 0)..]))
    decreases |input|
  {
    if input == [] || IsSectionLine(input[0]) then
      assert input[..0] == [] && input[0..] == input;
      Ok((rs, input))
    else
      SectionEndStep(input);
      match RootLine(rs, input[0], num)
      case Err(e) => Err(e)
      case Ok(rs') =>
        var r := RootLines(rs', input[1..], num);
        r
  }

  /** The bone a root section appends: id 0, name "root", the root orientation as its direction. */
  function RootBone(rs: RootSpec): (b: Bone)
    ensures Unlinked(b) && b.id == 0 && b.name == "root" && b.direction == rs.orientation
    ensures b.axisOrder == [] && b.dofOrder == []
  {
    NewBone().(name := "root", direction := rs.orientation)
  }

  /**
   * The root section: fatal if a root was read before; otherwise its
   * lines set the root specification and one root bone is appended, whose
   * index becomes the root index.
   */
  function RootSection(sk: Skeleton, input: seq<string>, num: Numerals)
    : (r: Result<(Skeleton, seq<string>), AsfError>)
    ensures sk.root >= 0 ==> r == Err(RootRedefined)
    ensures r.Ok? ==> Suffix(r.value.1, input) && (r.value.1 == [] || IsSectionLine(r.value.1[0]))
    ensures r.Ok? ==>
              && r.value.0.bones == sk.bones + [RootBone(r.value.0.rootSpec)]
              && r.value.0.kids == sk.kids + [[]]
              && r.value.0.root == |sk.bones|
              && r.value.0.units == sk.units
  {
    if sk.root >= 0 then Err(RootRedefined)
    else
      match RootLines(sk.rootSpec, input, num)
      case Err(e) => Err(e)
      case Ok((rs, rest)) =>
        Ok((sk.(rootSpec := rs, bones := sk.bones + [RootBone(rs)], kids := sk.kids + [[]], root := |sk.bones|), rest))
  }

  /** A root section appends a parentless, childless bone and sets a root within range. */
  lemma RootSectionWellFormed(sk: Skeleton, input: seq<string>, num: Numerals)
    requires WellFormed(sk)
    ensures RootSection(sk, input, num).Ok? ==> WellFormed(RootSection(sk, input, num).value.0)
  {
    var r := RootSection(sk, input, num);
    if r.Ok? {
      PushKeepsLinked(sk.bones, sk.kids, RootBone(r.value.0.rootSpec));
    }
  }

  // ---------------------------------------------------------------------
  // Hierarchy

  /** The index of the first bone called `name`, None (fatal to the caller) when there is none. */
  function FindBone(bones: seq<Bone>, name: string): (r: Option<nat>)
    ensures r.Some? ==> r.value < |bones| && bones[r.value].name == name
    ensures r.Some? ==> forall j :: 0 <= j < r.value ==> bones[j].name != name
    ensures r.None? ==> forall j :: 0 <= j < |bones| ==> bones[j].name != name
  {
    if bones == [] then None
    else if bones[0].name == name then Some(0)
    else
      match FindBone(bones[1..], name)
      case None => None
      case Some(i) => Some(i + 1)
  }

  /** `b'` differs from `b` at most in its tree links. */
  predicate SameStatics(b: Bone, b': Bone) {
    b' == b.(parent := b'.parent, firstChild := b'.firstChild, nextSibling := b'.nextSibling)
  }

  /** `bones'` is `bones` relinked: same bones apart from links, and no parent once set is changed. */
  predicate Relinks(bones: seq<Bone>, bones': seq<Bone>) {
    && |bones'| == |bones|
    && (forall i :: 0 <= i < |bones| ==> SameStatics(bones[i], bones'[i]))
    && (forall i :: 0 <= i < |bones| && bones[i].parent >= 0 ==> bones'[i].parent == bones[i].parent)
  }

  lemma RelinksTrans(a: seq<Bone>, b: seq<Bone>, c: seq<Bone>)
    requires Relinks(a, b) && Relinks(b, c)
    ensures Relinks(a, c)
  {
    forall i | 0 <= i < |a| ensures SameStatics(a[i], c[i]) {
      assert SameStatics(a[i], b[i]) && SameStatics(b[i], c[i]);
    }
  }

  /** Every children list of `kids'` extends the one in `kids`. */
  predicate Grows(kids: seq<seq<int>>, kids': seq<seq<int>>) {
    |kids'| == |kids| && forall q :: 0 <= q < |kids| ==> kids[q] <= kids'[q]
  }

  lemma GrowsTrans(a: seq<seq<int>>, b: seq<seq<int>>, c: seq<seq<int>>)
    requires Grows(a, b) && Grows(b, c)
    ensures Grows(a, c)
  {
  }

  /**
   * A link field a child index can be written to, as the hierarchy
   * reader's `child_pointer` designates one: a bone's `first_child` or its
   * `next_sibling`.
   */
  datatype Slot = FirstChildOf(b: int) | NextSiblingOf(b: int)

  function SlotValue(bones: seq<Bone>, s: Slot): int
    requires 0 <= s.b < |bones|
  {
    if s.FirstChildOf? then bones[s.b].firstChild else bones[s.b].nextSibling
  }

  function WriteSlot(bones: seq<Bone>, s: Slot, v: int): (r: seq<Bone>)
    requires 0 <= s.b < |bones|
    ensures |r| == |bones| && SlotValue(r, s) == v
  {
    if s.FirstChildOf? then bones[s.b := bones[s.b].(firstChild := v)]
    else bones[s.b := bones[s.b].(nextSibling := v)]
  }

  /** The link at the end of `p`'s sibling chain: its `first_child` when it has no children, else its last child's `next_sibling`. */
  function TailSlot(kids: seq<seq<int>>, p: nat): Slot
    requires p < |kids|
  {
    if kids[p] == [] then FirstChildOf(p) else NextSiblingOf(kids[p][|kids[p]| - 1])
  }

  /** The tail slot of a bone holds -1: following the chain from it leads nowhere. */
  lemma TailSlotEmpty(bones: seq<Bone>, kids: seq<seq<int>>, p: nat)
    requires Linked(bones, kids) && p < |bones|
    ensures 0 <= TailSlot(kids, p).b < |bones| && SlotValue(bones, TailSlot(kids, p)) == -1
  {
    assert HeadLinked(bones, kids, p);
    if kids[p] != [] { assert ChildLinked(bones, kids, p, |kids[p]| - 1); }
  }

  /**
   * Linking parentless bone `c` as the last child of `p`: `c` gets parent
   * `p`, and the tail slot of `p`'s sibling chain is set to `c`.
   */
  function AppendChild(bones: seq<Bone>, kids: seq<seq<int>>, p: nat, c: nat): (r: seq<Bone>)
    requires Linked(bones, kids) && p < |bones| && c < |bones| && bones[c].parent == -1
    ensures Linked(r, kids[p := kids[p] + [c]])
    ensures Relinks(bones, r) && r[c].parent == p
    ensures forall i :: 0 <= i < |bones| && i != c ==> r[i].parent == bones[i].parent
  {
    TailSlotEmpty(bones, kids, p);
    var r := WriteSlot(bones[c := bones[c].(parent := p)], TailSlot(kids, p), c);
    AppendChildLinked(bones, kids, p, c);
    r
  }

  /** The links after AppendChild spell out `p`'s children list with `c` at its end. */
  lemma AppendChildLinked(bones: seq<Bone>, kids: seq<seq<int>>, p: nat, c: nat)
    requires Linked(bones, kids) && p < |bones| && c < |bones| && bones[c].parent == -1
    ensures 0 <= TailSlot(kids, p).b < |bones|
    ensures Linked(WriteSlot(bones[c := bones[c].(parent := p)], TailSlot(kids, p), c), kids[p := kids[p] + [c]])
  {
    TailSlotEmpty(bones, kids, p);
    var ks := kids[p := kids[p] + [c]];
    var bs1 := bones[c := bones[c].(parent := p)];
    var n := |kids[p]|;
    assert n > 0 ==> ChildLinked(bones, kids, p, n - 1);
    var bs2 := WriteSlot(bs1, TailSlot(kids, p), c);
    if n > 0 {
      forall k | 0 <= k < n - 1 ensures kids[p][k] != kids[p][n - 1] {
        assert ChildLinked(bones, kids, p, k);
        assert ChildLinked(bones, kids, p, k + 1);
      }
    }
    assert OrphanUnchained(bones, c);
    forall q | 0 <= q < |bs2| ensures HeadLinked(bs2, ks, q) {
      assert HeadLinked(bones, kids, q);
      if q == p && n > 0 { assert ks[p][0] == kids[p][0]; }
    }
    forall q, k | 0 <= q < |bs2| && 0 <= k < |ks[q]| ensures ChildLinked(bs2, ks, q, k) {
      if q != p || k < n {
        assert ChildLinked(bones, kids, q, k);
        if q == p && k + 1 < n { assert ks[p][k + 1] == kids[p][k + 1]; }
      }
    }
    forall i | 0 <= i < |bs2| ensures OrphanUnchained(bs2, i) {
      assert OrphanUnchained(bones, i);
      if n > 0 && i == kids[p][n - 1] { assert ChildLinked(bones, kids, p, n - 1); }
    }
  }

  /** Bones with the same names are found at the same index. */
  lemma FindBoneSameNames(b1: seq<Bone>, b2: seq<Bone>, name: string)
    requires |b1| == |b2| && forall i :: 0 <= i < |b1| ==> b1[i].name == b2[i].name
    ensures FindBone(b1, name) == FindBone(b2, name)
  {
  }

  /**
   * The error the child names of a hierarchy line raise, if any: the
   * first name no bone has, or whose bone already has a parent other than
   * `p`. While a line is read a parent only ever goes from none to `p`,
   * so the bones as they were before the line decide this.
   */
  function ChildError(bones: seq<Bone>, p: nat, names: seq<string>): Option<AsfError>
    decreases |names|
  {
    if names == [] then None
    else
      match FindBone(bones, names[0])
      case None => Some(UnknownBone(names[0]))
      case Some(c) =>
        if bones[c].parent >= 0 && bones[c].parent != p then Some(MultipleParents(names[0]))
        else ChildError(bones, p, names[1..])
  }

  /**
   * The bones a hierarchy line adopts as new children of `p`, in the
   * order their names first appear: the named bones that had no parent.
   * A name seen again adds nothing, like one whose bone already has
   * parent `p`.
   */
  function Adoptees(bones: seq<Bone>, p: nat, names: seq<string>): seq<nat>
    decreases |names|
  {
    if names == [] then []
    else
      match FindBone(bones, names[0])
      case None => []
      case Some(c) =>
        if bones[c].parent == -1 then [c] + Adoptees(bones[c := bones[c].(parent := p)], p, names[1..])
        else Adoptees(bones, p, names[1..])
  }

  /** ChildError and Adoptees look only at the bones' names and parents. */
  lemma {:induction false} NamesParentsAgree(b1: seq<Bone>, b2: seq<Bone>, p: nat, names: seq<string>)
    requires |b1| == |b2|
    requires forall i :: 0 <= i < |b1| ==> b1[i].name == b2[i].name && b1[i].parent == b2[i].parent
    ensures ChildError(b1, p, names) == ChildError(b2, p, names)
    ensures Adoptees(b1, p, names) == Adoptees(b2, p, names)
    decreases |names|
  {
    if names != [] {
      FindBoneSameNames(b1, b2, names[0]);
      match FindBone(b1, names[0])
      case None =>
      case Some(c) =>
        NamesParentsAgree(b1, b2, p, names[1..]);
        NamesParentsAgree(b1[c := b1[c].(parent := p)], b2[c := b2[c].(parent := p)], p, names[1..]);
    }
  }

  /** Giving a parentless bone the parent `p` does not change which error the names raise. */
  lemma {:induction false} ChildErrorAdopt(bones: seq<Bone>, p: nat, names: seq<string>, c: nat)
    requires c < |bones| && bones[c].parent == -1
    ensures ChildError(bones[c := bones[c].(parent := p)], p, names) == ChildError(bones, p, names)
    decreases |names|
  {
    if names != [] {
      FindBoneSameNames(bones[c := bones[c].(parent := p)], bones, names[0]);
      ChildErrorAdopt(bones, p, names[1..], c);
    }
  }

  /**
   * The child names after a parent on one hierarchy line, read one by one
   * into the variable holding `prev` until the line's stream reports eof.
   * An unknown name is fatal, as is a child with another parent; a child
   * that already has this parent is left as it is, and a parentless one
   * is linked as `p`'s last child.
   */
  function LinkChildren(bones: seq<Bone>, kids: seq<seq<int>>, p: nat, rest: string, prev: string)
    : (r: Result<(seq<Bone>, seq<seq<int>>), AsfError>)
    requires Linked(bones, kids) && p < |bones|
    ensures r.Ok? ==> Linked(r.value.0, r.value.1) && Relinks(bones, r.value.0)
    ensures r.Ok? ==> |r.value.1| == |kids| && kids[p] <= r.value.1[p]
    ensures r.Ok? ==> forall q :: 0 <= q < |kids| && q != p ==> r.value.1[q] == kids[q]
    decreases |rest|
  {
    if Eof(rest) then Ok((bones, kids))
    else
      var (name, rest') := ReadWord(rest, prev);
      match FindBone(bones, name)
      case None => Err(UnknownBone(name))
      case Some(c) =>
        if bones[c].parent >= 0 then
          if bones[c].parent != p then Err(MultipleParents(name))
          else LinkChildren(bones, kids, p, rest', name)
        else
          assert OrphanUnchained(bones, c);
          LinkChildren(AppendChild(bones, kids, p, c), kids[p := kids[p] + [c]], p, rest', name)
  }

  /**
   * What one hierarchy line's child names do: the first name that is not
   * a bone, or that names a bone with another parent, is the error the
   * line raises; with no such name, `p`'s children grow by exactly the
   * parentless bones named, in order of first mention.
   */
  lemma {:induction false} LinkChildrenOutcome(bones: seq<Bone>, kids: seq<seq<int>>, p: nat, rest: string, prev: string)
    requires Linked(bones, kids) && p < |bones|
    ensures var (r, names) := (LinkChildren(bones, kids, p, rest, prev), LoopWords(rest, prev, true));
            && (ChildError(bones, p, names).Some? ==> r == Err(ChildError(bones, p, names).value))
            && (ChildError(bones, p, names).None? ==> r.Ok? && r.value.1[p] == kids[p] + Adoptees(bones, p, names))
    decreases |rest|
  {
    if Eof(rest) {
      assert kids[p] + [] == kids[p];
    } else {
      var (name, rest') := ReadWord(rest, prev);
      assert LoopWords(rest, prev, true) == [name] + LoopWords(rest', name, true);
      match FindBone(bones, name)
      case None =>
      case Some(c) =>
        if bones[c].parent >= 0 {
          LinkChildrenOutcome(bones, kids, p, rest', name);
        } else {
          assert OrphanUnchained(bones, c);
          var bones' := AppendChild(bones, kids, p, c);
          var kids' := kids[p := kids[p] + [c]];
          var names' := LoopWords(rest', name, true);
          LinkChildrenAdopts(bones, kids, p, rest, prev, c);
          AdoptFirst(bones, kids, p, rest, prev, c);
          LinkChildrenOutcome(bones', kids', p, rest', name);
          AdoptCombine(LinkChildren(bones', kids', p, rest', name), p, kids[p], c,
                       ChildError(bones, p, LoopWords(rest, prev, true)), ChildError(bones', p, names'),
                       Adoptees(bones, p, LoopWords(rest, prev, true)), Adoptees(bones', p, names'));
        }
    }
  }

  /** A name that adopts the parentless bone `c`: the loop goes on with the bones and lists after the adoption. */
  lemma LinkChildrenAdopts(bones: seq<Bone>, kids: seq<seq<int>>, p: nat, rest: string, prev: string, c: nat)
    requires Linked(bones, kids) && p < |bones| && !Eof(rest)
    requires FindBone(bones, ReadWord(rest, prev).0) == Some(c) && bones[c].parent == -1
    ensures LinkChildren(bones, kids, p, rest, prev)
            == LinkChildren(AppendChild(bones, kids, p, c), kids[p := kids[p] + [c]], p, ReadWord(rest, prev).1, ReadWord(rest, prev).0)
  {
  }

  /** A first name that adopts the parentless bone `c`: the rest of the names are judged against the bones after the adoption. */
  lemma AdoptFirst(bones: seq<Bone>, kids: seq<seq<int>>, p: nat, rest: string, prev: string, c: nat)
    requires Linked(bones, kids) && p < |bones| && !Eof(rest)
    requires FindBone(bones, ReadWord(rest, prev).0) == Some(c) && bones[c].parent == -1
    ensures var (name, rest') := ReadWord(rest, prev);
            var (bones', names, names') := (AppendChild(bones, kids, p, c), LoopWords(rest, prev, true), LoopWords(rest', name, true));
            && ChildError(bones, p, names) == ChildError(bones', p, names')
            && Adoptees(bones, p, names) == [c] + Adoptees(bones', p, names')
  {
    var (name, rest') := ReadWord(rest, prev);
    var names' := LoopWords(rest', name, true);
    assert LoopWords(rest, prev, true) == [name] + names';
    NamesParentsAgree(AppendChild(bones, kids, p, c), bones[c := bones[c].(parent := p)], p, names');
    ChildErrorAdopt(bones, p, names', c);
  }

  /** The outcome after an adoption, carried back to the line: `c` goes in front of the later adoptees. */
  lemma AdoptCombine(r: Result<(seq<Bone>, seq<seq<int>>), AsfError>, p: nat, kp: seq<int>, c: nat,
                     ce: Option<AsfError>, ce': Option<AsfError>, ad: seq<nat>, ad': seq<nat>)
    requires ce == ce' && ad == [c] + ad'
    requires ce'.Some? ==> r == Err(ce'.value)
    requires ce'.None? ==> r.Ok? && p < |r.value.1| && r.value.1[p] == (kp + [c]) + ad'
    ensures ce.Some? ==> r == Err(ce.value)
    ensures ce.None? ==> r.Ok? && p < |r.value.1| && r.value.1[p] == kp + ad
  {
    if ce.None? {
      assert (kp + [c]) + ad' == kp + ([c] + ad');
    }
  }

  /**
   * The children a hierarchy line adds to `p`'s list are bones that had
   * no parent before: a bone is never moved from one parent to another.
   */
  lemma {:induction false} LinkChildrenOrphans(bones: seq<Bone>, kids: seq<seq<int>>, p: nat, rest: string, prev: string)
    requires Linked(bones, kids) && p < |bones|
    ensures var r := LinkChildren(bones, kids, p, rest, prev);
            r.Ok? ==> forall k :: |kids[p]| <= k < |r.value.1[p]| ==>
                        0 <= r.value.1[p][k] < |bones| && bones[r.value.1[p][k]].parent == -1
    decreases |rest|
  {
    if !Eof(rest) {
      var (name, rest') := ReadWord(rest, prev);
      match FindBone(bones, name)
      case None =>
      case Some(c) =>
        if bones[c].parent >= 0 {
          if bones[c].parent == p {
            LinkChildrenOrphans(bones, kids, p, rest', name);
          }
        } else {
          assert OrphanUnchained(bones, c);
          var bones' := AppendChild(bones, kids, p, c);
          var kids' := kids[p := kids[p] + [c]];
          LinkChildrenOrphans(bones', kids', p, rest', name);
          var r := LinkChildren(bones, kids, p, rest, prev);
          if r.Ok? {
            forall k | |kids[p]| <= k < |r.value.1[p]|
              ensures 0 <= r.value.1[p][k] < |bones| && bones[r.value.1[p][k]].parent == -1
            {
              if k > |kids[p]| {
                assert OrphanUnchained(bones, r.value.1[p][k]);
              }
            }
          }
        }
    }
  }

  /**
   * One hierarchy line other than `end`: its first word names the parent,
   * the words after it its children. An unknown parent is fatal.
   */
  function HierarchyLine(bones: seq<Bone>, kids: seq<seq<int>>, line: string)
    : (r: Result<(seq<Bone>, seq<seq<int>>), AsfError>)
    requires Linked(bones, kids)
    ensures r.Ok? ==> Linked(r.value.0, r.value.1) && Relinks(bones, r.value.0) && Grows(kids, r.value.1)
    ensures FindBone(bones, Keyword(line)).None? ==> r == Err(UnknownBone(Keyword(line)))
    ensures FindBone(bones, Keyword(line)).Some? ==>
              var p := FindBone(bones, Keyword(line)).value;
              var names := LoopWords(AfterKeyword(line), Keyword(line), true);
              && (ChildError(bones, p, names).Some? ==> r == Err(ChildError(bones, p, names).value))
              && (ChildError(bones, p, names).None? ==> r.Ok? && r.value.1 == kids[p := kids[p] + Adoptees(bones, p, names)])
  {
    var (name, rest) := ReadWord(line, "");
    match FindBone(bones, name)
    case None => Err(UnknownBone(name))
    case Some(p) =>
      LinkChildrenOutcome(bones, kids, p, rest, name);
      var r := LinkChildren(bones, kids, p, rest, name);
      if r.Ok? && ChildError(bones, p, LoopWords(rest, name, true)).None? then
        assert r.value.1 == kids[p := kids[p] + Adoptees(bones, p, LoopWords(rest, name, true))];
        r
      else r
  }

  /**
   * The lines of a hierarchy section after `begin`, up to `end` (consumed)
   * or the end of input, which is accepted. A ':' line is not special
   * here: its first word is looked up as a bone name.
   */
  function HierarchyLines(bones: seq<Bone>, kids: seq<seq<int>>, input: seq<string>)
    : (r: Result<(seq<Bone>, seq<seq<int>>, seq<string>), AsfError>)
    requires Linked(bones, kids)
    ensures r.Ok? ==> Linked(r.value.0, r.value.1) && Relinks(bones, r.value.0)
    ensures r.Ok? ==> Grows(kids, r.value.1) && Suffix(r.value.2, input)
    ensures r.Ok? && r.value.2 != [] ==> |r.value.2| < |input| && input[|input| - |r.value.2| - 1] == "end"
    decreases |input|
  {
    if input == [] then Ok((bones, kids, []))
    else if input[0] == "end" then Ok((bones, kids, input[1..]))
    else
      match HierarchyLine(bones, kids, input[0])
      case Err(e) => Err(e)
      case Ok((bones', kids')) =>
        var r := HierarchyLines(bones', kids', input[1..]);
        if r.Ok? then
          RelinksTrans(bones, bones', r.value.0);
          GrowsTrans(kids, kids', r.value.1);
          r
        else r
  }

  /**
   * The hierarchy section: the end of input or a first line other than
   * `begin` is fatal; then the hierarchy lines relink the bones.
   */
  function HierarchySection(sk: Skeleton, input: seq<string>)
    : (r: Result<(Skeleton, seq<string>), AsfError>)
    requires WellFormed(sk)
    ensures r.Ok? ==> SameSettings(sk, r.value.0)
    ensures r.Ok? ==> Relinks(sk.bones, r.value.0.bones) && Suffix(r.value.1, input)
    ensures input == [] ==> r == Err(HierarchyEof)
    ensures input != [] && input[0] != "begin" ==> r == Err(HierarchyBegin(input[0]))
  {
    if input == [] then Err(HierarchyEof)
    else if input[0] != "begin" then Err(HierarchyBegin(input[0]))
    else
      match HierarchyLines(sk.bones, sk.kids, input[1..])
      case Err(e) => Err(e)
      case Ok((bones, kids, rest)) => Ok((sk.(bones := bones, kids := kids), rest))
  }

  /** The hierarchy section keeps the skeleton well formed. */
  lemma HierarchySectionWellFormed(sk: Skeleton, input: seq<string>)
    requires WellFormed(sk)
    ensures var r := HierarchySection(sk, input);
            r.Ok? ==> WellFormed(r.value.0)
  {
    var r := HierarchySection(sk, input);
    if r.Ok? {
      var bones := r.value.0.bones;
      forall b | 0 <= b < |bones| ensures bones[b].axisOrder == sk.bones[b].axisOrder {
        assert SameStatics(sk.bones[b], bones[b]);
      }
    }
  }

  // ---------------------------------------------------------------------
  // Section dispatcher

  /** The index of the first ':' line at or after `i`, or |input| when there is none. */
  function SectionEnd(input: seq<string>, i: nat): (n: nat)
    requires i <= |input|
    ensures i <= n <= |input| && (n == |input| || IsSectionLine(input[n]))
    ensures forall k :: i <= k < n ==> !IsSectionLine(input[k])
    decreases |input| - i
  {
    if i == |input| || IsSectionLine(input[i]) then i else SectionEnd(input, i + 1)
  }

  /** Past a line that does not start a section, a section's lines are that line and the section's lines after it. */
  lemma SectionEndStep(input: seq<string>)
    requires input != [] && !IsSectionLine(input[0])
    ensures SectionEnd(input, 0) == SectionEnd(input[1..], 0) + 1
    ensures input[..SectionEnd(input, 0)] == [input[0]] + input[1..][..SectionEnd(input[1..], 0)]
    ensures input[SectionEnd(input, 0)..] == input[1..][SectionEnd(input[1..], 0)..]
  {
    var n, m := SectionEnd(input, 0), SectionEnd(input[1..], 0);
    SectionEndShift(input, 1);
    assert input[n..] == input[1..][m..];
    assert input[..n] == [input[0]] + input[1..][..m];
  }

  /** Searching from line `i` finds the same line as searching the input without its first line from `i - 1`. */
  lemma {:induction false} SectionEndShift(input: seq<string>, i: nat)
    requires 1 <= i <= |input|
    ensures SectionEnd(input, i) == SectionEnd(input[1..], i - 1) + 1
    decreases |input| - i
  {
    if i < |input| {
      assert input[1..][i - 1] == input[i];
      if !IsSectionLine(input[i]) {
        SectionEndShift(input, i + 1);
      }
    }
  }

  /** Skipping a line that does not start a section leaves the same lines. */
  lemma SkipSectionStep(input: seq<string>)
    requires input != [] && !IsSectionLine(input[0])
    ensures SkipSection(input) == SkipSection(input[1..])
  {
    SectionEndStep(input);
  }

  /** The lines an unknown (or `name`/`documentation`) section leaves: all from the next ':' line. */
  function SkipSection(input: seq<string>): (rest: seq<string>)
    ensures Suffix(rest, input) && (rest == [] || IsSectionLine(rest[0]))
    ensures forall k :: 0 <= k < |input| - |rest| ==> !IsSectionLine(input[k])
  {
    var n := SectionEnd(input, 0);
    SuffixDrop(input[n..], input, n);
    input[n..]
  }

  /** The section a ':' line names: the first word after the colon. */
  function SectionName(line: string): (name: string)
    requires IsSectionLine(line)
    ensures name == Keyword(line[1..])
    ensures IsBlank(line[1..]) ==> name == ""
  {
    ExtractSkips(line[1..]);
    ReadWord(LTrim(line[1..]), "").0
  }

  /** The first |bones| entries of `bones'` relink `bones`; more bones may follow. */
  predicate Keeps(bones: seq<Bone>, bones': seq<Bone>) {
    |bones| <= |bones'| && Relinks(bones, bones'[..|bones|])
  }

  lemma KeepsTrans(a: seq<Bone>, b: seq<Bone>, c: seq<Bone>)
    requires Keeps(a, b) && Keeps(b, c)
    ensures Keeps(a, c)
  {
    assert c[..|b|][..|a|] == c[..|a|];
    RelinksTrans(a, b[..|a|], c[..|a|]);
  }

  /** The root bone of a skeleton, if it has one, is the bone a root section appends. */
  ghost predicate RootNamed(sk: Skeleton) {
    0 <= sk.root < |sk.bones| ==> sk.bones[sk.root].name == "root" && sk.bones[sk.root].id == 0
  }

  /**
   * One section of the constructor's loop, by the name on its ':' line:
   * `version` reads nothing further, `units`, `root`, `bonedata` and
   * `hierarchy` run their readers, and any other section is skipped up
   * to the next ':' line.
   */
  function ReadSection(sk: Skeleton, section: string, input: seq<string>, num: Numerals)
    : (r: Result<(Skeleton, seq<string>), AsfError>)
    requires WellFormed(sk)
    ensures section == "version" ==> r == Ok((sk, input))
    ensures section == "units" ==> r.Ok? == UnitsSection(sk.units, input, num).Ok?
    ensures section == "units" ==>
              r == match UnitsSection(sk.units, input, num)
                   case Err(e) => Err(e)
                   case Ok((u, rest)) => Ok((sk.(units := u), rest))
    ensures section == "root" ==> r == RootSection(sk, input, num)
    ensures section == "bonedata" ==> r == BonedataSection(sk, input, num)
    ensures section == "hierarchy" ==> r == HierarchySection(sk, input)
    ensures section !in {"version", "units", "root", "bonedata", "hierarchy"} ==> r == Ok((sk, SkipSection(input)))
  {
    if section == "version" then Ok((sk, input))
    else if section == "units" then
      match UnitsSection(sk.units, input, num)
      case Err(e) => Err(e)
      case Ok((u, rest)) => Ok((sk.(units := u), rest))
    else if section in {"root", "bonedata", "hierarchy"} then TreeSection(sk, section, input, num)
    else Ok((sk, SkipSection(input)))
  }

  /** The sections that build the bone tree: `root`, `bonedata` and `hierarchy`. */
  function TreeSection(sk: Skeleton, section: string, input: seq<string>, num: Numerals)
    : (r: Result<(Skeleton, seq<string>), AsfError>)
    requires WellFormed(sk) && section in {"root", "bonedata", "hierarchy"}
  {
    if section == "root" then RootSection(sk, input, num)
    else if section == "bonedata" then BonedataSection(sk, input, num)
    else HierarchySection(sk, input)
  }

  /**
   * Whatever section is read, the skeleton stays well formed, existing
   * bones keep their contents apart from tree links, a root once set stays
   * the same bone, and the reader only moves forward in its input.
   */
  lemma ReadSectionPreserves(sk: Skeleton, section: string, input: seq<string>, num: Numerals)
    requires WellFormed(sk)
    ensures var r := ReadSection(sk, section, input, num);
            r.Ok? ==> WellFormed(r.value.0) && Keeps(sk.bones, r.value.0.bones) && Suffix(r.value.1, input)
    ensures var r := ReadSection(sk, section, input, num);
            r.Ok? && sk.root >= 0 ==> r.value.0.root == sk.root
    ensures var r := ReadSection(sk, section, input, num);
            r.Ok? && RootNamed(sk) ==> RootNamed(r.value.0)
  {
    var r := ReadSection(sk, section, input, num);
    if r.Ok? {
      var sk' := r.value.0;
      if section == "root" {
        RootSectionWellFormed(sk, input, num);
      } else if section == "bonedata" {
        BonedataWellFormed(sk, input, num);
      } else if section == "hierarchy" {
        HierarchySectionWellFormed(sk, input);
      }
      assert sk.bones[..|sk.bones|] == sk.bones;
      if section == "hierarchy" {
        assert sk'.bones[..|sk.bones|] == sk'.bones;
      } else if section == "root" || section == "bonedata" {
        assert sk'.bones[..|sk.bones|] == sk.bones;
      }
      if RootNamed(sk) && 0 <= sk'.root < |sk'.bones| && sk'.root == sk.root {
        assert SameStatics(sk.bones[sk.root], sk'.bones[..|sk.bones|][sk.root]);
      }
    }
  }

  /**
   * The constructor's loop: every line offered to it must start a section
   * (anything else is fatal), and the section's reader takes the lines
   * after it.
   */
  function ReadAsf(sk: Skeleton, input: seq<string>, num: Numerals): (r: Result<Skeleton, AsfError>)
    requires WellFormed(sk)
    ensures r.Ok? ==> WellFormed(r.value) && Keeps(sk.bones, r.value.bones)
    ensures r.Ok? && sk.root >= 0 ==> r.value.root == sk.root
    ensures r.Ok? && RootNamed(sk) ==> RootNamed(r.value)
    ensures input != [] && !IsSectionLine(input[0]) ==> r == Err(UnexpectedLine(input[0]))
    decreases |input|
  {
    if input == [] then Ok(sk)
    else if !IsSectionLine(input[0]) then Err(UnexpectedLine(input[0]))
    else
      match ReadSection(sk, SectionName(input[0]), input[1..], num)
      case Err(e) => Err(e)
      case Ok((sk', rest)) =>
        ReadSectionPreserves(sk, SectionName(input[0]), input[1..], num);
        var r := ReadAsf(sk', rest, num);
        if r.Ok? then KeepsTrans(sk.bones, sk'.bones, r.value.bones); r else r
  }
}
