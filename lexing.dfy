/**
 * Character-level lexing shared by both readers: whitespace as the C
 * library's isspace sees it, the two `strip` variants, the blank/comment
 * line filter of the two `getline`s, and word extraction as
 * `std::stringstream >> std::string` performs it.
 */
module Lexing {
  import opened Common

  /** isspace() in the "C" locale. */
  predicate IsSpace(c: char) {
    c == ' ' || c == '\t' || c == '\n' || c == '\U{B}' || c == '\U{C}' || c == '\r'
  }

  predicate IsBlank(s: string) {
    forall i :: 0 <= i < |s| ==> IsSpace(s[i])
  }

  /** std::string::operator[]: reading at index length() yields the terminating NUL. */
  function At(s: string, i: nat): (c: char)
    requires i <= |s|
    ensures i < |s| ==> c == s[i]
    ensures i == |s| ==> c == '\0' && !IsSpace(c)
  {
    if i < |s| then s[i] else '\0'
  }

  /** Number of whitespace characters at the front of `s`. */
  function LeadingSpaces(s: string): (k: nat)
    ensures k <= |s|
    ensures forall i :: 0 <= i < k ==> IsSpace(s[i])
    ensures k < |s| ==> !IsSpace(s[k])
  {
    if s != [] && IsSpace(s[0]) then 1 + LeadingSpaces(s[1..]) else 0
  }

  /** Number of whitespace characters at the end of `s`. */
  function TrailingSpaces(s: string): (k: nat)
    ensures k <= |s|
    ensures forall i :: |s| - k <= i < |s| ==> IsSpace(s[i])
    ensures k < |s| ==> !IsSpace(s[|s| - 1 - k])
  {
    if s != [] && IsSpace(s[|s| - 1]) then 1 + TrailingSpaces(s[..|s| - 1]) else 0
  }

  /**
   * What the skeleton reader's strip computes: the suffix of `s` that
   * starts at its first non-whitespace character. Trailing whitespace
   * (a carriage return included) is kept.
   */
  function LTrim(s: string): (r: string)
    ensures r == "" <==> IsBlank(s)
    ensures r != "" ==> !IsSpace(r[0])
  {
    s[LeadingSpaces(s)..]
  }

  /** LTrim drops a blank prefix and keeps the rest as it is. */
  lemma LTrimSuffix(s: string)
    ensures |LTrim(s)| <= |s| && LTrim(s) == s[|s| - |LTrim(s)|..]
    ensures IsBlank(s[..|s| - |LTrim(s)|])
  {
  }

  /**
   * What the motion reader's strip computes: `s` without its leading and
   * trailing whitespace; "" when `s` is blank.
   */
  function Trim(s: string): (r: string)
    ensures r == "" <==> IsBlank(s)
    ensures r != "" ==> !IsSpace(r[0]) && !IsSpace(r[|r| - 1])
  {
    var front := LeadingSpaces(s);
    if front == |s| then ""
    else
      var back := TrailingSpaces(s);
      assert back < |s| - front;
      s[front..|s| - back]
  }

  /** Trim keeps a contiguous part of `s` and drops only blanks around it. */
  lemma TrimSubstring(s: string)
    ensures LeadingSpaces(s) + |Trim(s)| <= |s|
    ensures Trim(s) == s[LeadingSpaces(s)..LeadingSpaces(s) + |Trim(s)|]
    ensures IsBlank(s[..LeadingSpaces(s)]) && IsBlank(s[LeadingSpaces(s) + |Trim(s)|..])
  {
  }

  /** Trimming twice gives what trimming once gives. */
  lemma {:induction false} TrimIdempotent(s: string)
    ensures Trim(Trim(s)) == Trim(s)
  {
    var r := Trim(s);
    if r != "" {
      assert LeadingSpaces(r) == 0;
      assert TrailingSpaces(r) == 0;
    }
  }

  /** A line that neither `getline` skips: non-empty and not a comment. */
  predicate IsContent(l: string) {
    l != "" && l[0] != '#'
  }

  /**
   * The lines a `getline` loop yields once `pos` lines have been read,
   * given the input's lines after the reader's strip: the further ones in
   * order, without the empty ones and the comments.
   */
  function Content(cs: seq<string>, pos: nat): (r: seq<string>)
    requires pos <= |cs|
    ensures |r| <= |cs| - pos
    ensures forall i :: 0 <= i < |r| ==> IsContent(r[i])
    decreases |cs| - pos
  {
    if pos == |cs| then []
    else if IsContent(cs[pos]) then [cs[pos]] + Content(cs, pos + 1)
    else Content(cs, pos + 1)
  }

  /** The index of the first line at or after `pos` that `getline` does not skip, |cs| if none. */
  function NextContent(cs: seq<string>, pos: nat): (n: nat)
    requires pos <= |cs|
    ensures pos <= n <= |cs|
    ensures n < |cs| ==> IsContent(cs[n])
    ensures forall k :: pos <= k < n ==> !IsContent(cs[k])
    decreases |cs| - pos
  {
    if pos == |cs| || IsContent(cs[pos]) then pos else NextContent(cs, pos + 1)
  }

  /** What `getline` yields from `pos` on: the next line it does not skip, then what follows that line. */
  lemma {:induction false} ContentAt(cs: seq<string>, pos: nat)
    requires pos <= |cs|
    ensures var n := NextContent(cs, pos);
            Content(cs, pos) == if n == |cs| then [] else [cs[n]] + Content(cs, n + 1)
    decreases |cs| - pos
  {
    if pos < |cs| && !IsContent(cs[pos]) {
      ContentAt(cs, pos + 1);
    }
  }

  /** Length of the run of non-whitespace characters at the front of `s`. */
  function WordLength(s: string): (k: nat)
    ensures k <= |s|
    ensures forall i :: 0 <= i < k ==> !IsSpace(s[i])
    ensures k < |s| ==> IsSpace(s[k])
  {
    if s != [] && !IsSpace(s[0]) then 1 + WordLength(s[1..]) else 0
  }

  /** The result of one `>>` into a std::string: the word read, if any, and what is left of the stream. */
  datatype Extraction = Extraction(token: Option<string>, rest: string)

  /**
   * `stream >> word`: skip whitespace, then take characters up to the next
   * whitespace or the end. It fails, reaching the end, when only whitespace
   * is left. The stream's eof() holds afterwards exactly when `rest` is "".
   */
  function Extract(s: string): (e: Extraction)
    ensures e.token.None? <==> IsBlank(s)
    ensures e.token.None? ==> e.rest == ""
    ensures |e.rest| <= |s| && (s != "" ==> |e.rest| < |s|)
    decreases |s|
  {
    if s == "" then Extraction(None, "")
    else if IsSpace(s[0]) then
      var e := Extract(s[1..]);
      assert IsBlank(s) <==> IsBlank(s[1..]) by {
        assert forall i :: 0 < i < |s| ==> s[i] == s[1..][i - 1];
      }
      e
    else
      var k := WordLength(s);
      Extraction(Some(s[..k]), s[k..])
  }

  /**
   * What an extraction reads: it skips the leading whitespace and then
   * takes the longest run of non-whitespace characters, leaving the rest;
   * it fails when only whitespace is left.
   */
  lemma {:induction false} ExtractSplits(s: string, n: nat, k: nat)
    requires n == LeadingSpaces(s) && n <= |s| && k == WordLength(s[n..])
    ensures n == |s| ==> Extract(s) == Extraction(None, "")
    ensures n < |s| ==> n + k <= |s| && Extract(s) == Extraction(Some(s[n..n + k]), s[n + k..])
  {
    ExtractSkips(s);
    var w := s[n..];
    if n < |s| {
      assert w[0] == s[n] && !IsSpace(w[0]);
      assert Extract(w) == Extraction(Some(w[..k]), w[k..]);
      assert w[..k] == s[n..n + k];
      assert w[k..] == s[n + k..];
      assert Extract(s) == Extraction(Some(s[n..n + k]), s[n + k..]);
    } else {
      assert w == "";
      assert Extract(s) == Extraction(None, "");
    }
  }

  /** Extraction skips the leading whitespace first. */
  lemma {:induction false} ExtractSkips(s: string)
    ensures Extract(s) == Extract(s[LeadingSpaces(s)..])
    decreases |s|
  {
    if s != [] && IsSpace(s[0]) {
      ExtractSkips(s[1..]);
      assert s[1..][LeadingSpaces(s[1..])..] == s[LeadingSpaces(s)..];
    }
  }

  /** eof() of a string stream after at least one extraction. */
  predicate Eof(rest: string) {
    rest == ""
  }

  /** `stream >> word` into a variable holding `prev`: a failed read leaves it unchanged. */
  function ReadWord(s: string, prev: string): (r: (string, string))
    ensures IsBlank(s) ==> r == (prev, "")
    ensures |r.1| <= |s|
    ensures s != "" ==> |r.1| < |s|
  {
    match Extract(s)
    case Extraction(None, rest) => (prev, rest)
    case Extraction(Some(t), rest) => (t, rest)
  }

  /**
   * The C library's numeric conversions, which this model does not define:
   * `toReal` and `toInt` turn a token read by `>>` into a float or an int,
   * `pair` says whether sscanf(line, "(%g %g)") assigns both numbers and
   * which, and `frame` whether strtol(line, &end, 0) consumes the whole
   * line without error and what it yields.
   */
  datatype Numerals = Numerals(
    toReal: string -> real,
    toInt: string -> int,
    pair: string -> Option<(real, real)>,
    frame: string -> Option<int>)

  /**
   * A string without trailing whitespace, as every line the motion reader
   * works on is once its strip has removed the blanks at both ends.
   */
  predicate Tight(s: string) {
    s == "" || !IsSpace(s[|s| - 1])
  }

  /** Extraction from a tight string: a word unless the string is empty, and a tight rest. */
  lemma ExtractTight(s: string)
    requires Tight(s)
    ensures s != "" ==> Extract(s).token.Some?
    ensures Tight(Extract(s).rest)
  {
    if s != "" {
      var n := LeadingSpaces(s);
      assert !IsSpace(s[|s| - 1]);
      assert n < |s|;
      var k := WordLength(s[n..]);
      ExtractSplits(s, n, k);
      var rest := s[n + k..];
      assert Extract(s).rest == rest;
      assert rest == "" || rest[|rest| - 1] == s[|s| - 1];
    }
  }

  /** The successive words `>>` reads from `s` until the end. */
  function Words(s: string): (ws: seq<string>)
    decreases |s|
  {
    match Extract(s)
    case Extraction(None, _) => []
    case Extraction(Some(t), rest) => [t] + Words(rest)
  }

  /** `stream >> value` for a float variable holding `prev`. */
  function ReadReal(s: string, prev: real, num: Numerals): (r: (real, string))
    ensures IsBlank(s) ==> r == (prev, "")
    ensures |r.1| <= |s|
    ensures s != "" ==> |r.1| < |s|
  {
    match Extract(s)
    case Extraction(None, rest) => (prev, rest)
    case Extraction(Some(t), rest) => (num.toReal(t), rest)
  }

  /** `stream >> x >> y >> z` into a vec3 holding `prev`. */
  function ReadVec3(s: string, prev: Vec3, num: Numerals): (r: (Vec3, string))
    ensures IsBlank(s) ==> r == (prev, "")
    ensures |r.1| <= |s|
  {
    var (x, r1) := ReadReal(s, prev.x, num);
    var (y, r2) := ReadReal(r1, prev.y, num);
    var (z, r3) := ReadReal(r2, prev.z, num);
    (Vec3(x, y, z), r3)
  }

  /** `stream >> n` for an int variable holding `prev`. */
  function ReadInt(s: string, prev: int, num: Numerals): (r: (int, string))
    ensures IsBlank(s) ==> r == (prev, "")
  {
    match Extract(s)
    case Extraction(None, rest) => (prev, rest)
    case Extraction(Some(t), rest) => (num.toInt(t), rest)
  }
}
