# sticks-and-stones: skeleton and motion readers

A model of the core of sticks-and-stones, a viewer for motion-capture data in the Acclaim formats. It covers three parts:

- **The ASF skeleton reader** (`asf.cpp`, `asf.hpp`). It reads a file of `:`-headed sections into bones.
  - `:units` sets the mass, length and angle units.
  - `:root` sets the root's axis order, channel order, position and orientation.
  - `:bonedata` reads `begin ... end` blocks, each giving id, name, direction, length, axis, DOFs and limits.
  - `:hierarchy` links the bones into a tree through `parent`, `first_child` and `next_sibling` indices.
- **The AMC motion reader** (`amc.cpp`, `amc.hpp`). Frame-number lines grow a frame buffer at either end. Each `root` line and bone line writes its channel values into the current frame, routed by the skeleton's root order or the bone's DOF order and scaled by the angle and length units.
- **`apply_frame` / `apply_frame_to_bone`**. For one frame, these compute the root's model-view transform, then walk the bone tree. Each bone gets its direction, local, still and motion transforms, and hands its children a transform translated along the bone.

## How the model is built

**The readers work as the C++ classes do.** `AsfReader.Asf` and `AmcReader.Amc` are classes whose fields the reading methods update in place.
- The ASF class keeps its one-line lookahead: `next_input_line` and `refresh_nil`.
- Tree links are plain integer fields.
- The AMC class grows its frame buffer `fs` and first frame number `ff`.

**Each method is proved against a specification function.**
- `AsfParse` and `AmcParse` hold pure functions over the content lines still to be read. A section reader returns the new skeleton and the lines it leaves unread.
- Properties are stated and proved about these functions: well-formedness of the tree, frame growth, exact value counts and error cases.

**Lexing is exact on characters.** `Lexing` models:
- both `strip` functions;
- the blank-line and comment filter;
- `>>` extraction into a string, including the case where a failed read leaves the variable unchanged.

The C library's numeric conversions (`>>` into a float or int, `sscanf`, `strtol`) are not defined. They are passed in as the `Numerals` parameter. A numeric `>>` is modelled one whitespace-delimited word at a time, and the conversion of that word is abstract (see Lexing.ReadReal under Left out).

**Transforms are symbolic.** A `mat4` is a word of primitives: translations, rotations and inverses.
- The identity is the empty word, and a product is concatenation.
- `translate`, `rotate` and their copying forms append a primitive on the right.
- This makes the order in which `apply_frame_to_bone` composes its factors an equality of sequences.

**The kinematics walk is proved to be a tree walk.** `Kinematics.PoseTree` follows `apply_frame_to_bone`. Lemmas show that:
- the walk visits each parent before its children;
- sibling subtrees are disjoint;
- bones outside the subtree keep their transforms;
- every child's still transform is its parent's motion transform, followed by the translation along the parent.

Where the code and its comments or the usual description of the format disagree, the model follows the code:
- The ASF `strip` keeps trailing whitespace (see AsfReader.Strip under Left out).
- An AMC `root` line scales its rotation by the angle unit and its translation by the length unit only, as amc.cpp:140-141 does.
- A hierarchy section that ends at the end of input without `end` is accepted, as asf.cpp:361-395 does.

## Model

| member | source | states |
|---|---|---|
| Common.Scale | amc.cpp:140-141 | scaling by 1 leaves a vector unchanged, and the zero vector stays zero |
| Transforms.Cross | amc.cpp:208 | the cross product of (0, 1, 0) with a vector d is (d.z, 0, -d.x) |
| Lexing.At | asf.cpp:26 | reading inside a string gives its character; reading at its length gives the terminating NUL, which is not whitespace |
| Lexing.LeadingSpaces | asf.cpp:25 | counts exactly the run of whitespace at the front of a string |
| Lexing.TrailingSpaces | amc.cpp:30 | counts exactly the run of whitespace at the end of a string |
| Lexing.LTrim | asf.cpp:17-33 | the ASF strip's result is empty exactly for blank lines, and otherwise starts with a non-space character |
| Lexing.LTrimSuffix | asf.cpp:17-33 | the ASF strip drops only a blank prefix and keeps the rest of the line, trailing whitespace included |
| Lexing.Trim | amc.cpp:21-37 | the AMC strip's result is empty exactly for blank lines, and otherwise neither starts nor ends with whitespace |
| Lexing.TrimSubstring | amc.cpp:21-37 | the AMC strip keeps one contiguous part of the line and removes only blanks on either side |
| Lexing.TrimIdempotent | amc.cpp:21-37 | stripping an already stripped line changes nothing |
| Lexing.Content | asf.cpp:94-112 | the lines `getline` yields are, in order, the non-empty, non-comment stripped lines |
| Lexing.NextContent | asf.cpp:100-107 | the next line `getline` stops at is the first non-empty, non-comment line, with everything before it skipped |
| Lexing.ContentAt | amc.cpp:40-51 | what `getline` yields from a position is the next content line followed by what it yields after that line |
| Lexing.WordLength | asf.cpp:136 | a word read by `>>` is the longest run of non-whitespace characters |
| Lexing.Extract | asf.cpp:136 | `>>` into a string fails exactly when only whitespace is left, and then it reaches the end of the stream |
| Lexing.ExtractSplits | amc.cpp:118 | `>>` skips the leading whitespace, takes the longest non-space run and leaves everything after it |
| Lexing.ExtractTight | amc.cpp:121 | on a line without trailing whitespace, `>>` reads a word unless the line is used up, and the stream is at eof exactly when nothing is left |
| Lexing.ReadWord | asf.cpp:136 | a failed `>>` into a string leaves the previous value of the variable |
| Lexing.ReadReal | amc.cpp:156 | a failed `>>` into a float (only whitespace left) leaves the previous value and reaches the end of the stream |
| Lexing.ReadVec3 | asf.cpp:202 | reading three floats from a blank rest leaves the vector unchanged |
| Lexing.ReadInt | asf.cpp:247 | a failed `>>` into an int leaves the previous value |
| AsfModel.NewBone | asf.hpp:20-30 | a default Bone has no links (-1), id 0, an empty name, zero vectors and length, and no orders or limits |
| AsfModel.InitialUnits | asf.hpp:76-78 | the initial units are mass 1, length unit 2.54e-2 and angle unit 1 |
| AsfModel.EmptyWellFormed | asf.hpp:70-74 | a skeleton with no bones and root -1 satisfies the tree-link invariant |
| AsfModel.PushKeepsLinked | asf.cpp:333 | pushing an unlinked bone keeps parent/first_child/next_sibling consistent with the children lists |
| AsfParse.AxisLetter | asf.cpp:174-178 | X, Y and Z give RX, RY and RZ, and every other character gives none |
| AsfParse.AxisLetters | asf.cpp:173-180 | an axis-order word gives one rotation per letter, and fails exactly when some letter is not X, Y or Z |
| AsfParse.OrderWord | asf.cpp:185-199 | RX, RY, RZ, TX, TY and TZ give the channel of that name, and every other token gives none |
| AsfParse.DofWord | asf.cpp:276-290 | rx, ry, rz, lx, ly and lz give RX, RY, RZ, LX, LY and LZ, and every other token gives none |
| AsfParse.LoopWords | asf.cpp:182-200 | the words a `while (!eof) >> word` loop handles: none at the end of the line, one more round with the kept word (or an empty one) when only whitespace is left, and exactly the line's words when it has no trailing whitespace |
| AsfParse.OrderWords | asf.cpp:182-200 | an `order` line yields channel kinds only, and nothing at the end of the line |
| AsfParse.OrderWordsRead | asf.cpp:182-200 | an `order` line succeeds exactly when every word the loop handles, the kept word of a whitespace-only round included, names a channel, and then gives one channel per word, in order |
| AsfParse.DofWords | asf.cpp:273-291 | a `dof` line yields DOF kinds only, and nothing at the end of the line |
| AsfParse.DofWordsRead | asf.cpp:271-291 | a `dof` line succeeds exactly when every word the loop handles names a DOF, so a whitespace-only round (a fresh empty word) is fatal, and then gives one axis per word, in order |
| AsfParse.UnitsLine | asf.cpp:133-152 | `mass` and `length` set the default mass and bone length from the number read, kept on a failed read; `angle deg`/`angle rad` set the angle unit and any other angle word is fatal; unknown keywords change nothing; the length unit never changes |
| AsfParse.RootLine | asf.cpp:166-207 | `axis` appends one rotation per letter (BadRootAxis on any other letter); `order` appends one channel per word (BadRootOrder on any other word); `position` and `orientation` read three numbers each; unknown keywords change nothing |
| AsfParse.DeclareDofs | asf.cpp:293-295 | declared DOFs get the limits (-inf, +inf), and every other entry of the map stays as it was |
| AsfParse.BoneLine | asf.cpp:242-295 | `id`, `name`, `direction` and `length` set their field from the value read; `axis` sets the axis scaled by the angle unit and replaces the axis order by the letters' rotations (BadBoneAxis otherwise); `dof` replaces the DOF order and makes every listed axis unlimited (BadDofAxis otherwise); other keywords change nothing; the links are never touched |
| AsfParse.LimitLine | asf.cpp:301-322 | a limit line fails at the end of input, at a ':' line or on a mismatch, and otherwise stores the pair LimitPair reads, unscaled, for the axis |
| AsfParse.LimitPair | asf.cpp:309-318 | the first limit line must start with `limits` and its pair is read after that word; every later line is read as a bare pair |
| AsfParse.LimitLines | asf.cpp:296-323 | limits consume exactly one line per DOF and change only the bone's limit map |
| AsfParse.LimitLinesDof | asf.cpp:300-323 | limits need one non-':' line per DOF, give every listed axis an entry and keep the other axes' limits |
| AsfParse.LimitLinesStore | asf.cpp:309-318 | each DOF gets the pair of its own line, the first matched with the `limits` prefix, and a repeated axis keeps its last pair |
| AsfParse.BoneBlock | asf.cpp:234-331 | a block ends at a consumed `end` line with no ':' line before it, keeps the links and a rotation-only axis order, and is fatal at once at the end of input or a ':' line |
| AsfParse.BlockLine | asf.cpp:242-326 | one block line consumes input, keeps the tree links and keeps a rotation-only axis order |
| AsfParse.BlockStart | asf.cpp:229-231 | a new bone takes the root's axis order and the default length, and is otherwise default |
| AsfParse.BonedataSection | asf.cpp:220-335 | bonedata appends only bones with no children, at least two lines each, stops at the end of input or a ':' line, and leaves units and root unchanged |
| AsfParse.BonedataBlocks | asf.cpp:220-335 | the bonedata section succeeds exactly when its `begin ... end` blocks read in turn do, appends exactly the bones they give, one per block and in order, and otherwise fails with the first block's error |
| AsfParse.BonedataBlock | asf.cpp:222-333 | a block must start with `begin` (fatal otherwise) and consumes at least `begin` and `end` |
| AsfParse.BonedataWellFormed | asf.cpp:333 | a bonedata section keeps the skeleton well formed |
| AsfParse.UnitsSection | asf.cpp:128-154 | the units become UnitsLine applied to each line up to the next ':' line or the end of input, the first fatal line ending the section with its error; the length unit never changes |
| AsfParse.RootLines | asf.cpp:163-208 | the root specification becomes RootLine applied to each line up to the next ':' line or the end of input, the first fatal line ending the section with its error; the axis order stays rotation-only |
| AsfParse.RootBone | asf.cpp:210-213 | the root bone is unlinked, has id 0 and name "root", and takes the root orientation as its direction |
| AsfParse.RootSection | asf.cpp:157-217 | a second root section is fatal; otherwise exactly one bone, the root bone, is appended and becomes the root |
| AsfParse.RootSectionWellFormed | asf.cpp:210-216 | a root section keeps the skeleton well formed |
| AsfParse.FindBone | asf.cpp:338-347 | find_bone yields the first bone with the name, and none exactly when no bone has it |
| AsfParse.TailSlotEmpty | asf.cpp:374-377 | the walk along first_child/next_sibling ends at a link holding -1 |
| AsfParse.AppendChild | asf.cpp:389-393 | linking a parentless child appends it at the end of the parent's children list, sets its parent and changes no other parent |
| AsfParse.AppendChildLinked | asf.cpp:389-393 | after the tail link is set, the raw links spell the parent's children list with the new child last |
| AsfParse.LinkChildren | asf.cpp:379-394 | a hierarchy line only extends the parent's children list, leaves the other lists alone and keeps the links consistent |
| AsfParse.LinkChildrenOutcome | asf.cpp:379-394 | the first child word that names no bone is UnknownBone, and the first naming a bone with another parent is MultipleParents; otherwise the parent's children list grows by exactly the named bones that had no parent, in the order first named |
| AsfParse.LinkChildrenOrphans | asf.cpp:383-393 | every child a hierarchy line adds had no parent before: a bone is never moved to a second parent |
| AsfParse.HierarchyLine | asf.cpp:368-394 | an unknown parent is UnknownBone; the child words give UnknownBone or MultipleParents for the first offending name; otherwise only the parent's children list grows, by the named parentless bones in order |
| AsfParse.HierarchyLines | asf.cpp:361-395 | the hierarchy lines keep links consistent and end at a consumed `end` line or at the end of input |
| AsfParse.HierarchySection | asf.cpp:350-396 | a hierarchy section at the end of input or without `begin` is fatal; otherwise it only relinks bones |
| AsfParse.HierarchySectionWellFormed | asf.cpp:350-396 | a hierarchy section keeps the skeleton well formed |
| AsfParse.SectionEnd | asf.cpp:65-67 | the skip loop stops at the first ':' line or at the end of input |
| AsfParse.SkipSection | asf.cpp:58-68 | an unknown section skips exactly the lines up to the next ':' line |
| AsfParse.SectionName | asf.cpp:42-46 | the section name is the first word after the ':', and empty when nothing follows it |
| AsfParse.ReadSection | asf.cpp:41-68 | `version` reads nothing further; `units` replaces the skeleton's units by the units section's result; `root`, `bonedata` and `hierarchy` give their section readers' results; unknown sections are skipped |
| AsfParse.ReadSectionPreserves | asf.cpp:48-68 | every section keeps the skeleton well formed and existing bones unchanged apart from their links, keeps a root once set, and only moves forward in the input |
| AsfParse.ReadAsf | asf.cpp:36-72 | the whole file gives a well-formed skeleton that keeps its root, and a line that does not start a section is fatal |
| AsfReader.Strip | asf.cpp:17-33 | the loops of the ASF strip compute LTrim, including the trailing scan that moves the wrong way |
| AsfReader.ParseAxisLetters | asf.cpp:173-180 | the letter loop computes AxisLetters |
| AsfReader.ParseOrder | asf.cpp:182-200 | the `order` loop computes OrderWords, with the word variable kept across rounds |
| AsfReader.ParseDofs | asf.cpp:271-291 | the `dof` loop computes DofWords, with a fresh word each round |
| AsfReader.Declare | asf.cpp:293-295 | the declaration loop computes DeclareDofs |
| AsfReader.Asf.constructor | asf.hpp:70-82 | the initial skeleton is empty, with root -1 and the initial units, and the first getline reads a fresh line |
| AsfReader.Asf.ReadContentLine | asf.cpp:100-107 | the do-while loop stops at the next content line, or fails at the end of input |
| AsfReader.Asf.GetLine | asf.cpp:94-112 | getline re-offers an unconsumed line and otherwise reads the next content line; it fails exactly when no line is left |
| AsfReader.Asf.Consume | asf.cpp:131 | `refresh_nil = true` takes exactly the lookahead line |
| AsfReader.Asf.ReadUnitsLine | asf.cpp:133-152 | one units line updates the unit fields as UnitsLine says, or fails with its error |
| AsfReader.Asf.ReadUnitsSection | asf.cpp:128-154 | the units section updates the units and the input as UnitsSection says |
| AsfReader.Asf.ReadUnitsStep | asf.cpp:130-153 | one round takes the lookahead line and applies UnitsLine |
| AsfReader.Asf.ReadRootLine | asf.cpp:166-207 | one root line updates the root fields as RootLine says |
| AsfReader.Asf.ReadRootLines | asf.cpp:163-208 | the root loop updates the root fields and the input as RootLines says |
| AsfReader.Asf.ReadRootStep | asf.cpp:163-208 | one round takes the lookahead line and applies RootLine |
| AsfReader.Asf.ReadRootSection | asf.cpp:157-217 | the root section changes bones, children, root and settings as RootSection says, and keeps the object invariant |
| AsfReader.Asf.AppendRootBone | asf.cpp:210-216 | the root bone is pushed and its index becomes `root` |
| AsfReader.Asf.ReadBoneLine | asf.cpp:242-295 | one bone line updates the local bone as BoneLine says |
| AsfReader.Asf.ReadLimits | asf.cpp:296-323 | the limits loop reads the pushed-back line and the ones after it as LimitLines says |
| AsfReader.Asf.ReadLimitLine | asf.cpp:301-322 | one limit line is read and matched as LimitLine says |
| AsfReader.Asf.ReadBoneBlock | asf.cpp:234-331 | the inner bonedata loop builds the bone as BoneBlock says |
| AsfReader.Asf.ReadBlockLine | asf.cpp:235-326 | one round of the inner loop follows BlockLine |
| AsfReader.Asf.ReadBonedataSection | asf.cpp:220-335 | the bonedata section changes bones, children and input as BonedataSection says, and keeps the object invariant |
| AsfReader.Asf.ReadBonedataBlock | asf.cpp:223-333 | one round of the outer bonedata loop follows BonedataBlock |
| AsfReader.Asf.FindBoneIndex | asf.cpp:338-347 | the search loop computes FindBone |
| AsfReader.Asf.ChainTail | asf.cpp:374-377 | the child_pointer walk ends at the tail link of the parent's sibling chain |
| AsfReader.Asf.ReadChildren | asf.cpp:379-394 | the child loop relinks bones as LinkChildren says |
| AsfReader.Asf.ReadHierarchyLine | asf.cpp:368-394 | one hierarchy line relinks bones as HierarchyLine says |
| AsfReader.Asf.ReadHierarchySection | asf.cpp:350-396 | the hierarchy section relinks bones as HierarchySection says, and keeps the object invariant |
| AsfReader.Asf.ReadHierarchyLines | asf.cpp:361-395 | the hierarchy loop follows HierarchyLines |
| AsfReader.Asf.SkipLines | asf.cpp:65-67 | the skip loop leaves the input that SkipSection gives |
| AsfReader.Asf.ReadSectionNamed | asf.cpp:48-68 | the dispatch on a section name changes the skeleton and input as ReadSection says |
| AsfReader.Asf.ReadTreeSection | asf.cpp:52-57 | the tree-building branches change the skeleton and input as TreeSection says |
| AsfReader.Asf.Read | asf.cpp:36-72 | the constructor's loop leaves the skeleton ReadAsf gives and reads all input, or fails with its error |
| AsfReader.Asf.PushBone | asf.cpp:333 | `bones.push_back` appends the bone with an empty children list and keeps the object invariant |
| AmcModel.NewFrame | amc.hpp:21-26 | a default Frame has zero root translation and rotation and no transformations |
| AmcModel.Rest | amc.cpp:100 | resize gives one zero Transformation per bone |
| AmcModel.BlankFrame | amc.cpp:97-101 | a frame added by a marker is a default frame with one zero Transformation per bone |
| AmcParse.BoneIndices | amc.cpp:61-64 | every name in the bone-index map maps to a bone of that name |
| AmcParse.BoneIndicesLast | amc.cpp:61-64 | a name is in the map exactly when some bone has it, and it maps to the last such bone |
| AmcParse.Grow | amc.cpp:87-111 | the buffer grows to hold the frame: at the back, or by ff - n frames in front; every old frame keeps its frame number and the new frames are blank |
| AmcParse.FrameMarker | amc.cpp:76-113 | a negative frame is fatal; otherwise ff becomes the smaller of ff and n, the frame becomes current at index n - ff, and no frame is lost |
| AmcParse.RootChannel | amc.cpp:125-133 | a root value goes into the component its axis names (RX..RZ the rotation, TX..TZ the translation), a failed read keeping the old value; the other components and the transformations stay; an L-axis gives none |
| AmcParse.RootValues | amc.cpp:120-134 | root values never touch the bones' transformations |
| AmcParse.RootValuesStore | amc.cpp:120-134 | after the root loop every listed root channel holds the number of the word at its last position in root_order, and every unlisted one keeps its value |
| AmcParse.RootLine | amc.cpp:119-141 | a root line changes only the current frame's root rotation and translation |
| AmcParse.RootLineRead | amc.cpp:119-141 | a root line leaves in the current frame the rotation read for RX, RY, RZ times the angle unit and the translation read for TX, TY, TZ times the length unit, each component the word at its channel's last position in root_order, or the old component when the channel is not listed |
| AmcParse.RootValuesCount | amc.cpp:120-138 | the root loop succeeds exactly when at least |root_order| values remain, leaving the values after them, and fails with MissingRootAxes otherwise |
| AmcParse.RootLineCount | amc.cpp:119-141 | a root line succeeds exactly with |root_order| values; fewer is MissingRootAxes, more is TooManyRootAxes |
| AmcParse.BoneChannel | amc.cpp:158-163 | a bone value goes to the angle its rotation axis names, the other angles stay, and any non-rotation DOF is fatal |
| AmcParse.BoneLine | amc.cpp:143-168 | an unknown bone is fatal; a bone line changes only that bone's Transformation in the current frame |
| AmcParse.BoneValuesCount | amc.cpp:150-164 | the DOF loop succeeds exactly when every DOF is a rotation and at least |dof_order| values remain, leaving the words after them; otherwise the first non-rotation DOF whose value is there fails with UnknownDof, and running out of values first fails with MissingBoneAxes |
| AmcParse.BoneValuesStore | amc.cpp:150-164 | each listed axis gets the value at its last position times the angle unit, and unlisted axes keep their angles |
| AmcParse.BoneValuesUnknown | amc.cpp:150-162 | when the next DOF is not a rotation and a value is left, the loop fails with UnknownDof for that DOF and bone |
| AmcParse.BoneLineCount | amc.cpp:143-168 | a bone line succeeds exactly when every DOF is a rotation and there are |dof_order| values; a non-rotation DOF reached with its value there is UnknownDof, too few values before it MissingBoneAxes, more values than rotation DOFs TooManyBoneAxes; on success the scaled values are stored |
| AmcParse.MotionLine | amc.cpp:67-170 | every line keeps one Transformation per bone in every frame and cfi pointing at frame current_frame, and never shrinks the buffer |
| AmcParse.UnframedRoot | amc.cpp:119-141 | a root line before any marker fails first where the root loop does: no value left is MissingRootAxes, an L-axis is UnknownRootAxis, values left with an empty root_order are TooManyRootAxes; only a line that would read or scale fs[-1] is NoCurrentFrame |
| AmcParse.MotionLineRoutes | amc.cpp:67-170 | `:DEGREES` switches to degrees and other ':' lines change nothing; a line strtol reads completely is a marker handled as FrameMarker; other lines keep ff and cfi; a channel line before any marker is fatal, and for a root line the error is UnframedRoot's; within a frame a `root` line is RootLine on the rest of the line and any other channel line is BoneLine for its first word |
| AmcParse.ReadAmc | amc.cpp:66-172 | the line loop keeps every frame sized to the skeleton and never shrinks the buffer |
| AmcParse.ReadAmcFirstFrame | amc.cpp:82-113 | ff ends as the smallest frame number of any marker, and stays -1 exactly when there is none |
| AmcParse.HullAllBounds | amc.cpp:82-111 | the smallest range holding a range and some frame numbers is empty only when there is nothing to hold, holds them all, and starts and ends at one of them |
| AmcParse.FrameMarkerSpan | amc.cpp:82-111 | a marker widens the buffer's range of frame numbers to the smallest one that also holds its frame |
| AmcParse.MotionLineSpan | amc.cpp:67-170 | a marker widens the buffer's range to hold its frame; every other line leaves the range and the size of the buffer as they were |
| AmcParse.ReadAmcSpan | amc.cpp:66-172 | the buffer's range after reading some lines is the smallest range that holds the range before and every frame number the markers name |
| AmcParse.GrowKeeps | amc.cpp:87-111 | growing the buffer for frame n, at the back or in front, leaves every other frame number holding the same frame |
| AmcParse.FrameMarkerKeeps | amc.cpp:76-113 | a marker leaves every frame number other than its own holding the same frame |
| AmcParse.MotionLineKeeps | amc.cpp:67-170 | a marker naming another frame, and any other line read while the current frame is not k, leave frame k as it was and never make k the current frame |
| AmcParse.ReadAmcKeeps | amc.cpp:66-172 | lines that never name frame k, read while k is not the current frame or starting with a marker, leave frame k as it was |
| AmcParse.ReadAmcSplit | amc.cpp:66-172 | reading two runs of lines one after the other is reading them in one go, and an error in the first run is the error of the whole |
| AmcParse.ReadAmcCovers | amc.cpp:82-111 | the buffer's range only widens as lines are read |
| AmcParse.ReadAmcHolds | amc.cpp:66-172 | when the current frame's block is complete, the read ends with that frame number still in the buffer and holding the same data, however many frames were put in front of it |
| AmcParse.ReadAmcLands | amc.cpp:66-172 | what the lines up to the end of frame n's block leave in frame n is, at the end of the whole read, in the entry for frame number n, fs[n - ff], when no later marker names n again, however many frames were put in front of it since |
| AmcParse.TrimAll | amc.cpp:47 | every line is stripped |
| AmcParse.StartSpan | amc.cpp:66-172 | MotionSpan for the content lines themselves, read from the loop's initial state |
| AmcParse.Motion | amc.cpp:54-173 | a motion read from a file holds one Transformation per bone in every frame |
| AmcParse.MotionSpan | amc.cpp:54-173 | the buffer a whole read leaves spans exactly the frame numbers the markers name: ff is the smallest, ff + |fs| - 1 the largest, so |fs| is their difference plus one; with no marker it is empty and ff stays -1 |
| AmcReader.StripBoth | amc.cpp:21-37 | the two scans of the AMC strip compute Trim |
| AmcReader.NextMotionLine | amc.cpp:40-51 | getline returns the next stripped content line, or fails exactly when none is left |
| AmcReader.BuildBoneIndices | amc.cpp:61-64 | the loop builds the map BoneIndices specifies |
| AmcReader.RotateAll | amc.cpp:186-193 | the reverse loop appends one rotation per axis, last axis first |
| AmcReader.Amc.constructor | amc.hpp:40-42 | a new motion has no frames and ff = -1 |
| AmcReader.Amc.AppendFrames | amc.cpp:97-101 | the buffer is extended at the back with blank frames up to the required size |
| AmcReader.Amc.PrependFrames | amc.cpp:102-110 | the given number of blank frames come in front of the old frames |
| AmcReader.Amc.MarkFrame | amc.cpp:78-113 | a marker updates fs, ff, the current frame and cfi as FrameMarker says |
| AmcReader.Amc.ReadRootLine | amc.cpp:119-141 | a root line updates fs as RootLine says |
| AmcReader.Amc.ReadBoneLine | amc.cpp:143-168 | a bone line updates fs as BoneLine says |
| AmcReader.Amc.ReadMotionLine | amc.cpp:67-170 | one line updates the reader's state as MotionLine says |
| AmcReader.Amc.Read | amc.cpp:54-173 | the constructor leaves the frames and ff that Motion gives, or fails with its error |
| AmcReader.Amc.ReadLines | amc.cpp:66-172 | the line loop ends in the state ReadAmc gives |
| AmcReader.Amc.ApplyFrame | amc.cpp:176-196 | a frame outside [ff, ff + |fs|) is fatal and changes nothing; otherwise the bones are posed by the walk from the root with the root's model-view word |
| AmcReader.Amc.PoseBone | amc.cpp:201-243 | exactly the posed bone is overwritten, with the transforms Pose gives |
| Kinematics.UnreachedCycleRanked | asf.cpp:379-393 | a parent cycle the root does not reach, as two hierarchy lines `A B` and `B A` build it, still admits a rank, so ApplyFrame poses that skeleton |
| AmcReader.Amc.ApplyFrameToBone | amc.cpp:199-250 | the recursion poses the bones as PoseTree says |
| AmcReader.Amc.ApplyFrameToChildren | amc.cpp:246-249 | the children loop follows the sibling chain and poses each child's subtree in turn, as PoseKids says |
| AmcReader.Amc.ApplyFrameToChild | amc.cpp:247-248 | one child's subtree is posed, and next_sibling gives the next child, -1 after the last |
| Kinematics.Rot | amc.cpp:188-190 | a rotation channel rotates by its component of the angles, about its unit axis |
| Kinematics.Rotations | amc.cpp:218-225 | the reverse loop gives one rotation per axis, the last axis first |
| Kinematics.RootMv | amc.cpp:181-194 | root_mv is the translation by the skeleton's root position, then by the frame's root translation, then one rotation per root axis, last axis first |
| Kinematics.RotationsConcat | amc.cpp:218-225 | the rotations of a concatenated order are those of the second part, then those of the first |
| Kinematics.BoneDirTrans | amc.cpp:204-215 | bone_dir_trans rotates by acos(direction.y) about (0, 1, 0) × direction, and is the zero rotation about Z when the direction is (0, 1, 0) |
| Kinematics.BoneDirAxisPerpendicular | amc.cpp:207-209 | the rotation axis is perpendicular to both (0, 1, 0) and the bone's direction |
| Kinematics.Pose | amc.cpp:201-243 | posing changes only the five transform fields of a bone |
| Kinematics.ChildMv | amc.cpp:246 | the word a bone hands to its children is its motion_trans followed by exactly one translation, by length × direction |
| Kinematics.PoseComposition | amc.cpp:230-243 | still_trans is mv, local_trans_inv inverts local_trans, and motion_trans = still · local · rotations · local⁻¹, where the rotations come in reverse axis_order, so the leftmost rotation factor is that of the last axis_order entry |
| Kinematics.PoseOverwrites | amc.cpp:215-243 | a pose does not depend on the bone's previous transforms |
| Kinematics.Walk | amc.cpp:246-249 | the walk from a bone starts at it and stays within its subtree |
| Kinematics.WalkKids | amc.cpp:247-249 | the children's walks stay strictly below the bone |
| Kinematics.PoseTree | amc.cpp:199-250 | posing a subtree changes only transforms and keeps every axis order rotation-only |
| Kinematics.PoseKids | amc.cpp:246-249 | posing the children changes only transforms |
| Kinematics.SameSkeletonLinked | amc.cpp:201-243 | posing keeps the parent, first_child and next_sibling links consistent |
| Kinematics.SiblingsDistinct | asf.cpp:389-393 | no bone is listed twice among one bone's children |
| Kinematics.WalkParent | amc.cpp:247-248 | every bone reached after the first is a listed child of a bone reached earlier, and names it as parent |
| Kinematics.WalksApart | amc.cpp:246-249 | the subtrees of two different children share no bone |
| Kinematics.WalkKidsApart | amc.cpp:246-249 | a child's subtree shares no bone with the subtrees of later siblings |
| Kinematics.WalkPreorder | amc.cpp:246-249 | the walk visits every bone after its parent |
| Kinematics.WalkKidsPreorder | amc.cpp:246-249 | in the children's walks, every bone comes after its parent, or is a direct child |
| Kinematics.PoseTreeOutside | amc.cpp:199-250 | bones outside the subtree keep their value |
| Kinematics.PoseKidsOutside | amc.cpp:246-249 | bones outside the children's subtrees keep their value |
| Kinematics.PoseTreeWrites | amc.cpp:230-248 | the root of the walk is posed with mv, and every other bone of the subtree with its parent's final motion_trans translated by length × direction |
| Kinematics.PoseKidsWrites | amc.cpp:246-249 | each direct child is posed with mv, and every deeper bone with its parent's child word |

## Left out

**Not modelled**
- Output is not modelled: the version warning, the unknown-keyword and unknown-section warnings, and `dump_hierarchy`'s printing. None of it changes any state.
- The `:FULLY-SPECIFIED` keyword is not modelled separately. It only suppresses a warning, so it changes nothing, like any other ':' line.
- Floating point is not modelled. Values are exact reals, and `acosf`, the cross product's float rounding and `mat4::inverse` are symbolic.
- `mat4` products are symbolic words, not 4×4 matrices.
- The C library's numeric conversions are abstract functions. This covers:
  - `>>` into a float or int;
  - `sscanf` on limit lines;
  - `strtol` on frame lines, including its `errno` and end-pointer checks.
- Stream failure states beyond eof are not modelled. An extraction fails here only when nothing but whitespace is left, and then the modelled stream is at its end.
- The files are given as sequences of lines. Opening and reading the streams is not modelled.
- `reset_transforms` and `reset_bone_transform` are declared in asf.hpp but not defined in asf.cpp or amc.cpp. They are not part of this model.
- main.cpp, render_output.cpp and window.cpp are not part of this model. They hold drawing, windowing and program set-up.
- Modelling choices for the headers:
  - asf.hpp names its members `bs`, `r_axis` and so on, while asf.cpp uses `bones`, `root_axis` and others. The model follows asf.cpp.
  - asf.hpp's `Axis` enum lists only RX to TZ, but asf.cpp stores LX, LY and LZ for `lx`/`ly`/`lz` DOF words. These are three more kinds here.

**Deliberate deviations and weakened contracts**
- AsfReader.Strip: models the code, which keeps trailing whitespace and a trailing carriage return. The comment at asf.cpp:105 promises their removal. The trailing scan at asf.cpp:26 moves forward and stops at the terminating NUL.
- AsfReader.Asf.constructor: `length_default` is read at asf.cpp:231 and written at asf.cpp:140, but asf.hpp declares it nowhere and gives it no initial value. It is a constructor parameter.
- AsfReader.Asf.constructor: the vec3 members `r_pos` and `r_orient` and the bone transforms start at zero or the identity; the header gives them no explicit initialiser. The C++ constructor is split into the constructor and `AsfReader.Asf.Read`.
- AsfParse.BoneBlock: a `limits` line in a bone with no DOFs makes asf.cpp offer the same line to itself forever. The model reports LimitsWithoutDof instead of running forever.
- AsfParse.LimitLine: the limit pair is stored as read, without scaling by the angle or length unit, as in the code.
- AsfParse.HierarchyLines: a hierarchy section that reaches the end of input without `end` is accepted, as in the code.
- AmcParse.Grow: the prepend path at amc.cpp:102-110 moves `old_size` bytes, not frames, with `memmove`, and only reserves the new frames' transformations. The model gives the evidently intended behaviour: old frames keep their frame numbers and the new frames are blank, with one zero Transformation per bone.
- AmcParse.MotionLine: a bone line of a known bone before any frame marker, and a root line that would read into or scale `fs[-1]`, index `fs[-1]` in the code. The model reports NoCurrentFrame for them. An unknown bone, and a root line whose loop stops before it touches the frame, give the code's own errors (see UnframedRoot).
- Lexing.ReadReal: a `>>` into a float is modelled as taking the next whitespace-delimited word whole and converting it with the abstract `Numerals.toReal`. The C++ extraction stops at the first character that cannot continue a number, and on a word that does not start a number it sets failbit without eof, after which every later extraction fails too. Malformed numerals are outside the model. So an AMC line `root 1 2 x 4 5 6` with six root channels throws "Too many axes" in the code (after the failed read eof is never set, so the remaining reads fail too and the eof check after the loop throws), while RootLineCount counts six values and succeeds; bone lines (amc.cpp:156, 166-167) behave the same way.
- Lexing.ReadVec3: built from ReadReal, so the same limit applies. An ASF `direction 1 2x 3` reads 1 and 2 in the code and then stops at `x`, while the model reads three words.
- Lexing.ReadInt: a `>>` into an int takes the next word whole, like ReadReal, and malformed integers are outside the model.
- AmcParse.BoneValues: the uninitialised `val` at amc.cpp:155 is taken as 0.0 when a read fails.
- AmcParse.FrameMarker: the conversion of the `long` from `strtol` to `int` is not modelled. Frame numbers are unbounded.
- AmcReader.Amc.Read: the C++ constructor is split into the constructor and `Read`, which takes the skeleton's bones, root order and length unit through the `asf` field.
- AmcReader.Amc.ApplyFrame: requires a skeleton as the reader builds it: consistent links and rotation-only axis orders. The "Bad rotation axis" throws of amc.cpp:191, 223 and 238 therefore cannot happen and are not modelled.
- AmcReader.Amc.ApplyFrame: requires a rank that falls from the root to its children and on through every bone the walk reaches. Bones the walk never reaches take rank 0 and are unconstrained. asf.cpp does not rule out cycles in the hierarchy. A cycle the root reaches makes `apply_frame_to_bone` recurse without end, so it is excluded. A cycle the root does not reach (hierarchy lines `A B` then `B A`) is never visited; the code poses such a skeleton, and so does the model (see Kinematics.UnreachedCycleRanked).
- AmcReader.Amc.ApplyFrame: a skeleton without a root (`root` = -1) gives NoRoot. In the code, `bones()[-1]` is undefined behaviour.
- AmcReader.Amc.ApplyFrame: requires every frame to hold one Transformation per bone, which `AmcParse.Motion` guarantees.
- AmcReader.Amc.ApplyFrame: partial updates made before an exception are not observable, because every failing path returns before changing anything.
