# Animated Diagrams: a verified model of the editor core

Animated Diagrams is a freehand diagram editor. Its diagrams are lists of items: SVG paths, circles, and pause and speed hints that steer the drawing animation. Each item is stored as an SVG path string. This project models in Dafny the parts of the editor that decide what happens to those strings and lists, and proves what they promise:

- **Path geometry** (`Path.cs`, `PathData.cs`, `SmoothingStrategies.cs`):
  - the character scanner, and the pen state that follows the SVG 1.1 pen rules of each path command (section 8.3 of SVG 1.1);
  - `MovePathBy`, `GetBounds` and the hit tests;
  - the space-separated token walkers (`GetPoints`, `GetPathNodesWithType`, `EstimatedLength`, `OffsetPathD`, `ToPoints`);
  - the point-list to path builders and the adaptive step.
- **Editor services**:
  - `PathEditorState`, the item list with its selection, modes and viewport;
  - `ItemLocationCache`, the grid of buckets used for hit tests;
  - `UndoRedoService`, `PensService`, `SettingsService` and `StyleRuleService`;
  - the pure parts of `SvgFileService`: export framing and emission, and import mapping, zoom and grid.
- **Items** (`PathItems.cs`): the item kinds, their defaults and the 12-character id.
- **The standalone animator** (`src/animation.js`): reordering the element list and changing the selection.

One file per part, each a module of the same name:

- `core`: points, rectangles, clamps, the `double.MaxValue` sentinels and the abstract runtime numerics;
- `text`: whitespace, trimming, splitting and case;
- `path_scanner`, `path_move` and `path_shift`: `MovePathBy`;
- `path_bounds`: `GetBounds`;
- `path_hit`: hit testing;
- `path_tokens` and `path_data`: the token walkers;
- `smoothing`;
- `path_items`;
- `editor_state`;
- `location_cache`;
- `undo_redo`, `pens`, `settings` and `style_rules`;
- `svg_file`;
- `animator`.

Coordinates are `real`. The runtime's number parsing and formatting, `Math.Sqrt` and `Math.Acos` form one record of function values, `Core.Numerics`. The model passes that record as a parameter. Lemmas that depend on how those functions behave state their laws as preconditions, for example "`0.##` text of a whole number of hundredths parses back to the same number".

## Model

| member | source | states |
|---|---|---|
| UndoRedo.PushState | src/AnimatedDiagrams/Services/UndoRedoService.cs:11-15 | the pushed state becomes the undo top over the old stack, and the redo stack is emptied |
| UndoRedo.Undo | src/AnimatedDiagrams/Services/UndoRedoService.cs:8-22 | nothing comes back exactly when the undo stack is empty, and then the history is unchanged; otherwise the old undo top comes back, the rest of the undo stack stays, and the redo stack is the old one with `current` on top |
| UndoRedo.Redo | src/AnimatedDiagrams/Services/UndoRedoService.cs:9-29 | nothing comes back exactly when the redo stack is empty, and then the history is unchanged; otherwise the old redo top comes back, the rest of the redo stack stays, and the undo stack is the old one with `current` on top |
| UndoRedo.UndoRedoKeepCount | src/AnimatedDiagrams/Services/UndoRedoService.cs:17-29 | undo and redo keep the total number of stored states |
| UndoRedo.RedoAfterUndo | src/AnimatedDiagrams/Services/UndoRedoService.cs:17-29 | a redo right after an undo hands back the state that was current and restores both stacks exactly |
| UndoRedo.UndoAfterRedo | src/AnimatedDiagrams/Services/UndoRedoService.cs:17-29 | an undo right after a redo hands back the state that was current and restores both stacks exactly |
| UndoRedo.Undos | src/AnimatedDiagrams/Services/UndoRedoService.cs:17-22 | `n` undos in a row leave the bottom of the undo stack; the `n`-th state from its top becomes current; the redo stack is the old one, then `current`, then the states popped on the way in the order they were popped |
| UndoRedo.Redos | src/AnimatedDiagrams/Services/UndoRedoService.cs:24-29 | `n` redos in a row leave the bottom of the redo stack; the `n`-th state from its top becomes current; the undo stack is the old one, then `current`, then the states popped on the way in the order they were popped |
| UndoRedo.RedosUndoUndos | src/AnimatedDiagrams/Services/UndoRedoService.cs:17-29 | `n` undos followed by `n` redos return to the starting state with the starting stacks |
| Settings.Load | src/AnimatedDiagrams/Services/SettingsService.cs:39-47 | missing or blank storage gives the defaults; otherwise the decoded settings, or the defaults when decoding yields nothing |
| Settings.Stored | src/AnimatedDiagrams/Services/SettingsService.cs:41 | storage yields a value exactly when the key is present |
| Settings.Save | src/AnimatedDiagrams/Services/SettingsService.cs:32-37 | the encoded settings are stored under "app-settings", and every other key keeps its value |
| Settings.SaveThenCreate | src/AnimatedDiagrams/Services/SettingsService.cs:25-47 | a service created after a save starts with the saved settings, when the encoding is not blank and decodes back |
| Settings.Create | src/AnimatedDiagrams/Services/SettingsService.cs:25-30 | the new service is published as `Instance`, does not prefer dark, and starts with the defaults when nothing is stored |
| Settings.EffectiveTheme | src/AnimatedDiagrams/Services/SettingsService.cs:51-55 | the result is never `System`; an explicit theme is returned as is; `System` gives Dark exactly when the system prefers dark |
| Settings.UpdateSystemTheme | src/AnimatedDiagrams/Services/SettingsService.cs:57-64 | with no `Instance` nothing changes; otherwise the instance's preference becomes `dark` and its settings are kept |
| Settings.ExplicitThemeIgnoresSystem | src/AnimatedDiagrams/Services/SettingsService.cs:51-64 | with an explicit theme, an update of the system preference leaves the effective theme as it was |
| Settings.SystemThemeFollowsUpdate | src/AnimatedDiagrams/Services/SettingsService.cs:51-64 | with the `System` theme, after an update the effective theme is Dark exactly when dark was reported |
| Pens.NewPen | src/AnimatedDiagrams/Models/PenModel.cs:5-11 | a new pen has the given id, width 3 and opacity 1 |
| Pens.IndexOf | src/AnimatedDiagrams/Services/PensService.cs:39-56 | the first position holding the id, or -1 exactly when no pen has it |
| Pens.FirstId | src/AnimatedDiagrams/Services/PensService.cs:17 | no id exactly for an empty list; otherwise the first pen's id |
| Pens.ActivePen | src/AnimatedDiagrams/Services/PensService.cs:9 | with an active id, a pen exactly when some pen has that id, and then it has that id; with none, a pen exactly when the list is not empty |
| Pens.ActiveIndex | src/AnimatedDiagrams/Services/PensService.cs:53-57 | -1 exactly when no id is active or no pen has it; otherwise the position of a pen with the active id |
| Pens.SetPens | src/AnimatedDiagrams/Services/PensService.cs:12-51 | the list is replaced; the active id is absent exactly when the list is empty, is always a listed pen, and is kept when still listed |
| Pens.SetActivePen | src/AnimatedDiagrams/Services/PensService.cs:21-28 | a listed id becomes active; any other id changes nothing |
| Pens.Cycle | src/AnimatedDiagrams/Services/PensService.cs:30-44 | no change on an empty list; otherwise a listed pen becomes active: the first one when no listed pen is active, else the one at (index + 1) mod Count |
| Pens.IndexOfUnique | src/AnimatedDiagrams/Services/PensService.cs:39 | with distinct ids, the pen at position `k` is found at `k` |
| Pens.CyclesAdvance | src/AnimatedDiagrams/Services/PensService.cs:39-41 | `n` cycles from an active listed pen move its position `n` steps round the ring |
| Pens.AdvanceIsMod | src/AnimatedDiagrams/Services/PensService.cs:40 | `n` steps round a ring of `c` from `k` land on (k + n) mod c |
| Pens.CyclesModCount | src/AnimatedDiagrams/Services/PensService.cs:39-41 | `n` cycles land on the pen at (index + n) mod Count |
| Pens.CycleRoundTrip | src/AnimatedDiagrams/Services/PensService.cs:39-41 | with distinct ids and an active listed pen, Count cycles return to the starting pen |
| StyleRules.Compare | src/AnimatedDiagrams/Services/StyleRuleService.cs:91-103 | true only when the right side parses and the comparison is known; once it parses, `Equal` holds exactly within the 0.0001 tolerance and each ordering holds exactly as its strict or non-strict comparison |
| StyleRules.EstimatePathLength | src/AnimatedDiagrams/Services/StyleRuleService.cs:105-109 | the estimate lies between 0 and the length of the data |
| StyleRules.EstimateOfAppend | src/AnimatedDiagrams/Services/StyleRuleService.cs:105-109 | the estimate of joined data is the sum of the estimates, so it counts characters one by one |
| StyleRules.Matches | src/AnimatedDiagrams/Services/StyleRuleService.cs:55-85 | a path matches exactly when every condition holds (an unknown field holds) |
| StyleRules.EmptyRuleMatches | src/AnimatedDiagrams/Services/StyleRuleService.cs:55-85 | a rule without conditions matches every path |
| StyleRules.GetMatches | src/AnimatedDiagrams/Services/StyleRuleService.cs:50-53 | every match is a matching path of the list, and every matching path of the list is a match |
| StyleRules.GetMatchesOfAppend | src/AnimatedDiagrams/Services/StyleRuleService.cs:50-53 | matching distributes over joined lists, so the matches keep the input order |
| StyleRules.OrderingsComplement | src/AnimatedDiagrams/Services/StyleRuleService.cs:97-100 | once the right side parses, `Less` holds exactly when `GreaterOrEqual` does not, and `Greater` exactly when `LessOrEqual` does not |
| StyleRules.EqualIsSymmetric | src/AnimatedDiagrams/Services/StyleRuleService.cs:96 | with a number printer that reads back, `Equal` does not depend on which side is printed |
| StyleRules.EqualIsReflexive | src/AnimatedDiagrams/Services/StyleRuleService.cs:96-100 | a value compares `Equal`, `LessOrEqual` and `GreaterOrEqual` to its own printed form |
| StyleRules.StringEqualsSymmetric | src/AnimatedDiagrams/Services/StyleRuleService.cs:86-89 | string equality of conditions is symmetric |
| StyleRules.StringEqualsIgnoresLeadingBlank | src/AnimatedDiagrams/Services/StyleRuleService.cs:88 | a leading blank does not affect string equality |
| StyleRules.WithOpacity | src/AnimatedDiagrams/Services/StyleRuleService.cs:154 | the path with only its opacity replaced |
| StyleRules.Effect | src/AnimatedDiagrams/Services/StyleRuleService.cs:148-174 | a numeric action sets its field when the value parses and is skipped otherwise; a text action sets its field unless the value is blank; speed, glow and unknown actions change nothing; the data, stroke and bounds never change |
| StyleRules.Effects | src/AnimatedDiagrams/Services/StyleRuleService.cs:146-175 | a rule's actions never change the data, stroke or bounds |
| StyleRules.Step | src/AnimatedDiagrams/Services/StyleRuleService.cs:145-176 | a rule that does not match leaves the item as it is; otherwise the highlight is set; id and selection are kept |
| StyleRules.Steps | src/AnimatedDiagrams/Services/StyleRuleService.cs:143-177 | the rules in turn keep id, selection, data, stroke and bounds, and never clear a highlight |
| StyleRules.Apply | src/AnimatedDiagrams/Services/StyleRuleService.cs:140-178 | a non-path item is unchanged; a path keeps id, selection, data, stroke and bounds and never loses its highlight |
| StyleRules.StepsOfAppend | src/AnimatedDiagrams/Services/StyleRuleService.cs:143 | applying two rule lists one after the other is applying their concatenation |
| StyleRules.ApplyOfAppend | src/AnimatedDiagrams/Services/StyleRuleService.cs:140-178 | `Apply` with a concatenated rule list is `Apply` with the first list, then with the second |
| StyleRules.HighlightIffMatched | src/AnimatedDiagrams/Services/StyleRuleService.cs:143-177 | after `Apply` a path is highlighted exactly when it already was or some rule matched it at its turn |
| StyleRules.LastWidthRuleWins | src/AnimatedDiagrams/Services/StyleRuleService.cs:150-176 | a final rule without conditions whose only action sets a parsable width decides the width and highlights the path |
| StyleRules.AddRule | src/AnimatedDiagrams/Services/StyleRuleService.cs:25-29 | the rule is appended and the earlier rules are kept |
| StyleRules.DeleteRule | src/AnimatedDiagrams/Services/StyleRuleService.cs:31-35 | the first rule with the id is taken out and the others keep their order; a missing id changes nothing |
| StyleRules.DeleteAfterAdd | src/AnimatedDiagrams/Services/StyleRuleService.cs:25-35 | deleting a rule just added with a new id restores the list |
| StyleRules.CopyOf | src/AnimatedDiagrams/Services/StyleRuleService.cs:39-44 | the copy has the new id, the name with " Copy" appended, and the same conditions and actions |
| StyleRules.Duplicate | src/AnimatedDiagrams/Services/StyleRuleService.cs:37-47 | the copy is appended and the list before it is unchanged |
| StyleRules.DeleteUndoesDuplicate | src/AnimatedDiagrams/Services/StyleRuleService.cs:31-47 | deleting the duplicate by its new id restores the list |
| StyleRules.DuplicateMatchesAlike | src/AnimatedDiagrams/Services/StyleRuleService.cs:42-53 | a duplicate matches the same paths as its original |
| StyleRules.IdsOf | src/AnimatedDiagrams/Services/StyleRuleService.cs:187 | the ids of the items, in order |
| StyleRules.MatchesIgnoreFlags | src/AnimatedDiagrams/Services/StyleRuleService.cs:50-183 | which items match does not depend on their highlight and selection flags |
| StyleRules.Lit | src/AnimatedDiagrams/Services/StyleRuleService.cs:183 | the items with exactly the matching paths additionally highlighted; nothing else changes |
| StyleRules.HighlightMatches | src/AnimatedDiagrams/Services/StyleRuleService.cs:180-191 | the matching paths are highlighted; without an editor attached nothing else changes; with one the matches become the selection; the matches are returned |
| StyleRules.ReturnedAreMatches | src/AnimatedDiagrams/Services/StyleRuleService.cs:180-191 | every returned item is a highlighted matching path of the list, and every matching path is returned |
| StyleRules.SelectedIffMatched | src/AnimatedDiagrams/Services/StyleRuleService.cs:185-188 | with unique ids and an editor attached, exactly the matching paths end up selected |
| StyleRules.MatchIdOnlyFor | src/AnimatedDiagrams/Services/StyleRuleService.cs:187 | with unique ids, an item's id is among the matches' ids exactly when the item matches |
| Core.Sq | src/AnimatedDiagrams/PathGeometry/Path.cs:673-682 | a square is never negative, and positive for a non-zero value |
| Core.DistSq | src/AnimatedDiagrams/PathGeometry/Path.cs:673-682 | the squared distance that the hit tests compare is never negative |
| Core.Clamp | src/AnimatedDiagrams/Services/PathEditorState.cs:159 | `Math.Clamp` lands inside the bounds, is the identity on them, and saturates below and above; the call is only defined when the lower bound does not exceed the upper |
| Core.ClampReal | src/AnimatedDiagrams/Models/SmoothingStrategies.cs:34 | the clamped cosine lies inside the bounds and is unchanged when already inside |
| Core.Truncate | src/AnimatedDiagrams/Services/ItemLocationCache.cs:139-140 | the `(int)` cast rounds toward zero: it is within one below a non-negative value and within one above a negative one |
| Core.Lowest | src/AnimatedDiagrams/PathGeometry/Path.cs:224 | the running minimum started at `double.MaxValue` is below every contributed value and is either the sentinel or one of them |
| Core.Highest | src/AnimatedDiagrams/PathGeometry/Path.cs:224 | the running maximum started at `double.MinValue` is above every contributed value and is either the sentinel or one of them |
| Core.BoundsOf | src/AnimatedDiagrams/PathGeometry/Path.cs:417-419 | the rectangle holds every contributed coordinate and touches the smallest and largest on each axis; with no x contributed it is the zero rectangle; with x values but no y the sentinels leak into y and height |
| Core.BoundsOfNonNegative | src/AnimatedDiagrams/PathGeometry/Path.cs:417-419 | once an x and a y were both contributed, width and height are non-negative |
| Core.RereadCents | src/AnimatedDiagrams/Models/SmoothingStrategies.cs:88-90 | a value with whole hundredths survives a trip through `"0.##"` and back unchanged |
| Core.SqrtOfSquare | src/AnimatedDiagrams/PathGeometry/Path.cs:681 | `Math.Sqrt` of a square of a non-negative value gives the value back |
| Core.SqrtBelow | src/AnimatedDiagrams/PathGeometry/Path.cs:431 | comparing a distance with the threshold is the same as comparing its square with the threshold squared |
| Text.ToUpper | src/AnimatedDiagrams/PathGeometry/Path.cs:27-28 | upper-casing changes exactly the ASCII lower-case letters, each by 32 |
| Text.ToLower | src/AnimatedDiagrams/Models/PathItems.cs:21 | lower-casing changes exactly the ASCII upper-case letters, each by 32 |
| Text.LowerString | src/AnimatedDiagrams/Models/PathItems.cs:21 | lower-casing a string keeps its length and lowers each character in place |
| Text.TrimStart | src/AnimatedDiagrams/PathGeometry/Path.cs:218 | the result is a suffix of the input, what was dropped is all whitespace, and the result does not start with whitespace |
| Text.TrimEnd | src/AnimatedDiagrams/PathGeometry/Path.cs:218 | the result is a prefix of the input, what was dropped is all whitespace, and the result does not end with whitespace |
| Text.Words | src/AnimatedDiagrams/PathGeometry/Path.cs:688 | `Split(..., RemoveEmptyEntries)` returns only non-empty pieces holding no separator |
| Text.WordsOfTrim | src/AnimatedDiagrams/PathGeometry/Path.cs:218 | trimming a string whose whitespace are all separators does not change how it splits |
| Text.WordsOfSpaceAfterEach | src/AnimatedDiagrams/PathGeometry/Path.cs:1003-1014 | tokens without whitespace, each appended with a trailing space, split back into exactly the tokens |
| Text.WordsOfJoin | src/AnimatedDiagrams/Models/SmoothingStrategies.cs:87-118 | words joined by single spaces split back into exactly the words |
| PathScanner.SkipSeparators | src/AnimatedDiagrams/PathGeometry/Path.cs:34 | what is left is a suffix of the input that does not start with whitespace or a comma |
| PathScanner.RunLength | src/AnimatedDiagrams/PathGeometry/Path.cs:37-247 | the number run is the longest prefix of digits, '-' and '.' (and 'e'/'E' in `MovePathBy`), and the character after it is not one of them |
| PathScanner.Numbers | src/AnimatedDiagrams/PathGeometry/Path.cs:31-43 | the scan never grows the text: what remains after the numbers is no longer than the input |
| PathScanner.Tokens | src/AnimatedDiagrams/PathGeometry/Path.cs:21-29 | every command the scan produces has a letter for its command character |
| PathScanner.Draw | src/AnimatedDiagrams/PathGeometry/Path.cs:256-405 | each drawn segment except a moveto starts at the current point, the pen ends at the segment's end, only a moveto starts a new subpath, and the previous-command letter is left to the caller |
| PathScanner.Groups | src/AnimatedDiagrams/PathGeometry/Path.cs:256-405 | a letter that is not a path command draws nothing and leaves the pen alone; the previous-command letter is untouched |
| PathScanner.Run | src/AnimatedDiagrams/PathGeometry/Path.cs:406-416 | every command, whether or not it drew anything, becomes the previous command |
| PathScanner.GroupsChained | src/AnimatedDiagrams/PathGeometry/Path.cs:256-405 | the segments of one command form a chain from the current point that ends where the pen ends |
| PathScanner.TraceChained | src/AnimatedDiagrams/PathGeometry/Path.cs:229-416 | the segments of a whole command list form one connected chain from the starting pen |
| PathScanner.Trace | src/AnimatedDiagrams/PathGeometry/Path.cs:222-420 | no contract of its own: the segments the commands draw in turn from the pen; `PathScanner.TraceChained` proves they form one chain |
| PathScanner.Segments | src/AnimatedDiagrams/PathGeometry/Path.cs:222-420 | no contract of its own: the trace of the scanned commands from the origin; `PathScanner.SegmentsChained` proves it is one chain |
| PathScanner.SegmentsChained | src/AnimatedDiagrams/PathGeometry/Path.cs:222-232 | the segments of a path string form one chain starting at the origin |
| PathMove.ShiftGroup | src/AnimatedDiagrams/PathGeometry/Path.cs:48-209 | a moved group keeps its length and each number receives its offset: x positions dx, y positions dy, H only dx, V only dy, an arc only its endpoint |
| PathMove.MoveGroups | src/AnimatedDiagrams/PathGeometry/Path.cs:48-209 | only complete groups are written, they use up all but fewer than one group of the numbers, only a moveto can clear the first-relative-moveto flag, and once clear it stays clear |
| PathMove.Rewrite | src/AnimatedDiagrams/PathGeometry/Path.cs:21-217 | one rewritten command per scanned command, with the same letter and the same "more input follows" flag |
| PathMove.MovePathByWith | src/AnimatedDiagrams/PathGeometry/Path.cs:13 | a blank string comes back unchanged |
| PathMove.MovePathBy | src/AnimatedDiagrams/PathGeometry/Path.cs:13 | a blank string comes back unchanged |
| PathMove.MovePathByFixed | src/AnimatedDiagrams/PathGeometry/Path.cs:13 | a blank string comes back unchanged |
| PathMove.TokensMoreUntilLast | src/AnimatedDiagrams/PathGeometry/Path.cs:24-216 | only the last scanned command can have nothing after its numbers, so every command but the last is followed by one space |
| PathMove.TrimEmit | src/AnimatedDiagrams/PathGeometry/Path.cs:216-218 | the final `Trim` removes exactly the one trailing space and leaves the commands separated by single spaces |
| PathMove.Emit | src/AnimatedDiagrams/PathGeometry/Path.cs:48-219 | the written text is empty exactly when there are no commands, and otherwise opens with the first command's letter |
| PathMove.RewriteFullGroups | src/AnimatedDiagrams/PathGeometry/Path.cs:49-209 | every group written is a full group of its command |
| PathMove.PrintedExact | src/AnimatedDiagrams/PathGeometry/Path.cs:61-203 | a group whose numbers are whole hundredths (and whole arc flags) reads back from its `"0.##"`/`"0"` text as the same numbers |
| PathMove.MovePathByReadsBack | src/AnimatedDiagrams/PathGeometry/Path.cs:11-219 | rescanning the text `MovePathBy` writes gives, command by command, the letters it read with the numbers it printed |
| PathMove.ReadBackExact | src/AnimatedDiagrams/PathGeometry/Path.cs:11-219 | when every number prints exactly, the written text reads back as the moved commands |
| PathMove.RewriteExact | src/AnimatedDiagrams/PathGeometry/Path.cs:48-209 | moving exact arguments by an exact offset keeps every written number exact |
| PathShift.ShiftAll | src/AnimatedDiagrams/PathGeometry/Path.cs:11-219 | moving a drawing moves each segment in place and keeps their number |
| PathShift.ShiftAllAppend | src/AnimatedDiagrams/PathGeometry/Path.cs:11-219 | moving a drawing piece by piece is moving it whole |
| PathShift.ShiftSegmentUndone | src/AnimatedDiagrams/PathGeometry/Path.cs:11-219 | moving a segment and then moving it back by the negated offset gives the segment back |
| PathShift.DrawShift | src/AnimatedDiagrams/PathGeometry/Path.cs:76-209 | an absolute group written moved, or a relative group written as it was, draws the original segment moved, from a pen that is the original pen moved |
| PathShift.DrawShiftCurve | src/AnimatedDiagrams/PathGeometry/Path.cs:134-190 | the same for C, S, Q and T, whose control point then follows the move too |
| PathShift.DrawShiftStraight | src/AnimatedDiagrams/PathGeometry/Path.cs:76-209 | the same for L, H, V, A and M |
| PathShift.GroupsShift | src/AnimatedDiagrams/PathGeometry/Path.cs:76-209 | after the opening moveto, all groups of one command, rewritten, draw the original segments moved |
| PathShift.GroupsShiftNone | src/AnimatedDiagrams/PathGeometry/Path.cs:49-192 | a command with too few numbers for a group draws nothing, before and after the rewrite |
| PathShift.GroupsShiftStep | src/AnimatedDiagrams/PathGeometry/Path.cs:76-209 | one complete group in front of the later ones keeps the moved drawing |
| PathShift.RunShift | src/AnimatedDiagrams/PathGeometry/Path.cs:46-215 | after the opening moveto, one rewritten command draws its segments moved and leaves the pen moved |
| PathShift.TraceShift | src/AnimatedDiagrams/PathGeometry/Path.cs:21-217 | after the opening moveto, the rewritten commands draw the original segments moved |
| PathShift.FirstMoveShift | src/AnimatedDiagrams/PathGeometry/Path.cs:48-75 | the opening moveto, relative or absolute, is moved; with the flag cleared by any moveto no later relative pair is moved again |
| PathShift.MoveFixedShiftsTrace | src/AnimatedDiagrams/PathGeometry/Path.cs:11-219 | with the moveto flag cleared by any moveto, the rewritten commands of a path that opens with a moveto draw the original drawing moved by the offset |
| PathShift.TraceOfBodies | src/AnimatedDiagrams/PathGeometry/Path.cs:229-416 | the drawing depends only on the letters and numbers of the commands, not on what followed them |
| PathShift.MovePathByFixedMovesDrawing | src/AnimatedDiagrams/PathGeometry/Path.cs:11-219 | for a path that opens with a moveto, whose every curve command carries at least one complete group of coordinates, and whose moved numbers print exactly, rescanning the moved text draws the original path moved by the offset |
| PathShift.MovePathByKeepsLetters | src/AnimatedDiagrams/PathGeometry/Path.cs:45-216 | the moved text holds the same commands, in the same order, with the same letters and case |
| PathShift.TraceOfTwoMoves | src/AnimatedDiagrams/PathGeometry/Path.cs:256-270 | `M x0 y0 m x1 y1` draws two movetos, the second relative to the first |
| PathShift.RewriteOfTwoMoves | src/AnimatedDiagrams/PathGeometry/Path.cs:20-75 | as written, moving `M 0 0 m 5 5` by (1, 1) moves both pairs, giving `M 1 1 m 6 6` |
| PathShift.AsWrittenMovesRelativeMoveToTwice | src/AnimatedDiagrams/PathGeometry/Path.cs:20-75 | as written, the relative moveto after an absolute one is moved twice: the second subpath starts at (7, 7), not (6, 6) |
| PathBounds.GetBounds | src/AnimatedDiagrams/PathGeometry/Path.cs:222-420 | the box holds every coordinate the segments contribute (endpoints, the start and control points of curves, only x for H and only y for V, only the endpoint of an arc) and touches the extreme ones; with no contributed x it is the zero box at the origin |
| PathBounds.AllOfAppend | src/AnimatedDiagrams/PathGeometry/Path.cs:231-416 | the coordinates a drawing contributes are those of its parts, in order |
| PathBounds.DrawInBox | src/AnimatedDiagrams/PathGeometry/Path.cs:256-405 | a step from a pen inside a box whose contributions lie in the box keeps all its defining points and the pen inside the box |
| PathBounds.GroupsInBox | src/AnimatedDiagrams/PathGeometry/Path.cs:256-405 | the same for all groups of one command |
| PathBounds.RunInBox | src/AnimatedDiagrams/PathGeometry/Path.cs:254-416 | the same for one command, closepath included |
| PathBounds.TraceInBox | src/AnimatedDiagrams/PathGeometry/Path.cs:231-416 | the same for a whole command list |
| PathBounds.TraceOpensInBox | src/AnimatedDiagrams/PathGeometry/Path.cs:256-270 | once the opening moveto put the pen inside the box, every defining point of every segment lies inside any box holding the contributions |
| PathBounds.BoundsHoldEverySegment | src/AnimatedDiagrams/PathGeometry/Path.cs:222-420 | for a path that opens with a moveto, `GetBounds` holds every start, control point and end of every segment, not only the contributed coordinates |
| PathBounds.OpeningContributes | src/AnimatedDiagrams/PathGeometry/Path.cs:256-267 | the opening moveto contributes an x and a y |
| PathBounds.BoundsNonNegative | src/AnimatedDiagrams/PathGeometry/Path.cs:417-419 | once a moveto has been seen, the width and height are never negative |
| PathHit.Len2 | src/AnimatedDiagrams/PathGeometry/Path.cs:673-682 | the squared length of a segment is never negative and is zero only for a degenerate segment |
| PathHit.Ratio | src/AnimatedDiagrams/PathGeometry/Path.cs:678 | the projection quotient times the segment's squared length gives the dot product back |
| PathHit.ProjectionParameter | src/AnimatedDiagrams/PathGeometry/Path.cs:676-679 | the projection parameter is clamped to [0, 1] |
| PathHit.SquaredDistanceAlong | src/AnimatedDiagrams/PathGeometry/Path.cs:673-682 | the squared distance from the query point to the point a fraction along the segment is a quadratic in that fraction |
| PathHit.ClampedVertexIsLowest | src/AnimatedDiagrams/PathGeometry/Path.cs:678-679 | over [0, 1] that quadratic is lowest at its vertex clamped to [0, 1] |
| PathHit.ClosestIsNearest | src/AnimatedDiagrams/PathGeometry/Path.cs:673-682 | the clamped projection is no farther from the query point than any other point of the segment, so `DistanceToSegment` is the distance to the segment |
| PathHit.DistanceToSegment | src/AnimatedDiagrams/PathGeometry/Path.cs:673-682 | with a true square root the result is non-negative and its square is the squared distance from the query point to the clamped projection, which `PathHit.ClosestIsNearest` shows is the nearest point of the segment |
| PathHit.DistanceToPointOnSegment | src/AnimatedDiagrams/PathGeometry/Path.cs:673-682 | the distance to a segment vanishes at each of its points |
| PathHit.CubicSamples | src/AnimatedDiagrams/PathGeometry/Path.cs:500-522 | a cubic curve is sampled at ten parameters |
| PathHit.QuadraticSamples | src/AnimatedDiagrams/PathGeometry/Path.cs:552-574 | a quadratic curve is sampled at ten parameters |
| PathHit.CubicWithin | src/AnimatedDiagrams/PathGeometry/Path.cs:500-522 | every sample of a cubic lies between the smallest and largest of its four defining coordinates |
| PathHit.QuadraticWithin | src/AnimatedDiagrams/PathGeometry/Path.cs:552-574 | every sample of a quadratic lies between the smallest and largest of its three defining coordinates |
| PathHit.NearSegmentInGrownBox | src/AnimatedDiagrams/PathGeometry/Path.cs:431-682 | a query point within the threshold of a segment inside a box lies in the box widened by the threshold |
| PathHit.PolylineNearInGrownBox | src/AnimatedDiagrams/PathGeometry/Path.cs:500-600 | the same for a sampled polyline whose points lie inside the box |
| PathHit.SegmentNearInGrownBox | src/AnimatedDiagrams/PathGeometry/Path.cs:457-665 | the same for any drawn segment except an arc whose defining points lie inside the box |
| PathHit.NearPointIsNearBounds | src/AnimatedDiagrams/PathGeometry/Path.cs:423-670 | for a path that opens with a moveto and draws no arc, every point `IsNearPoint` accepts lies within the threshold of `GetBounds`, so the bounds are a sound pre-filter for hits |
| PathHit.IsNearPoint | src/AnimatedDiagrams/PathGeometry/Path.cs:423-670 | no contract of its own: some segment the scan draws passes within 5 of the query point (lines and closepaths by `DistanceToSegment`, curves by their ten samples, arcs by the sampled polyline); `PathHit.NearPointIsNearBounds` states what that implies |
| PathHit.DistSqSymmetric | src/AnimatedDiagrams/PathGeometry/Path.cs:866-877 | the squared distance does not depend on the order of the points |
| PathHit.SegmentIntersectsCircleMeaning | src/AnimatedDiagrams/PathGeometry/Path.cs:866-877 | a proper segment intersects the circle exactly when one of its points is within the radius of the centre |
| PathHit.SegmentIntersectsCircle | src/AnimatedDiagrams/PathGeometry/Path.cs:866-878 | no contract of its own: false for a zero-length segment, otherwise the clamped projection of the centre lies within the radius; `PathHit.SegmentIntersectsCircleMeaning` proves this means some point of the segment does |
| PathHit.IntersectsCircle | src/AnimatedDiagrams/PathGeometry/Path.cs:844-864 | no contract of its own: some point `GetPoints` finds lies within the radius, or the segment from the point before it meets the circle; `PathHit.IntersectsCircleMeaning` proves this means some point of the polyline does |
| PathHit.IntersectsCircleMeaning | src/AnimatedDiagrams/PathGeometry/Path.cs:844-864 | a path meets the circle exactly when some point of the polyline through the points `GetPoints` finds, a vertex or a point of a segment between neighbours, lies within the radius of the centre |
| PathHit.HitsPolylineMeaning | src/AnimatedDiagrams/PathGeometry/Path.cs:848-862 | the loop over the points returns true exactly when some point of their polyline lies within the radius |
| PathHit.HitIsWithin | src/AnimatedDiagrams/PathGeometry/Path.cs:852-859 | when the loop returns at a point, a vertex or a segment point within the radius exists |
| PathHit.WithinIsHit | src/AnimatedDiagrams/PathGeometry/Path.cs:848-862 | a polyline point within the radius gives a point of the list where the loop returns |
| PathHit.SegmentPointHit | src/AnimatedDiagrams/PathGeometry/Path.cs:855-859 | a point within the radius on the segment ending at the `i`-th point makes the loop return there, also when the segment has length zero and the point is the vertex itself |
| PathHit.PointWithinRadius | src/AnimatedDiagrams/PathGeometry/Path.cs:872-876 | when some point of the segment is within the radius, so is the clamped projection |
| PathHit.CircleIntersectsCircleMeaning | src/AnimatedDiagrams/PathGeometry/Path.cs:880-885 | two circles meet exactly when the squared distance of their centres is at most the square of the sum of their radii |
| PathHit.CircleIntersectsCircle | src/AnimatedDiagrams/PathGeometry/Path.cs:880-885 | no contract of its own: the square root of the squared centre distance is at most the radius sum; `PathHit.CircleIntersectsCircleMeaning` removes the root |
| PathHit.IsPointInCircle | src/AnimatedDiagrams/PathGeometry/Path.cs:953-958 | no contract of its own: the closed disc test on squared distances; `PathHit.PointInCircleIsZeroRadiusHit` relates it to the circle-circle test |
| PathHit.PointInCircleIsZeroRadiusHit | src/AnimatedDiagrams/PathGeometry/Path.cs:880-958 | a point lies in a circle exactly when the circle meets the zero-radius circle at that point |
| PathHit.CoordinateWithin | src/AnimatedDiagrams/PathGeometry/Path.cs:933-950 | a point within the radius of the centre lies in the circle's bounding square |
| PathHit.CircleIntersectsRectIsSquareOverlap | src/AnimatedDiagrams/PathGeometry/Path.cs:933-950 | for a non-negative radius the test accepts exactly when the circle's bounding square overlaps the rectangle: the centre and corner tests decide nothing the last test would not |
| PathHit.CircleIntersectsRect | src/AnimatedDiagrams/PathGeometry/Path.cs:933-950 | no contract of its own: the centre is inside, a corner is within the radius, or the circle's bounding square overlaps; `PathHit.CircleIntersectsRectIsSquareOverlap` shows the overlap alone decides |
| PathHit.CircleIntersectsRectMissesNothing | src/AnimatedDiagrams/PathGeometry/Path.cs:933-950 | no circle holding a point of the rectangle is rejected |
| PathHit.SkipToNumber | src/AnimatedDiagrams/PathGeometry/Path.cs:909-915 | the skip never grows the text and stops at a digit, '-' or '.' |
| PathHit.IntersectsRect | src/AnimatedDiagrams/PathGeometry/Path.cs:888-930 | the path hits the rectangle exactly when its cached bounds (if any) do not lie wholly outside and some coordinate pair the scan reads lies inside the closed rectangle |
| PathHit.AnyInBounds | src/AnimatedDiagrams/PathGeometry/Path.cs:906-927 | the search succeeds exactly when some pair lies inside the rectangle |
| PathHit.ScanPairs | src/AnimatedDiagrams/PathGeometry/Path.cs:902-927 | no contract of its own: two consecutive number runs make a pair wherever they stand, a first run that does not parse is dropped and a pair whose second run does not parse is dropped whole; `PathHit.AnyInBounds` states the search over them |
| PathTokens.ParseAll | src/AnimatedDiagrams/PathGeometry/Path.cs:758-782 | all tokens parse exactly when the result is present, and then it holds each token's value in order |
| PathTokens.CommandNodes | src/AnimatedDiagrams/PathGeometry/Path.cs:760-786 | one node per coordinate pair: the control points first and marked as controls, the endpoint last and unmarked |
| PathTokens.NodeWalk | src/AnimatedDiagrams/PathGeometry/Path.cs:748-795 | no contract of its own: the walk over the tokens that takes the nodes of each accepted `M`, `L`, `Q` or `C` and skips one token otherwise; `PathTokens.CommandNodes` states the nodes of one command |
| PathTokens.GetPathNodesWithType | src/AnimatedDiagrams/PathGeometry/Path.cs:748-795 | no contract of its own: `NodeWalk` over the split data; `PathTokens.GetPointsAreNodePositions` and `PathTokens.OffsetPathDMovesNodes` state its relation to the other walkers |
| PathTokens.Arguments | src/AnimatedDiagrams/PathGeometry/Path.cs:758-782 | an accepted command yields exactly as many numbers as it takes |
| PathTokens.Positions | src/AnimatedDiagrams/PathGeometry/Path.cs:748-841 | the positions of the nodes, one per node and in order |
| PathTokens.PointsAreNodePositions | src/AnimatedDiagrams/PathGeometry/Path.cs:748-841 | the token walk of `GetPoints` yields exactly the positions of the nodes the walk of `GetPathNodesWithType` yields |
| PathTokens.PointWalk | src/AnimatedDiagrams/PathGeometry/Path.cs:797-842 | no contract of its own: the points of each accepted command; `PathTokens.PointsAreNodePositions` proves they are the positions of the `NodeWalk` nodes |
| PathTokens.GetPoints | src/AnimatedDiagrams/PathGeometry/Path.cs:797-842 | no contract of its own: `PointWalk` over the split data; `PathTokens.GetPointsAreNodePositions` proves it lists the node positions |
| PathTokens.GetPointsAreNodePositions | src/AnimatedDiagrams/PathGeometry/Path.cs:748-841 | `GetPoints` lists exactly the positions of the nodes `GetPathNodesWithType` finds, in the same order |
| PathTokens.LengthWalkIsPolyline | src/AnimatedDiagrams/PathGeometry/Path.cs:685-745 | the length walk sums the distances between consecutive endpoints, starting from the last one seen |
| PathTokens.LengthWalk | src/AnimatedDiagrams/PathGeometry/Path.cs:685-745 | no contract of its own: the running sum of distances between consecutive endpoints; `PathTokens.LengthWalkIsPolyline` proves it is a polyline length |
| PathTokens.EstimatedLength | src/AnimatedDiagrams/PathGeometry/Path.cs:685-745 | no contract of its own: `LengthWalk` over the split data from no previous point; `PathTokens.EstimatedLengthIsPolyline` and `PathTokens.EstimatedLengthNonNegative` state what it is |
| PathTokens.EstimatedLengthIsPolyline | src/AnimatedDiagrams/PathGeometry/Path.cs:685-745 | `EstimatedLength` is the length of the polyline through the endpoints that `ToPoints`'s rule extracts from the space-separated tokens |
| PathTokens.PolylineLengthNonNegative | src/AnimatedDiagrams/PathGeometry/Path.cs:703-735 | a polyline length is never negative |
| PathTokens.EstimatedLengthNonNegative | src/AnimatedDiagrams/PathGeometry/Path.cs:685-745 | the estimated length is never negative |
| PathTokens.Shifted | src/AnimatedDiagrams/PathGeometry/Path.cs:975-1003 | the x offset is added at even argument positions and the y offset at odd ones |
| PathTokens.Texts | src/AnimatedDiagrams/PathGeometry/Path.cs:975-1003 | every shifted number is written in the default number format |
| PathTokens.ShiftNodes | src/AnimatedDiagrams/PathGeometry/Path.cs:961-1015 | moving nodes moves each position and keeps its kind |
| PathTokens.TextsReadBack | src/AnimatedDiagrams/PathGeometry/Path.cs:975-1003 | every number written in the default format parses back to itself |
| PathTokens.ParseTexts | src/AnimatedDiagrams/PathGeometry/Path.cs:971-1001 | the written numbers parse back, all of them, to the numbers |
| PathTokens.RewrittenAccepted | src/AnimatedDiagrams/PathGeometry/Path.cs:969-1007 | a rewritten command is accepted again, with its shifted numbers as arguments, and the rest follows it |
| PathTokens.ShiftedTwice | src/AnimatedDiagrams/PathGeometry/Path.cs:975-1003 | shifting twice is shifting once by the sum |
| PathTokens.OffsetWalkTwice | src/AnimatedDiagrams/PathGeometry/Path.cs:961-1015 | offsetting the tokens twice is offsetting them once by the sum, token for token |
| PathTokens.CommandNodesShifted | src/AnimatedDiagrams/PathGeometry/Path.cs:961-1007 | the nodes of shifted arguments are the moved nodes |
| PathTokens.OffsetWalkMovesNodes | src/AnimatedDiagrams/PathGeometry/Path.cs:961-1015 | the nodes of offset tokens are the original nodes, moved, with their kinds |
| PathTokens.OffsetWalkTokens | src/AnimatedDiagrams/PathGeometry/Path.cs:975-1011 | every written token is non-empty and holds no whitespace when the input tokens do |
| PathTokens.WordsOfOffsetPathD | src/AnimatedDiagrams/PathGeometry/Path.cs:963-1014 | splitting the `OffsetPathD` result on spaces gives back exactly the rewritten tokens |
| PathTokens.OffsetPathDTwice | src/AnimatedDiagrams/PathGeometry/Path.cs:961-1015 | offsetting a path twice is offsetting it once by the sum of the offsets |
| PathTokens.OffsetPathDMovesNodes | src/AnimatedDiagrams/PathGeometry/Path.cs:748-1015 | offsetting a path moves every node `GetPathNodesWithType` finds by the offset and keeps its kind |
| PathTokens.OffsetWalk | src/AnimatedDiagrams/PathGeometry/Path.cs:961-1016 | no contract of its own: accepted `M`, `L`, `Q` and `C` commands are written with moved numbers, other tokens copied; `PathTokens.OffsetWalkMovesNodes` and `PathTokens.OffsetWalkTwice` state its effect |
| PathTokens.OffsetPathD | src/AnimatedDiagrams/PathGeometry/Path.cs:961-1016 | no contract of its own: the offset walk over the split data, joined and trimmed; `PathTokens.OffsetPathDMovesNodes` and `PathTokens.OffsetPathDTwice` state its effect |
| PathData.Endpoints | src/AnimatedDiagrams/Models/PathData.cs:19-58 | a token list yields at most one endpoint per token |
| PathData.CommandCountAppend | src/AnimatedDiagrams/Models/PathData.cs:19-58 | the command tokens of a list are those of its parts |
| PathData.EndpointsAtMostCommands | src/AnimatedDiagrams/Models/PathData.cs:19-58 | every endpoint comes from a distinct command token |
| PathData.ToPoints | src/AnimatedDiagrams/Models/PathData.cs:13-60 | a blank string gives no points; otherwise at most one point per command token |
| Smoothing.HalfTowardZero | src/AnimatedDiagrams/Models/SmoothingStrategies.cs:42 | `maxStep / 2` truncates toward zero for either sign |
| Smoothing.AdaptiveStep | src/AnimatedDiagrams/Models/SmoothingStrategies.cs:18-44 | the chosen step is always the base step, the maximum step, or the larger of the base step and half the maximum |
| Smoothing.ComputeAdaptiveStep | src/AnimatedDiagrams/Models/SmoothingStrategies.cs:18-44 | the loop's sum of turns equals the reference average: below three points the base step; otherwise the maximum below an average turn of 0.1, the larger of base and half the maximum below 0.2, and the base step from 0.2 on |
| Smoothing.QuadraticBezierPath | src/AnimatedDiagrams/Models/SmoothingStrategies.cs:64-79 | the result is missing exactly for an empty list or a negative step on three or more points (where the source throws), and otherwise starts with a moveto |
| Smoothing.BuildPath | src/AnimatedDiagrams/Models/SmoothingStrategies.cs:49-59 | a non-empty result starts with a moveto; it is missing exactly when the quadratic strategy (chosen explicitly or as the fallback for an undefined type) fails |
| Smoothing.LinearStartsWithM | src/AnimatedDiagrams/Models/SmoothingStrategies.cs:84-92 | a non-empty `Linear` result starts with `"M "` |
| Smoothing.CatmullRomStartsWithM | src/AnimatedDiagrams/Models/SmoothingStrategies.cs:97-116 | a non-empty `CatmullRom` result starts with `"M "` |
| Smoothing.StepOnlyForQuadratic | src/AnimatedDiagrams/Models/SmoothingStrategies.cs:52-95 | the linear and Catmull-Rom strategies do not depend on the steps |
| Smoothing.Rereads | src/AnimatedDiagrams/Models/SmoothingStrategies.cs:88-90 | rereading keeps the number of points |
| Smoothing.RereadsCents | src/AnimatedDiagrams/Models/SmoothingStrategies.cs:88-90 | points given in whole hundredths survive the trip through `"0.##"` unchanged |
| Smoothing.LineEndpoints | src/AnimatedDiagrams/Models/SmoothingStrategies.cs:89-90 | the ` L` commands read back as their points, each reread |
| Smoothing.PointsOfWords | src/AnimatedDiagrams/Models/PathData.cs:13-60 | `ToPoints` of words joined by spaces reads the endpoints of those words |
| Smoothing.LinearReadsBack | src/AnimatedDiagrams/Models/SmoothingStrategies.cs:84-92 | `ToPoints(Linear(pts))` gives the points back, each after a trip through `"0.##"` |
| Smoothing.LinearRoundTrip | src/AnimatedDiagrams/Models/SmoothingStrategies.cs:84-92 | points in whole hundredths round-trip exactly through `Linear` and `ToPoints` |
| Smoothing.CubicEndpoints | src/AnimatedDiagrams/Models/SmoothingStrategies.cs:102-113 | the ` C` pieces end at `pts[2]` to `pts[n - 2]`, reread |
| Smoothing.CatmullRomReadsBack | src/AnimatedDiagrams/Models/SmoothingStrategies.cs:97-116 | `ToPoints(CatmullRom(pts))` on four or more points gives the first point, `pts[2]` to `pts[n - 2]`, and the last point; `pts[1]` only shapes control points |
| Smoothing.QuadEndpoints | src/AnimatedDiagrams/Models/SmoothingStrategies.cs:69-76 | the ` Q` commands read back as the midpoints of the points one step before and one step after each control point |
| Smoothing.FramedReadsBack | src/AnimatedDiagrams/Models/SmoothingStrategies.cs:68-77 | a moveto, the middle commands and a closing lineto read back as the first point, the middle endpoints and the last point |
| Smoothing.QuadraticBezierReadsBack | src/AnimatedDiagrams/Models/SmoothingStrategies.cs:64-79 | for a positive step, `ToPoints(QuadraticBezier(pts, step))` gives the first point, the midpoint ends of the ` Q` commands and the last point; below three points just the first and the last |
| PathItems.TypeOf | src/AnimatedDiagrams/Models/PathItems.cs:3-56 | each kind of item reports exactly its own `ItemType` |
| PathItems.NewPath | src/AnimatedDiagrams/Models/PathItems.cs:25-35 | a new path item has empty data, a black stroke of width 2, full opacity, a solid line with round caps and joins, and is neither selected nor highlighted |
| PathItems.NewCircle | src/AnimatedDiagrams/Models/PathItems.cs:37-45 | a new circle sits at the origin with radius 0, black fill and full opacity |
| PathItems.NewPause | src/AnimatedDiagrams/Models/PathItems.cs:47-51 | a new pause hint lasts 500 ms |
| PathItems.NewSpeed | src/AnimatedDiagrams/Models/PathItems.cs:53-57 | a new speed hint has multiplier 1 |
| PathItems.Digit | src/AnimatedDiagrams/Models/PathItems.cs:21 | a nibble becomes an upper-case hex digit that, lower-cased, reads back as the nibble |
| PathItems.HexPair | src/AnimatedDiagrams/Models/PathItems.cs:21 | a byte becomes two upper-case hex digits |
| PathItems.PlainHex | src/AnimatedDiagrams/Models/PathItems.cs:21 | the dash-free hex of n bytes has 2n digits |
| PathItems.Without | src/AnimatedDiagrams/Models/PathItems.cs:21 | `Replace("-", "")` never grows the string and leaves no dash |
| PathItems.GenerateId | src/AnimatedDiagrams/Models/PathItems.cs:18-22 | an identifier is twelve lower-case hex digits |
| PathItems.WithoutAppend | src/AnimatedDiagrams/Models/PathItems.cs:21 | removing a character from a concatenation removes it from each part |
| PathItems.DashesRemoved | src/AnimatedDiagrams/Models/PathItems.cs:21 | removing the dashes from `BitConverter.ToString` leaves the plain hex digits of the bytes |
| PathItems.PlainHexPrefix | src/AnimatedDiagrams/Models/PathItems.cs:21 | the first 2k hex digits are the digits of the first k bytes |
| PathItems.LowerHexDigits | src/AnimatedDiagrams/Models/PathItems.cs:21 | every digit, lower-cased, is a lower-case hex digit |
| PathItems.DigitValue | src/AnimatedDiagrams/Models/PathItems.cs:21 | a hex digit's value is below 16 |
| PathItems.DecodeHex | src/AnimatedDiagrams/Models/PathItems.cs:21 | decoding 2n digits gives n bytes |
| PathItems.DecodeLowerHex | src/AnimatedDiagrams/Models/PathItems.cs:21 | the lower-cased hex digits of any bytes decode back to the bytes |
| PathItems.LowerPair | src/AnimatedDiagrams/Models/PathItems.cs:21 | a byte's two lower-cased digits read back as the byte |
| PathItems.LowerStringAppend | src/AnimatedDiagrams/Models/PathItems.cs:21 | lower-casing distributes over concatenation |
| PathItems.PairDecodes | src/AnimatedDiagrams/Models/PathItems.cs:21 | a byte's two upper-case digits, lower-cased, give the byte back |
| PathItems.IdEncodesGuid | src/AnimatedDiagrams/Models/PathItems.cs:18-22 | the identifier spells out the first six bytes of the GUID: decoding it gives them back |
| PathItems.SameIdSamePrefix | src/AnimatedDiagrams/Models/PathItems.cs:18-22 | two GUIDs give the same identifier exactly when their first six bytes agree |
| LocationCache.NewCache | src/AnimatedDiagrams/Services/ItemLocationCache.cs:49-55 | a new cache keeps its grid and canvas size and holds no bucket and no item |
| LocationCache.Cell | src/AnimatedDiagrams/Services/ItemLocationCache.cs:139-140 | one bucket coordinate, the truncated canvas fraction times the grid size, always lies inside the grid |
| LocationCache.BucketForPoint | src/AnimatedDiagrams/Services/ItemLocationCache.cs:137-142 | every point, even one off the canvas, falls in a bucket of the grid |
| LocationCache.Column | src/AnimatedDiagrams/Services/ItemLocationCache.cs:152-153 | the buckets of one column from the first row to the last, each once |
| LocationCache.Block | src/AnimatedDiagrams/Services/ItemLocationCache.cs:151-153 | the buckets of the columns from the first to the last, each once |
| LocationCache.BucketsForRect | src/AnimatedDiagrams/Services/ItemLocationCache.cs:144-155 | exactly the buckets between the bucket of the top-left corner and the bucket of the bottom-right corner, each once |
| LocationCache.TokenPairs | src/AnimatedDiagrams/Services/ItemLocationCache.cs:190-205 | at most one pair per two tokens |
| LocationCache.XsOfPoints | src/AnimatedDiagrams/Services/ItemLocationCache.cs:198-201 | the x coordinates of the pairs, in order |
| LocationCache.YsOfPoints | src/AnimatedDiagrams/Services/ItemLocationCache.cs:198-201 | the y coordinates of the pairs, in order |
| LocationCache.GetPathBounds | src/AnimatedDiagrams/Services/ItemLocationCache.cs:187-208 | with no coordinate pair in the data, the zero box at the origin |
| LocationCache.GetPathBoundsHoldPairs | src/AnimatedDiagrams/Services/ItemLocationCache.cs:187-208 | every pair `GetPathBounds` reads lies in the box it returns |
| LocationCache.ItemBox | src/AnimatedDiagrams/Services/ItemLocationCache.cs:171-185 | circles and paths have a box; pause and speed hints have none |
| LocationCache.BucketsForItem | src/AnimatedDiagrams/Services/ItemLocationCache.cs:171-185 | a hint is in no bucket, and no bucket is listed twice |
| LocationCache.Strip | src/AnimatedDiagrams/Services/ItemLocationCache.cs:81-91 | the id leaves each listed bucket that exists, every other bucket is unchanged, and no bucket is created or dropped |
| LocationCache.Insert | src/AnimatedDiagrams/Services/ItemLocationCache.cs:65-73 | the id joins each listed bucket, missing buckets are created, and nothing else changes |
| LocationCache.Remove | src/AnimatedDiagrams/Services/ItemLocationCache.cs:79-92 | the id is forgotten; an id the cache does not list leaves it unchanged; no other id's buckets or entry change |
| LocationCache.Place | src/AnimatedDiagrams/Services/ItemLocationCache.cs:26-38 | the id is recorded in the listed buckets and its entry is overwritten, with no removal first |
| LocationCache.AddOrUpdate | src/AnimatedDiagrams/Services/ItemLocationCache.cs:60-74 | the item is recorded in exactly the buckets of its box, and no other id's membership changes |
| LocationCache.BuildBulk | src/AnimatedDiagrams/Services/ItemLocationCache.cs:22-40 | bulk building keeps the grid and the canvas |
| LocationCache.PlaceAll | src/AnimatedDiagrams/Services/ItemLocationCache.cs:26-39 | recording items in turn keeps the grid and the canvas |
| LocationCache.AddAll | src/AnimatedDiagrams/Services/ItemLocationCache.cs:60-74 | adding items in turn keeps the grid and the canvas |
| LocationCache.ItemsAt | src/AnimatedDiagrams/Services/ItemLocationCache.cs:97-103 | the ids in the bucket of the point, none for a bucket never created |
| LocationCache.Gather | src/AnimatedDiagrams/Services/ItemLocationCache.cs:111-119 | an id is gathered exactly when one of the listed buckets holds it |
| LocationCache.ItemsInRect | src/AnimatedDiagrams/Services/ItemLocationCache.cs:108-120 | an id is reported exactly when a bucket the rectangle overlaps holds it |
| LocationCache.EmptyIsConsistent | src/AnimatedDiagrams/Services/ItemLocationCache.cs:15-55 | a new cache's two maps agree |
| LocationCache.RemoveForgets | src/AnimatedDiagrams/Services/ItemLocationCache.cs:79-92 | after `Remove` the id is in no bucket and the two maps still agree |
| LocationCache.AddOrUpdateConsistent | src/AnimatedDiagrams/Services/ItemLocationCache.cs:60-74 | `AddOrUpdate` keeps the two maps in agreement, and the item ends up in exactly the buckets of its box |
| LocationCache.AddAllConsistent | src/AnimatedDiagrams/Services/ItemLocationCache.cs:60-74 | adding items one by one keeps the two maps in agreement |
| LocationCache.AddOrUpdateIdempotent | src/AnimatedDiagrams/Services/ItemLocationCache.cs:60-74 | recording an item a second time changes nothing |
| LocationCache.StripThenInsert | src/AnimatedDiagrams/Services/ItemLocationCache.cs:62-73 | putting an id back into the buckets it was taken out of restores them |
| LocationCache.BuildBulkIsAddAll | src/AnimatedDiagrams/Services/ItemLocationCache.cs:22-40 | with unique ids, `BuildBulk` is the same as clearing and adding the items one by one |
| LocationCache.PlaceAllIsAddAll | src/AnimatedDiagrams/Services/ItemLocationCache.cs:26-74 | with unique ids not yet recorded, recording without removal is the same as `AddOrUpdate` in turn |
| LocationCache.TruncateMonotone | src/AnimatedDiagrams/Services/ItemLocationCache.cs:139-150 | the `(int)` cast never reverses an order |
| LocationCache.CellMonotone | src/AnimatedDiagrams/Services/ItemLocationCache.cs:147-150 | on a canvas of positive size a larger coordinate never falls in an earlier cell |
| LocationCache.PointInRectBuckets | src/AnimatedDiagrams/Services/ItemLocationCache.cs:137-155 | on a canvas of positive size every point of a rectangle falls in one of the rectangle's buckets |
| LocationCache.RecordedItemIsFound | src/AnimatedDiagrams/Services/ItemLocationCache.cs:60-120 | no false negatives: once an item is recorded, a hit test at any point of its box reports it, and so does a zero-size rectangle query there |
| EditorState.IndexOfId | src/AnimatedDiagrams/Services/PathEditorState.cs:131-157 | `-1` exactly when no item has the id, otherwise the first position holding it |
| EditorState.RemoveAt | src/AnimatedDiagrams/Services/PathEditorState.cs:161 | the list without position `k`: one shorter, earlier items in place, later ones shifted down |
| EditorState.InsertAt | src/AnimatedDiagrams/Services/PathEditorState.cs:133-162 | the item at `k`, earlier items in place, later ones shifted up |
| EditorState.RemoveInserted | src/AnimatedDiagrams/Services/PathEditorState.cs:161-162 | taking out an item just inserted at the same position gives the list back |
| EditorState.InsertRemoved | src/AnimatedDiagrams/Services/PathEditorState.cs:161-162 | putting back an item just taken out at the same position gives the list back |
| EditorState.MultisetOfRemoveAt | src/AnimatedDiagrams/Services/PathEditorState.cs:161 | removing a position loses exactly that one item |
| EditorState.MultisetOfInsertAt | src/AnimatedDiagrams/Services/PathEditorState.cs:162 | inserting adds exactly that one item |
| EditorState.Recache | src/AnimatedDiagrams/Services/PathEditorState.cs:110-236 | `LocationCache?.AddOrUpdate`: there is a cache afterwards exactly when there was one, and it can still bucket items |
| EditorState.Uncache | src/AnimatedDiagrams/Services/PathEditorState.cs:141 | `LocationCache?.Remove`: there is a cache afterwards exactly when there was one |
| EditorState.WithBoundsOf | src/AnimatedDiagrams/Services/PathEditorState.cs:108-116 | the path keeps its data and carries the given bounds |
| EditorState.Bounded | src/AnimatedDiagrams/Services/PathEditorState.cs:106-116 | a path gets the bounds of its data; other items and every flag are as given |
| EditorState.Add | src/AnimatedDiagrams/Services/PathEditorState.cs:103-127 | the item, a path with its bounds, goes at the end and into the cache if there is one; the diagram is dirty; selection, mode and editing are unchanged; a detached item with that id is listed again and so no longer detached |
| EditorState.InsertBefore | src/AnimatedDiagrams/Services/PathEditorState.cs:129-135 | the new item goes at the reference's first position with the reference right after it, or at the end when the reference is not listed; nothing else is lost; the diagram is dirty; only the items, the detached items and the dirty flag change |
| EditorState.Delete | src/AnimatedDiagrams/Services/PathEditorState.cs:137-144 | an unlisted item changes nothing; otherwise its first occurrence leaves the list and the cache, the diagram is dirty, and a selected item is held on as detached |
| EditorState.DeleteAll | src/AnimatedDiagrams/Services/PathEditorState.cs:151-152 | deleting ids in turn leaves the selection, mode and editing flag alone |
| EditorState.DeleteSelected | src/AnimatedDiagrams/Services/PathEditorState.cs:146-153 | no selection changes nothing; the selection list is never cleared |
| EditorState.Move | src/AnimatedDiagrams/Services/PathEditorState.cs:155-164 | an unlisted item or a clamped position equal to the current one changes nothing; otherwise the item sits at the clamped position, the others keep their relative order, and the diagram is dirty |
| EditorState.Unselected | src/AnimatedDiagrams/Services/PathEditorState.cs:170-186 | every item with its `Selected` flag cleared and nothing else changed |
| EditorState.Mark | src/AnimatedDiagrams/Services/PathEditorState.cs:177-190 | the items with the id get their flag set; nothing else changes |
| EditorState.MarkAll | src/AnimatedDiagrams/Services/PathEditorState.cs:188-192 | the items whose id is among the given ones get their flag set; nothing else changes |
| EditorState.Select | src/AnimatedDiagrams/Services/PathEditorState.cs:166-182 | with no item nothing is selected; otherwise exactly that item is selected and flagged; the flags agree with the selection list; no detached item remains |
| EditorState.SelectMultiple | src/AnimatedDiagrams/Services/PathEditorState.cs:184-194 | the selection list is the given items in their order, exactly those items are flagged, and no detached item remains |
| EditorState.SetMode | src/AnimatedDiagrams/Services/PathEditorState.cs:60-78 | drawing and animation clear the selection and the detached items, unflag every item and stop editing; select mode changes only the mode |
| EditorState.ToggleEditing | src/AnimatedDiagrams/Services/PathEditorState.cs:196-204 | no selection means not editing; otherwise the editing flag flips; nothing else changes |
| EditorState.New | src/AnimatedDiagrams/Services/PathEditorState.cs:95-101 | no items, no selection, no detached item, nothing unsaved; the cache, mode and viewport are untouched |
| EditorState.MarkSaved | src/AnimatedDiagrams/Services/PathEditorState.cs:206-210 | only the dirty flag changes, to false |
| EditorState.SetViewport | src/AnimatedDiagrams/Services/PathEditorState.cs:80-83 | only the zoom and the offsets change, to the given values |
| EditorState.ResetViewport | src/AnimatedDiagrams/Services/PathEditorState.cs:37-40 | zoom 1 at the origin, the items untouched |
| EditorState.ClearHighlights | src/AnimatedDiagrams/Services/PathEditorState.cs:85-91 | every item unhighlighted, nothing else changed |
| EditorState.Highlight | src/AnimatedDiagrams/Services/PathEditorState.cs:42-47 | exactly the given item, if any, is highlighted afterwards |
| EditorState.InitLocationCache | src/AnimatedDiagrams/Services/PathEditorState.cs:20-26 | a new cache of the given grid whose two maps agree, and nothing else changes |
| EditorState.Restyle | src/AnimatedDiagrams/Services/PathEditorState.cs:220-249 | a path takes the given stroke values and the bounds of its data; a circle takes half the stroke width as radius, the opacity and the colour as fill; a hint is unchanged; id and flags are kept |
| EditorState.RestyleIdempotent | src/AnimatedDiagrams/Services/PathEditorState.cs:218-252 | restyling twice with the same values is restyling once |
| EditorState.Replace | src/AnimatedDiagrams/Services/PathEditorState.cs:222-248 | the item at `k` replaced, every other position unchanged |
| EditorState.Lookup | src/AnimatedDiagrams/Services/PathEditorState.cs:151-152 | the object a selected id refers to: the first listed item with the id, else the first detached one, else none; it carries the id |
| EditorState.Store | src/AnimatedDiagrams/Services/PathEditorState.cs:220-249 | the object is replaced where `Lookup` found it, among the listed or the detached items; nothing else changes |
| EditorState.LookupOfStore | src/AnimatedDiagrams/Services/PathEditorState.cs:220-249 | a lookup after storing an item under its id finds that item |
| EditorState.RestyleOne | src/AnimatedDiagrams/Services/PathEditorState.cs:222-248 | one selected object, listed or detached, restyled in place; a path or circle is re-recorded in the cache, any other item leaves it alone; an id with no object changes nothing |
| EditorState.RestyleAll | src/AnimatedDiagrams/Services/PathEditorState.cs:220-250 | restyling keeps the length and ids of both the list and the detached items, the selection and the mode, and a usable cache |
| EditorState.ApplyStyleToSelected | src/AnimatedDiagrams/Services/PathEditorState.cs:218-252 | only items, detached items and cache change; the list keeps its length and ids |
| EditorState.RestyleRecachesDetached | src/AnimatedDiagrams/Services/PathEditorState.cs:218-252 | restyling a detached path or circle puts it back into the cache, where a hit test in its box finds it although the list does not hold it |
| EditorState.SelectDeleteRestyle | src/AnimatedDiagrams/Services/PathEditorState.cs:146-252 | selecting a listed path or circle, deleting the selection and restyling leaves the item detached, out of the list and back in the cache |
| EditorState.SelectOne | src/AnimatedDiagrams/Services/PathEditorState.cs:166-182 | selecting a listed item with a unique id flags it in place and keeps ids unique |
| EditorState.DeleteOnlySelected | src/AnimatedDiagrams/Services/PathEditorState.cs:146-153 | deleting the only selected item removes it from the list and the cache and holds it detached |
| EditorState.ApplyStyleIsPointwise | src/AnimatedDiagrams/Services/PathEditorState.cs:218-252 | with unique ids, the selected items, and only they, are restyled |
| EditorState.RestyleAllPointwise | src/AnimatedDiagrams/Services/PathEditorState.cs:220-250 | restyling ids in turn restyles exactly the items whose id has been visited |
| EditorState.RestyleStep | src/AnimatedDiagrams/Services/PathEditorState.cs:220-249 | one more restyled id extends the restyled set by that id |
| EditorState.DefaultStepNonZero | src/AnimatedDiagrams/Services/PathEditorState.cs:261 | with the default base and maximum step the adaptive step is 2, 10 or 20, never zero |
| EditorState.Simplified | src/AnimatedDiagrams/Services/PathEditorState.cs:258-261 | the builder fails exactly for the quadratic strategy on data with no points |
| EditorState.WithData | src/AnimatedDiagrams/Services/PathEditorState.cs:265-266 | a path with the new data and its bounds, stroke unchanged |
| EditorState.Accepted | src/AnimatedDiagrams/Services/PathEditorState.cs:258-263 | the simplified data of a path exactly when the builder succeeds and its result passes the gate |
| EditorState.SimplifyItem | src/AnimatedDiagrams/Services/PathEditorState.cs:256-272 | a path whose simplified data passes the gate takes that data; anything else is left as it is; id, flags and kind are kept |
| EditorState.SimplifyOne | src/AnimatedDiagrams/Services/PathEditorState.cs:256-273 | the selected object with the id, listed or detached, is simplified if its data is accepted and then goes back into the cache even when unchanged; no object or no accepted data changes nothing; no other item changes |
| EditorState.Simplify | src/AnimatedDiagrams/Services/PathEditorState.cs:254-275 | every listed and every detached item keeps its id and kind and either stays as it is or becomes a path whose data passes the gate |
| EditorState.SimplifyAll | src/AnimatedDiagrams/Services/PathEditorState.cs:256-273 | simplifying ids in turn keeps every listed and detached item's id and kind; each is either unchanged or a path with gated data |
| EditorState.SimplifyAsWritten | src/AnimatedDiagrams/Services/PathEditorState.cs:254-275 | the loop throws exactly when some visited id names a path, listed or detached, that the builder throws on; with no throw it is `Simplify` |
| EditorState.ThrowsShift | src/AnimatedDiagrams/Services/PathEditorState.cs:256-273 | skipping a first id that does not throw keeps whether a later one throws |
| EditorState.PrefixZero | src/AnimatedDiagrams/Services/PathEditorState.cs:256 | simplifying no ids changes nothing |
| EditorState.PrefixShift | src/AnimatedDiagrams/Services/PathEditorState.cs:256-273 | simplifying a prefix of `j+1` ids is the first id followed by the next `j` |
| EditorState.EmptyPathThrows | src/AnimatedDiagrams/Services/PathEditorState.cs:256-261 | a selected path with empty data makes the run as written throw under the quadratic strategy |
| EditorState.DetachedEmptyPathThrows | src/AnimatedDiagrams/Services/PathEditorState.cs:254-261 | a deleted path with empty data that the selection still holds makes the run as written throw too |
| EditorState.EmptyPathKept | src/AnimatedDiagrams/Services/PathEditorState.cs:262-272 | the intended run leaves the same editor unchanged |
| EditorState.Keep | src/AnimatedDiagrams/Services/PathEditorState.cs:137-153 | the items whose id is not among the given ones, each one an item of the list, and none of the others lost |
| EditorState.KeepAppend | src/AnimatedDiagrams/Services/PathEditorState.cs:151-152 | filtering distributes over concatenation |
| EditorState.KeepSingle | src/AnimatedDiagrams/Services/PathEditorState.cs:139 | a single item is kept exactly when its id is not among the given ones |
| EditorState.KeepNone | src/AnimatedDiagrams/Services/PathEditorState.cs:139 | a list without any of the ids is kept whole |
| EditorState.KeepKeep | src/AnimatedDiagrams/Services/PathEditorState.cs:151-152 | filtering by one list and then another is filtering by both |
| EditorState.KeepUnique | src/AnimatedDiagrams/Services/PathEditorState.cs:151-152 | filtering keeps ids unique |
| EditorState.DeleteIsKeep | src/AnimatedDiagrams/Services/PathEditorState.cs:137-144 | with unique ids `Delete` removes exactly the items with that id |
| EditorState.KeepOnly | src/AnimatedDiagrams/Services/PathEditorState.cs:139 | with the id in one position only, filtering it out is removing that position |
| EditorState.NoIdBefore | src/AnimatedDiagrams/Services/PathEditorState.cs:139 | the items before the only occurrence are kept whole |
| EditorState.NoIdAfter | src/AnimatedDiagrams/Services/PathEditorState.cs:139 | the items after the only occurrence are kept whole |
| EditorState.KeepAround | src/AnimatedDiagrams/Services/PathEditorState.cs:139 | filtering out the one item between two kept runs joins them |
| EditorState.DeleteAllIsKeep | src/AnimatedDiagrams/Services/PathEditorState.cs:151-152 | with unique ids, deleting ids in turn keeps exactly the other items, in their order |
| EditorState.DeleteSelectedRemovesSelection | src/AnimatedDiagrams/Services/PathEditorState.cs:146-153 | with unique ids no selected item survives, every other item does, in order, and the selection list still names the deleted items |
| EditorState.DeleteAfterAdd | src/AnimatedDiagrams/Services/PathEditorState.cs:103-144 | deleting an item just added under a new id restores the list |
| EditorState.IndexOfOnly | src/AnimatedDiagrams/Services/PathEditorState.cs:157 | with the id at one position only, `IndexOf` finds that position |
| EditorState.MoveBack | src/AnimatedDiagrams/Services/PathEditorState.cs:155-164 | a move the clamp does not cut short is undone by the opposite move |
| EditorState.SelectIsSelectMultiple | src/AnimatedDiagrams/Services/PathEditorState.cs:166-194 | `Select` equals `SelectMultiple` with no item or the one item |
| EditorState.ToggleTwice | src/AnimatedDiagrams/Services/PathEditorState.cs:196-204 | with a selection, toggling twice restores the editing flag |
| EditorState.AddedItemIsFound | src/AnimatedDiagrams/Services/PathEditorState.cs:103-127 | an item added with a cache present is found by a hit test anywhere in its box |
| SvgFile.LookupMeaning | src/AnimatedDiagrams/Services/SvgFileService.cs:143-152 | an attribute lookup finds a value exactly when some attribute has the name, and the value is that attribute's |
| SvgFile.LookupAt | src/AnimatedDiagrams/Services/SvgFileService.cs:143-152 | the lookup returns the value of the first attribute with the name |
| SvgFile.Spaced | src/AnimatedDiagrams/Services/SvgFileService.cs:33 | every `M`, `Q` and `L` becomes a space and every other character is kept |
| SvgFile.ExportPairs | src/AnimatedDiagrams/Services/SvgFileService.cs:34-40 | at most one point per two tokens |
| SvgFile.ItemExtent | src/AnimatedDiagrams/Services/SvgFileService.cs:29-46 | a circle contributes its two square corners; hints contribute nothing |
| SvgFile.Extent | src/AnimatedDiagrams/Services/SvgFileService.cs:27-47 | the items' points, item by item in order |
| SvgFile.Least | src/AnimatedDiagrams/Services/SvgFileService.cs:24 | the running minimum: no larger than any value and equal to one of them |
| SvgFile.Greatest | src/AnimatedDiagrams/Services/SvgFileService.cs:24 | the running maximum: no smaller than any value and equal to one of them |
| SvgFile.ContentBox | src/AnimatedDiagrams/Services/SvgFileService.cs:20-56 | with no point the default 2000 by 1200 canvas; otherwise a box of non-negative size holding every point, with each side through one of them |
| SvgFile.BoxOfPoints | src/AnimatedDiagrams/Services/SvgFileService.cs:22-56 | the minima and maxima of the points span a box holding every point and touched by it on each side |
| SvgFile.Padded | src/AnimatedDiagrams/Services/SvgFileService.cs:57-64 | sides of at least 1, then a margin of 5% of the larger side plus 20 on every side, so both sides exceed 40 |
| SvgFile.ExportFrame | src/AnimatedDiagrams/Services/SvgFileService.cs:20-64 | the viewBox is always more than 40 wide and high |
| SvgFile.FrameHoldsContent | src/AnimatedDiagrams/Services/SvgFileService.cs:20-64 | every contributed point lies inside the viewBox, at least 20 from each edge |
| SvgFile.EmptyFrame | src/AnimatedDiagrams/Services/SvgFileService.cs:50-64 | with nothing drawn the viewBox is -120 -120 2240 1440 |
| SvgFile.DashArray | src/AnimatedDiagrams/Services/SvgFileService.cs:96-97 | `dashed` is written as "10 6", `dotted` as "3 7", any other line type with no pattern |
| SvgFile.StrokeAttrs | src/AnimatedDiagrams/Services/SvgFileService.cs:88-95 | eight attributes are always written for a path |
| SvgFile.DashAttrs | src/AnimatedDiagrams/Services/SvgFileService.cs:96-97 | the dash attribute is present exactly when the line type has a pattern |
| SvgFile.LookupAppend | src/AnimatedDiagrams/Services/SvgFileService.cs:87-97 | an attribute found in the first part is found there; otherwise in the rest |
| SvgFile.PathAttrsRead | src/AnimatedDiagrams/Services/SvgFileService.cs:87-97 | a written path reads back with its data, stroke, width, opacity, id and dash pattern |
| SvgFile.CircleAttrsRead | src/AnimatedDiagrams/Services/SvgFileService.cs:100-105 | a written circle reads back with its centre, radius, fill and opacity, and has no id |
| SvgFile.Emit | src/AnimatedDiagrams/Services/SvgFileService.cs:76-108 | a pause becomes the comment "Pause:" with the milliseconds, a speed "Speed:" with the multiplier; a path a childless `path` element with its data, id and dash pattern; a circle a childless `circle` element with no id |
| SvgFile.EmitAll | src/AnimatedDiagrams/Services/SvgFileService.cs:76-108 | one node per item, in the items' order |
| SvgFile.ExportSvg | src/AnimatedDiagrams/Services/SvgFileService.cs:17-111 | the root is an `svg` element whose children are the items' nodes and whose width is the frame's width in "0.###" format |
| SvgFile.RootWidthRead | src/AnimatedDiagrams/Services/SvgFileService.cs:68-74 | the root's width attribute is the frame width in "0.###" format |
| SvgFile.WithHeader | src/AnimatedDiagrams/Services/SvgFileService.cs:110-121 | the result, leading blanks aside, always opens with the XML declaration; text that already does is kept, other text gets the declaration in front |
| SvgFile.OpenedTextNotBlank | src/AnimatedDiagrams/Services/SvgFileService.cs:113-120 | text that already opens with the declaration, leading blanks aside, is never blank, so the 1x1 fallback cannot apply to it |
| SvgFile.HeaderOpens | src/AnimatedDiagrams/Services/SvgFileService.cs:112-116 | the declaration starts with no leading blank and opens with "<?xml", so text with it in front is never blank and the 1x1 fallback cannot apply |
| SvgFile.ParsedOr | src/AnimatedDiagrams/Services/SvgFileService.cs:150-169 | the parsed number when the attribute is present and parses, else the fallback |
| SvgFile.IdOr | src/AnimatedDiagrams/Services/SvgFileService.cs:143-170 | the attribute when present and not blank, else the fresh GUID |
| SvgFile.ImportPath | src/AnimatedDiagrams/Services/SvgFileService.cs:141-156 | a `path` element gives an unselected path with its data (empty when missing) and that data's bounds, stroke "#000", width 2 and opacity 1 when absent, solid line with round cap and join |
| SvgFile.ImportCircle | src/AnimatedDiagrams/Services/SvgFileService.cs:157-173 | a `circle` element gives an unselected circle with centre and radius 0 and fill "#000" when absent |
| SvgFile.Walk | src/AnimatedDiagrams/Services/SvgFileService.cs:133-177 | walking a node only appends, to the drawn items and to the comments, and collects drawn items only |
| SvgFile.WalkAll | src/AnimatedDiagrams/Services/SvgFileService.cs:174 | walking children in order only appends, to the drawn items and to the comments |
| SvgFile.LowXs | src/AnimatedDiagrams/Services/SvgFileService.cs:181-198 | at most one left edge per item |
| SvgFile.HighXs | src/AnimatedDiagrams/Services/SvgFileService.cs:181-198 | at most one right edge per item |
| SvgFile.LowYs | src/AnimatedDiagrams/Services/SvgFileService.cs:181-198 | at most one top edge per item |
| SvgFile.HighYs | src/AnimatedDiagrams/Services/SvgFileService.cs:181-198 | at most one bottom edge per item |
| SvgFile.FitZoom | src/AnimatedDiagrams/Services/SvgFileService.cs:204-211 | the zoom lies in [0.1, 10], and unless it is the lower clamp the content fits inside the canvas less the 40 margins |
| SvgFile.FitsWhenUnclamped | src/AnimatedDiagrams/Services/SvgFileService.cs:207-211 | a zoom no larger than the fitting one makes the content fit |
| SvgFile.Span | src/AnimatedDiagrams/Services/SvgFileService.cs:180-199 | the running extremes hold every item's edges |
| SvgFile.ViewOf | src/AnimatedDiagrams/Services/SvgFileService.cs:204-215 | the zoom lies in [0.1, 10], the content's centre maps to the canvas centre, and the content fits unless the zoom is clamped at 0.1 |
| SvgFile.Ceiling | src/AnimatedDiagrams/Services/SvgFileService.cs:219 | `Math.Ceiling`: the least integer not below the value |
| SvgFile.GridSize | src/AnimatedDiagrams/Services/SvgFileService.cs:218-219 | the grid side is between 3 and 10 |
| SvgFile.GridSizeIsCeilSqrt | src/AnimatedDiagrams/Services/SvgFileService.cs:218-219 | the grid is 3 for up to 9 drawn items, 10 beyond 81, and otherwise the smallest side whose square holds the items |
| SvgFile.CeilSquare | src/AnimatedDiagrams/Services/SvgFileService.cs:219 | the ceiling of a square root is the smallest side whose square is at least the number |
| SvgFile.ParseComment | src/AnimatedDiagrams/Services/SvgFileService.cs:239-255 | "Pause:" in any case followed by an integer adds a pause; otherwise "Speed:" followed by a number adds a speed; an unparsable value or any other text changes nothing |
| SvgFile.ParseComments | src/AnimatedDiagrams/Services/SvgFileService.cs:229 | reading comments in turn only appends items and keeps the selection and the cache grid |
| SvgFile.Loaded | src/AnimatedDiagrams/Services/SvgFileService.cs:225-228 | a new diagram with a cache of the given grid over a 2000 by 1200 canvas, holding exactly the drawn items, with nothing selected or unsaved |
| SvgFile.ImportSvg | src/AnimatedDiagrams/Services/SvgFileService.cs:124-237 | the drawn items in document order come first, the cache has a square grid of side 3 to 10, nothing is selected or unsaved, and with any item the zoom is in [0.1, 10] |
| SvgFile.Drawn | src/AnimatedDiagrams/Services/SvgFileService.cs:218 | only drawn items, no more than there were |
| SvgFile.ReimportAll | src/AnimatedDiagrams/Services/SvgFileService.cs:141-173 | one reimported item per drawn item |
| SvgFile.ImportPathOfExport | src/AnimatedDiagrams/Services/SvgFileService.cs:87-156 | importing a written path gives the path back with its data, stroke, width, opacity and (unless blank) id, at the default line type, cap and join |
| SvgFile.ImportCircleOfExport | src/AnimatedDiagrams/Services/SvgFileService.cs:100-173 | importing a written circle gives back its geometry, fill and opacity under a fresh id |
| SvgFile.WalkOfEmit | src/AnimatedDiagrams/Services/SvgFileService.cs:76-177 | walking one written node gives back its drawn item or its hint comment |
| SvgFile.WalkOfExport | src/AnimatedDiagrams/Services/SvgFileService.cs:76-177 | walking the written nodes gives back the drawn items, reimported, and the hint comments, each in order |
| SvgFile.PauseCommentReadsBack | src/AnimatedDiagrams/Services/SvgFileService.cs:81-246 | a written pause comment reads back as the same pause |
| SvgFile.SpeedCommentReadsBack | src/AnimatedDiagrams/Services/SvgFileService.cs:84-253 | a written speed comment reads back as the same speed |
| SvgFile.CommentsOfExport | src/AnimatedDiagrams/Services/SvgFileService.cs:229-255 | reading the hint comments back appends the hints in order with fresh ids |
| SvgFile.ExportThenImport | src/AnimatedDiagrams/Services/SvgFileService.cs:17-237 | exporting then importing gives the drawn items back in order, followed by every hint: hints lose their places among the drawn items |
| SvgFile.HintMovesAfterPath | src/AnimatedDiagrams/Services/SvgFileService.cs:17-237 | a pause written before a path comes back after it |
| SvgFile.PathThenPause | src/AnimatedDiagrams/Services/SvgFileService.cs:218-229 | a pause followed by a path reimports as the path and then the pause |
| Animator.Span | src/animation.js:1817-1822 | exactly the positions from `lo` through `hi` |
| Animator.Swap | src/animation.js:2650-2654 | the two positions exchange their elements, every other position is unchanged, and the list is rearranged |
| Animator.SwapTwice | src/animation.js:2650-2654 | swapping the same two positions again restores the list |
| Animator.SelectAll | src/animation.js:1965-1973 | exactly the positions of the list |
| Animator.Invert | src/animation.js:1979-1990 | exactly the positions of the list that were not selected |
| Animator.InvertTwice | src/animation.js:1979-1990 | inverting twice restores a selection within the list |
| Animator.InvertSplits | src/animation.js:1965-1990 | a selection and its inverse are disjoint and together select everything |
| Animator.Largest | src/animation.js:1815-1816 | the largest selected position: selected, and no smaller than any other |
| Animator.LargestExists | src/animation.js:1816 | a non-empty selection has a largest member |
| Animator.Click | src/animation.js:1802-1838 | Ctrl or Cmd toggles the clicked position alone; Shift with a selection adds every position between the largest selected one and the click; a plain click selects only the click, or clears the selection when the click was its only member |
| Animator.ClickStaysWithin | src/animation.js:1802-1838 | a click on a listed position keeps the selection within the list |
| Animator.CtrlClickTwice | src/animation.js:1806-1812 | Ctrl-clicking the same position twice restores the selection |
| Animator.PlainClickToggles | src/animation.js:1823-1831 | a plain click on the only selected position clears it; on an empty selection it selects the position |
| Animator.ShiftClickExtends | src/animation.js:1813-1822 | Shift-clicking extends a run of positions to the click |
| Animator.Ascending | src/animation.js:2145-2249 | the sorted list of selected positions: increasing, within the list, naming only and every selected position |
| Animator.AscendingLists | src/animation.js:2145-2249 | the sorted list names exactly the selection |
| Animator.IncreasingUnique | src/animation.js:2145 | two increasing lists naming the same positions are equal, so the sorted order is the only one |
| Animator.LeastFirst | src/animation.js:2145 | the first index of an increasing list is its least |
| Animator.DropFirst | src/animation.js:2145 | dropping the first index of an increasing list drops exactly its position |
| Animator.Gather | src/animation.js:2203-2250 | `indices.map`: the elements at the indices, in order |
| Animator.RemoveAt | src/animation.js:2207-2254 | `splice(i, 1)`: the list without position `i`, later elements shifted down |
| Animator.SpliceOut | src/animation.js:2206-2259 | removing from the last index to the first takes out one element per index |
| Animator.PickedSplits | src/animation.js:2203-2211 | the picked and the other elements together are the list, rearranged |
| Animator.PickedSplitsStep | src/animation.js:2203-2211 | the rearrangement carries over to a list one element longer |
| Animator.PickedLast | src/animation.js:2203-2211 | picking from a list one element longer picks that element exactly when its position is selected |
| Animator.PickedAgree | src/animation.js:2203-2211 | only positions inside the list matter to picking |
| Animator.RemoveLastThenSplice | src/animation.js:2206-2208 | splicing out indices below the last element keeps that element last |
| Animator.GatherIsPicked | src/animation.js:2203-2208 | for increasing indices, the gathered elements are the selected ones in list order, and what splicing leaves is the others in list order |
| Animator.GatherLastPicked | src/animation.js:2203-2208 | the step of the previous when the last position is picked |
| Animator.GatherLastUnpicked | src/animation.js:2203-2208 | the step of the previous when the last position is not picked |
| Animator.MovePathsToTop | src/animation.js:2201-2221 | the selected elements in their order, then the others in theirs; the first positions are selected; the list is rearranged |
| Animator.MovePathsToBottom | src/animation.js:2223-2244 | the others in their order, then the selected elements in theirs; the last positions are selected; the list is rearranged |
| Animator.Lead | src/animation.js:2255-2258 | the number of leading indices below `t` |
| Animator.Gap | src/animation.js:2253-2259 | increasing indices are at least as far apart as their places |
| Animator.AdjustCounts | src/animation.js:2253-2259 | although the target moves as the loop runs, it is lowered by exactly the number of selected positions below the original target |
| Animator.TargetFits | src/animation.js:2253-2262 | the adjusted target is a position of what remains after splicing out |
| Animator.Splice | src/animation.js:2262 | `splice(at, 0, ...block)`: the block sits at `at`, nothing is lost |
| Animator.PositionFacts | src/animation.js:2249-2262 | the steps of the move to a position compute the others, the selected elements and the adjusted target |
| Animator.MoveToPosition | src/animation.js:2246-2272 | with no selection nothing changes; otherwise the selected elements, in order, are inserted among the others at the target less the selected positions before it, and exactly the block is selected |
| Animator.BlockPermutes | src/animation.js:2262 | inserting a block adds exactly its elements |
| Animator.PlaceBlock | src/animation.js:2249-2268 | the same as `MoveToPosition` once there is a selection |
| Animator.Drop | src/animation.js:2080-2085 | with nothing dragged or a drop on the dragged position nothing changes; otherwise the selected elements, in order, form a block at the adjusted target and exactly that block is selected |
| Animator.BlockLandsAt | src/animation.js:2080-2085 | after a drop with a selection, the selected elements, in order, occupy the positions from the adjusted target on |
| Animator.RunBefore | src/animation.js:2186 | the length of the selected run directly before `k` |
| Animator.RoomBelow | src/animation.js:2186 | a selected position not in the run at the end has a position after it |
| Animator.DownTo | src/animation.js:2182-2199 | where moving down takes each element: always a position of the list |
| Animator.DownToInjective | src/animation.js:2182-2199 | no two elements land on the same position |
| Animator.IncreaseFrom | src/animation.js:2189-2191 | `indices[j]++` for every `j` from `i` on, the earlier ones unchanged |
| Animator.DownStepOnce | src/animation.js:2185-2195 | one turn of the loop rearranges the list and leaves the earlier indices alone |
| Animator.DownPass | src/animation.js:2184-2196 | the loop keeps the list's length |
| Animator.MovePathsDown | src/animation.js:2182-2199 | moving down rearranges the list |
| Animator.DownPassPermutes | src/animation.js:2184-2196 | the loop only swaps elements |
| Animator.AfterStep | src/animation.js:2184 | the handled indices grow by one index, below all earlier handled ones |
| Animator.CheckDown | src/animation.js:2186 | the loop's test holds exactly when the element is not in the selected run at the end of the list |
| Animator.IndicesAfterMove | src/animation.js:2187-2191 | a turn that swaps keeps the loop's index invariant |
| Animator.IndicesAfterStay | src/animation.js:2186 | a turn that does not swap keeps the loop's index invariant |
| Animator.RunBeforeAdd | src/animation.js:2186 | handling one more position lengthens the run before `k` exactly when that run starts right after it |
| Animator.DownStep | src/animation.js:2186-2195 | how handling one more position changes where each element goes |
| Animator.ElementsAfterMove | src/animation.js:2187 | the swap carries the placement to the larger handled set |
| Animator.ElementsAfterStay | src/animation.js:2186 | with no swap the placement is the same for the larger handled set |
| Animator.ImageAfterMove | src/animation.js:2193-2194 | the selection follows the element that moves down |
| Animator.ImageAfterStay | src/animation.js:2186 | with no swap the selection stays |
| Animator.DownPassMeets | src/animation.js:2184-2196 | the loop takes each element to `DownTo` of the selection, and the selection with the elements |
| Animator.DownMeetsStep | src/animation.js:2185-2195 | one turn keeps that invariant |
| Animator.DownStepMoves | src/animation.js:2186-2195 | the turn that swaps an element with the unselected one below keeps that invariant |
| Animator.DownStepStays | src/animation.js:2186 | the turn that leaves a blocked element in place keeps that invariant |
| Animator.DownIndicesMove | src/animation.js:2187-2191 | the swapping turn keeps the index invariant |
| Animator.DownIndicesStay | src/animation.js:2186 | the non-swapping turn keeps the index invariant |
| Animator.DownMeetsMove | src/animation.js:2187-2194 | the swapping turn moves the element and the selection |
| Animator.DownMeetsStay | src/animation.js:2186 | the non-swapping turn moves nothing |
| Animator.MembersAroundDown | src/animation.js:2184 | every index is handled or not above the current one |
| Animator.MovePathsDownMoves | src/animation.js:2142-2199 | moving a selection down takes each element to `DownTo`, which rearranges the list, and the selection follows the selected elements |
| Animator.AfterEnds | src/animation.js:2184 | before the loop nothing is handled, after it everything is |
| Animator.DownNothingHandled | src/animation.js:2184 | with nothing handled nothing has moved |
| Animator.DecreaseFrom | src/animation.js:2170-2172 | `indices[j]--` for every `j` from `i` on, the earlier ones unchanged |
| Animator.UpStepOnceAsWritten | src/animation.js:2166-2176 | one turn of the loop as written rearranges the list and keeps the indices increasing |
| Animator.UpPassAsWritten | src/animation.js:2165-2177 | the loop as written keeps the list's length |
| Animator.MovePathsUpAsWritten | src/animation.js:2163-2180 | moving up as written still rearranges the list |
| Animator.UpPassAsWrittenPermutes | src/animation.js:2165-2177 | the loop as written only swaps elements |
| Animator.RunAfter | src/animation.js:2167 | the length of the selected run directly after `k` |
| Animator.RoomAbove | src/animation.js:2167 | a selected position not in the run at the start has a position before it |
| Animator.UpTo | src/animation.js:2163-2180 | where moving up should take each element: always a position of the list |
| Animator.UpToInjective | src/animation.js:2163-2180 | no two elements land on the same position |
| Animator.UpStepOnce | src/animation.js:2166-2176 | one turn of the corrected loop rearranges the list |
| Animator.UpPass | src/animation.js:2165-2177 | the corrected loop keeps the list's length |
| Animator.MovePathsUp | src/animation.js:2163-2180 | moving up as corrected rearranges the list |
| Animator.UpPassPermutes | src/animation.js:2165-2177 | the corrected loop only swaps elements |
| Animator.BeforeStep | src/animation.js:2165 | the handled indices grow by one index, above all earlier handled ones |
| Animator.CheckUp | src/animation.js:2167 | the corrected loop's test holds exactly when the element is not in the selected run at the start |
| Animator.IndicesAfterUp | src/animation.js:2167-2172 | a turn keeps the corrected loop's index invariant |
| Animator.RunAfterAdd | src/animation.js:2167 | handling one more position lengthens the run after `k` exactly when that run ends right before it |
| Animator.UpStep | src/animation.js:2167-2175 | how handling one more position changes where each element goes |
| Animator.ElementsAfterUp | src/animation.js:2168 | a turn carries the placement to the larger handled set |
| Animator.ImageAfterUp | src/animation.js:2174-2175 | the selection follows the element |
| Animator.UpPassMeets | src/animation.js:2165-2177 | the corrected loop takes each element to `UpTo` of the selection, and the selection with the elements |
| Animator.UpMeetsStep | src/animation.js:2166-2176 | one turn keeps that invariant |
| Animator.UpIndicesStep | src/animation.js:2167-2172 | one turn keeps the index invariant |
| Animator.UpMeetsMove | src/animation.js:2168-2175 | the swapping turn moves the element and the selection |
| Animator.UpMeetsStay | src/animation.js:2167 | the non-swapping turn moves nothing |
| Animator.MembersAroundUp | src/animation.js:2165 | every index is handled or not below the current one |
| Animator.SetIndexInRange | src/animation.js:2170-2172 | lowering one index to a listed position keeps every index in the list |
| Animator.MovePathsUpMoves | src/animation.js:2142-2180 | moving a selection up as corrected takes each element to `UpTo`, which rearranges the list, and the selection follows the selected elements |
| Animator.UpAsWrittenMoves | src/animation.js:2166-2176 | a turn of the loop as written that swaps lowers every later index too |
| Animator.UpMoves | src/animation.js:2166-2176 | a turn of the corrected loop that swaps lowers only the handled index |
| Animator.UpAsWrittenMovesWrongElement | src/animation.js:2163-2180 | with {2, 5} selected among six, the loop as written moves the unselected element at 4 and leaves the selected one at 5, and three positions end up selected |
| Animator.UpAsWrittenFirst | src/animation.js:2166-2176 | the first turn of that run |
| Animator.UpAsWrittenSecond | src/animation.js:2166-2176 | the second turn of that run |
| Animator.SwapsAsWritten | src/animation.js:2168 | the two swaps that run makes |
| Animator.SwapsCorrected | src/animation.js:2168 | the two swaps the corrected run makes |
| Animator.UpToOfExample | src/animation.js:2163-2180 | with {2, 5} selected among six, the element at 5 should go to 4 |
| Animator.UpMovesSelectedElements | src/animation.js:2163-2180 | on the same input the corrected loop moves both selected elements up and two positions stay selected |
| Animator.UpFirst | src/animation.js:2166-2176 | the first turn of the corrected run |
| Animator.UpSecond | src/animation.js:2166-2176 | the second turn of the corrected run |
| Animator.AscendingOfExample | src/animation.js:2145 | {2, 5} among six sorts to [2, 5] |
| Animator.ImagesWithin | src/animation.js:2174-2194 | moving a selection up or down keeps it within the list |
| Animator.MoveSelected | src/animation.js:2142-2161 | with `movePathsUp` as corrected: with no selection nothing changes; otherwise the list is rearranged, the selection stays within it, and one place up or down each element lands where `UpTo` or `DownTo` says |
| Animator.MoveSelectedAsWritten | src/animation.js:2142-2161 | the dispatcher as the program runs it, calling `movePathsUp` as written: with no selection nothing changes; otherwise the list is rearranged and the selection stays within it; down, top and bottom agree with `MoveSelected`, and one place down each element lands where `DownTo` says |
| Animator.MoveSelectedUpDiffers | src/animation.js:2148-2150 | with {2, 5} selected among six, moving up as the program does gives `[e0, e2, e1, e4, e3, e5]` with {1, 3, 5} selected, while the corrected dispatcher puts `e5` at position 4 |
| Animator.MoveSelectedUpSingle | src/animation.js:2148-2150 | with one selected position past the first, moving up as the program does swaps that element with the one before it and selects its new position |
| Animator.UpAsWrittenSingle | src/animation.js:2163-2180 | with a single selected position `k > 0` the loop as written moves that element to `k - 1` and the selection becomes {k - 1} |
| Animator.AscendingOfSingle | src/animation.js:2145 | a single selected position sorts to itself |

## Left out

- XML: `XDocument` building, parsing and `ToString` are not modelled. A document is a tree of elements, comments and text nodes with local names. Of the export text, only the final header step is modelled (`SvgFile.WithHeader`).
- JSON: `System.Text.Json` serialization of items, settings and style rules is not modelled. Settings take the encoder and decoder as parameters. `PathItemJsonConverter.cs` is not part of this model.
- Concurrency: the two `Task.Run` calls of `ImportSvg` are modelled as one atomic step.
- Side effects only: `Changed` events, `Console.WriteLine`, the import stopwatch, and the debug helpers `GetBucketsDebugString` and `GetAllBucketsWithItems`.
- Browser storage (`LocalStorageJs.cs`) is a map from keys to strings.
- The animator's DOM, timers, recording and list refreshes (`refreshPathList`, `updateAnimationSystem`, `updateSelectionUI` and the other UI calls) are not modelled.
- Floating point: `double` is `real`.
  - Rounding, NaN, infinities and overflow are not modelled.
  - `double.MaxValue` and `double.MinValue` are exact sentinels.
  - Parsing, formatting, `Math.Sqrt` and `Math.Acos` are the abstract `Core.Numerics`.
  - Formatting assumes the invariant culture.
- Arc flattening (`SampleArc`) uses trigonometry, so it is a function parameter; a zero radius still degrades to the chord. The `Math.Pow` Bézier samples are written as exact polynomials.
- Fresh GUIDs (`Guid.NewGuid`) are parameters: the 16 bytes for `GenerateId`, and an id function for import.
- Items are known by id rather than by object reference. Lemmas that need `List.Remove(item)` to remove a single item assume unique ids.
  - An item deleted while selected stays in the selection as a detached item, since the selection holds the object. Restyling and simplifying reach it there, and it goes back into the cache (`EditorState.SelectDeleteRestyle`).
  - The items handed to `Select` and `SelectMultiple` are taken to be listed ones, so a new selection drops every detached item.
- Text.IsLetter, Text.IsDigit: ASCII letters and digits only. `char.IsLetter` and `char.IsDigit` (Path.cs:26-38) also take every other Unicode letter and decimal digit, and a character database is out of scope. So in the model a non-ASCII letter in a path is skipped rather than read as a command, and a non-ASCII digit ends a number run.
- Text.ToUpper: raises only ASCII letters, where `char.ToUpper` (Path.cs:27) raises every Unicode lower-case letter, for the same reason.
- PathScanner.RunLength: the run admits only ASCII digits, as `Text.IsDigit` does.
- StyleRules.StringEquals: `OrdinalIgnoreCase` (StyleRuleService.cs:88) folds every Unicode letter; the model folds ASCII letters only, so `"É"` and `"é"` differ here. The same holds for the `Pause:` and `Speed:` prefixes of `SvgFile.ParseComment`.
- Number parsing culture: `PathData.ToPoints` parses with `NumberStyles.Float` and the invariant culture (PathData.cs:25-50). `SvgFileService`, `StyleRuleService` and `MovePathBy` use the default `TryParse` of the current culture, which also accepts thousands separators. The model uses the one `nf.parse` for all of them.
- Smoothing.QuadraticBezierPath: with three or more points and a step of 0 the source loops forever, so that input is excluded by a precondition. The default steps never give 0 (`EditorState.DefaultStepNonZero`).
- `StyleRules.cs` declares `Value` as a `double` and lacks enum members that `StyleRuleService` uses. The model follows `StyleRuleService`: a string value that `Compare` parses.
- There is no Ramer-Douglas-Peucker simplification and no reduced-linear strategy in the code, so neither is modelled.
- PathScanner.Numbers: its own contract says only that the scan consumes input. What the numbers mean is stated by `PathScanner.RunLength` and the read-back lemmas of `PathMove`.
- PathScanner.Tokens: its own contract says only that every command has a letter. Command letters are ASCII letters only, as `Text.IsLetter` is. The drawing it leads to is stated by `PathScanner.TraceChained` and `PathShift.TraceShift`.
- PathMove.MovePathBy: its own contract covers blank input only. What it writes is stated by `PathMove.MovePathByReadsBack`, `PathShift.MovePathByKeepsLetters` and `PathShift.RewriteOfTwoMoves`.
- PathMove.MovePathByWith: as for `MovePathBy`; `PathMove.ReadBackExact` states the rest.
- PathMove.MovePathByFixed: as for `MovePathBy`; `PathShift.MovePathByFixedMovesDrawing` states the rest.
- LocationCache.BuildBulk: its own contract says only that the grid is kept. Its effect is stated by `LocationCache.BuildBulkIsAddAll`.
- LocationCache.PlaceAll: its own contract says only that the grid is kept. Its effect is stated by `LocationCache.PlaceAllIsAddAll`.
- LocationCache.AddAll: its own contract says only that the grid is kept. That the result matches its items is stated by `LocationCache.AddAllConsistent`.
- SvgFile.ExportPairs: its own contract gives only a length bound. The box built from the points is stated by `SvgFile.ContentBox` and `SvgFile.BoxOfPoints`.
- SvgFile.LowXs, SvgFile.HighXs, SvgFile.LowYs, SvgFile.HighYs: their own contracts give only length bounds. The extremes they lead to are stated by `SvgFile.Span`.
- Animator.MoveSelected: one place up it calls `movePathsUp` as corrected (see Findings), so on a selection with a gap it differs from the program. The dispatcher as the program runs it is `Animator.MoveSelectedAsWritten`, and `Animator.MoveSelectedUpDiffers` shows the difference on {2, 5} among six.
- EditorState.DeleteAll: its own contract says only that the selection and modes are kept. Its effect is stated by `EditorState.DeleteAllIsKeep`.

## Where the code differs from its comments and from SVG 1.1

The model follows the code in each case.

- Number runs (Path.cs:30-38): the numbers after a command letter are maximal runs of digits, `-` and `.`, plus `e`/`E` in `MovePathBy` only. This is not the number grammar of section 8.3 of SVG 1.1. So `10-5` is one run; it does not parse and is dropped.
- `MovePathBy` (Path.cs:9-14): the summary says all points move, and the comment at line 14 says only absolute coordinates are offset. The code also offsets the pair of the first relative moveto of the whole path (Path.cs:52-60), even after an absolute `M` (see Findings).
- `OffsetPathD` (Path.cs:960-961): the comment says the result is the path offset by the given amount. The code moves only the pairs after the exact tokens `M`, `L`, `Q` and `C`. It copies every other token as it is, so `H`, `V`, `S`, `T` and `A` keep their coordinates. It does not strip command letters. A recognised letter whose arguments do not parse is dropped.
- `CatmullRom` (SmoothingStrategies.cs:94-117): the comment promises a Catmull-Rom spline, which passes through every point. The code emits `C` for `i` from 1 to `n - 3`, ending at `pts[2]` to `pts[n - 2]`, then a closing `L` to the last point. So `pts[1]` is never an endpoint of the result.
- `ComputeAdaptiveStep` (SmoothingStrategies.cs:14-44): the comments name 0.3 rad as the curvy threshold and a step of 2 to 4 for curvy lines. The code switches to the base step at 0.2 rad. Between 0.1 and 0.2 rad it uses the larger of the base step and half the maximum step, which is 10 with the editor's defaults.

## Findings

| source | as written | input that shows it | evidently intended | confidence | as-written member | corrected member |
|---|---|---|---|---|---|---|
| src/AnimatedDiagrams/Services/PathEditorState.cs:254-275 | `SimplifySelectedItems` calls `BuildPath` without guarding it. Under the quadratic strategy `QuadraticBezier` reads `pts[0]` of an empty point list and throws (src/AnimatedDiagrams/Models/SmoothingStrategies.cs:66). The loop stops, and items handled earlier stay changed. | a selected path with empty data, as an imported `<path>` without `d` has, under `QuadraticBezier` | the path keeps its data, like any result that fails the acceptance gate | not executed | EditorState.EmptyPathThrows | EditorState.EmptyPathKept |
| src/AnimatedDiagrams/PathGeometry/Path.cs:20, 48-75 | the "first relative moveto" flag is cleared only by a relative `m`, so an absolute `M` does not clear it | `M 0 0 m 5 5` moved by (1, 1) becomes `M 1 1 m 6 6`, so the second subpath starts at (7, 7) instead of (6, 6) | any moveto clears the flag, and moving the text moves the drawing by the offset | not executed | PathShift.AsWrittenMovesRelativeMoveToTwice | PathShift.MovePathByFixedMovesDrawing |
| src/animation.js:2163-2180 | after a swap, `movePathsUp` decrements every index from `i` on, including indices not handled yet, whose elements have not moved | six elements with {2, 5} selected: the element at 4, which is not selected, moves up, the selected one at 5 stays, and {1, 3, 5} ends up selected | only the handled index moves down; each selected element not in a run at the top moves up one place, and the selection follows it | not executed | Animator.UpAsWrittenMovesWrongElement | Animator.MovePathsUpMoves |

