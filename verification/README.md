# jcurses core in Dafny

A functional model of the core of jcurses, a Java text-mode user-interface
toolkit. It covers the rectangle arithmetic, the clip stack and clipped
drawing primitives of `Toolkit`, and the key decoding and colour-pair table.
It also covers the widget tree (visibility, focus, absolute position, the
focusable and shortcut collections, painting balance, packing, layout-manager
binding) and the `Window` focus machinery and input dispatch. The
`WindowManager` window stack and its active window are modelled too, as are
the `List`/`MenuList` selection and scrolling state machine, the `TextUtils`
string functions, theme colour lookup and `CharColor` validation. The
remaining pieces are the file-name glob of `DefaultFileFilterFactory` and the
small widgets `PopUpList`, `CheckBox`, `Button`, `TextField`, `Label` and
`Message`.

Every Java object is an immutable datatype, and every mutator is a pure
function that returns the new state. Where the Java code notifies listeners,
draws or calls hooks, the function also returns a trace: events, draw
operations or hook calls. A Java exception is the `Err` case of
`Wrappers.Result` and names the exception class (`JavaError`). Java `null`
is `Option.None`.

Modules, with the jcurses class each follows and the file that holds it:

- `Geometry` (`geometry.dfy`): `jcurses.util.Rectangle`.
- `Toolkit` (`toolkit.dfy`): the non-native logic of `jcurses.system.Toolkit`.
- `CharColors` (`charcolor.dfy`): `jcurses.system.CharColor`.
- `JavaStrings` (`javastrings.dfy`): the `java.lang.String` operations the code relies on (`split("\n")`, `trim`, `indexOf`, `toLowerCase`, `startsWith`/`endsWith`).
- `TextUtils` (`textutils.dfy`): `jcurses.util.TextUtils`.
- `Themes` (`themes.dfy`): `BaseTheme` and `WindowThemeOverride`.
- `Widgets` (`widgets.dfy`): `Widget` and `WidgetContainer`.
  - A widget's parent chain is a `seq<Info>`: index 0 is the widget and the last entry is the root panel.
- `Windows` (`window.dfy`): `Window`.
- `WindowManager` (`windowmanager.dfy`): the stack of windows, the active window, repainting, start and shutdown.
- `WindowOperations` (`windowmanager.dfy`): `moveToTheTop`, input routing and the window-side `show`/`hide`/`close`/`tryToClose`/`setVisible` that call into the manager.
- `Lists` (`list.dfy`): the state of a `List` or `MenuList` and the operations that read it. A menu is the `Menu` kind of list.
- `ListEdits` (`list.dfy`): adding, removing and replacing rows, and why no edit breaks single selection.
- `ListSelection` (`list.dfy`): selecting and deselecting rows and the events that follow.
- `ListCursor` (`list.dfy`): the visible rows, the search for a row the cursor may rest on, and the list's key handling.
- `MenuLists` (`list.dfy`): what `MenuList` changes: separators, their display, its size and its refusal of the space key.
- `PopUpLists`, `CheckBoxes`, `Buttons`, `TextFields`, `Labels`, `Messages` and `FileFilters`: one file each.
- `Keys` (`keys.dfy`): the keys the code compares against. It stands in for `InputChar`, which is not part of this model.

Notes where the code decides a point the documentation leaves open (the
model follows the code):

- `TextUtils.replicate` allocates a buffer of the requested size, so a
  negative size throws `NegativeArraySizeException`. Because of that,
  `leftPad` and `center` throw when the string is longer than the target
  width, instead of returning it unchanged.
- `List.select` and `List.deselect` dispatch an event even when the row
  already had that state.
- `List.remove(String)` does not reset the scroll state, so the tracked row
  can be left past the end (`ListEdits.RemoveItemCanStrandCursor`). The
  cursor keys then move it between positions that are not rows
  (`ListCursor.StrandedCursorStepsUp`).
- The cursor moves and the key handler use the search exactly as written,
  so in a menu they can throw `ArrayIndexOutOfBounds`
  (`ListCursor.MenuEndKeyThrows`). The `...Corrected` moves, built on
  `ListCursor.FindNext`, show what the search was meant to do.
- `PopUpList` edits never adjust the stored index, so reading the selected
  item can throw (`PopUpLists.RemoveStrandsSelection`).
- `String.split("\n")` drops trailing empty pieces, and `""` splits to `[""]`.
  `JavaStrings.Split` models exactly that.
- A theme colour is looked up in the window override, then in the base theme
  (including its `default` key), then in the global theme. No other
  ancestor chain is consulted.
- `Message` places a label sized from the raw `split`, but sizes its cell
  from the non-empty tokens only. Blank lines can therefore make the label
  taller than its cell (`Messages.LabelCanOverflowCellHeight`). The layout
  manager that would cut it is not part of this model, so this is stated as
  a property of the model, not as a defect.

## Model

| member | source | states |
|---|---|---|
| Geometry.Sized | src/jcurses/util/Rectangle.java:42-46 | the size-only constructor places the rectangle at the origin with the given extent |
| Geometry.EmptyIffNoCell | src/jcurses/util/Rectangle.java:83-86 | a rectangle is empty exactly when no cell lies inside it |
| Geometry.ContainsIffCellsInside | src/jcurses/util/Rectangle.java:253-276 | containment holds iff both rectangles are non-empty and every cell of the inner one is a cell of the outer |
| Geometry.DirectionDuality | src/jcurses/util/Rectangle.java:55-70 | a is left of b iff b is right of a, and a is above b iff b is below a |
| Geometry.SeparatedShareNoCell | src/jcurses/util/Rectangle.java:120-164 | rectangles that are left/right/above/below one another share no cell |
| Geometry.Intersection | src/jcurses/util/Rectangle.java:336-356 | an empty receiver is returned as is, else an empty argument; otherwise the result's cells are exactly the common cells |
| Geometry.IntersectionCells | src/jcurses/util/Rectangle.java:336-356 | for all inputs, a cell is in the intersection iff it is in both operands |
| Geometry.IntersectionOfSeparated | src/jcurses/util/Rectangle.java:342-355 | strictly disjoint rectangles intersect to (0,0,0,0); touching ones give an empty rectangle |
| Geometry.IntersectionCommutes | src/jcurses/util/Rectangle.java:342-355 | the intersection has the same cells both ways round and is equal for non-empty operands |
| Geometry.IntersectionContained | src/jcurses/util/Rectangle.java:342-355 | a non-empty intersection is contained in both operands |
| Geometry.Union | src/jcurses/util/Rectangle.java:412-426 | an empty operand yields the other; two non-empty operands are both contained in the union |
| Geometry.UnionIsSmallest | src/jcurses/util/Rectangle.java:412-426 | any rectangle containing both operands contains their union |
| Geometry.Half | src/jcurses/util/Rectangle.java:311-314 | Java's truncating `/ 2`: twice the result is n or n-1 for n >= 0, and n or n+1 below zero, so it rounds toward zero |
| Geometry.HorizontalDistanceFrom | src/jcurses/util/Rectangle.java:299-302 | the gap between the two left edges: zero iff they coincide |
| Geometry.EdgeDistancesSymmetric | src/jcurses/util/Rectangle.java:299-302 | both edge distances are the same measured from the other rectangle |
| Geometry.VerticalDistanceFrom | src/jcurses/util/Rectangle.java:435-438 | the gap between the two top edges: zero iff they coincide |
| Geometry.HorizontalDistanceFromCenters | src/jcurses/util/Rectangle.java:311-314 | the absolute difference of the two centre columns, with the receiver's half-width added instead of subtracted |
| Geometry.VerticalDistanceFromCenters | src/jcurses/util/Rectangle.java:447-450 | the same slip on the rows |
| Geometry.DistanceFrom | src/jcurses/util/Rectangle.java:285-290 | the sum of the squares of the two centre distances |
| Geometry.DistanceFromSelfNotZero | src/jcurses/util/Rectangle.java:285-290 | a 2x2 rectangle is at distance 8 from itself |
| Geometry.CentreDistanceIsMetricLike | src/jcurses/util/Rectangle.java:285-314 | the corrected centre distance is zero on equal rectangles, symmetric, and zero iff the centres coincide |
| Geometry.ShortestDistanceFrom | src/jcurses/util/Rectangle.java:377-398 | zero iff the column gap and the row gap are both zero |
| Geometry.ShortestDistanceSymmetric | src/jcurses/util/Rectangle.java:377-398 | for non-empty rectangles the shortest distance is symmetric, and zero when they share a cell |
| Toolkit.PushClip | src/jcurses/system/Toolkit.java:120-129 | pushing appends the rectangle and keeps the stack below it |
| Toolkit.PopClip | src/jcurses/system/Toolkit.java:620-634 | popping removes the last rectangle; popping an empty stack is a no-op |
| Toolkit.PopUndoesPush | src/jcurses/system/Toolkit.java:120-129 | unset after set restores the previous stack |
| Toolkit.EffectiveClip | src/jcurses/system/Toolkit.java:701-720 | the effective clip is null exactly when nothing is pushed |
| Toolkit.ClipFoldCells | src/jcurses/system/Toolkit.java:701-720 | a cell is in the effective clip iff it is in every pushed rectangle |
| Toolkit.PushNarrowsClip | src/jcurses/system/Toolkit.java:701-720 | after a push the effective clip is the old clip intersected with the new rectangle |
| Toolkit.EmptyFoldAbsorbs | src/jcurses/system/Toolkit.java:701-720 | once a prefix of the stack folds to an empty rectangle, further pushes do not change the clip |
| Toolkit.CurrentClipRectangle | src/jcurses/system/Toolkit.java:701-720 | the current clip is the left fold of intersection over the stack |
| Toolkit.IsBetweenSymmetric | src/jcurses/system/Toolkit.java:739-746 | isBetween(v,a,b) iff min(a,b) <= v <= max(a,b), hence symmetric in a and b |
| Toolkit.DrawCornerClip | src/jcurses/system/Toolkit.java:258-267 | at most one corner; unclipped it is drawn; under a non-empty clip it lies inside the clip |
| Toolkit.DrawHLineClip | src/jcurses/system/Toolkit.java:291-308 | at most one line; unclipped it is drawn whole; clipped, its end points are clamped to the clip's columns; under a clip that covers a cell an ordered line paints exactly its cells inside the clip |
| Toolkit.DrawVLineClip | src/jcurses/system/Toolkit.java:407-424 | the transpose of the horizontal case: end points clamped to the clip's rows, and exactly the line's cells inside a clip that covers a cell |
| Toolkit.DegenerateClipLeaks | src/jcurses/system/Toolkit.java:739-746 | an empty clip one row tall still lets a line and a corner through on the row just above it |
| Toolkit.DegenerateClipArises | src/jcurses/system/Toolkit.java:701-720 | two stacked clips that touch fold to that empty rectangle |
| Toolkit.CornerClipped | src/jcurses/system/Toolkit.java:258-267 | corrected: drawn iff the point is inside the clip, and always within it |
| Toolkit.HLineClipped | src/jcurses/system/Toolkit.java:291-308 | corrected: under any clip an ordered horizontal line paints exactly its cells inside the clip |
| Toolkit.VLineClipped | src/jcurses/system/Toolkit.java:407-424 | corrected: under any clip an ordered vertical line paints exactly its cells inside the clip |
| Toolkit.ClippedAgreeOnNonEmptyClip | src/jcurses/system/Toolkit.java:258-424 | the corrected primitives agree with the Java ones on every non-empty clip |
| Toolkit.DrawBorder | src/jcurses/system/Toolkit.java:229-247 | eight primitives without a clip; drawn through the Java clip tests, so everything lies inside a clip that covers a cell |
| Toolkit.DrawBorderClipped | src/jcurses/system/Toolkit.java:229-247 | corrected: the border never leaves the clip, whatever the clip |
| Toolkit.BorderClippedAgrees | src/jcurses/system/Toolkit.java:229-247 | unclipped or under a clip that covers a cell, the corrected border is the Java one |
| Toolkit.DegenerateBorderLeaks | src/jcurses/system/Toolkit.java:229-247 | under a zero-height clip the Java border still draws its upper-left corner above the clip; the corrected one draws nothing |
| Toolkit.BorderCoversOutline | src/jcurses/system/Toolkit.java:229-247 | unclipped, the border's cells are exactly the rectangle's outline |
| Toolkit.DrawRectangleClip | src/jcurses/system/Toolkit.java:377-396 | at most one fill; unclipped it is the request; clipped, it covers every cell of request and clip, lies inside the clip, starts at the origin moved into the clip and is no larger than requested |
| Toolkit.DrawRectangleClipOverdraws | src/jcurses/system/Toolkit.java:377-396 | a 4-wide fill cut by 2 on the left still paints 4 cells, one past the request |
| Toolkit.DrawRectangleClipped | src/jcurses/system/Toolkit.java:377-396 | corrected: a clipped fill covers exactly the cells in both the request and the clip |
| Toolkit.ChangeColors | src/jcurses/system/Toolkit.java:179-191 | recolours exactly the cells of the area that lie in the clip; nothing is sent iff they share no cell |
| Toolkit.PrintBox | src/jcurses/system/Toolkit.java:526-536 | the print box starts no earlier than the request and lies within the clip |
| Toolkit.PrintString | src/jcurses/system/Toolkit.java:526-557 | throws iff the width is negative and the text has a line feed; every call prints the clipped tail of one broken line inside the clip |
| Toolkit.PrintLines | src/jcurses/system/Toolkit.java:529-556 | for lines already broken: every call prints the tail of one line cut at the clip, and stays inside the clip |
| Toolkit.PrintedRowsText | src/jcurses/system/Toolkit.java:545-556 | each emitted row is the tail of the line at its screen position |
| Toolkit.PrintedRowsInBox | src/jcurses/system/Toolkit.java:536-556 | rows emitted into a box inside the clip stay inside the clip |
| Toolkit.PrintStringAt | src/jcurses/system/Toolkit.java:568-570 | the one-row form never throws and stays inside the clip |
| Toolkit.ReadCharacter | src/jcurses/system/Toolkit.java:583-604 | ESC then c gives c+1000, ESC then nothing gives ESC, a bare -1 gives null, others pass through; it consumes two codes after ESC, else one |
| Toolkit.DecodeEncode | src/jcurses/system/Toolkit.java:583-604 | decoding an encoded key returns the key and the rest of the input |
| Toolkit.DecodeInjective | src/jcurses/system/Toolkit.java:583-604 | for native codes below 1000, equal decoded keys come from equal inputs |
| Toolkit.ColorPairNo | src/jcurses/system/Toolkit.java:659-674 | a known pair returns its number unchanged; a new pair gets the next number and leaves the others alone |
| Toolkit.PairNumbersIdentifyCombinations | src/jcurses/system/Toolkit.java:857-863 | two requests get the same number iff they ask for the same (background, foreground) |
| CharColors.New | src/jcurses/system/CharColor.java:86-96 | the constructor succeeds iff both colours and both attributes are valid, else IllegalArgumentException |
| CharColors.NewWithAttribute | src/jcurses/system/CharColor.java:105-107 | the three-argument form validates and uses NORMAL for the colour attribute |
| CharColors.NewPlain | src/jcurses/system/CharColor.java:115-117 | the two-argument form validates the colours and uses NORMAL attributes |
| CharColors.SetBackground | src/jcurses/system/CharColor.java:124-128 | accepts exactly the valid colours and changes only the background |
| CharColors.SetForeground | src/jcurses/system/CharColor.java:180-184 | accepts exactly the valid colours and changes only the foreground |
| CharColors.SetBlackWhiteAttribute | src/jcurses/system/CharColor.java:144-146 | stores the attribute unchecked and changes nothing else |
| CharColors.SetColorAttribute | src/jcurses/system/CharColor.java:162-164 | stores the attribute unchecked and changes nothing else |
| CharColors.SettersAndValidity | src/jcurses/system/CharColor.java:124-184 | the checked setters keep a valid colour valid; the unchecked attribute setters keep it valid iff the attribute is valid |
| CharColors.ColorName | src/jcurses/system/CharColor.java:214-235 | a name other than UNKNOWN COLOR comes back exactly for the eight colours |
| CharColors.ModusName | src/jcurses/system/CharColor.java:243-254 | a name other than UNKNOWN MODUS comes back exactly for the valid attributes |
| CharColors.ColorNamesDistinct | src/jcurses/system/CharColor.java:214-235 | distinct colours have distinct names |
| CharColors.ModusNamesDistinct | src/jcurses/system/CharColor.java:243-254 | distinct attributes have distinct names |
| JavaStrings.JoinSplitAll | src/jcurses/util/TextUtils.java:25-68 | joining the pieces of a split with line feeds gives the text back |
| JavaStrings.SplitAllJoin | src/jcurses/util/TextUtils.java:25-68 | splitting joined line-feed-free pieces gives the pieces back |
| JavaStrings.Split | src/jcurses/util/TextUtils.java:25-68 | `split("\n")`: the full split less its trailing empty pieces, the whole text when there is no line feed |
| JavaStrings.SplitExamples | src/jcurses/util/TextUtils.java:25-68 | "" splits to [""], "\n" to [], and trailing empty pieces are dropped |
| JavaStrings.Tokens | src/jcurses/util/Message.java:54-91 | the tokens are the non-empty line pieces in order: one per non-empty piece, each at the count of non-empty pieces before it; none holds a line feed, and together they are the text less its line feeds |
| JavaStrings.NonEmptyIndexed | src/jcurses/util/Message.java:54-91 | dropping the empty pieces keeps the others in order and drops nothing else |
| JavaStrings.TokensKeepOrder | src/jcurses/util/Message.java:54-91 | "ab\na\nb\nab" gives the four tokens ab, a, b, ab, repeats kept in place |
| JavaStrings.ConcatSplitAll | src/jcurses/util/Message.java:54-91 | the pieces between line feeds, run together, are the text less its line feeds |
| JavaStrings.Trim | src/jcurses/widgets/DefaultFileFilterFactory.java:38-42 | `trim`: the piece of the text after its leading blanks with only blanks after it; no blank at either end; empty iff the text is all blanks |
| JavaStrings.TrimIdempotent | src/jcurses/widgets/DefaultFileFilterFactory.java:38-42 | trimming twice is trimming once |
| JavaStrings.IndexOfChar | src/jcurses/widgets/Button.java:212-224 | the first occurrence of a character, -1 iff absent |
| JavaStrings.LastIndexOfChar | src/jcurses/widgets/DefaultFileFilterFactory.java:50-76 | the last occurrence of a character, -1 iff absent |
| JavaStrings.IndexOf | src/jcurses/widgets/TextField.java:80-81 | `indexOf(String)`: the first position where the substring occurs, -1 iff it occurs nowhere |
| JavaStrings.IndexOfOneChar | src/jcurses/widgets/DefaultFileFilterFactory.java:61 | `indexOf` of a one-character string equals `indexOf(char)`, so the widgets' one-character searches are the character search |
| JavaStrings.ToLower | src/jcurses/widgets/Button.java:212-224 | lower-cases character by character and keeps the length |
| JavaStrings.Longest | src/jcurses/widgets/Label.java:63-72 | the largest piece length: an upper bound attained by some piece, 0 for none |
| JavaStrings.LongestSplitTokens | src/jcurses/util/Message.java:54-76 | the longest piece of `split` equals the longest non-empty token |
| JavaStrings.SplitPiecesShort | src/jcurses/widgets/Label.java:63-72 | no piece of a split is longer than the text |
| TextUtils.FindBreak | src/jcurses/util/TextUtils.java:40-53 | the break search throws StringIndexOutOfBounds exactly when it starts past a too-short line |
| TextUtils.WrapBreak | src/jcurses/util/TextUtils.java:40-53 | a break other than the forced cut is a whitespace position inside the window |
| TextUtils.WrapFrom | src/jcurses/util/TextUtils.java:40-60 | every piece's characters come from the line |
| TextUtils.WrapLine | src/jcurses/util/TextUtils.java:40-60 | the pieces of one line hold only that line's characters |
| TextUtils.WrapLines | src/jcurses/util/TextUtils.java:25-68 | null wraps to no lines, and no piece holds a line feed |
| TextUtils.ShortLineUnchanged | src/jcurses/util/TextUtils.java:37-39 | a line no longer than the width is one piece unchanged |
| TextUtils.WrapLinesShortLines | src/jcurses/util/TextUtils.java:25-68 | when every line fits, wrapping is `split` |
| TextUtils.WrapLineCutsAtLastWhitespace | src/jcurses/util/TextUtils.java:40-53 | a long line is cut at the last whitespace within the width |
| TextUtils.WrapLinesAsWritten | src/jcurses/util/TextUtils.java:40-53 | "abcdef" at width 3 gives ["abcd", "f"], and "ab cde" throws |
| TextUtils.WrapFromCorrected | src/jcurses/util/TextUtils.java:40-60 | corrected: every piece fits the width |
| TextUtils.WrapFromCorrectedKeepsText | src/jcurses/util/TextUtils.java:40-60 | corrected: the pieces keep every non-blank character of the line, in order |
| TextUtils.WrapAllCorrected | src/jcurses/util/TextUtils.java:25-68 | corrected: every wrapped line fits the width |
| TextUtils.WrapLinesCorrected | src/jcurses/util/TextUtils.java:25-68 | corrected: every piece fits, and null gives no lines |
| TextUtils.WrapAllCorrectedKeepsText | src/jcurses/util/TextUtils.java:25-68 | corrected: wrapping all lines keeps their non-blank text |
| TextUtils.WrapLinesCorrectedKeepsText | src/jcurses/util/TextUtils.java:25-68 | corrected: wrapping a message keeps the non-blank text of its lines |
| TextUtils.WrapLinesCorrectedExample | src/jcurses/util/TextUtils.java:40-53 | corrected: "abcdef" at width 3 gives ["abc", "def"] |
| TextUtils.Replicate | src/jcurses/util/TextUtils.java:77-83 | n copies of the character; a negative n throws NegativeArraySizeException |
| TextUtils.LeftPad | src/jcurses/util/TextUtils.java:145-147 | throws iff the string is longer than n; else n characters ending in the string, blanks before |
| TextUtils.Center | src/jcurses/util/TextUtils.java:133-136 | throws iff the string is longer than n; else the string at offset (n-len)/2 between blanks |
| TextUtils.CenterAll | src/jcurses/util/TextUtils.java:156-162 | the array form succeeds iff every line fits, and then centres each line |
| TextUtils.LeftPadAll | src/jcurses/util/TextUtils.java:172-178 | the array form succeeds iff every line fits, and then pads each line |
| TextUtils.MergeLines | src/jcurses/util/TextUtils.java:187-197 | the merged text ends with a line feed |
| TextUtils.MergeLinesSplitsBack | src/jcurses/util/TextUtils.java:187-197 | the full split of merged lines is the lines plus two empty pieces |
| TextUtils.MergeLinesRoundTrip | src/jcurses/util/TextUtils.java:187-197 | `split` undoes `mergeLines` when the last line is non-empty |
| TextUtils.Wrap | src/jcurses/util/TextUtils.java:206-208 | `wrap` throws iff `wrapLines` does, and its text splits back into the wrapped lines |
| TextUtils.EmitLine | src/jcurses/util/TextUtils.java:94-124 | a buffered line is emitted whole, or cut once at the width when longer |
| TextUtils.BreakFrom | src/jcurses/util/TextUtils.java:94-124 | the emitted lines concatenate to the buffer plus the text without breaks |
| TextUtils.BreakLines | src/jcurses/util/TextUtils.java:94-124 | throws iff the width is negative and there is a line feed; the lines hold the text without breaks |
| TextUtils.BreakLinesMatchesReference | src/jcurses/util/TextUtils.java:94-124 | the loop equals a line-at-a-time reference definition |
| Themes.SetColor | src/jcurses/themes/BaseTheme.java:34-37 | a colour is stored under its key, null removes it, other keys are unchanged |
| Themes.BaseColor | src/jcurses/themes/BaseTheme.java:21-32 | the key's colour, else the `default` key's, else the fallback |
| Themes.GetColorResolvesByLayers | src/jcurses/themes/WindowThemeOverride.java:30-41 | the lookup equals the first layer of override, base and global that defines the key |
| Themes.SetThenGet | src/jcurses/themes/BaseTheme.java:21-37 | a colour set is the colour read back |
| Themes.SetLeavesOtherKeys | src/jcurses/themes/BaseTheme.java:21-37 | setting one key leaves every other key's lookup unchanged |
| Themes.DefaultFeedsMissingKeys | src/jcurses/themes/BaseTheme.java:21-32 | a key missing from a base theme reads as its `default` colour |
| Themes.WidgetThemeFallsBackToGlobal | src/jcurses/themes/WindowThemeOverride.java:20-41 | an override without a base falls back to the global theme |
| Widgets.DefaultInfo | src/jcurses/widgets/Widget.java:382-414 | a fresh widget is visible, unfocused, not focusable and has no shortcuts or window |
| Widgets.Collect | src/jcurses/widgets/WidgetContainer.java:85-122 | every collected widget passes the test |
| Widgets.CollectIffExposed | src/jcurses/widgets/WidgetContainer.java:85-100 | a widget is collected iff it passes the test and no qualifying widget lies above it |
| Widgets.QualifyingContainerNotDescended | src/jcurses/widgets/WidgetContainer.java:93-96 | a focusable child inside a focusable container is not collected |
| Widgets.GetWindow | src/jcurses/widgets/Widget.java:326-332 | the window is the root ancestor's |
| Widgets.IsVisibleIffAllFlags | src/jcurses/widgets/Widget.java:181-191 | visible iff the window is shown and every flag up the chain is set |
| Widgets.HasFocusIffAllFlags | src/jcurses/widgets/Widget.java:222-225 | focused iff every focus flag up the chain is set |
| Widgets.SetFocus | src/jcurses/widgets/Widget.java:451-461 | sets the flag on every ancestor and calls the hooks root-first |
| Widgets.SetFocusStep | src/jcurses/widgets/Widget.java:451-461 | one level of the recursion puts the widget's flag before its ancestors' and its hook after theirs |
| Widgets.SetFocusDecidesHasFocus | src/jcurses/widgets/Widget.java:451-461 | after `setFocus(b)`, `hasFocus` is b |
| Widgets.AbsoluteThroughAncestor | src/jcurses/widgets/Widget.java:230-262 | the absolute position is the sum of relative offsets up the chain |
| Widgets.GetRectangle | src/jcurses/widgets/Widget.java:292-295 | own size at the absolute position |
| Widgets.PaintLeaf | src/jcurses/widgets/Widget.java:419-435 | the draw hook runs once iff the widget is visible |
| Widgets.PaintNodeBalanced | src/jcurses/widgets/WidgetContainer.java:138-155 | painting a subtree leaves the clip stack as it found it |
| Widgets.PackPlacesEachWidgetOnce | src/jcurses/widgets/WidgetContainer.java:170-180 | the trace has one entry per widget, holds exactly the ids found in the tree, and starts with the first child |
| Widgets.PackAppend | src/jcurses/widgets/WidgetContainer.java:170-180 | packing siblings is packing each in turn |
| Widgets.SetLayoutManager | src/jcurses/widgets/WidgetContainer.java:29-36 | the old manager is unbound before the new one is bound |
| Widgets.GetLayoutManager | src/jcurses/widgets/WidgetContainer.java:43-49 | never null: installs and binds the default when none is set |
| Widgets.GetLayoutManagerStable | src/jcurses/widgets/WidgetContainer.java:43-49 | a second call returns the same manager with no binding |
| Widgets.AddWidget | src/jcurses/widgets/WidgetContainer.java:131-136 | appends the child and its constraint, nothing else changes |
| Widgets.RemoveWidget | src/jcurses/widgets/WidgetContainer.java:193-201 | a focused child without a window throws; otherwise the child and its constraint are removed and focus is advanced first iff it was focused |
| Widgets.AddThenRemove | src/jcurses/widgets/WidgetContainer.java:131-201 | removing a just-added child restores the children |
| Windows.RootPanelRect | src/jcurses/widgets/Window.java:709-729 | the root panel is the window, inset by one on each side when bordered |
| Windows.NewWindow | src/jcurses/widgets/Window.java:85-100 | a new window keeps its rectangle and border, is hidden, open, unfocused, shadowed, with Escape and Tab as its keys; its empty root panel belongs to it and sits at the inset corner with a 0x0 size until `pack` |
| WindowManager.ConstructWindow | src/jcurses/widgets/Window.java:85-101 | the constructor registers the new window: it is added to the map and appended on top of the stack, hidden, the active window is unchanged, and `Initialised` is sent only on first use |
| Windows.ClipRect | src/jcurses/widgets/Window.java:410-416 | one wider and one taller when shadowed |
| Windows.CutIfNeeded | src/jcurses/widgets/Window.java:734-744 | only shrinks, until the window and its shadow fit the screen |
| Windows.CutIfNeededIdempotent | src/jcurses/widgets/Window.java:734-744 | cutting twice is cutting once |
| Windows.ChangeFocusTo | src/jcurses/widgets/Window.java:431-443 | no-op on the current index; else unfocuses the old one if in range, stores i, focuses the new one if in range |
| Windows.ChangeFocusToWidget | src/jcurses/widgets/Window.java:451-453 | focuses the widget's list index, -1 when absent |
| Windows.Advance | src/jcurses/widgets/Window.java:460-467 | moves to the next index, always a valid one for a non-empty list |
| Windows.AdvanceIsCyclicSuccessor | src/jcurses/widgets/Window.java:460-467 | (current+1) mod n for current in [-1, n-1], else 0 |
| Windows.AdvanceCycles | src/jcurses/widgets/Window.java:460-467 | n advances from a valid index return to it |
| Windows.LoadFocusables | src/jcurses/widgets/Window.java:760-765 | after loading, the index is valid for a non-empty list, and 0 with no focus for an empty one |
| Windows.LoadFocusablesFocusesFirst | src/jcurses/widgets/Window.java:760-765 | an out-of-range index moves focus to the first widget |
| Windows.Scan | src/jcurses/widgets/Window.java:476-544 | the scan keeps the start or picks a candidate seen so far |
| Windows.CloserSteps | src/jcurses/widgets/Window.java:500-537 | the closer-than order is irreflexive and transitive |
| Windows.MoveTargetProperties | src/jcurses/widgets/Window.java:476-544 | the target lies strictly in the direction, no candidate is closer, and ties go to the earliest |
| Windows.MoveFocus | src/jcurses/widgets/Window.java:476-544 | no focusables leaves the window alone; the list is never changed, and only the focus index can |
| Windows.MoveFocusLandsOnTarget | src/jcurses/widgets/Window.java:476-544 | focus lands on the scan's target, or on the first widget when nothing was focused |
| Windows.AllKeys | src/jcurses/widgets/Window.java:770-785 | the shortcut list holds exactly the registered keys |
| Windows.LastRegistration | src/jcurses/widgets/Window.java:770-785 | the last widget to register a key, none iff no widget does |
| Windows.ShortcutTableLastWins | src/jcurses/widgets/Window.java:770-785 | the table maps a key to the widget that registered it last |
| Windows.LoadShortcuts | src/jcurses/widgets/Window.java:770-785 | rebuilds the list and table from the registrations and changes nothing else |
| Windows.HandleInput | src/jcurses/widgets/Window.java:566-590 | the widget's own consumption first, then the key alone fixes the action in dispatch order (closing key, focus key, arrow with its own direction, listed shortcut, otherwise unhandled), and each action implies its key; only the focus index of the window changes; it throws only for a listed key missing from the table |
| Windows.LoadedWindowHandlesAllInput | src/jcurses/widgets/Window.java:566-590 | after the shortcuts are loaded, input never throws |
| Windows.ArrowMovesFocus | src/jcurses/widgets/Window.java:566-590 | an unconsumed arrow key moves the focus |
| Windows.FocusEntries | src/jcurses/widgets/Window.java:760-765 | the focus list is the root panel's focusables in order |
| Windows.Registrations | src/jcurses/widgets/Window.java:770-785 | one registration per widget with a shortcut list |
| Windows.Pack | src/jcurses/widgets/Window.java:348-354 | the rectangle is cut to the screen, the root is laid out, the focusables are loaded |
| WindowManager.RemoveFirstKeepsOrder | src/jcurses/widgets/WindowManager.java:121-133 | removing a window from the stack keeps the order of the others |
| WindowManager.CheckWindow | src/jcurses/widgets/WindowManager.java:114-119 | no error iff the window is on the stack; a NullPointerException before `init` |
| WindowManager.CreateWindow | src/jcurses/widgets/WindowManager.java:67-74 | initialises on first use, appends a new window, ignores a known one |
| WindowManager.CreateWindowIdempotent | src/jcurses/widgets/WindowManager.java:67-74 | registering twice is registering once |
| WindowManager.TopVisibleIndex | src/jcurses/widgets/WindowManager.java:48-65 | the last visible window on the stack, -1 for none |
| WindowManager.EstablishTopWindow | src/jcurses/widgets/WindowManager.java:48-65 | the active window becomes the topmost visible one, with deactivate/activate events only on a change |
| WindowManager.ActiveWindowIsTopmostVisible | src/jcurses/widgets/WindowManager.java:48-65 | no active window iff none is visible; else it is visible and nothing above it is |
| WindowManager.EstablishTopWindowStable | src/jcurses/widgets/WindowManager.java:48-65 | a second call fires no events |
| WindowManager.PaintedWindows | src/jcurses/widgets/WindowManager.java:151-175 | every painted window meets the area |
| WindowManager.RepaintWindows | src/jcurses/widgets/WindowManager.java:151-175 | start, fill, then for each painted window in stack order exactly push that window's clip, paint it, pop, then end |
| WindowManager.PaintedWindowsExactly | src/jcurses/widgets/WindowManager.java:151-175 | a window is painted iff it is on the stack, visible and meets the area |
| WindowManager.DoWindowVisibilityChange | src/jcurses/widgets/WindowManager.java:98-103 | checks the window, then re-establishes the active window |
| WindowOperations.ShownWindowOnTop | src/jcurses/widgets/WindowManager.java:48-65 | after a window on the stack becomes visible there is an active window, and it is that window when it is topmost on the stack |
| WindowManager.RemoveWindow | src/jcurses/widgets/WindowManager.java:105-112 | removes a known window, marks it closed, shuts down with the last one |
| WindowManager.ShutdownThenCreateRestarts | src/jcurses/widgets/WindowManager.java:177-184 | after the last window goes, the next window re-initialises |
| WindowManager.CloseAllAsWritten | src/jcurses/widgets/WindowManager.java:34-38 | the loop as written keeps the runtime consistent |
| WindowManager.CloseAllAsWrittenAlwaysThrows | src/jcurses/widgets/WindowManager.java:34-38 | it always ends in a NullPointerException once the last window closes |
| WindowManager.CloseAll | src/jcurses/widgets/WindowManager.java:34-38 | corrected: every window on the stack ends closed, no window is reopened or lost, and the run ends with shutdown, without throwing |
| WindowManager.PopLast | src/jcurses/widgets/WindowManager.java:34-38 | closing the last window on the stack keeps the manager valid, closes that window, leaves every other stacked window on the stack, and either shortens the stack or shuts down |
| WindowManager.CloseAllLeavesStaleActiveWindow | src/jcurses/widgets/WindowManager.java:34-38 | the active-window field still names a closed window |
| WindowOperations.MoveToTop | src/jcurses/widgets/WindowManager.java:121-133 | moves a known window to the top, activating it only when visible |
| WindowOperations.Hide | src/jcurses/widgets/Window.java:332-335 | the window is hidden and is not the active one afterwards |
| WindowOperations.Show | src/jcurses/widgets/Window.java:368-375 | no-op when visible; else re-registers and shows it, making it active if it was new |
| WindowOperations.Close | src/jcurses/widgets/Window.java:323-327 | hides, marks closed and unregisters the window |
| WindowOperations.CloseTwiceThrows | src/jcurses/widgets/Window.java:323-327 | closing an already closed window throws |
| WindowOperations.TryToClose | src/jcurses/widgets/Window.java:384-394 | with listeners fires CLOSING and reports `isClosed`; without them closes and reports true |
| WindowOperations.SetVisible | src/jcurses/widgets/Window.java:291-299 | acts only on a change; showing never throws |
| WindowOperations.HideThenShowActivates | src/jcurses/widgets/Window.java:291-375 | hiding then showing a registered window makes it visible with an active window |
| WindowOperations.HandleInput | src/jcurses/widgets/WindowManager.java:76-96 | input goes to the active window; only its closing key can change the active window |
| WindowOperations.ClosingKeyClosesActiveWindow | src/jcurses/widgets/WindowManager.java:76-96 | an unconsumed closing key closes a listener-free active window |
| Lists.NewList | src/jcurses/widgets/List.java:1054-1059 | a new list is empty with its scroll state at zero |
| Lists.Reset | src/jcurses/widgets/List.java:1054-1059 | resets the start, tracked and offset positions only |
| Lists.GetItem | src/jcurses/widgets/List.java:110-113 | the row's text, ArrayIndexOutOfBounds outside the rows |
| Lists.IsSelected | src/jcurses/widgets/List.java:178-181 | the row's flag, an error outside the rows |
| Lists.SelectedIndexes | src/jcurses/widgets/List.java:204-231 | exactly the selected rows, ascending |
| Lists.GetSelectedIndexes | src/jcurses/widgets/List.java:204-231 | the two-pass loop computes the selected rows |
| Lists.CountSelected | src/jcurses/widgets/List.java:204-215 | the first pass counts exactly the selected rows |
| Lists.SelectedIndex | src/jcurses/widgets/List.java:188-197 | a selected row, and the only one when it is not -1 |
| Lists.SelectedIndexFindsTheOne | src/jcurses/widgets/List.java:188-197 | in single mode the one selected row is found |
| Lists.SingleSelectedCount | src/jcurses/widgets/List.java:188-197 | in single mode a selected row makes the selected-index list one long |
| Lists.SelectedItems | src/jcurses/widgets/List.java:274-287 | the texts of the selected rows, in order |
| Lists.SelectedItem | src/jcurses/widgets/List.java:238-247 | the selected row's text, null iff none |
| ListEdits.Add | src/jcurses/widgets/List.java:398-405 | inserts an unselected row at pos, resets scrolling, throws outside 0..size |
| ListEdits.AddLast | src/jcurses/widgets/List.java:412-415 | appends an unselected row and resets scrolling |
| ListEdits.Clear | src/jcurses/widgets/List.java:430-436 | empties the rows and resets scrolling |
| ListEdits.RemoveAt | src/jcurses/widgets/List.java:469-476 | removes the row and its flag, resets scrolling, throws outside the rows |
| ListEdits.IndexOf | src/jcurses/widgets/List.java:483-494 | the first row with the text, -1 iff none |
| ListEdits.RemoveItem | src/jcurses/widgets/List.java:483-494 | removes the row and flag at the first row equal to the text, leaves scrolling as it was; no match changes nothing |
| ListEdits.RemoveItemCanStrandCursor | src/jcurses/widgets/List.java:483-494 | removing the tracked last row leaves the tracked index past the end |
| ListEdits.SetItem | src/jcurses/widgets/List.java:115-124 | replaces one row's text; an equal text changes nothing |
| ListEdits.SetItemKeepsSelection | src/jcurses/widgets/List.java:115-124 | replacing a row's text keeps every selection flag |
| ListSelection.SetSelected | src/jcurses/widgets/List.java:1061-1074 | throws outside the rows; else stores the flag, leaves the rows alone, and in single mode deselects the previously selected row |
| ListSelection.Select | src/jcurses/widgets/List.java:511-519 | selects the row and always ends with a select event |
| ListSelection.Deselect | src/jcurses/widgets/List.java:443-451 | clears the row and always fires a deselect event |
| ListSelection.DeselectIsSelectFalse | src/jcurses/widgets/List.java:443-451 | deselecting is exactly `select(index, false)` followed by the deselect event: same error, same resulting flags |
| ListSelection.SelectKeepsSingleSelection | src/jcurses/widgets/List.java:511-519 | in single mode selecting leaves exactly that row selected |
| ListSelection.SelectAlreadySelected | src/jcurses/widgets/List.java:511-519 | selecting a row that is already selected changes nothing and fires only the select event |
| ListSelection.SelectMovesSelection | src/jcurses/widgets/List.java:1061-1074 | in single mode selecting a new row clears the old one first: events deselect-old then select-new |
| ListSelection.SelectFirstSelection | src/jcurses/widgets/List.java:511-519 | with nothing selected, selecting sets only that flag and fires one select event |
| ListCursor.MaxLength | src/jcurses/widgets/List.java:696-709 | the longest row text |
| ListCursor.MaxStartPos | src/jcurses/widgets/List.java:711-719 | 0, or how far the longest row overflows the inner width |
| ListCursor.SelectableAsWritten | src/jcurses/widgets/MenuList.java:85-87 | plain rows are always selectable; a menu reads the row and throws outside the rows |
| ListCursor.Track | src/jcurses/widgets/List.java:896-912 | stores the tracked row; scrolls to the page start when not stepping, otherwise only when the row is off screen, after which a stepped row is on screen: stepping up starts the page at the row, stepping down makes it the last visible row (start clamped at 0) |
| ListCursor.ProbeAsWritten | src/jcurses/widgets/List.java:876-890 | a found position passed `isSelectable` and lies beyond the start in the direction; only a menu throws; a plain list accepts the first probe |
| ListCursor.FindNextAsWritten | src/jcurses/widgets/List.java:851-915 | only a menu throws; nothing found changes nothing; a found position passed `isSelectable` and is tracked with the page scroll; a plain list tracks the requested position |
| ListCursor.MenuSelectableAsWritten | src/jcurses/widgets/MenuList.java:85-87 | in a menu `isSelectable` accepts exactly the non-separator rows |
| ListCursor.PlainListFindsPosition | src/jcurses/widgets/List.java:851-915 | a plain list always finds the starting position |
| ListCursor.MenuProbeLeavesRange | src/jcurses/widgets/List.java:876-890 | a menu probe past the last row throws |
| ListCursor.MenuProbeBelowZero | src/jcurses/widgets/List.java:876-890 | a menu probe before the first row throws |
| ListCursor.Probe | src/jcurses/widgets/List.java:876-890 | corrected: the bounded probe finds the nearest selectable row in the direction |
| ListCursor.Target | src/jcurses/widgets/List.java:870-893 | corrected: the chosen row is selectable and inside the clamped page |
| ListCursor.FindNext | src/jcurses/widgets/List.java:851-915 | corrected: a found row is selectable, within the page bounds, and visible after a step |
| ListCursor.FindNextComplete | src/jcurses/widgets/List.java:851-915 | corrected: something is found iff the start is in bounds and a selectable row exists there |
| ListCursor.FindNextAgreesOnPlainList | src/jcurses/widgets/List.java:851-915 | on plain-list positions inside their clamped page the corrected search equals the Java one |
| ListCursor.FindNextStaysInRange | src/jcurses/widgets/List.java:876-890 | corrected: the menu case that throws finds nothing instead |
| ListCursor.SetTrack | src/jcurses/widgets/List.java:562-565 | only a menu throws; a plain list tracks the position and scrolls to its page; a menu tracks only a selectable row; otherwise nothing changes |
| ListCursor.SetTrackedItem | src/jcurses/widgets/List.java:326-336 | IllegalArgumentException outside the rows; inside, the `setTrack` outcome, whose menu search may throw ArrayIndexOutOfBounds |
| ListCursor.SetTrackedItemOnTrailingSeparatorThrows | src/jcurses/widgets/List.java:326-336 | tracking the trailing separator of a menu throws |
| ListCursor.IncrementTrack | src/jcurses/widgets/List.java:942-950 | nothing below the last row; a plain list moves one down; a menu moves down to a selectable row or throws; the new row is on screen |
| ListCursor.DecrementTrack | src/jcurses/widgets/List.java:786-794 | nothing above row 0; a plain list moves one up, even from past the last row; a menu moves up to a selectable row or throws; the new row is on screen |
| ListCursor.IncrementPage | src/jcurses/widgets/List.java:917-929 | searches from the next page's offset (the last row from the last page) and scrolls to its page; only a menu throws |
| ListCursor.DecrementPage | src/jcurses/widgets/List.java:763-773 | searches upwards first from the previous page's offset (row 0 from the first page) and scrolls to its page; only a menu throws |
| ListCursor.SetTrackCorrected | src/jcurses/widgets/List.java:562-565 | corrected: never throws and tracks only a selectable row |
| ListCursor.IncrementTrackCorrected | src/jcurses/widgets/List.java:942-950 | corrected: moves down to a selectable row that stays visible, or does nothing |
| ListCursor.DecrementTrackCorrected | src/jcurses/widgets/List.java:786-794 | corrected: moves up to a selectable row that stays visible, or does nothing |
| ListCursor.IncrementPageCorrected | src/jcurses/widgets/List.java:917-929 | corrected: lands on a selectable row or does nothing |
| ListCursor.DecrementPageCorrected | src/jcurses/widgets/List.java:763-773 | corrected: lands on a selectable row or does nothing |
| ListCursor.StrandedCursorStepsUp | src/jcurses/widgets/List.java:786-794 | a plain-list cursor left past the rows steps up to another position past the rows; the corrected move stays put |
| ListCursor.ScrollRight | src/jcurses/widgets/List.java:931-940 | shifts right by one iff below the maximum offset |
| ListCursor.ScrollLeft | src/jcurses/widgets/List.java:775-784 | shifts left by one iff above zero |
| ListCursor.ListHandleInput | src/jcurses/widgets/List.java:588-669 | empty lists consume nothing; the rows never change; unconsumed keys change nothing; navigation keys fire no event, keep the selection, and throw only in a menu; Space toggles the cursor row; Enter calls it or throws |
| ListCursor.PlainListNavigation | src/jcurses/widgets/List.java:588-669 | in a plain list every cursor key is consumed, never throws, and moves the cursor to the position it names |
| ListCursor.MenuEndKeyThrows | src/jcurses/widgets/List.java:632-637 | End on a menu ending in a separator throws ArrayIndexOutOfBounds |
| ListCursor.OnlySpaceSelects | src/jcurses/widgets/List.java:588-669 | every key other than the space key leaves the selection flags as they were |
| ListCursor.StepKeepsCursorVisible | src/jcurses/widgets/List.java:588-669 | Up and Down keep a visible, non-negative tracked row visible; in a plain list they never throw |
| MenuLists.AddSeparator | src/jcurses/widgets/MenuList.java:45-47 | inserts a separator row at the index, throwing outside 0..size |
| MenuLists.AddSeparatorLast | src/jcurses/widgets/MenuList.java:52-54 | appends a separator row |
| MenuLists.MenuSelectableIffNotSeparator | src/jcurses/widgets/MenuList.java:85-87 | a menu row is selectable iff it is not a separator |
| MenuLists.Representation | src/jcurses/widgets/MenuList.java:62-68 | text rows show their text; separators show the separator string |
| MenuLists.MaxRepresentationLength | src/jcurses/widgets/MenuList.java:108-117 | the longest shown row, 0 for none |
| MenuLists.PreferredSize | src/jcurses/widgets/MenuList.java:75-77 | a menu is its longest displayed row plus 2 wide and its rows plus 2 high; a plain list asks for no width |
| MenuLists.HandleInput | src/jcurses/widgets/MenuList.java:95-101 | a menu ignores Space; every other key goes to the list's handler, exceptions included |
| MenuLists.MenuInputNeverSelects | src/jcurses/widgets/MenuList.java:95-101 | no key that does not throw changes a menu's selection |
| ListEdits.AddKeepsSingleSelection | src/jcurses/widgets/List.java:398-405 | inserting keeps at most one row selected |
| ListEdits.RemoveAtKeepsSingleSelection | src/jcurses/widgets/List.java:469-476 | removing keeps at most one row selected |
| ListEdits.RemoveItemKeepsSingleSelection | src/jcurses/widgets/List.java:483-494 | removing by text keeps at most one row selected |
| PopUpLists.NewPopUp | src/jcurses/widgets/PopUpList.java:72-85 | a new pop-up list is empty with no stored choice |
| PopUpLists.SetSelectedIndex | src/jcurses/widgets/PopUpList.java:56-65 | accepts -1 and the rows; anything else throws IndexOutOfBounds and changes nothing |
| PopUpLists.GetSelectedIndex | src/jcurses/widgets/PopUpList.java:72-85 | the stored index, or the first row when none, or -1 when empty |
| PopUpLists.SetThenGetIndex | src/jcurses/widgets/PopUpList.java:56-85 | a stored row reads back; -1 reads as the first row |
| PopUpLists.IndexOfItem | src/jcurses/widgets/PopUpList.java:92-95 | the first row with the text, -1 iff none |
| PopUpLists.SetSelectedItem | src/jcurses/widgets/PopUpList.java:92-95 | a present text selects its first row; an absent one stores -1; nothing else changes |
| PopUpLists.GetSelectedItem | src/jcurses/widgets/PopUpList.java:102-110 | null iff the index is negative, throws iff past the rows, else that row |
| PopUpLists.Add | src/jcurses/widgets/PopUpList.java:117-120 | appends a row, the stored index unchanged |
| PopUpLists.AddAt | src/jcurses/widgets/PopUpList.java:128-131 | inserts a row at pos, throwing outside 0..size |
| PopUpLists.RemoveAt | src/jcurses/widgets/PopUpList.java:166-169 | removes the row at pos, throwing outside the rows |
| PopUpLists.Remove | src/jcurses/widgets/PopUpList.java:156-159 | removes the first occurrence of the text, nothing when absent; the stored index is kept |
| PopUpLists.Clear | src/jcurses/widgets/PopUpList.java:146-149 | removes every row, the stored index unchanged |
| PopUpLists.AddAtThenRemoveAt | src/jcurses/widgets/PopUpList.java:128-169 | removing a just-inserted row gives the list back |
| PopUpLists.RemoveStrandsSelection | src/jcurses/widgets/PopUpList.java:102-169 | removing the chosen last row makes reading the choice throw |
| PopUpLists.GetText | src/jcurses/widgets/PopUpList.java:261-283 | the choice cut or padded to the width less 2; throws on a stranded index or a width under 2 with a longer choice |
| PopUpLists.PreferredSize | src/jcurses/widgets/PopUpList.java:186-189 | the longest row plus 2 wide (2 for no rows), one high |
| PopUpLists.HandleInput | src/jcurses/widgets/PopUpList.java:211-237 | consumes Enter only; stores the menu's choice iff it is a different row of a list longer than one |
| PopUpLists.ChoiceIsShown | src/jcurses/widgets/PopUpList.java:211-237 | after a change the chosen row is the selected item |
| CheckBoxes.NewCheckBox | src/jcurses/widgets/CheckBox.java:75-87 | the default check box is unchecked |
| CheckBoxes.SetValue | src/jcurses/widgets/CheckBox.java:102-111 | stores the value; one event iff it changed |
| CheckBoxes.SetValueTwice | src/jcurses/widgets/CheckBox.java:102-111 | setting the same value again fires nothing |
| CheckBoxes.HandleInput | src/jcurses/widgets/CheckBox.java:137-147 | consumes Space only, toggling with one event |
| CheckBoxes.ToggleTwice | src/jcurses/widgets/CheckBox.java:137-147 | two Spaces give the check box back |
| CheckBoxes.Render | src/jcurses/widgets/CheckBox.java:122 | `[X]` when checked, `[ ]` otherwise |
| CheckBoxes.PreferredSize | src/jcurses/widgets/CheckBox.java:113-116 | exactly the rendering, one line |
| Buttons.NewButton | src/jcurses/widgets/Button.java:31-33 | the label is kept and there is no shortcut |
| Buttons.SetShortCut | src/jcurses/widgets/Button.java:118-120 | stores the shortcut, label unchanged |
| Buttons.ShortCutsList | src/jcurses/widgets/Button.java:152-159 | null iff there is no shortcut, else just the shortcut |
| Buttons.HandleInput | src/jcurses/widgets/Button.java:177-184 | consumes Enter and the shortcut, with exactly one action |
| Buttons.ShortCutKeysAreHandled | src/jcurses/widgets/Button.java:152-184 | every key in the shortcut list is handled |
| Buttons.Render | src/jcurses/widgets/Button.java:134-145 | `< ` label ` >`, with `null` for a missing label |
| Buttons.PreferredSize | src/jcurses/widgets/Button.java:127-129 | the rendering's width, one line; a null label throws |
| Buttons.ShortCutHighlight | src/jcurses/widgets/Button.java:212-224 | the first case-insensitive occurrence of the shortcut, two columns in, matching the drawn letter |
| Buttons.LowerIndex | src/jcurses/widgets/Button.java:219 | searching the lower-cased label finds the first case-insensitive occurrence, or reports that there is none |
| TextFields.SetText | src/jcurses/widgets/TextField.java:74-85 | null passes; else the text up to its first line feed |
| TextFields.SetTextIdempotent | src/jcurses/widgets/TextField.java:74-85 | a stored text stores unchanged |
| TextFields.HandleInput | src/jcurses/widgets/TextField.java:113-123 | the filtered keys are refused; others get the base class's answer |
| TextFields.DelimiterString | src/jcurses/widgets/TextField.java:125-131 | `|` by default, else the set delimiter |
| TextFields.SetDelimiter | src/jcurses/widgets/TextField.java:43-48 | the delimiter becomes the one-character string |
| TextFields.TextRectangle | src/jcurses/widgets/TextField.java:92-99 | the field less one column at each end |
| Labels.SetText | src/jcurses/widgets/Label.java:41-46 | null becomes the empty text |
| Labels.NewLabel | src/jcurses/widgets/Label.java:54-56 | the constructor goes through `setText` |
| Labels.PreferredSizeIsSplitLines | src/jcurses/widgets/Label.java:63-72 | the longest `split` line wide and as many rows as `split` gives |
| Labels.OneLineLabel | src/jcurses/widgets/Label.java:63-72 | a one-line label is its length wide and one high |
| Messages.Width | src/jcurses/util/Message.java:54-76 | at most screen width - 3, and otherwise the tight bound over the tokens and the title |
| Messages.Height | src/jcurses/util/Message.java:78-91 | the number of non-empty tokens, 0 for null |
| Messages.MessageLayout | src/jcurses/util/Message.java:36-52 | a (width+4) x (height+7) window split into a label cell above a 5-row button cell |
| Messages.LabelFitsCellWidth | src/jcurses/util/Message.java:36-76 | when nothing is capped, the label fits its cell's width |
| Messages.LabelCanOverflowCellHeight | src/jcurses/util/Message.java:36-91 | blank lines make the label taller than its cell |
| Messages.Dismiss | src/jcurses/util/Message.java:96-99 | the button action closes the message window |
| FileFilters.NewFileFilter | src/jcurses/widgets/DefaultFileFilterFactory.java:38-42 | stores the trimmed pattern, null stays null |
| FileFilters.BaseName | src/jcurses/widgets/DefaultFileFilterFactory.java:50-76 | the part after the last separator, a suffix of the path |
| FileFilters.AcceptAsWritten | src/jcurses/widgets/DefaultFileFilterFactory.java:50-76 | a null pattern or path accepts |
| FileFilters.GlobMatchIff | src/jcurses/widgets/DefaultFileFilterFactory.java:50-76 | a name matches pre*post iff it is long enough and starts with pre and ends with post |
| FileFilters.Accept | src/jcurses/widgets/DefaultFileFilterFactory.java:50-76 | corrected: accepts iff the pattern or path is null or the name matches the glob |
| FileFilters.NameAccepted | src/jcurses/widgets/DefaultFileFilterFactory.java:50-76 | corrected name test: accepts iff the name matches the glob |
| FileFilters.AcceptAgreesAsWritten | src/jcurses/widgets/DefaultFileFilterFactory.java:50-76 | the Java filter and the corrected one agree except for an interior star with a short name |
| FileFilters.NameTestsAgree | src/jcurses/widgets/DefaultFileFilterFactory.java:50-76 | on a file name, the Java and corrected tests agree except for an interior star with a short name |
| FileFilters.AcceptAsWrittenOverlap | src/jcurses/widgets/DefaultFileFilterFactory.java:73-74 | "ab*ba" accepts "aba" as written, and the corrected filter refuses it |
| FileFilters.OverlapName | src/jcurses/widgets/DefaultFileFilterFactory.java:73-74 | the name "aba" passes the Java test for "ab*ba" and fails the corrected one |

## Left out

- Native I/O: curses output, `wgetch`, the native key-code table and the library loader are not modelled. Drawing is a trace of `DrawOp` values, and input is a sequence of native codes.
- Concurrency: the input thread, the blocking loop and `synchronized` sections are not modelled. There is one clip stack and one input step at a time.
- Floating point: the scrollbar ratios of `List` and all of `TextArea` are left out.
- Byte encoding of strings for the terminal is left out.
- `Paging` is not part of this model. Page start, end and number are functions of a `Paging` parameter.
- `PopUpMenu` is not part of this model. The row it returns is the `menuChoice` parameter.
- `TextComponent` is not part of this model. Its answer to a key is the `baseConsumes` parameter.
- `DefaultLayoutManager` and `LayoutManager` are not part of this model. Binding is an event, and layout is the order of `Pack`.
- `Dialog`, `OkDialog`, `YesNoDialog` and `ProgressDialog` are not part of this model. `Message` is modelled as its sizing and its close action.
- `InputChar` is not part of this model. Keys are the `Keys.Key` datatype.
- Listener managers: the decisions of listeners are parameters (`consumes`, `listenerCloses`), and events are traces.
- Screen width and height are parameters.
- `File.getAbsolutePath` is the input string, and `File.separator` is a character parameter.
- Windows.NewWindow: the root panel's preferred size, which the constructor sets to the inset size, is not stored; only its position and its empty 0x0 rectangle are, and `pack` (`configureRootPanel`) is what lays it over the window.
- `Panel`/`BorderPanel` drawing, the `DefaultThemeImpl` colour table, titles, borders and List row glyphs are left out. The border inset of the root panel is kept.
- `CharColor.getPairNo`, `getAttribute` and `toString` depend on native colour support and are left out.
- Java `int` overflow is not modelled: integers are unbounded. The one place where the width matters is `Label.getPreferredSize`, which wraps at `Integer.MAX_VALUE`.
- JavaStrings.ToLower: ASCII letters only, where `String.toLowerCase` maps all of Unicode.
- TextUtils.CenterAll: when a later line is too long, the array form has already overwritten the earlier entries; the model returns only the exception.
- TextUtils.LeftPadAll: the same partial overwrite as the array form of `center`.
- Labels.PreferredSizeIsSplitLines: stated for texts of at most `Integer.MAX_VALUE` characters, the bound of the wrap width the Java code passes.
- ListCursor.StepKeepsCursorVisible: stated for a tracked row at 0 or above. Every edit of the model keeps that, but the Java field is a plain `int`.
- ListCursor.FindNextAgreesOnPlainList: stated only for positions inside their clamped page. A stranded cursor is outside it, and there the Java search tracks the position while the corrected one does not (`ListCursor.StrandedCursorStepsUp`).
- Toolkit.HLineClipped, Toolkit.VLineClipped: the exact cells are stated for end points in order. Reversed end points reach the native call as they are, and what curses then draws is not modelled.
- Themes.GetColor: the window manager's theme is taken to be a base theme. `WindowManager.setTheme` accepts any theme, and an override without a base installed there would make the lookup call itself without end.
- The `onChar` hook at the end of `Window.handleInput` is only named in the returned action; its behaviour belongs to subclasses.

## Findings

| source | as written | input that shows it | evidently intended | confidence | as-written member | corrected member |
|---|---|---|---|---|---|---|
| src/jcurses/util/Rectangle.java:285-314 | the centre distances add the receiver's half-size instead of subtracting it | a 2x2 rectangle and itself: distance 8 | distance 0 from itself, symmetric | not executed | Geometry.DistanceFromSelfNotZero | Geometry.CentreDistanceIsMetricLike |
| src/jcurses/util/TextUtils.java:40-53 | a line without whitespace is cut after aLen+1 characters and the next character is skipped; the length count overshoots by one | "abcdef" at width 3 gives ["abcd", "f"]; "ab cde" throws | pieces of at most aLen characters that keep the text | not executed | TextUtils.WrapLinesAsWritten | TextUtils.WrapLinesCorrectedKeepsText |
| src/jcurses/system/Toolkit.java:739-746 | a clip of height 0 passes the `isBetween` row test for the row just above it | clip (0,5,10,0), a line on row 4 | nothing drawn under an empty clip | not executed | Toolkit.DegenerateClipLeaks | Toolkit.CornerClipped |
| src/jcurses/system/Toolkit.java:377-396 | the left cut is not subtracted from the width | fill (0,0,4,1) under clip (2,0,10,1) covers column 5 | only the cells of request and clip | not executed | Toolkit.DrawRectangleClipOverdraws | Toolkit.DrawRectangleClipped |
| src/jcurses/widgets/WindowManager.java:34-38 | `closeAll` keeps reading the stack after the last close has set it to null | any initialised manager | close every window and stop | not executed | WindowManager.CloseAllAsWrittenAlwaysThrows | WindowManager.CloseAll |
| src/jcurses/widgets/List.java:876-890 | the search probes one row past its bounds, and a menu's `isSelectable` reads that row | menu ["a", separator], start 1, step down | no row found, no exception | not executed | ListCursor.MenuProbeLeavesRange | ListCursor.FindNextStaysInRange |
| src/jcurses/widgets/DefaultFileFilterFactory.java:73-74 | the prefix and suffix tests may overlap in a short name | pattern "ab*ba", file "/tmp/aba" | the name holds prefix and suffix without overlap | not executed | FileFilters.AcceptAsWrittenOverlap | FileFilters.Accept |
