# TexUI character-grid engine in Dafny

TexUI draws text-mode user interfaces into a `Display`: a grid of
`height` rows of `width` one-character cells. Every operation either
checks its arguments and raises, or changes cells of the grid in place.
The operations covered are these:

- the bounds test `is_valid_position`;
- the size check of the constructor, `clear`, `in`, `get_char` and `draw_char`;
- `draw_line`, which is Bresenham's algorithm with a cycled pattern;
- `draw_box`, with its style table;
- `draw_str`, with its whole text pipeline: cleaning, indent, width cut or
  word wrap, screen-edge wrap, line limit, direction, ellipsis, the result
  box and the placement loop;
- `export_display` and `merge_display`;
- the breadth-first `fill`;
- the value types `Position` and `Character`;
- the list helpers `flatten_list` and `chunk_split`.

The model has one module per concern:

| module | file | what it holds |
|---|---|---|
| `Errors` | errors.dfy | The failures the source raises. A `ValueError` and an `IndexError` are kept apart, because `merge_display` swallows only the first. |
| `DatatypeExtend` | datatype_extend.dfy | `Position`, with its component-wise arithmetic, floor division and component-wise partial order. The one-character check of `Character`. |
| `HelperFunction` | helper_function.dfy | Nested lists with `flatten_list`, and `chunk_split`. |
| `Grid` | grid.dfy | The grid as a value, the bounds predicate and single-cell writes. |
| `Bresenham` | bresenham.dfy | The pen of `draw_line`, the cells it visits, and what painting them does. |
| `TextLayout` | text_layout.dfy | `draw_str` up to the drawing: validation, cleaning, widths, line limit, direction, ellipsis and the result box. |
| `Placement` | placement.dfy | The placement loop of `draw_str` as a specification, and `draw_str` as a whole (`DrawStrSpec`). |
| `Drawing` | drawing.dfy | Specifications of `draw_char`, `draw_line`, `draw_box`, `export_display`, `merge_display` and `fill`, with their properties. |
| `TexUI` | display.dfy | The class `Display`. Its `content` field is reassigned by each method, as the source assigns into `self.content`. Every method is proved equal to its specification function. |

Python's exceptions become `Result` / `Outcome` values. A failure in the
middle of drawing keeps the writes made before it, as the source does.

Several behaviours of the source are kept exactly as written:

- The restrict test of `draw_str` reads the anchor cell and not the target
  cell. As a result, an anchor left of or above the display fails at the
  first unmasked character.
- The right-anchored column of `draw_str` is never tested against the right
  edge, so it can fail with an `IndexError` after some writes.
- The returned `text` of `draw_str` shares the drawn list only until that
  list is rebound. So the max-line ellipsis shows in it only on that path.
- `fill` changes nothing when the fill character is the seed's character or
  one of `ignore`.

## Model

| member | source | states |
|---|---|---|
| DatatypeExtend.FloorDiv | TexUI_module/datatype_extend.py:35 | `//` floors: for a positive divisor `b*q <= a < b*q + b`, for a negative one `b*q + b < a <= b*q` |
| DatatypeExtend.Position.Div | TexUI_module/datatype_extend.py:33-38 | division fails exactly for the scalar 0 (with the divide-by-zero error) and otherwise floors each component |
| DatatypeExtend.AddSubRoundTrip | TexUI_module/datatype_extend.py:18-26 | adding then subtracting the same position (either order) gives the position back |
| DatatypeExtend.MulScalesBoth | TexUI_module/datatype_extend.py:28-31 | multiplying scales both components by the scalar; 1 is neutral and 0 gives the origin |
| DatatypeExtend.DivFloorsNegative | TexUI_module/datatype_extend.py:33-38 | (-7, 7) / 2 is (-4, 3) and (7, -7) / -2 is (-4, 3): flooring, not Euclidean or truncating division |
| DatatypeExtend.EqualsIffSameComponents | TexUI_module/datatype_extend.py:40-43 | two positions are `==` exactly when both components agree |
| DatatypeExtend.OrderNotTotal | TexUI_module/datatype_extend.py:46-68 | (0, 1) and (1, 0) are neither <, >, ==, <= nor >= each other |
| DatatypeExtend.OrderRelations | TexUI_module/datatype_extend.py:46-68 | < implies <=; p > q iff q < p; p >= q iff q <= p; <= both ways iff equal; < is irreflexive |
| DatatypeExtend.CharacterOf | TexUI_module/datatype_extend.py:82-87 | a `Character` is accepted exactly when the string has length one, and it holds that character; otherwise the invalid-character error |
| HelperFunction.FlattenFlat | TexUI_module/helper_function.py:24-32 | a flat list of items is its own flattening |
| HelperFunction.FlattenIdempotent | TexUI_module/helper_function.py:24-32 | flattening a flattened list changes nothing |
| HelperFunction.FlattenNest2 | TexUI_module/helper_function.py:28-32 | flattening a list of flat lists concatenates them in order |
| HelperFunction.FlatCheckIff | TexUI.py:416-427 | a list equals its own flattening exactly when no item of it is a list (the nested-text test of `draw_str`) |
| HelperFunction.ChunkSplit | TexUI_module/helper_function.py:35-36 | `chunk_split` fails exactly for group 0 (`range` step 0); a negative group gives no chunks; a positive one gives `Chunks` |
| HelperFunction.ChunksConcat | TexUI_module/helper_function.py:35-36 | for a positive group the chunks concatenate back to the text |
| HelperFunction.ChunksSizes | TexUI_module/helper_function.py:35-36 | every chunk but the last has exactly `group` characters; the last has 1 to `group` |
| HelperFunction.ChunksCount | TexUI_module/helper_function.py:35-36 | there are ceil(len / group) chunks, and none for the empty text |
| HelperFunction.ChunkAt | TexUI_module/helper_function.py:36 | chunk i is the slice `text[i*group : i*group + group]`, clipped at the end, as the comprehension builds it |
| Grid.Blank | TexUI.py:110 | the grid built by the constructor and `clear`: `height` rows of `width` cells, all the fill character |
| Grid.SetCell | TexUI.py:229 | an assignment `content[y][x] = c` changes that cell to `c` and no other cell, and keeps the shape |
| Bresenham.StartOnTrack | TexUI.py:271-275 | the initial `err = dx - dy` at (x1, y1) satisfies the stepping invariant |
| Bresenham.AdvanceOnTrack | TexUI.py:293-299 | one step before the end point keeps the stepping invariant and strictly reduces the moves left (so the loop terminates) |
| Bresenham.PaintTraceStep | TexUI.py:278-301 | one pass of the loop: paint the pen's cell, then stop at the end or off the display, or advance and paint the rest |
| Bresenham.TraceInBox | TexUI.py:271-301 | every visited cell lies in the rectangle spanned by the two end points |
| Bresenham.TraceConnected | TexUI.py:293-299 | consecutive visited cells are 8-neighbours |
| Bresenham.TraceEnd | TexUI.py:290-291 | the walk ends at (x2, y2) or at the first cell right of or below the display, and every earlier cell has x < width and y < height |
| Bresenham.TraceDistinct | TexUI.py:271-301 | no cell is visited twice |
| Bresenham.PaintLineCells | TexUI.py:277-285 | without a restrict string, the k-th visited cell on the display holds `pattern[(c + k) % len(pattern)]`, and unvisited cells keep their value |
| Bresenham.PaintLineFrame | TexUI.py:278-285 | a cell the walk does not visit is never changed, whatever the restrict string |
| Bresenham.HorizontalLine | TexUI.py:271-301 | a horizontal line on the display with a one-character pattern sets exactly the cells from x1 to x2 of its row |
| Bresenham.VerticalLine | TexUI.py:271-301 | a vertical line on the display with a one-character pattern sets exactly the cells from y1 to y2 of its column |
| TextLayout.DirectionOf | TexUI.py:470-516 | a non-empty `foward` without `action` is refused, and only such a one; otherwise action is true unless given as false, preserve is false unless given as true, and anchour is left unless given as right |
| TextLayout.CheckEllipsis | TexUI.py:520-563 | an ellipsis passes exactly when it is absent, or its symbol is one printable character and its count is positive |
| TextLayout.SplitJoin | TexUI.py:605 | joining the parts of `split("\n")` with newlines gives the string back |
| TextLayout.JoinSplit | TexUI.py:605 | splitting the newline-join of newline-free lines gives the lines back |
| TextLayout.PrintablesChar | TexUI.py:606 | the cleaning of one character keeps it exactly when it is printable |
| TextLayout.PrintablesAppend | TexUI.py:606 | the cleaning of `a + b` is the cleaning of `a` followed by that of `b`, so the kept characters keep their order |
| TextLayout.CleanLinesOne | TexUI.py:605-606 | one string gives one cleaned line per part of `split("\n")`, in order, each the cleaning of its part |
| TextLayout.CleanLinesAppend | TexUI.py:605-606 | the cleaned lines of `a + b` are those of `a` followed by those of `b` |
| TextLayout.CleanKeepsPrintable | TexUI.py:605-606 | a list of printable lines (so free of newlines) comes out of the cleaning unchanged |
| TextLayout.Indent | TexUI.py:609-617 | anchored left, a non-empty line becomes `indent` spaces followed by the line itself; an empty line, or any line anchored right, is unchanged |
| TextLayout.IndentCountsAgainstWidth | TexUI.py:609-621 | the indent counts against `max_width`: a cut indented line keeps the spaces and then the line's characters, in order, within the width; an indent at least as wide as the limit fills the first piece with spaces |
| TextLayout.WrapLineProperties | TexUI.py:361-371 | one line: textwrap refuses a width <= 0, `chunk_split` a width of 0; a positive width bounds every piece; a cut keeps the characters; an empty result becomes `[""]` |
| TextLayout.WrapAllProperties | TexUI.py:361-371 | the same for every line, with the first failure propagated and one result per line |
| TextLayout.ApplyMaxWidthProperties | TexUI.py:361-374 | `apply_max_width` fails exactly when there is a line and the width is refused; no line is lost; a positive width bounds every line; a cut keeps the text in order; a negative cut width empties every line |
| TextLayout.ReverseKeepsCharacters | TexUI.py:644-646 | `line[::-1]` has the same characters, as many times each, as the line |
| TextLayout.ReverseConcat | TexUI.py:644-646 | reversing `a + b` gives the reversal of `b` followed by that of `a` |
| TextLayout.ReverseInvolution | TexUI.py:644 | reversing twice gives the line back |
| TextLayout.SliceTo | TexUI.py:634 | `s[:k]` is a prefix of length k, clipped at the length, counted from the end for a negative k |
| TextLayout.EllipsisTail | TexUI.py:376-380 | `apply_ellipsis` keeps the length; the last `count` characters (all of them if the line is shorter) become the symbol |
| TextLayout.EllipsisHead | TexUI.py:383-389 | the reversed-and-preserved variant keeps the length and turns the first `count` characters into the symbol |
| TextLayout.AdvanceEllipsis | TexUI.py:382-393 | `apply_advance_ellipsis` keeps the length of the line it marks |
| TextLayout.MarkLast | TexUI.py:382-393 | only the last line is marked; an empty list fails like `text[-1]` with an IndexError |
| TextLayout.EllipsisStageShape | TexUI.py:648-661 | the ellipsis stage never adds a line or lengthens one |
| TextLayout.MaxLen | TexUI.py:668 | the longest line's length: no line is longer and some line has it |
| TextLayout.Validate | TexUI.py:400-598 | an anchor right of or below the display is refused with the invalid-position error before any other check; a call that passes has a non-negative indent and line limit, a valid ellipsis, printable masks, and the `foward` defaults applied |
| TextLayout.ValidateAccepts | TexUI.py:400-598 | the checks pass exactly when the anchor is on the display or has a negative coordinate, the text is flat, the line limit is not negative, `foward` and `ellipsis` are valid, each mask is empty or printable, and the indent is not negative |
| TextLayout.DefaultsLayout | TexUI.py:303-685 | with the default options, flat printable text at an anchor that passes the check is laid out unchanged, forward and anchored left, in the box one cell around it |
| TextLayout.Bordered | TexUI.py:667-685 | an empty list fails like `max()`; otherwise top is y-1 and bottom y+len, left/right are x-1/x+maxLen forward or right-anchored and x-maxLen/x+1 otherwise, and the result text is the viewed text |
| TextLayout.NestedTextRejected | TexUI.py:413-427 | with the anchor on the display, text containing a nested list is refused with the invalid-text error, and only such text |
| TextLayout.FinishShape | TexUI.py:631-661 | the line limit and the ellipsis never add or lengthen lines, and at most `max_line` lines remain |
| TextLayout.WidenFitsWidth | TexUI.py:619-621 | with a positive `max_width` and the default edge policy, every line fits `max_width` |
| TextLayout.WidenFitsEdge | TexUI.py:623-629 | with "newline" or "preserve", every line fits between the anchor and the right edge |
| TextLayout.LayoutBoxEncloses | TexUI.py:667-685 | a successful layout has at least one line, one box row per line and one box column per character of the longest line, which every line fits |
| TextLayout.LayoutRespectsMaxLine | TexUI.py:632-634 | at most `max_line` lines are drawn |
| TextLayout.LayoutFitsScreenEdge | TexUI.py:623-629 | with "newline" or "preserve" and the anchor on the display, every drawn line fits before the right edge |
| TextLayout.LayoutRespectsMaxWidth | TexUI.py:619-621 | with a positive `max_width` and the default edge policy, no drawn line is longer than `max_width` |
| Placement.PlaceCharsInside | TexUI.py:692-734 | one line's loop only writes in its own row, strictly inside the result box, and never a masked character |
| Placement.PlaceLinesInside | TexUI.py:690-736 | the whole loop writes only in the rows of the lines drawn, inside the box, and never a masked character |
| Placement.RestrictBlocksLine | TexUI.py:698-700 | when the anchor's cell is not in a non-empty restrict string, a line writes nothing and does not fail |
| Placement.RestrictBlocksAll | TexUI.py:698-700 | the same for all lines: the anchor cell is never written, so the gate stays shut for the whole call |
| Placement.ForwardLeftLineNeverFails | TexUI.py:702-710 | forward, left-anchored text from an anchor on the display never fails on a line |
| Placement.ForwardLeftNeverFails | TexUI.py:702-710 | the same for all lines |
| Placement.RightAnchorOverflow | TexUI.py:712-716 | "a" above "abcd", right-anchored at x = 3 on a 5-wide display, is written past the edge and fails with an IndexError |
| Placement.ForwardLeftCopies | TexUI.py:708-710 | forward from the left with no masks, a line that fits is copied into its row verbatim |
| Placement.DrawStrCalcOnly | TexUI.py:687-688 | with `calc_only` the grid is unchanged and the result is the layout's box and text, or its error |
| Placement.DrawStrStaysInBox | TexUI.py:663-738 | every cell `draw_str` changes lies strictly inside the box it returns and holds an unmasked character; a refused call changes nothing |
| Placement.OffDisplayAnchorFailsLate | TexUI.py:400-408 | an anchor left of or above the display passes the checks, and drawing then fails with the invalid-position error at the first unmasked character, before any cell changes |
| Placement.DrawStrRestrictBlocks | TexUI.py:698-700 | a restrict string that the anchor's cell is not in leaves the display unchanged |
| Drawing.DrawCharEffect | TexUI.py:216-229 | `draw_char` passes exactly for one character, a printable restrict string and a position on the display; it changes at most cell (x, y), only when the restrict string allows it; a refused call changes nothing |
| Drawing.LineStaysInRect | TexUI.py:271-301 | a line only changes cells in the rectangle spanned by its end points |
| Drawing.PaintSingleChar | TexUI.py:283 | with a one-character pattern every cell either keeps its value or holds that character |
| Drawing.LineStartPainted | TexUI.py:279-283 | without a restrict string, a line starting on the display paints its start cell |
| Drawing.StyleMapOf | TexUI.py:779-871 | the style table: lengths 1, 2, 3, 4, 5 and 8 are accepted and map sides and corners as listed; every other length is refused |
| Drawing.BoxRejectsStyle | TexUI.py:779-787 | a style of a refused length fails before anything is drawn |
| Drawing.BoxOnBorder | TexUI.py:875-899 | `draw_box` only ever changes cells on the border of the rectangle |
| Drawing.BoxSides | TexUI.py:875-886 | on the display, without a restrict string, the four side lines pass; the right column, then the left column, then the bottom row, then the top row hold their side characters |
| Drawing.CornersWrite | TexUI.py:888-899 | corner writes at distinct cells that already hold a character of the gate put each corner character in place and change no other cell |
| Drawing.BoxDrawsStyle | TexUI.py:740-899 | a box inside the display with x1 < x2, y1 < y2, no restrict string and a printable style passes; its corners hold the corner characters, the rest of the top and bottom rows the top and bottom characters, the rest of the side columns the left and right characters, and no other cell changes |
| Drawing.ExportSpec | TexUI.py:915-946 | export fails exactly when a sorted corner is off the display; otherwise the result has (max-min+1) columns and rows and cell (i, j) is the source cell (min y + i, min x + j) |
| Drawing.MergeRowCopies | TexUI.py:1000-1007 | a printable row merged where it fits is copied verbatim, with the row's box as the result |
| Drawing.MergeRowsStep | TexUI.py:999-1010 | one row of the merge: on success the merge goes on with the next row; a ValueError ends it quietly; an IndexError propagates |
| Drawing.MergeRowsCopies | TexUI.py:999-1010 | merging the rows of a printable grid, row by row, pastes them one by one |
| Drawing.MergeCopies | TexUI.py:948-1010 | merging a printable display into one with room for it pastes it at (x, y) and passes |
| Drawing.ExportMergeRoundTrip | TexUI.py:901-1010 | exporting a region whose cells are printable and merging it back at its top-left corner leaves the display as it was |
| Drawing.MergeOwnRegion | TexUI.py:999-1010 | merging a copy of a region of the display at its own place changes nothing |
| Drawing.Directions | TexUI.py:1057-1061 | 4 neighbours are the sides; 8 add the diagonals after the sides |
| Drawing.FillCheck | TexUI.py:1033-1048 | `fill` passes its checks exactly for one character, a printable ignore string and a neighbourhood of 4 or 8 |
| Drawing.PopStep | TexUI.py:1063-1067 | taking the queue's head and writing it keeps the fill sound, the queue valid and the target count from growing |
| Drawing.EnqueueStep | TexUI.py:1070-1082 | writing a target neighbour and queueing it keeps the fill sound and removes exactly one target cell |
| Drawing.FillReaches | TexUI.py:1063-1082 | a sound, closed fill that changed the seed has changed every cell connected to the seed through target cells |
| TexUI.CheckSize | TexUI.py:95-106 | a refused size fails with the invalid-size error |
| TexUI.CheckSizeBounds | TexUI.py:95-106 | with the terminal bound a size passes exactly when 0 <= width <= columns and 0 <= height <= lines - 1; without it, exactly when neither is negative |
| TexUI.Display.Create | TexUI.py:53-110 | "full" sizes resolve to the terminal; the size is checked before the fill character; a new display is blank with the fill character |
| TexUI.Display.Clear | TexUI.py:122-136 | "screen" and "all" refill the grid with the default fill; anything else fails and changes nothing |
| TexUI.Display.Contains | TexUI.py:116-120 | `item in display` exactly when some cell equals `item` |
| TexUI.Display.GetChar | TexUI.py:179-196 | the cell is returned exactly for positions that pass `is_valid_position` (0 <= x < width, 0 <= y < height), otherwise the invalid-position error |
| TexUI.Display.DrawChar | TexUI.py:198-229 | the new grid and outcome are those of `DrawCharSpec` |
| TexUI.Display.TryPaint | TexUI.py:279-285 | one `try` block: the cell is written when on the display and allowed by the restrict string; an invalid position is passed over |
| TexUI.Display.DrawLine | TexUI.py:231-301 | the Bresenham loop leaves the grid and outcome of `LineSpec`, the painting of the visited cells in order |
| TexUI.Display.DrawStr | TexUI.py:303-738 | the new grid and result are those of `DrawStrSpec`, the layout pipeline followed by the placement loop |
| TexUI.Display.PlaceAll | TexUI.py:690-738 | the loop over the lines leaves the grid and outcome of `PlaceLines` |
| TexUI.Display.PlaceRow | TexUI.py:692-734 | the loop over one line's characters leaves the grid and outcome of `PlaceChars` |
| TexUI.Display.DrawBox | TexUI.py:740-899 | the new grid and outcome are those of `BoxSpec` |
| TexUI.Display.ExportDisplay | TexUI.py:901-946 | a fresh display holding `ExportSpec`'s grid, of the exported size; this display is unchanged |
| TexUI.Display.MergeDisplay | TexUI.py:948-1010 | the new grid and outcome are those of `MergeSpec`, including a display merged into itself |
| TexUI.Display.Fill | TexUI.py:1012-1082 | the outcome is `FillCheck`'s. A refused call, or a fill character in the target, changes nothing. Otherwise the seed holds the fill character, every changed cell held a target character, and no changed cell has a target neighbour left |
| TexUI.Display.Spread | TexUI.py:1070-1082 | after the neighbours of a popped cell, none on the grid holds a target character; the fill stays sound; queued cells are counted off the target cells |
| TexUI.Display.Visit | TexUI.py:1071-1082 | one neighbour: written and queued when on the grid and in the target, otherwise left alone |

## Left out

- Terminal output is not modelled. This covers `move_cursor`, `clear_terminal`, `flush`, the shell call of `clear("all")` and `__str__`.
- The terminal size is a parameter of `TexUI.Display.Create`. The `Display()` built by `export_display` is given this display's terminal size, because both query the same terminal.
- `textwrap.wrap` is a `Wrapper` parameter. Its only contract is that, for a positive width, no line is longer than the width. Its word-breaking rules are not modelled. `merge_display` passes no width limit, so no wrapper is ever reached there.
- `str.isprintable` is approximated by `IsPrintable`. It refuses the control characters, the non-ASCII spaces, the line and paragraph separators, common format characters and private-use code points. The full Unicode tables are not modelled.
- `Character`'s case methods (`is_upper`, `to_upper` and the rest) and `get_ascii` are Unicode character classes, and are not modelled.
- `Position.__abs__` is a floating-point norm, and is not modelled.
- `deep_typeof` and the `isinstance` and dictionary-key checks only produce error messages. Dafny's types rule these inputs out:
  - a non-integer coordinate;
  - a `foward` or `ellipsis` that is not a dictionary, or that has an unknown key;
  - a `max_width` string without the "preserve-" prefix;
  - an unknown `edge_of_screen`;
  - a non-`Display` argument to `merge_display`.
- Patterns and masks given as iterables other than strings are not modelled. Every pattern, mask and style is a string.
- TexUI.Display.DrawLine: requires a non-empty pattern. With an empty pattern the source divides by zero at the first cell it would write.
- TexUI.Display.Fill: requires the seed to lie on the display; the source never checks it, and Python's negative indices would read from the other edge.
- TexUI.Display.Fill: does not state that only cells connected to the seed change. It proves soundness (every change is a target cell now holding the fill character) and closure (no changed cell has a target neighbour). Together with `Drawing.FillReaches`, these show that every connected target cell is filled.
- TexUI.Display.Fill: the `deque` is a sequence. Popping the front is `queue[1..]` and appending is `queue + [n]`.
- TextLayout.CheckEllipsis: an `ellipsis` dictionary must hold both `symbol` and `count`. The source accepts one that lacks either key, draws normally, and raises a `KeyError` only when the ellipsis is triggered; that case is not modelled. The source also checks the keys in the dictionary's own order, so `{"count": 0, "symbol": "ab"}` fails on the count first. The model always checks the symbol first.
- TextLayout.AdvanceEllipsis: states only that the length is kept; `EllipsisTail` and `EllipsisHead` state which characters change.
- `lskd.py`, `snake.py` and `testing/` are not part of this model. They are keyboard capture through Windows calls, a demo game and timing benchmarks.
