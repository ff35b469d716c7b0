# Textbox viewport and cursor addressing

A Dafny model of the core of the textbox widget `Textbox_core` (file
`src/widget_module/textbox_core.cpp`), with proofs about it.

The widget shows a glyph string in a window of fixed width. It wraps a row
at an explicit `"\n"` glyph, or after the last column (`x + 1 == width`).
It keeps three indices into the string: the first visible index
(`upper_bound_`), the last visible index (`lower_bound_`), and the cursor
index (`cursor_index_`).

- `layout.dfy` (module `Layout`) holds the two read-only queries.
  `position_from_index` becomes `PositionOf`. `index_from_position` becomes
  `IndexOf` and its walk `Scan`. Both share one step rule, `Advance`. A glyph
  is a value with its text; `IsNewline` stands for `str() == "\n"`.
- `scrolling.dfy` (module `Scrolling`) holds the forward scan of `scroll_up`
  (`FirstRowEnd`, `ScrollUpTarget`). It also holds the backward scan of
  `scroll_down` (`LastRowEnd`, `ScrollDownTarget`).
- `cursor_moves.dfy` (module `CursorMoves`) says where each of the four cursor
  moves lands. Each move is a round trip through the layout with one
  component shifted by one.
- `textbox_core.dfy` (module `Textbox`) is the class `TextboxCore`. Its fields
  are the string and the three indices. It has the loops of the two queries,
  each proved equal to its specification function. It also has the scroll and
  cursor methods, which update `upperBound` and `cursorIndex` in place.

The widget width comes from a foreign geometry query. Each operation takes it
as a parameter, because it may change between calls. The `n` counts are
accepted and ignored, as in the code.

The code's own comments promise more than it does. `cursor_up` and
`cursor_down` say they scroll "if need be" (textbox_core.cpp:42, 49), and
`set_cursor_index` says it "possibly scrolls" so the index is visible
(textbox_core.cpp:132-133). The model follows the code, and these lemmas
state the behaviour as written:
- `cursor_right` does not move off a `"\n"`. From the last column of a wrapped
  row it jumps to the end of the string (`CursorMoves.CursorRightTarget`).
- `scroll_down` never moves the window to index 0. It stops on the line break
  itself, so it does not undo `scroll_up`, unless the first row was only that
  `"\n"` (`Scrolling.ScrollDownTarget`, `Scrolling.ScrollDownStopsOnLineBreak`).
- At width 1, `scroll_down` never stops on a forced wrap, because
  `upper_bound_ - i == 0` never holds; only a `"\n"` stops it
  (`Scrolling.ScrollDownWidthOne`). So `Scrolling.ScrollDownBounded` needs
  width >= 2.
- `set_cursor_index` does not clamp and does not scroll: its two branches
  are only comments.
- No operation keeps the cursor between the two window bounds.
- `lower_bound_` is never assigned, so `scroll_up` pulls the cursor back to
  whatever that field holds. That can leave the cursor before the window. A
  cursor there is placed at (0,0), like the first visible index.

## Model

| member | source | states |
|---|---|---|
| `Layout.Advance` | src/widget_module/textbox_core.cpp:121-127 | The shared step rule moves strictly forward in reading order. It goes down at most one row. It keeps the column below the width. |
| `Layout.PositionOf` | src/widget_module/textbox_core.cpp:118-130 | An index at or before the first visible index is at (0,0). Each glyph moves the position by at most one cell. For width >= 1 the column is below the width. |
| `Layout.Scan` | src/widget_module/textbox_core.cpp:91-109 | The walk never returns more than the string length. It never returns an index before where it started. |
| `Layout.IndexOf` | src/widget_module/textbox_core.cpp:89-110 | The result is at most the string length. It is at least the first visible index. |
| `Layout.PositionStrictlyMonotonic` | src/widget_module/textbox_core.cpp:120-127 | A later index of the window is placed strictly later in (row, column) order. |
| `Layout.RowMonotonic` | src/widget_module/textbox_core.cpp:120-127 | A later index is on the same row or a later one. |
| `Layout.NewlineEndsRow` | src/widget_module/textbox_core.cpp:121-124 | Every index after a `"\n"` is on a later row than the `"\n"`. |
| `Layout.IndexOfIsFirstHit` | src/widget_module/textbox_core.cpp:91-109 | `index_from_position` returns the first window index that is either at the exact coordinate or the `"\n"` of the requested row. With no such index it returns the string length. |
| `Layout.RoundTrip` | src/widget_module/textbox_core.cpp:89-130 | For every index from the first visible index up to the length, `IndexOf(PositionOf(i)) == i`. |
| `Layout.UnreachedRowGivesLength` | src/widget_module/textbox_core.cpp:91-109 | If no window index is on the requested row, the result is the string length. |
| `Layout.EndOfLineClamp` | src/widget_module/textbox_core.cpp:96-99 | Asking for a column at or past a row's `"\n"` returns the index of that `"\n"`. |
| `Layout.IndexOfLandsOnRow` | src/widget_module/textbox_core.cpp:92-99 | A result inside the string is on the requested row. Its column is the requested one, or smaller and on that row's `"\n"`. |
| `Layout.ColumnsOfRow` | src/widget_module/textbox_core.cpp:120-127 | The columns of a row are consecutive. Every smaller column of the same row is taken by an earlier index, and no `"\n"` comes between them. |
| `Layout.RowAboveEnds` | src/widget_module/textbox_core.cpp:121-124 | Every row after the first follows an index on the row above. That index is a `"\n"` or sits in the last column. |
| `Scrolling.FirstRowEnd` | src/widget_module/textbox_core.cpp:13-19 | The forward scan finds the first index that meets the loop condition `EndsFirstRow` (a `"\n"`, or offset `width - 1` from the first visible index), or reports that there is none. |
| `Scrolling.ScrollUpAdvance` | src/widget_module/textbox_core.cpp:12-19 | For width >= 1, `scroll_up` moves the first visible index forward by 1 to `width` glyphs. It stays put exactly when the scan finds no stop. |
| `Scrolling.ScrollUpIsOneRow` | src/widget_module/textbox_core.cpp:13-19 | When `scroll_up` moves, the skipped indices are row 0 and the new first index is at (0,1). When it does not move, the rest of the string is on row 0. |
| `Scrolling.LastRowEnd` | src/widget_module/textbox_core.cpp:30-36 | The backward scan finds the first of `i, i-1, ..., 1` that meets the loop condition `EndsRowAbove` (a `"\n"`, or `width - 1` before the first visible index). It never examines index 0. |
| `Scrolling.ScrollDownTarget` | src/widget_module/textbox_core.cpp:26-36 | `scroll_down` is a no-op at 0. Otherwise the first visible index stays put or drops strictly between 0 and its old value, onto the nearest stop. |
| `Scrolling.ScrollDownBounded` | src/widget_module/textbox_core.cpp:30-36 | For width >= 2, with enough glyphs before the window, `scroll_down` steps back at least 1 and at most `width - 1` glyphs. |
| `Scrolling.ScrollUpTarget` | src/widget_module/textbox_core.cpp:13-19 | `scroll_up` stores one past the first index meeting `EndsFirstRow`, within the string. It leaves the first visible index unchanged exactly when no index meets it. |
| `Scrolling.ScrollDownWidthOne` | src/widget_module/textbox_core.cpp:30-36 | At width 1 only a `"\n"` stops `scroll_down`. With no `"\n"` after index 0 and before the window, it does not move. |
| `Scrolling.ScrollDownStopsOnLineBreak` | src/widget_module/textbox_core.cpp:12-40 | When `scroll_up` passed a `"\n"` at a non-zero index, `scroll_down` from the new window lands on that `"\n"`, one glyph before the new first index. That is back where `scroll_up` started exactly when the first row was only the `"\n"`. |
| `CursorMoves.CursorLeftTarget` | src/widget_module/textbox_core.cpp:57-63 | From a non-zero column, moving left lands on the previous index. |
| `CursorMoves.CursorRightTarget` | src/widget_module/textbox_core.cpp:66-72 | Moving right stays on a `"\n"`. Otherwise it lands on the next index, or on the string end from the last column. |
| `CursorMoves.CursorDownTarget` | src/widget_module/textbox_core.cpp:50-54 | Moving down goes strictly forward. Inside the string it lands on the next row, at the same column or on a shorter row's `"\n"`. |
| `CursorMoves.CursorUpTarget` | src/widget_module/textbox_core.cpp:43-47 | From a row below the first, moving up lands strictly before the cursor and inside the window. It is on the row above, at the same column or on a shorter row's `"\n"`. |
| `Textbox.TextboxCore.constructor` | src/widget_module/textbox_core.cpp:10 | A new textbox holds the string, with all three indices at 0. |
| `Textbox.TextboxCore.PositionFromIndex` | src/widget_module/textbox_core.cpp:118-130 | The loop computes `PositionOf` of the index, from the first visible index. |
| `Textbox.TextboxCore.IndexFromXY` | src/widget_module/textbox_core.cpp:89-110 | The loop, with its two early returns, computes `IndexOf` of the column and row. |
| `Textbox.TextboxCore.IndexFromPosition` | src/widget_module/textbox_core.cpp:112-114 | The coordinate overload gives the same index as the column-and-row one. |
| `Textbox.TextboxCore.SetCursorIndex` | src/widget_module/textbox_core.cpp:134-140 | Stores exactly the given index. Nothing else changes. |
| `Textbox.TextboxCore.ScrollUp` | src/widget_module/textbox_core.cpp:12-24 | The first visible index becomes `ScrollUpTarget`, an advance of at most `width`. Afterwards the cursor is the smaller of its old value and `lowerBound`. |
| `Textbox.TextboxCore.ScrollDown` | src/widget_module/textbox_core.cpp:26-40 | The first visible index becomes `ScrollDownTarget` and never grows. Afterwards the cursor is the larger of its old value and the new first index. |
| `Textbox.TextboxCore.CursorUp` | src/widget_module/textbox_core.cpp:43-47 | The cursor becomes `IndexOf` of its coordinate one row up. That is strictly before it, on the row above, in the window. Only the cursor changes. |
| `Textbox.TextboxCore.CursorDown` | src/widget_module/textbox_core.cpp:50-54 | The cursor becomes `IndexOf` of its coordinate one row down. It moves strictly forward unless at the end, also from before the window, and inside the string lands on the next row. Only the cursor changes. |
| `Textbox.TextboxCore.CursorLeft` | src/widget_module/textbox_core.cpp:57-63 | At index 0 nothing changes. Otherwise the cursor becomes `IndexOf` of its coordinate one column left, which is the previous index. |
| `Textbox.TextboxCore.CursorRight` | src/widget_module/textbox_core.cpp:66-72 | At the end nothing changes. Otherwise the cursor becomes `IndexOf` of its coordinate one column right. Inside the window that gives the outcomes of `CursorRightTarget`. From before the window it moves as if from the first visible index at column 0. |

## Left out

- Painting is not modelled. That covers `paint_event` and the `Painter` calls at the end of `set_cursor_index` (the `position_from_index` there only places the caret). These are rendering side effects. `paint_event` also builds its visible substring with an end iterator offset by `lower_bound_`, which has no meaningful value to model.
- The widget width is a parameter of each operation, not a call into the widget's geometry.
- The `contents_.at()` range exception is not modelled. `TextboxCore.Valid()` keeps the first visible index and the cursor within the string or at its end, so no walk reads past the end. `lowerBound` needs no bound: `scroll_up` moves the cursor to it only when it is below the cursor.
- `Layout.PositionOf`: requires the index to be within the string or not past the first visible index. Otherwise the loop would read a missing glyph and throw.
- `Textbox.TextboxCore.SetCursorIndex`: requires an index within the string or at its end. Otherwise the caret computation after it would throw.
- `Textbox.TextboxCore.ScrollUp` and `Textbox.TextboxCore.ScrollDown`: require width >= 1, because `width() - 1` wraps around at width 0.
- `Textbox.TextboxCore.CursorUp`: requires the cursor's row to be above 0. The coordinate field types are not part of this model, so the effect of decrementing row 0 is unknown.
- `Textbox.TextboxCore.CursorLeft`: requires a non-zero column when the cursor is not at index 0, for the same reason.
- `Textbox.TextboxCore.CursorDown`, `Textbox.TextboxCore.CursorRight`: coordinates are unbounded naturals, so an increment at the maximum value of the field type is not modelled.
- The scroll-until-visible branches of `set_cursor_index` are only comments in the code. The model does not scroll there either.
- `lowerBound` is an ordinary field that the code never assigns. The owning widget is expected to maintain it.
- `include/cppurses/system/events/enable_event.hpp` is not part of this model. It is a bare event-class declaration with no logic.
