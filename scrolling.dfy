/**
  Where the two scroll operations of the textbox move the first visible
  index. `scroll_up` scans forward from the first visible index for the end
  of the first display row; `scroll_down` scans backward from the index just
  before it, stopping short of index 0.
 */
module Scrolling {
  import opened Layout

  datatype Option<T> = None | Some(value: T)

  /** `scroll_up` stops at `i`: a line break, or the last column of the first
      row (offset `width - 1` from the first visible index). */
  predicate EndsFirstRow(glyphs: seq<Glyph>, start: nat, width: nat, i: nat)
    requires i < |glyphs|
  {
    i - start == width - 1 || IsNewline(glyphs[i])
  }

  /** The first index from `i` on at which `scroll_up` stops, if any. */
  function FirstRowEnd(glyphs: seq<Glyph>, start: nat, width: nat, i: nat): (r: Option<nat>)
    ensures r.Some? ==>
      && i <= r.value < |glyphs|
      && EndsFirstRow(glyphs, start, width, r.value)
      && forall k :: i <= k < r.value ==> !EndsFirstRow(glyphs, start, width, k)
    ensures r.None? ==> forall k :: i <= k < |glyphs| ==> !EndsFirstRow(glyphs, start, width, k)
    decreases |glyphs| - i
  {
    if i >= |glyphs| then None
    else if EndsFirstRow(glyphs, start, width, i) then Some(i)
    else FirstRowEnd(glyphs, start, width, i + 1)
  }

  /** The first visible index after `scroll_up`: one past the first index at
      which the scan stops, or unchanged exactly when it stops nowhere. */
  function ScrollUpTarget(glyphs: seq<Glyph>, start: nat, width: nat): (r: nat)
    ensures r == start <==> forall k :: start <= k < |glyphs| ==> !EndsFirstRow(glyphs, start, width, k)
    ensures r != start ==>
      && start < r <= |glyphs|
      && EndsFirstRow(glyphs, start, width, r - 1)
      && forall k :: start <= k < r - 1 ==> !EndsFirstRow(glyphs, start, width, k)
  {
    match FirstRowEnd(glyphs, start, width, start)
    case Some(b) => b + 1
    case None => start
  }

  /** `scroll_down` stops at `i` (with the first visible index `upper`): a line
      break, or the index `width - 1` before `upper`. */
  predicate EndsRowAbove(glyphs: seq<Glyph>, upper: nat, width: nat, i: nat)
    requires i < |glyphs|
  {
    IsNewline(glyphs[i]) || upper - i == width - 1
  }

  /** The first index of `i`, `i - 1`, ..., 1 at which `scroll_down` stops, if
      any; index 0 is never examined. */
  function LastRowEnd(glyphs: seq<Glyph>, upper: nat, width: nat, i: nat): (r: Option<nat>)
    requires i < |glyphs|
    ensures r.Some? ==>
      && 0 < r.value <= i
      && EndsRowAbove(glyphs, upper, width, r.value)
      && forall k :: r.value < k <= i ==> !EndsRowAbove(glyphs, upper, width, k)
    ensures r.None? ==> forall k :: 0 < k <= i ==> !EndsRowAbove(glyphs, upper, width, k)
    decreases i
  {
    if i == 0 then None
    else if EndsRowAbove(glyphs, upper, width, i) then Some(i)
    else LastRowEnd(glyphs, upper, width, i - 1)
  }

  /** The first visible index after `scroll_down`: unchanged at 0, else the
      stopping index of the backward scan, or unchanged when there is none.
      So it stays put or moves back to an index strictly between 0 and where
      it was; when it moves, the new index stops the scan and no index between
      it and the old one does. */
  function ScrollDownTarget(glyphs: seq<Glyph>, upper: nat, width: nat): (r: nat)
    requires upper <= |glyphs|
    ensures upper == 0 ==> r == 0
    ensures r == upper || 0 < r < upper
    ensures r < upper ==>
      && EndsRowAbove(glyphs, upper, width, r)
      && forall k :: r < k < upper ==> !EndsRowAbove(glyphs, upper, width, k)
    ensures 0 < upper && r == upper ==>
      forall k :: 0 < k < upper ==> !EndsRowAbove(glyphs, upper, width, k)
  {
    if upper == 0 then 0
    else match LastRowEnd(glyphs, upper, width, upper - 1)
      case Some(b) => b
      case None => upper
  }

  /** `scroll_up` advances the first visible index by 1 to `width` glyphs, or
      leaves it where it is exactly when the scan finds no row end. */
  lemma ScrollUpAdvance(glyphs: seq<Glyph>, start: nat, width: nat)
    requires width >= 1 && start <= |glyphs|
    ensures var r := ScrollUpTarget(glyphs, start, width);
      && (r == start || start < r <= start + width)
      && (r <= |glyphs|)
      && (r == start <==> forall k :: start <= k < |glyphs| ==> !EndsFirstRow(glyphs, start, width, k))
  {
    if start + width - 1 < |glyphs| {
      assert EndsFirstRow(glyphs, start, width, start + width - 1);
    }
  }

  /** The indices of the first row, from `start` up to a row end `b`, sit at
      columns 0, 1, ... of row 0. */
  lemma {:induction false} FirstRowColumns(glyphs: seq<Glyph>, start: nat, width: nat, b: nat, j: nat)
    requires start <= j <= b < |glyphs|
    requires forall k :: start <= k < b ==> !EndsFirstRow(glyphs, start, width, k)
    ensures PositionOf(glyphs, start, j, width) == Coordinate(j - start, 0)
    decreases j
  {
    if j > start {
      FirstRowColumns(glyphs, start, width, b, j - 1);
      assert !EndsFirstRow(glyphs, start, width, j - 1);
    }
  }

  /** `scroll_up` moves exactly one display row: when it moves, every index it
      skips is on row 0 of the old window and the new first visible index is
      the start of row 1; when it does not move, the rest of the string fits on
      row 0. */
  lemma ScrollUpIsOneRow(glyphs: seq<Glyph>, start: nat, width: nat)
    requires start <= |glyphs|
    ensures var r := ScrollUpTarget(glyphs, start, width);
      && (r != start ==>
            && PositionOf(glyphs, start, r, width) == Coordinate(0, 1)
            && forall j :: start <= j < r ==> PositionOf(glyphs, start, j, width).y == 0)
      && (r == start ==>
            forall j :: start <= j <= |glyphs| ==> PositionOf(glyphs, start, j, width).y == 0)
  {
    var r := ScrollUpTarget(glyphs, start, width);
    match FirstRowEnd(glyphs, start, width, start)
    case Some(b) =>
      forall j | start <= j < r
        ensures PositionOf(glyphs, start, j, width).y == 0
      {
        FirstRowColumns(glyphs, start, width, b, j);
      }
      FirstRowColumns(glyphs, start, width, b, b);
      PositionOfNext(glyphs, start, b, width);
    case None =>
      if start < |glyphs| {
        forall j | start <= j <= |glyphs|
          ensures PositionOf(glyphs, start, j, width).y == 0
        {
          if j < |glyphs| {
            FirstRowColumns(glyphs, start, width, |glyphs| - 1, j);
          } else {
            FirstRowColumns(glyphs, start, width, |glyphs| - 1, |glyphs| - 1);
            assert !EndsFirstRow(glyphs, start, width, |glyphs| - 1);
            PositionOfNext(glyphs, start, |glyphs| - 1, width);
          }
        }
      }
  }

  /** `scroll_down` steps back at most `width - 1` glyphs when that many are
      before the first visible index (beyond index 0). */
  lemma ScrollDownBounded(glyphs: seq<Glyph>, upper: nat, width: nat)
    requires upper <= |glyphs| && width >= 2 && upper >= width
    ensures upper - (width - 1) <= ScrollDownTarget(glyphs, upper, width) < upper
  {
    assert EndsRowAbove(glyphs, upper, width, upper - (width - 1));
  }

  /** At width 1 the width condition of `scroll_down` never holds (it asks
      for an index `0` before the first visible one), so only line breaks stop
      the scan. */
  lemma ScrollDownWidthOne(glyphs: seq<Glyph>, upper: nat)
    requires upper <= |glyphs|
    ensures var r := ScrollDownTarget(glyphs, upper, 1);
      && (r < upper ==> IsNewline(glyphs[r]))
      && ((forall k :: 0 < k < upper ==> !IsNewline(glyphs[k])) ==> r == upper)
  {
  }

  /** `scroll_down` does not undo `scroll_up` in general: when `scroll_up`
      moved past a line break at `b > 0`, `scroll_down` from there stops on
      that line break itself, which is where `scroll_up` started exactly when
      the first row was only that line break. */
  lemma ScrollDownStopsOnLineBreak(glyphs: seq<Glyph>, start: nat, width: nat)
    requires start <= |glyphs|
    requires FirstRowEnd(glyphs, start, width, start).Some?
    requires var b := FirstRowEnd(glyphs, start, width, start).value;
      b > 0 && IsNewline(glyphs[b])
    ensures ScrollDownTarget(glyphs, ScrollUpTarget(glyphs, start, width), width)
         == ScrollUpTarget(glyphs, start, width) - 1
    ensures ScrollDownTarget(glyphs, ScrollUpTarget(glyphs, start, width), width) == start
        <==> FirstRowEnd(glyphs, start, width, start).value == start
  {
  }
}
