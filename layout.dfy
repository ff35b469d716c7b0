/**
  The layout mapper of the textbox: how a linear index into the glyph string
  is placed on a fixed-width display, and how a display coordinate is turned
  back into an index. Positions are relative to the first visible index
  (`start`, the widget's upper bound). Both directions walk the glyphs with
  one shared step rule, `Advance`.
 */
module Layout {

  /** One display cell of the glyph string; only its text matters here. */
  datatype Glyph = Glyph(text: string)

  /** The glyph is the explicit line-break marker. */
  predicate IsNewline(g: Glyph) {
    g.text == "\n"
  }

  /** A column (`x`) and a row (`y`) relative to the top-left of the window. */
  datatype Coordinate = Coordinate(x: nat, y: nat)

  /** Strict reading order: an earlier row, or the same row and an earlier column. */
  predicate Precedes(a: Coordinate, b: Coordinate) {
    a.y < b.y || (a.y == b.y && a.x < b.x)
  }

  /** The shared step rule: after glyph `g` at `pos`, the next glyph sits at the
      start of the next row when `g` is a line break or `pos` is the last
      column; otherwise one column to the right. */
  function Advance(g: Glyph, pos: Coordinate, width: nat): (next: Coordinate)
    ensures Precedes(pos, next)
    ensures next.y <= pos.y + 1
    ensures width >= 1 && pos.x < width ==> next.x < width
  {
    if IsNewline(g) || pos.x + 1 == width then Coordinate(0, pos.y + 1)
    else Coordinate(pos.x + 1, pos.y)
  }

  /** Where the glyph at `index` is drawn when the window starts at `start`.
      An index at or before `start` is at the origin. An index past the end is
      only defined when it is not past `start` (the walk would read a glyph
      that does not exist). */
  function PositionOf(glyphs: seq<Glyph>, start: nat, index: nat, width: nat): (pos: Coordinate)
    requires index <= start || index <= |glyphs|
    ensures pos.x + pos.y <= if index <= start then 0 else index - start
    ensures width >= 1 ==> pos.x < width
    decreases index
  {
    if index <= start then Coordinate(0, 0)
    else Advance(glyphs[index - 1], PositionOf(glyphs, start, index - 1, width), width)
  }

  /** The walk of `index_from_position` from index `i` with the running
      coordinate `running`, looking for column `x` of row `y`. */
  function Scan(glyphs: seq<Glyph>, i: nat, running: Coordinate, x: nat, y: nat, width: nat): (r: nat)
    ensures r <= |glyphs|
    ensures i <= |glyphs| ==> i <= r
    decreases |glyphs| - i
  {
    if i >= |glyphs| then |glyphs|
    else if running == Coordinate(x, y) then i
    else if running.y == y && IsNewline(glyphs[i]) then i
    else Scan(glyphs, i + 1, Advance(glyphs[i], running, width), x, y, width)
  }

  /** The index shown at column `x` of row `y` when the window starts at `start`. */
  function IndexOf(glyphs: seq<Glyph>, start: nat, x: nat, y: nat, width: nat): (r: nat)
    ensures r <= |glyphs|
    ensures start <= |glyphs| ==> start <= r
  {
    Scan(glyphs, start, Coordinate(0, 0), x, y, width)
  }

  /** The index `j` stops the walk for (`x`, `y`): it is drawn exactly there, or
      it is the line break that ends row `y`. */
  predicate Hit(glyphs: seq<Glyph>, start: nat, j: nat, x: nat, y: nat, width: nat)
    requires start <= j < |glyphs|
  {
    var p := PositionOf(glyphs, start, j, width);
    p == Coordinate(x, y) || (p.y == y && IsNewline(glyphs[j]))
  }

  /** One glyph further on is one step of the rule further on. */
  lemma PositionOfNext(glyphs: seq<Glyph>, start: nat, i: nat, width: nat)
    requires start <= i < |glyphs|
    ensures PositionOf(glyphs, start, i + 1, width)
         == Advance(glyphs[i], PositionOf(glyphs, start, i, width), width)
  {
  }

  /** Layout is strictly monotonic: a later index is drawn strictly later in
      reading order. */
  lemma {:induction false} PositionStrictlyMonotonic(glyphs: seq<Glyph>, start: nat, i: nat, j: nat, width: nat)
    requires start <= i < j <= |glyphs|
    ensures Precedes(PositionOf(glyphs, start, i, width), PositionOf(glyphs, start, j, width))
    decreases j
  {
    if j > i + 1 {
      PositionStrictlyMonotonic(glyphs, start, i, j - 1, width);
    }
  }

  /** Rows never go back: a later index is on the same or a later row. */
  lemma RowMonotonic(glyphs: seq<Glyph>, start: nat, i: nat, j: nat, width: nat)
    requires start <= i <= j <= |glyphs|
    ensures PositionOf(glyphs, start, i, width).y <= PositionOf(glyphs, start, j, width).y
  {
    if i < j {
      PositionStrictlyMonotonic(glyphs, start, i, j, width);
    }
  }

  /** A line break at `j` pushes every later index onto a later row. */
  lemma {:induction false} NewlineEndsRow(glyphs: seq<Glyph>, start: nat, j: nat, k: nat, width: nat)
    requires start <= j < k <= |glyphs|
    requires IsNewline(glyphs[j])
    ensures PositionOf(glyphs, start, j, width).y < PositionOf(glyphs, start, k, width).y
  {
    PositionOfNext(glyphs, start, j, width);
    RowMonotonic(glyphs, start, j + 1, k, width);
  }

  /** The walk of `Scan`, started where the layout puts index `i`, stops at the
      first index from `i` on that is a hit, or at the end when there is none. */
  lemma {:induction false} ScanFindsFirstHit(glyphs: seq<Glyph>, start: nat, i: nat, x: nat, y: nat, width: nat)
    requires start <= i <= |glyphs|
    ensures var r := Scan(glyphs, i, PositionOf(glyphs, start, i, width), x, y, width);
      && (r < |glyphs| ==> Hit(glyphs, start, r, x, y, width))
      && forall j :: i <= j < r ==> !Hit(glyphs, start, j, x, y, width)
    decreases |glyphs| - i
  {
    if i < |glyphs| {
      var p := PositionOf(glyphs, start, i, width);
      if p != Coordinate(x, y) && !(p.y == y && IsNewline(glyphs[i])) {
        PositionOfNext(glyphs, start, i, width);
        ScanFindsFirstHit(glyphs, start, i + 1, x, y, width);
      }
    }
  }

  /** `IndexOf` is the first index of the window that is a hit for (`x`, `y`),
      and the length of the glyph string when no index is. */
  lemma IndexOfIsFirstHit(glyphs: seq<Glyph>, start: nat, x: nat, y: nat, width: nat)
    requires start <= |glyphs|
    ensures var r := IndexOf(glyphs, start, x, y, width);
      && (r < |glyphs| ==> Hit(glyphs, start, r, x, y, width))
      && forall j :: start <= j < r ==> !Hit(glyphs, start, j, x, y, width)
  {
    ScanFindsFirstHit(glyphs, start, start, x, y, width);
  }

  /** No index before `k` is a hit for a coordinate at or after `k`'s place
      on `k`'s row. */
  lemma NoHitBefore(glyphs: seq<Glyph>, start: nat, k: nat, x: nat, y: nat, width: nat)
    requires start <= k <= |glyphs|
    requires PositionOf(glyphs, start, k, width).y == y
    requires PositionOf(glyphs, start, k, width).x <= x
    ensures forall j :: start <= j < k ==> !Hit(glyphs, start, j, x, y, width)
  {
    forall j | start <= j < k
      ensures !Hit(glyphs, start, j, x, y, width)
    {
      PositionStrictlyMonotonic(glyphs, start, j, k, width);
      if IsNewline(glyphs[j]) {
        NewlineEndsRow(glyphs, start, j, k, width);
      }
    }
  }

  /** An index `k` with no hit before it, that is a hit itself or the end of
      the string, is what `IndexOf` returns. */
  lemma IndexOfAt(glyphs: seq<Glyph>, start: nat, k: nat, x: nat, y: nat, width: nat)
    requires start <= k <= |glyphs|
    requires forall j :: start <= j < k ==> !Hit(glyphs, start, j, x, y, width)
    requires k < |glyphs| ==> Hit(glyphs, start, k, x, y, width)
    ensures IndexOf(glyphs, start, x, y, width) == k
  {
    IndexOfIsFirstHit(glyphs, start, x, y, width);
  }

  /** Round trip: mapping an index of the window to its coordinate and back
      gives the index again, the end of the string included. */
  lemma RoundTrip(glyphs: seq<Glyph>, start: nat, i: nat, width: nat)
    requires start <= i <= |glyphs|
    ensures var p := PositionOf(glyphs, start, i, width);
      IndexOf(glyphs, start, p.x, p.y, width) == i
  {
    var p := PositionOf(glyphs, start, i, width);
    NoHitBefore(glyphs, start, i, p.x, p.y, width);
    IndexOfAt(glyphs, start, i, p.x, p.y, width);
  }

  /** Fallback: when no index of the window is drawn on row `y`, the result is
      the length of the glyph string. */
  lemma UnreachedRowGivesLength(glyphs: seq<Glyph>, start: nat, x: nat, y: nat, width: nat)
    requires start <= |glyphs|
    requires forall j :: start <= j < |glyphs| ==> PositionOf(glyphs, start, j, width).y != y
    ensures IndexOf(glyphs, start, x, y, width) == |glyphs|
  {
    IndexOfIsFirstHit(glyphs, start, x, y, width);
  }

  /** An index at a non-zero column follows, on the same row and one column
      to the left, a glyph that is not a line break. */
  lemma PreviousInRow(glyphs: seq<Glyph>, start: nat, j: nat, width: nat)
    requires start <= j <= |glyphs|
    requires PositionOf(glyphs, start, j, width).x > 0
    ensures var p := PositionOf(glyphs, start, j, width);
      && start < j
      && !IsNewline(glyphs[j - 1])
      && PositionOf(glyphs, start, j - 1, width) == Coordinate(p.x - 1, p.y)
  {
  }

  /** Column walk: the columns of one row are consecutive, so every column up to
      that of index `j` is taken by an index of the same row at or before `j`. */
  lemma {:induction false} ColumnsOfRow(glyphs: seq<Glyph>, start: nat, j: nat, c: nat, width: nat)
    requires start <= j <= |glyphs|
    requires c <= PositionOf(glyphs, start, j, width).x
    ensures var p := PositionOf(glyphs, start, j, width);
      var b := j - (p.x - c);
      && start <= b
      && PositionOf(glyphs, start, b, width) == Coordinate(c, p.y)
      && forall k :: b <= k < j ==> !IsNewline(glyphs[k])
    decreases PositionOf(glyphs, start, j, width).x - c
  {
    var p := PositionOf(glyphs, start, j, width);
    if c < p.x {
      PreviousInRow(glyphs, start, j, width);
      ColumnsOfRow(glyphs, start, j - 1, c, width);
    }
  }

  /** The row above a non-first row ends at index `e`, one before the first
      index of that row, with a line break or at the last column. */
  lemma RowAboveEnds(glyphs: seq<Glyph>, start: nat, j: nat, width: nat)
    requires start <= j <= |glyphs|
    requires PositionOf(glyphs, start, j, width).y > 0
    ensures var p := PositionOf(glyphs, start, j, width);
      var e := j - p.x - 1;
      && start <= e < j
      && PositionOf(glyphs, start, e, width).y == p.y - 1
      && (IsNewline(glyphs[e]) || PositionOf(glyphs, start, e, width).x + 1 == width)
  {
    var p := PositionOf(glyphs, start, j, width);
    ColumnsOfRow(glyphs, start, j, 0, width);
    var b := j - p.x;
    assert PositionOf(glyphs, start, b, width) == Coordinate(0, p.y);
    assert b > start;
    PositionOfNext(glyphs, start, b - 1, width);
  }

  /** Where the walk for (`x`, `y`) lands when it lands inside the string: on
      row `y`, at column `x` when the row reaches it, and otherwise on the line
      break that ends the row, at a column before `x`. */
  lemma IndexOfLandsOnRow(glyphs: seq<Glyph>, start: nat, x: nat, y: nat, width: nat)
    requires start <= |glyphs|
    ensures var r := IndexOf(glyphs, start, x, y, width);
      r < |glyphs| ==>
        var p := PositionOf(glyphs, start, r, width);
        && p.y == y
        && p.x <= x
        && (p.x < x ==> IsNewline(glyphs[r]))
  {
    var r := IndexOf(glyphs, start, x, y, width);
    IndexOfIsFirstHit(glyphs, start, x, y, width);
    if r < |glyphs| {
      var p := PositionOf(glyphs, start, r, width);
      if p.x > x {
        ColumnsOfRow(glyphs, start, r, x, width);
        assert Hit(glyphs, start, r - (p.x - x), x, y, width);
      }
    }
  }

  /** End-of-line clamp: asking for a column at or past the line break `k` that
      ends a row gives the index of that line break. */
  lemma EndOfLineClamp(glyphs: seq<Glyph>, start: nat, k: nat, x: nat, width: nat)
    requires start <= k < |glyphs|
    requires IsNewline(glyphs[k])
    requires PositionOf(glyphs, start, k, width).x <= x
    ensures IndexOf(glyphs, start, x, PositionOf(glyphs, start, k, width).y, width) == k
  {
    var y := PositionOf(glyphs, start, k, width).y;
    NoHitBefore(glyphs, start, k, x, y, width);
    IndexOfAt(glyphs, start, k, x, y, width);
  }
}
