/**
  Where the four cursor moves of the textbox land. Each converts the cursor
  index `c` to its coordinate, shifts one component by one and converts back;
  these lemmas say which index that round trip through the layout gives, for
  a cursor inside the window (`start <= c`).
 */
module CursorMoves {
  import opened Layout

  /** Moving left from a non-zero column lands on the index just before. */
  lemma CursorLeftTarget(glyphs: seq<Glyph>, start: nat, c: nat, width: nat)
    requires c <= |glyphs|
    requires PositionOf(glyphs, start, c, width).x > 0
    ensures var p := PositionOf(glyphs, start, c, width);
      start < c && IndexOf(glyphs, start, p.x - 1, p.y, width) == c - 1
  {
    var p := PositionOf(glyphs, start, c, width);
    ColumnsOfRow(glyphs, start, c, p.x - 1, width);
    NoHitBefore(glyphs, start, c - 1, p.x - 1, p.y, width);
    IndexOfAt(glyphs, start, c - 1, p.x - 1, p.y, width);
  }

  /** Moving right from an index before the end: a line break does not move
      the cursor; otherwise it lands on the next index, except from the last
      column of a row, from where it lands on the end of the string. */
  lemma CursorRightTarget(glyphs: seq<Glyph>, start: nat, c: nat, width: nat)
    requires start <= c < |glyphs|
    ensures var p := PositionOf(glyphs, start, c, width);
      var r := IndexOf(glyphs, start, p.x + 1, p.y, width);
      r == if IsNewline(glyphs[c]) then c
           else if p.x + 1 != width then c + 1
           else |glyphs|
  {
    var p := PositionOf(glyphs, start, c, width);
    var x := p.x + 1;
    NoHitBefore(glyphs, start, c, x, p.y, width);
    if IsNewline(glyphs[c]) {
      IndexOfAt(glyphs, start, c, x, p.y, width);
    } else {
      PositionOfNext(glyphs, start, c, width);
      assert !Hit(glyphs, start, c, x, p.y, width);
      if x != width {
        IndexOfAt(glyphs, start, c + 1, x, p.y, width);
      } else {
        forall j | start <= j < |glyphs|
          ensures !Hit(glyphs, start, j, x, p.y, width)
        {
          if c < j {
            RowMonotonic(glyphs, start, c + 1, j, width);
          }
        }
        IndexOfAt(glyphs, start, |glyphs|, x, p.y, width);
      }
    }
  }

  /** Moving down from inside the string goes strictly forward; when it lands
      inside the string, it is on the next row, at the same column or on the
      line break of a shorter row. */
  lemma CursorDownTarget(glyphs: seq<Glyph>, start: nat, c: nat, width: nat)
    requires start <= c <= |glyphs|
    ensures var p := PositionOf(glyphs, start, c, width);
      var r := IndexOf(glyphs, start, p.x, p.y + 1, width);
      && (c < |glyphs| ==> c < r)
      && (r < |glyphs| ==>
            var q := PositionOf(glyphs, start, r, width);
            q.y == p.y + 1 && q.x <= p.x && (q.x < p.x ==> IsNewline(glyphs[r])))
  {
    var p := PositionOf(glyphs, start, c, width);
    var r := IndexOf(glyphs, start, p.x, p.y + 1, width);
    IndexOfLandsOnRow(glyphs, start, p.x, p.y + 1, width);
    if r <= c && r < |glyphs| {
      RowMonotonic(glyphs, start, r, c, width);
    }
  }

  /** The row above the cursor's row holds a hit for the cursor's column:
      that column itself, or the row's line break when the row is shorter. */
  lemma HitOnRowAbove(glyphs: seq<Glyph>, start: nat, c: nat, width: nat) returns (h: nat)
    requires c <= |glyphs|
    requires PositionOf(glyphs, start, c, width).y > 0
    ensures var p := PositionOf(glyphs, start, c, width);
      start <= h < c && Hit(glyphs, start, h, p.x, p.y - 1, width)
  {
    var p := PositionOf(glyphs, start, c, width);
    RowAboveEnds(glyphs, start, c, width);
    var e := c - p.x - 1;
    var pe := PositionOf(glyphs, start, e, width);
    if IsNewline(glyphs[e]) {
      h := e;
    } else {
      assert p.x <= pe.x;
      ColumnsOfRow(glyphs, start, e, p.x, width);
      h := e - (pe.x - p.x);
    }
  }

  /** Moving up from a row below the first always lands inside the string,
      strictly before the cursor, on the row above, at the same column or on
      the line break of a shorter row. */
  lemma CursorUpTarget(glyphs: seq<Glyph>, start: nat, c: nat, width: nat)
    requires c <= |glyphs|
    requires PositionOf(glyphs, start, c, width).y > 0
    ensures var p := PositionOf(glyphs, start, c, width);
      var r := IndexOf(glyphs, start, p.x, p.y - 1, width);
      && start <= r < c
      && var q := PositionOf(glyphs, start, r, width);
         q.y == p.y - 1 && q.x <= p.x && (q.x < p.x ==> IsNewline(glyphs[r]))
  {
    var p := PositionOf(glyphs, start, c, width);
    var h := HitOnRowAbove(glyphs, start, c, width);
    IndexOfIsFirstHit(glyphs, start, p.x, p.y - 1, width);
    IndexOfLandsOnRow(glyphs, start, p.x, p.y - 1, width);
  }
}
