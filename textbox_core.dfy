/**
  The textbox widget's viewport and cursor state: the glyph string, the first
  visible index (`upperBound`), the externally maintained last visible index
  (`lowerBound`) and the cursor index. The widget's width is a foreign query
  and is passed to each operation; the `n` counts are accepted and ignored.
 */
module Textbox {
  import opened Layout
  import Scrolling
  import CursorMoves

  class TextboxCore {
    var contents: seq<Glyph>
    var upperBound: nat
    var lowerBound: nat
    var cursorIndex: nat

    /** The first visible index and the cursor address the glyph string or its
        end. (`lowerBound` needs no bound: `scroll_up` only moves the cursor
        to it when it is below the cursor.) */
    ghost predicate Valid()
      reads this
    {
      upperBound <= |contents| && cursorIndex <= |contents|
    }

    /** A new textbox holds a copy of the string and starts with every index at 0. */
    constructor (s: seq<Glyph>)
      ensures Valid()
      ensures contents == s && upperBound == 0 && lowerBound == 0 && cursorIndex == 0
    {
      contents := s;
      upperBound, lowerBound, cursorIndex := 0, 0, 0;
    }

    /** The coordinate of `index` in the current window. */
    method PositionFromIndex(index: nat, width: nat) returns (position: Coordinate)
      requires index <= upperBound || index <= |contents|
      ensures position == PositionOf(contents, upperBound, index, width)
    {
      position := Coordinate(0, 0);
      var i := upperBound;
      while i < index
        invariant upperBound <= i && (i == upperBound || i <= index)
        invariant position == PositionOf(contents, upperBound, i, width)
      {
        position := Advance(contents[i], position, width);
        i := i + 1;
      }
    }

    /** The index at column `x` of row `y` of the current window. */
    method IndexFromXY(x: nat, y: nat, width: nat) returns (index: nat)
      ensures index == IndexOf(contents, upperBound, x, y, width)
    {
      var running := Coordinate(0, 0);
      var i := upperBound;
      while i < |contents|
        invariant Scan(contents, i, running, x, y, width) == IndexOf(contents, upperBound, x, y, width)
      {
        if running == Coordinate(x, y) {
          return i;
        }
        if running.y == y && IsNewline(contents[i]) {
          return i;
        }
        running := Advance(contents[i], running, width);
        i := i + 1;
      }
      return |contents|;
    }

    /** The index at `pos` of the current window. */
    method IndexFromPosition(pos: Coordinate, width: nat) returns (index: nat)
      ensures index == IndexOf(contents, upperBound, pos.x, pos.y, width)
    {
      index := IndexFromXY(pos.x, pos.y, width);
    }

    /** Stores the cursor index exactly as given; the window is left alone. */
    method SetCursorIndex(index: nat)
      requires Valid()
      requires index <= |contents|
      modifies this`cursorIndex
      ensures Valid()
      ensures cursorIndex == index
    {
      cursorIndex := index;
    }

    /** Moves the first visible index down one display row, then pulls a cursor
        below `lowerBound` back to it. */
    method ScrollUp(n: nat, width: nat)
      requires Valid() && width >= 1
      modifies this`upperBound, this`cursorIndex
      ensures Valid()
      ensures upperBound == Scrolling.ScrollUpTarget(contents, old(upperBound), width)
      ensures old(upperBound) <= upperBound <= old(upperBound) + width
      ensures cursorIndex == if old(cursorIndex) > lowerBound then lowerBound else old(cursorIndex)
      ensures cursorIndex <= lowerBound
    {
      ghost var start := upperBound;
      var i := upperBound;
      while i < |contents|
        invariant upperBound == start <= i <= |contents|
        invariant Scrolling.FirstRowEnd(contents, start, width, i) == Scrolling.FirstRowEnd(contents, start, width, start)
      {
        if i - upperBound == width - 1 || IsNewline(contents[i]) {
          upperBound := i + 1;
          break;
        }
        i := i + 1;
      }
      Scrolling.ScrollUpAdvance(contents, start, width);
      if cursorIndex > lowerBound {
        SetCursorIndex(lowerBound);
      }
    }

    /** Moves the first visible index back to where the backward scan stops,
        then pushes a cursor above it down to it. */
    method ScrollDown(n: nat, width: nat)
      requires Valid() && width >= 1
      modifies this`upperBound, this`cursorIndex
      ensures Valid()
      ensures upperBound == Scrolling.ScrollDownTarget(contents, old(upperBound), width)
      ensures upperBound <= old(upperBound)
      ensures cursorIndex == if old(cursorIndex) < upperBound then upperBound else old(cursorIndex)
      ensures upperBound <= cursorIndex
    {
      if upperBound == 0 {
        return;
      }
      ghost var upper := upperBound;
      var i: nat := upperBound - 1;
      while i != 0
        invariant upperBound == upper && i < upper <= |contents|
        invariant Scrolling.LastRowEnd(contents, upper, width, i) == Scrolling.LastRowEnd(contents, upper, width, upper - 1)
      {
        if IsNewline(contents[i]) || upperBound - i == width - 1 {
          upperBound := i;
          break;
        }
        i := i - 1;
      }
      if cursorIndex < upperBound {
        SetCursorIndex(upperBound);
      }
    }

    /** Moves the cursor to the same column of the row above. */
    method CursorUp(n: nat, width: nat)
      requires Valid()
      requires PositionOf(contents, upperBound, cursorIndex, width).y > 0
      modifies this`cursorIndex
      ensures Valid()
      ensures var p := old(PositionOf(contents, upperBound, cursorIndex, width));
        cursorIndex == IndexOf(contents, upperBound, p.x, p.y - 1, width)
      ensures upperBound <= cursorIndex < old(cursorIndex)
      ensures var p := old(PositionOf(contents, upperBound, cursorIndex, width));
        var q := PositionOf(contents, upperBound, cursorIndex, width);
        q.y == p.y - 1 && q.x <= p.x
    {
      CursorMoves.CursorUpTarget(contents, upperBound, cursorIndex, width);
      var pos := PositionFromIndex(cursorIndex, width);
      pos := pos.(y := pos.y - 1);
      var index := IndexFromPosition(pos, width);
      SetCursorIndex(index);
    }

    /** Moves the cursor to the same column of the row below. */
    method CursorDown(n: nat, width: nat)
      requires Valid()
      modifies this`cursorIndex
      ensures Valid()
      ensures var p := old(PositionOf(contents, upperBound, cursorIndex, width));
        cursorIndex == IndexOf(contents, upperBound, p.x, p.y + 1, width)
      ensures old(cursorIndex) < |contents| ==> old(cursorIndex) < cursorIndex
      ensures cursorIndex < |contents| ==>
        var p := old(PositionOf(contents, upperBound, cursorIndex, width));
        var q := PositionOf(contents, upperBound, cursorIndex, width);
        q.y == p.y + 1 && q.x <= p.x
    {
      // A cursor before the window is placed like the first visible index.
      var c := if upperBound <= cursorIndex then cursorIndex else upperBound;
      CursorMoves.CursorDownTarget(contents, upperBound, c, width);
      var pos := PositionFromIndex(cursorIndex, width);
      pos := pos.(y := pos.y + 1);
      var index := IndexFromPosition(pos, width);
      SetCursorIndex(index);
    }

    /** Moves the cursor one column left, unless it is at index 0. */
    method CursorLeft(n: nat, width: nat)
      requires Valid()
      requires cursorIndex != 0 ==> PositionOf(contents, upperBound, cursorIndex, width).x > 0
      modifies this`cursorIndex
      ensures Valid()
      ensures old(cursorIndex) != 0 ==>
        var p := old(PositionOf(contents, upperBound, cursorIndex, width));
        cursorIndex == IndexOf(contents, upperBound, p.x - 1, p.y, width)
      ensures cursorIndex == if old(cursorIndex) == 0 then 0 else old(cursorIndex) - 1
    {
      if cursorIndex != 0 {
        CursorMoves.CursorLeftTarget(contents, upperBound, cursorIndex, width);
        var pos := PositionFromIndex(cursorIndex, width);
        pos := pos.(x := pos.x - 1);
        var index := IndexFromPosition(pos, width);
        SetCursorIndex(index);
      }
    }

    /** Moves the cursor one column right, unless it is at the end. */
    method CursorRight(n: nat, width: nat)
      requires Valid()
      modifies this`cursorIndex
      ensures Valid()
      ensures old(cursorIndex) != |contents| ==>
        var p := old(PositionOf(contents, upperBound, cursorIndex, width));
        cursorIndex == IndexOf(contents, upperBound, p.x + 1, p.y, width)
      ensures old(cursorIndex) == |contents| ==> cursorIndex == old(cursorIndex)
      ensures upperBound <= old(cursorIndex) < |contents| ==>
        var c := old(cursorIndex);
        cursorIndex == if IsNewline(contents[c]) then c
                       else if PositionOf(contents, upperBound, c, width).x + 1 != width then c + 1
                       else |contents|
      ensures old(cursorIndex) < upperBound ==>
        var u := upperBound;
        cursorIndex == if u == |contents| then u
                       else if IsNewline(contents[u]) then u
                       else if width != 1 then u + 1
                       else |contents|
    {
      if cursorIndex != |contents| {
        if upperBound <= cursorIndex {
          CursorMoves.CursorRightTarget(contents, upperBound, cursorIndex, width);
        } else if upperBound < |contents| {
          // A cursor before the window is placed like the first visible index.
          CursorMoves.CursorRightTarget(contents, upperBound, upperBound, width);
        }
        var pos := PositionFromIndex(cursorIndex, width);
        pos := pos.(x := pos.x + 1);
        var index := IndexFromPosition(pos, width);
        SetCursorIndex(index);
      }
    }
  }
}
