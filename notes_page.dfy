/** The ruling of a notes page: the positions, in millimetres, of the
    dashed grid on the left half and of the solid ruled lines on the right
    half. Positions are whole millimetres; the page is A4 landscape. */
module NotesPage {

  const PageWidth: int := 297
  const PageHeight: int := 210
  const Margin: int := 20
  /** Spacing of the ruled lines on the right half. */
  const LineSpacing: nat := 8
  /** Spacing of the grid lines on the left half. */
  const GridSpacing: nat := 5

  /** The positions `start, start + spacing, ...` that do not pass `end`,
      as a `for (y = start; y <= end; y += spacing)` loop visits them: each
      one `spacing` after the previous, all at most `end`, and the next one
      past `end`. */
  method RulingPositions(start: int, end: int, spacing: nat) returns (positions: seq<int>)
    requires spacing > 0
    ensures forall k :: 0 <= k < |positions| ==> positions[k] == start + k * spacing
    ensures forall k :: 0 <= k < |positions| ==> positions[k] <= end
    ensures start + |positions| * spacing > end
  {
    positions := [];
    var y := start;
    while y <= end
      invariant y == start + |positions| * spacing
      invariant forall k :: 0 <= k < |positions| ==> positions[k] == start + k * spacing
      invariant forall k :: 0 <= k < |positions| ==> positions[k] <= end
    {
      positions := positions + [y];
      y := y + spacing;
    }
  }

  /** The three rulings of a notes page for a page of the given size.
      Horizontal lines run from `margin + 25` down to `height - margin - 10`.
      The vertical grid lines start at the margin and stop at the last
      whole millimetre not past `width / 2 + 1`, which keeps every one of
      them left of the ruled half starting at `width / 2 + 5`. On A4
      landscape there are 28 grid rows, 26 grid columns and 17 ruled lines. */
  method NotesPageRulings(width: int, height: int, margin: int)
    returns (gridRows: seq<int>, gridColumns: seq<int>, ruledRows: seq<int>)
    ensures forall k :: 0 <= k < |gridRows| ==>
      gridRows[k] == margin + 25 + k * GridSpacing && gridRows[k] <= height - margin - 10
    ensures forall k :: 0 <= k < |ruledRows| ==>
      ruledRows[k] == margin + 25 + k * LineSpacing && ruledRows[k] <= height - margin - 10
    ensures forall k :: 0 <= k < |gridColumns| ==>
      gridColumns[k] == margin + k * GridSpacing && 2 * gridColumns[k] < width + 10
    ensures width == PageWidth && height == PageHeight && margin == Margin ==>
      |gridRows| == 28 && |gridColumns| == 26 && |ruledRows| == 17
  {
    var startY := margin + 25;
    var endY := height - margin - 10;
    gridRows := RulingPositions(startY, endY, GridSpacing);
    gridColumns := RulingPositions(margin, (width + 2) / 2, GridSpacing);
    ruledRows := RulingPositions(startY, endY, LineSpacing);
    if width == PageWidth && height == PageHeight && margin == Margin {
      assert gridRows[|gridRows| - 1] <= endY;
      assert gridColumns[|gridColumns| - 1] <= (width + 2) / 2;
      assert ruledRows[|ruledRows| - 1] <= endY;
    }
  }
}
