/**
  `get_lines_in_glyph`: the number of line segments the text driver reserves
  room for, per glyph. The formula assumes every break costs exactly two
  segments; it is not clamped, so it can be negative.
 */
module LineCount {
  import opened Font

  /** The segment count the sizing pass uses: zero for an empty glyph, otherwise
      one fewer than the points, less two for every break marker. */
  function LinesInGlyph(g: Glyph, lineBreak: int): (r: int)
    ensures |g| == 0 ==> r == 0
    ensures |g| > 0 ==> r == (|g| - 1) - 2 * |BreakIndices(g, lineBreak)|
  {
    BreakCountIsCardinality(g, lineBreak);
    if |g| == 0 then 0 else (|g| - 1) - 2 * BreakCount(g, lineBreak)
  }

  /** `get_lines_in_glyph`'s loop: count the breaks over all points, then apply the formula. */
  method GetLinesInGlyph(g: Glyph, lineBreak: int) returns (lines: int)
    ensures lines == LinesInGlyph(g, lineBreak)
  {
    var nPoints := |g|;
    var nBreaks := 0;
    var i := 0;
    while i < nPoints
      invariant 0 <= i <= nPoints
      invariant nBreaks == BreakCount(g[..i], lineBreak)
    {
      if g[i].x == lineBreak {
        nBreaks := nBreaks + 1;
      }
      assert g[..i + 1][..i] == g[..i];
      i := i + 1;
    }
    assert g[..i] == g;
    if nPoints == 0 {
      lines := 0;
    } else {
      lines := (nPoints - 1) - 2 * nBreaks;
    }
  }

  /** A glyph that is a lone break marker is sized at minus two segments. */
  lemma LoneBreakIsNegative(lineBreak: int, y: int)
    ensures LinesInGlyph([Point(lineBreak, y)], lineBreak) == -2
  {
    assert BreakIndices([Point(lineBreak, y)], lineBreak) == {0};
  }
}
