/**
  How the sizing formula of `get_lines_in_glyph` compares with what
  `generate_verts_for_glyph` actually emits. The formula charges every break
  two segments, but a break at either end of the glyph costs only one, and two
  adjacent breaks share the pair between them; each such case makes the
  generator emit one segment more than was reserved.
 */
module Sizing {
  import opened Font
  import opened LineCount
  import opened VertexGen

  /** Points j and j + 1 are both break markers. */
  predicate BreakPair(g: Glyph, lineBreak: int, j: int) {
    0 <= j < |g| - 1 && IsBreak(g[j], lineBreak) && IsBreak(g[j + 1], lineBreak)
  }

  /** The number of adjacent break pairs in `g`. */
  function AdjacentBreaks(g: Glyph, lineBreak: int): nat
  {
    if |g| < 2 then 0
    else AdjacentBreaks(g[..|g| - 1], lineBreak) + Bit(BreakPair(g, lineBreak, |g| - 2))
  }

  /** There are no adjacent break pairs exactly when the count of them is zero. */
  lemma {:induction false} NoAdjacentBreaks(g: Glyph, lineBreak: int)
    ensures AdjacentBreaks(g, lineBreak) == 0 <==> forall j :: 0 <= j < |g| - 1 ==> !BreakPair(g, lineBreak, j)
  {
    if |g| >= 2 {
      var h := g[..|g| - 1];
      NoAdjacentBreaks(h, lineBreak);
      assert forall j :: BreakPair(h, lineBreak, j) <==> BreakPair(g, lineBreak, j) && j < |g| - 2;
    }
  }

  /** Segments the generator emits beyond the sizing formula: one for a break in
      first place, one for a break in last place, one per adjacent break pair. */
  function Surplus(g: Glyph, lineBreak: int): nat
    requires |g| > 0
  {
    Bit(IsBreak(g[0], lineBreak)) + Bit(IsBreak(g[|g| - 1], lineBreak)) + AdjacentBreaks(g, lineBreak)
  }

  /** Every break is an interior point and no two breaks are adjacent: the shape
      the sizing formula assumes. */
  predicate WellPlaced(g: Glyph, lineBreak: int) {
    && (forall i :: 0 <= i < |g| && IsBreak(g[i], lineBreak) ==> 0 < i < |g| - 1)
    && (forall j :: 0 <= j < |g| - 1 ==> !BreakPair(g, lineBreak, j))
  }

  /** For a non-empty glyph the generator emits exactly the reserved count plus
      the surplus. */
  lemma {:induction false} EmittedIsLinesPlusSurplus(g: Glyph, lineBreak: int)
    requires |g| > 0
    ensures |SegmentStarts(g, lineBreak)| == LinesInGlyph(g, lineBreak) + Surplus(g, lineBreak)
  {
    var h := g[..|g| - 1];
    if |g| == 1 {
      assert BreakCount(g, lineBreak) == Bit(IsBreak(g[0], lineBreak)) by {
        assert h == [];
      }
    } else {
      EmittedIsLinesPlusSurplus(h, lineBreak);
      assert h[0] == g[0] && h[|h| - 1] == g[|g| - 2];
      assert BreakCount(g, lineBreak) == BreakCount(h, lineBreak) + Bit(IsBreak(g[|g| - 1], lineBreak));
    }
  }

  /** The surplus vanishes exactly for well-placed breaks. */
  lemma {:induction false} SurplusZeroIffWellPlaced(g: Glyph, lineBreak: int)
    requires |g| > 0
    ensures Surplus(g, lineBreak) == 0 <==> WellPlaced(g, lineBreak)
  {
    NoAdjacentBreaks(g, lineBreak);
  }

  /** The generator never emits fewer segments than `get_lines_in_glyph`
      reserves, and emits exactly that many iff the glyph's breaks are well placed. */
  lemma {:induction false} EmittedVersusLines(g: Glyph, lineBreak: int)
    ensures |SegmentStarts(g, lineBreak)| >= LinesInGlyph(g, lineBreak)
    ensures |SegmentStarts(g, lineBreak)| == LinesInGlyph(g, lineBreak) <==> WellPlaced(g, lineBreak)
  {
    if |g| > 0 {
      EmittedIsLinesPlusSurplus(g, lineBreak);
      SurplusZeroIffWellPlaced(g, lineBreak);
    }
  }

  /** A leading break: nothing is reserved, yet one segment is emitted. */
  lemma LeadingBreakOverruns(lineBreak: int)
    ensures var g := [Point(lineBreak, 0), Point(lineBreak + 1, 0), Point(lineBreak + 2, 1)];
      LinesInGlyph(g, lineBreak) == 0 && |SegmentStarts(g, lineBreak)| == 1
  {
    var g := [Point(lineBreak, 0), Point(lineBreak + 1, 0), Point(lineBreak + 2, 1)];
    EmittedIsLinesPlusSurplus(g, lineBreak);
    assert AdjacentBreaks(g[..2], lineBreak) == 0 by {
      assert g[..2][..1] == [g[0]];
    }
    assert BreakIndices(g, lineBreak) == {0};
  }

  /** A break between a lone point and a two-point stroke: one segment is
      reserved and exactly that one, the stroke's, is emitted. */
  lemma BreakSkipping(lineBreak: int)
    requires lineBreak !in {0, 1, 2}
    ensures var g := [Point(0, 0), Point(lineBreak, 0), Point(1, 1), Point(2, 2)];
      LinesInGlyph(g, lineBreak) == 1 && SegmentStarts(g, lineBreak) == [2]
  {
    var g := [Point(0, 0), Point(lineBreak, 0), Point(1, 1), Point(2, 2)];
    assert BreakIndices(g, lineBreak) == {1};
    assert g[..3][..2] == g[..2] && g[..2][..1] == [g[0]];
    assert !Drawable(g[..2], lineBreak, 0) && !Drawable(g[..3], lineBreak, 1);
    assert SegmentStarts(g[..2], lineBreak) == [];
    assert SegmentStarts(g[..3], lineBreak) == [];
  }
}
