/**
  The stroke font: a glyph is a polyline of integer points, and a point whose
  x coordinate equals the font's line-break marker lifts the pen. The marker's
  value is defined by the font header, so every operation takes it as the
  parameter `lineBreak`.
 */
module Font {

  /** One point of a glyph's stroke path, in font units. */
  datatype Point = Point(x: int, y: int)

  /** A glyph's stroke path; `|g|` plays the part of the point count. */
  type Glyph = seq<Point>

  /** The font: the glyph of each character that has one. */
  type FontTable = map<char, Glyph>

  /** True when `p` is a pen-up marker rather than a drawable point. */
  predicate IsBreak(p: Point, lineBreak: int) {
    p.x == lineBreak
  }

  /** 1 for true and 0 for false, for counting the positions where a condition holds. */
  function Bit(b: bool): nat {
    if b then 1 else 0
  }

  /** Number of break markers in `g`, counted from the front as `get_lines_in_glyph`'s loop does. */
  function BreakCount(g: Glyph, lineBreak: int): nat
  {
    if |g| == 0 then 0
    else BreakCount(g[..|g| - 1], lineBreak) + Bit(IsBreak(g[|g| - 1], lineBreak))
  }

  /** The positions of the break markers in `g`. */
  function BreakIndices(g: Glyph, lineBreak: int): set<int>
  {
    set i | 0 <= i < |g| && IsBreak(g[i], lineBreak)
  }

  /** The running count and the set of break positions agree. */
  lemma {:induction false} BreakCountIsCardinality(g: Glyph, lineBreak: int)
    ensures BreakCount(g, lineBreak) == |BreakIndices(g, lineBreak)|
  {
    if |g| == 0 {
      assert BreakIndices(g, lineBreak) == {};
    } else {
      var h := g[..|g| - 1];
      var n := |h|;
      BreakCountIsCardinality(h, lineBreak);
      assert forall i | 0 <= i < n :: h[i] == g[i];
      if IsBreak(g[n], lineBreak) {
        assert BreakIndices(g, lineBreak) == BreakIndices(h, lineBreak) + {n};
        assert n !in BreakIndices(h, lineBreak);
      } else {
        assert BreakIndices(g, lineBreak) == BreakIndices(h, lineBreak);
      }
    }
  }

  /** True when `v` is representable as a signed 16-bit GLshort. */
  predicate FitsShort(v: int) {
    -32768 <= v <= 32767
  }
}
