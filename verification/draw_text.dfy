/**
  `draw_text`: a sizing pass that sums the per-glyph segment counts of a
  NUL-terminated string, one allocation of that many segments' worth of
  shorts, and a filling pass that runs the generator on character k with slot
  k and scale 1000. The draw call then reads twice the summed count of
  vertices. The filling pass writes no more shorts than `vbo_size` bytes pay
  for, and the draw call then reads exactly what was written, precisely when
  every glyph of the string has well-placed breaks.
 */
module TextDraw {
  import opened Font
  import opened LineCount
  import opened VertexGen
  import opened Sizing

  /** The scale `draw_text` passes to the generator. */
  const Scale: int := 1000

  /** sizeof(GLshort): the sizing pass counts bytes, two per short. */
  const ShortBytes: int := 2

  /** The characters of a C string: everything before the first NUL. */
  function CString(s: seq<char>): (r: seq<char>)
    ensures |r| <= |s| && r == s[..|r|]
    ensures '\0' !in r
    ensures |r| < |s| ==> s[|r|] == '\0'
  {
    if |s| == 0 || s[0] == '\0' then [] else [s[0]] + CString(s[1..])
  }

  /** Every character of `text` has a glyph in the font. */
  predicate HasGlyphs(font: FontTable, text: seq<char>) {
    forall i :: 0 <= i < |text| ==> text[i] in font
  }

  /** The sizing pass's `total_lines`: the sum of `get_lines_in_glyph` over the text. */
  function TotalLines(font: FontTable, lineBreak: int, text: seq<char>): int
    requires HasGlyphs(font, text)
  {
    if |text| == 0 then 0
    else TotalLines(font, lineBreak, text[..|text| - 1]) + LinesInGlyph(font[text[|text| - 1]], lineBreak)
  }

  /** The number of segments the filling pass writes for the text. */
  function EmittedSegments(font: FontTable, lineBreak: int, text: seq<char>): nat
    requires HasGlyphs(font, text)
  {
    if |text| == 0 then 0
    else EmittedSegments(font, lineBreak, text[..|text| - 1]) + |SegmentStarts(font[text[|text| - 1]], lineBreak)|
  }

  /** The vertices the filling pass writes: character k's glyph at slot k, in order. */
  function TextVertices(font: FontTable, lineBreak: int, text: seq<char>, scale: int): (r: seq<Vertex>)
    requires HasGlyphs(font, text)
    ensures |r| == 2 * EmittedSegments(font, lineBreak, text)
  {
    if |text| == 0 then []
    else
      var k := |text| - 1;
      TextVertices(font, lineBreak, text[..k], scale) + GlyphVertices(font[text[k]], lineBreak, scale, k)
  }

  /** Every glyph of the text has well-placed breaks. */
  predicate AllWellPlaced(font: FontTable, lineBreak: int, text: seq<char>)
    requires HasGlyphs(font, text)
  {
    forall i :: 0 <= i < |text| ==> WellPlaced(font[text[i]], lineBreak)
  }

  /** Every vertex coordinate is representable as a GLshort. */
  predicate ShortVertices(vs: seq<Vertex>) {
    forall i :: 0 <= i < |vs| ==> FitsShort(vs[i].x) && FitsShort(vs[i].y) && FitsShort(vs[i].z)
  }

  /** Over a whole text the filling pass writes at least as many segments as the
      sizing pass counted, and exactly as many iff every glyph is well placed. */
  lemma {:induction false} FillVersusSizing(font: FontTable, lineBreak: int, text: seq<char>)
    requires HasGlyphs(font, text)
    ensures EmittedSegments(font, lineBreak, text) >= TotalLines(font, lineBreak, text)
    ensures EmittedSegments(font, lineBreak, text) == TotalLines(font, lineBreak, text)
            <==> AllWellPlaced(font, lineBreak, text)
  {
    if |text| > 0 {
      var k := |text| - 1;
      var h := text[..k];
      FillVersusSizing(font, lineBreak, h);
      EmittedVersusLines(font[text[k]], lineBreak);
      assert forall i | 0 <= i < k :: h[i] == text[i];
    }
  }

  /** The text before position m yields a prefix of the text's vertices, and no
      more segments. */
  lemma {:induction false} TextPrefix(font: FontTable, lineBreak: int, text: seq<char>, scale: int, m: nat)
    requires HasGlyphs(font, text) && m <= |text|
    ensures TextVertices(font, lineBreak, text[..m], scale) <= TextVertices(font, lineBreak, text, scale)
    ensures EmittedSegments(font, lineBreak, text[..m]) <= EmittedSegments(font, lineBreak, text)
    decreases |text| - m
  {
    if m == |text| {
      assert text[..m] == text;
    } else {
      var h := text[..|text| - 1];
      assert h[..m] == text[..m];
      TextPrefix(font, lineBreak, h, scale, m);
    }
  }

  /** Character k is generated at slot k: its glyph's vertices sit in the text's
      vertices right after those of the characters before it. */
  lemma {:induction false} CharacterSlot(font: FontTable, lineBreak: int, text: seq<char>, scale: int, k: nat)
    requires HasGlyphs(font, text) && k < |text|
    ensures |TextVertices(font, lineBreak, text[..k], scale)| + |GlyphVertices(font[text[k]], lineBreak, scale, k)|
            <= |TextVertices(font, lineBreak, text, scale)|
    ensures TextVertices(font, lineBreak, text, scale)
              [|TextVertices(font, lineBreak, text[..k], scale)|
               ..|TextVertices(font, lineBreak, text[..k], scale)| + |GlyphVertices(font[text[k]], lineBreak, scale, k)|]
            == GlyphVertices(font[text[k]], lineBreak, scale, k)
  {
    TextStep(font, lineBreak, text, scale, k);
    var before := TextVertices(font, lineBreak, text[..k], scale);
    var glyph := GlyphVertices(font[text[k]], lineBreak, scale, k);
    var upTo := TextVertices(font, lineBreak, text[..k + 1], scale);
    var all := TextVertices(font, lineBreak, text, scale);
    assert upTo == before + glyph && upTo <= all;
    SliceOfPrefix(all, before, glyph);
  }

  /** If `a + b` is a prefix of `s`, then `b` sits in `s` right after `a`. */
  lemma {:induction false} SliceOfPrefix<T>(s: seq<T>, a: seq<T>, b: seq<T>)
    requires a + b <= s
    ensures |a| + |b| <= |s| && s[|a|..|a| + |b|] == b
  {
  }

  /** What `draw_text` hands to the graphics collaborator: the bytes it
      allocated, the shorts the filling pass writes from the start of that
      allocation, and the vertex count of the draw call. */
  datatype DrawCall = DrawCall(vboBytes: int, written: seq<int>, vertexCount: int)

  /** The draw call `draw_text` makes for the C string `str`. */
  function DrawTextCall(font: FontTable, lineBreak: int, str: seq<char>): (d: DrawCall)
    requires '\0' in str
    requires HasGlyphs(font, CString(str))
    ensures d.vertexCount == 2 * TotalLines(font, lineBreak, CString(str))
    ensures |d.written| == 6 * EmittedSegments(font, lineBreak, CString(str))
  {
    var text := CString(str);
    var lines := TotalLines(font, lineBreak, text);
    DrawCall(6 * lines * ShortBytes, Flatten(TextVertices(font, lineBreak, text, Scale)), 2 * lines)
  }

  /** The filling pass never writes fewer shorts than `vbo_size` bytes pay for;
      it writes no more than that iff every glyph is well placed, and then the
      draw call reads back exactly the vertices that were written. */
  lemma {:induction false} DrawTextFitsIffWellPlaced(font: FontTable, lineBreak: int, str: seq<char>)
    requires '\0' in str
    requires HasGlyphs(font, CString(str))
    ensures var d := DrawTextCall(font, lineBreak, str);
      && ShortBytes * |d.written| >= d.vboBytes
      && (ShortBytes * |d.written| <= d.vboBytes <==> AllWellPlaced(font, lineBreak, CString(str)))
    ensures var d := DrawTextCall(font, lineBreak, str);
      AllWellPlaced(font, lineBreak, CString(str)) ==>
        && 3 * d.vertexCount == |d.written|
        && VerticesOf(d.written) == TextVertices(font, lineBreak, CString(str), Scale)
  {
    FillVersusSizing(font, lineBreak, CString(str));
    VerticesOfFlatten(TextVertices(font, lineBreak, CString(str), Scale));
  }

  /** A text whose one glyph is a lone break is not well placed, yet it writes
      nothing: `vbo_size` is negative and no short lands past an allocation. */
  lemma LoneBreakTextWritesNothing(lineBreak: int)
    ensures var font := map['x' := [Point(lineBreak, 0)]];
      && CString("x\0") == "x"
      && !AllWellPlaced(font, lineBreak, "x")
      && DrawTextCall(font, lineBreak, "x\0").written == []
      && DrawTextCall(font, lineBreak, "x\0").vboBytes == -24
  {
    var font := map['x' := [Point(lineBreak, 0)]];
    assert CString("x\0") == "x" by {
      assert "x\0"[1..] == "\0";
    }
    LoneBreakIsNegative(lineBreak, 0);
    assert "x"[..0] == [];
    assert TotalLines(font, lineBreak, "x") == -2;
  }

  /** The sizing pass: walk the string up to its NUL, summing the glyph counts
      into `total_lines` and the byte size into `vbo_size`. */
  method SizeText(font: FontTable, lineBreak: int, str: seq<char>) returns (totalLines: int, vboSize: int)
    requires '\0' in str
    requires HasGlyphs(font, CString(str))
    ensures totalLines == TotalLines(font, lineBreak, CString(str))
    ensures vboSize == 6 * totalLines * ShortBytes
  {
    ghost var text := CString(str);
    totalLines := 0;
    vboSize := 0;
    var k := 0;
    while str[k] != '\0'
      invariant 0 <= k <= |text|
      invariant totalLines == TotalLines(font, lineBreak, text[..k])
      invariant vboSize == 6 * totalLines * ShortBytes
      decreases |text| - k
    {
      assert text[..k + 1][..k] == text[..k];
      var nLines := GetLinesInGlyph(font[str[k]], lineBreak);
      vboSize := vboSize + 6 * nLines * ShortBytes;
      totalLines := totalLines + nLines;
      k := k + 1;
    }
    assert text[..k] == text;
  }

  /** One step of the filling pass: character k adds its glyph's vertices at slot
      k, and the text so far never has more segments than the whole text. */
  lemma {:induction false} TextStep(font: FontTable, lineBreak: int, text: seq<char>, scale: int, k: nat)
    requires HasGlyphs(font, text) && k < |text|
    ensures TextVertices(font, lineBreak, text[..k + 1], scale)
         == TextVertices(font, lineBreak, text[..k], scale) + GlyphVertices(font[text[k]], lineBreak, scale, k)
    ensures TextVertices(font, lineBreak, text[..k + 1], scale) <= TextVertices(font, lineBreak, text, scale)
    ensures EmittedSegments(font, lineBreak, text[..k + 1])
         == EmittedSegments(font, lineBreak, text[..k]) + |SegmentStarts(font[text[k]], lineBreak)|
    ensures EmittedSegments(font, lineBreak, text[..k + 1]) <= EmittedSegments(font, lineBreak, text)
  {
    var t := text[..k + 1];
    assert t[..k] == text[..k] && t[k] == text[k];
    TextPrefix(font, lineBreak, text, scale, k + 1);
  }

  /** Generates one glyph right after the shorts `w` already written, keeping them. */
  method AppendGlyph(g: Glyph, lineBreak: int, verts: array<int>, cur: nat, ghost w: seq<int>, slot: int)
    returns (next: nat)
    requires FitsShort(slot)
    requires cur + 6 * |SegmentStarts(g, lineBreak)| <= verts.Length
    requires verts[..cur] == w
    modifies verts
    ensures next == cur + 6 * |SegmentStarts(g, lineBreak)|
    ensures verts[..next] == w + Flatten(GlyphVertices(g, lineBreak, Scale, slot))
  {
    next := GenerateVertsForGlyph(g, lineBreak, verts, cur, Scale, slot);
    assert verts[..cur] == w by {
      assert forall i | 0 <= i < cur :: verts[..cur][i] == old(verts[..cur])[i];
    }
    assert verts[..next] == verts[..cur] + verts[cur..next];
  }

  /** The filling pass: run the generator on character k with slot k, each call
      continuing at the cursor the previous one returned. */
  method FillText(font: FontTable, lineBreak: int, str: seq<char>, verts: array<int>) returns (end: nat)
    requires '\0' in str
    requires HasGlyphs(font, CString(str))
    requires FitsShort(|CString(str)| - 1)
    requires 6 * EmittedSegments(font, lineBreak, CString(str)) <= verts.Length
    modifies verts
    ensures end == 6 * EmittedSegments(font, lineBreak, CString(str))
    ensures verts[..end] == Flatten(TextVertices(font, lineBreak, CString(str), Scale))
  {
    ghost var text := CString(str);
    var cur := 0;
    var k := 0;
    while str[k] != '\0'
      invariant 0 <= k <= |text|
      invariant EmittedSegments(font, lineBreak, text[..k]) <= EmittedSegments(font, lineBreak, text)
      invariant cur == 6 * EmittedSegments(font, lineBreak, text[..k])
      invariant verts[..cur] == Flatten(TextVertices(font, lineBreak, text[..k], Scale))
      decreases |text| - k
    {
      TextStep(font, lineBreak, text, Scale, k);
      ghost var done := TextVertices(font, lineBreak, text[..k], Scale);
      ghost var glyph := GlyphVertices(font[text[k]], lineBreak, Scale, k);
      cur := AppendGlyph(font[str[k]], lineBreak, verts, cur, Flatten(done), k);
      FlattenAppend(done, glyph);
      k := k + 1;
    }
    assert text[..k] == text;
    end := cur;
  }

  /** `draw_text`'s two passes over a NUL-terminated string, for a text whose
      glyphs all have well-placed breaks (otherwise it writes more than `vbo_size`
      pays for, an out-of-bounds write as soon as one segment is written). */
  method DrawText(font: FontTable, lineBreak: int, str: seq<char>)
    returns (verts: array<int>, vboBytes: int, drawCount: int)
    requires '\0' in str
    requires HasGlyphs(font, CString(str))
    requires AllWellPlaced(font, lineBreak, CString(str))
    requires FitsShort(|CString(str)| - 1)
    requires ShortVertices(TextVertices(font, lineBreak, CString(str), Scale))
    ensures vboBytes == DrawTextCall(font, lineBreak, str).vboBytes
    ensures drawCount == DrawTextCall(font, lineBreak, str).vertexCount
    ensures ShortBytes * verts.Length == vboBytes
    ensures verts[..] == DrawTextCall(font, lineBreak, str).written
    ensures 3 * drawCount == verts.Length
  {
    FillVersusSizing(font, lineBreak, CString(str));
    var totalLines, vboSize := SizeText(font, lineBreak, str);
    verts := new int[vboSize / ShortBytes];
    var end := FillText(font, lineBreak, str, verts);
    assert verts[..] == verts[..end];
    drawCount := totalLines * 2;
    vboBytes := vboSize;
  }
}
