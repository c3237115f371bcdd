# Stroke-font text to line segments

This project models the geometry core of `hello_world.c`: the stroke-font-to-line-segment transform. A glyph is a polyline of integer points. A point whose x equals the font's `LINE_BREAK` marker lifts the pen.

The transform has three parts:

- `get_lines_in_glyph` sizes a glyph as `(npoints - 1) - 2 * breaks`. An empty glyph is sized 0.
- `generate_verts_for_glyph` writes one segment for every adjacent pair of points that touches no break. A segment is six `GLshort`s: two `(x, y, 0)` vertices, shifted by the character's slot and multiplied by the scale. It returns the advanced buffer cursor.
- `draw_text` makes two passes over a NUL-terminated string. The first pass sums the sizes and allocates the buffer. The second fills it, with character `k` at slot `k` and scale 1000. The draw call then reads `2 * total_lines` vertices.

The main result relates sizing and filling. For a non-empty glyph, the number of segments emitted equals the size reserved plus a surplus. The surplus is one for a break in first place, one for a break in last place, and one for each pair of adjacent breaks (`Sizing.EmittedIsLinesPlusSurplus`). So the generator never writes less than was reserved. It writes exactly that much iff every break is an interior point and no two breaks are adjacent (`Sizing.EmittedVersusLines`).

Summed over a string, the filling pass writes more shorts than `vbo_size` bytes pay for iff some glyph of the string is not well placed. When every glyph is well placed, the draw call reads exactly the vertices that were written (`TextDraw.DrawTextFitsIffWellPlaced`). A glyph with a break in first or last place is enough to tip the balance: that break makes the surplus at least one (`Sizing.EmittedIsLinesPlusSurplus`), and over a text the fill then exceeds `total_lines` (`TextDraw.FillVersusSizing`). `Sizing.LeadingBreakOverruns` illustrates this with a three-point glyph.

The excess is an out-of-bounds write whenever at least one segment is written: past the allocation, or through the null pointer `malloc` returns when `vbo_size` is negative. When nothing is written, nothing overruns, even though `vbo_size` may be negative. A text whose only glyph is a lone break shows this: it writes nothing and `vbo_size` is −24 (`TextDraw.LoneBreakTextWritesNothing`).

Modules, one per file:

- `Font` (`font.dfy`): points, glyphs, the font table, break counting.
- `LineCount` (`line_count.dfy`): `get_lines_in_glyph`.
- `VertexGen` (`vertex_gen.dfy`): `generate_verts_for_glyph` and the buffer layout.
- `Sizing` (`sizing.dfy`): how the sizing formula compares with what the generator emits.
- `TextDraw` (`draw_text.dfy`): the two passes of `draw_text` and the resulting draw call.

`LINE_BREAK` and the point struct are defined in headers that are not part of this model. The marker is therefore the parameter `lineBreak` of every operation, and nothing is assumed about its value. The font is a map from character to glyph.

Two behaviours of the code are worth stating up front:

- `get_lines_in_glyph` does not clamp its result, so a glyph that is a lone break is sized −2 (`LineCount.LoneBreakIsNegative`).
- `font[*curr_c]` is indexed without a check, so every character of the text is required to have a glyph.

## Model

| member | source | states |
|---|---|---|
| Font.BreakCountIsCardinality | hello_world.c:149-154 | the running break count of the loop equals the number of positions whose x is the line-break marker |
| LineCount.LinesInGlyph | hello_world.c:147-160 | the reserved segment count is 0 for an empty glyph and otherwise (points − 1) − 2 × (number of break positions), with no clamping |
| LineCount.GetLinesInGlyph | hello_world.c:147-160 | the counting loop followed by the formula returns exactly the reserved segment count above |
| LineCount.LoneBreakIsNegative | hello_world.c:155-158 | a glyph that is a single break marker is sized at −2 segments |
| VertexGen.SegmentStarts | hello_world.c:165-169 | every emitted segment starts at a pair index j with j + 1 still inside the glyph |
| VertexGen.SegmentStartsAreDrawablePairs | hello_world.c:165-168 | the emitted segments are exactly the adjacent pairs (j, j + 1) with neither point a break, each once, in increasing j |
| VertexGen.GlyphVertices | hello_world.c:165-184 | the generator emits two vertices per drawable pair and nothing else |
| VertexGen.GlyphVerticesAreSegments | hello_world.c:171-177 | segment k is vertices 2k and 2k + 1: point j placed at ((x + 4·slot − 20)·scale, y·scale, 0), then point j + 1 placed the same way |
| VertexGen.FlattenAt | hello_world.c:171-177 | each vertex occupies three consecutive shorts in the order x, y, z |
| VertexGen.VerticesOf | hello_world.c:223-225 | the draw call reads the buffer as one vertex per three shorts |
| VertexGen.VerticesOfFlatten | hello_world.c:223-225 | reading the written shorts back three at a time gives exactly the vertices that were written |
| VertexGen.PlaceShift | hello_world.c:171-175 | one slot further right adds 4·scale to a placed x and leaves y and z unchanged |
| VertexGen.ShiftSlot | hello_world.c:171-177 | raising the slot by one shifts every emitted x by 4·scale and keeps every y, every z and the vertex count |
| VertexGen.ThreePointGlyph | hello_world.c:171-177 | the glyph (0,0),(5,10),(10,0) at slot 0 and scale 1 yields (−20,0,0),(−15,10,0),(−15,10,0),(−10,0,0) |
| VertexGen.StoreSegment | hello_world.c:171-177 | the six stores put the two vertices' x, y, z at offsets 0 to 5 from the cursor and change no other short |
| VertexGen.WriteSegment | hello_world.c:171-177 | one segment writes its six shorts at the cursor and nothing else |
| VertexGen.GenerateStep | hello_world.c:165-183 | one loop iteration skips a pair that touches a break and otherwise appends its segment at the cursor and advances it by six |
| VertexGen.GenerateVertsForGlyph | hello_world.c:162-187 | the returned cursor is buf + 6 × (emitted segments), the range from buf holds the emitted vertices, and nothing outside it changes |
| Sizing.EmittedIsLinesPlusSurplus | hello_world.c:158-168 | for a non-empty glyph, emitted segments = reserved count + [first point is a break] + [last point is a break] + number of adjacent break pairs |
| Sizing.SurplusZeroIffWellPlaced | hello_world.c:165-168 | the surplus is zero iff every break is interior and no two breaks are adjacent |
| Sizing.EmittedVersusLines | hello_world.c:158-168 | emitted segments are never fewer than reserved, and equal iff the glyph's breaks are well placed |
| Sizing.LeadingBreakOverruns | hello_world.c:158-168 | a break as first of three points reserves 0 segments while the generator emits 1 |
| Sizing.BreakSkipping | hello_world.c:147-168 | for (0,0), break, (1,1), (2,2) one segment is reserved and only the pair starting at index 2 is emitted |
| TextDraw.CString | hello_world.c:195-201 | the characters walked are those before the first NUL, which ends the walk |
| TextDraw.TextVertices | hello_world.c:207-211 | the filling pass writes two vertices per emitted segment over the whole text |
| TextDraw.FillVersusSizing | hello_world.c:195-211 | over a text, segments written ≥ total_lines, with equality iff every glyph of the text is well placed |
| TextDraw.CharacterSlot | hello_world.c:207-211 | character k's vertices are its glyph at slot k, placed right after the vertices of the characters before it |
| TextDraw.DrawTextCall | hello_world.c:189-225 | the draw call's vertex count is 2 × total_lines and the shorts written are 6 per emitted segment |
| TextDraw.DrawTextFitsIffWellPlaced | hello_world.c:199-225 | 2 × shorts written ≥ vbo_size; the fill writes no more shorts than `vbo_size` bytes pay for iff all glyphs are well placed, and then 3 × draw count = shorts written and the draw call reads back exactly the written vertices |
| TextDraw.LoneBreakTextWritesNothing | hello_world.c:195-211 | a text whose only glyph is a lone break is not well placed, yet it writes no short while `vbo_size` is −24 |
| TextDraw.SizeText | hello_world.c:195-202 | the sizing pass yields total_lines = sum of per-glyph counts up to the NUL and vbo_size = 6 × total_lines × sizeof(GLshort) |
| TextDraw.AppendGlyph | hello_world.c:209 | one generator call advances the cursor by 6 × the glyph's emitted segments, keeps what was written before and appends the glyph's flattened vertices at scale 1000 |
| TextDraw.FillText | hello_world.c:204-211 | the filling pass leaves the cursor at 6 × emitted segments with character k's glyph generated at slot k and scale 1000 |
| TextDraw.DrawText | hello_world.c:189-225 | for well-placed glyphs, the allocation is exactly vbo_size, its contents are the text's vertices, and the draw count covers exactly the vertices in the buffer |

## Left out

- SDL window and context setup (`sdl_init`), shader loading and linking (`load_shader_file`, `graph_init`) and `get_file_contents`: calls into a graphics API and file I/O, with no logic to state.
- The GL upload and draw calls of `draw_text` (`glGenBuffers` to `SDL_GL_SwapWindow`): only the buffer contents, its byte size and the vertex count handed to them are modelled.
- `snis_make_font` and the `ascii_font` table: defined in headers that are not part of this model, and built with floating-point scaling. The font is a parameter.
- All `printf` tracing.
- Narrowing to `GLshort`: converting an out-of-range int is implementation-defined in C. Coordinates are computed as unbounded integers. `TextDraw.DrawText` requires every coordinate to fit in [−32768, 32767].
- VertexGen.GenerateVertsForGlyph: `scale` and `glyph_offset` are C `short`s, so the method requires both to fit in a short. `TextDraw.DrawText` therefore requires the text to be at most 32768 characters long, so that `curr_c - str` fits.
- TextDraw.DrawText: requires every glyph of the text to be well placed. Otherwise the filling pass writes more shorts than `vbo_size` bytes pay for. That is an out-of-bounds write, and so undefined behaviour, as soon as one segment is written: past the allocation, or through the null pointer `malloc` returns when `vbo_size` is negative. The requires also excludes the harmless case where nothing is written and `vbo_size` is negative. What any text would write is still modelled, by `TextDraw.DrawTextCall` and `TextDraw.DrawTextFitsIffWellPlaced`.
- The size arithmetic of `draw_text`: `6 * n_lines * sizeof(GLshort)` is evaluated in `size_t`. A negative `n_lines` therefore wraps, and the sum is converted back to the `int` `vbo_size`, which is implementation-defined. `TextDraw.SizeText`'s `vbo_size == 6 × total_lines × 2` matches the usual modular two's-complement conversion. Overflow of `total_lines` or `vbo_size` for an enormous text is not modelled either.
- `malloc` failure, and the conversion of a negative `vbo_size` to `size_t`: not modelled. With well-placed glyphs `vbo_size` is never negative.
- Signed `char` indexing into the font array: characters are looked up in a map.
