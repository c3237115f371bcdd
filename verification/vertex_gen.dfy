/**
  `generate_verts_for_glyph`: walk the adjacent point pairs of a glyph and, for
  every pair that touches no break marker, write one line segment — two
  vertices of three GLshorts each — placed in the glyph's horizontal slot and
  multiplied by the scale.
 */
module VertexGen {
  import opened Font

  /** One vertex as the draw call reads it: three shorts, `z` always 0. */
  datatype Vertex = Vertex(x: int, y: int, z: int)

  /** The pair (j, j + 1) is a drawable segment: both points exist and neither is a break. */
  predicate Drawable(g: Glyph, lineBreak: int, j: int) {
    0 <= j < |g| - 1 && !IsBreak(g[j], lineBreak) && !IsBreak(g[j + 1], lineBreak)
  }

  /** The first point index of every segment emitted for `g`, in emission order. */
  function SegmentStarts(g: Glyph, lineBreak: int): (r: seq<int>)
    ensures forall k :: 0 <= k < |r| ==> 0 <= r[k] < |g| - 1
  {
    if |g| < 2 then []
    else
      SegmentStarts(g[..|g| - 1], lineBreak) + (if Drawable(g, lineBreak, |g| - 2) then [|g| - 2] else [])
  }

  /** The segments emitted are exactly the drawable pairs, each once, in
      increasing order of their first point. */
  lemma {:induction false} SegmentStartsAreDrawablePairs(g: Glyph, lineBreak: int)
    ensures forall k :: 0 <= k < |SegmentStarts(g, lineBreak)| ==> Drawable(g, lineBreak, SegmentStarts(g, lineBreak)[k])
    ensures forall k, l :: 0 <= k < l < |SegmentStarts(g, lineBreak)| ==> SegmentStarts(g, lineBreak)[k] < SegmentStarts(g, lineBreak)[l]
    ensures forall j :: Drawable(g, lineBreak, j) ==> j in SegmentStarts(g, lineBreak)
  {
    if |g| >= 2 {
      var h := g[..|g| - 1];
      SegmentStartsAreDrawablePairs(h, lineBreak);
      assert forall j :: Drawable(h, lineBreak, j) <==> Drawable(g, lineBreak, j) && j < |g| - 2;
    }
  }

  /** Where point `p` lands: shifted by four font units per slot and twenty to
      the left, then scaled; z is zero. */
  function Place(p: Point, scale: int, slot: int): Vertex {
    Vertex((p.x + 4 * slot - 20) * scale, p.y * scale, 0)
  }

  /** The vertices emitted for `g`, two per drawable pair, pairs in order. */
  function GlyphVertices(g: Glyph, lineBreak: int, scale: int, slot: int): (r: seq<Vertex>)
    ensures |r| == 2 * |SegmentStarts(g, lineBreak)|
  {
    if |g| < 2 then []
    else
      var h := g[..|g| - 1];
      GlyphVertices(h, lineBreak, scale, slot) + LastPair(g, lineBreak, scale, slot)
  }

  /** The vertices contributed by the last pair of `g`, if it is drawable. */
  function LastPair(g: Glyph, lineBreak: int, scale: int, slot: int): seq<Vertex>
    requires |g| >= 2
  {
    if Drawable(g, lineBreak, |g| - 2)
    then [Place(g[|g| - 2], scale, slot), Place(g[|g| - 1], scale, slot)]
    else []
  }

  /** Segment k of the glyph is written as vertices 2k and 2k + 1: the placed
      first and second point of the k-th drawable pair. */
  lemma {:induction false} GlyphVerticesAreSegments(g: Glyph, lineBreak: int, scale: int, slot: int)
    ensures forall k {:trigger SegmentStarts(g, lineBreak)[k]} :: 0 <= k < |SegmentStarts(g, lineBreak)| ==>
      && GlyphVertices(g, lineBreak, scale, slot)[2 * k] == Place(g[SegmentStarts(g, lineBreak)[k]], scale, slot)
      && GlyphVertices(g, lineBreak, scale, slot)[2 * k + 1] == Place(g[SegmentStarts(g, lineBreak)[k] + 1], scale, slot)
  {
    if |g| >= 2 {
      var h := g[..|g| - 1];
      GlyphVerticesAreSegments(h, lineBreak, scale, slot);
      SegmentStartsAreDrawablePairs(g, lineBreak);
      SegmentStartsAreDrawablePairs(h, lineBreak);
      var r := GlyphVertices(g, lineBreak, scale, slot);
      var s := SegmentStarts(g, lineBreak);
      var rh := GlyphVertices(h, lineBreak, scale, slot);
      var sh := SegmentStarts(h, lineBreak);
      assert r == rh + LastPair(g, lineBreak, scale, slot);
      assert s == sh + (if Drawable(g, lineBreak, |g| - 2) then [|g| - 2] else []);
      forall k | 0 <= k < |s|
        ensures r[2 * k] == Place(g[s[k]], scale, slot) && r[2 * k + 1] == Place(g[s[k] + 1], scale, slot)
      {
        if k < |sh| {
          assert |rh| == 2 * |sh|;
          assert s[k] == sh[k];
          assert rh[2 * k] == Place(h[sh[k]], scale, slot) && rh[2 * k + 1] == Place(h[sh[k] + 1], scale, slot);
          assert r[2 * k] == rh[2 * k] && r[2 * k + 1] == rh[2 * k + 1];
          assert h[sh[k]] == g[sh[k]] && h[sh[k] + 1] == g[sh[k] + 1];
        } else {
          assert Drawable(g, lineBreak, |g| - 2) && s[k] == |g| - 2 && 2 * k == |rh|;
          assert r[2 * k] == LastPair(g, lineBreak, scale, slot)[0];
          assert r[2 * k + 1] == LastPair(g, lineBreak, scale, slot)[1];
        }
      }
    }
  }

  /** The shorts a vertex sequence occupies in the buffer, three per vertex. */
  function Flatten(vs: seq<Vertex>): (r: seq<int>)
    ensures |r| == 3 * |vs|
  {
    if |vs| == 0 then []
    else
      var v := vs[|vs| - 1];
      Flatten(vs[..|vs| - 1]) + [v.x, v.y, v.z]
  }

  /** Vertex i occupies shorts 3i, 3i + 1 and 3i + 2, in the order x, y, z. */
  lemma {:induction false} FlattenAt(vs: seq<Vertex>)
    ensures forall i :: 0 <= i < |vs| ==>
              Flatten(vs)[3 * i] == vs[i].x && Flatten(vs)[3 * i + 1] == vs[i].y && Flatten(vs)[3 * i + 2] == vs[i].z
  {
    if |vs| > 0 {
      var u := vs[..|vs| - 1];
      FlattenAt(u);
      assert forall i | 0 <= i < |u| :: u[i] == vs[i];
    }
  }

  /** How the draw call reads a buffer: consecutive groups of three shorts. */
  function VerticesOf(buf: seq<int>): (vs: seq<Vertex>)
    requires |buf| % 3 == 0
    ensures |vs| * 3 == |buf|
  {
    if |buf| == 0 then []
    else VerticesOf(buf[..|buf| - 3]) + [Vertex(buf[|buf| - 3], buf[|buf| - 2], buf[|buf| - 1])]
  }

  /** Reading back what was written gives the vertices that were written. */
  lemma {:induction false} VerticesOfFlatten(vs: seq<Vertex>)
    ensures VerticesOf(Flatten(vs)) == vs
  {
    if |vs| > 0 {
      var f := Flatten(vs);
      assert f[..|f| - 3] == Flatten(vs[..|vs| - 1]);
      VerticesOfFlatten(vs[..|vs| - 1]);
    }
  }

  /** Flattening distributes over concatenation of vertex sequences. */
  lemma {:induction false} FlattenAppend(vs: seq<Vertex>, ws: seq<Vertex>)
    ensures Flatten(vs + ws) == Flatten(vs) + Flatten(ws)
    decreases |ws|
  {
    if |ws| > 0 {
      var u := ws[..|ws| - 1];
      assert (vs + ws)[..|vs + ws| - 1] == vs + u;
      FlattenAppend(vs, u);
    } else {
      assert vs + ws == vs;
    }
  }

  /** The segments of a prefix of `g` are a prefix of the segments of `g`, and so
      are its vertices. */
  lemma {:induction false} PrefixVertices(g: Glyph, lineBreak: int, scale: int, slot: int, m: nat)
    requires m <= |g|
    ensures SegmentStarts(g[..m], lineBreak) <= SegmentStarts(g, lineBreak)
    ensures GlyphVertices(g[..m], lineBreak, scale, slot) <= GlyphVertices(g, lineBreak, scale, slot)
    decreases |g| - m
  {
    if m == |g| {
      assert g[..m] == g;
    } else {
      var h := g[..|g| - 1];
      assert h[..m] == g[..m];
      PrefixVertices(h, lineBreak, scale, slot, m);
      if |g| < 2 {
        assert m == 0;
      }
    }
  }

  /** One slot further right moves a placed point by 4 * scale in x only. */
  lemma PlaceShift(p: Point, scale: int, slot: int)
    ensures Place(p, scale, slot + 1) == Vertex(Place(p, scale, slot).x + 4 * scale, Place(p, scale, slot).y, 0)
  {
  }

  /** Moving a glyph one slot to the right moves every emitted x by four font
      units times the scale and leaves y and z alone. */
  lemma {:induction false} ShiftSlot(g: Glyph, lineBreak: int, scale: int, slot: int)
    ensures var a := GlyphVertices(g, lineBreak, scale, slot);
      var b := GlyphVertices(g, lineBreak, scale, slot + 1);
      && |b| == |a|
      && forall i :: 0 <= i < |a| ==> b[i] == Vertex(a[i].x + 4 * scale, a[i].y, a[i].z)
  {
    if |g| >= 2 {
      var h := g[..|g| - 1];
      ShiftSlot(h, lineBreak, scale, slot);
      PlaceShift(g[|g| - 2], scale, slot);
      PlaceShift(g[|g| - 1], scale, slot);
    }
  }

  /** A three-point glyph without breaks at slot 0 and scale 1 yields its two
      strokes, each shifted twenty units to the left. */
  lemma ThreePointGlyph(lineBreak: int)
    requires lineBreak !in {0, 5, 10}
    ensures var g := [Point(0, 0), Point(5, 10), Point(10, 0)];
      GlyphVertices(g, lineBreak, 1, 0)
        == [Vertex(-20, 0, 0), Vertex(-15, 10, 0), Vertex(-15, 10, 0), Vertex(-10, 0, 0)]
  {
  }

  /** One step of the generator's walk: extending the walked prefix by the next
      point adds the pair (j, j + 1) if it is drawable, and nothing otherwise. */
  lemma {:induction false} WalkStep(g: Glyph, lineBreak: int, scale: int, slot: int, j: nat)
    requires j + 1 < |g|
    ensures GlyphVertices(g[..j + 2], lineBreak, scale, slot)
         == GlyphVertices(g[..j + 1], lineBreak, scale, slot)
            + (if Drawable(g, lineBreak, j) then [Place(g[j], scale, slot), Place(g[j + 1], scale, slot)] else [])
    ensures |SegmentStarts(g[..j + 2], lineBreak)| <= |SegmentStarts(g, lineBreak)|
  {
    var d := g[..j + 2];
    assert d[..|d| - 1] == g[..j + 1];
    assert d[j] == g[j] && d[j + 1] == g[j + 1];
    PrefixVertices(g, lineBreak, scale, slot, j + 2);
  }

  /** The six shorts of one segment from `a` to `b`. */
  lemma {:induction false} FlattenPair(a: Vertex, b: Vertex)
    ensures Flatten([a, b]) == [a.x, a.y, a.z, b.x, b.y, b.z]
  {
  }

  /** Stores one segment's six shorts at `cur` and touches nothing else. */
  method StoreSegment(buf: array<int>, cur: nat, a: Vertex, b: Vertex)
    requires cur + 6 <= buf.Length
    modifies buf
    ensures buf[cur..cur + 6] == [a.x, a.y, a.z, b.x, b.y, b.z]
    ensures forall i :: 0 <= i < buf.Length && !(cur <= i < cur + 6) ==> buf[i] == old(buf[i])
  {
    buf[cur] := a.x;
    buf[cur + 1] := a.y;
    buf[cur + 2] := a.z;
    buf[cur + 3] := b.x;
    buf[cur + 4] := b.y;
    buf[cur + 5] := b.z;
  }

  /** Writes one segment's six shorts at `cur`, just after the vertices `vs`
      already written from `cursor`, and touches nothing else. */
  method WriteSegment(buf: array<int>, cursor: nat, cur: nat, ghost vs: seq<Vertex>, a: Vertex, b: Vertex)
    requires cursor <= cur && cur + 6 <= buf.Length
    requires buf[cursor..cur] == Flatten(vs)
    modifies buf
    ensures buf[cursor..cur + 6] == Flatten(vs + [a, b])
    ensures forall i :: 0 <= i < buf.Length && !(cur <= i < cur + 6) ==> buf[i] == old(buf[i])
  {
    ghost var w := buf[cursor..cur];
    StoreSegment(buf, cur, a, b);
    assert buf[cursor..cur] == w by {
      assert forall k | 0 <= k < cur - cursor :: buf[cursor..cur][k] == buf[cursor + k];
    }
    assert buf[cursor..cur + 6] == buf[cursor..cur] + buf[cur..cur + 6];
    FlattenPair(a, b);
    FlattenAppend(vs, [a, b]);
  }

  /** One iteration of the generator's loop at pair (j, j + 1): skip the pair if
      it touches a break, otherwise write its segment and advance the cursor. */
  method GenerateStep(g: Glyph, lineBreak: int, buf: array<int>, cursor: nat, cur: nat, j: nat,
                      ghost vs: seq<Vertex>, scale: int, slot: int)
    returns (cur': nat, ghost vs': seq<Vertex>)
    requires j + 1 < |g|
    requires vs == GlyphVertices(g[..j + 1], lineBreak, scale, slot)
    requires cursor + 6 * |SegmentStarts(g, lineBreak)| <= buf.Length
    requires |vs| <= 2 * |SegmentStarts(g, lineBreak)|
    requires cur == cursor + 3 * |vs|
    requires buf[cursor..cur] == Flatten(vs)
    modifies buf
    ensures vs' == GlyphVertices(g[..j + 2], lineBreak, scale, slot)
    ensures |vs'| <= 2 * |SegmentStarts(g, lineBreak)|
    ensures cur <= cur' == cursor + 3 * |vs'|
    ensures buf[cursor..cur'] == Flatten(vs')
    ensures forall i :: 0 <= i < buf.Length && !(cur <= i < cur') ==> buf[i] == old(buf[i])
  {
    WalkStep(g, lineBreak, scale, slot, j);
    if g[j].x == lineBreak || g[j + 1].x == lineBreak {
      assert !Drawable(g, lineBreak, j);
      cur', vs' := cur, vs;
    } else {
      assert Drawable(g, lineBreak, j);
      var a := Place(g[j], scale, slot);
      var b := Place(g[j + 1], scale, slot);
      WriteSegment(buf, cursor, cur, vs, a, b);
      cur', vs' := cur + 6, vs + [a, b];
    }
  }

  /** `generate_verts_for_glyph` over a shared short buffer: writes the glyph's
      segments at `cursor` and returns the cursor just past them; nothing
      outside that range changes. */
  method GenerateVertsForGlyph(g: Glyph, lineBreak: int, buf: array<int>, cursor: nat,
                               scale: int, slot: int) returns (next: nat)
    requires FitsShort(scale) && FitsShort(slot)
    requires cursor + 6 * |SegmentStarts(g, lineBreak)| <= buf.Length
    modifies buf
    ensures next == cursor + 6 * |SegmentStarts(g, lineBreak)|
    ensures buf[cursor..next] == Flatten(GlyphVertices(g, lineBreak, scale, slot))
    ensures forall i :: 0 <= i < buf.Length && !(cursor <= i < next) ==> buf[i] == old(buf[i])
  {
    var nPoints := |g|;
    var cur := cursor;
    var j := 0;
    ghost var vs: seq<Vertex> := [];
    while j < nPoints - 1
      invariant nPoints == 0 ==> j == 0 && vs == []
      invariant nPoints > 0 ==> 0 <= j < nPoints && vs == GlyphVertices(g[..j + 1], lineBreak, scale, slot)
      invariant |vs| <= 2 * |SegmentStarts(g, lineBreak)|
      invariant cur == cursor + 3 * |vs|
      invariant buf[cursor..cur] == Flatten(vs)
      invariant forall i :: 0 <= i < buf.Length && !(cursor <= i < cur) ==> buf[i] == old(buf[i])
    {
      cur, vs := GenerateStep(g, lineBreak, buf, cursor, cur, j, vs, scale, slot);
      j := j + 1;
    }
    if nPoints > 0 {
      assert g[..j + 1] == g;
    }
    next := cur;
  }
}
