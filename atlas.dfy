/** The generator's main loop, src/main.c: the working sizes derived from the arguments, the
    single zeroed allocation carved into the six buffers, the row ("shelf") packing of each
    glyph's downsampled field into the output canvas, and the font info file the placements are
    written to. The rasteriser, calc_df's fusion into bytes and the resampler are inputs: each
    glyph arrives with the coverage the rasteriser draws and the field the resampler returns. */
module Atlas {
  import opened Wrappers
  import opened CString
  import opened DistanceField

  /** The characters rendered, '!' to '~' (lines 14-16). */
  const FIRST_CHAR: int := 33
  const LAST_CHAR: int := 126
  const NUM_CHARS: int := LAST_CHAR - FIRST_CHAR + 1

  // ---------------------------------------------------------------------------------------
  // Working sizes (lines 46-55, 61)

  /** The sizes main derives: the supersampled working buffer df.w x df.h and its spread, the
      downsampled buffer down_w x down_h, and dim, the length of the envelope stacks. */
  datatype Sizes = Sizes(dfW: nat, dfH: nat, dfSpread: nat, downW: nat, downH: nat, dim: nat)

  /** maxW x maxH is the largest glyph of the font at ppem * scale. Every value here is
      non-negative, where C's integer division agrees with Dafny's. */
  function WorkingSizes(maxW: nat, maxH: nat, spread: nat, scale: nat): (s: Sizes)
    requires scale > 0
    ensures s.downW == s.dfW / scale && s.downH == s.dfH / scale
    ensures s.dim >= s.dfW && s.dim >= s.dfH && (s.dim == s.dfW || s.dim == s.dfH)
  {
    var spreadSize := 2 * spread;
    var dfW := maxW + scale * spreadSize;
    var dfH := maxH + scale * spreadSize;
    DivShift(maxW, spreadSize, scale);
    DivShift(maxH, spreadSize, scale);
    Sizes(dfW, dfH, scale * spread, maxW / scale + spreadSize, maxH / scale + spreadSize,
          if dfW > dfH then dfW else dfH)
  }

  /** The working buffer is the largest glyph with the working spread on each side. */
  lemma SpreadOnEachSide(maxW: nat, maxH: nat, spread: nat, scale: nat)
    requires scale > 0
    ensures var s := WorkingSizes(maxW, maxH, spread, scale);
            && s.dfSpread == scale * spread
            && s.dfW == maxW + 2 * s.dfSpread && s.dfH == maxH + 2 * s.dfSpread
  {
    assert scale * (2 * spread) == 2 * (scale * spread);
  }

  lemma DivShift(a: nat, k: nat, scale: nat)
    requires scale > 0
    ensures (a + scale * k) / scale == a / scale + k
  {
    var q, r := a / scale, a % scale;
    assert a + scale * k == (q + k) * scale + r;
    DivUnique(a + scale * k, scale, q + k, r);
  }

  /** The quotient and remainder of a non-negative division are the only ones. */
  lemma DivUnique(n: nat, d: nat, q: nat, r: nat)
    requires d > 0 && r < d && n == q * d + r
    ensures n / d == q
  {
    var q0, r0 := n / d, n % d;
    if q0 < q {
      MulMono(q0 + 1, q, d);
      assert false;
    } else if q < q0 {
      MulMono(q + 1, q0, d);
      assert false;
    }
  }

  /** Both envelope stacks hold a line of either pass: the DF buffers can be built on them. */
  lemma StacksHoldEveryLine(maxW: nat, maxH: nat, spread: nat, scale: nat)
    requires scale > 0
    ensures WorkingSizes(maxW, maxH, spread, scale).dim
            == Max(WorkingSizes(maxW, maxH, spread, scale).dfW, WorkingSizes(maxW, maxH, spread, scale).dfH)
  {
  }

  /** glyph_w and glyph_h (lines 117-118): a glyph's downsampled size, its spread included. */
  datatype Size = Size(w: nat, h: nat)

  function GlyphSize(sizeX: nat, sizeY: nat, spread: nat, scale: nat): Size
    requires scale > 0
  {
    Size(sizeX / scale + 2 * spread, sizeY / scale + 2 * spread)
  }

  lemma DivMono(a: nat, b: nat, scale: nat)
    requires scale > 0 && a <= b
    ensures a / scale <= b / scale
  {
    var qa, qb := a / scale, b / scale;
    if qb < qa {
      MulMono(qb + 1, qa, scale);
      assert false;
    }
  }

  /** A glyph no larger than the font's largest is no larger than the downsampled buffer, so
      the rows the blit copies lie inside it. */
  lemma GlyphFitsDown(sizeX: nat, sizeY: nat, maxW: nat, maxH: nat, spread: nat, scale: nat)
    requires scale > 0 && sizeX <= maxW && sizeY <= maxH
    ensures GlyphSize(sizeX, sizeY, spread, scale).w <= WorkingSizes(maxW, maxH, spread, scale).downW
    ensures GlyphSize(sizeX, sizeY, spread, scale).h <= WorkingSizes(maxW, maxH, spread, scale).downH
  {
    DivMono(sizeX, maxW, scale);
    DivMono(sizeY, maxH, scale);
  }

  // ---------------------------------------------------------------------------------------
  // The single allocation (lines 59-78)

  /** A byte range [start, start + size) of the allocation. */
  datatype Region = Region(start: nat, size: nat)

  function End(r: Region): nat {
    r.start + r.size
  }

  /** The regions follow one another from offset 0 and end at total. */
  predicate Tiles(rs: seq<Region>, total: nat) {
    && |rs| > 0 && rs[0].start == 0 && End(rs[|rs| - 1]) == total
    && forall k :: 0 <= k < |rs| - 1 ==> rs[k + 1].start == End(rs[k])
  }

  /** sizeof(float) and sizeof(Vec2). */
  const FLOAT_SIZE: nat := 4
  const VEC2_SIZE: nat := 8

  /** The byte sizes of dists, xinters, verts, df.pixels, down_pixels and out_pixels
      (lines 62-67), in the order they are carved. */
  function RegionSizes(s: Sizes, outW: nat, outH: nat): seq<nat> {
    [s.dfW * s.dfH * FLOAT_SIZE, s.dim * FLOAT_SIZE, s.dim * VEC2_SIZE, s.dfW * s.dfH, s.downW * s.downH, outW * outH]
  }

  /** Lines 60-77: the size of the calloc block and where each buffer starts, by accumulating
      `off +=`. The six regions tile the block, each of the size it was asked for. */
  method CarveBlock(s: Sizes, outW: nat, outH: nat) returns (total: nat, regions: seq<Region>)
    ensures |regions| == 6 && Tiles(regions, total)
    ensures forall k :: 0 <= k < 6 ==> regions[k].size == RegionSizes(s, outW, outH)[k]
  {
    var distsSize := s.dfW * s.dfH * FLOAT_SIZE;
    var xintersSize := s.dim * FLOAT_SIZE;
    var vertsSize := s.dim * VEC2_SIZE;
    var dfPixelsSize := s.dfW * s.dfH;
    var downPixelsSize := s.downW * s.downH;
    var outPixelsSize := outW * outH;
    total := distsSize + xintersSize + vertsSize + dfPixelsSize + downPixelsSize + outPixelsSize;
    var off := 0;
    var dists := off;
    off := off + distsSize;
    var xinters := off;
    off := off + xintersSize;
    var verts := off;
    off := off + vertsSize;
    var pixels := off;
    off := off + dfPixelsSize;
    var down := off;
    off := off + downPixelsSize;
    var out := off;
    regions := [Region(dists, distsSize), Region(xinters, xintersSize), Region(verts, vertsSize),
                Region(pixels, dfPixelsSize), Region(down, downPixelsSize), Region(out, outPixelsSize)];
  }

  lemma {:induction false} TilesOrdered(rs: seq<Region>, total: nat, k: nat, l: nat)
    requires Tiles(rs, total) && k < l < |rs|
    ensures End(rs[k]) <= rs[l].start
    decreases l - k
  {
    if k + 1 < l {
      TilesOrdered(rs, total, k + 1, l);
    }
  }

  lemma {:induction false} TilesEnd(rs: seq<Region>, total: nat, k: nat)
    requires Tiles(rs, total) && k < |rs|
    ensures End(rs[k]) <= total
    decreases |rs| - k
  {
    if k + 1 < |rs| {
      TilesEnd(rs, total, k + 1);
    }
  }

  /** Regions that tile a block are pairwise disjoint and cover it: every byte of the block
      lies in exactly one of them. */
  lemma TilesPartition(rs: seq<Region>, total: nat, p: nat)
    requires Tiles(rs, total) && p < total
    ensures exists k :: 0 <= k < |rs| && rs[k].start <= p < End(rs[k])
    ensures forall k, l :: 0 <= k < l < |rs| && rs[k].start <= p < End(rs[k]) ==> !(rs[l].start <= p < End(rs[l]))
  {
    forall k, l | 0 <= k < l < |rs| ensures End(rs[k]) <= rs[l].start {
      TilesOrdered(rs, total, k, l);
    }
    var k := FindRegion(rs, total, p, 0);
  }

  lemma {:induction false} FindRegion(rs: seq<Region>, total: nat, p: nat, k: nat) returns (j: nat)
    requires Tiles(rs, total) && p < total && k < |rs| && rs[k].start <= p
    ensures j < |rs| && rs[j].start <= p < End(rs[j])
    decreases |rs| - k
  {
    if p < End(rs[k]) {
      j := k;
    } else {
      assert k + 1 < |rs|;
      j := FindRegion(rs, total, p, k + 1);
    }
  }

  // ---------------------------------------------------------------------------------------
  // Shelf packing (lines 80-82, 116-147)

  /** args.padding: left, right, top, bottom. */
  datatype Padding = Padding(left: nat, right: nat, top: nat, bottom: nat)

  /** A glyph's place in the canvas. */
  datatype Rect = Rect(x: nat, y: nat, w: nat, h: nat)

  /** x, y and largest_h. */
  datatype Cursor = Cursor(x: nat, y: nat, largestH: nat)

  /** Lines 80-82. */
  function Start(pad: Padding): Cursor {
    Cursor(pad.left, pad.top, 0)
  }

  /** Lines 125-129: a glyph too wide for the rest of the row starts a new row below the
      tallest glyph of this one. */
  function Wrap(c: Cursor, s: Size, outW: nat, pad: Padding): (c': Cursor)
    ensures c.x + s.w <= outW ==> c' == c
    ensures c.x + s.w > outW ==> c'.x == pad.left && c'.largestH == 0 && c'.y >= c.y + c.largestH
  {
    if c.x + s.w > outW then Cursor(pad.left, c.y + c.largestH + pad.top + pad.bottom, 0) else c
  }

  /** Lines 137-139 and 147. */
  function Advance(c: Cursor, s: Size, pad: Padding): (c': Cursor)
    ensures c'.y == c.y && c'.x >= c.x + s.w && c'.largestH >= c.largestH && c'.largestH >= s.h
    ensures c'.largestH == c.largestH || c'.largestH == s.h
  {
    Cursor(c.x + s.w + pad.left + pad.right, c.y, if s.h > c.largestH then s.h else c.largestH)
  }

  /** A glyph's rectangle, and the cursor after it. */
  datatype Placed = Placed(rect: Rect, next: Cursor)

  /** One glyph as the source places it: the height test at line 120 is made before the wrap,
      and nothing is tested after it. */
  function StepAsWritten(c: Cursor, s: Size, outW: nat, outH: nat, pad: Padding): (r: Option<Placed>)
    ensures r.None? <==> c.y + s.h > outH
    ensures r.Some? ==> r.value.rect.w == s.w && r.value.rect.h == s.h && r.value.rect.y >= c.y
  {
    if c.y + s.h > outH then None
    else
      var c' := Wrap(c, s, outW, pad);
      Some(Placed(Rect(c'.x, c'.y, s.w, s.h), Advance(c', s, pad)))
  }

  /** One glyph, with the test repeated after the wrap: a glyph that does not fit the canvas
      where the wrap puts it ends the packing like one that fails the first test. */
  function Step(c: Cursor, s: Size, outW: nat, outH: nat, pad: Padding): (r: Option<Placed>)
    ensures r.Some? ==> r.value.rect.x + r.value.rect.w <= outW && r.value.rect.y + r.value.rect.h <= outH
  {
    if c.y + s.h > outH then None
    else
      var c' := Wrap(c, s, outW, pad);
      if c'.y + s.h > outH || c'.x + s.w > outW then None
      else Some(Placed(Rect(c'.x, c'.y, s.w, s.h), Advance(c', s, pad)))
  }

  /** The rectangles the source's loop places from cursor c: one per glyph, until the first
      glyph that fails the height test. */
  function PlanAsWritten(sizes: seq<Size>, c: Cursor, outW: nat, outH: nat, pad: Padding): (rs: seq<Rect>)
    ensures |rs| <= |sizes|
    ensures forall k :: 0 <= k < |rs| ==> rs[k].w == sizes[k].w && rs[k].h == sizes[k].h
    decreases |sizes|
  {
    if sizes == [] then []
    else match StepAsWritten(c, sizes[0], outW, outH, pad)
      case None => []
      case Some(p) => [p.rect] + PlanAsWritten(sizes[1..], p.next, outW, outH, pad)
  }

  /** The rectangles placed with the corrected step. */
  function Plan(sizes: seq<Size>, c: Cursor, outW: nat, outH: nat, pad: Padding): seq<Rect>
    decreases |sizes|
  {
    if sizes == [] then []
    else match Step(c, sizes[0], outW, outH, pad)
      case None => []
      case Some(p) => [p.rect] + Plan(sizes[1..], p.next, outW, outH, pad)
  }

  /** The placements are an in-order prefix of the glyphs, each rectangle the size of its glyph. */
  lemma {:induction false} PlanPrefix(sizes: seq<Size>, c: Cursor, outW: nat, outH: nat, pad: Padding)
    ensures |Plan(sizes, c, outW, outH, pad)| <= |sizes|
    ensures forall k :: 0 <= k < |Plan(sizes, c, outW, outH, pad)| ==>
              Plan(sizes, c, outW, outH, pad)[k].w == sizes[k].w && Plan(sizes, c, outW, outH, pad)[k].h == sizes[k].h
    decreases |sizes|
  {
    if sizes != [] {
      var st := Step(c, sizes[0], outW, outH, pad);
      if st.Some? {
        PlanPrefix(sizes[1..], st.value.next, outW, outH, pad);
      }
    }
  }

  /** Once a glyph is dropped, so is every later one: more glyphs after a plan that stopped
      change nothing. */
  lemma {:induction false} PlanStops(sizes: seq<Size>, more: seq<Size>, c: Cursor, outW: nat, outH: nat, pad: Padding)
    requires |Plan(sizes, c, outW, outH, pad)| < |sizes|
    ensures Plan(sizes + more, c, outW, outH, pad) == Plan(sizes, c, outW, outH, pad)
    decreases |sizes|
  {
    assert (sizes + more)[0] == sizes[0];
    var st := Step(c, sizes[0], outW, outH, pad);
    if st.Some? {
      assert (sizes + more)[1..] == sizes[1..] + more;
      PlanStops(sizes[1..], more, st.value.next, outW, outH, pad);
    }
  }

  /** Every placed rectangle lies inside the canvas. */
  lemma {:induction false} PlanInside(sizes: seq<Size>, c: Cursor, outW: nat, outH: nat, pad: Padding)
    ensures forall r :: r in Plan(sizes, c, outW, outH, pad) ==> r.x + r.w <= outW && r.y + r.h <= outH
    decreases |sizes|
  {
    if sizes != [] {
      var st := Step(c, sizes[0], outW, outH, pad);
      if st.Some? {
        PlanInside(sizes[1..], st.value.next, outW, outH, pad);
      }
    }
  }

  /** Everything placed from cursor c lies to the right of it on its row, or below the
      tallest glyph its row holds so far. */
  lemma {:induction false} PlanAfter(sizes: seq<Size>, c: Cursor, outW: nat, outH: nat, pad: Padding)
    ensures forall r :: r in Plan(sizes, c, outW, outH, pad) ==>
              (r.y == c.y && r.x >= c.x) || r.y >= c.y + c.largestH
    decreases |sizes|
  {
    if sizes != [] {
      var st := Step(c, sizes[0], outW, outH, pad);
      if st.Some? {
        PlanAfter(sizes[1..], st.value.next, outW, outH, pad);
      }
    }
  }

  /** Two rectangles that share no pixel. */
  predicate Disjoint(a: Rect, b: Rect) {
    a.x + a.w <= b.x || b.x + b.w <= a.x || a.y + a.h <= b.y || b.y + b.h <= a.y
  }

  /** No two placed rectangles overlap. */
  lemma {:induction false} PlanDisjoint(sizes: seq<Size>, c: Cursor, outW: nat, outH: nat, pad: Padding)
    ensures forall k, l :: 0 <= k < l < |Plan(sizes, c, outW, outH, pad)| ==>
              Disjoint(Plan(sizes, c, outW, outH, pad)[k], Plan(sizes, c, outW, outH, pad)[l])
    decreases |sizes|
  {
    if sizes != [] {
      var st := Step(c, sizes[0], outW, outH, pad);
      if st.Some? {
        var rest := Plan(sizes[1..], st.value.next, outW, outH, pad);
        var r0 := st.value.rect;
        assert Plan(sizes, c, outW, outH, pad) == [r0] + rest;
        PlanDisjoint(sizes[1..], st.value.next, outW, outH, pad);
        PlanAfter(sizes[1..], st.value.next, outW, outH, pad);
        forall l | 0 <= l < |rest| ensures Disjoint(r0, rest[l]) {
          assert rest[l] in rest;
        }
      }
    }
  }

  /** The correction only drops glyphs: its plan is a prefix of the source's, and the first
      rectangle the source places beyond it leaves the canvas. */
  lemma {:induction false} PlanPrefixOfAsWritten(sizes: seq<Size>, c: Cursor, outW: nat, outH: nat, pad: Padding)
    ensures |Plan(sizes, c, outW, outH, pad)| <= |PlanAsWritten(sizes, c, outW, outH, pad)|
    ensures Plan(sizes, c, outW, outH, pad) == PlanAsWritten(sizes, c, outW, outH, pad)[..|Plan(sizes, c, outW, outH, pad)|]
    ensures |Plan(sizes, c, outW, outH, pad)| < |PlanAsWritten(sizes, c, outW, outH, pad)| ==>
              var r := PlanAsWritten(sizes, c, outW, outH, pad)[|Plan(sizes, c, outW, outH, pad)|];
              r.x + r.w > outW || r.y + r.h > outH
    decreases |sizes|
  {
    if sizes != [] {
      var st := Step(c, sizes[0], outW, outH, pad);
      var sa := StepAsWritten(c, sizes[0], outW, outH, pad);
      if st.Some? {
        assert sa == st;
        PlanPrefixOfAsWritten(sizes[1..], st.value.next, outW, outH, pad);
      }
    }
  }

  /** The source's packing can place a glyph outside the canvas: on a 10 x 10 canvas without
      padding, a 5 x 5 glyph then a 6 x 6 glyph. The second passes the height test at y = 0,
      then wraps to y = 5 and is copied to rows 5 to 10, past the last row of out_pixels. */
  lemma OverflowWitness()
    ensures var rs := PlanAsWritten([Size(5, 5), Size(6, 6)], Start(Padding(0, 0, 0, 0)), 10, 10, Padding(0, 0, 0, 0));
            |rs| == 2 && rs[1] == Rect(0, 5, 6, 6) && rs[1].y + rs[1].h > 10
  {
    var pad := Padding(0, 0, 0, 0);
    var sizes := [Size(5, 5), Size(6, 6)];
    var c1 := Cursor(5, 0, 5);
    assert StepAsWritten(Start(pad), Size(5, 5), 10, 10, pad) == Some(Placed(Rect(0, 0, 5, 5), c1));
    assert sizes[1..] == [Size(6, 6)];
    assert StepAsWritten(c1, Size(6, 6), 10, 10, pad) == Some(Placed(Rect(0, 5, 6, 6), Cursor(6, 5, 6)));
    assert [Size(6, 6)][1..] == [];
  }

  // ---------------------------------------------------------------------------------------
  // The blit (lines 131-135)

  predicate Contains(r: Rect, px: int, py: int) {
    r.x <= px < r.x + r.w && r.y <= py < r.y + r.h
  }

  /** Of the rectangles, the last one drawn over pixel (px, py). */
  function Painter(rects: seq<Rect>, px: int, py: int): (k: Option<nat>)
    ensures k.Some? ==> k.value < |rects| && Contains(rects[k.value], px, py)
    ensures k.None? ==> forall j :: 0 <= j < |rects| ==> !Contains(rects[j], px, py)
  {
    if rects == [] then None
    else if Contains(rects[|rects| - 1], px, py) then Some(|rects| - 1)
    else Painter(rects[..|rects| - 1], px, py)
  }

  /** With pairwise disjoint rectangles, a pixel's painter is the one rectangle holding it. */
  lemma {:induction false} PainterUnique(rects: seq<Rect>, px: int, py: int, k: nat)
    requires forall i, j :: 0 <= i < j < |rects| ==> Disjoint(rects[i], rects[j])
    requires k < |rects| && Contains(rects[k], px, py)
    ensures Painter(rects, px, py) == Some(k)
  {
    var n := |rects| - 1;
    if k < n {
      assert Disjoint(rects[k], rects[n]);
      PainterUnique(rects[..n], px, py, k);
    }
  }

  /** Pixel (x, y) of a row-major, w-wide buffer. */
  function Pixel(w: nat, h: nat, x: nat, y: nat): (k: nat)
    requires x < w && y < h
    ensures k < w * h
  {
    Index(w, h, y, x, false)
  }

  lemma PixelsDistinct(w: nat, h: nat, x: nat, y: nat, x': nat, y': nat)
    requires x < w && y < h && x' < w && y' < h && (x != x' || y != y')
    ensures Pixel(w, h, x, y) != Pixel(w, h, x', y')
  {
    if Pixel(w, h, x, y) == Pixel(w, h, x', y') {
      IndexInjective(w, h, y, x, y', x', false);
    }
  }

  /** The field of one glyph as the resampler leaves it: down_w x down_h bytes. */
  predicate FieldFits(down: seq<uint8>, downW: nat, downH: nat, s: Size) {
    |down| == downW * downH && s.w <= downW && s.h <= downH
  }

  /** The memcpy loop: glyph_h rows of glyph_w bytes, from row yi of down_pixels (stride down_w)
      to row y + yi of out_pixels at column x (stride out_image_w). No other byte changes. */
  method Blit(out: array<uint8>, outW: nat, outH: nat, r: Rect, down: seq<uint8>, downW: nat, downH: nat)
    requires out.Length == outW * outH && r.x + r.w <= outW && r.y + r.h <= outH
    requires FieldFits(down, downW, downH, Size(r.w, r.h))
    modifies out
    ensures forall px, py :: 0 <= px < outW && 0 <= py < outH ==>
              out[Pixel(outW, outH, px, py)]
              == if Contains(r, px, py) then down[Pixel(downW, downH, px - r.x, py - r.y)]
                 else old(out[Pixel(outW, outH, px, py)])
  {
    for yi := 0 to r.h
      invariant forall px, py :: 0 <= px < outW && 0 <= py < outH ==>
                  out[Pixel(outW, outH, px, py)]
                  == if Contains(r, px, py) && py < r.y + yi then down[Pixel(downW, downH, px - r.x, py - r.y)]
                     else old(out[Pixel(outW, outH, px, py)])
    {
      MulMono(yi + 1, downH, downW);
      CopyRow(out, outW, outH, r.x, r.y + yi, down, yi * downW, r.w);
    }
  }

  /** memcpy(out + (x + y * out_image_w), down + start, len). */
  method CopyRow(out: array<uint8>, outW: nat, outH: nat, x: nat, y: nat, down: seq<uint8>, start: nat, len: nat)
    requires out.Length == outW * outH && x + len <= outW && y < outH && start + len <= |down|
    modifies out
    ensures forall px, py :: 0 <= px < outW && 0 <= py < outH ==>
              out[Pixel(outW, outH, px, py)]
              == if py == y && x <= px < x + len then down[start + (px - x)]
                 else old(out[Pixel(outW, outH, px, py)])
  {
    for i := 0 to len
      invariant forall px, py :: 0 <= px < outW && 0 <= py < outH ==>
                  out[Pixel(outW, outH, px, py)]
                  == if py == y && x <= px < x + i then down[start + (px - x)]
                     else old(out[Pixel(outW, outH, px, py)])
    {
      out[Pixel(outW, outH, x + i, y)] := down[start + i];
      forall px, py | 0 <= px < outW && 0 <= py < outH && (px != x + i || py != y)
        ensures Pixel(outW, outH, px, py) != Pixel(outW, outH, x + i, y)
      {
        PixelsDistinct(outW, outH, px, py, x + i, y);
      }
    }
  }

  // ---------------------------------------------------------------------------------------
  // The font info file (lines 42-44, 141-145)

  /** One record of the info file: the character, its rectangle in the canvas, and its
      offset and advance scaled back down. */
  datatype Record = Record(code: int, x: int, y: int, w: int, h: int, xoff: int, yoff: int, xadv: int, yadv: int)

  /** C's `/` on int: the quotient truncated toward zero, the remainder taking the sign of the
      dividend. */
  function CDiv(a: int, b: int): (q: int)
    requires b > 0
    ensures a >= 0 ==> 0 <= a - q * b < b
    ensures a < 0 ==> -b < a - q * b <= 0
  {
    if a >= 0 then a / b else -((-a) / b)
  }

  /** A glyph as the rasteriser and the resampler give it: its size, offset and advance at
      ppem * scale (glyph.size, glyph.offset, glyph.advance), the coverage it draws into the
      mask, and the downsampled field stbir_resize_uint8 leaves in down_pixels. */
  datatype Glyph = Glyph(sizeX: nat, sizeY: nat, offsetX: int, offsetY: int, advanceX: int, advanceY: int,
                         coverage: seq<uint8>, field: seq<uint8>)

  /** The record printed for the k-th character, placed at r. */
  function RecordOf(k: nat, r: Rect, g: Glyph, scale: nat): (rec: Record)
    requires scale > 0
    ensures rec.code == FIRST_CHAR + k && rec.x == r.x && rec.y == r.y && rec.w == r.w && rec.h == r.h
    ensures -(scale as int) < g.offsetX - rec.xoff * scale < scale && -(scale as int) < g.offsetY - rec.yoff * scale < scale
    ensures -(scale as int) < g.advanceX - rec.xadv * scale < scale && -(scale as int) < g.advanceY - rec.yadv * scale < scale
  {
    Record(FIRST_CHAR + k, r.x, r.y, r.w, r.h,
           CDiv(g.offsetX, scale), CDiv(g.offsetY, scale), CDiv(g.advanceX, scale), CDiv(g.advanceY, scale))
  }

  /** One record per placed glyph, in order. */
  function Records(rects: seq<Rect>, glyphs: seq<Glyph>, scale: nat): (rs: seq<Record>)
    requires |rects| <= |glyphs| && scale > 0
    ensures |rs| == |rects|
  {
    seq(|rects|, k requires 0 <= k < |rects| => RecordOf(k, rects[k], glyphs[k], scale))
  }

  /** A line of `label=%d` fields in turn, ended by a newline. */
  function Format(labels: seq<string>, values: seq<int>): (s: string)
    requires |labels| == |values|
    ensures labels == [] ==> s == "\n"
    ensures |s| > 0 && (labels != [] && labels[0] != [] ==> s[0] == labels[0][0])
    decreases |labels|
  {
    if labels == [] then "\n" else labels[0] + IntToDecimal(values[0]) + Format(labels[1..], values[1..])
  }

  /** The format of a record line, field by field (line 142). */
  const RECORD_LABELS: seq<string> := ["char=", ", x=", ", y=", ", w=", ", h=", ", xoff=", ", yoff=", ", xadv=", ", yadv="]

  function Fields(r: Record): seq<int> {
    [r.code, r.x, r.y, r.w, r.h, r.xoff, r.yoff, r.xadv, r.yadv]
  }

  function RecordLine(r: Record): string {
    Format(RECORD_LABELS, Fields(r))
  }

  /** Lines 42-44: the number of characters, the ppem and the font's line gap. */
  function HeaderText(ppem: int, lineGap: int): string {
    Format(["num_chars="], [NUM_CHARS]) + Format(["ppem="], [ppem]) + Format(["line_gap="], [lineGap])
  }

  function RecordLines(rs: seq<Record>): string {
    if rs == [] then "" else RecordLines(rs[..|rs| - 1]) + RecordLine(rs[|rs| - 1])
  }

  /** The whole info file. */
  function InfoText(ppem: int, lineGap: int, rs: seq<Record>): string {
    HeaderText(ppem, lineGap) + RecordLines(rs)
  }

  /** A reader of such a line: each label matched literally, each number read as strtol reads
      it, and the newline at the end. */
  function Read(labels: seq<string>, s: string): (r: Option<seq<int>>)
    ensures r.Some? ==> |r.value| == |labels|
    decreases |labels|
  {
    if labels == [] then (if s == "\n" then Some([]) else None)
    else
      var l := labels[0];
      if |s| < |l| || s[..|l|] != l then None
      else match ScanInt(s, |l|)
        case None => None
        case Some(sc) =>
          match Read(labels[1..], s[sc.end..])
          case None => None
          case Some(vs) => Some([sc.value] + vs)
  }

  /** Labels a number cannot run into: none is empty or starts with a digit. */
  predicate Separating(labels: seq<string>) {
    forall k :: 0 <= k < |labels| ==> |labels[k]| > 0 && !IsDigit(labels[k][0])
  }

  /** One field: after its label, strtol reads back the number printed, up to the text that
      follows it. */
  lemma ReadField(l: string, n: int, rest: string)
    requires rest == [] || !IsDigit(rest[0])
    ensures var s := l + IntToDecimal(n) + rest;
            && s[..|l|] == l
            && ScanInt(s, |l|) == Some(Scanned(n, |l| + |IntToDecimal(n)|))
            && s[|l| + |IntToDecimal(n)|..] == rest
  {
    var d := IntToDecimal(n);
    var s := l + d + rest;
    assert s[|l|..] == d + rest;
    ScanIntOfDecimal(n, rest);
    ScanIntSuffix(s, |l|);
  }

  /** Reading a label, a printed number and a rest is reading the rest after the number. */
  lemma ReadCons(labels: seq<string>, n: int, rest: string)
    requires labels != [] && (rest == [] || !IsDigit(rest[0]))
    ensures Read(labels, labels[0] + IntToDecimal(n) + rest)
            == match Read(labels[1..], rest) case None => None case Some(vs) => Some([n] + vs)
  {
    ReadField(labels[0], n, rest);
  }

  /** A line of one more field reads back when the line after that field does. */
  lemma ReadStep(labels: seq<string>, values: seq<int>)
    requires |labels| == |values| > 0 && Separating(labels)
    requires Read(labels[1..], Format(labels[1..], values[1..])) == Some(values[1..])
    ensures Read(labels, Format(labels, values)) == Some(values)
  {
    var rest := Format(labels[1..], values[1..]);
    assert Format(labels, values) == labels[0] + IntToDecimal(values[0]) + rest;
    assert rest == [] || !IsDigit(rest[0]) by {
      assert labels[1..] != [] ==> labels[1..][0] == labels[1];
    }
    ReadCons(labels, values[0], rest);
    calc {
      Read(labels, Format(labels, values));
      Some([values[0]] + values[1..]);
      { assert [values[0]] + values[1..] == values; }
      Some(values);
    }
  }

  /** Every line printed with separating labels reads back as the values printed. */
  lemma {:induction false} ReadFormat(labels: seq<string>, values: seq<int>)
    requires |labels| == |values| && Separating(labels)
    ensures Read(labels, Format(labels, values)) == Some(values)
    decreases |labels|
  {
    if labels != [] {
      assert Separating(labels[1..]) by {
        assert forall k :: 0 <= k < |labels[1..]| ==> labels[1..][k] == labels[k + 1];
      }
      ReadFormat(labels[1..], values[1..]);
      ReadStep(labels, values);
    }
  }

  /** A record line reads back as the record's nine fields, in their order. */
  lemma RecordRoundTrip(r: Record)
    ensures Read(RECORD_LABELS, RecordLine(r)) == Some(Fields(r))
  {
    assert forall k :: 0 <= k < 9 ==> RECORD_LABELS[k][0] == 'c' || RECORD_LABELS[k][0] == ',';
    ReadFormat(RECORD_LABELS, Fields(r));
  }

  /** The number of newlines in a text. */
  function Newlines(s: string): nat {
    if s == [] then 0 else Newlines(s[..|s| - 1]) + (if s[|s| - 1] == '\n' then 1 else 0)
  }

  lemma {:induction false} NewlinesAppend(a: string, b: string)
    ensures Newlines(a + b) == Newlines(a) + Newlines(b)
    decreases |b|
  {
    if b == [] {
      assert a + b == a;
    } else {
      assert (a + b)[..|a + b| - 1] == a + b[..|b| - 1];
      assert (a + b)[|a + b| - 1] == b[|b| - 1];
      NewlinesAppend(a, b[..|b| - 1]);
    }
  }

  lemma {:induction false} NoNewlines(s: string)
    requires forall k :: 0 <= k < |s| ==> s[k] != '\n'
    ensures Newlines(s) == 0
    decreases |s|
  {
    if s != [] {
      NoNewlines(s[..|s| - 1]);
    }
  }

  /** A formatted line holds exactly one newline, its last character. */
  lemma {:induction false} FormatOneLine(labels: seq<string>, values: seq<int>)
    requires |labels| == |values|
    requires forall k, i :: 0 <= k < |labels| && 0 <= i < |labels[k]| ==> labels[k][i] != '\n'
    ensures Newlines(Format(labels, values)) == 1
    decreases |labels|
  {
    if labels == [] {
      assert "\n"[..0] == [];
    } else {
      var l, d := labels[0], IntToDecimal(values[0]);
      DecimalHasNoNewline(values[0]);
      NoNewlines(l);
      NoNewlines(d);
      NewlinesAppend(l, d);
      FormatOneLine(labels[1..], values[1..]);
      NewlinesAppend(l + d, Format(labels[1..], values[1..]));
    }
  }

  lemma DecimalHasNoNewline(n: int)
    ensures forall k :: 0 <= k < |IntToDecimal(n)| ==> IntToDecimal(n)[k] != '\n'
  {
    var m: nat := if n < 0 then -n else n;
    assert AllDigits(NatToDecimal(m));
    if n < 0 {
      assert IntToDecimal(n) == "-" + NatToDecimal(m);
    }
  }

  /** One line per record after the three header lines (lines 42-44, 142). */
  lemma InfoLines(ppem: int, lineGap: int, rs: seq<Record>)
    ensures Newlines(InfoText(ppem, lineGap, rs)) == 3 + |rs|
  {
    HeaderLines(ppem, lineGap);
    RecordLinesCount(rs);
    NewlinesAppend(HeaderText(ppem, lineGap), RecordLines(rs));
  }

  lemma {:induction false} RecordLinesCount(rs: seq<Record>)
    ensures Newlines(RecordLines(rs)) == |rs|
    decreases |rs|
  {
    if rs != [] {
      var n := |rs| - 1;
      RecordLinesCount(rs[..n]);
      RecordOneLine(rs[n]);
      NewlinesAppend(RecordLines(rs[..n]), RecordLine(rs[n]));
    }
  }

  lemma RecordOneLine(r: Record)
    ensures Newlines(RecordLine(r)) == 1
  {
    assert forall k, i :: 0 <= k < 9 && 0 <= i < |RECORD_LABELS[k]| ==> RECORD_LABELS[k][i] != '\n';
    FormatOneLine(RECORD_LABELS, Fields(r));
  }

  lemma HeaderLines(ppem: int, lineGap: int)
    ensures Newlines(HeaderText(ppem, lineGap)) == 3
  {
    ThreeLines("num_chars=", "ppem=", "line_gap=", NUM_CHARS, ppem, lineGap);
  }

  lemma ThreeLines(n1: string, n2: string, n3: string, v1: int, v2: int, v3: int)
    requires forall i :: 0 <= i < |n1| ==> n1[i] != '\n'
    requires forall i :: 0 <= i < |n2| ==> n2[i] != '\n'
    requires forall i :: 0 <= i < |n3| ==> n3[i] != '\n'
    ensures Newlines(Format([n1], [v1]) + Format([n2], [v2]) + Format([n3], [v3])) == 3
  {
    var a, b, c := Format([n1], [v1]), Format([n2], [v2]), Format([n3], [v3]);
    FormatOneLine([n1], [v1]);
    FormatOneLine([n2], [v2]);
    FormatOneLine([n3], [v3]);
    NewlinesAppend(a, b);
    NewlinesAppend(a + b, c);
  }

  // ---------------------------------------------------------------------------------------
  // The main loop (lines 80-149)

  /** The downsampled sizes of the glyphs, in character order. */
  function SizesOf(glyphs: seq<Glyph>, spread: nat, scale: nat): (sizes: seq<Size>)
    requires scale > 0
    ensures |sizes| == |glyphs|
  {
    seq(|glyphs|, k requires 0 <= k < |glyphs| => GlyphSize(glyphs[k].sizeX, glyphs[k].sizeY, spread, scale))
  }

  lemma PainterAppend(rects: seq<Rect>, r: Rect, px: int, py: int)
    ensures Painter(rects + [r], px, py) == if Contains(r, px, py) then Some(|rects|) else Painter(rects, px, py)
  {
    assert (rects + [r])[..|rects|] == rects;
  }

  /** The glyphs' fields fit the downsampled buffer, and every placed rectangle has its
      glyph's size. */
  predicate Fitting(rects: seq<Rect>, glyphs: seq<Glyph>, downW: nat, downH: nat) {
    && |rects| <= |glyphs|
    && forall k :: 0 <= k < |rects| ==> FieldFits(glyphs[k].field, downW, downH, Size(rects[k].w, rects[k].h))
  }

  /** A canvas pixel after the rectangles were blitted in order: that of the last field drawn
      over it, or what the canvas held before. */
  function Painted(canvas: seq<uint8>, outW: nat, outH: nat, rects: seq<Rect>, glyphs: seq<Glyph>,
                   downW: nat, downH: nat, px: nat, py: nat): uint8
    requires |canvas| == outW * outH && px < outW && py < outH && Fitting(rects, glyphs, downW, downH)
  {
    match Painter(rects, px, py)
    case None => canvas[Pixel(outW, outH, px, py)]
    case Some(k) => glyphs[k].field[Pixel(downW, downH, px - rects[k].x, py - rects[k].y)]
  }

  /** The rasteriser drawing a glyph into the existing mask (line 100). How it combines with
      what the buffer held is not known here; it is taken to keep, per cell, the larger of the
      two, so that a mask left dirty would show through. */
  method DrawGlyph(mask: array<uint8>, coverage: seq<uint8>)
    requires |coverage| == mask.Length
    modifies mask
    ensures forall k :: 0 <= k < mask.Length ==>
              mask[k] == if old(mask[k]) < coverage[k] then coverage[k] else old(mask[k])
  {
    forall k | 0 <= k < mask.Length {
      mask[k] := if mask[k] < coverage[k] then coverage[k] else mask[k];
    }
  }

  /** memset(df.pixels, 0, df.w * df.h) (line 114). */
  method ClearMask(mask: array<uint8>)
    modifies mask
    ensures forall k :: 0 <= k < mask.Length ==> mask[k] == 0
  {
    forall k | 0 <= k < mask.Length {
      mask[k] := 0;
    }
  }

  /** Lines 116-135 for one glyph of size s at cursor c: the height test, the wrap, the test
      the correction adds after it, and the blit. Gives the glyph's rectangle and the cursor
      after it (lines 137-147), or None when packing stops here. */
  method PlaceGlyph(out: array<uint8>, outW: nat, outH: nat, pad: Padding, c: Cursor, s: Size,
                    field: seq<uint8>, downW: nat, downH: nat) returns (placed: Option<Placed>)
    requires out.Length == outW * outH && FieldFits(field, downW, downH, s)
    modifies out
    ensures placed == Step(c, s, outW, outH, pad)
    ensures forall px, py :: 0 <= px < outW && 0 <= py < outH ==>
              out[Pixel(outW, outH, px, py)]
              == if placed.Some? && Contains(placed.value.rect, px, py)
                 then field[Pixel(downW, downH, px - placed.value.rect.x, py - placed.value.rect.y)]
                 else old(out[Pixel(outW, outH, px, py)])
  {
    var x, y, largestH := c.x, c.y, c.largestH;
    if y + s.h > outH {
      return None;
    }
    if x + s.w > outW {
      x := pad.left;
      y := y + largestH + pad.top + pad.bottom;
      largestH := 0;
    }
    if y + s.h > outH || x + s.w > outW {
      return None;
    }
    var r := Rect(x, y, s.w, s.h);
    Blit(out, outW, outH, r, field, downW, downH);
    if s.h > largestH {
      largestH := s.h;
    }
    x := x + s.w + pad.left + pad.right;
    placed := Some(Placed(r, Cursor(x, y, largestH)));
  }

  lemma PlanUnfold(sizes: seq<Size>, k: nat, c: Cursor, outW: nat, outH: nat, pad: Padding)
    requires k < |sizes|
    ensures Plan(sizes[k..], c, outW, outH, pad)
            == match Step(c, sizes[k], outW, outH, pad)
               case None => []
               case Some(p) => [p.rect] + Plan(sizes[k + 1..], p.next, outW, outH, pad)
  {
    assert sizes[k..][0] == sizes[k] && sizes[k..][1..] == sizes[k + 1..];
  }

  /** Two canvases that agree on every pixel are equal. */
  lemma SamePixels(c0: seq<uint8>, c1: seq<uint8>, outW: nat, outH: nat)
    requires |c0| == |c1| == outW * outH
    requires forall px, py :: 0 <= px < outW && 0 <= py < outH ==> c1[Pixel(outW, outH, px, py)] == c0[Pixel(outW, outH, px, py)]
    ensures c1 == c0
  {
    forall i | 0 <= i < |c0|
      ensures c1[i] == c0[i]
    {
      IndexOnto(outW, outH, i, false);
      var py, px :| 0 <= py < outH && 0 <= px < outW && Index(outW, outH, py, px, false) == i;
      assert Pixel(outW, outH, px, py) == i;
    }
  }

  /** The whole plan is rects followed by what the packer places from glyph k on, starting
      at cursor c. */
  ghost predicate PlanFrom(whole: seq<Rect>, rects: seq<Rect>, sizes: seq<Size>, k: nat, c: Cursor,
                           outW: nat, outH: nat, pad: Padding)
  {
    k <= |sizes| && whole == rects + Plan(sizes[k..], c, outW, outH, pad)
  }

  /** Placing glyph k takes its rectangle off the rest of the plan, or ends it. */
  lemma PlanAdvance(whole: seq<Rect>, rects: seq<Rect>, sizes: seq<Size>, k: nat, c: Cursor, outW: nat, outH: nat,
                    pad: Padding, placed: Option<Placed>)
    requires k < |sizes| && PlanFrom(whole, rects, sizes, k, c, outW, outH, pad)
    requires placed == Step(c, sizes[k], outW, outH, pad)
    ensures placed.None? ==> whole == rects
    ensures placed.Some? ==> PlanFrom(whole, rects + [placed.value.rect], sizes, k + 1, placed.value.next, outW, outH, pad)
  {
    PlanUnfold(sizes, k, c, outW, outH, pad);
  }

  lemma RecordsAppend(rects: seq<Rect>, r: Rect, glyphs: seq<Glyph>, scale: nat)
    requires |rects| < |glyphs| && scale > 0
    ensures Records(rects + [r], glyphs, scale)
            == Records(rects, glyphs, scale) + [RecordOf(|rects|, r, glyphs[|rects|], scale)]
  {
  }

  lemma PaintedAppend(canvas: seq<uint8>, outW: nat, outH: nat, rects: seq<Rect>, r: Rect, glyphs: seq<Glyph>,
                      downW: nat, downH: nat, px: nat, py: nat)
    requires |canvas| == outW * outH && px < outW && py < outH
    requires Fitting(rects + [r], glyphs, downW, downH)
    ensures Fitting(rects, glyphs, downW, downH)
    ensures Painted(canvas, outW, outH, rects + [r], glyphs, downW, downH, px, py)
            == if Contains(r, px, py) then glyphs[|rects|].field[Pixel(downW, downH, px - r.x, py - r.y)]
               else Painted(canvas, outW, outH, rects, glyphs, downW, downH, px, py)
  {
    assert forall k :: 0 <= k < |rects| ==> (rects + [r])[k] == rects[k];
    PainterAppend(rects, r, px, py);
  }

  /** The state of the main loop once rects are placed: the canvas shows them over what it
      held before, and there is one record per rectangle. */
  ghost predicate Packed(c: seq<uint8>, canvas: seq<uint8>, records: seq<Record>, rects: seq<Rect>,
                         glyphs: seq<Glyph>, scale: nat, outW: nat, outH: nat, downW: nat, downH: nat)
  {
    && scale > 0
    && Shows(c, canvas, outW, outH, rects, glyphs, downW, downH)
    && records == Records(rects, glyphs, scale)
  }

  /** Lines 116-147 for glyph k: place and blit its field, then append its record. The canvas
      keeps showing the rectangles placed so far, and the records stay one per rectangle. */
  method PackGlyph(out: array<uint8>, outW: nat, outH: nat, pad: Padding, c: Cursor, s: Size, k: nat,
                   glyphs: seq<Glyph>, scale: nat, downW: nat, downH: nat,
                   ghost canvas: seq<uint8>, ghost rects: seq<Rect>, records: seq<Record>)
    returns (placed: Option<Placed>, records': seq<Record>, ghost rects': seq<Rect>)
    requires |rects| == k < |glyphs| && FieldFits(glyphs[k].field, downW, downH, s)
    requires Packed(out[..], canvas, records, rects, glyphs, scale, outW, outH, downW, downH)
    modifies out
    ensures placed == Step(c, s, outW, outH, pad)
    ensures rects' == if placed.Some? then rects + [placed.value.rect] else rects
    ensures |records'| == |rects'|
    ensures Packed(out[..], canvas, records', rects', glyphs, scale, outW, outH, downW, downH)
  {
    ghost var before := out[..];
    placed := PlaceGlyph(out, outW, outH, pad, c, s, glyphs[k].field, downW, downH);
    records', rects' := records, rects;
    if placed.Some? {
      var r := placed.value.rect;
      records' := records + [RecordOf(k, r, glyphs[k], scale)];
      rects' := rects + [r];
      RecordsAppend(rects, r, glyphs, scale);
      ShowsStep(before, out[..], canvas, outW, outH, rects, r, glyphs, downW, downH);
    } else {
      SamePixels(before, out[..], outW, outH);
    }
  }

  /** Where the packer puts the glyphs' fields, in character order. */
  function Layout(glyphs: seq<Glyph>, spread: nat, scale: nat, outW: nat, outH: nat, pad: Padding): seq<Rect>
    requires scale > 0
  {
    Plan(SizesOf(glyphs, spread, scale), Start(pad), outW, outH, pad)
  }

  /** What the canvas c shows after the rectangles were blitted onto canvas: Painted, pixel
      by pixel. */
  ghost predicate Shows(c: seq<uint8>, canvas: seq<uint8>, outW: nat, outH: nat, rects: seq<Rect>, glyphs: seq<Glyph>,
                        downW: nat, downH: nat)
  {
    && |c| == |canvas| == outW * outH
    && Fitting(rects, glyphs, downW, downH)
    && forall px, py :: 0 <= px < outW && 0 <= py < outH ==>
      c[Pixel(outW, outH, px, py)] == Painted(canvas, outW, outH, rects, glyphs, downW, downH, px, py)
  }

  /** Blitting the next placed glyph keeps Shows. */
  lemma ShowsStep(c0: seq<uint8>, c1: seq<uint8>, canvas: seq<uint8>, outW: nat, outH: nat, rects: seq<Rect>, r: Rect,
                  glyphs: seq<Glyph>, downW: nat, downH: nat)
    requires Shows(c0, canvas, outW, outH, rects, glyphs, downW, downH)
    requires |c1| == |c0| && Fitting(rects + [r], glyphs, downW, downH)
    requires forall px, py :: 0 <= px < outW && 0 <= py < outH ==>
               c1[Pixel(outW, outH, px, py)]
               == if Contains(r, px, py) then glyphs[|rects|].field[Pixel(downW, downH, px - r.x, py - r.y)]
                  else c0[Pixel(outW, outH, px, py)]
    ensures Shows(c1, canvas, outW, outH, rects + [r], glyphs, downW, downH)
  {
    forall px, py | 0 <= px < outW && 0 <= py < outH
      ensures c1[Pixel(outW, outH, px, py)] == Painted(canvas, outW, outH, rects + [r], glyphs, downW, downH, px, py)
    {
      PaintedAppend(canvas, outW, outH, rects, r, glyphs, downW, downH, px, py);
    }
  }

  /** Lines 94-114 for one glyph: the rasteriser draws into the mask, which holds exactly the
      glyph's coverage because it was all zero; calc_df and stbir_resize_uint8 turn it into
      the glyph's field; then the memset clears it for the next glyph. */
  method RenderGlyph(mask: array<uint8>, coverage: seq<uint8>) returns (ghost drawn: seq<uint8>)
    requires |coverage| == mask.Length
    requires forall i :: 0 <= i < mask.Length ==> mask[i] == 0
    modifies mask
    ensures drawn == coverage
    ensures forall i :: 0 <= i < mask.Length ==> mask[i] == 0
  {
    DrawGlyph(mask, coverage);
    drawn := mask[..];
    ClearMask(mask);
  }

  /** A glyph the rasteriser can give for this font: no larger than its largest glyph, with a
      coverage the size of the mask and a field the size of down_pixels. */
  predicate GlyphOk(g: Glyph, maxW: nat, maxH: nat, sz: Sizes) {
    g.sizeX <= maxW && g.sizeY <= maxH && |g.coverage| == sz.dfW * sz.dfH && |g.field| == sz.downW * sz.downH
  }

  /** The coverages of the first n glyphs, in order. */
  function Coverages(glyphs: seq<Glyph>, n: nat): (cs: seq<seq<uint8>>)
    requires n <= |glyphs|
    ensures |cs| == n && forall k :: 0 <= k < n ==> cs[k] == glyphs[k].coverage
  {
    seq(n, k requires 0 <= k < n => glyphs[k].coverage)
  }

  lemma CoveragesAppend(glyphs: seq<Glyph>, n: nat)
    requires n < |glyphs|
    ensures Coverages(glyphs, n + 1) == Coverages(glyphs, n) + [glyphs[n].coverage]
  {
  }

  /** The glyphs of a font whose largest glyph is maxW x maxH meet what Generate needs of
      them: each field, of the down buffer's size, holds the glyph's downsampled size. */
  lemma GlyphsFit(glyphs: seq<Glyph>, maxW: nat, maxH: nat, spread: nat, scale: nat, sz: Sizes)
    requires scale > 0 && sz == WorkingSizes(maxW, maxH, spread, scale)
    requires forall k :: 0 <= k < |glyphs| ==> GlyphOk(glyphs[k], maxW, maxH, sz)
    ensures forall k :: 0 <= k < |glyphs| ==>
              && FieldFits(glyphs[k].field, sz.downW, sz.downH, GlyphSize(glyphs[k].sizeX, glyphs[k].sizeY, spread, scale))
              && |glyphs[k].coverage| == sz.dfW * sz.dfH
  {
    forall k | 0 <= k < |glyphs|
      ensures FieldFits(glyphs[k].field, sz.downW, sz.downH, GlyphSize(glyphs[k].sizeX, glyphs[k].sizeY, spread, scale))
    {
      assert GlyphOk(glyphs[k], maxW, maxH, sz);
      GlyphFitsDown(glyphs[k].sizeX, glyphs[k].sizeY, maxW, maxH, spread, scale);
    }
  }

  /** Lines 80-149 for the characters '!' to '~' in turn: render the glyph, then place its
      field with the shelf cursor, blit it and emit its record. Packing stops at the first
      glyph that does not fit (the corrected step; see OverflowWitness). `rendered` is what the
      mask holds once each glyph is drawn: that glyph's coverage and nothing else, since the
      mask is all zero whenever a glyph starts (calloc, then the memset). downW x downH is the
      size of down_pixels, which every glyph's field fits (see GlyphsFit). */
  method Generate(out: array<uint8>, mask: array<uint8>, outW: nat, outH: nat, pad: Padding,
                  spread: nat, scale: nat, downW: nat, downH: nat, glyphs: seq<Glyph>)
    returns (records: seq<Record>, ghost rendered: seq<seq<uint8>>)
    requires scale > 0 && |glyphs| == NUM_CHARS && out != mask && out.Length == outW * outH
    requires forall k :: 0 <= k < mask.Length ==> mask[k] == 0
    requires forall k :: 0 <= k < |glyphs| ==>
               && |glyphs[k].coverage| == mask.Length
               && FieldFits(glyphs[k].field, downW, downH, GlyphSize(glyphs[k].sizeX, glyphs[k].sizeY, spread, scale))
    modifies out, mask
    ensures Packed(out[..], old(out[..]), records, Layout(glyphs, spread, scale, outW, outH, pad), glyphs, scale,
                   outW, outH, downW, downH)
    ensures |records| <= |rendered| <= NUM_CHARS && rendered == Coverages(glyphs, |rendered|)
    ensures forall k :: 0 <= k < mask.Length ==> mask[k] == 0
  {
    ghost var sizes := SizesOf(glyphs, spread, scale);
    ghost var whole := Layout(glyphs, spread, scale, outW, outH, pad);
    ghost var canvas := out[..];
    ghost var rects: seq<Rect> := [];
    var cursor := Start(pad);
    assert sizes[0..] == sizes;
    records := [];
    rendered := [];
    for k := 0 to NUM_CHARS
      invariant |rects| == k && |records| == k && |rendered| == k
      invariant PlanFrom(whole, rects, sizes, k, cursor, outW, outH, pad)
      invariant Packed(out[..], canvas, records, rects, glyphs, scale, outW, outH, downW, downH)
      invariant rendered == Coverages(glyphs, k)
      invariant forall i :: 0 <= i < mask.Length ==> mask[i] == 0
    {
      var g := glyphs[k];
      ghost var drawn := RenderGlyph(mask, g.coverage);
      CoveragesAppend(glyphs, k);
      rendered := rendered + [drawn];

      var s := GlyphSize(g.sizeX, g.sizeY, spread, scale);
      assert sizes[k] == s;
      var placed;
      ghost var rects0 := rects;
      placed, records, rects := PackGlyph(out, outW, outH, pad, cursor, s, k, glyphs, scale, downW, downH,
                                          canvas, rects, records);
      PlanAdvance(whole, rects0, sizes, k, cursor, outW, outH, pad, placed);
      if placed.None? {
        break;
      }
      cursor := placed.value.next;
    }
    assert whole == rects;
  }
}
