/** The distance field of src/df.c: a class over the buffers of the DF struct (src/df.h),
    the squared distance transform done in place one line at a time, rows then columns, and
    the seeding that precedes it. */
module DistanceField {
  import opened Envelope

  /** uint8_t, the type of the mask's pixels. */
  newtype uint8 = x: int | 0 <= x < 256

  function Max(a: int, b: int): int {
    if a < b then b else a
  }

  /** The number of lines of a pass, and their length. */
  function Lines(w: int, h: int, transpose: bool): int {
    if transpose then w else h
  }

  function Length(w: int, h: int, transpose: bool): int {
    if transpose then h else w
  }

  lemma MulMono(a: int, b: int, c: int)
    requires 0 <= a <= b && c >= 0
    ensures a * c <= b * c
  {
    assert b * c - a * c == (b - a) * c;
  }

  /** Position of cell x of line y in the row-major w-wide buffer: lines are rows in the row
      pass and columns in the column pass. Every such index lies in [0, w*h) (the assertions
      at src/df.c:15 and 39). */
  function Index(w: int, h: int, y: int, x: int, transpose: bool): (k: int)
    requires 0 <= y < Lines(w, h, transpose) && 0 <= x < Length(w, h, transpose)
    ensures 0 <= k < w * h
  {
    var (r, c) := if transpose then (x, y) else (y, x);
    MulMono(r, h - 1, w);
    MulMono(0, r, w);
    assert (h - 1) * w == h * w - w;
    c + r * w
  }

  /** Different cells of a pass have different indices: lines do not overlap. */
  lemma IndexInjective(w: int, h: int, y: int, x: int, y': int, x': int, transpose: bool)
    requires 0 <= y < Lines(w, h, transpose) && 0 <= x < Length(w, h, transpose)
    requires 0 <= y' < Lines(w, h, transpose) && 0 <= x' < Length(w, h, transpose)
    requires Index(w, h, y, x, transpose) == Index(w, h, y', x', transpose)
    ensures y == y' && x == x'
  {
    if transpose {
      RowMajorInjective(w, x, y, x', y');
    } else {
      RowMajorInjective(w, y, x, y', x');
    }
  }

  lemma RowMajorInjective(w: int, r: int, c: int, r': int, c': int)
    requires 0 <= r && 0 <= r' && 0 <= c < w && 0 <= c' < w
    requires c + r * w == c' + r' * w
    ensures r == r' && c == c'
  {
    if r < r' {
      MulMono(r + 1, r', w);
      assert false;
    } else if r' < r {
      MulMono(r' + 1, r, w);
      assert false;
    }
  }

  /** Writing cell x of line y touches no other cell of the pass. */
  lemma OtherCells(w: int, h: int, y: int, x: int, transpose: bool)
    requires 0 <= y < Lines(w, h, transpose) && 0 <= x < Length(w, h, transpose)
    ensures forall x' :: 0 <= x' < Length(w, h, transpose) && x' != x ==>
              Index(w, h, y, x', transpose) != Index(w, h, y, x, transpose)
    ensures forall y', x' :: 0 <= y' < Lines(w, h, transpose) && 0 <= x' < Length(w, h, transpose) && y' != y ==>
              Index(w, h, y', x', transpose) != Index(w, h, y, x, transpose)
  {
    forall x' | 0 <= x' < Length(w, h, transpose) && x' != x
      ensures Index(w, h, y, x', transpose) != Index(w, h, y, x, transpose)
    {
      if Index(w, h, y, x', transpose) == Index(w, h, y, x, transpose) {
        IndexInjective(w, h, y, x', y, x, transpose);
      }
    }
    forall y', x' | 0 <= y' < Lines(w, h, transpose) && 0 <= x' < Length(w, h, transpose) && y' != y
      ensures Index(w, h, y', x', transpose) != Index(w, h, y, x, transpose)
    {
      if Index(w, h, y', x', transpose) == Index(w, h, y, x, transpose) {
        IndexInjective(w, h, y', x', y, x, transpose);
      }
    }
  }

  /** Every cell of the buffer is on some line of the pass. */
  lemma IndexOnto(w: int, h: int, k: int, transpose: bool)
    requires w >= 0 && h >= 0 && 0 <= k < w * h
    ensures exists y, x :: 0 <= y < Lines(w, h, transpose) && 0 <= x < Length(w, h, transpose)
                           && Index(w, h, y, x, transpose) == k
  {
    assert w > 0;
    var r, c := k / w, k % w;
    assert k == c + r * w;
    if r >= h {
      MulMono(h, r, w);
    }
    if transpose {
      assert Index(w, h, c, r, true) == k;
    } else {
      assert Index(w, h, r, c, false) == k;
    }
  }

  /** Line y of a buffer, as the pass reads it. */
  function Line(d: seq<Dist>, w: int, h: int, y: int, transpose: bool): (f: seq<Dist>)
    requires |d| == w * h && 0 <= y < Lines(w, h, transpose)
    ensures |f| == Length(w, h, transpose)
  {
    seq(Length(w, h, transpose), x requires 0 <= x < Length(w, h, transpose) => d[Index(w, h, y, x, transpose)])
  }

  /** What a pass makes of a buffer: each of its lines replaced by the line's exact transform. */
  ghost predicate PassOf(d': seq<Dist>, d: seq<Dist>, w: int, h: int, transpose: bool)
    requires |d| == w * h
  {
    && |d'| == |d|
    && forall y, x :: 0 <= y < Lines(w, h, transpose) && 0 <= x < Length(w, h, transpose) ==>
         d'[Index(w, h, y, x, transpose)] == LineMin(Line(d, w, h, y, transpose), x)
  }

  /** A pass never increases a cell, and it leaves a cell at FLT_MAX only when the cell's whole
      line is at FLT_MAX (src/df.c:16-20, 69-73). */
  lemma PassNotAbove(d': seq<Dist>, d: seq<Dist>, w: int, h: int, transpose: bool, y: int, x: int)
    requires |d| == w * h && PassOf(d', d, w, h, transpose)
    requires 0 <= y < Lines(w, h, transpose) && 0 <= x < Length(w, h, transpose)
    ensures d[Index(w, h, y, x, transpose)].Fin? ==>
              d'[Index(w, h, y, x, transpose)].Fin? && d'[Index(w, h, y, x, transpose)].r <= d[Index(w, h, y, x, transpose)].r
    ensures d'[Index(w, h, y, x, transpose)].Inf? <==>
              forall x' :: 0 <= x' < Length(w, h, transpose) ==> d[Index(w, h, y, x', transpose)].Inf?
  {
    var f := Line(d, w, h, y, transpose);
    assert forall x' :: 0 <= x' < Length(w, h, transpose) ==> f[x'] == d[Index(w, h, y, x', transpose)];
    LineMinIsMin(f, x);
    if f[x].Fin? {
      LineMinNotAbove(f, x);
    }
  }

  // ---------------------------------------------------------------------------------------
  // Two passes: the exact two-dimensional transform

  /** Cell (row r, column c) of a row-major, w-wide buffer. */
  function At(d: seq<Dist>, w: int, h: int, r: int, c: int): Dist
    requires |d| == w * h && 0 <= r < h && 0 <= c < w
  {
    d[Index(w, h, r, c, false)]
  }

  /** The squared Euclidean distance between cells (r, c) and (r', c'). */
  function SqDist(r: int, c: int, r': int, c': int): real {
    Sq(r as real - r' as real) + Sq(c as real - c' as real)
  }

  /** m is the least SqDist to (r', c') plus d's value there, over the cells (r', c') of d that
      hold a distance: FLT_MAX exactly when none does. */
  ghost predicate IsGridMin(m: Dist, d: seq<Dist>, w: int, h: int, r: int, c: int)
    requires |d| == w * h
  {
    && (m.Inf? <==> forall r', c' :: 0 <= r' < h && 0 <= c' < w ==> At(d, w, h, r', c').Inf?)
    && (m.Fin? ==> exists r', c' :: 0 <= r' < h && 0 <= c' < w && At(d, w, h, r', c').Fin?
                                   && m.r == SqDist(r, c, r', c') + At(d, w, h, r', c').r)
    && (m.Fin? ==> forall r', c' :: 0 <= r' < h && 0 <= c' < w && At(d, w, h, r', c').Fin? ==>
                                   m.r <= SqDist(r, c, r', c') + At(d, w, h, r', c').r)
  }

  /** Cell (r, c) after the row pass is the minimum along row r of the buffer before it. */
  lemma RowPassCell(d0: seq<Dist>, d1: seq<Dist>, w: int, h: int, r: int, c: int)
    requires |d0| == w * h && PassOf(d1, d0, w, h, false)
    requires 0 <= r < h && 0 <= c < w
    ensures At(d1, w, h, r, c) == LineMin(Line(d0, w, h, r, false), c)
    ensures forall c' :: 0 <= c' < w ==> Line(d0, w, h, r, false)[c'] == At(d0, w, h, r, c')
  {
  }

  /** Cell (r, c) after the column pass is the minimum along column c of the buffer before it. */
  lemma ColumnPassCell(d1: seq<Dist>, d2: seq<Dist>, w: int, h: int, r: int, c: int)
    requires |d1| == w * h && PassOf(d2, d1, w, h, true)
    requires 0 <= r < h && 0 <= c < w
    ensures At(d2, w, h, r, c) == LineMin(Line(d1, w, h, c, true), r)
    ensures forall r' :: 0 <= r' < h ==> Line(d1, w, h, c, true)[r'] == At(d1, w, h, r', c)
  {
    assert Index(w, h, c, r, true) == Index(w, h, r, c, false);
  }

  /** A cell (r', c') that holds a distance bounds the column minimum m at (r, c) from
      above, through the row-pass minimum of row r' at column c. */
  lemma TwoPassBound(d0: seq<Dist>, d1: seq<Dist>, col: seq<Dist>, m: Dist, w: int, h: int,
                     r: int, c: int, r': int, c': int)
    requires |d0| == w * h && PassOf(d1, d0, w, h, false)
    requires 0 <= r < h && 0 <= c < w && 0 <= r' < h && 0 <= c' < w && At(d0, w, h, r', c').Fin?
    requires |col| == h && col[r'] == At(d1, w, h, r', c)
    requires m.Fin? && (col[r'].Fin? ==> m.r <= Cost(col, r', r).r)
    ensures m.r <= SqDist(r, c, r', c') + At(d0, w, h, r', c').r
  {
    var row := Line(d0, w, h, r', false);
    RowPassCell(d0, d1, w, h, r', c);
    LineMinIsMin(row, c);
    assert row[c'].Fin?;
    assert col[r'].Fin? && col[r'].r <= Cost(row, c', c).r;
  }

  /** A column of row-pass minima all at FLT_MAX comes from a buffer all at FLT_MAX. */
  lemma TwoPassEmpty(d0: seq<Dist>, d1: seq<Dist>, col: seq<Dist>, w: int, h: int, c: int)
    requires |d0| == w * h && PassOf(d1, d0, w, h, false) && 0 <= c < w
    requires |col| == h && forall r' :: 0 <= r' < h ==> col[r'] == At(d1, w, h, r', c) && col[r'].Inf?
    ensures forall r', c' :: 0 <= r' < h && 0 <= c' < w ==> At(d0, w, h, r', c').Inf?
  {
    forall r', c' | 0 <= r' < h && 0 <= c' < w ensures At(d0, w, h, r', c').Inf? {
      assert col[r'].Inf?;
      RowPassCell(d0, d1, w, h, r', c);
      LineMinIsMin(Line(d0, w, h, r', false), c);
    }
  }

  /** The column minimum m at (r, c), when it is a distance, is reached at some cell of the
      buffer before the row pass. */
  lemma TwoPassWitness(d0: seq<Dist>, d1: seq<Dist>, col: seq<Dist>, m: Dist, w: int, h: int, r: int, c: int)
    requires |d0| == w * h && PassOf(d1, d0, w, h, false) && 0 <= r < h && 0 <= c < w
    requires |col| == h && forall r' :: 0 <= r' < h ==> col[r'] == At(d1, w, h, r', c)
    requires exists j :: 0 <= j < h && Cost(col, j, r) == m
    requires m.Fin?
    ensures exists r', c' :: 0 <= r' < h && 0 <= c' < w && At(d0, w, h, r', c').Fin?
                             && m.r == SqDist(r, c, r', c') + At(d0, w, h, r', c').r
  {
    var r0 :| 0 <= r0 < h && Cost(col, r0, r) == m;
    var row := Line(d0, w, h, r0, false);
    RowPassCell(d0, d1, w, h, r0, c);
    LineMinIsMin(row, c);
    var c0 :| 0 <= c0 < w && Cost(row, c0, c) == col[r0];
    assert At(d0, w, h, r0, c0).Fin? && m.r == SqDist(r, c, r0, c0) + At(d0, w, h, r0, c0).r;
  }

  /** The row pass followed by the column pass (src/df.c:92-93, 117-118) is the exact
      two-dimensional transform: the minimum over columns of the row-pass minima is the
      minimum over all cells. */
  lemma TwoPassExact(d0: seq<Dist>, d1: seq<Dist>, d2: seq<Dist>, w: int, h: int, r: int, c: int)
    requires |d0| == w * h && PassOf(d1, d0, w, h, false) && PassOf(d2, d1, w, h, true)
    requires 0 <= r < h && 0 <= c < w
    ensures IsGridMin(At(d2, w, h, r, c), d0, w, h, r, c)
  {
    var col := Line(d1, w, h, c, true);
    var m := At(d2, w, h, r, c);
    ColumnPassCell(d1, d2, w, h, r, c);
    LineMinIsMin(col, r);
    if m.Inf? {
      TwoPassEmpty(d0, d1, col, w, h, c);
    } else {
      TwoPassWitness(d0, d1, col, m, w, h, r, c);
      forall r', c' | 0 <= r' < h && 0 <= c' < w && At(d0, w, h, r', c').Fin?
        ensures m.r <= SqDist(r, c, r', c') + At(d0, w, h, r', c').r
      {
        TwoPassBound(d0, d1, col, m, w, h, r, c, r', c');
      }
    }
  }

  /** Which cells are seeded at distance 0: background cells when ink is far (the first pass
      of calc_df, src/df.c:88-90), ink cells otherwise (the second, src/df.c:113-115). */
  predicate Target(p: uint8, inkFar: bool) {
    if inkFar then p == 0 else p > 0
  }

  /** The seed of a cell: 0 on a target cell, FLT_MAX elsewhere. */
  function Seed(p: uint8, inkFar: bool): (s: Dist)
    ensures s == Fin(0.0) <==> Target(p, inkFar)
    ensures s == Inf <==> !Target(p, inkFar)
  {
    if Target(p, inkFar) then Fin(0.0) else Inf
  }

  /** m is the squared Euclidean distance from (r, c) to the nearest target cell of the mask,
      FLT_MAX when the mask has no target cell. */
  ghost predicate IsNearest(m: Dist, pixels: seq<uint8>, w: int, h: int, r: int, c: int, inkFar: bool)
    requires |pixels| == w * h
  {
    && (m.Inf? <==> forall r', c' :: 0 <= r' < h && 0 <= c' < w ==> !Target(pixels[Index(w, h, r', c', false)], inkFar))
    && (m.Fin? ==> exists r', c' :: 0 <= r' < h && 0 <= c' < w && Target(pixels[Index(w, h, r', c', false)], inkFar)
                                   && m.r == SqDist(r, c, r', c'))
    && (m.Fin? ==> forall r', c' :: 0 <= r' < h && 0 <= c' < w && Target(pixels[Index(w, h, r', c', false)], inkFar) ==>
                                   m.r <= SqDist(r, c, r', c'))
  }

  /** On a seeded buffer the two-dimensional minimum is the distance to the nearest target. */
  lemma SeededIsNearest(m: Dist, d: seq<Dist>, pixels: seq<uint8>, w: int, h: int, r: int, c: int, inkFar: bool)
    requires |d| == w * h && |pixels| == w * h
    requires forall k :: 0 <= k < w * h ==> d[k] == Seed(pixels[k], inkFar)
    requires IsGridMin(m, d, w, h, r, c)
    ensures IsNearest(m, pixels, w, h, r, c, inkFar)
  {
    if m.Fin? {
      var r0, c0 :| 0 <= r0 < h && 0 <= c0 < w && At(d, w, h, r0, c0).Fin?
                    && m.r == SqDist(r, c, r0, c0) + At(d, w, h, r0, c0).r;
      assert Target(pixels[Index(w, h, r0, c0, false)], inkFar);
      forall r', c' | 0 <= r' < h && 0 <= c' < w && Target(pixels[Index(w, h, r', c', false)], inkFar)
        ensures m.r <= SqDist(r, c, r', c')
      {
        assert At(d, w, h, r', c') == Fin(0.0);
      }
    } else {
      forall r', c' | 0 <= r' < h && 0 <= c' < w
        ensures !Target(pixels[Index(w, h, r', c', false)], inkFar)
      {
        assert At(d, w, h, r', c').Inf?;
      }
    }
  }

  /** The buffers of a DF: the pixel mask, the distances, and the two envelope stacks. */
  class DF {
    const pixels: array<uint8>
    const dists: array<Dist>
    const xinters: array<real>
    const verts: array<Vertex>
    const w: int
    const h: int
    var nXinters: int
    var nVerts: int
    const spread: int

    /** The sizes the buffers are given: w*h cells, and room on each stack for a line of
        either pass. */
    predicate Valid() {
      && w >= 0 && h >= 0
      && pixels.Length == w * h && dists.Length == w * h
      && xinters.Length >= Max(w, h) && verts.Length >= Max(w, h)
    }

    constructor(w: int, h: int, spread: int, pixels: array<uint8>, dists: array<Dist>,
                xinters: array<real>, verts: array<Vertex>)
      requires w >= 0 && h >= 0 && pixels.Length == w * h && dists.Length == w * h
      requires xinters.Length >= Max(w, h) && verts.Length >= Max(w, h)
      ensures Valid()
      ensures this.w == w && this.h == h && this.spread == spread
      ensures this.pixels == pixels && this.dists == dists
      ensures this.xinters == xinters && this.verts == verts
      ensures nXinters == 0 && nVerts == 0
    {
      this.w, this.h, this.spread := w, h, spread;
      this.pixels, this.dists := pixels, dists;
      this.xinters, this.verts := xinters, verts;
      nXinters, nVerts := 0, 0;
    }

    /** The stack counters as calc_df_pass keeps them: empty, or one more vertex than
        crossings, never more vertices than columns read. */
    predicate Counters(x: int)
      reads this
    {
      && 0 <= nVerts <= x && 0 <= nXinters
      && (nVerts == 0 ==> nXinters == 0)
      && (nVerts > 0 ==> nVerts == nXinters + 1)
    }

    /** Lines 34-67 of calc_df_pass: empty the stacks, then read line y, pushing each column
        that holds a distance. The stacks end as the lower envelope of the line's parabolas. */
    method BuildEnvelope(y: int, transpose: bool)
      requires Valid() && 0 <= y < Lines(w, h, transpose)
      modifies this, verts, xinters
      ensures Counters(Length(w, h, transpose))
      ensures EnvelopeOf(verts[..nVerts], xinters[..nXinters], Line(dists[..], w, h, y, transpose),
                         Length(w, h, transpose))
    {
      var wt := Length(w, h, transpose);
      nXinters := 0;
      nVerts := 0;
      ghost var f := Line(dists[..], w, h, y, transpose);
      for x := 0 to wt
        invariant Counters(x)
        invariant EnvelopeOf(verts[..nVerts], xinters[..nXinters], f, x)
      {
        var idx := Index(w, h, y, x, transpose);
        var cell := dists[idx];
        assert cell == f[x];
        if cell.Inf? {
          // A parabola at FLT_MAX is never part of the lower envelope.
          SkipColumn(verts[..nVerts], xinters[..nXinters], f, x, x + 1);
          continue;
        }
        PushVertex(Vertex(x, cell.r), f, x);
      }
    }

    /** Lines 47-66: pop the vertices the new vertex hides, record its crossing with the new
        top, and push it. */
    method PushVertex(vert: Vertex, ghost f: seq<Dist>, ghost x: nat)
      requires Valid() && x < |f| <= Max(w, h) && f[x].Fin? && vert == V(f, x)
      requires Counters(x) && EnvelopeOf(verts[..nVerts], xinters[..nXinters], f, x)
      modifies this, verts, xinters
      ensures Counters(x + 1)
      ensures EnvelopeOf(verts[..nVerts], xinters[..nXinters], f, x + 1)
    {
      if nVerts > 0 {
        var xinter := PopHidden(vert, f, x);
        ghost var vs, zs := verts[..nVerts], xinters[..nXinters];
        EndPops(vs, zs, vert, f, x, x + 1);
        assert nXinters < |f|;
        xinters[nXinters] := xinter;
        assert xinters[..nXinters + 1] == zs + [xinter];
        nXinters := nXinters + 1;
        assert verts[..nVerts] == vs;
        assert nVerts < |f|;
        verts[nVerts] := vert;
        assert verts[..nVerts + 1] == vs + [vert];
        assert xinters[..nXinters] == zs + [xinter];
        nVerts := nVerts + 1;
      } else {
        PushFirst(f, x, x + 1);
        assert nVerts < |f|;
        verts[nVerts] := vert;
        assert verts[..nVerts + 1] == [vert];
        nVerts := nVerts + 1;
      }
    }

    /** Lines 48-59: while the new vertex's crossing with the top lies left of the last
        crossing, the top is hidden and popped. Returns the crossing with the final top. */
    method PopHidden(vert: Vertex, ghost f: seq<Dist>, ghost x: nat) returns (xinter: real)
      requires Valid() && x < |f| <= Max(w, h) && f[x].Fin? && vert == V(f, x)
      requires Counters(x) && nVerts > 0 && EnvelopeOf(verts[..nVerts], xinters[..nXinters], f, x)
      modifies this
      ensures Counters(x) && nVerts > 0 && nVerts <= old(nVerts)
      ensures Popping(verts[..nVerts], xinters[..nXinters], vert, f, x)
      ensures nXinters == 0 || !(xinter < xinters[nXinters - 1])
      ensures xinter == Intersection(verts[nVerts - 1], vert)
    {
      StartPops(verts[..nVerts], xinters[..nXinters], f, x);
      TopLeftOf(verts[..nVerts], xinters[..nXinters], vert, f, x);
      xinter := Intersection(verts[nVerts - 1], vert);
      while nXinters > 0 && xinter < xinters[nXinters - 1]
        invariant Counters(x) && nVerts > 0 && nVerts <= old(nVerts)
        invariant Popping(verts[..nVerts], xinters[..nXinters], vert, f, x)
        invariant verts[nVerts - 1].x < vert.x
        invariant xinter == Intersection(verts[nVerts - 1], vert)
        decreases nVerts
      {
        xinter := PopTop(vert, f, x, xinter);
      }
    }

    /** Lines 55-58: one pop, and the crossing of the new vertex with the next top. */
    method PopTop(vert: Vertex, ghost f: seq<Dist>, ghost x: nat, xinter: real) returns (next: real)
      requires Valid() && x <= |f| <= Max(w, h) && Counters(x) && nXinters > 0
      requires Popping(verts[..nVerts], xinters[..nXinters], vert, f, x)
      requires verts[nVerts - 1].x < vert.x
      requires xinter == Intersection(verts[nVerts - 1], vert) && xinter < xinters[nXinters - 1]
      modifies this
      ensures nVerts == old(nVerts) - 1 && nXinters == old(nXinters) - 1
      ensures Counters(x) && nVerts > 0
      ensures Popping(verts[..nVerts], xinters[..nXinters], vert, f, x)
      ensures verts[nVerts - 1].x < vert.x
      ensures next == Intersection(verts[nVerts - 1], vert)
    {
      ghost var vs, zs := verts[..nVerts], xinters[..nXinters];
      assert vs[|vs| - 1] == verts[nVerts - 1] && zs[|zs| - 1] == xinters[nXinters - 1];
      PopStep(vs, zs, vert, f, x);
      assert vs[..nVerts - 1] == verts[..nVerts - 1];
      assert zs[..nXinters - 1] == xinters[..nXinters - 1];
      nXinters := nXinters - 1;
      nVerts := nVerts - 1;
      TopLeftOf(verts[..nVerts], xinters[..nXinters], vert, f, x);
      next := Intersection(verts[nVerts - 1], vert);
    }

    /** Lines 12-14: move on past every crossing that lies left of x. */
    method PassCrossings(i: int, x: int) returns (i': int)
      requires Valid() && 0 <= i <= nXinters <= xinters.Length
      requires forall m :: 0 <= m < i ==> xinters[m] < x as real
      ensures i <= i' <= nXinters
      ensures forall m :: 0 <= m < i' ==> xinters[m] < x as real
      ensures i' < nXinters ==> x as real <= xinters[i']
    {
      i' := i;
      while i' < nXinters && x as real > xinters[i']
        invariant i <= i' <= nXinters
        invariant forall m :: 0 <= m < i' ==> xinters[m] < x as real
      {
        i' := i' + 1;
      }
    }

    /** Lines 6-22 (march_parabolas): sweep line y, moving on to the next parabola at each
        crossing passed, and lower each cell to the current parabola's value there. Each cell of
        the line ends as the line's exact transform; no other cell changes. */
    method MarchParabolas(y: int, transpose: bool)
      requires Valid() && 0 <= y < Lines(w, h, transpose)
      requires Counters(Length(w, h, transpose)) && nVerts > 0
      requires Marchable(verts[..nVerts], xinters[..nXinters], Line(dists[..], w, h, y, transpose))
      modifies dists
      ensures forall x :: 0 <= x < Length(w, h, transpose) ==>
                dists[Index(w, h, y, x, transpose)] == LineMin(Line(old(dists[..]), w, h, y, transpose), x)
      ensures forall y', x :: 0 <= y' < Lines(w, h, transpose) && 0 <= x < Length(w, h, transpose) && y' != y ==>
                dists[Index(w, h, y', x, transpose)] == old(dists[Index(w, h, y', x, transpose)])
    {
      var wt := Length(w, h, transpose);
      ghost var d0 := dists[..];
      ghost var f := Line(d0, w, h, y, transpose);
      ghost var vs, zs := verts[..nVerts], xinters[..nXinters];
      var i := 0;
      for x := 0 to wt
        invariant 0 <= i <= nXinters
        invariant forall m :: 0 <= m < i ==> zs[m] < x as real
        invariant forall x' :: 0 <= x' < x ==> dists[Index(w, h, y, x', transpose)] == LineMin(f, x')
        invariant forall x' :: x <= x' < wt ==> dists[Index(w, h, y, x', transpose)] == f[x']
        invariant forall y', x' :: 0 <= y' < Lines(w, h, transpose) && 0 <= x' < wt && y' != y ==>
                    dists[Index(w, h, y', x', transpose)] == d0[Index(w, h, y', x', transpose)]
      {
        i := PassCrossings(i, x);
        assert Covers(zs, i, x);
        var idx := Index(w, h, y, x, transpose);
        // Lines 16-17: dx * dx + y with dx = x - verts[i].x.
        var dist := Parabola(verts[i], x as real);
        var cell := dists[idx];
        assert verts[i] == vs[i] && cell == f[x];
        var lowered := if cell.Inf? || dist < cell.r then Fin(dist) else cell;
        assert lowered == Lowered(f[x], vs[i], x);
        OtherCells(w, h, y, x, transpose);
        dists[idx] := lowered;
      }
    }

    /** Lines 29-75 (calc_df_pass): each line in turn, rows when transpose is false and columns
        when it is true, is replaced by its exact one-dimensional transform. */
    method CalcDfPass(transpose: bool)
      requires Valid()
      modifies this, dists, verts, xinters
      ensures Valid()
      ensures PassOf(dists[..], old(dists[..]), w, h, transpose)
    {
      var ht, wt := Lines(w, h, transpose), Length(w, h, transpose);
      ghost var d0 := dists[..];
      for y := 0 to ht
        invariant Valid()
        invariant forall y', x :: 0 <= y' < y && 0 <= x < wt ==>
                    dists[Index(w, h, y', x, transpose)] == LineMin(Line(d0, w, h, y', transpose), x)
        invariant forall y', x :: y <= y' < ht && 0 <= x < wt ==>
                    dists[Index(w, h, y', x, transpose)] == d0[Index(w, h, y', x, transpose)]
      {
        BuildEnvelope(y, transpose);
        ghost var f := Line(dists[..], w, h, y, transpose);
        assert f == Line(d0, w, h, y, transpose) by {
          forall x | 0 <= x < wt ensures f[x] == Line(d0, w, h, y, transpose)[x] {
            assert f[x] == dists[Index(w, h, y, x, transpose)];
          }
        }
        if nVerts > 0 {
          EnvelopeMarchable(verts[..nVerts], xinters[..nXinters], f);
          MarchParabolas(y, transpose);
        } else {
          forall x | 0 <= x < wt ensures dists[Index(w, h, y, x, transpose)] == LineMin(f, x) {
            LineMinOfEmpty(f, x);
            assert dists[Index(w, h, y, x, transpose)] == f[x];
          }
        }
      }
    }

    /** The seeding loops of calc_df (src/df.c:88-90 with ink far, 113-115 with background
        far): target cells get 0, every other cell FLT_MAX. */
    method SeedDists(inkFar: bool)
      requires Valid()
      modifies dists
      ensures forall k :: 0 <= k < w * h ==> dists[k] == Seed(pixels[k], inkFar)
    {
      for i := 0 to w * h
        invariant forall k :: 0 <= k < i ==> dists[k] == Seed(pixels[k], inkFar)
      {
        if inkFar {
          dists[i] := if pixels[i] > 0 then Inf else Fin(0.0);
        } else {
          dists[i] := if pixels[i] == 0 then Inf else Fin(0.0);
        }
      }
    }

    /** One half of calc_df before its fusion step (src/df.c:88-93, 113-118): seed, then the
        row pass and the column pass. Every cell ends holding its squared Euclidean distance
        to the nearest target cell of the mask. */
    method SquaredDistances(inkFar: bool)
      requires Valid()
      modifies this, dists, verts, xinters
      ensures Valid()
      ensures forall r, c :: 0 <= r < h && 0 <= c < w ==>
                IsNearest(dists[Index(w, h, r, c, false)], pixels[..], w, h, r, c, inkFar)
    {
      SeedDists(inkFar);
      ghost var d0 := dists[..];
      CalcDfPass(false);
      ghost var d1 := dists[..];
      CalcDfPass(true);
      forall r, c | 0 <= r < h && 0 <= c < w
        ensures IsNearest(dists[Index(w, h, r, c, false)], pixels[..], w, h, r, c, inkFar)
      {
        TwoPassExact(d0, d1, dists[..], w, h, r, c);
        SeededIsNearest(dists[Index(w, h, r, c, false)], d0, pixels[..], w, h, r, c, inkFar);
      }
    }
  }
}
