/** The height grid of heightmap_to_stl (Converter.py): the grid is loaded,
    scaled and lowered in place, then laid out as the vertex list. */
module Heights {
  import opened Seqs
  import opened Geometry

  /** The smallest element of a non-empty sequence. */
  function SeqMin(s: seq<real>): (m: real)
    requires |s| > 0
    ensures exists i :: 0 <= i < |s| && s[i] == m
    ensures forall i :: 0 <= i < |s| ==> m <= s[i]
  {
    if |s| == 1 then s[0]
    else
      var rest := SeqMin(s[..|s| - 1]);
      if s[|s| - 1] < rest then s[|s| - 1] else rest
  }

  /** np.min over the whole grid. */
  function GridMin(g: seq<seq<real>>): real
    requires IsGrid(g) && |g| > 0 && Width(g) > 0
  {
    FlattenUniform(g, Width(g));
    MulMono(1, |g|, Width(g));
    SeqMin(Flatten(g))
  }

  /** GridMin is a sample of the grid and no sample is below it. */
  lemma GridMinIsMin(g: seq<seq<real>>)
    requires IsGrid(g) && |g| > 0 && Width(g) > 0
    ensures exists y, x :: 0 <= y < |g| && 0 <= x < Width(g) && g[y][x] == GridMin(g)
    ensures forall y, x :: 0 <= y < |g| && 0 <= x < Width(g) ==> GridMin(g) <= g[y][x]
  {
    var w := Width(g);
    var f := Flatten(g);
    FlattenUniform(g, w);
    MulMono(1, |g|, w);
    var i :| 0 <= i < |f| && f[i] == GridMin(g);
    var y, x := SplitIndex(i, |g|, w);
    FlattenAt(g, w, y, x);
    forall y', x' | 0 <= y' < |g| && 0 <= x' < w
      ensures GridMin(g) <= g[y'][x']
    {
      FlattenAt(g, w, y', x');
    }
  }

  /** A sample no greater than any other is GridMin. */
  lemma MinUnique(g: seq<seq<real>>, m: real)
    requires IsGrid(g) && |g| > 0 && Width(g) > 0
    requires exists y, x :: 0 <= y < |g| && 0 <= x < Width(g) && g[y][x] == m
    requires forall y, x :: 0 <= y < |g| && 0 <= x < Width(g) ==> m <= g[y][x]
    ensures m == GridMin(g)
  {
    GridMinIsMin(g);
  }

  /** Every sample times s (numpy's in-place `*=`). */
  function ScaledGrid(g: seq<seq<real>>, s: real): (r: seq<seq<real>>)
    ensures |r| == |g| && forall y :: 0 <= y < |g| ==> |r[y]| == |g[y]|
    ensures IsGrid(g) ==> IsGrid(r) && Width(r) == Width(g)
  {
    seq(|g|, y requires 0 <= y < |g| => seq(|g[y]|, x requires 0 <= x < |g[y]| => g[y][x] * s))
  }

  /** Every sample minus c (numpy's in-place `-=`). */
  function LoweredGrid(g: seq<seq<real>>, c: real): (r: seq<seq<real>>)
    ensures |r| == |g| && forall y :: 0 <= y < |g| ==> |r[y]| == |g[y]|
    ensures IsGrid(g) ==> IsGrid(r) && Width(r) == Width(g)
  {
    seq(|g|, y requires 0 <= y < |g| => seq(|g[y]|, x requires 0 <= x < |g[y]| => g[y][x] - c))
  }

  /** The heights after lines 68 and 72: the raster scaled by sz, then lowered
      by the minimum raw sample (taken before the scaling). */
  function Normalized(raster: seq<seq<real>>, sz: real): (n: seq<seq<real>>)
    requires IsGrid(raster) && |raster| > 0 && Width(raster) > 0
    ensures |n| == |raster| && IsGrid(n) && Width(n) == Width(raster)
  {
    LoweredGrid(ScaledGrid(raster, sz), GridMin(raster))
  }

  /** Each normalised height is raw * sz - min(raw), and the grid keeps its shape. */
  lemma NormalizedAt(raster: seq<seq<real>>, sz: real)
    requires IsGrid(raster) && |raster| > 0 && Width(raster) > 0
    ensures var n := Normalized(raster, sz);
      forall y, x :: 0 <= y < |n| && 0 <= x < Width(n) ==> n[y][x] == raster[y][x] * sz - GridMin(raster)
  {
  }

  // ---------------------------------------------------------------------------
  // The grid operations, in place.
  // ---------------------------------------------------------------------------

  /** np.array(img): a fresh grid array holding the raster. */
  method LoadGrid(raster: seq<seq<real>>) returns (h: array2<real>)
    requires IsGrid(raster)
    ensures fresh(h) && h.Length0 == |raster| && h.Length1 == Width(raster)
    ensures Contents(h) == raster
    ensures forall y, x :: 0 <= y < h.Length0 && 0 <= x < h.Length1 ==> h[y, x] == raster[y][x]
  {
    h := new real[|raster|, Width(raster)];
    var y := 0;
    while y < |raster|
      invariant 0 <= y <= |raster|
      invariant forall i, j :: 0 <= i < y && 0 <= j < h.Length1 ==> h[i, j] == raster[i][j]
    {
      var x := 0;
      while x < Width(raster)
        invariant 0 <= x <= Width(raster)
        invariant forall i, j :: 0 <= i < y && 0 <= j < h.Length1 ==> h[i, j] == raster[i][j]
        invariant forall j :: 0 <= j < x ==> h[y, j] == raster[y][j]
      {
        h[y, x] := raster[y][x];
        x := x + 1;
      }
      y := y + 1;
    }
    SameGrid(Contents(h), raster);
  }

  /** np.min(height_data): a sample that no other sample is below. */
  method MinHeight(h: array2<real>) returns (m: real)
    requires h.Length0 > 0 && h.Length1 > 0
    ensures exists y, x :: 0 <= y < h.Length0 && 0 <= x < h.Length1 && h[y, x] == m
    ensures forall y, x :: 0 <= y < h.Length0 && 0 <= x < h.Length1 ==> m <= h[y, x]
    ensures m == GridMin(Contents(h))
  {
    m := h[0, 0];
    var y := 0;
    while y < h.Length0
      invariant 0 <= y <= h.Length0
      invariant exists i, j :: 0 <= i < h.Length0 && 0 <= j < h.Length1 && h[i, j] == m
      invariant forall i, j :: 0 <= i < y && 0 <= j < h.Length1 ==> m <= h[i, j]
    {
      var x := 0;
      while x < h.Length1
        invariant 0 <= x <= h.Length1
        invariant exists i, j :: 0 <= i < h.Length0 && 0 <= j < h.Length1 && h[i, j] == m
        invariant forall i, j :: 0 <= i < y && 0 <= j < h.Length1 ==> m <= h[i, j]
        invariant forall j :: 0 <= j < x ==> m <= h[y, j]
      {
        if h[y, x] < m {
          m := h[y, x];
        }
        x := x + 1;
      }
      y := y + 1;
    }
    ArrayMin(h, m);
  }

  /** A sample of the array that no sample is below is GridMin of its contents. */
  lemma ArrayMin(h: array2<real>, m: real)
    requires h.Length0 > 0 && h.Length1 > 0
    requires exists y, x :: 0 <= y < h.Length0 && 0 <= x < h.Length1 && h[y, x] == m
    requires forall y, x :: 0 <= y < h.Length0 && 0 <= x < h.Length1 ==> m <= h[y, x]
    ensures m == GridMin(Contents(h))
  {
    var g := Contents(h);
    var i, j :| 0 <= i < h.Length0 && 0 <= j < h.Length1 && h[i, j] == m;
    assert g[i][j] == m;
    MinUnique(g, m);
  }

  /** height_data *= z_scale (line 68). */
  method Scale(h: array2<real>, s: real)
    modifies h
    ensures forall y, x :: 0 <= y < h.Length0 && 0 <= x < h.Length1 ==> h[y, x] == old(h[y, x]) * s
    ensures Contents(h) == ScaledGrid(old(Contents(h)), s)
  {
    ghost var before := Contents(h);
    var y := 0;
    while y < h.Length0
      invariant 0 <= y <= h.Length0
      invariant forall i, j :: 0 <= i < h.Length0 && 0 <= j < h.Length1 ==>
                  h[i, j] == if i < y then old(h[i, j]) * s else old(h[i, j])
    {
      var x := 0;
      while x < h.Length1
        invariant 0 <= x <= h.Length1
        invariant forall i, j :: 0 <= i < h.Length0 && 0 <= j < h.Length1 ==>
                    h[i, j] == if i < y || (i == y && j < x) then old(h[i, j]) * s else old(h[i, j])
      {
        h[y, x] := h[y, x] * s;
        x := x + 1;
      }
      y := y + 1;
    }
    forall i, j | 0 <= i < h.Length0 && 0 <= j < h.Length1
      ensures Contents(h)[i][j] == ScaledGrid(before, s)[i][j]
    {
      assert before[i][j] == old(h[i, j]);
    }
    SameGrid(Contents(h), ScaledGrid(before, s));
  }

  /** height_data -= zMin (line 72). */
  method Lower(h: array2<real>, c: real)
    modifies h
    ensures forall y, x :: 0 <= y < h.Length0 && 0 <= x < h.Length1 ==> h[y, x] == old(h[y, x]) - c
    ensures Contents(h) == LoweredGrid(old(Contents(h)), c)
  {
    ghost var before := Contents(h);
    var y := 0;
    while y < h.Length0
      invariant 0 <= y <= h.Length0
      invariant forall i, j :: 0 <= i < h.Length0 && 0 <= j < h.Length1 ==>
                  h[i, j] == if i < y then old(h[i, j]) - c else old(h[i, j])
    {
      var x := 0;
      while x < h.Length1
        invariant 0 <= x <= h.Length1
        invariant forall i, j :: 0 <= i < h.Length0 && 0 <= j < h.Length1 ==>
                    h[i, j] == if i < y || (i == y && j < x) then old(h[i, j]) - c else old(h[i, j])
      {
        h[y, x] := h[y, x] - c;
        x := x + 1;
      }
      y := y + 1;
    }
    SameGrid(Contents(h), LoweredGrid(before, c));
  }

  /** Lines 59-72: load the raster, take its minimum, scale by sz, lower by
      that minimum. */
  method NormalizeHeights(raster: seq<seq<real>>, sz: real) returns (h: array2<real>)
    requires IsGrid(raster) && |raster| > 0 && Width(raster) > 0
    ensures fresh(h) && Contents(h) == Normalized(raster, sz)
  {
    h := LoadGrid(raster);
    var zMin := MinHeight(h);
    assert zMin == GridMin(raster);
    Scale(h, sz);
    Lower(h, zMin);
  }

  // ---------------------------------------------------------------------------
  // What the normalisation guarantees.
  // ---------------------------------------------------------------------------

  /** Every normalised height is raw * sz - min(raw). With sz = 1 the
      heights are non-negative and the lowest is exactly 0. */
  lemma UnitScaleBaseline(raster: seq<seq<real>>)
    requires IsGrid(raster) && |raster| > 0 && Width(raster) > 0
    ensures var n := Normalized(raster, 1.0);
      (forall y, x :: 0 <= y < |n| && 0 <= x < Width(n) ==> n[y][x] >= 0.0) &&
      (exists y, x :: 0 <= y < |n| && 0 <= x < Width(n) && n[y][x] == 0.0)
  {
    GridMinIsMin(raster);
    var n := Normalized(raster, 1.0);
    var y, x :| 0 <= y < |raster| && 0 <= x < Width(raster) && raster[y][x] == GridMin(raster);
    assert n[y][x] == 0.0;
  }

  /** For a non-negative scale the lowest normalised height is
      min(raw) * (sz - 1), which is 0 only when sz = 1 or min(raw) = 0. */
  lemma NormalizedMinimum(raster: seq<seq<real>>, sz: real)
    requires IsGrid(raster) && |raster| > 0 && Width(raster) > 0 && sz >= 0.0
    ensures var n, m := Normalized(raster, sz), GridMin(raster);
      (forall y, x :: 0 <= y < |n| && 0 <= x < Width(n) ==> m * (sz - 1.0) <= n[y][x]) &&
      (exists y, x :: 0 <= y < |n| && 0 <= x < Width(n) && n[y][x] == m * (sz - 1.0))
  {
    var n, m := Normalized(raster, sz), GridMin(raster);
    forall y, x | 0 <= y < |n| && 0 <= x < Width(n)
      ensures m * (sz - 1.0) <= n[y][x]
    {
      NormalizedAbove(raster, sz, y, x);
    }
    GridMinIsMin(raster);
    var y, x :| 0 <= y < |raster| && 0 <= x < Width(raster) && raster[y][x] == m;
    NormalizedAbove(raster, sz, y, x);
  }

  /** One normalised height against the bound, with equality at the minimum. */
  lemma NormalizedAbove(raster: seq<seq<real>>, sz: real, y: nat, x: nat)
    requires IsGrid(raster) && |raster| > 0 && Width(raster) > 0 && sz >= 0.0
    requires y < |raster| && x < Width(raster)
    ensures var n, m := Normalized(raster, sz), GridMin(raster);
      m * (sz - 1.0) <= n[y][x] && (raster[y][x] == m ==> n[y][x] == m * (sz - 1.0))
  {
    var n, m := Normalized(raster, sz), GridMin(raster);
    GridMinIsMin(raster);
    assert n[y][x] == raster[y][x] * sz - m;
    assert m * (sz - 1.0) == m * sz - m;
    ScaleMono(m, raster[y][x], sz);
  }

  lemma ScaleMono(a: real, b: real, c: real)
    requires a <= b && c >= 0.0
    ensures a * c <= b * c
  {
  }

  /** A single sample of height 1 scaled by 2 ends at height 1, not 0: for
      sz other than 1 the model is not lowered onto z = 0. */
  lemma NoBaselineForOtherScales()
    ensures Normalized([[1.0]], 2.0) == [[1.0]]
  {
    var g := [[1.0]];
    assert Flatten(g) == [1.0] by {
      assert g[..0] == [];
    }
    assert GridMin(g) == 1.0;
    var n := Normalized(g, 2.0);
    assert n[0][0] == 1.0;
    assert n[0] == [1.0];
  }

  // ---------------------------------------------------------------------------
  // The vertex list.
  // ---------------------------------------------------------------------------

  /** Row y of the top block: (x * sx, y * sy, h[y][x]) for each column. */
  function TopRowPoints(g: seq<seq<real>>, y: nat, sx: real, sy: real): seq<Point>
    requires y < |g| && IsGrid(g)
  {
    seq(Width(g), x requires 0 <= x < Width(g) => Point(x as real * sx, y as real * sy, g[y][x]))
  }

  /** Row y of the bottom block: the same positions at z = 0. */
  function BottomRowPoints(cols: nat, y: nat, sx: real, sy: real): seq<Point>
  {
    seq(cols, x requires 0 <= x < cols => Point(x as real * sx, y as real * sy, 0.0))
  }

  function TopBlock(g: seq<seq<real>>, sx: real, sy: real): seq<seq<Point>>
    requires IsGrid(g)
  {
    seq(|g|, y requires 0 <= y < |g| => TopRowPoints(g, y, sx, sy))
  }

  function BottomBlock(rows: nat, cols: nat, sx: real, sy: real): seq<seq<Point>>
  {
    seq(rows, y requires 0 <= y < rows => BottomRowPoints(cols, y, sx, sy))
  }

  /** The vertex list of lines 75-86: the top block, then the bottom block. */
  function VertexList(g: seq<seq<real>>, sx: real, sy: real): seq<Point>
    requires IsGrid(g)
  {
    Flatten(TopBlock(g, sx, sy)) + Flatten(BottomBlock(|g|, Width(g), sx, sy))
  }

  /** The list holds 2 * rows * cols vertices, rows * cols per block. */
  lemma VertexCount(g: seq<seq<real>>, sx: real, sy: real)
    requires IsGrid(g)
    ensures |Flatten(TopBlock(g, sx, sy))| == |g| * Width(g)
    ensures |Flatten(BottomBlock(|g|, Width(g), sx, sy))| == |g| * Width(g)
    ensures |VertexList(g, sx, sy)| == 2 * |g| * Width(g)
  {
    FlattenUniform(TopBlock(g, sx, sy), Width(g));
    FlattenUniform(BottomBlock(|g|, Width(g), sx, sy), Width(g));
    assert 2 * |g| * Width(g) == |g| * Width(g) + |g| * Width(g);
  }

  /** Vertex y * cols + x is the sample (y, x) and vertex
      rows * cols + y * cols + x lies below it at z = 0. */
  lemma VertexAt(g: seq<seq<real>>, sx: real, sy: real, y: nat, x: nat)
    requires IsGrid(g) && y < |g| && x < Width(g)
    ensures |VertexList(g, sx, sy)| == |g| * Width(g) + |g| * Width(g)
    ensures y * Width(g) + x < |g| * Width(g)
    ensures VertexList(g, sx, sy)[y * Width(g) + x] == Point(x as real * sx, y as real * sy, g[y][x])
    ensures VertexList(g, sx, sy)[|g| * Width(g) + y * Width(g) + x] == Point(x as real * sx, y as real * sy, 0.0)
  {
    var cols := Width(g);
    var top, bottom := TopBlock(g, sx, sy), BottomBlock(|g|, cols, sx, sy);
    VertexCount(g, sx, sy);
    FlattenAt(top, cols, y, x);
    FlattenAt(bottom, cols, y, x);
  }

  /** Appends one row of vertices, x = 0 .. cols - 1 (the inner loops of
      lines 78-86). */
  method AppendVertexRow(start: seq<Point>, h: array2<real>, y: nat, bottom: bool, sx: real, sy: real)
    returns (v: seq<Point>)
    requires y < h.Length0
    ensures v == start + (if bottom then BottomRowPoints(h.Length1, y, sx, sy) else TopRowPoints(Contents(h), y, sx, sy))
    ensures v == start + VertexBlock(h, bottom, sx, sy)[y]
  {
    var row := if bottom then BottomRowPoints(h.Length1, y, sx, sy) else TopRowPoints(Contents(h), y, sx, sy);
    v := start;
    var x := 0;
    while x < h.Length1
      invariant 0 <= x <= h.Length1
      invariant v == start + row[..x]
    {
      var z := if bottom then 0.0 else h[y, x];
      assert row[x] == Point(x as real * sx, y as real * sy, z);
      v := v + [Point(x as real * sx, y as real * sy, z)];
      assert row[..x + 1] == row[..x] + [row[x]];
      x := x + 1;
    }
    assert row[..x] == row;
  }

  /** The rows appended by one of the two nested loops of lines 75-86. */
  function VertexBlock(h: array2<real>, bottom: bool, sx: real, sy: real): (b: seq<seq<Point>>)
    reads h
    ensures |b| == h.Length0
  {
    if bottom then BottomBlock(|Contents(h)|, Width(Contents(h)), sx, sy) else TopBlock(Contents(h), sx, sy)
  }

  /** One nested loop of lines 75-86: every row of one block, in order. */
  method AppendVertexBlock(start: seq<Point>, h: array2<real>, bottom: bool, sx: real, sy: real)
    returns (v: seq<Point>)
    ensures v == start + Flatten(VertexBlock(h, bottom, sx, sy))
  {
    ghost var block := VertexBlock(h, bottom, sx, sy);
    v := start;
    var y := 0;
    while y < h.Length0
      invariant 0 <= y <= h.Length0
      invariant v == start + Flatten(block[..y])
    {
      v := AppendVertexRow(v, h, y, bottom, sx, sy);
      FlattenPrefixStep(start, block, y);
      y := y + 1;
    }
    assert block[..y] == block;
  }

  /** Lines 75-86: the vertex list of the (normalised) grid. */
  method BuildVertices(h: array2<real>, sx: real, sy: real) returns (v: seq<Point>)
    ensures v == VertexList(Contents(h), sx, sy)
  {
    v := AppendVertexBlock([], h, false, sx, sy);
    v := AppendVertexBlock(v, h, true, sx, sy);
  }
}
