/** The second half of assemble_image (Stitcher.py): the bounding box of the
    placed positions, a blank canvas of that many tiles, and every placed
    piece copied into its cell of the canvas. */
module Canvas {
  import opened Seqs
  import opened Tiles
  import opened Matching
  import opened Placement

  // ---------------------------------------------------------------------------
  // The grid dimensions (lines 67-72).
  // ---------------------------------------------------------------------------

  /** min() of a non-empty sequence. */
  function Least(s: seq<int>): (m: int)
    requires |s| > 0
    ensures (exists i :: 0 <= i < |s| && s[i] == m) && forall i :: 0 <= i < |s| ==> m <= s[i]
  {
    if |s| == 1 then s[0]
    else
      var rest := Least(s[..|s| - 1]);
      if s[|s| - 1] < rest then s[|s| - 1] else rest
  }

  /** max() of a non-empty sequence. */
  function Greatest(s: seq<int>): (m: int)
    requires |s| > 0
    ensures (exists i :: 0 <= i < |s| && s[i] == m) && forall i :: 0 <= i < |s| ==> s[i] <= m
  {
    if |s| == 1 then s[0]
    else
      var rest := Greatest(s[..|s| - 1]);
      if s[|s| - 1] > rest then s[|s| - 1] else rest
  }

  function RowsOf(layout: seq<Pos>): (r: seq<int>)
    ensures |r| == |layout| && forall i :: 0 <= i < |layout| ==> r[i] == layout[i].row
  {
    seq(|layout|, i requires 0 <= i < |layout| => layout[i].row)
  }

  function ColsOf(layout: seq<Pos>): (c: seq<int>)
    ensures |c| == |layout| && forall i :: 0 <= i < |layout| ==> c[i] == layout[i].col
  {
    seq(|layout|, i requires 0 <= i < |layout| => layout[i].col)
  }

  /** The grid of tiles the canvas holds: its top-left position and its
      size in tiles (grid_rows, grid_cols). */
  datatype Box = Box(minRow: int, minCol: int, rows: nat, cols: nat)
  {
    predicate Holds(p: Pos)
    {
      minRow <= p.row < minRow + rows && minCol <= p.col < minCol + cols
    }
  }

  /** Lines 67-72: the smallest box holding every position of the layout. */
  function BoundingBox(layout: seq<Pos>): (b: Box)
    requires |layout| > 0
    ensures b.rows >= 1 && b.cols >= 1
    ensures forall i :: 0 <= i < |layout| ==> b.Holds(layout[i])
    ensures exists i :: 0 <= i < |layout| && layout[i].row == b.minRow
    ensures exists i :: 0 <= i < |layout| && layout[i].row == b.minRow + b.rows - 1
    ensures exists i :: 0 <= i < |layout| && layout[i].col == b.minCol
    ensures exists i :: 0 <= i < |layout| && layout[i].col == b.minCol + b.cols - 1
  {
    var r0, r1 := Least(RowsOf(layout)), Greatest(RowsOf(layout));
    var c0, c1 := Least(ColsOf(layout)), Greatest(ColsOf(layout));
    assert r0 <= RowsOf(layout)[0] <= r1 && c0 <= ColsOf(layout)[0] <= c1;
    Box(r0, c0, r1 - r0 + 1, c1 - c0 + 1)
  }

  /** No box with fewer rows or columns holds the layout. */
  lemma BoundingBoxSmallest(layout: seq<Pos>, other: Box)
    requires |layout| > 0 && forall i :: 0 <= i < |layout| ==> other.Holds(layout[i])
    ensures BoundingBox(layout).rows <= other.rows && BoundingBox(layout).cols <= other.cols
  {
    var b := BoundingBox(layout);
    var i0 :| 0 <= i0 < |layout| && layout[i0].row == b.minRow;
    var i1 :| 0 <= i1 < |layout| && layout[i1].row == b.minRow + b.rows - 1;
    var j0 :| 0 <= j0 < |layout| && layout[j0].col == b.minCol;
    var j1 :| 0 <= j1 < |layout| && layout[j1].col == b.minCol + b.cols - 1;
    assert other.Holds(layout[i0]) && other.Holds(layout[i1]);
    assert other.Holds(layout[j0]) && other.Holds(layout[j1]);
  }

  // ---------------------------------------------------------------------------
  // The canvas as a grid of samples.
  // ---------------------------------------------------------------------------

  /** np.zeros((rows, cols)). */
  function Zeros(rows: nat, cols: nat): (z: seq<seq<real>>)
    ensures |z| == rows && IsGrid(z) && (rows > 0 ==> Width(z) == cols)
    ensures forall y, x :: 0 <= y < rows && 0 <= x < cols ==> z[y][x] == 0.0
  {
    seq(rows, y requires 0 <= y < rows => seq(cols, x requires 0 <= x < cols => 0.0))
  }

  /** The slice assignment of line 84: the h x w block at (y0, x0) becomes
      the tile, every other sample stays. */
  function Paste(g: seq<seq<real>>, tile: Image, y0: nat, x0: nat, h: nat, w: nat): (r: seq<seq<real>>)
    requires IsGrid(g) && IsTile(tile, h, w) && y0 + h <= |g| && x0 + w <= Width(g)
    ensures |r| == |g| && IsGrid(r) && Width(r) == Width(g)
  {
    seq(|g|, y requires 0 <= y < |g| => seq(Width(g), x requires 0 <= x < Width(g) =>
      if y0 <= y < y0 + h && x0 <= x < x0 + w then tile[y - y0][x - x0] else g[y][x]))
  }

  /** The first sample row of tile cell p: adjusted_row * piece_height (line 82). */
  function TopOf(b: Box, p: Pos, h: nat): nat
    requires b.Holds(p)
  {
    (p.row - b.minRow) * h
  }

  /** The first sample column of tile cell p: adjusted_col * piece_width (line 83). */
  function LeftOf(b: Box, p: Pos, w: nat): nat
    requires b.Holds(p)
  {
    (p.col - b.minCol) * w
  }

  /** A cell of the box lies inside the canvas of rows * h x cols * w samples. */
  lemma BlockFits(b: Box, p: Pos, h: nat, w: nat)
    requires b.Holds(p)
    ensures TopOf(b, p, h) + h <= b.rows * h && LeftOf(b, p, w) + w <= b.cols * w
  {
    MulMono(p.row - b.minRow + 1, b.rows, h);
    MulMono(p.col - b.minCol + 1, b.cols, w);
  }

  lemma CanvasNotEmpty(b: Box, h: nat, w: nat)
    requires b.rows >= 1 && b.cols >= 1 && h >= 1 && w >= 1
    ensures b.rows * h >= 1 && b.cols * w >= 1
  {
    MulMono(1, b.rows, h);
    MulMono(1, b.cols, w);
  }

  /** What the canvas loop needs: every placed key names a tile of the
      common h x w shape, and the box holds every position. */
  predicate Ready(pieces: seq<Image>, order: seq<nat>, layout: seq<Pos>, b: Box, h: nat, w: nat)
  {
    |order| == |layout| && b.rows >= 1 && b.cols >= 1 &&
    (forall i :: 0 <= i < |order| ==> order[i] < |pieces| && IsTile(pieces[order[i]], h, w)) &&
    forall i :: 0 <= i < |layout| ==> b.Holds(layout[i])
  }

  /** The canvas after the first k passes of the loop of lines 79-84. */
  function PasteAll(pieces: seq<Image>, order: seq<nat>, layout: seq<Pos>, b: Box, h: nat, w: nat, k: nat): (g: seq<seq<real>>)
    requires Ready(pieces, order, layout, b, h, w) && k <= |order| && h >= 1 && w >= 1
    ensures |g| == b.rows * h && IsGrid(g) && Width(g) == b.cols * w
  {
    CanvasNotEmpty(b, h, w);
    if k == 0 then Zeros(b.rows * h, b.cols * w)
    else
      var p := layout[k - 1];
      BlockFits(b, p, h, w);
      Paste(PasteAll(pieces, order, layout, b, h, w, k - 1), pieces[order[k - 1]], TopOf(b, p, h), LeftOf(b, p, w), h, w)
  }

  /** Sample (y, x) lies in the tile cell of position p. */
  predicate Covers(b: Box, p: Pos, h: nat, w: nat, y: int, x: int)
  {
    b.Holds(p) && TopOf(b, p, h) <= y < TopOf(b, p, h) + h && LeftOf(b, p, w) <= x < LeftOf(b, p, w) + w
  }

  /** The last of the first k pieces whose cell covers (y, x), or -1. */
  function LastCover(layout: seq<Pos>, b: Box, h: nat, w: nat, k: nat, y: int, x: int): (c: int)
    requires k <= |layout|
    ensures -1 <= c < k && (c >= 0 ==> Covers(b, layout[c], h, w, y, x))
    ensures forall i :: c < i < k ==> !Covers(b, layout[i], h, w, y, x)
  {
    if k == 0 then -1
    else if Covers(b, layout[k - 1], h, w, y, x) then k - 1
    else LastCover(layout, b, h, w, k - 1, y, x)
  }

  /** The sample (y, x) of piece c's cell, or 0 when c is -1. */
  function Shown(pieces: seq<Image>, order: seq<nat>, layout: seq<Pos>, b: Box, h: nat, w: nat,
                 c: int, y: int, x: int): real
    requires Ready(pieces, order, layout, b, h, w) && -1 <= c < |order|
    requires c >= 0 ==> Covers(b, layout[c], h, w, y, x)
  {
    if c < 0 then 0.0 else pieces[order[c]][y - TopOf(b, layout[c], h)][x - LeftOf(b, layout[c], w)]
  }

  /** Each sample of the canvas shows the last piece pasted over it, or 0
      where no piece was. */
  lemma {:induction false} PasteAllAt(pieces: seq<Image>, order: seq<nat>, layout: seq<Pos>, b: Box,
                                      h: nat, w: nat, k: nat, y: nat, x: nat)
    requires Ready(pieces, order, layout, b, h, w) && k <= |order| && h >= 1 && w >= 1
    requires y < b.rows * h && x < b.cols * w
    ensures PasteAll(pieces, order, layout, b, h, w, k)[y][x] ==
            Shown(pieces, order, layout, b, h, w, LastCover(layout, b, h, w, k, y, x), y, x)
    decreases k
  {
    if k == 0 {
      assert PasteAll(pieces, order, layout, b, h, w, 0) == Zeros(b.rows * h, b.cols * w);
    } else if Covers(b, layout[k - 1], h, w, y, x) {
      PasteAllCovered(pieces, order, layout, b, h, w, k, y, x);
    } else {
      PasteAllAt(pieces, order, layout, b, h, w, k - 1, y, x);
      PasteAllMissed(pieces, order, layout, b, h, w, k, y, x);
    }
  }

  /** Pass k - 1 writes the samples of its own cell ... */
  lemma PasteAllCovered(pieces: seq<Image>, order: seq<nat>, layout: seq<Pos>, b: Box,
                        h: nat, w: nat, k: nat, y: nat, x: nat)
    requires Ready(pieces, order, layout, b, h, w) && 0 < k <= |order| && h >= 1 && w >= 1
    requires y < b.rows * h && x < b.cols * w && Covers(b, layout[k - 1], h, w, y, x)
    ensures PasteAll(pieces, order, layout, b, h, w, k)[y][x] ==
            Shown(pieces, order, layout, b, h, w, LastCover(layout, b, h, w, k, y, x), y, x)
  {
    var p := layout[k - 1];
    var prev := PasteAll(pieces, order, layout, b, h, w, k - 1);
    BlockFits(b, p, h, w);
    PasteAt(prev, pieces[order[k - 1]], TopOf(b, p, h), LeftOf(b, p, w), h, w, y, x);
    assert LastCover(layout, b, h, w, k, y, x) == k - 1;
  }

  /** ... and leaves every other sample as it was. */
  lemma PasteAllMissed(pieces: seq<Image>, order: seq<nat>, layout: seq<Pos>, b: Box,
                       h: nat, w: nat, k: nat, y: nat, x: nat)
    requires Ready(pieces, order, layout, b, h, w) && 0 < k <= |order| && h >= 1 && w >= 1
    requires y < b.rows * h && x < b.cols * w && !Covers(b, layout[k - 1], h, w, y, x)
    requires PasteAll(pieces, order, layout, b, h, w, k - 1)[y][x] ==
             Shown(pieces, order, layout, b, h, w, LastCover(layout, b, h, w, k - 1, y, x), y, x)
    ensures PasteAll(pieces, order, layout, b, h, w, k)[y][x] ==
            Shown(pieces, order, layout, b, h, w, LastCover(layout, b, h, w, k, y, x), y, x)
  {
    var p := layout[k - 1];
    var prev := PasteAll(pieces, order, layout, b, h, w, k - 1);
    BlockFits(b, p, h, w);
    PasteAt(prev, pieces[order[k - 1]], TopOf(b, p, h), LeftOf(b, p, w), h, w, y, x);
    assert LastCover(layout, b, h, w, k, y, x) == LastCover(layout, b, h, w, k - 1, y, x);
  }

  /** Pass i of the canvas loop pastes piece order[i] into the cell of layout[i]. */
  lemma PasteAllStep(pieces: seq<Image>, placed: map<nat, Pos>, order: seq<nat>, layout: seq<Pos>, b: Box,
                     h: nat, w: nat, i: nat)
    requires Ready(pieces, order, layout, b, h, w) && Positions(placed, order, layout)
    requires i < |order| && h >= 1 && w >= 1
    ensures order[i] in placed && placed[order[i]] == layout[i]
    ensures b.Holds(layout[i]) && order[i] < |pieces| && IsTile(pieces[order[i]], h, w)
    ensures TopOf(b, layout[i], h) + h <= b.rows * h && LeftOf(b, layout[i], w) + w <= b.cols * w
    ensures PasteAll(pieces, order, layout, b, h, w, i + 1) ==
            Paste(PasteAll(pieces, order, layout, b, h, w, i), pieces[order[i]], TopOf(b, layout[i], h), LeftOf(b, layout[i], w), h, w)
  {
    BlockFits(b, layout[i], h, w);
  }

  /** One sample of a pasted grid. */
  lemma PasteAt(g: seq<seq<real>>, tile: Image, y0: nat, x0: nat, h: nat, w: nat, y: nat, x: nat)
    requires IsGrid(g) && IsTile(tile, h, w) && y0 + h <= |g| && x0 + w <= Width(g)
    requires y < |g| && x < Width(g)
    ensures Paste(g, tile, y0, x0, h, w)[y][x] ==
            if y0 <= y < y0 + h && x0 <= x < x0 + w then tile[y - y0][x - x0] else g[y][x]
  {
  }

  /** Two tile cells that share a sample are the same cell. */
  lemma CellsDisjoint(b: Box, p: Pos, q: Pos, h: nat, w: nat, y: int, x: int)
    requires h >= 1 && w >= 1 && Covers(b, p, h, w, y, x) && Covers(b, q, h, w, y, x)
    ensures p == q
  {
    SameStripe(p.row - b.minRow, q.row - b.minRow, h, y);
    SameStripe(p.col - b.minCol, q.col - b.minCol, w, x);
  }

  /** The stripes [a * h, (a + 1) * h) do not overlap. */
  lemma SameStripe(a: nat, c: nat, h: nat, y: int)
    requires h >= 1 && a * h <= y < a * h + h && c * h <= y < c * h + h
    ensures a == c
  {
    if a < c {
      MulMono(a + 1, c, h);
    } else if c < a {
      MulMono(c + 1, a, h);
    }
  }

  /** When no two pieces share a position, every piece appears whole in its
      own cell of the finished canvas. */
  lemma TileShown(pieces: seq<Image>, order: seq<nat>, layout: seq<Pos>, b: Box, h: nat, w: nat,
                  i: nat, dy: nat, dx: nat)
    requires Ready(pieces, order, layout, b, h, w) && h >= 1 && w >= 1
    requires forall j, k :: 0 <= j < k < |layout| ==> layout[j] != layout[k]
    requires i < |order| && dy < h && dx < w
    ensures TopOf(b, layout[i], h) + dy < b.rows * h && LeftOf(b, layout[i], w) + dx < b.cols * w
    ensures PasteAll(pieces, order, layout, b, h, w, |order|)[TopOf(b, layout[i], h) + dy][LeftOf(b, layout[i], w) + dx]
            == pieces[order[i]][dy][dx]
  {
    var y, x := TopOf(b, layout[i], h) + dy, LeftOf(b, layout[i], w) + dx;
    BlockFits(b, layout[i], h, w);
    PasteAllAt(pieces, order, layout, b, h, w, |order|, y, x);
    OwnCellLast(layout, b, h, w, i, dy, dx);
    assert LastCover(layout, b, h, w, |order|, y, x) == i;
    assert y - TopOf(b, layout[i], h) == dy && x - LeftOf(b, layout[i], w) == dx;
    assert Shown(pieces, order, layout, b, h, w, i, y, x) == pieces[order[i]][dy][dx];
  }

  /** With distinct positions, the last cell over a sample of cell i is cell i. */
  lemma OwnCellLast(layout: seq<Pos>, b: Box, h: nat, w: nat, i: nat, dy: nat, dx: nat)
    requires forall j :: 0 <= j < |layout| ==> b.Holds(layout[j])
    requires forall j, k :: 0 <= j < k < |layout| ==> layout[j] != layout[k]
    requires i < |layout| && dy < h && dx < w
    ensures LastCover(layout, b, h, w, |layout|, TopOf(b, layout[i], h) + dy, LeftOf(b, layout[i], w) + dx) == i
  {
    var y, x := TopOf(b, layout[i], h) + dy, LeftOf(b, layout[i], w) + dx;
    var c := LastCover(layout, b, h, w, |layout|, y, x);
    assert Covers(b, layout[i], h, w, y, x);
    assert i <= c;
    CellsDisjoint(b, layout[c], layout[i], h, w, y, x);
  }

  /** A sample outside every placed cell stays 0. */
  lemma BlankOutside(pieces: seq<Image>, order: seq<nat>, layout: seq<Pos>, b: Box, h: nat, w: nat, y: nat, x: nat)
    requires Ready(pieces, order, layout, b, h, w) && h >= 1 && w >= 1
    requires y < b.rows * h && x < b.cols * w
    requires forall i :: 0 <= i < |layout| ==> !Covers(b, layout[i], h, w, y, x)
    ensures PasteAll(pieces, order, layout, b, h, w, |order|)[y][x] == 0.0
  {
    PasteAllAt(pieces, order, layout, b, h, w, |order|, y, x);
  }

  // ---------------------------------------------------------------------------
  // The canvas, in place.
  // ---------------------------------------------------------------------------

  /** canvas[y0:y0 + h, x0:x0 + w] = tile (line 84). */
  method PasteTile(canvas: array2<real>, tile: Image, y0: nat, x0: nat, h: nat, w: nat)
    requires IsTile(tile, h, w) && y0 + h <= canvas.Length0 && x0 + w <= canvas.Length1
    modifies canvas
    ensures Contents(canvas) == Paste(old(Contents(canvas)), tile, y0, x0, h, w)
  {
    ghost var before := Contents(canvas);
    for dy := 0 to h
      invariant forall y, x :: 0 <= y < canvas.Length0 && 0 <= x < canvas.Length1 ==>
                  canvas[y, x] == if y0 <= y < y0 + dy && x0 <= x < x0 + w then tile[y - y0][x - x0] else before[y][x]
    {
      for dx := 0 to w
        invariant forall y, x :: 0 <= y < canvas.Length0 && 0 <= x < canvas.Length1 ==>
                    canvas[y, x] == if (y0 <= y < y0 + dy || (y == y0 + dy && x < x0 + dx)) && x0 <= x < x0 + w
                                    then tile[y - y0][x - x0] else before[y][x]
      {
        canvas[y0 + dy, x0 + dx] := tile[dy][dx];
      }
    }
    SameGrid(Contents(canvas), Paste(before, tile, y0, x0, h, w));
  }

  /** The loop of lines 79-84 over placed_pieces in insertion order. */
  method PasteTiles(canvas: array2<real>, pieces: seq<Image>, placed: map<nat, Pos>, order: seq<nat>,
                    layout: seq<Pos>, b: Box, h: nat, w: nat)
    requires Ready(pieces, order, layout, b, h, w) && Positions(placed, order, layout) && h >= 1 && w >= 1
    requires canvas.Length0 == b.rows * h && canvas.Length1 == b.cols * w
    requires Contents(canvas) == Zeros(b.rows * h, b.cols * w)
    modifies canvas
    ensures Contents(canvas) == PasteAll(pieces, order, layout, b, h, w, |order|)
  {
    for i := 0 to |order|
      invariant Contents(canvas) == PasteAll(pieces, order, layout, b, h, w, i)
    {
      var key := order[i];
      PasteAllStep(pieces, placed, order, layout, b, h, w, i);
      var pos := placed[key];
      var tile := pieces[key];
      var startY, startX := TopOf(b, pos, h), LeftOf(b, pos, w);
      PasteTile(canvas, tile, startY, startX, h, w);
    }
  }

  /** The blank canvas of line 76. */
  method NewCanvas(rows: nat, cols: nat) returns (canvas: array2<real>)
    ensures fresh(canvas) && canvas.Length0 == rows && canvas.Length1 == cols
    ensures Contents(canvas) == Zeros(rows, cols)
  {
    canvas := new real[rows, cols]((y, x) => 0.0);
    SameGrid(Contents(canvas), Zeros(rows, cols));
  }

  /** A finished placement is ready for the canvas loop. */
  lemma PlacedReady(pieces: seq<Image>, matches: seq<Match>, placed: map<nat, Pos>, order: seq<nat>,
                    layout: seq<Pos>, steps: seq<nat>, parents: seq<nat>)
    requires SameShape(pieces) && |pieces| > 0 && Placing(matches, |pieces|, placed, order, layout, steps, parents)
    ensures Height(pieces[0]) >= 1 && WidthOf(pieces[0]) >= 1
    ensures Ready(pieces, order, layout, BoundingBox(layout), Height(pieces[0]), WidthOf(pieces[0]))
  {
  }

  /** The result of assemble_image: pieces[0] raises IndexError (line 49)
      when there are no pieces. */
  datatype Outcome = NoPieces | Stitched(canvas: array2<real>)

  /** assemble_image (lines 44-86). */
  method AssembleImage(pieces: seq<Image>, matches: seq<Match>)
    returns (r: Outcome, ghost order: seq<nat>, ghost layout: seq<Pos>, ghost steps: seq<nat>, ghost parents: seq<nat>)
    requires SameShape(pieces) && WellFormed(matches, |pieces|) && Complete(matches, |pieces|)
    ensures r.NoPieces? <==> |pieces| == 0
    ensures r.Stitched? ==>
      var h, w := Height(pieces[0]), WidthOf(pieces[0]);
      (exists placed :: Placing(matches, |pieces|, placed, order, layout, steps, parents) &&
                        placed.Keys == Range(|pieces|)) &&
      |order| == |pieces| && Ready(pieces, order, layout, BoundingBox(layout), h, w) && h >= 1 && w >= 1 &&
      fresh(r.canvas) && Contents(r.canvas) == PasteAll(pieces, order, layout, BoundingBox(layout), h, w, |order|)
  {
    if |pieces| == 0 {
      return NoPieces, [], [], [], [];
    }
    var placed, ord, lay, st, par := PlacePieces(|pieces|, matches);
    order, layout, steps, parents := ord, lay, st, par;
    var b := BoundingBox(lay);
    var h, w := Height(pieces[0]), WidthOf(pieces[0]);
    PlacedReady(pieces, matches, placed, ord, lay, st, par);
    CanvasNotEmpty(b, h, w);
    var canvas := NewCanvas(b.rows * h, b.cols * w);
    PasteTiles(canvas, pieces, placed, ord, lay, b, h, w);
    assert Placing(matches, |pieces|, placed, order, layout, steps, parents) && placed.Keys == Range(|pieces|);
    r := Stitched(canvas);
  }

  /** stitch_image without the file handling (lines 100-104): the matches
      of every pair, then the assembly. */
  method StitchPieces(pieces: seq<Image>)
    returns (r: Outcome, ghost order: seq<nat>, ghost layout: seq<Pos>, ghost steps: seq<nat>, ghost parents: seq<nat>)
    requires SameShape(pieces)
    ensures r.NoPieces? <==> |pieces| == 0
    ensures r.Stitched? ==>
      var h, w := Height(pieces[0]), WidthOf(pieces[0]);
      (exists placed :: Placing(MatchList(pieces), |pieces|, placed, order, layout, steps, parents) &&
                        placed.Keys == Range(|pieces|)) &&
      |order| == |pieces| && Ready(pieces, order, layout, BoundingBox(layout), h, w) && h >= 1 && w >= 1 &&
      fresh(r.canvas) && Contents(r.canvas) == PasteAll(pieces, order, layout, BoundingBox(layout), h, w, |order|)
  {
    var matches := FindBestMatches(pieces);
    MatchListFits(pieces);
    r, order, layout, steps, parents := AssembleImage(pieces, matches);
  }
}
