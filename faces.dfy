/** Face (index triangle) generation of the heightfield solid: the top surface
    row by row, the bottom surface with reversed winding, and the four perimeter
    walls (Converter.py, generate_faces_for_row and lines 88-127 of
    heightmap_to_stl). The vertex list holds a top block of rows * cols points
    followed by a bottom block of rows * cols points, both row-major. */
module Faces {
  import opened Seqs
  import opened Geometry

  /** len(range(n - 1)): the number of cells along an axis of n grid points. */
  function Cells(n: nat): nat
  {
    if n == 0 then 0 else n - 1
  }

  // ---------------------------------------------------------------------------
  // The individual faces, with the index arithmetic of the source.
  // ---------------------------------------------------------------------------

  /** Top surface, triangle 1 of cell (y, x): (v0, v1, v2). */
  function TopFirst(y: nat, x: nat, cols: nat): Face
  {
    Face(y * cols + x, y * cols + x + 1, (y + 1) * cols + x)
  }

  /** Top surface, triangle 2 of cell (y, x): (v1, v3, v2). */
  function TopSecond(y: nat, x: nat, cols: nat): Face
  {
    Face(y * cols + x + 1, (y + 1) * cols + x + 1, (y + 1) * cols + x)
  }

  /** Bottom surface, triangle 1 of cell (y, x): (v2, v1, v0), indices offset. */
  function BottomFirst(offset: nat, y: nat, x: nat, cols: nat): Face
  {
    Face(offset + (y + 1) * cols + x, offset + y * cols + x + 1, offset + y * cols + x)
  }

  /** Bottom surface, triangle 2 of cell (y, x): (v3, v1, v2), indices offset. */
  function BottomSecond(offset: nat, y: nat, x: nat, cols: nat): Face
  {
    Face(offset + (y + 1) * cols + x + 1, offset + y * cols + x + 1, offset + (y + 1) * cols + x)
  }

  function LeftWallFirst(offset: nat, y: nat, cols: nat): Face
  {
    Face(y * cols, (y + 1) * cols, offset + y * cols)
  }

  function LeftWallSecond(offset: nat, y: nat, cols: nat): Face
  {
    Face((y + 1) * cols, offset + (y + 1) * cols, offset + y * cols)
  }

  function RightWallFirst(offset: nat, y: nat, cols: nat): Face
    requires cols >= 1
  {
    Face(y * cols + cols - 1, offset + y * cols + cols - 1, (y + 1) * cols + cols - 1)
  }

  function RightWallSecond(offset: nat, y: nat, cols: nat): Face
    requires cols >= 1
  {
    Face((y + 1) * cols + cols - 1, offset + y * cols + cols - 1, offset + (y + 1) * cols + cols - 1)
  }

  /** The wall along grid row 0 (the source's "Bottom wall"). */
  function BottomWallFirst(offset: nat, x: nat): Face
  {
    Face(x, x + 1, offset + x)
  }

  function BottomWallSecond(offset: nat, x: nat): Face
  {
    Face(x + 1, offset + x + 1, offset + x)
  }

  /** The wall along grid row rows - 1 (the source's "Top wall"). */
  function TopWallFirst(offset: nat, rows: nat, cols: nat, x: nat): Face
    requires rows >= 1
  {
    Face((rows - 1) * cols + x, offset + (rows - 1) * cols + x, (rows - 1) * cols + x + 1)
  }

  function TopWallSecond(offset: nat, rows: nat, cols: nat, x: nat): Face
    requires rows >= 1
  {
    Face((rows - 1) * cols + x + 1, offset + (rows - 1) * cols + x, offset + (rows - 1) * cols + x + 1)
  }

  // ---------------------------------------------------------------------------
  // The face lists, block by block in the order the loops emit them.
  // ---------------------------------------------------------------------------

  function TopCell(y: nat, x: nat, cols: nat): seq<Face>
  {
    [TopFirst(y, x, cols), TopSecond(y, x, cols)]
  }

  /** What generate_faces_for_row((y, cols)) returns. */
  function TopRow(y: nat, cols: nat): seq<Face>
  {
    Flatten(seq(Cells(cols), x requires 0 <= x => TopCell(y, x, cols)))
  }

  /** Line 93: the per-row lists joined in row order. */
  function TopFaces(rows: nat, cols: nat): seq<Face>
  {
    Flatten(seq(Cells(rows), y requires 0 <= y => TopRow(y, cols)))
  }

  function BottomCell(offset: nat, y: nat, x: nat, cols: nat): seq<Face>
  {
    [BottomFirst(offset, y, x, cols), BottomSecond(offset, y, x, cols)]
  }

  function BottomRow(offset: nat, y: nat, cols: nat): seq<Face>
  {
    Flatten(seq(Cells(cols), x requires 0 <= x => BottomCell(offset, y, x, cols)))
  }

  /** Lines 96-108. */
  function BottomFaces(rows: nat, cols: nat): seq<Face>
  {
    Flatten(seq(Cells(rows), y requires 0 <= y => BottomRow(rows * cols, y, cols)))
  }

  /** One pass of the loop at lines 111-118: left wall then right wall. */
  function SideWallStep(rows: nat, cols: nat, y: nat): seq<Face>
    requires cols >= 1
  {
    var offset := rows * cols;
    [LeftWallFirst(offset, y, cols), LeftWallSecond(offset, y, cols),
     RightWallFirst(offset, y, cols), RightWallSecond(offset, y, cols)]
  }

  function SideWalls(rows: nat, cols: nat): seq<Face>
    requires cols >= 1
  {
    Flatten(seq(Cells(rows), y requires 0 <= y => SideWallStep(rows, cols, y)))
  }

  /** One pass of the loop at lines 120-127: row-0 wall then last-row wall. */
  function RowWallStep(rows: nat, cols: nat, x: nat): seq<Face>
    requires rows >= 1
  {
    var offset := rows * cols;
    [BottomWallFirst(offset, x), BottomWallSecond(offset, x),
     TopWallFirst(offset, rows, cols, x), TopWallSecond(offset, rows, cols, x)]
  }

  function RowWalls(rows: nat, cols: nat): seq<Face>
    requires rows >= 1
  {
    Flatten(seq(Cells(cols), x requires 0 <= x => RowWallStep(rows, cols, x)))
  }

  /** The complete face list of heightmap_to_stl, in emission order. */
  function MeshFaces(rows: nat, cols: nat): seq<Face>
    requires rows >= 1 && cols >= 1
  {
    TopFaces(rows, cols) + BottomFaces(rows, cols) + SideWalls(rows, cols) + RowWalls(rows, cols)
  }

  // ---------------------------------------------------------------------------
  // The generating code.
  // ---------------------------------------------------------------------------

  /** generate_faces_for_row: two triangles per cell of row y, left to right. */
  method GenerateFacesForRow(y: nat, cols: nat) returns (rowFaces: seq<Face>)
    ensures rowFaces == TopRow(y, cols)
    ensures |rowFaces| == 2 * Cells(cols)
    ensures forall x :: 0 <= x < Cells(cols) ==>
              rowFaces[2 * x] == TopFirst(y, x, cols) && rowFaces[2 * x + 1] == TopSecond(y, x, cols)
  {
    ghost var cells := seq(Cells(cols), x requires 0 <= x => TopCell(y, x, cols));
    rowFaces := [];
    var x := 0;
    while x < cols - 1
      invariant 0 <= x <= Cells(cols)
      invariant rowFaces == Flatten(cells[..x])
    {
      var v0 := y * cols + x;
      var v1 := v0 + 1;
      var v2 := (y + 1) * cols + x;
      var v3 := v2 + 1;
      rowFaces := rowFaces + [Face(v0, v1, v2)];
      rowFaces := rowFaces + [Face(v1, v3, v2)];
      FlattenAppend(cells[..x], cells[x]);
      assert cells[..x + 1] == cells[..x] + [cells[x]];
      x := x + 1;
    }
    assert cells[..x] == cells;
    TopRowShape(y, cols);
  }

  /** Row y of the top surface: entries 2x and 2x + 1 are the two triangles of cell x. */
  lemma TopRowShape(y: nat, cols: nat)
    ensures |TopRow(y, cols)| == 2 * Cells(cols)
    ensures forall x :: 0 <= x < Cells(cols) ==>
              TopRow(y, cols)[2 * x] == TopFirst(y, x, cols) && TopRow(y, cols)[2 * x + 1] == TopSecond(y, x, cols)
  {
    var cells := seq(Cells(cols), x requires 0 <= x => TopCell(y, x, cols));
    FlattenUniform(cells, 2);
    forall x | 0 <= x < Cells(cols)
      ensures TopRow(y, cols)[2 * x] == TopFirst(y, x, cols) && TopRow(y, cols)[2 * x + 1] == TopSecond(y, x, cols)
    {
      FlattenAt(cells, 2, x, 0);
      FlattenAt(cells, 2, x, 1);
    }
  }

  /** Lines 88-127: the face list of a rows x cols grid. The rows of the top
      surface are produced one call of generate_faces_for_row per row, in row
      order (the worker pool's imap keeps that order). */
  method BuildFaces(rows: nat, cols: nat) returns (faces: seq<Face>)
    requires rows >= 1 && cols >= 1
    ensures faces == MeshFaces(rows, cols)
  {
    // Lines 90-93: one task per row, joined in row order.
    ghost var topRows := seq(Cells(rows), y requires 0 <= y => TopRow(y, cols));
    var rowsFaces: seq<seq<Face>> := [];
    var y := 0;
    while y < rows - 1
      invariant 0 <= y <= Cells(rows)
      invariant rowsFaces == topRows[..y]
    {
      var rowFaces := GenerateFacesForRow(y, cols);
      rowsFaces := rowsFaces + [rowFaces];
      y := y + 1;
    }
    assert rowsFaces == topRows;
    faces := Flatten(rowsFaces);
    var offset := rows * cols;
    faces := AppendBottomFaces(faces, rows, cols, offset);
    faces := AppendSideWalls(faces, rows, cols, offset);
    faces := AppendRowWalls(faces, rows, cols, offset);
  }

  /** Lines 96-108: the bottom surface, row by row. */
  method AppendBottomFaces(start: seq<Face>, rows: nat, cols: nat, offset: nat) returns (faces: seq<Face>)
    requires offset == rows * cols
    ensures faces == start + BottomFaces(rows, cols)
  {
    ghost var bottomRows := seq(Cells(rows), y requires 0 <= y => BottomRow(offset, y, cols));
    faces := start;
    var y := 0;
    while y < rows - 1
      invariant 0 <= y <= Cells(rows)
      invariant faces == start + Flatten(bottomRows[..y])
    {
      faces := AppendBottomRow(faces, y, cols, offset);
      FlattenAppend(bottomRows[..y], bottomRows[y]);
      assert bottomRows[..y + 1] == bottomRows[..y] + [bottomRows[y]];
      y := y + 1;
    }
    assert bottomRows[..y] == bottomRows;
  }

  /** Lines 98-108: one row of the bottom surface, the two triangles of each
      cell reversed with respect to the top surface. */
  method AppendBottomRow(start: seq<Face>, y: nat, cols: nat, offset: nat) returns (faces: seq<Face>)
    ensures faces == start + BottomRow(offset, y, cols)
  {
    ghost var cells := seq(Cells(cols), x requires 0 <= x => BottomCell(offset, y, x, cols));
    faces := start;
    var x := 0;
    while x < cols - 1
      invariant 0 <= x <= Cells(cols)
      invariant faces == start + Flatten(cells[..x])
    {
      var v0 := offset + y * cols + x;
      var v1 := v0 + 1;
      var v2 := offset + (y + 1) * cols + x;
      var v3 := v2 + 1;
      faces := faces + [Face(v2, v1, v0)];
      faces := faces + [Face(v3, v1, v2)];
      FlattenAppend(cells[..x], cells[x]);
      assert cells[..x + 1] == cells[..x] + [cells[x]];
      x := x + 1;
    }
    assert cells[..x] == cells;
  }

  /** Lines 111-118: the left and right walls, one grid row at a time. */
  method AppendSideWalls(start: seq<Face>, rows: nat, cols: nat, offset: nat) returns (faces: seq<Face>)
    requires cols >= 1 && offset == rows * cols
    ensures faces == start + SideWalls(rows, cols)
  {
    ghost var steps := seq(Cells(rows), y requires 0 <= y => SideWallStep(rows, cols, y));
    faces := start;
    var y := 0;
    while y < rows - 1
      invariant 0 <= y <= Cells(rows)
      invariant faces == start + Flatten(steps[..y])
    {
      // Left wall
      faces := faces + [Face(y * cols, (y + 1) * cols, offset + y * cols)];
      faces := faces + [Face((y + 1) * cols, offset + (y + 1) * cols, offset + y * cols)];
      // Right wall
      faces := faces + [Face(y * cols + cols - 1, offset + y * cols + cols - 1, (y + 1) * cols + cols - 1)];
      faces := faces + [Face((y + 1) * cols + cols - 1, offset + y * cols + cols - 1, offset + (y + 1) * cols + cols - 1)];
      FlattenAppend(steps[..y], steps[y]);
      assert steps[..y + 1] == steps[..y] + [steps[y]];
      y := y + 1;
    }
    assert steps[..y] == steps;
  }

  /** Lines 120-127: the walls along grid rows 0 and rows - 1, one column at a time. */
  method AppendRowWalls(start: seq<Face>, rows: nat, cols: nat, offset: nat) returns (faces: seq<Face>)
    requires rows >= 1 && offset == rows * cols
    ensures faces == start + RowWalls(rows, cols)
  {
    ghost var steps := seq(Cells(cols), x requires 0 <= x => RowWallStep(rows, cols, x));
    faces := start;
    var x := 0;
    while x < cols - 1
      invariant 0 <= x <= Cells(cols)
      invariant faces == start + Flatten(steps[..x])
    {
      // Bottom wall
      faces := faces + [Face(x, x + 1, offset + x)];
      faces := faces + [Face(x + 1, offset + x + 1, offset + x)];
      // Top wall
      faces := faces + [Face((rows - 1) * cols + x, offset + (rows - 1) * cols + x, (rows - 1) * cols + x + 1)];
      faces := faces + [Face((rows - 1) * cols + x + 1, offset + (rows - 1) * cols + x, offset + (rows - 1) * cols + x + 1)];
      FlattenAppend(steps[..x], steps[x]);
      assert steps[..x + 1] == steps[..x] + [steps[x]];
      x := x + 1;
    }
    assert steps[..x] == steps;
  }

  // ---------------------------------------------------------------------------
  // Where each face sits in its block, and what the blocks hold.
  // ---------------------------------------------------------------------------

  /** Position of triangle 1 of cell (y, x) within a surface block. */
  function SurfaceIndex(cols: nat, y: nat, x: nat): nat
  {
    y * (2 * Cells(cols)) + 2 * x
  }

  lemma SurfaceIndexBound(rows: nat, cols: nat, y: nat, x: nat)
    requires y < Cells(rows) && x < Cells(cols)
    ensures SurfaceIndex(cols, y, x) + 1 < Cells(rows) * (2 * Cells(cols))
  {
    MulStrictBound(y, Cells(rows), 2 * Cells(cols), 2 * x + 1);
  }

  /** Every position of a surface block is triangle t of some cell. */
  lemma SurfaceSplit(rows: nat, cols: nat, k: nat) returns (y: nat, x: nat, t: nat)
    requires k < Cells(rows) * (2 * Cells(cols))
    ensures y < Cells(rows) && x < Cells(cols) && t < 2 && k == SurfaceIndex(cols, y, x) + t
  {
    var j;
    y, j := SplitIndex(k, Cells(rows), 2 * Cells(cols));
    x, t := SplitIndex(j, Cells(cols), 2);
  }

  lemma TopFacesAt(rows: nat, cols: nat)
    ensures |TopFaces(rows, cols)| == Cells(rows) * (2 * Cells(cols))
    ensures forall y, x :: 0 <= y < Cells(rows) && 0 <= x < Cells(cols) ==>
              SurfaceIndex(cols, y, x) + 1 < |TopFaces(rows, cols)|
    ensures forall y, x :: 0 <= y < Cells(rows) && 0 <= x < Cells(cols) ==>
              TopFaces(rows, cols)[SurfaceIndex(cols, y, x)] == TopFirst(y, x, cols) &&
              TopFaces(rows, cols)[SurfaceIndex(cols, y, x) + 1] == TopSecond(y, x, cols)
  {
    var w := 2 * Cells(cols);
    var topRows := seq(Cells(rows), y requires 0 <= y => TopRow(y, cols));
    forall y | 0 <= y < Cells(rows) ensures |topRows[y]| == w {
      TopRowShape(y, cols);
    }
    FlattenUniform(topRows, w);
    forall y, x | 0 <= y < Cells(rows) && 0 <= x < Cells(cols)
      ensures SurfaceIndex(cols, y, x) + 1 < |TopFaces(rows, cols)|
    {
      SurfaceIndexBound(rows, cols, y, x);
    }
    forall y, x | 0 <= y < Cells(rows) && 0 <= x < Cells(cols)
      ensures TopFaces(rows, cols)[SurfaceIndex(cols, y, x)] == TopFirst(y, x, cols)
      ensures TopFaces(rows, cols)[SurfaceIndex(cols, y, x) + 1] == TopSecond(y, x, cols)
    {
      TopRowShape(y, cols);
      FlattenAt(topRows, w, y, 2 * x);
      FlattenAt(topRows, w, y, 2 * x + 1);
    }
  }

  lemma BottomRowShape(offset: nat, y: nat, cols: nat)
    ensures |BottomRow(offset, y, cols)| == 2 * Cells(cols)
    ensures forall x :: 0 <= x < Cells(cols) ==>
              BottomRow(offset, y, cols)[2 * x] == BottomFirst(offset, y, x, cols) &&
              BottomRow(offset, y, cols)[2 * x + 1] == BottomSecond(offset, y, x, cols)
  {
    var cells := seq(Cells(cols), x requires 0 <= x => BottomCell(offset, y, x, cols));
    FlattenUniform(cells, 2);
    forall x | 0 <= x < Cells(cols)
      ensures BottomRow(offset, y, cols)[2 * x] == BottomFirst(offset, y, x, cols)
      ensures BottomRow(offset, y, cols)[2 * x + 1] == BottomSecond(offset, y, x, cols)
    {
      FlattenAt(cells, 2, x, 0);
      FlattenAt(cells, 2, x, 1);
    }
  }

  lemma BottomFacesAt(rows: nat, cols: nat)
    ensures |BottomFaces(rows, cols)| == Cells(rows) * (2 * Cells(cols))
    ensures forall y, x :: 0 <= y < Cells(rows) && 0 <= x < Cells(cols) ==>
              SurfaceIndex(cols, y, x) + 1 < |BottomFaces(rows, cols)|
    ensures forall y, x :: 0 <= y < Cells(rows) && 0 <= x < Cells(cols) ==>
              BottomFaces(rows, cols)[SurfaceIndex(cols, y, x)] == BottomFirst(rows * cols, y, x, cols) &&
              BottomFaces(rows, cols)[SurfaceIndex(cols, y, x) + 1] == BottomSecond(rows * cols, y, x, cols)
  {
    var w := 2 * Cells(cols);
    var offset := rows * cols;
    var bottomRows := seq(Cells(rows), y requires 0 <= y => BottomRow(offset, y, cols));
    forall y | 0 <= y < Cells(rows) ensures |bottomRows[y]| == w {
      BottomRowShape(offset, y, cols);
    }
    FlattenUniform(bottomRows, w);
    forall y, x | 0 <= y < Cells(rows) && 0 <= x < Cells(cols)
      ensures SurfaceIndex(cols, y, x) + 1 < |BottomFaces(rows, cols)|
    {
      SurfaceIndexBound(rows, cols, y, x);
    }
    forall y, x | 0 <= y < Cells(rows) && 0 <= x < Cells(cols)
      ensures BottomFaces(rows, cols)[SurfaceIndex(cols, y, x)] == BottomFirst(offset, y, x, cols)
      ensures BottomFaces(rows, cols)[SurfaceIndex(cols, y, x) + 1] == BottomSecond(offset, y, x, cols)
    {
      BottomRowShape(offset, y, cols);
      FlattenAt(bottomRows, w, y, 2 * x);
      FlattenAt(bottomRows, w, y, 2 * x + 1);
    }
  }

  lemma SideWallsAt(rows: nat, cols: nat)
    requires cols >= 1
    ensures |SideWalls(rows, cols)| == 4 * Cells(rows)
    ensures forall y :: 0 <= y < Cells(rows) ==>
              SideWalls(rows, cols)[4 * y] == LeftWallFirst(rows * cols, y, cols) &&
              SideWalls(rows, cols)[4 * y + 1] == LeftWallSecond(rows * cols, y, cols) &&
              SideWalls(rows, cols)[4 * y + 2] == RightWallFirst(rows * cols, y, cols) &&
              SideWalls(rows, cols)[4 * y + 3] == RightWallSecond(rows * cols, y, cols)
  {
    var steps := seq(Cells(rows), y requires 0 <= y => SideWallStep(rows, cols, y));
    FlattenUniform(steps, 4);
    forall y | 0 <= y < Cells(rows)
      ensures SideWalls(rows, cols)[4 * y] == LeftWallFirst(rows * cols, y, cols)
      ensures SideWalls(rows, cols)[4 * y + 1] == LeftWallSecond(rows * cols, y, cols)
      ensures SideWalls(rows, cols)[4 * y + 2] == RightWallFirst(rows * cols, y, cols)
      ensures SideWalls(rows, cols)[4 * y + 3] == RightWallSecond(rows * cols, y, cols)
    {
      FlattenAt(steps, 4, y, 0);
      FlattenAt(steps, 4, y, 1);
      FlattenAt(steps, 4, y, 2);
      FlattenAt(steps, 4, y, 3);
    }
  }

  lemma RowWallsAt(rows: nat, cols: nat)
    requires rows >= 1
    ensures |RowWalls(rows, cols)| == 4 * Cells(cols)
    ensures forall x :: 0 <= x < Cells(cols) ==>
              RowWalls(rows, cols)[4 * x] == BottomWallFirst(rows * cols, x) &&
              RowWalls(rows, cols)[4 * x + 1] == BottomWallSecond(rows * cols, x) &&
              RowWalls(rows, cols)[4 * x + 2] == TopWallFirst(rows * cols, rows, cols, x) &&
              RowWalls(rows, cols)[4 * x + 3] == TopWallSecond(rows * cols, rows, cols, x)
  {
    var steps := seq(Cells(cols), x requires 0 <= x => RowWallStep(rows, cols, x));
    FlattenUniform(steps, 4);
    forall x | 0 <= x < Cells(cols)
      ensures RowWalls(rows, cols)[4 * x] == BottomWallFirst(rows * cols, x)
      ensures RowWalls(rows, cols)[4 * x + 1] == BottomWallSecond(rows * cols, x)
      ensures RowWalls(rows, cols)[4 * x + 2] == TopWallFirst(rows * cols, rows, cols, x)
      ensures RowWalls(rows, cols)[4 * x + 3] == TopWallSecond(rows * cols, rows, cols, x)
    {
      FlattenAt(steps, 4, x, 0);
      FlattenAt(steps, 4, x, 1);
      FlattenAt(steps, 4, x, 2);
      FlattenAt(steps, 4, x, 3);
    }
  }

  /** Entry 4 * y + t of the column walls is face t of wall step y. */
  lemma SideWallEntry(rows: nat, cols: nat, y: nat, t: nat)
    requires cols >= 1 && y < Cells(rows) && t < 4
    ensures 4 * y + t < |SideWalls(rows, cols)|
    ensures SideWalls(rows, cols)[4 * y + t] == SideWallStep(rows, cols, y)[t]
  {
    var steps := seq(Cells(rows), y requires 0 <= y => SideWallStep(rows, cols, y));
    FlattenAt(steps, 4, y, t);
  }

  /** Entry 4 * x + t of the row walls is face t of wall step x. */
  lemma RowWallEntry(rows: nat, cols: nat, x: nat, t: nat)
    requires rows >= 1 && x < Cells(cols) && t < 4
    ensures 4 * x + t < |RowWalls(rows, cols)|
    ensures RowWalls(rows, cols)[4 * x + t] == RowWallStep(rows, cols, x)[t]
  {
    var steps := seq(Cells(cols), x requires 0 <= x => RowWallStep(rows, cols, x));
    FlattenAt(steps, 4, x, t);
  }

  // ---------------------------------------------------------------------------
  // Properties of the face list.
  // ---------------------------------------------------------------------------

  /** Two triangles per cell on each surface, and two per boundary segment on
      each of the four walls. */
  lemma FaceCount(rows: nat, cols: nat)
    requires rows >= 1 && cols >= 1
    ensures |TopFaces(rows, cols)| == |BottomFaces(rows, cols)| == 2 * (rows - 1) * (cols - 1)
    ensures |SideWalls(rows, cols)| == 4 * (rows - 1) && |RowWalls(rows, cols)| == 4 * (cols - 1)
    ensures |MeshFaces(rows, cols)| == 4 * (rows - 1) * (cols - 1) + 4 * (rows - 1) + 4 * (cols - 1)
  {
    FaceBlockSizes(rows, cols);
    CountArithmetic(rows - 1, cols - 1);
    assert |MeshFaces(rows, cols)| ==
      |TopFaces(rows, cols)| + |BottomFaces(rows, cols)| + |SideWalls(rows, cols)| + |RowWalls(rows, cols)|;
  }

  /** The four blocks' lengths, one generator each. */
  lemma FaceBlockSizes(rows: nat, cols: nat)
    requires rows >= 1 && cols >= 1
    ensures |TopFaces(rows, cols)| == |BottomFaces(rows, cols)| == (rows - 1) * (2 * (cols - 1))
    ensures |SideWalls(rows, cols)| == 4 * (rows - 1) && |RowWalls(rows, cols)| == 4 * (cols - 1)
  {
    TopFacesAt(rows, cols);
    BottomFacesAt(rows, cols);
    SideWallsAt(rows, cols);
    RowWallsAt(rows, cols);
  }

  lemma CountArithmetic(r: nat, c: nat)
    ensures r * (2 * c) == 2 * r * c && 4 * r * c == 2 * r * c + 2 * r * c
  {
  }

  /** The bottom surface is the top surface moved into the bottom block
      (offset rows * cols) with every triangle's winding reversed: triangle 1
      (v2, v1, v0) is exactly the reverse of (v0, v1, v2), triangle 2
      (v3, v1, v2) is a rotation of the reverse of (v1, v3, v2). */
  lemma BottomMirrorsTop(rows: nat, cols: nat)
    ensures |BottomFaces(rows, cols)| == |TopFaces(rows, cols)|
    ensures forall k :: 0 <= k < |TopFaces(rows, cols)| ==>
              SameWinding(Reverse(Shift(TopFaces(rows, cols)[k], rows * cols)), BottomFaces(rows, cols)[k])
  {
    TopFacesAt(rows, cols);
    BottomFacesAt(rows, cols);
    forall k | 0 <= k < |TopFaces(rows, cols)|
      ensures SameWinding(Reverse(Shift(TopFaces(rows, cols)[k], rows * cols)), BottomFaces(rows, cols)[k])
    {
      var y, x, t := SurfaceSplit(rows, cols, k);
      if t == 0 {
        assert TopFaces(rows, cols)[k] == TopFirst(y, x, cols);
        assert BottomFaces(rows, cols)[k] == BottomFirst(rows * cols, y, x, cols);
      } else {
        assert TopFaces(rows, cols)[k] == TopSecond(y, x, cols);
        assert BottomFaces(rows, cols)[k] == BottomSecond(rows * cols, y, x, cols);
      }
    }
  }
}
