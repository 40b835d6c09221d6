/** The combinatorics of the face list of Converter.py: which grid vertex each
    index names, which face sits at which position, index bounds, and the
    closure of the solid (every edge is shared by exactly two faces). */
module Topology {
  import opened Seqs
  import opened Geometry
  import opened Faces

  /** A grid vertex: its block (top surface or bottom plane), row and column. */
  datatype GridVertex = GV(bottom: bool, y: nat, x: nat)

  function T(y: nat, x: nat): GridVertex { GV(false, y, x) }
  function B(y: nat, x: nat): GridVertex { GV(true, y, x) }

  predicate OnGrid(rows: nat, cols: nat, p: GridVertex)
  {
    p.y < rows && p.x < cols
  }

  /** Position of a grid vertex in the vertex list (lines 77-86): row-major,
      top block first, bottom block offset by rows * cols. */
  function Vid(rows: nat, cols: nat, p: GridVertex): nat
  {
    (if p.bottom then rows * cols else 0) + p.y * cols + p.x
  }

  /** A triangle of grid vertices, in winding order. */
  datatype Tri = Tri(a: GridVertex, b: GridVertex, c: GridVertex)
  {
    predicate Has(p: GridVertex) { p == a || p == b || p == c }
  }

  function Indices(rows: nat, cols: nat, t: Tri): Face
  {
    Face(Vid(rows, cols, t.a), Vid(rows, cols, t.b), Vid(rows, cols, t.c))
  }

  /** The ends of side s of a triangle: (a, b), (b, c) or (c, a). */
  function Ends(t: Tri, s: nat): (GridVertex, GridVertex)
    requires s < 3
  {
    if s == 0 then (t.a, t.b) else if s == 1 then (t.b, t.c) else (t.c, t.a)
  }

  // ---------------------------------------------------------------------------
  // Naming the faces.
  // ---------------------------------------------------------------------------

  datatype Part = TopSurface | BottomSurface | LeftWall | RightWall | BottomWall | TopWall

  /** Face `second` (triangle 1 or 2) of cell (y, x) of a surface, or of step y
      of the left/right walls (x = 0), or of step x of the row walls (y = 0). */
  datatype FaceRef = FaceRef(part: Part, y: nat, x: nat, second: bool)

  predicate ValidRef(rows: nat, cols: nat, d: FaceRef)
  {
    match d.part
    case TopSurface => d.y + 1 < rows && d.x + 1 < cols
    case BottomSurface => d.y + 1 < rows && d.x + 1 < cols
    case LeftWall => d.y + 1 < rows && d.x == 0
    case RightWall => d.y + 1 < rows && d.x == 0
    case BottomWall => d.y == 0 && d.x + 1 < cols
    case TopWall => d.y == 0 && d.x + 1 < cols
  }

  /** The face as the source writes it. */
  function Concrete(rows: nat, cols: nat, d: FaceRef): Face
    requires rows >= 1 && cols >= 1
  {
    var offset := rows * cols;
    match d.part
    case TopSurface => if d.second then TopSecond(d.y, d.x, cols) else TopFirst(d.y, d.x, cols)
    case BottomSurface =>
      if d.second then BottomSecond(offset, d.y, d.x, cols) else BottomFirst(offset, d.y, d.x, cols)
    case LeftWall => if d.second then LeftWallSecond(offset, d.y, cols) else LeftWallFirst(offset, d.y, cols)
    case RightWall => if d.second then RightWallSecond(offset, d.y, cols) else RightWallFirst(offset, d.y, cols)
    case BottomWall => if d.second then BottomWallSecond(offset, d.x) else BottomWallFirst(offset, d.x)
    case TopWall => if d.second then TopWallSecond(offset, rows, cols, d.x) else TopWallFirst(offset, rows, cols, d.x)
  }

  /** The same face as a triangle of grid vertices. */
  function Shape(rows: nat, cols: nat, d: FaceRef): Tri
    requires rows >= 1 && cols >= 1
  {
    var y, x, r, c := d.y, d.x, rows - 1, cols - 1;
    match d.part
    case TopSurface =>
      if d.second then Tri(T(y, x + 1), T(y + 1, x + 1), T(y + 1, x)) else Tri(T(y, x), T(y, x + 1), T(y + 1, x))
    case BottomSurface =>
      if d.second then Tri(B(y + 1, x + 1), B(y, x + 1), B(y + 1, x)) else Tri(B(y + 1, x), B(y, x + 1), B(y, x))
    case LeftWall =>
      if d.second then Tri(T(y + 1, 0), B(y + 1, 0), B(y, 0)) else Tri(T(y, 0), T(y + 1, 0), B(y, 0))
    case RightWall =>
      if d.second then Tri(T(y + 1, c), B(y, c), B(y + 1, c)) else Tri(T(y, c), B(y, c), T(y + 1, c))
    case BottomWall =>
      if d.second then Tri(T(0, x + 1), B(0, x + 1), B(0, x)) else Tri(T(0, x), T(0, x + 1), B(0, x))
    case TopWall =>
      if d.second then Tri(T(r, x + 1), B(r, x), B(r, x + 1)) else Tri(T(r, x), B(r, x), T(r, x + 1))
  }

  /** Position of the face in the face list of heightmap_to_stl. */
  function Index(rows: nat, cols: nat, d: FaceRef): nat
  {
    var s := Cells(rows) * (2 * Cells(cols));
    var t := if d.second then 1 else 0;
    match d.part
    case TopSurface => SurfaceIndex(cols, d.y, d.x) + t
    case BottomSurface => s + SurfaceIndex(cols, d.y, d.x) + t
    case LeftWall => 2 * s + 4 * d.y + t
    case RightWall => 2 * s + 4 * d.y + 2 + t
    case BottomWall => 2 * s + 4 * Cells(rows) + 4 * d.x + t
    case TopWall => 2 * s + 4 * Cells(rows) + 4 * d.x + 2 + t
  }

  // ---------------------------------------------------------------------------
  // The index map.
  // ---------------------------------------------------------------------------

  lemma VidRange(rows: nat, cols: nat, p: GridVertex)
    requires OnGrid(rows, cols, p)
    ensures p.y * cols + p.x < rows * cols
    ensures !p.bottom ==> Vid(rows, cols, p) < rows * cols
    ensures p.bottom ==> rows * cols <= Vid(rows, cols, p)
    ensures Vid(rows, cols, p) < 2 * rows * cols
  {
    MulStrictBound(p.y, rows, cols, p.x);
    assert 2 * rows * cols == rows * cols + rows * cols;
  }

  lemma DivUnique(y1: nat, k1: nat, y2: nat, k2: nat, m: nat)
    requires k1 < m && k2 < m && y1 * m + k1 == y2 * m + k2
    ensures y1 == y2 && k1 == k2
  {
    if y1 < y2 {
      MulMono(y1 + 1, y2, m);
    } else if y2 < y1 {
      MulMono(y2 + 1, y1, m);
    }
  }

  /** Different grid vertices have different indices. */
  lemma VidInjective(rows: nat, cols: nat, p: GridVertex, q: GridVertex)
    requires OnGrid(rows, cols, p) && OnGrid(rows, cols, q)
    requires Vid(rows, cols, p) == Vid(rows, cols, q)
    ensures p == q
  {
    VidRange(rows, cols, p);
    VidRange(rows, cols, q);
    DivUnique(p.y, p.x, q.y, q.x, cols);
  }

  /** The source's index arithmetic names exactly the grid vertices of Shape. */
  lemma ConcreteIsShape(rows: nat, cols: nat, d: FaceRef)
    requires rows >= 1 && cols >= 1
    ensures Concrete(rows, cols, d) == Indices(rows, cols, Shape(rows, cols, d))
  {
    var y, x := d.y, d.x;
    assert (y + 1) * cols == y * cols + cols;
    match d.part
    case TopSurface =>
    case BottomSurface =>
    case LeftWall =>
    case RightWall =>
    case BottomWall =>
    case TopWall =>
  }

  /** Every face is a proper triangle of vertices on the grid. */
  lemma ShapeProper(rows: nat, cols: nat, d: FaceRef)
    requires rows >= 1 && cols >= 1 && ValidRef(rows, cols, d)
    ensures var t := Shape(rows, cols, d);
      OnGrid(rows, cols, t.a) && OnGrid(rows, cols, t.b) && OnGrid(rows, cols, t.c) &&
      t.a != t.b && t.b != t.c && t.a != t.c
  {
  }

  /** The four blocks of the face list and their lengths. */
  lemma MeshBlocks(rows: nat, cols: nat)
    requires rows >= 1 && cols >= 1
    ensures var s := Cells(rows) * (2 * Cells(cols));
      |TopFaces(rows, cols)| == s && |BottomFaces(rows, cols)| == s &&
      |SideWalls(rows, cols)| == 4 * Cells(rows) && |RowWalls(rows, cols)| == 4 * Cells(cols) &&
      MeshFaces(rows, cols) == TopFaces(rows, cols) + BottomFaces(rows, cols) + SideWalls(rows, cols) + RowWalls(rows, cols)
  {
    TopFacesAt(rows, cols);
    BottomFacesAt(rows, cols);
    SideWallsAt(rows, cols);
    RowWallsAt(rows, cols);
  }

  lemma MeshLength(rows: nat, cols: nat)
    requires rows >= 1 && cols >= 1
    ensures |MeshFaces(rows, cols)| == 2 * (Cells(rows) * (2 * Cells(cols))) + 4 * Cells(rows) + 4 * Cells(cols)
  {
    MeshBlocks(rows, cols);
  }

  /** The face named d sits at position Index(d) of the face list. */
  lemma IndexRange(rows: nat, cols: nat, d: FaceRef)
    requires rows >= 1 && cols >= 1 && ValidRef(rows, cols, d)
    ensures Index(rows, cols, d) < |MeshFaces(rows, cols)|
    ensures MeshFaces(rows, cols)[Index(rows, cols, d)] == Concrete(rows, cols, d)
  {
    match d.part
    case TopSurface => SurfaceIndexRange(rows, cols, d);
    case BottomSurface => SurfaceIndexRange(rows, cols, d);
    case LeftWall => SideIndexRange(rows, cols, d);
    case RightWall => SideIndexRange(rows, cols, d);
    case BottomWall => RowIndexRange(rows, cols, d);
    case TopWall => RowIndexRange(rows, cols, d);
  }

  lemma SurfaceIndexRange(rows: nat, cols: nat, d: FaceRef)
    requires rows >= 1 && cols >= 1 && ValidRef(rows, cols, d)
    requires d.part == TopSurface || d.part == BottomSurface
    ensures Index(rows, cols, d) < |MeshFaces(rows, cols)|
    ensures MeshFaces(rows, cols)[Index(rows, cols, d)] == Concrete(rows, cols, d)
  {
    MeshBlocks(rows, cols);
    var s := Cells(rows) * (2 * Cells(cols));
    var k := SurfaceIndex(cols, d.y, d.x) + (if d.second then 1 else 0);
    if d.part == TopSurface {
      assert k < s && TopFaces(rows, cols)[k] == Concrete(rows, cols, d) by { TopFacesAt(rows, cols); }
    } else {
      assert k < s && BottomFaces(rows, cols)[k] == Concrete(rows, cols, d) by { BottomFacesAt(rows, cols); }
    }
  }

  lemma SideIndexRange(rows: nat, cols: nat, d: FaceRef)
    requires rows >= 1 && cols >= 1 && ValidRef(rows, cols, d)
    requires d.part == LeftWall || d.part == RightWall
    ensures Index(rows, cols, d) < |MeshFaces(rows, cols)|
    ensures MeshFaces(rows, cols)[Index(rows, cols, d)] == Concrete(rows, cols, d)
  {
    var k := 4 * d.y + (if d.part == RightWall then 2 else 0) + (if d.second then 1 else 0);
    SideWallEntry(rows, cols, d.y, k - 4 * d.y);
    MeshBlocks(rows, cols);
    ThirdBlockAt(TopFaces(rows, cols), BottomFaces(rows, cols), SideWalls(rows, cols), RowWalls(rows, cols), k);
  }

  lemma RowIndexRange(rows: nat, cols: nat, d: FaceRef)
    requires rows >= 1 && cols >= 1 && ValidRef(rows, cols, d)
    requires d.part == BottomWall || d.part == TopWall
    ensures Index(rows, cols, d) < |MeshFaces(rows, cols)|
    ensures MeshFaces(rows, cols)[Index(rows, cols, d)] == Concrete(rows, cols, d)
  {
    var k := 4 * d.x + (if d.part == TopWall then 2 else 0) + (if d.second then 1 else 0);
    RowWallEntry(rows, cols, d.x, k - 4 * d.x);
    MeshBlocks(rows, cols);
    FourthBlockAt(TopFaces(rows, cols), BottomFaces(rows, cols), SideWalls(rows, cols), RowWalls(rows, cols), k);
  }

  /** Every position of the face list holds a named face. */
  lemma RefAt(rows: nat, cols: nat, i: nat) returns (d: FaceRef)
    requires rows >= 1 && cols >= 1 && i < |MeshFaces(rows, cols)|
    ensures ValidRef(rows, cols, d) && Index(rows, cols, d) == i
  {
    var s := Cells(rows) * (2 * Cells(cols));
    MeshLength(rows, cols);
    if i < s {
      var y, x, t := SurfaceSplit(rows, cols, i);
      d := FaceRef(TopSurface, y, x, t == 1);
    } else if i < 2 * s {
      var y, x, t := SurfaceSplit(rows, cols, i - s);
      d := FaceRef(BottomSurface, y, x, t == 1);
    } else if i < 2 * s + 4 * Cells(rows) {
      var y, t := SplitIndex(i - 2 * s, Cells(rows), 4);
      d := FaceRef(if t < 2 then LeftWall else RightWall, y, 0, t == 1 || t == 3);
    } else {
      var x, t := SplitIndex(i - 2 * s - 4 * Cells(rows), Cells(cols), 4);
      d := FaceRef(if t < 2 then BottomWall else TopWall, 0, x, t == 1 || t == 3);
    }
  }

  /** Different faces sit at different positions. */
  lemma IndexInjective(rows: nat, cols: nat, d: FaceRef, e: FaceRef)
    requires rows >= 1 && cols >= 1 && ValidRef(rows, cols, d) && ValidRef(rows, cols, e)
    requires Index(rows, cols, d) == Index(rows, cols, e)
    ensures d == e
  {
    var w := 2 * Cells(cols);
    if d.part in {TopSurface, BottomSurface} {
      SurfaceIndexBound(rows, cols, d.y, d.x);
    }
    if e.part in {TopSurface, BottomSurface} {
      SurfaceIndexBound(rows, cols, e.y, e.x);
    }
    if d.part in {TopSurface, BottomSurface} && d.part == e.part {
      var td, te := if d.second then 1 else 0, if e.second then 1 else 0;
      DivUnique(d.y, 2 * d.x + td, e.y, 2 * e.x + te, w);
    }
  }

  // ---------------------------------------------------------------------------
  // Edge closure.
  // ---------------------------------------------------------------------------

  function Opt(c: bool, d: FaceRef): set<FaceRef>
  {
    if c then {d} else {}
  }

  /** The faces that carry the edge p-q, for the orientation of each kind of
      edge in which p comes first: the lower row (or, on a row, the lower
      column) of a surface edge, the top end of a wall edge. */
  function Carriers(rows: nat, cols: nat, p: GridVertex, q: GridVertex): set<FaceRef>
  {
    var y, x, r, c := p.y, p.x, rows, cols;
    if p.bottom == q.bottom then
      var srf, l := if p.bottom then BottomSurface else TopSurface, p.bottom;
      if q.y == y && q.x == x + 1 then
        // a row edge of a surface: the cells above and below, or a row wall
        Opt(y + 1 < r && x + 1 < c, FaceRef(srf, y, x, false)) +
        (if 1 <= y < r && x + 1 < c then {FaceRef(srf, y - 1, x, true)} else {}) +
        Opt(y == 0 && x + 1 < c, FaceRef(BottomWall, 0, x, l)) +
        Opt(y + 1 == r && x + 1 < c, FaceRef(TopWall, 0, x, l))
      else if q.y == y + 1 && q.x == x then
        // a column edge of a surface: the cells left and right, or a column wall
        Opt(y + 1 < r && x + 1 < c, FaceRef(srf, y, x, false)) +
        (if y + 1 < r && 1 <= x < c then {FaceRef(srf, y, x - 1, true)} else {}) +
        Opt(y + 1 < r && x == 0, FaceRef(LeftWall, y, 0, l)) +
        Opt(y + 1 < r && x + 1 == c, FaceRef(RightWall, y, 0, l))
      else if q.y == y + 1 && q.x + 1 == x then
        // the diagonal of cell (y, q.x): both of its triangles
        Opt(y + 1 < r && x < c, FaceRef(srf, y, q.x, false)) +
        Opt(y + 1 < r && x < c, FaceRef(srf, y, q.x, true))
      else
        {}
    else if !p.bottom then
      if q.y == y && q.x == x then
        // a vertical pillar on the border: the wall steps on either side
        Opt(x == 0 && y + 1 < r, FaceRef(LeftWall, y, 0, false)) +
        (if x == 0 && 1 <= y < r then {FaceRef(LeftWall, y - 1, 0, true)} else {}) +
        Opt(x + 1 == c && y + 1 < r, FaceRef(RightWall, y, 0, false)) +
        (if x + 1 == c && 1 <= y < r then {FaceRef(RightWall, y - 1, 0, true)} else {}) +
        Opt(y == 0 && x + 1 < c, FaceRef(BottomWall, 0, x, false)) +
        (if y == 0 && 1 <= x < c then {FaceRef(BottomWall, 0, x - 1, true)} else {}) +
        Opt(y + 1 == r && x + 1 < c, FaceRef(TopWall, 0, x, false)) +
        (if y + 1 == r && 1 <= x < c then {FaceRef(TopWall, 0, x - 1, true)} else {})
      else if y == q.y + 1 && x == q.x then
        // the diagonal of column wall step q.y
        Opt(x == 0 && y < r, FaceRef(LeftWall, q.y, 0, false)) +
        Opt(x == 0 && y < r, FaceRef(LeftWall, q.y, 0, true)) +
        Opt(x + 1 == c && y < r, FaceRef(RightWall, q.y, 0, false)) +
        Opt(x + 1 == c && y < r, FaceRef(RightWall, q.y, 0, true))
      else if y == q.y && x == q.x + 1 then
        // the diagonal of row wall step q.x
        Opt(y == 0 && x < c, FaceRef(BottomWall, 0, q.x, false)) +
        Opt(y == 0 && x < c, FaceRef(BottomWall, 0, q.x, true)) +
        Opt(y + 1 == r && x < c, FaceRef(TopWall, 0, q.x, false)) +
        Opt(y + 1 == r && x < c, FaceRef(TopWall, 0, q.x, true))
      else
        {}
    else
      {}
  }

  /** The faces that carry the undirected edge p-q. */
  function Holders(rows: nat, cols: nat, p: GridVertex, q: GridVertex): set<FaceRef>
  {
    Carriers(rows, cols, p, q) + Carriers(rows, cols, q, p)
  }

  /** The face across side s of face d. */
  function Partner(rows: nat, cols: nat, d: FaceRef, s: nat): FaceRef
    requires rows >= 2 && cols >= 2 && ValidRef(rows, cols, d) && s < 3
  {
    var y, x, r, c := d.y, d.x, rows, cols;
    match d.part
    case TopSurface =>
      if !d.second then
        if s == 0 then (if y == 0 then FaceRef(BottomWall, 0, x, false) else FaceRef(TopSurface, y - 1, x, true))
        else if s == 1 then FaceRef(TopSurface, y, x, true)
        else (if x == 0 then FaceRef(LeftWall, y, 0, false) else FaceRef(TopSurface, y, x - 1, true))
      else
        if s == 0 then (if x + 2 < c then FaceRef(TopSurface, y, x + 1, false) else FaceRef(RightWall, y, 0, false))
        else if s == 1 then (if y + 2 < r then FaceRef(TopSurface, y + 1, x, false) else FaceRef(TopWall, 0, x, false))
        else FaceRef(TopSurface, y, x, false)
    case BottomSurface =>
      if !d.second then
        if s == 0 then FaceRef(BottomSurface, y, x, true)
        else if s == 1 then (if y == 0 then FaceRef(BottomWall, 0, x, true) else FaceRef(BottomSurface, y - 1, x, true))
        else (if x == 0 then FaceRef(LeftWall, y, 0, true) else FaceRef(BottomSurface, y, x - 1, true))
      else
        if s == 0 then (if x + 2 < c then FaceRef(BottomSurface, y, x + 1, false) else FaceRef(RightWall, y, 0, true))
        else if s == 1 then FaceRef(BottomSurface, y, x, false)
        else (if y + 2 < r then FaceRef(BottomSurface, y + 1, x, false) else FaceRef(TopWall, 0, x, true))
    case LeftWall =>
      if !d.second then
        if s == 0 then FaceRef(TopSurface, y, 0, false)
        else if s == 1 then FaceRef(LeftWall, y, 0, true)
        else (if y == 0 then FaceRef(BottomWall, 0, 0, false) else FaceRef(LeftWall, y - 1, 0, true))
      else
        if s == 0 then (if y + 2 < r then FaceRef(LeftWall, y + 1, 0, false) else FaceRef(TopWall, 0, 0, false))
        else if s == 1 then FaceRef(BottomSurface, y, 0, false)
        else FaceRef(LeftWall, y, 0, false)
    case RightWall =>
      if !d.second then
        if s == 0 then (if y == 0 then FaceRef(BottomWall, 0, c - 2, true) else FaceRef(RightWall, y - 1, 0, true))
        else if s == 1 then FaceRef(RightWall, y, 0, true)
        else FaceRef(TopSurface, y, c - 2, true)
      else
        if s == 0 then FaceRef(RightWall, y, 0, false)
        else if s == 1 then FaceRef(BottomSurface, y, c - 2, true)
        else (if y + 2 < r then FaceRef(RightWall, y + 1, 0, false) else FaceRef(TopWall, 0, c - 2, true))
    case BottomWall =>
      if !d.second then
        if s == 0 then FaceRef(TopSurface, 0, x, false)
        else if s == 1 then FaceRef(BottomWall, 0, x, true)
        else (if x == 0 then FaceRef(LeftWall, 0, 0, false) else FaceRef(BottomWall, 0, x - 1, true))
      else
        if s == 0 then (if x + 2 < c then FaceRef(BottomWall, 0, x + 1, false) else FaceRef(RightWall, 0, 0, false))
        else if s == 1 then FaceRef(BottomSurface, 0, x, false)
        else FaceRef(BottomWall, 0, x, false)
    case TopWall =>
      if !d.second then
        if s == 0 then (if x == 0 then FaceRef(LeftWall, r - 2, 0, true) else FaceRef(TopWall, 0, x - 1, true))
        else if s == 1 then FaceRef(TopWall, 0, x, true)
        else FaceRef(TopSurface, r - 2, x, true)
      else
        if s == 0 then FaceRef(TopWall, 0, x, false)
        else if s == 1 then FaceRef(BottomSurface, r - 2, x, true)
        else (if x + 2 < c then FaceRef(TopWall, 0, x + 1, false) else FaceRef(RightWall, r - 2, 0, true))
  }

  /** Each side of each face is carried by exactly that face and its partner,
      a different face that also spans both ends. */
  lemma HoldersOfEdge(rows: nat, cols: nat, d: FaceRef, s: nat)
    requires rows >= 2 && cols >= 2 && ValidRef(rows, cols, d) && s < 3
    ensures var e, ends := Partner(rows, cols, d, s), Ends(Shape(rows, cols, d), s);
      ValidRef(rows, cols, e) && e != d &&
      Shape(rows, cols, e).Has(ends.0) && Shape(rows, cols, e).Has(ends.1) &&
      Holders(rows, cols, ends.0, ends.1) == {d, e}
  {
    match d.part
    case TopSurface => if d.second { TopSurfaceSecondEdges(rows, cols, d, s); } else { TopSurfaceFirstEdges(rows, cols, d, s); }
    case BottomSurface => if d.second { BottomSurfaceSecondEdges(rows, cols, d, s); } else { BottomSurfaceFirstEdges(rows, cols, d, s); }
    case LeftWall => if d.second { LeftWallSecondEdges(rows, cols, d, s); } else { LeftWallFirstEdges(rows, cols, d, s); }
    case RightWall => if d.second { RightWallSecondEdges(rows, cols, d, s); } else { RightWallFirstEdges(rows, cols, d, s); }
    case BottomWall => if d.second { BottomWallSecondEdges(rows, cols, d, s); } else { BottomWallFirstEdges(rows, cols, d, s); }
    case TopWall => if d.second { TopWallSecondEdges(rows, cols, d, s); } else { TopWallFirstEdges(rows, cols, d, s); }
  }

  lemma TopSurfaceFirstEdges(rows: nat, cols: nat, d: FaceRef, s: nat)
    requires rows >= 2 && cols >= 2 && ValidRef(rows, cols, d) && s < 3
    requires d.part == TopSurface && !d.second
    ensures var e, ends := Partner(rows, cols, d, s), Ends(Shape(rows, cols, d), s);
      ValidRef(rows, cols, e) && e != d &&
      Shape(rows, cols, e).Has(ends.0) && Shape(rows, cols, e).Has(ends.1) &&
      Holders(rows, cols, ends.0, ends.1) == {d, e}
  {
  }

  lemma TopSurfaceSecondEdges(rows: nat, cols: nat, d: FaceRef, s: nat)
    requires rows >= 2 && cols >= 2 && ValidRef(rows, cols, d) && s < 3
    requires d.part == TopSurface && d.second
    ensures var e, ends := Partner(rows, cols, d, s), Ends(Shape(rows, cols, d), s);
      ValidRef(rows, cols, e) && e != d &&
      Shape(rows, cols, e).Has(ends.0) && Shape(rows, cols, e).Has(ends.1) &&
      Holders(rows, cols, ends.0, ends.1) == {d, e}
  {
  }

  lemma BottomSurfaceFirstEdges(rows: nat, cols: nat, d: FaceRef, s: nat)
    requires rows >= 2 && cols >= 2 && ValidRef(rows, cols, d) && s < 3
    requires d.part == BottomSurface && !d.second
    ensures var e, ends := Partner(rows, cols, d, s), Ends(Shape(rows, cols, d), s);
      ValidRef(rows, cols, e) && e != d &&
      Shape(rows, cols, e).Has(ends.0) && Shape(rows, cols, e).Has(ends.1) &&
      Holders(rows, cols, ends.0, ends.1) == {d, e}
  {
  }

  lemma BottomSurfaceSecondEdges(rows: nat, cols: nat, d: FaceRef, s: nat)
    requires rows >= 2 && cols >= 2 && ValidRef(rows, cols, d) && s < 3
    requires d.part == BottomSurface && d.second
    ensures var e, ends := Partner(rows, cols, d, s), Ends(Shape(rows, cols, d), s);
      ValidRef(rows, cols, e) && e != d &&
      Shape(rows, cols, e).Has(ends.0) && Shape(rows, cols, e).Has(ends.1) &&
      Holders(rows, cols, ends.0, ends.1) == {d, e}
  {
  }

  lemma LeftWallFirstEdges(rows: nat, cols: nat, d: FaceRef, s: nat)
    requires rows >= 2 && cols >= 2 && ValidRef(rows, cols, d) && s < 3
    requires d.part == LeftWall && !d.second
    ensures var e, ends := Partner(rows, cols, d, s), Ends(Shape(rows, cols, d), s);
      ValidRef(rows, cols, e) && e != d &&
      Shape(rows, cols, e).Has(ends.0) && Shape(rows, cols, e).Has(ends.1) &&
      Holders(rows, cols, ends.0, ends.1) == {d, e}
  {
  }

  lemma LeftWallSecondEdges(rows: nat, cols: nat, d: FaceRef, s: nat)
    requires rows >= 2 && cols >= 2 && ValidRef(rows, cols, d) && s < 3
    requires d.part == LeftWall && d.second
    ensures var e, ends := Partner(rows, cols, d, s), Ends(Shape(rows, cols, d), s);
      ValidRef(rows, cols, e) && e != d &&
      Shape(rows, cols, e).Has(ends.0) && Shape(rows, cols, e).Has(ends.1) &&
      Holders(rows, cols, ends.0, ends.1) == {d, e}
  {
  }

  lemma RightWallFirstEdges(rows: nat, cols: nat, d: FaceRef, s: nat)
    requires rows >= 2 && cols >= 2 && ValidRef(rows, cols, d) && s < 3
    requires d.part == RightWall && !d.second
    ensures var e, ends := Partner(rows, cols, d, s), Ends(Shape(rows, cols, d), s);
      ValidRef(rows, cols, e) && e != d &&
      Shape(rows, cols, e).Has(ends.0) && Shape(rows, cols, e).Has(ends.1) &&
      Holders(rows, cols, ends.0, ends.1) == {d, e}
  {
  }

  lemma RightWallSecondEdges(rows: nat, cols: nat, d: FaceRef, s: nat)
    requires rows >= 2 && cols >= 2 && ValidRef(rows, cols, d) && s < 3
    requires d.part == RightWall && d.second
    ensures var e, ends := Partner(rows, cols, d, s), Ends(Shape(rows, cols, d), s);
      ValidRef(rows, cols, e) && e != d &&
      Shape(rows, cols, e).Has(ends.0) && Shape(rows, cols, e).Has(ends.1) &&
      Holders(rows, cols, ends.0, ends.1) == {d, e}
  {
  }

  lemma BottomWallFirstEdges(rows: nat, cols: nat, d: FaceRef, s: nat)
    requires rows >= 2 && cols >= 2 && ValidRef(rows, cols, d) && s < 3
    requires d.part == BottomWall && !d.second
    ensures var e, ends := Partner(rows, cols, d, s), Ends(Shape(rows, cols, d), s);
      ValidRef(rows, cols, e) && e != d &&
      Shape(rows, cols, e).Has(ends.0) && Shape(rows, cols, e).Has(ends.1) &&
      Holders(rows, cols, ends.0, ends.1) == {d, e}
  {
  }

  lemma BottomWallSecondEdges(rows: nat, cols: nat, d: FaceRef, s: nat)
    requires rows >= 2 && cols >= 2 && ValidRef(rows, cols, d) && s < 3
    requires d.part == BottomWall && d.second
    ensures var e, ends := Partner(rows, cols, d, s), Ends(Shape(rows, cols, d), s);
      ValidRef(rows, cols, e) && e != d &&
      Shape(rows, cols, e).Has(ends.0) && Shape(rows, cols, e).Has(ends.1) &&
      Holders(rows, cols, ends.0, ends.1) == {d, e}
  {
  }

  lemma TopWallFirstEdges(rows: nat, cols: nat, d: FaceRef, s: nat)
    requires rows >= 2 && cols >= 2 && ValidRef(rows, cols, d) && s < 3
    requires d.part == TopWall && !d.second
    ensures var e, ends := Partner(rows, cols, d, s), Ends(Shape(rows, cols, d), s);
      ValidRef(rows, cols, e) && e != d &&
      Shape(rows, cols, e).Has(ends.0) && Shape(rows, cols, e).Has(ends.1) &&
      Holders(rows, cols, ends.0, ends.1) == {d, e}
  {
  }

  lemma TopWallSecondEdges(rows: nat, cols: nat, d: FaceRef, s: nat)
    requires rows >= 2 && cols >= 2 && ValidRef(rows, cols, d) && s < 3
    requires d.part == TopWall && d.second
    ensures var e, ends := Partner(rows, cols, d, s), Ends(Shape(rows, cols, d), s);
      ValidRef(rows, cols, e) && e != d &&
      Shape(rows, cols, e).Has(ends.0) && Shape(rows, cols, e).Has(ends.1) &&
      Holders(rows, cols, ends.0, ends.1) == {d, e}
  {
  }

  /** Holders does not depend on the order of the ends. */
  lemma HoldersSymmetric(rows: nat, cols: nat, p: GridVertex, q: GridVertex)
    ensures Holders(rows, cols, p, q) == Holders(rows, cols, q, p)
  {
  }

  /** Two different corners of a triangle with distinct corners are the ends
      of one of its sides, in one order or the other. */
  lemma SideWith(t: Tri, p: GridVertex, q: GridVertex) returns (s: nat)
    requires t.a != t.b && t.b != t.c && t.a != t.c
    requires p != q && t.Has(p) && t.Has(q)
    ensures s < 3 && (Ends(t, s) == (p, q) || Ends(t, s) == (q, p))
  {
    s := if {p, q} == {t.a, t.b} then 0 else if {p, q} == {t.b, t.c} then 1 else 2;
  }

  /** A face carries the edge between any two of its corners. */
  lemma CarriesCorners(rows: nat, cols: nat, d: FaceRef, p: GridVertex, q: GridVertex)
    requires rows >= 2 && cols >= 2 && ValidRef(rows, cols, d)
    requires p != q && Shape(rows, cols, d).Has(p) && Shape(rows, cols, d).Has(q)
    ensures d in Holders(rows, cols, p, q)
  {
    ShapeProper(rows, cols, d);
    var s := SideWith(Shape(rows, cols, d), p, q);
    HoldersOfEdge(rows, cols, d, s);
    HoldersSymmetric(rows, cols, p, q);
  }

  /** A triangle on the grid uses vertex index Vid(p) only through corner p. */
  lemma IndicesHas(rows: nat, cols: nat, t: Tri, p: GridVertex)
    requires OnGrid(rows, cols, t.a) && OnGrid(rows, cols, t.b) && OnGrid(rows, cols, t.c)
    requires OnGrid(rows, cols, p) && Indices(rows, cols, t).Has(Vid(rows, cols, p))
    ensures t.Has(p)
  {
    if Vid(rows, cols, p) == Vid(rows, cols, t.a) {
      VidInjective(rows, cols, p, t.a);
    } else if Vid(rows, cols, p) == Vid(rows, cols, t.b) {
      VidInjective(rows, cols, p, t.b);
    } else {
      VidInjective(rows, cols, p, t.c);
    }
  }

  /** Two different corners of a triangle are the ends of one of its sides. */
  lemma SideOf(rows: nat, cols: nat, t: Tri, j1: nat, j2: nat) returns (s: nat)
    requires j1 < 3 && j2 < 3 && j1 != j2
    ensures s < 3
    ensures var f, ends := Indices(rows, cols, t), Ends(t, s);
      {f.Corner(j1), f.Corner(j2)} == {Vid(rows, cols, ends.0), Vid(rows, cols, ends.1)}
  {
    s := if {j1, j2} == {0, 1} then 0 else if {j1, j2} == {1, 2} then 1 else 2;
  }

  /** Any face whose index triple holds Vid(p) and Vid(q) carries the edge p-q. */
  lemma SpanningFace(rows: nat, cols: nat, g: FaceRef, p: GridVertex, q: GridVertex)
    requires rows >= 2 && cols >= 2 && ValidRef(rows, cols, g)
    requires p != q && OnGrid(rows, cols, p) && OnGrid(rows, cols, q)
    requires Concrete(rows, cols, g).Has(Vid(rows, cols, p)) && Concrete(rows, cols, g).Has(Vid(rows, cols, q))
    ensures g in Holders(rows, cols, p, q)
  {
    ConcreteIsShape(rows, cols, g);
    ShapeProper(rows, cols, g);
    IndicesHas(rows, cols, Shape(rows, cols, g), p);
    IndicesHas(rows, cols, Shape(rows, cols, g), q);
    CarriesCorners(rows, cols, g, p, q);
  }

  /** The corners j1 and j2 of face d are the ends p, q of one of its sides,
      carried by d and by one other face e alone. */
  lemma SideOfCorners(rows: nat, cols: nat, d: FaceRef, j1: nat, j2: nat)
    returns (p: GridVertex, q: GridVertex, e: FaceRef)
    requires rows >= 2 && cols >= 2 && ValidRef(rows, cols, d)
    requires j1 < 3 && j2 < 3 && j1 != j2
    ensures p != q && OnGrid(rows, cols, p) && OnGrid(rows, cols, q)
    ensures var f := Concrete(rows, cols, d);
      {f.Corner(j1), f.Corner(j2)} == {Vid(rows, cols, p), Vid(rows, cols, q)}
    ensures ValidRef(rows, cols, e) && e != d && Holders(rows, cols, p, q) == {d, e}
    ensures Concrete(rows, cols, e).Has(Vid(rows, cols, p)) && Concrete(rows, cols, e).Has(Vid(rows, cols, q))
  {
    var t := Shape(rows, cols, d);
    ConcreteIsShape(rows, cols, d);
    ShapeProper(rows, cols, d);
    var s := SideOf(rows, cols, t, j1, j2);
    var ends := Ends(t, s);
    p, q := ends.0, ends.1;
    HoldersOfEdge(rows, cols, d, s);
    e := Partner(rows, cols, d, s);
    ConcreteIsShape(rows, cols, e);
  }

  /** A position of the list whose face spans p and q holds one of the
      carriers of p-q. */
  lemma OnlySpanners(rows: nat, cols: nat, d: FaceRef, e: FaceRef, p: GridVertex, q: GridVertex, k: nat)
    requires rows >= 2 && cols >= 2
    requires p != q && OnGrid(rows, cols, p) && OnGrid(rows, cols, q)
    requires Holders(rows, cols, p, q) == {d, e}
    requires k < |MeshFaces(rows, cols)|
    requires MeshFaces(rows, cols)[k].Has(Vid(rows, cols, p)) && MeshFaces(rows, cols)[k].Has(Vid(rows, cols, q))
    ensures k == Index(rows, cols, d) || k == Index(rows, cols, e)
  {
    var g := RefAt(rows, cols, k);
    IndexRange(rows, cols, g);
    SpanningFace(rows, cols, g, p, q);
  }

  /** The corners j1 and j2 of the face at position i are the ends p, q of a
      side of that face d, carried by d and one other face e alone. */
  lemma EdgeOfFace(rows: nat, cols: nat, i: nat, j1: nat, j2: nat)
    returns (p: GridVertex, q: GridVertex, d: FaceRef, e: FaceRef)
    requires rows >= 2 && cols >= 2
    requires i < |MeshFaces(rows, cols)| && j1 < 3 && j2 < 3 && j1 != j2
    ensures p != q && OnGrid(rows, cols, p) && OnGrid(rows, cols, q)
    ensures var f := MeshFaces(rows, cols)[i];
      {f.Corner(j1), f.Corner(j2)} == {Vid(rows, cols, p), Vid(rows, cols, q)}
    ensures ValidRef(rows, cols, d) && ValidRef(rows, cols, e) && d != e
    ensures Index(rows, cols, d) == i && Holders(rows, cols, p, q) == {d, e}
    ensures Index(rows, cols, e) < |MeshFaces(rows, cols)|
    ensures var g := MeshFaces(rows, cols)[Index(rows, cols, e)];
      g.Has(Vid(rows, cols, p)) && g.Has(Vid(rows, cols, q))
  {
    d := RefAt(rows, cols, i);
    IndexRange(rows, cols, d);
    p, q, e := SideOfCorners(rows, cols, d, j1, j2);
    IndexRange(rows, cols, e);
  }

  /** The positions of the two faces that span the edge between corners j1
      and j2 of face i. */
  lemma EdgeSpanners(rows: nat, cols: nat, i: nat, j1: nat, j2: nat) returns (ie: nat)
    requires rows >= 2 && cols >= 2
    requires i < |MeshFaces(rows, cols)| && j1 < 3 && j2 < 3 && j1 != j2
    ensures var F := MeshFaces(rows, cols);
      var a, b := F[i].Corner(j1), F[i].Corner(j2);
      i != ie && ie < |F| && F[ie].Has(a) && F[ie].Has(b) &&
      forall k :: 0 <= k < |F| && F[k].Has(a) && F[k].Has(b) ==> k == i || k == ie
  {
    var F := MeshFaces(rows, cols);
    var p, q, d, e := EdgeOfFace(rows, cols, i, j1, j2);
    ie := Index(rows, cols, e);
    var va, vb := Vid(rows, cols, p), Vid(rows, cols, q);
    forall k | 0 <= k < |F| && F[k].Has(va) && F[k].Has(vb)
      ensures k == i || k == ie
    {
      OnlySpanners(rows, cols, d, e, p, q, k);
    }
    if i == ie {
      IndexInjective(rows, cols, d, e);
    }
  }

  /** Edge closure: for grids of at least 2 x 2 samples, every edge of every
      face of the list is shared by exactly two faces of the list. */
  lemma EdgeClosure(rows: nat, cols: nat, i: nat, j1: nat, j2: nat)
    requires rows >= 2 && cols >= 2
    requires i < |MeshFaces(rows, cols)| && j1 < 3 && j2 < 3 && j1 != j2
    ensures var F := MeshFaces(rows, cols);
      var a, b := F[i].Corner(j1), F[i].Corner(j2);
      |set k | 0 <= k < |F| && F[k].Has(a) && F[k].Has(b)| == 2
  {
    var F := MeshFaces(rows, cols);
    var a, b := F[i].Corner(j1), F[i].Corner(j2);
    var ie := EdgeSpanners(rows, cols, i, j1, j2);
    assert (set k | 0 <= k < |F| && F[k].Has(a) && F[k].Has(b)) == {i, ie};
  }

  /** Index bounds of face k: a proper triangle inside the vertex list. */
  lemma FaceBounds(rows: nat, cols: nat, k: nat)
    requires rows >= 1 && cols >= 1 && k < |MeshFaces(rows, cols)|
    ensures MeshFaces(rows, cols)[k].Proper() && MeshFaces(rows, cols)[k].Below(2 * rows * cols)
  {
    var d := RefAt(rows, cols, k);
    IndexRange(rows, cols, d);
    ConcreteIsShape(rows, cols, d);
    ShapeProper(rows, cols, d);
    var t := Shape(rows, cols, d);
    VidRange(rows, cols, t.a);
    VidRange(rows, cols, t.b);
    VidRange(rows, cols, t.c);
    if Vid(rows, cols, t.a) == Vid(rows, cols, t.b) {
      VidInjective(rows, cols, t.a, t.b);
    } else if Vid(rows, cols, t.b) == Vid(rows, cols, t.c) {
      VidInjective(rows, cols, t.b, t.c);
    } else if Vid(rows, cols, t.a) == Vid(rows, cols, t.c) {
      VidInjective(rows, cols, t.a, t.c);
    }
  }

  /** Every face of the list is a proper triangle on the 2 * rows * cols vertices. */
  lemma IndexBounds(rows: nat, cols: nat)
    requires rows >= 1 && cols >= 1
    ensures forall k :: 0 <= k < |MeshFaces(rows, cols)| ==>
              MeshFaces(rows, cols)[k].Proper() && MeshFaces(rows, cols)[k].Below(2 * rows * cols)
  {
    forall k | 0 <= k < |MeshFaces(rows, cols)|
      ensures MeshFaces(rows, cols)[k].Proper() && MeshFaces(rows, cols)[k].Below(2 * rows * cols)
    {
      FaceBounds(rows, cols, k);
    }
  }

  /** Top faces use only top-block vertices. */
  lemma TopBounds(rows: nat, cols: nat)
    requires rows >= 1 && cols >= 1
    ensures forall k :: 0 <= k < |TopFaces(rows, cols)| ==> TopFaces(rows, cols)[k].Below(rows * cols)
  {
    forall k | 0 <= k < |TopFaces(rows, cols)|
      ensures TopFaces(rows, cols)[k].Below(rows * cols)
    {
      TopFacesAt(rows, cols);
      var y, x, t := SurfaceSplit(rows, cols, k);
      var d := FaceRef(TopSurface, y, x, t == 1);
      ConcreteIsShape(rows, cols, d);
      VidRange(rows, cols, T(y, x));
      VidRange(rows, cols, T(y, x + 1));
      VidRange(rows, cols, T(y + 1, x));
      VidRange(rows, cols, T(y + 1, x + 1));
    }
  }

  /** Bottom faces use only bottom-block vertices. */
  lemma BottomBounds(rows: nat, cols: nat)
    requires rows >= 1 && cols >= 1
    ensures forall k :: 0 <= k < |BottomFaces(rows, cols)| ==>
              BottomFaces(rows, cols)[k].AtLeast(rows * cols) && BottomFaces(rows, cols)[k].Below(2 * rows * cols)
  {
    forall k | 0 <= k < |BottomFaces(rows, cols)|
      ensures BottomFaces(rows, cols)[k].AtLeast(rows * cols) && BottomFaces(rows, cols)[k].Below(2 * rows * cols)
    {
      BottomFacesAt(rows, cols);
      var y, x, t := SurfaceSplit(rows, cols, k);
      var d := FaceRef(BottomSurface, y, x, t == 1);
      ConcreteIsShape(rows, cols, d);
      VidRange(rows, cols, B(y, x));
      VidRange(rows, cols, B(y, x + 1));
      VidRange(rows, cols, B(y + 1, x));
      VidRange(rows, cols, B(y + 1, x + 1));
    }
  }

  // ---------------------------------------------------------------------------
  // Winding of the walls.
  // ---------------------------------------------------------------------------

  /** The left wall walks the top-surface edge it shares with the border cell
      of row y in the opposite direction to that cell's triangle. */
  lemma LeftWallWinding(rows: nat, cols: nat, y: nat)
    requires rows >= 2 && cols >= 2 && y < rows - 1
    ensures var F := MeshFaces(rows, cols);
      var wall, cell := Index(rows, cols, FaceRef(LeftWall, y, 0, false)), Index(rows, cols, FaceRef(TopSurface, y, 0, false));
      var a, b := y * cols, (y + 1) * cols;
      wall < |F| && cell < |F| &&
      F[wall].Traverses(a, b) && F[cell].Traverses(b, a)
  {
    IndexRange(rows, cols, FaceRef(LeftWall, y, 0, false));
    IndexRange(rows, cols, FaceRef(TopSurface, y, 0, false));
  }

  /** So does the right wall with the last cell of row y. */
  lemma RightWallWinding(rows: nat, cols: nat, y: nat)
    requires rows >= 2 && cols >= 2 && y < rows - 1
    ensures var F := MeshFaces(rows, cols);
      var wall, cell := Index(rows, cols, FaceRef(RightWall, y, 0, false)), Index(rows, cols, FaceRef(TopSurface, y, cols - 2, true));
      var a, b := y * cols + cols - 1, (y + 1) * cols + cols - 1;
      wall < |F| && cell < |F| &&
      F[wall].Traverses(b, a) && F[cell].Traverses(a, b)
  {
    IndexRange(rows, cols, FaceRef(RightWall, y, 0, false));
    IndexRange(rows, cols, FaceRef(TopSurface, y, cols - 2, true));
  }

  /** The front and back walls walk the top-surface edge they share with the
      border cell of column x in the same direction as that cell's triangle. */
  lemma RowWallWinding(rows: nat, cols: nat, x: nat)
    requires rows >= 2 && cols >= 2 && x < cols - 1
    ensures var F := MeshFaces(rows, cols);
      var front, cell := Index(rows, cols, FaceRef(BottomWall, 0, x, false)), Index(rows, cols, FaceRef(TopSurface, 0, x, false));
      front < |F| && cell < |F| &&
      F[front].Traverses(x, x + 1) && F[cell].Traverses(x, x + 1)
    ensures var F := MeshFaces(rows, cols);
      var back, cell := Index(rows, cols, FaceRef(TopWall, 0, x, false)), Index(rows, cols, FaceRef(TopSurface, rows - 2, x, true));
      var a := (rows - 1) * cols + x;
      back < |F| && cell < |F| &&
      F[back].Traverses(a + 1, a) && F[cell].Traverses(a + 1, a)
  {
    IndexRange(rows, cols, FaceRef(BottomWall, 0, x, false));
    IndexRange(rows, cols, FaceRef(TopSurface, 0, x, false));
    IndexRange(rows, cols, FaceRef(TopWall, 0, x, false));
    IndexRange(rows, cols, FaceRef(TopSurface, rows - 2, x, true));
  }
}
