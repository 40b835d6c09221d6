# Heightmap-to-STL and tile stitching, in Dafny

This project models the two computational cores of a small toolchain. The toolchain turns tiled
elevation rasters (GeoTIFF tiles of Bavarian terrain) into a printable solid.

* **Tile stitching (`Stitcher.py`).**
  * `get_edges` takes the four border lines of a tile.
  * `calculate_edge_difference` scores two border lines by the sum of absolute differences.
  * `find_best_matches` scores every ordered pair of different tiles on the four pairs of sides that
    meet.
  * `assemble_image` puts the first tile at (0, 0). It then repeatedly places a new tile next to a
    placed one, using the cheapest match. Finally it computes the bounding box of the positions and
    pastes every tile into a zero canvas.
* **Mesh construction (`Converter.py`).**
  * The heights are normalised (`height_data *= z_scale`, `height_data -= zMin`).
  * A vertex list is laid out: a top block with one point per sample, then a bottom block on z = 0.
  * Two triangles are emitted per grid cell for the top surface (`generate_faces_for_row`) and for
    the bottom surface, which has reversed winding.
  * Four perimeter walls are emitted.
  * The face list is cut into `len(faces) // workers` sized chunks. Each chunk is resolved into
    point triangles (`create_mesh_chunk`), and the chunks are joined in order.

The code's own form is kept:

* The loops are Dafny methods with loop invariants. `find_best_matches`' four nested loops,
  `generate_faces_for_row`, the vertex and face loops, the `while` loop of `assemble_image`, and the
  canvas loop all take this form.
* Each of these methods is proved against a specification. Most are proved equal to a specification
  function, such as `MatchList`, `TopRow`, `MeshFaces`, `VertexList` or `PasteAll`. The `while` loop
  of `assemble_image` (`Placement.PlacePieces`) and its match selection (`Placement.SelectMatch`) are
  proved to satisfy the relations `Placing` and `Chosen`.
* The numpy grids that are changed in place (`height_data *=`, `height_data -=`, `canvas[...] =`)
  are `array2<real>`.
* `chunk_mesh.vectors` is an `array2<Point>`.
* The properties are lemmas about the specification functions.

Modules, in dependency order:

* `Seqs`: flattening and grid helpers.
* `Geometry`: points, index faces and point triangles.
* `Faces`: the face list.
* `Topology`: index bounds, edge closure and wall winding.
* `Heights`: normalisation and the vertex list.
* `Assembly`: chunking, resolving and the whole pipeline.
* `Tiles`: edges and the edge difference.
* `Matching`: the matches dict.
* `Placement`: the greedy placement.
* `Canvas`: the bounding box, the canvas and `assemble_image`.

Three behaviours of the code are modelled as written:

* The heights are `raw * sz - min(raw)`: the scale is applied first, then the minimum of the
  unscaled samples is subtracted. The lowest height is therefore 0 only when sz = 1 or min(raw) = 0
  (`Heights.NormalizedMinimum`, `Heights.NoBaselineForOtherScales`).
* There is no check on the grid size. Grids with fewer than two rows or columns give a shorter face
  list, with no top, bottom or wall faces along the missing direction.
* The faces are cut into slices of `len(faces) // N` faces for N workers. This fails when
  `len(faces) < N`, and otherwise gives between N and 2N - 1 chunks (`Assembly.WorkerChunkCount`).

Tile keys are the positions 0 .. n - 1 of the tiles in the `pieces` dict's insertion order. The
matches dict is a sequence of `Match` entries in insertion order. `sorted(..., key=diff)` followed
by the first entry that passes the test of line 53 is modelled as choosing the eligible entry that
has the least difference and, among equal differences, the earliest index. Python's sort is stable,
so this is the same entry.

The winding lemmas of `Topology` state how the perimeter walls meet the top surface:

* The left and right walls traverse their shared top edge opposite to the adjacent top triangle,
  as a consistently oriented solid needs.
* The front and back walls (Converter.py:120-127) traverse theirs in the same direction as the top
  triangle.

## Model

| member | source | states |
|---|---|---|
| Tiles.GetEdges | Stitcher.py:13-21 | top is row 0 and bottom the last row, each as long as the width; left is column 0 and right the last column, each as long as the height |
| Tiles.EdgeLength | Stitcher.py:13-21 | horizontal sides have the tile's width, vertical sides its height, so a side and its opposite have equal length |
| Tiles.EdgeDifference | Stitcher.py:6-10 | the sum of absolute differences is never negative |
| Tiles.DifferenceZeroIff | Stitcher.py:6-10 | the difference is 0 exactly when the two lines are equal sample by sample (both directions) |
| Tiles.DifferenceSymmetric | Stitcher.py:6-10 | swapping the two lines does not change the difference |
| Tiles.ComplementaryIsOpposite | Stitcher.py:38 | the four side pairs of line 38 are exactly the pairs (s, opposite of s), and the relation is symmetric |
| Tiles.OppositeInvolution | Stitcher.py:38 | the opposite of the opposite side is the side itself |
| Matching.AppendPairMatches | Stitcher.py:36-40 | the two side loops append exactly the four scored entries of the pair (i, j), in dict order |
| Matching.AppendPieceMatches | Stitcher.py:32-40 | the key2 loop skips key1 and appends the entries of every other piece in key order |
| Matching.FindBestMatches | Stitcher.py:24-41 | the four nested loops build exactly the entry list `MatchList(pieces)` |
| Matching.MatchAt | Stitcher.py:29-41 | there are n * 4(n - 1) entries; entry i*4(n-1) + 4r + t scores side t of piece i against its r-th other piece and the opposite side |
| Matching.MatchCount | Stitcher.py:29-41 | the dict has 4 * n * (n - 1) entries, none when there are fewer than two pieces |
| Matching.MatchSplit | Stitcher.py:29-41 | every entry is the entry of some piece i, other piece r and side t |
| Matching.MatchKeys | Stitcher.py:29-41 | a key (k1, k2, s1, s2) is present exactly when k1, k2 are pieces, k1 != k2 and (s1, s2) is one of the four pairs of line 38 |
| Matching.MatchScore | Stitcher.py:36-40 | each entry names two different pieces, opposite sides, and the edge difference of those two sides |
| Matching.KeysDistinct | Stitcher.py:40 | no key is written twice: different positions have different keys |
| Matching.MatchSymmetric | Stitcher.py:36-40 | the entry for (k1, k2, s1, s2) and the entry for (k2, k1, s2, s1) have the same difference |
| Placement.Neighbour | Stitcher.py:55-62 | the new piece's position shares a side with the placed piece's position |
| Placement.NeighbourDirection | Stitcher.py:55-62 | bottom/top moves down one row, top/bottom up one row, right/left right one column, left/right left one column |
| Placement.NeighbourInverse | Stitcher.py:55-62 | meeting the other way round from the new position leads back to the placed piece |
| Placement.MatchListFits | Stitcher.py:24-41 | the dict of find_best_matches names only pieces and meeting sides, and holds every key the placement loop can ask for |
| Placement.ChosenUnique | Stitcher.py:52-53 | at most one entry is the first eligible entry of the stably sorted dict |
| Placement.SelectMatch | Stitcher.py:52-64 | the entry taken has a placed first piece and an unplaced second piece, and no eligible entry has a smaller difference or an equal difference and an earlier index |
| Placement.SomeEligible | Stitcher.py:51-53 | while a piece is unplaced, the complete dict has an eligible entry, so the for loop always breaks |
| Placement.PlacingStep | Stitcher.py:53-64 | one pass adds exactly one previously unplaced key, at the neighbour position of the chosen entry, and keeps the placement greedy |
| Placement.PlacePieces | Stitcher.py:49-64 | the first key is placed at (0, 0); the loop ends after n - 1 passes with every key placed exactly once; layout lists the positions in placement order; every later key was placed by the first eligible entry against an earlier key |
| Placement.RangeSize | Stitcher.py:51 | there are exactly n keys below n, which bounds the loop |
| Canvas.Least | Stitcher.py:67-68 | min over the positions: attained by some element and no larger than any |
| Canvas.Greatest | Stitcher.py:69-70 | max over the positions: attained by some element and no smaller than any |
| Canvas.BoundingBox | Stitcher.py:67-72 | grid_rows and grid_cols are at least 1, every position lies in the box, and each edge of the box is reached by some position |
| Canvas.BoundingBoxSmallest | Stitcher.py:67-72 | any box with at least one row and one column that holds every position is at least as large |
| Canvas.BlockFits | Stitcher.py:80-84 | the block of each adjusted position lies inside the grid_rows * h x grid_cols * w canvas |
| Canvas.Zeros | Stitcher.py:76 | the blank canvas has the given shape and every sample is 0 |
| Canvas.PasteAll | Stitcher.py:76-84 | after any number of passes the canvas keeps the shape grid_rows * h x grid_cols * w |
| Canvas.LastCover | Stitcher.py:79-84 | the last of the first k pieces whose cell covers a sample, or -1 when none does |
| Canvas.PasteAllAt | Stitcher.py:79-84 | each sample shows the matching sample of the last pasted piece whose cell covers it, or 0 when none does |
| Canvas.PasteAllCovered | Stitcher.py:84 | a pass writes the samples of its own cell |
| Canvas.PasteAllMissed | Stitcher.py:84 | a pass leaves every sample outside its cell as it was |
| Canvas.PasteAt | Stitcher.py:84 | a slice assignment sets the block to the tile and keeps every other sample |
| Canvas.CellsDisjoint | Stitcher.py:82-84 | two cells of the box that share a sample are the same cell |
| Canvas.OwnCellLast | Stitcher.py:79-84 | with distinct positions, the last cell over a sample of piece i's cell is piece i's |
| Canvas.TileShown | Stitcher.py:79-84 | with distinct positions, every piece appears whole in its own block of the finished canvas |
| Canvas.BlankOutside | Stitcher.py:76-84 | samples in no piece's cell stay 0 |
| Canvas.PasteTile | Stitcher.py:84 | the nested loops give exactly the slice assignment: the block becomes the tile, the rest is unchanged |
| Canvas.PasteTiles | Stitcher.py:79-84 | the loop over placed_pieces pastes every piece, in placement order, into the zero canvas |
| Canvas.NewCanvas | Stitcher.py:76 | np.zeros: a fresh array of the given shape, all zero |
| Canvas.PlacedReady | Stitcher.py:75-84 | after placement every placed key names a tile of the common shape and the bounding box holds every position |
| Canvas.AssembleImage | Stitcher.py:44-86 | no pieces gives the IndexError of line 49; otherwise the placement is greedy and complete, and the fresh canvas equals the pasting of every piece at its box-relative block |
| Canvas.StitchPieces | Stitcher.py:100-104 | the matches of find_best_matches followed by assemble_image: the same outcome with the dict of every pair |
| Faces.GenerateFacesForRow | Converter.py:7-23 | exactly 2(cols - 1) faces; entries 2x and 2x+1 are (v0, v1, v2) and (v1, v3, v2) with v0 = y*cols + x, v1 = v0 + 1, v2 = (y+1)*cols + x, v3 = v2 + 1 |
| Faces.TopRowShape | Converter.py:11-22 | the row of top faces has 2(cols - 1) entries, two per cell, in cell order |
| Faces.BuildFaces | Converter.py:88-127 | the face list is the top rows joined in order, then the bottom surface, then the left/right walls per row step, then the front/back walls per column step |
| Faces.AppendBottomFaces | Converter.py:96-108 | the bottom-surface loops append the bottom faces of every cell, row by row |
| Faces.AppendBottomRow | Converter.py:98-108 | the inner loop appends (v2, v1, v0) and (v3, v1, v2) for every cell of row y, shifted by offset |
| Faces.AppendSideWalls | Converter.py:111-118 | the wall loop over y appends the two left-wall and two right-wall triangles of every step |
| Faces.AppendRowWalls | Converter.py:120-127 | the wall loop over x appends the two front-wall and two back-wall triangles of every step |
| Faces.TopFacesAt | Converter.py:91-93 | entry 2((cols-1)y + x) and the next one of the flattened top faces are the two triangles of cell (y, x) |
| Faces.BottomFacesAt | Converter.py:96-108 | the bottom faces have the same layout, with the bottom triangles |
| Faces.SideWallsAt | Converter.py:111-118 | 4(rows - 1) wall faces, four per row step, in the order of lines 113-118 |
| Faces.RowWallsAt | Converter.py:120-127 | 4(cols - 1) wall faces, four per column step, in the order of lines 122-127 |
| Faces.FaceCount | Converter.py:91-127 | the face list has 4(rows-1)(cols-1) + 4(rows-1) + 4(cols-1) entries, split into its four blocks |
| Faces.BottomMirrorsTop | Converter.py:96-108 | each bottom face is the top face at the same position, shifted by rows*cols and with its winding reversed (a rotation of the reversed triple) |
| Topology.VidInjective | Converter.py:79-86 | different grid vertices have different vertex-list positions |
| Topology.VidRange | Converter.py:79-86 | top vertices have indices below rows*cols, bottom vertices from rows*cols to 2*rows*cols |
| Topology.IndexRange | Converter.py:91-127 | the face of every named cell or wall step sits at its computed position in the face list |
| Topology.RefAt | Converter.py:91-127 | every position of the face list holds the face of some cell or wall step |
| Topology.IndexInjective | Converter.py:91-127 | different cells or wall steps sit at different positions |
| Topology.FaceBounds | Converter.py:11-127 | every face has three different vertices, all below 2*rows*cols |
| Topology.IndexBounds | Converter.py:11-127 | the same for every face of the list |
| Topology.TopBounds | Converter.py:11-16 | top faces use only vertices below rows*cols |
| Topology.BottomBounds | Converter.py:96-102 | bottom faces use only vertices in [rows*cols, 2*rows*cols) |
| Topology.HoldersOfEdge | Converter.py:7-127 | each side of each face is shared by exactly one other face of the solid |
| Topology.EdgeSpanners | Converter.py:7-127 | for each side of face i there is one other face of the list containing both ends, and no third one |
| Topology.EdgeClosure | Converter.py:7-127 | for grids of at least 2 x 2 samples, every edge of every face is used by exactly two faces of the list, corner verticals included |
| Topology.LeftWallWinding | Converter.py:113 | the left wall traverses its shared top edge opposite to the adjacent top triangle |
| Topology.RightWallWinding | Converter.py:117 | the right wall traverses its shared top edge opposite to the adjacent top triangle |
| Topology.RowWallWinding | Converter.py:122-127 | the front and back walls traverse their shared top edges in the same direction as the adjacent top triangles |
| Heights.SeqMin | Converter.py:61 | np.min of a non-empty row: attained and a lower bound |
| Heights.GridMinIsMin | Converter.py:61 | np.min of the raster: attained by some sample and no sample is smaller |
| Heights.MinUnique | Converter.py:61 | any attained lower bound of the raster is its minimum |
| Heights.MinHeight | Converter.py:61 | the minimum of the loaded array, attained and a lower bound |
| Heights.LoadGrid | Converter.py:59 | np.array(img): a fresh array holding the raster sample by sample |
| Heights.Scale | Converter.py:68 | height_data *= z_scale multiplies every sample in place |
| Heights.Lower | Converter.py:72 | height_data -= zMin subtracts from every sample in place |
| Heights.NormalizeHeights | Converter.py:59-72 | the heights after lines 59-72 are the normalised grid |
| Heights.NormalizedAt | Converter.py:61-72 | each height is raw[y][x] * sz - min(raw) |
| Heights.UnitScaleBaseline | Converter.py:61-72 | with sz = 1 every height is at least 0 and the lowest is exactly 0 |
| Heights.NormalizedMinimum | Converter.py:61-72 | for sz >= 0 the lowest height is min(raw) * (sz - 1), reached at the lowest sample |
| Heights.NoBaselineForOtherScales | Converter.py:61-72 | a one-sample raster of height 1 with sz = 2 ends at height 1, so other scales do not lower the model onto z = 0 |
| Heights.VertexCount | Converter.py:75-86 | the vertex list has 2*rows*cols entries, rows*cols per block |
| Heights.VertexAt | Converter.py:79-86 | entry y*cols + x is (x*sx, y*sy, h[y][x]) and entry rows*cols + y*cols + x is (x*sx, y*sy, 0) |
| Heights.AppendVertexRow | Converter.py:80-86 | the inner loop appends the points of row y of the block |
| Heights.AppendVertexBlock | Converter.py:79-86 | the outer loop appends the rows of the block in order |
| Heights.BuildVertices | Converter.py:75-86 | the two loops build exactly the vertex list |
| Assembly.ChunksJoin | Converter.py:135-141 | joining the slices faces[i:i + k] in order gives the face list back |
| Assembly.ChunkSizes | Converter.py:135 | every slice is non-empty and has at most chunk_size faces |
| Assembly.ChunkCount | Converter.py:135 | the number of slices is the length divided by chunk_size, rounded up |
| Assembly.WorkerChunkCount | Converter.py:134-135 | the chunk size len(faces) // N is positive exactly when there are at least N faces, and then there are between N and 2N - 1 slices |
| Assembly.ChunkAt | Converter.py:135 | slice i is faces[i*k : min(i*k + k, len)] |
| Assembly.GatherConcat | Converter.py:141 | resolving a concatenation is concatenating the resolved parts |
| Assembly.GatherChunks | Converter.py:137-141 | resolving the chunks one by one and joining them equals resolving the whole list |
| Assembly.CreateMeshChunk | Converter.py:25-32 | one triangle per face; corner j of triangle i is vertices[chunk_faces[i][j]] |
| Assembly.MeshFromChunks | Converter.py:137-141 | the chunk meshes joined in chunk order are the whole face list resolved |
| Assembly.TerrainIndexes | Converter.py:59-127 | every face names a vertex of the vertex list |
| Assembly.TerrainAt | Converter.py:137-141 | triangle k is face k resolved against the vertex list |
| Assembly.HeightmapToStl | Converter.py:59-141 | an empty raster fails (np.min), a zero chunk size fails (range with step 0), and otherwise the result is the resolved face list |
| Assembly.VertexKind | Converter.py:79-86 | top-block vertices lie on the normalised surface, bottom-block vertices on z = 0 |
| Assembly.TopTrianglesOnSurface | Converter.py:7-81 | every corner of a top triangle is a grid sample at its (x*sx, y*sy, height) |
| Assembly.BottomFaceRange | Converter.py:96-102 | faces of the bottom block of the list use only bottom-block vertices |
| Assembly.BottomTrianglesFlat | Converter.py:84-108 | every corner of a bottom triangle lies on z = 0 |
| Assembly.SinglePixelFails | Converter.py:134-135 | a 1 x 1 raster has no faces, so the chunking fails whatever the worker count |

## Left out

- File and image I/O are not modelled: `Image.open`, the numpy conversion, the LANCZOS resize (Converter.py:46-56), the STL writer (`mesh.Mesh`, `save`) and the directory scan, load and save of `stitch_image` (Stitcher.py:89-108). The raster and the tiles are given as grids of reals.
- The script entry points are not modelled: Converter.py:150-160 and Stitcher.py:111-114.
- The first baseline subtraction (Converter.py:48-52) is not modelled, because line 59 overwrites its result.
- The multiprocessing pools and `cpu_count` are not modelled. The worker count is a parameter, and each `imap` is a sequential in-order map (its results are returned in input order).
- `tqdm` and `print` are not modelled; they only report progress.
- float32 rounding is not modelled: samples, heights, coordinates and edge differences are exact reals. Pixel values are reals rather than integers, because the tiles are loaded as float32 arrays and the canvas is float32.
- The STL writer is not modelled, and with it the normals that `mesh.Mesh` stores with each triangle.
- Placement.PlacePieces requires a well-formed, complete matches dict, as `find_best_matches` builds it. With an incomplete dict the source's `while` loop can spin forever; that case is not modelled.
- Matching.FindBestMatches requires all tiles to share one shape of at least 1 x 1, so that opposite edges have equal length. Differently shaped tiles make `calculate_edge_difference` raise, or broadcast when an edge has one sample; that is not modelled.
- Canvas.AssembleImage requires the same: all tiles share one shape of at least 1 x 1. Differently shaped tiles make the slice assignment of line 84 fail or broadcast, and empty tiles give an empty canvas; neither is modelled.
- Canvas.TileShown assumes that no two pieces share a position. The placement loop does not prevent collisions, so in general only Canvas.PasteAllAt holds: the piece placed later overwrites the earlier one.
- Tile keys are insertion positions, not file names. A key order other than the dict's insertion order is not modelled.
- Ties between NaN differences are not modelled, since differences are reals.
