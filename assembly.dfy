/** The last stage of heightmap_to_stl (Converter.py): the face list is cut
    into chunks, every face is resolved into a triangle of points, and the
    chunk meshes are joined in order. Also the whole pipeline with its two
    failure cases. */
module Assembly {
  import opened Seqs
  import opened Geometry
  import opened Faces
  import opened Heights
  import Topology

  /** How heightmap_to_stl fails: np.min of an empty raster raises, and so does
      range(0, len(faces), 0) when the chunk size rounds down to 0. */
  datatype MeshError = EmptyRaster | ZeroChunkSize

  datatype Result<T> = Success(value: T) | Failure(error: MeshError)

  function Min(a: int, b: int): int
  {
    if a <= b then a else b
  }

  // ---------------------------------------------------------------------------
  // Chunking (line 135).
  // ---------------------------------------------------------------------------

  /** len(faces) // cpu_count() (line 134). */
  function ChunkSize(n: nat, workers: nat): nat
    requires workers >= 1
  {
    n / workers
  }

  /** The slices s[i:i + k] for i = 0, k, 2k, ... below |s|. */
  function Chunks<T>(s: seq<T>, k: nat): seq<seq<T>>
    requires k >= 1
    decreases |s|
  {
    if |s| == 0 then []
    else if |s| <= k then [s]
    else [s[..k]] + Chunks(s[k..], k)
  }

  /** Joined in order, the chunks give back s. */
  lemma {:induction false} ChunksJoin<T>(s: seq<T>, k: nat)
    requires k >= 1
    ensures Flatten(Chunks(s, k)) == s
    decreases |s|
  {
    if |s| == 0 {
    } else if |s| <= k {
      assert Flatten([s]) == s by {
        assert [s][..0] == [];
      }
    } else {
      var rest := Chunks(s[k..], k);
      ChunksJoin(s[k..], k);
      FlattenConcat([s[..k]], rest);
      assert Flatten([s[..k]]) == s[..k] by {
        assert [s[..k]][..0] == [];
      }
      assert s[..k] + s[k..] == s;
    }
  }

  /** Every chunk is non-empty and holds at most k elements. */
  lemma {:induction false} ChunkSizes<T>(s: seq<T>, k: nat)
    requires k >= 1
    ensures forall i :: 0 <= i < |Chunks(s, k)| ==> 1 <= |Chunks(s, k)[i]| <= k
    decreases |s|
  {
    if |s| > k {
      ChunkSizes(s[k..], k);
      assert forall i :: 1 <= i < |Chunks(s, k)| ==> Chunks(s, k)[i] == Chunks(s[k..], k)[i - 1];
    }
  }

  /** The number of chunks is the ceiling of |s| / k. */
  lemma {:induction false} ChunkCount<T>(s: seq<T>, k: nat)
    requires k >= 1
    ensures (|Chunks(s, k)| - 1) * k < |s| <= |Chunks(s, k)| * k
    decreases |s|
  {
    if |s| > k {
      var rest := Chunks(s[k..], k);
      ChunkCount(s[k..], k);
      assert |Chunks(s, k)| == |rest| + 1;
      assert (|rest| + 1) * k == |rest| * k + k;
    }
  }

  /** With len(faces) // workers as the chunk size, the chunking works exactly
      when there are at least as many faces as workers, and then it yields
      between workers and 2 * workers - 1 chunks. */
  lemma WorkerChunkCount<T>(s: seq<T>, workers: nat)
    requires workers >= 1
    ensures ChunkSize(|s|, workers) >= 1 <==> |s| >= workers
    ensures |s| >= workers ==>
      var c := |Chunks(s, ChunkSize(|s|, workers))|;
      workers <= c <= 2 * workers - 1
  {
    var k := ChunkSize(|s|, workers);
    QuotientPositive(|s|, workers);
    if |s| >= workers {
      ChunkCount(s, k);
      ChunkBound(|s|, workers, |Chunks(s, k)|);
    }
  }

  /** n // w is positive exactly when n >= w. */
  lemma QuotientPositive(n: nat, w: nat)
    requires w >= 1
    ensures n / w >= 1 <==> n >= w
  {
    var q, r := n / w, n % w;
    assert n == w * q + r && 0 <= r < w;
    if q >= 1 {
      MulMono(1, q, w);
      assert w <= q * w;
    }
  }

  /** c slices of n / w samples each, the last possibly short, number
      between w and 2w - 1. */
  lemma ChunkBound(n: nat, w: nat, c: int)
    requires w >= 1 && n >= w && n / w >= 1
    requires (c - 1) * (n / w) < n <= c * (n / w)
    ensures w <= c <= 2 * w - 1
  {
    var k, r := n / w, n % w;
    assert n == w * k + r && 0 <= r < w;
    assert w * k == k * w;
    MulCancel(w, c, k);
    assert r <= (w - 1) * k by {
      MulMono(1, k, w - 1);
      assert k * (w - 1) == (w - 1) * k;
    }
    assert (w - 1) * k + w * k == (2 * w - 1) * k;
    MulStrictCancel(c - 1, 2 * w - 1, k);
  }

  /** a * k <= b * k with k >= 1 gives a <= b. */
  lemma MulCancel(a: int, b: int, k: int)
    requires k >= 1 && a * k <= b * k
    ensures a <= b
  {
    if a > b {
      assert a * k - b * k == (a - b) * k;
      MulMono(1, a - b, k);
    }
  }

  /** a * k < b * k with k >= 1 gives a < b. */
  lemma MulStrictCancel(a: int, b: int, k: int)
    requires k >= 1 && a * k < b * k
    ensures a < b
  {
    if a >= b {
      assert a * k - b * k == (a - b) * k;
      MulMono(0, a - b, k);
    }
  }

  /** Chunk i is exactly the slice s[i * k : i * k + k], clipped at the end. */
  lemma {:induction false} ChunkAt<T>(s: seq<T>, k: nat, i: nat)
    requires k >= 1 && i < |Chunks(s, k)|
    ensures i * k < |s| && Chunks(s, k)[i] == s[i * k .. Min(i * k + k, |s|)]
    decreases i
  {
    if i == 0 {
      assert Chunks(s, k)[0] == s[..Min(k, |s|)];
    } else {
      assert |s| > k && Chunks(s, k) == [s[..k]] + Chunks(s[k..], k);
      ChunkAt(s[k..], k, i - 1);
      assert i * k == k + (i - 1) * k;
      assert s[k..][(i - 1) * k .. Min((i - 1) * k + k, |s| - k)] == s[i * k .. Min(i * k + k, |s|)];
    }
  }

  /** The elements of a prefix of the chunks, and of the next chunk, are
      elements of the joined list. */
  lemma ChunkMembers<T>(chunks: seq<seq<T>>, c: nat)
    requires c < |chunks|
    ensures forall x :: x in Flatten(chunks[..c]) ==> x in Flatten(chunks)
    ensures forall x :: x in chunks[c] ==> x in Flatten(chunks)
  {
    assert chunks == chunks[..c + 1] + chunks[c + 1..];
    FlattenConcat(chunks[..c + 1], chunks[c + 1..]);
    FlattenAppend(chunks[..c], chunks[c]);
    assert chunks[..c + 1] == chunks[..c] + [chunks[c]];
  }

  // ---------------------------------------------------------------------------
  // Resolving faces (lines 25-32, 141).
  // ---------------------------------------------------------------------------

  /** Every face names only vertices below n. */
  predicate IndexesBelow(faces: seq<Face>, n: nat)
  {
    forall k :: 0 <= k < |faces| ==> faces[k].Below(n)
  }

  /** A list whose faces all occur in a list of good faces is good. */
  lemma IndexesOfMembers(a: seq<Face>, b: seq<Face>, n: nat)
    requires IndexesBelow(b, n)
    requires forall f :: f in a ==> f in b
    ensures IndexesBelow(a, n)
  {
    forall k | 0 <= k < |a|
      ensures a[k].Below(n)
    {
      assert a[k] in b;
    }
  }

  /** The triangle of points a face names. */
  function Resolve(f: Face, vertices: seq<Point>): Triangle
    requires f.Below(|vertices|)
  {
    Triangle(vertices[f.v0], vertices[f.v1], vertices[f.v2])
  }

  /** One triangle per face, in face order. */
  function Gather(faces: seq<Face>, vertices: seq<Point>): (ts: seq<Triangle>)
    requires IndexesBelow(faces, |vertices|)
    ensures |ts| == |faces|
  {
    seq(|faces|, i requires 0 <= i < |faces| => Resolve(faces[i], vertices))
  }

  /** Gathering distributes over concatenation of face lists. */
  lemma GatherConcat(a: seq<Face>, b: seq<Face>, vertices: seq<Point>)
    requires IndexesBelow(a + b, |vertices|)
    ensures IndexesBelow(a, |vertices|) && IndexesBelow(b, |vertices|)
    ensures Gather(a + b, vertices) == Gather(a, vertices) + Gather(b, vertices)
  {
    forall k | 0 <= k < |a|
      ensures a[k].Below(|vertices|)
    {
      assert (a + b)[k] == a[k];
    }
    forall k | 0 <= k < |b|
      ensures b[k].Below(|vertices|)
    {
      assert (a + b)[|a| + k] == b[k];
    }
    forall i | 0 <= i < |a + b|
      ensures Gather(a + b, vertices)[i] == (Gather(a, vertices) + Gather(b, vertices))[i]
    {
      if i >= |a| {
        assert (a + b)[i] == b[i - |a|];
      }
    }
  }

  /** Gathering chunk by chunk and joining the results in chunk order is
      gathering the whole list. */
  lemma {:induction false} GatherChunks(chunks: seq<seq<Face>>, vertices: seq<Point>)
    requires IndexesBelow(Flatten(chunks), |vertices|)
    ensures forall c :: 0 <= c < |chunks| ==> IndexesBelow(chunks[c], |vertices|)
    ensures Flatten(seq(|chunks|, c requires 0 <= c < |chunks| && IndexesBelow(chunks[c], |vertices|) =>
                          Gather(chunks[c], vertices)))
            == Gather(Flatten(chunks), vertices)
  {
    forall c | 0 <= c < |chunks|
      ensures IndexesBelow(chunks[c], |vertices|)
    {
      ChunkMembers(chunks, c);
      IndexesOfMembers(chunks[c], Flatten(chunks), |vertices|);
    }
    if chunks != [] {
      var n := |chunks| - 1;
      var init := chunks[..n];
      ChunkMembers(chunks, n);
      IndexesOfMembers(Flatten(init), Flatten(chunks), |vertices|);
      GatherChunks(init, vertices);
      var parts := seq(|chunks|, c requires 0 <= c < |chunks| && IndexesBelow(chunks[c], |vertices|) =>
                         Gather(chunks[c], vertices));
      var initParts := seq(|init|, c requires 0 <= c < |init| && IndexesBelow(init[c], |vertices|) =>
                             Gather(init[c], vertices));
      assert parts[..n] == initParts;
      GatherConcat(Flatten(init), chunks[n], vertices);
    }
  }

  /** create_mesh_chunk: a zeroed n x 3 table whose cell (i, j) receives the
      point vertices[chunkFaces[i][j]]. */
  method CreateMeshChunk(chunkFaces: seq<Face>, vertices: seq<Point>) returns (m: array2<Point>)
    requires IndexesBelow(chunkFaces, |vertices|)
    ensures fresh(m) && m.Length0 == |chunkFaces| && m.Length1 == 3
    ensures forall i, j :: 0 <= i < |chunkFaces| && 0 <= j < 3 ==> m[i, j] == vertices[chunkFaces[i].Corner(j)]
    ensures Rows(m) == Gather(chunkFaces, vertices)
  {
    m := new Point[|chunkFaces|, 3]((i, j) => Point(0.0, 0.0, 0.0));
    for i := 0 to |chunkFaces|
      invariant forall a, b :: 0 <= a < i && 0 <= b < 3 ==> m[a, b] == vertices[chunkFaces[a].Corner(b)]
    {
      for j := 0 to 3
        invariant forall a, b :: 0 <= a < i && 0 <= b < 3 ==> m[a, b] == vertices[chunkFaces[a].Corner(b)]
        invariant forall b :: 0 <= b < j ==> m[i, b] == vertices[chunkFaces[i].Corner(b)]
      {
        m[i, j] := vertices[chunkFaces[i].Corner(j)];
      }
    }
    forall i | 0 <= i < |chunkFaces|
      ensures Rows(m)[i] == Gather(chunkFaces, vertices)[i]
    {
      assert m[i, 0] == vertices[chunkFaces[i].Corner(0)];
      assert m[i, 1] == vertices[chunkFaces[i].Corner(1)];
      assert m[i, 2] == vertices[chunkFaces[i].Corner(2)];
    }
  }

  /** The rows of an n x 3 table as triangles (the `vectors` field). */
  function Rows(m: array2<Point>): (ts: seq<Triangle>)
    requires m.Length1 == 3
    reads m
    ensures |ts| == m.Length0
  {
    seq(m.Length0, i requires 0 <= i < m.Length0 reads m => Triangle(m[i, 0], m[i, 1], m[i, 2]))
  }

  /** Lines 137-141: every chunk resolved by create_mesh_chunk, the chunk
      meshes concatenated in chunk order. The result is the gather of the
      whole face list. */
  method MeshFromChunks(chunks: seq<seq<Face>>, vertices: seq<Point>) returns (triangles: seq<Triangle>)
    requires IndexesBelow(Flatten(chunks), |vertices|)
    ensures triangles == Gather(Flatten(chunks), vertices)
  {
    triangles := [];
    for c := 0 to |chunks|
      invariant IndexesBelow(Flatten(chunks[..c]), |vertices|)
      invariant triangles == Gather(Flatten(chunks[..c]), vertices)
    {
      ChunkMembers(chunks, c);
      IndexesOfMembers(chunks[c], Flatten(chunks), |vertices|);
      var m := CreateMeshChunk(chunks[c], vertices);
      assert Flatten(chunks[..c + 1]) == Flatten(chunks[..c]) + chunks[c] by {
        assert chunks[..c + 1] == chunks[..c] + [chunks[c]];
        FlattenAppend(chunks[..c], chunks[c]);
      }
      ChunkMembers(chunks, c);
      if c + 1 < |chunks| {
        ChunkMembers(chunks, c + 1);
      } else {
        assert chunks[..c + 1] == chunks;
      }
      IndexesOfMembers(Flatten(chunks[..c + 1]), Flatten(chunks), |vertices|);
      GatherConcat(Flatten(chunks[..c]), chunks[c], vertices);
      triangles := triangles + Rows(m);
    }
    assert chunks[..|chunks|] == chunks;
  }

  // ---------------------------------------------------------------------------
  // The whole pipeline (lines 59-141).
  // ---------------------------------------------------------------------------

  /** The face list only names vertices of the vertex list. */
  lemma TerrainIndexes(raster: seq<seq<real>>, sx: real, sy: real, sz: real)
    requires IsGrid(raster) && |raster| > 0 && Width(raster) > 0
    ensures IndexesBelow(MeshFaces(|raster|, Width(raster)), |VertexList(Normalized(raster, sz), sx, sy)|)
  {
    var rows, cols := |raster|, Width(raster);
    var n := Normalized(raster, sz);
    NormalizedAt(raster, sz);
    VertexCount(n, sx, sy);
    Topology.IndexBounds(rows, cols);
  }

  /** Triangle k of the terrain is face k resolved against the vertex list. */
  lemma TerrainAt(raster: seq<seq<real>>, sx: real, sy: real, sz: real, k: nat)
    requires IsGrid(raster) && |raster| > 0 && Width(raster) > 0
    requires k < |MeshFaces(|raster|, Width(raster))|
    ensures var F, V := MeshFaces(|raster|, Width(raster)), VertexList(Normalized(raster, sz), sx, sy);
      k < |Terrain(raster, sx, sy, sz)| && F[k].Below(|V|) &&
      Terrain(raster, sx, sy, sz)[k] == Triangle(V[F[k].v0], V[F[k].v1], V[F[k].v2])
  {
    TerrainIndexes(raster, sx, sy, sz);
  }

  /** The triangles of the terrain mesh: every face of the list resolved
      against the vertices of the normalised grid. */
  function Terrain(raster: seq<seq<real>>, sx: real, sy: real, sz: real): seq<Triangle>
    requires IsGrid(raster) && |raster| > 0 && Width(raster) > 0
  {
    TerrainIndexes(raster, sx, sy, sz);
    Gather(MeshFaces(|raster|, Width(raster)), VertexList(Normalized(raster, sz), sx, sy))
  }

  /** What heightmap_to_stl hands to the STL writer, or why it fails. */
  function StlMesh(raster: seq<seq<real>>, sx: real, sy: real, sz: real, workers: nat): Result<seq<Triangle>>
    requires IsGrid(raster) && workers >= 1
  {
    if |raster| == 0 || Width(raster) == 0 then Failure(EmptyRaster)
    else if ChunkSize(|MeshFaces(|raster|, Width(raster))|, workers) == 0 then Failure(ZeroChunkSize)
    else Success(Terrain(raster, sx, sy, sz))
  }

  /** heightmap_to_stl from the loaded raster on: normalise the heights, lay
      out the vertices, build the faces, cut them into chunks of
      len(faces) // workers, resolve each chunk and join the chunks in order. */
  method HeightmapToStl(raster: seq<seq<real>>, sx: real, sy: real, sz: real, workers: nat)
    returns (r: Result<seq<Triangle>>)
    requires IsGrid(raster) && workers >= 1
    ensures r == StlMesh(raster, sx, sy, sz, workers)
  {
    if |raster| == 0 || Width(raster) == 0 {
      return Failure(EmptyRaster);
    }
    var h := NormalizeHeights(raster, sz);
    var vertices := BuildVertices(h, sx, sy);
    var faces := BuildFaces(|raster|, Width(raster));
    var chunkSize := ChunkSize(|faces|, workers);
    if chunkSize == 0 {
      return Failure(ZeroChunkSize);
    }
    var chunks := Chunks(faces, chunkSize);
    ChunksJoin(faces, chunkSize);
    TerrainIndexes(raster, sx, sy, sz);
    var triangles := MeshFromChunks(chunks, vertices);
    return Success(triangles);
  }

  // ---------------------------------------------------------------------------
  // What the terrain mesh is made of.
  // ---------------------------------------------------------------------------

  /** p is the top vertex of some grid sample. */
  predicate OnSurface(p: Point, n: seq<seq<real>>, sx: real, sy: real)
  {
    exists y: nat, x: nat :: y < |n| && x < |n[y]| && p == Point(x as real * sx, y as real * sy, n[y][x])
  }

  /** Vertices of the top block lie on the normalised surface; vertices of the
      bottom block lie on z = 0. */
  lemma VertexKind(n: seq<seq<real>>, sx: real, sy: real, v: nat)
    requires IsGrid(n) && v < |n| * Width(n) + |n| * Width(n)
    ensures v < |VertexList(n, sx, sy)|
    ensures v < |n| * Width(n) ==> OnSurface(VertexList(n, sx, sy)[v], n, sx, sy)
    ensures v >= |n| * Width(n) ==> VertexList(n, sx, sy)[v].z == 0.0
  {
    var rows, cols := |n|, Width(n);
    VertexCount(n, sx, sy);
    if v < rows * cols {
      var y, x := SplitIndex(v, rows, cols);
      VertexAt(n, sx, sy, y, x);
    } else {
      var y, x := SplitIndex(v - rows * cols, rows, cols);
      VertexAt(n, sx, sy, y, x);
    }
  }

  /** Every corner of a top-surface triangle is a sample of the normalised grid
      at its (x * sx, y * sy) position. */
  lemma TopTrianglesOnSurface(raster: seq<seq<real>>, sx: real, sy: real, sz: real, k: nat)
    requires IsGrid(raster) && |raster| > 0 && Width(raster) > 0
    requires k < |TopFaces(|raster|, Width(raster))|
    ensures var t, n := Terrain(raster, sx, sy, sz), Normalized(raster, sz);
      k < |t| && OnSurface(t[k].p0, n, sx, sy) && OnSurface(t[k].p1, n, sx, sy) && OnSurface(t[k].p2, n, sx, sy)
  {
    var rows, cols := |raster|, Width(raster);
    var n := Normalized(raster, sz);
    var F := MeshFaces(rows, cols);
    assert k < |F| && F[k].Below(rows * cols) by {
      Topology.MeshBlocks(rows, cols);
      Topology.TopBounds(rows, cols);
      assert F[k] == TopFaces(rows, cols)[k];
    }
    TerrainAt(raster, sx, sy, sz, k);
    VertexKind(n, sx, sy, F[k].v0);
    VertexKind(n, sx, sy, F[k].v1);
    VertexKind(n, sx, sy, F[k].v2);
  }

  /** Faces of the bottom block of the face list name bottom-block vertices. */
  lemma BottomFaceRange(rows: nat, cols: nat, k: nat)
    requires rows >= 1 && cols >= 1
    requires |TopFaces(rows, cols)| <= k < |TopFaces(rows, cols)| + |BottomFaces(rows, cols)|
    ensures k < |MeshFaces(rows, cols)|
    ensures MeshFaces(rows, cols)[k].AtLeast(rows * cols)
    ensures MeshFaces(rows, cols)[k].Below(rows * cols + rows * cols)
  {
    var top, bottom := TopFaces(rows, cols), BottomFaces(rows, cols);
    assert MeshFaces(rows, cols)[k] == bottom[k - |top|];
    assert bottom[k - |top|].AtLeast(rows * cols) && bottom[k - |top|].Below(rows * cols + rows * cols) by {
      Topology.BottomBounds(rows, cols);
      assert 2 * rows * cols == rows * cols + rows * cols;
    }
  }

  /** Every corner of a bottom-surface triangle lies on z = 0. */
  lemma BottomTrianglesFlat(raster: seq<seq<real>>, sx: real, sy: real, sz: real, k: nat)
    requires IsGrid(raster) && |raster| > 0 && Width(raster) > 0
    requires |TopFaces(|raster|, Width(raster))| <= k < |TopFaces(|raster|, Width(raster))| + |BottomFaces(|raster|, Width(raster))|
    ensures var t := Terrain(raster, sx, sy, sz);
      k < |t| && t[k].p0.z == 0.0 && t[k].p1.z == 0.0 && t[k].p2.z == 0.0
  {
    var rows, cols := |raster|, Width(raster);
    var n := Normalized(raster, sz);
    var F := MeshFaces(rows, cols);
    BottomFaceRange(rows, cols, k);
    TerrainAt(raster, sx, sy, sz, k);
    VertexKind(n, sx, sy, F[k].v0);
    VertexKind(n, sx, sy, F[k].v1);
    VertexKind(n, sx, sy, F[k].v2);
  }

  /** A 1 x 1 raster has no faces, so len(faces) // workers is 0 and the
      chunking fails whatever the worker count. */
  lemma SinglePixelFails(raster: seq<seq<real>>, sx: real, sy: real, sz: real, workers: nat)
    requires IsGrid(raster) && |raster| == 1 && Width(raster) == 1 && workers >= 1
    ensures StlMesh(raster, sx, sy, sz, workers) == Failure(ZeroChunkSize)
  {
    FaceCount(1, 1);
  }
}
