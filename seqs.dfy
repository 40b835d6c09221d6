/** Sequence and grid helpers shared by the mesh and tile models. */
module Seqs {

  /** Row length of a grid (0 for a grid without rows). */
  function Width<T>(g: seq<seq<T>>): nat
  {
    if |g| == 0 then 0 else |g[0]|
  }

  /** A grid: rows all of one length. */
  predicate IsGrid<T>(g: seq<seq<T>>)
  {
    forall y :: 0 <= y < |g| ==> |g[y]| == Width(g)
  }

  /** The samples of a grid array, row by row. */
  function Contents<T>(h: array2<T>): (c: seq<seq<T>>)
    reads h
    ensures |c| == h.Length0 && forall y :: 0 <= y < |c| ==> |c[y]| == h.Length1
    ensures IsGrid(c) && (h.Length0 > 0 ==> Width(c) == h.Length1)
    ensures forall y, x :: 0 <= y < h.Length0 && 0 <= x < h.Length1 ==> c[y][x] == h[y, x]
  {
    seq(h.Length0, y requires 0 <= y < h.Length0 reads h =>
      seq(h.Length1, x requires 0 <= x < h.Length1 reads h => h[y, x]))
  }

  /** Two grids of one shape that agree sample by sample are equal. */
  lemma SameGrid<T>(a: seq<seq<T>>, b: seq<seq<T>>)
    requires |a| == |b| && IsGrid(a) && IsGrid(b) && Width(a) == Width(b)
    requires forall y, x :: 0 <= y < |a| && 0 <= x < Width(a) ==> a[y][x] == b[y][x]
    ensures a == b
  {
    forall y | 0 <= y < |a|
      ensures a[y] == b[y]
    {
      assert |a[y]| == |b[y]|;
    }
  }

  /** Concatenation of a list of lists in order (the nested comprehension
      `[x for block in blocks for x in block]`). */
  function Flatten<T>(blocks: seq<seq<T>>): seq<T>
  {
    if blocks == [] then [] else Flatten(blocks[..|blocks| - 1]) + blocks[|blocks| - 1]
  }

  lemma FlattenAppend<T>(blocks: seq<seq<T>>, b: seq<T>)
    ensures Flatten(blocks + [b]) == Flatten(blocks) + b
  {
    assert (blocks + [b])[..|blocks|] == blocks;
  }

  /** Appending the next block to a flattened prefix flattens a longer prefix. */
  lemma FlattenPrefixStep<T>(start: seq<T>, blocks: seq<seq<T>>, y: nat)
    requires y < |blocks|
    ensures start + Flatten(blocks[..y + 1]) == (start + Flatten(blocks[..y])) + blocks[y]
  {
    assert blocks[..y + 1] == blocks[..y] + [blocks[y]];
    FlattenAppend(blocks[..y], blocks[y]);
  }

  /** The same step without a leading part. */
  lemma FlattenStep<T>(blocks: seq<seq<T>>, y: nat)
    requires y < |blocks|
    ensures Flatten(blocks[..y + 1]) == Flatten(blocks[..y]) + blocks[y]
  {
    assert blocks[..y + 1] == blocks[..y] + [blocks[y]];
    FlattenAppend(blocks[..y], blocks[y]);
  }

  lemma {:induction false} FlattenConcat<T>(a: seq<seq<T>>, b: seq<seq<T>>)
    ensures Flatten(a + b) == Flatten(a) + Flatten(b)
    decreases |b|
  {
    if b == [] {
      assert a + b == a;
    } else {
      var init := b[..|b| - 1];
      assert a + b == (a + init) + [b[|b| - 1]];
      FlattenAppend(a + init, b[|b| - 1]);
      FlattenConcat(a, init);
      FlattenAppend(init, b[|b| - 1]);
      assert b == init + [b[|b| - 1]];
    }
  }

  /** Blocks that all have length m flatten to a sequence of length |blocks| * m. */
  lemma {:induction false} FlattenUniform<T>(blocks: seq<seq<T>>, m: nat)
    requires forall y :: 0 <= y < |blocks| ==> |blocks[y]| == m
    ensures |Flatten(blocks)| == |blocks| * m
  {
    if blocks != [] {
      var n := |blocks| - 1;
      FlattenUniform(blocks[..n], m);
      assert |blocks| * m == n * m + m;
    }
  }

  /** ... and element y * m + k of the result is element k of block y. */
  lemma {:induction false} FlattenAt<T>(blocks: seq<seq<T>>, m: nat, y: nat, k: nat)
    requires forall j :: 0 <= j < |blocks| ==> |blocks[j]| == m
    requires y < |blocks| && k < m
    ensures y * m + k < |Flatten(blocks)|
    ensures Flatten(blocks)[y * m + k] == blocks[y][k]
  {
    var n := |blocks| - 1;
    FlattenUniform(blocks[..n], m);
    FlattenUniform(blocks, m);
    if y < n {
      FlattenAt(blocks[..n], m, y, k);
      MulStrictBound(y, n, m, k);
    }
  }

  /** Every position below n * m is y * m + k for some block y < n and offset k < m. */
  lemma SplitIndex(i: nat, n: nat, m: nat) returns (y: nat, k: nat)
    requires i < n * m
    ensures y < n && k < m && i == y * m + k
  {
    y, k := i / m, i % m;
    if y >= n {
      MulMono(n, y, m);
    }
  }

  lemma MulMono(a: nat, b: nat, m: nat)
    requires a <= b
    ensures a * m <= b * m
  {
  }

  lemma MulStrictBound(y: nat, n: nat, m: nat, k: nat)
    requires y < n && k < m
    ensures y * m + k < n * m
  {
    MulMono(y + 1, n, m);
  }

  /** Position k of the fourth block of a four-block concatenation. */
  lemma FourthBlockAt<T>(a: seq<T>, b: seq<T>, c: seq<T>, d: seq<T>, k: nat)
    requires k < |d|
    ensures |a| + |b| + |c| + k < |a + b + c + d|
    ensures (a + b + c + d)[|a| + |b| + |c| + k] == d[k]
  {
  }

  /** Position k of the third block of a four-block concatenation. */
  lemma ThirdBlockAt<T>(a: seq<T>, b: seq<T>, c: seq<T>, d: seq<T>, k: nat)
    requires k < |c|
    ensures |a| + |b| + k < |a + b + c + d|
    ensures (a + b + c + d)[|a| + |b| + k] == c[k]
  {
  }
}
