/** find_best_matches (Stitcher.py): for every ordered pair of different
    pieces and every pair of opposite sides, the difference of the two border
    lines. The pieces dict is a sequence in insertion order; a piece's key is
    its position in that order. The matches dict is the sequence of its
    entries in insertion order. */
module Matching {
  import opened Seqs
  import opened Tiles

  /** Every piece is a tile of the shape of the first one. */
  predicate SameShape(pieces: seq<Image>)
  {
    |pieces| == 0 ||
    forall i :: 0 <= i < |pieces| ==> IsTile(pieces[i], Height(pieces[0]), WidthOf(pieces[0]))
  }

  /** One entry of the matches dict: the key (key1, key2, side1, side2) and
      its difference. */
  datatype Match = Match(k1: nat, k2: nat, s1: Side, s2: Side, diff: real)

  /** The order in which get_edges lists the sides. */
  const SideOrder: seq<Side> := [Top, Bottom, Left, Right]

  function SideIndex(s: Side): (t: nat)
    ensures t < 4 && SideOrder[t] == s
  {
    match s
    case Top => 0
    case Bottom => 1
    case Left => 2
    case Right => 3
  }

  /** The j-th key other than i, in key order. */
  function Other(i: nat, j: nat): (k: nat)
    ensures k != i
  {
    if j < i then j else j + 1
  }

  /** The position of key k among the keys other than i. */
  function Rank(i: nat, k: nat): nat
    requires k != i
  {
    if k < i then k else k - 1
  }

  lemma OtherRank(i: nat, j: nat, k: nat)
    requires k != i
    ensures Other(i, Rank(i, k)) == k && Rank(i, Other(i, j)) == j
  {
  }

  /** The difference between side s of piece i and the opposite side of piece j. */
  function SideScore(pieces: seq<Image>, i: nat, j: nat, s: Side): real
    requires SameShape(pieces) && i < |pieces| && j < |pieces|
  {
    EdgeDifference(GetEdges(pieces[i]).Of(s), GetEdges(pieces[j]).Of(Opposite(s)))
  }

  /** The four entries of the pair (i, j): one per side of i, in side order. */
  function PairMatches(pieces: seq<Image>, i: nat, j: nat): (ms: seq<Match>)
    requires SameShape(pieces) && i < |pieces| && j < |pieces|
    ensures |ms| == 4
  {
    seq(4, t requires 0 <= t < 4 =>
      Match(i, j, SideOrder[t], Opposite(SideOrder[t]), SideScore(pieces, i, j, SideOrder[t])))
  }

  /** The entries with key1 = i: every other piece in key order. */
  function PieceMatches(pieces: seq<Image>, i: nat): seq<Match>
    requires SameShape(pieces) && i < |pieces|
  {
    Flatten(PairBlocks(pieces, i))
  }

  function PairBlocks(pieces: seq<Image>, i: nat): (bs: seq<seq<Match>>)
    requires SameShape(pieces) && i < |pieces|
    ensures |bs| == |pieces| - 1 && forall j :: 0 <= j < |bs| ==> |bs[j]| == 4
  {
    seq(|pieces| - 1, j requires 0 <= j < |pieces| - 1 => PairMatches(pieces, i, Other(i, j)))
  }

  function PieceBlocks(pieces: seq<Image>): (bs: seq<seq<Match>>)
    requires SameShape(pieces)
    ensures |bs| == |pieces|
  {
    seq(|pieces|, i requires 0 <= i < |pieces| => PieceMatches(pieces, i))
  }

  /** The matches dict of find_best_matches, in insertion order. */
  function MatchList(pieces: seq<Image>): seq<Match>
    requires SameShape(pieces)
  {
    Flatten(PieceBlocks(pieces))
  }

  // ---------------------------------------------------------------------------
  // The four nested loops.
  // ---------------------------------------------------------------------------

  /** The two side loops (lines 36-40) for the pair (i, j). */
  method AppendPairMatches(start: seq<Match>, pieces: seq<Image>, i: nat, j: nat, edges1: Edges, edges2: Edges)
    returns (acc: seq<Match>)
    requires SameShape(pieces) && i < |pieces| && j < |pieces|
    requires edges1 == GetEdges(pieces[i]) && edges2 == GetEdges(pieces[j])
    ensures acc == start + PairMatches(pieces, i, j)
  {
    ghost var pair := PairMatches(pieces, i, j);
    acc := start;
    for t1 := 0 to 4
      invariant acc == start + pair[..t1]
    {
      var side1 := SideOrder[t1];
      ghost var mid := acc;
      for t2 := 0 to 4
        invariant acc == mid + (if SideIndex(Opposite(side1)) < t2 then [pair[t1]] else [])
      {
        var side2 := SideOrder[t2];
        if Complementary(side1, side2) {
          ComplementaryIsOpposite(side1, side2);
          var diff := EdgeDifference(edges1.Of(side1), edges2.Of(side2));
          acc := acc + [Match(i, j, side1, side2, diff)];
        } else {
          ComplementaryIsOpposite(side1, side2);
        }
      }
      assert pair[..t1 + 1] == pair[..t1] + [pair[t1]];
    }
    assert pair[..4] == pair;
  }

  /** The loop over key2 (lines 32-35): every other piece, in key order. */
  method AppendPieceMatches(start: seq<Match>, pieces: seq<Image>, i: nat, edges1: Edges)
    returns (acc: seq<Match>)
    requires SameShape(pieces) && i < |pieces| && edges1 == GetEdges(pieces[i])
    ensures acc == start + PieceMatches(pieces, i)
  {
    ghost var blocks := PairBlocks(pieces, i);
    acc := start;
    for j := 0 to |pieces|
      invariant acc == start + Flatten(blocks[..if j <= i then j else j - 1])
    {
      if j != i {
        var edges2 := GetEdges(pieces[j]);
        ghost var r := Rank(i, j);
        assert r == (if j <= i then j else j - 1) && r + 1 == (if j + 1 <= i then j + 1 else j);
        OtherRank(i, 0, j);
        assert blocks[r] == PairMatches(pieces, i, j);
        FlattenPrefixStep(start, blocks, r);
        acc := AppendPairMatches(acc, pieces, i, j, edges1, edges2);
      }
    }
    assert blocks[..|pieces| - 1] == blocks;
  }

  /** find_best_matches (lines 24-41). */
  method FindBestMatches(pieces: seq<Image>) returns (matches: seq<Match>)
    requires SameShape(pieces)
    ensures matches == MatchList(pieces)
  {
    ghost var blocks := PieceBlocks(pieces);
    matches := [];
    for i := 0 to |pieces|
      invariant matches == Flatten(blocks[..i])
    {
      var edges1 := GetEdges(pieces[i]);
      matches := AppendPieceMatches(matches, pieces, i, edges1);
      FlattenStep(blocks, i);
    }
    assert blocks[..|pieces|] == blocks;
  }

  // ---------------------------------------------------------------------------
  // Properties of the matches dict.
  // ---------------------------------------------------------------------------

  /** The position of the entry for side t of piece i against its r-th other piece. */
  function EntryIndex(n: nat, i: nat, r: nat, t: nat): int
  {
    i * (4 * (n - 1)) + (r * 4 + t)
  }

  /** The entry for side t of piece i against its r-th other piece. */
  function Entry(pieces: seq<Image>, i: nat, r: nat, t: nat): Match
    requires SameShape(pieces) && i < |pieces| && r < |pieces| - 1 && t < 4
  {
    Match(i, Other(i, r), SideOrder[t], Opposite(SideOrder[t]), SideScore(pieces, i, Other(i, r), SideOrder[t]))
  }

  /** There are 4 * n * (n - 1) entries: entry (i * (n - 1) + r) * 4 + t
      scores side t of piece i against the r-th other piece. */
  lemma MatchAt(pieces: seq<Image>, i: nat, r: nat, t: nat)
    requires SameShape(pieces) && i < |pieces| && r < |pieces| - 1 && t < 4
    ensures |MatchList(pieces)| == |pieces| * (4 * (|pieces| - 1))
    ensures 0 <= EntryIndex(|pieces|, i, r, t) < |MatchList(pieces)|
    ensures MatchList(pieces)[EntryIndex(|pieces|, i, r, t)] == Entry(pieces, i, r, t)
  {
    var m: nat := 4 * (|pieces| - 1);
    var at := i * m + (r * 4 + t);
    assert |MatchList(pieces)| == |pieces| * m by {
      MatchLength(pieces);
    }
    assert EntryIndex(|pieces|, i, r, t) == at && 0 <= at by {
      MulMono(0, i, m);
    }
    assert at < |MatchList(pieces)| && MatchList(pieces)[at] == Entry(pieces, i, r, t) by {
      var blocks := PieceBlocks(pieces);
      PieceMatchAt(pieces, i, r, t);
      PieceBlockSizes(pieces);
      FlattenAt(blocks, m, i, r * 4 + t);
      assert MatchList(pieces)[at] == blocks[i][r * 4 + t];
      assert blocks[i] == PieceMatches(pieces, i);
    }
  }

  lemma MatchLength(pieces: seq<Image>)
    requires SameShape(pieces) && |pieces| >= 1
    ensures |MatchList(pieces)| == |pieces| * (4 * (|pieces| - 1))
  {
    PieceBlockSizes(pieces);
    FlattenUniform(PieceBlocks(pieces), 4 * (|pieces| - 1));
  }

  lemma PieceMatchAt(pieces: seq<Image>, i: nat, r: nat, t: nat)
    requires SameShape(pieces) && i < |pieces| && r < |pieces| - 1 && t < 4
    ensures r * 4 + t < |PieceMatches(pieces, i)|
    ensures PieceMatches(pieces, i)[r * 4 + t] == Entry(pieces, i, r, t)
  {
    var pairBlocks := PairBlocks(pieces, i);
    assert pairBlocks[r][t] == Entry(pieces, i, r, t);
    FlattenAt(pairBlocks, 4, r, t);
  }

  lemma PieceBlockSizes(pieces: seq<Image>)
    requires SameShape(pieces)
    ensures forall k :: 0 <= k < |PieceBlocks(pieces)| ==> |PieceBlocks(pieces)[k]| == 4 * (|pieces| - 1)
  {
    forall k | 0 <= k < |PieceBlocks(pieces)|
      ensures |PieceBlocks(pieces)[k]| == 4 * (|pieces| - 1)
    {
      FlattenUniform(PairBlocks(pieces, k), 4);
    }
  }

  /** The dict has 4 * n * (n - 1) entries, none for fewer than two pieces. */
  lemma MatchCount(pieces: seq<Image>)
    requires SameShape(pieces)
    ensures |MatchList(pieces)| == |pieces| * (4 * (|pieces| - 1))
    ensures |pieces| < 2 ==> |MatchList(pieces)| == 0
  {
    if |pieces| >= 1 {
      MatchLength(pieces);
    }
  }

  /** Every entry is one of those: it has a piece, a rank and a side. */
  lemma MatchSplit(pieces: seq<Image>, p: nat) returns (i: nat, r: nat, t: nat)
    requires SameShape(pieces) && p < |MatchList(pieces)|
    ensures i < |pieces| && r < |pieces| - 1 && t < 4
    ensures p == EntryIndex(|pieces|, i, r, t)
    ensures MatchList(pieces)[p] == Entry(pieces, i, r, t)
  {
    var n := |pieces|;
    MatchCount(pieces);
    var k: nat;
    i, k := SplitIndex(p, n, 4 * (n - 1));
    r, t := SplitIndex(k, n - 1, 4);
    MatchAt(pieces, i, r, t);
  }

  /** The key of an entry. */
  function Key(e: Match): (nat, nat, Side, Side)
  {
    (e.k1, e.k2, e.s1, e.s2)
  }

  /** The dict has a key (k1, k2, s1, s2) exactly when k1 and k2 are two
      different pieces and s1, s2 are opposite sides; its value is the
      difference between those two sides. */
  lemma MatchKeys(pieces: seq<Image>, k1: nat, k2: nat, s1: Side, s2: Side)
    requires SameShape(pieces)
    ensures (exists p :: 0 <= p < |MatchList(pieces)| && Key(MatchList(pieces)[p]) == (k1, k2, s1, s2))
            <==> k1 < |pieces| && k2 < |pieces| && k1 != k2 && Complementary(s1, s2)
  {
    var M := MatchList(pieces);
    ComplementaryIsOpposite(s1, s2);
    if k1 < |pieces| && k2 < |pieces| && k1 != k2 && Complementary(s1, s2) {
      var r, t := Rank(k1, k2), SideIndex(s1);
      OtherRank(k1, 0, k2);
      MatchAt(pieces, k1, r, t);
    }
    forall p | 0 <= p < |M| && Key(M[p]) == (k1, k2, s1, s2)
      ensures k1 < |pieces| && k2 < |pieces| && k1 != k2 && Complementary(s1, s2)
    {
      var i, r, t := MatchSplit(pieces, p);
      ComplementaryIsOpposite(SideOrder[t], Opposite(SideOrder[t]));
    }
  }

  /** Every entry carries the difference of its own two sides. */
  lemma MatchScore(pieces: seq<Image>, p: nat)
    requires SameShape(pieces) && p < |MatchList(pieces)|
    ensures var e := MatchList(pieces)[p];
      e.k1 < |pieces| && e.k2 < |pieces| && e.k1 != e.k2 && e.s2 == Opposite(e.s1) &&
      e.diff == SideScore(pieces, e.k1, e.k2, e.s1)
  {
    var i, r, t := MatchSplit(pieces, p);
  }

  /** No key occurs twice. */
  lemma KeysDistinct(pieces: seq<Image>, p: nat, q: nat)
    requires SameShape(pieces) && p < |MatchList(pieces)| && q < |MatchList(pieces)|
    requires Key(MatchList(pieces)[p]) == Key(MatchList(pieces)[q])
    ensures p == q
  {
    var i1, r1, t1 := MatchSplit(pieces, p);
    var i2, r2, t2 := MatchSplit(pieces, q);
    OtherRank(i1, r1, Other(i1, r1));
    OtherRank(i1, r2, Other(i1, r2));
    assert SideIndex(SideOrder[t1]) == t1 && SideIndex(SideOrder[t2]) == t2;
  }

  /** matches[(k1, k2, s1, s2)] == matches[(k2, k1, s2, s1)]. */
  lemma MatchSymmetric(pieces: seq<Image>, p: nat, q: nat)
    requires SameShape(pieces) && p < |MatchList(pieces)| && q < |MatchList(pieces)|
    requires var e, f := MatchList(pieces)[p], MatchList(pieces)[q];
      f.k1 == e.k2 && f.k2 == e.k1 && f.s1 == e.s2 && f.s2 == e.s1
    ensures MatchList(pieces)[q].diff == MatchList(pieces)[p].diff
  {
    MatchScore(pieces, p);
    MatchScore(pieces, q);
    var e := MatchList(pieces)[p];
    OppositeInvolution(e.s1);
    DifferenceSymmetric(GetEdges(pieces[e.k1]).Of(e.s1), GetEdges(pieces[e.k2]).Of(e.s2));
  }
}
