/** The placement loop of assemble_image (Stitcher.py): starting from the
    first piece at (0, 0), repeatedly take the matches entry of least
    difference whose first piece is placed and whose second is not, and put
    the second piece next to the first on the side the entry names. */
module Placement {
  import opened Tiles
  import opened Matching

  /** A (row, col) grid position. */
  datatype Pos = Pos(row: int, col: int)

  /** Two positions share a side of the grid. */
  predicate Adjacent(p: Pos, q: Pos)
  {
    (p.row == q.row && (p.col - q.col == 1 || q.col - p.col == 1)) ||
    (p.col == q.col && (p.row - q.row == 1 || q.row - p.row == 1))
  }

  /** Where the piece with side s2 goes when it meets side s1 of the piece at p
      (lines 55-62). */
  function Neighbour(p: Pos, s1: Side, s2: Side): (q: Pos)
    requires Complementary(s1, s2)
    ensures Adjacent(p, q)
  {
    if s1 == Bottom && s2 == Top then Pos(p.row + 1, p.col)
    else if s1 == Top && s2 == Bottom then Pos(p.row - 1, p.col)
    else if s1 == Right && s2 == Left then Pos(p.row, p.col + 1)
    else Pos(p.row, p.col - 1)
  }

  /** Meeting the other way round leads back: the two rules agree on which
      way each side faces. */
  lemma NeighbourInverse(p: Pos, s1: Side, s2: Side)
    requires Complementary(s1, s2)
    ensures Complementary(s2, s1) && Neighbour(Neighbour(p, s1, s2), s2, s1) == p
  {
  }

  /** Each side faces its own direction: down, up, right, left. */
  lemma NeighbourDirection(p: Pos, s1: Side, s2: Side)
    requires Complementary(s1, s2)
    ensures var q := Neighbour(p, s1, s2);
      (s1 == Bottom <==> q.row > p.row) && (s1 == Top <==> q.row < p.row) &&
      (s1 == Right <==> q.col > p.col) && (s1 == Left <==> q.col < p.col)
  {
  }

  /** Every entry names two pieces of n and two sides that meet. */
  predicate WellFormed(matches: seq<Match>, n: nat)
  {
    forall p :: 0 <= p < |matches| ==>
      matches[p].k1 < n && matches[p].k2 < n && Complementary(matches[p].s1, matches[p].s2)
  }

  ghost predicate HasKey(matches: seq<Match>, k1: nat, k2: nat, s1: Side, s2: Side)
  {
    exists p :: 0 <= p < |matches| && Key(matches[p]) == (k1, k2, s1, s2)
  }

  /** Every two different pieces are scored against each other on every pair
      of sides that meet. */
  ghost predicate Complete(matches: seq<Match>, n: nat)
  {
    forall k1: nat, k2: nat, s1, s2 ::
      k1 < n && k2 < n && k1 != k2 && Complementary(s1, s2) ==> HasKey(matches, k1, k2, s1, s2)
  }

  /** The dict built by find_best_matches is both. */
  lemma MatchListFits(pieces: seq<Image>)
    requires SameShape(pieces)
    ensures WellFormed(MatchList(pieces), |pieces|) && Complete(MatchList(pieces), |pieces|)
  {
    forall p | 0 <= p < |MatchList(pieces)|
      ensures MatchList(pieces)[p].k1 < |pieces| && MatchList(pieces)[p].k2 < |pieces|
      ensures Complementary(MatchList(pieces)[p].s1, MatchList(pieces)[p].s2)
    {
      MatchScore(pieces, p);
      ComplementaryIsOpposite(MatchList(pieces)[p].s1, MatchList(pieces)[p].s2);
    }
    forall k1: nat, k2: nat, s1, s2 | k1 < |pieces| && k2 < |pieces| && k1 != k2 && Complementary(s1, s2)
      ensures HasKey(MatchList(pieces), k1, k2, s1, s2)
    {
      MatchKeys(pieces, k1, k2, s1, s2);
    }
  }

  /** The test of line 53. */
  predicate Eligible(e: Match, placed: set<nat>)
  {
    e.k1 in placed && e.k2 !in placed
  }

  /** Entry p comes no later than entry q once the entries are sorted by
      difference: sorted() is stable, so ties keep the dict's order. */
  predicate Precedes(matches: seq<Match>, p: nat, q: nat)
    requires p < |matches| && q < |matches|
  {
    matches[p].diff < matches[q].diff || (matches[p].diff == matches[q].diff && p <= q)
  }

  /** p is the first eligible entry of the sorted dict. */
  predicate Chosen(matches: seq<Match>, placed: set<nat>, p: nat)
  {
    p < |matches| && Eligible(matches[p], placed) &&
    forall q :: 0 <= q < |matches| && Eligible(matches[q], placed) ==> Precedes(matches, p, q)
  }

  /** At most one entry is the first eligible one. */
  lemma ChosenUnique(matches: seq<Match>, placed: set<nat>, p: nat, q: nat)
    requires Chosen(matches, placed, p) && Chosen(matches, placed, q)
    ensures p == q
  {
    assert Precedes(matches, p, q) && Precedes(matches, q, p);
  }

  /** The scan of lines 52-53 and the break of line 64: the eligible entry
      of least difference, the earliest one among equals. */
  method SelectMatch(matches: seq<Match>, placed: map<nat, Pos>) returns (p: nat)
    requires exists q :: 0 <= q < |matches| && Eligible(matches[q], placed.Keys)
    ensures Chosen(matches, placed.Keys, p)
  {
    var found := false;
    p := 0;
    for q := 0 to |matches|
      invariant found ==> p < q && Eligible(matches[p], placed.Keys)
      invariant found ==> forall r :: 0 <= r < q && Eligible(matches[r], placed.Keys) ==> Precedes(matches, p, r)
      invariant !found ==> forall r :: 0 <= r < q ==> !Eligible(matches[r], placed.Keys)
    {
      var e := matches[q];
      if e.k1 in placed && e.k2 !in placed && (!found || e.diff < matches[p].diff) {
        p, found := q, true;
      }
    }
  }

  /** The keys among the first i placed pieces. */
  ghost function PlacedBefore(order: seq<nat>, i: nat): set<nat>
    requires i <= |order|
  {
    set k | k in order[..i]
  }

  /** The keys 0 .. n - 1. */
  function Range(n: nat): (r: set<nat>)
    ensures forall k: nat :: k in r <==> k < n
  {
    if n == 0 then {} else Range(n - 1) + {n - 1}
  }

  lemma {:induction false} RangeSize(n: nat)
    ensures |Range(n)| == n
  {
    if n > 0 {
      RangeSize(n - 1);
    }
  }

  /** While fewer than n pieces are placed, some piece is not. */
  lemma Unplaced(placed: set<nat>, n: nat) returns (k: nat)
    requires placed <= Range(n) && |placed| < n
    ensures k < n && k !in placed
  {
    RangeSize(n);
    var rest := Range(n) - placed;
    assert |rest| > 0;
    k :| k in rest;
  }

  /** The state of the placement loop after |order| pieces: order lists the
      keys in the order they were placed, layout their positions (the list
      of line 50), and step i (i >= 1) placed order[i] by entry
      steps[i - 1] against the earlier piece order[parents[i - 1]]. */
  ghost predicate Placing(matches: seq<Match>, n: nat, placed: map<nat, Pos>, order: seq<nat>,
                          layout: seq<Pos>, steps: seq<nat>, parents: seq<nat>)
  {
    Shape(order, layout, steps, parents) && KeysBelow(order, n) && Distinct(order) &&
    placed.Keys == PlacedBefore(order, |order|) && Positions(placed, order, layout) &&
    Greedy(matches, order, layout, steps, parents)
  }

  /** The first piece is at (0, 0), and every later one has a step. */
  predicate Shape(order: seq<nat>, layout: seq<Pos>, steps: seq<nat>, parents: seq<nat>)
  {
    |order| == |layout| == |steps| + 1 == |parents| + 1 && order[0] == 0 && layout[0] == Pos(0, 0)
  }

  predicate KeysBelow(order: seq<nat>, n: nat)
  {
    forall i :: 0 <= i < |order| ==> order[i] < n
  }

  predicate Distinct(order: seq<nat>)
  {
    forall i, j :: 0 <= i < j < |order| ==> order[i] != order[j]
  }

  /** layout[i] is where placed_pieces puts order[i]. */
  predicate Positions(placed: map<nat, Pos>, order: seq<nat>, layout: seq<Pos>)
    requires |order| == |layout|
  {
    forall i :: 0 <= i < |order| ==> order[i] in placed && placed[order[i]] == layout[i]
  }

  ghost predicate Greedy(matches: seq<Match>, order: seq<nat>, layout: seq<Pos>, steps: seq<nat>, parents: seq<nat>)
  {
    |order| == |layout| == |steps| + 1 == |parents| + 1 &&
    forall i :: 1 <= i < |order| ==> GreedyStep(matches, order, layout, steps, parents, i)
  }

  /** Step i took the first eligible entry of the sorted dict and put its
      second piece next to its first. */
  ghost predicate GreedyStep(matches: seq<Match>, order: seq<nat>, layout: seq<Pos>,
                             steps: seq<nat>, parents: seq<nat>, i: nat)
    requires 1 <= i < |order| == |layout| == |steps| + 1 == |parents| + 1
  {
    var p, j := steps[i - 1], parents[i - 1];
    j < i && Chosen(matches, PlacedBefore(order, i), p) &&
    matches[p].k1 == order[j] && matches[p].k2 == order[i] &&
    Complementary(matches[p].s1, matches[p].s2) &&
    layout[i] == Neighbour(layout[j], matches[p].s1, matches[p].s2)
  }

  /** Appending a key leaves the earlier prefixes alone. */
  lemma PlacedBeforeAppend(order: seq<nat>, k: nat, i: nat)
    requires i <= |order|
    ensures PlacedBefore(order + [k], i) == PlacedBefore(order, i)
    ensures PlacedBefore(order + [k], |order| + 1) == PlacedBefore(order, |order|) + {k}
  {
    assert (order + [k])[..i] == order[..i];
    assert (order + [k])[..|order| + 1] == order[..|order|] + [k];
  }

  /** The earlier steps stay greedy when a new one is appended. */
  lemma GreedyAppend(matches: seq<Match>, order: seq<nat>, layout: seq<Pos>, steps: seq<nat>,
                     parents: seq<nat>, k: nat, pos: Pos, p: nat, j: nat)
    requires Greedy(matches, order, layout, steps, parents)
    requires GreedyStep(matches, order + [k], layout + [pos], steps + [p], parents + [j], |order|)
    ensures Greedy(matches, order + [k], layout + [pos], steps + [p], parents + [j])
  {
    forall i | 1 <= i < |order|
      ensures GreedyStep(matches, order + [k], layout + [pos], steps + [p], parents + [j], i)
    {
      assert GreedyStep(matches, order, layout, steps, parents, i);
      PlacedBeforeAppend(order, k, i);
    }
  }

  /** The new step: the chosen entry, placed against its placed first piece. */
  lemma GreedyNext(matches: seq<Match>, n: nat, placed: map<nat, Pos>, order: seq<nat>, layout: seq<Pos>,
                   steps: seq<nat>, parents: seq<nat>, p: nat, j: nat)
    requires WellFormed(matches, n) && Shape(order, layout, steps, parents) && Positions(placed, order, layout)
    requires placed.Keys == PlacedBefore(order, |order|)
    requires Chosen(matches, placed.Keys, p) && j < |order| && order[j] == matches[p].k1
    ensures var e := matches[p];
      GreedyStep(matches, order + [e.k2], layout + [Neighbour(placed[e.k1], e.s1, e.s2)], steps + [p], parents + [j], |order|)
  {
    var e := matches[p];
    PlacedBeforeAppend(order, e.k2, |order|);
    assert placed[e.k1] == layout[j];
  }

  /** The new key is fresh, so the keys stay distinct and below n. */
  lemma KeysAppend(matches: seq<Match>, n: nat, placed: map<nat, Pos>, order: seq<nat>, p: nat)
    requires WellFormed(matches, n) && KeysBelow(order, n) && Distinct(order)
    requires placed.Keys == PlacedBefore(order, |order|) && Chosen(matches, placed.Keys, p)
    ensures KeysBelow(order + [matches[p].k2], n) && Distinct(order + [matches[p].k2])
  {
    var k := matches[p].k2;
    assert order[..|order|] == order;
    forall i | 0 <= i < |order|
      ensures order[i] != k
    {
      assert order[i] in PlacedBefore(order, |order|);
    }
  }

  /** The new key gets the new position; the others keep theirs. */
  lemma PositionsAppend(placed: map<nat, Pos>, order: seq<nat>, layout: seq<Pos>, k: nat, pos: Pos)
    requires |order| == |layout| && Positions(placed, order, layout) && k !in placed
    ensures Positions(placed[k := pos], order + [k], layout + [pos])
  {
  }

  /** One pass of the while loop keeps the state a greedy placement. */
  lemma PlacingStep(matches: seq<Match>, n: nat, placed: map<nat, Pos>, order: seq<nat>,
                    layout: seq<Pos>, steps: seq<nat>, parents: seq<nat>, p: nat, j: nat)
    requires WellFormed(matches, n) && Placing(matches, n, placed, order, layout, steps, parents)
    requires Chosen(matches, placed.Keys, p) && j < |order| && order[j] == matches[p].k1
    ensures var e := matches[p];
      Placing(matches, n, placed[e.k2 := Neighbour(placed[e.k1], e.s1, e.s2)], order + [e.k2],
              layout + [Neighbour(placed[e.k1], e.s1, e.s2)], steps + [p], parents + [j])
  {
    var e := matches[p];
    var pos := Neighbour(placed[e.k1], e.s1, e.s2);
    GreedyNext(matches, n, placed, order, layout, steps, parents, p, j);
    GreedyAppend(matches, order, layout, steps, parents, e.k2, pos, p, j);
    KeysAppend(matches, n, placed, order, p);
    PositionsAppend(placed, order, layout, e.k2, pos);
    PlacedBeforeAppend(order, e.k2, |order|);
  }

  /** The placed keys are keys of pieces. */
  lemma PlacedInRange(order: seq<nat>, n: nat)
    requires KeysBelow(order, n)
    ensures PlacedBefore(order, |order|) <= Range(n)
  {
    assert order[..|order|] == order;
  }

  /** Every placed key was placed at some step. */
  lemma PlacedAt(order: seq<nat>, k: nat) returns (j: nat)
    requires k in PlacedBefore(order, |order|)
    ensures j < |order| && order[j] == k
  {
    assert order[..|order|] == order;
    var i :| 0 <= i < |order| && order[i] == k;
    j := i;
  }

  /** While a piece is unplaced, the dict has an entry the loop can take:
      the first piece against an unplaced one. */
  lemma SomeEligible(matches: seq<Match>, n: nat, placed: set<nat>, order: seq<nat>)
    requires Complete(matches, n) && KeysBelow(order, n) && |order| >= 1 && order[0] == 0
    requires placed == PlacedBefore(order, |order|) && |placed| < n
    ensures exists q :: 0 <= q < |matches| && Eligible(matches[q], placed)
  {
    PlacedInRange(order, n);
    var k := Unplaced(placed, n);
    assert 0 in placed by {
      assert order[..|order|] == order;
    }
    assert HasKey(matches, 0, k, Bottom, Top);
  }

  /** Once n keys below n are placed, all of them are. */
  lemma AllPlaced(placed: set<nat>, n: nat)
    requires placed <= Range(n) && |placed| == n
    ensures placed == Range(n)
  {
    RangeSize(n);
    assert placed - Range(n) == {};
    assert Range(n) * placed == placed;
    assert |Range(n) - placed| == 0;
  }

  /** The while loop of lines 49-64. */
  method PlacePieces(n: nat, matches: seq<Match>)
    returns (placed: map<nat, Pos>, order: seq<nat>, layout: seq<Pos>, ghost steps: seq<nat>, ghost parents: seq<nat>)
    requires n >= 1 && WellFormed(matches, n) && Complete(matches, n)
    ensures Placing(matches, n, placed, order, layout, steps, parents)
    ensures |order| == n && placed.Keys == Range(n)
  {
    placed := map[0 := Pos(0, 0)];
    order, layout := [0], [Pos(0, 0)];
    steps, parents := [], [];
    assert order[..1] == [0];
    while |placed| < n
      invariant 1 <= |order| <= n && |placed| == |order|
      invariant Placing(matches, n, placed, order, layout, steps, parents)
      decreases n - |order|
    {
      SomeEligible(matches, n, placed.Keys, order);
      var p := SelectMatch(matches, placed);
      var e := matches[p];
      var pos := Neighbour(placed[e.k1], e.s1, e.s2);
      ghost var j := PlacedAt(order, e.k1);
      PlacingStep(matches, n, placed, order, layout, steps, parents, p, j);
      placed := placed[e.k2 := pos];
      order, layout := order + [e.k2], layout + [placed[e.k2]];
      steps, parents := steps + [p], parents + [j];
    }
    PlacedInRange(order, n);
    AllPlaced(placed.Keys, n);
  }
}
