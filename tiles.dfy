/** Tiles of Stitcher.py: images as rows of real samples, their four
    border lines (get_edges) and the difference of two border lines
    (calculate_edge_difference). */
module Tiles {

  /** A grey-scale image as loaded (np.float32 samples), row by row. */
  type Image = seq<seq<real>>

  /** img is an h x w image with at least one row and one column. */
  predicate IsTile(img: Image, h: nat, w: nat)
  {
    h >= 1 && w >= 1 && |img| == h && forall y :: 0 <= y < h ==> |img[y]| == w
  }

  function Height(img: Image): nat
  {
    |img|
  }

  function WidthOf(img: Image): nat
  {
    if |img| == 0 then 0 else |img[0]|
  }

  /** The four sides, in the order get_edges lists them. */
  datatype Side = Top | Bottom | Left | Right

  /** The side a neighbour must offer to meet side s. */
  function Opposite(s: Side): (o: Side)
    ensures o != s
  {
    match s
    case Top => Bottom
    case Bottom => Top
    case Left => Right
    case Right => Left
  }

  lemma OppositeInvolution(s: Side)
    ensures Opposite(Opposite(s)) == s
  {
  }

  /** The side pairs find_best_matches scores (line 38). */
  predicate Complementary(s1: Side, s2: Side)
  {
    (s1 == Top && s2 == Bottom) || (s1 == Bottom && s2 == Top) ||
    (s1 == Left && s2 == Right) || (s1 == Right && s2 == Left)
  }

  /** The scored pairs are exactly the pairs of opposite sides. */
  lemma ComplementaryIsOpposite(s1: Side, s2: Side)
    ensures Complementary(s1, s2) <==> s2 == Opposite(s1)
    ensures Complementary(s1, s2) <==> Complementary(s2, s1)
  {
  }

  /** The four border lines of a tile. */
  datatype Edges = Edges(top: seq<real>, bottom: seq<real>, left: seq<real>, right: seq<real>)
  {
    function Of(s: Side): seq<real>
    {
      match s
      case Top => top
      case Bottom => bottom
      case Left => left
      case Right => right
    }
  }

  /** get_edges: row 0, the last row, column 0 and the last column. */
  function GetEdges(img: Image): (e: Edges)
    requires IsTile(img, Height(img), WidthOf(img))
    ensures |e.top| == |e.bottom| == WidthOf(img) && |e.left| == |e.right| == Height(img)
    ensures forall x :: 0 <= x < WidthOf(img) ==>
              e.top[x] == img[0][x] && e.bottom[x] == img[Height(img) - 1][x]
    ensures forall y :: 0 <= y < Height(img) ==>
              e.left[y] == img[y][0] && e.right[y] == img[y][WidthOf(img) - 1]
  {
    var h, w := Height(img), WidthOf(img);
    Edges(img[0], img[h - 1],
          seq(h, y requires 0 <= y < h => img[y][0]),
          seq(h, y requires 0 <= y < h => img[y][w - 1]))
  }

  /** Horizontal sides run along a row, vertical sides along a column. */
  lemma EdgeLength(img: Image, s: Side)
    requires IsTile(img, Height(img), WidthOf(img))
    ensures |GetEdges(img).Of(s)| == if s == Top || s == Bottom then WidthOf(img) else Height(img)
    ensures |GetEdges(img).Of(s)| == |GetEdges(img).Of(Opposite(s))|
  {
  }

  function Abs(v: real): real
  {
    if v < 0.0 then -v else v
  }

  /** calculate_edge_difference: the sum of absolute pixel differences. */
  function EdgeDifference(a: seq<real>, b: seq<real>): (d: real)
    requires |a| == |b|
    ensures d >= 0.0
  {
    if |a| == 0 then 0.0
    else EdgeDifference(a[..|a| - 1], b[..|b| - 1]) + Abs(a[|a| - 1] - b[|b| - 1])
  }

  /** The difference is 0 exactly when the two lines are equal pixel by pixel. */
  lemma {:induction false} DifferenceZeroIff(a: seq<real>, b: seq<real>)
    requires |a| == |b|
    ensures EdgeDifference(a, b) == 0.0 <==> a == b
  {
    if |a| > 0 {
      var n := |a| - 1;
      DifferenceZeroIff(a[..n], b[..n]);
      assert a == a[..n] + [a[n]] && b == b[..n] + [b[n]];
    }
  }

  /** The difference does not depend on the order of the two lines. */
  lemma {:induction false} DifferenceSymmetric(a: seq<real>, b: seq<real>)
    requires |a| == |b|
    ensures EdgeDifference(a, b) == EdgeDifference(b, a)
  {
    if |a| > 0 {
      DifferenceSymmetric(a[..|a| - 1], b[..|b| - 1]);
    }
  }
}
