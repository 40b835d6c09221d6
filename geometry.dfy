/** Value types of the mesh: points, index triangles (faces) and point triangles. */
module Geometry {

  /** A vertex position. Coordinates are exact reals: the float32 storage of the
      original is not modelled. */
  datatype Point = Point(x: real, y: real, z: real)

  /** A triangle as three indices into the vertex list, in winding order. */
  datatype Face = Face(v0: nat, v1: nat, v2: nat)
  {
    /** face[j] for j in 0..2. */
    function Corner(j: nat): nat
      requires j < 3
    {
      if j == 0 then v0 else if j == 1 then v1 else v2
    }

    /** The face uses vertex v as one of its corners. */
    predicate Has(v: int)
    {
      v == v0 || v == v1 || v == v2
    }

    /** The face walks the directed edge a -> b in its winding order. */
    predicate Traverses(a: int, b: int)
    {
      (v0 == a && v1 == b) || (v1 == a && v2 == b) || (v2 == a && v0 == b)
    }

    /** All corners are below bound. */
    predicate Below(bound: int)
    {
      v0 < bound && v1 < bound && v2 < bound
    }

    /** All corners are at least bound. */
    predicate AtLeast(bound: int)
    {
      bound <= v0 && bound <= v1 && bound <= v2
    }

    /** Three pairwise different corners: a proper triangle. */
    predicate Proper()
    {
      v0 != v1 && v1 != v2 && v0 != v2
    }
  }

  /** The same face with every index moved up by offset. */
  function Shift(f: Face, offset: nat): Face
  {
    Face(f.v0 + offset, f.v1 + offset, f.v2 + offset)
  }

  /** The same corners in the opposite winding order. */
  function Reverse(f: Face): Face
  {
    Face(f.v2, f.v1, f.v0)
  }

  /** g lists the corners of f in the same cyclic order (same winding). */
  predicate SameWinding(f: Face, g: Face)
  {
    g == f || g == Face(f.v1, f.v2, f.v0) || g == Face(f.v2, f.v0, f.v1)
  }

  /** A triangle of concrete points: one row of the STL `vectors` field. */
  datatype Triangle = Triangle(p0: Point, p1: Point, p2: Point)
}
