/**
 * IcoLattice: an icosahedral lattice of `subdivisions` subdivisions per icosahedron edge. It
 * enumerates its vertices as polar coordinates, pole to pole and ring by ring, and its edges as
 * pairs of vertex numbers in that same order.
 */
module IcoLattice {
  import opened Arith
  import opened Errors
  import opened IcoRows
  import opened IcoCoordinates
  import opened IcoEdges
  import opened IcoVertices
  import opened IcoDegrees

  /** The constructor refuses fewer than one subdivision, so every lattice has at least one. */
  type Subdivisions = n: int | n >= 1 witness 1

  datatype Lattice = Lattice(subdivisions: Subdivisions)
  {
    /**
     * The enumerated polar coordinates: the north pole, the rings of the north cap, the tropics
     * and the south cap, and the south pole. The coordinate of vertex `x` is at position
     * Index(n, x), the number the edges use for it.
     */
    method PolarCoordinates() returns (cs: seq<PolarCoordinate>)
      ensures |cs| == VertexCount(subdivisions) == 10 * subdivisions * subdivisions + 2
      ensures forall x :: ValidVertex(subdivisions, x) ==> 0 <= Index(subdivisions, x) < |cs| && cs[Index(subdivisions, x)] == PolarOf(subdivisions, x)
      ensures cs[0] == NorthPole && cs[|cs| - 1] == SouthPole
      ensures forall i, j :: 0 <= i < j < |cs| ==> cs[i] != cs[j]
      ensures forall i :: 0 <= i < |cs| ==> Canonical(cs[i], subdivisions) && NormalizedPolar(cs[i], subdivisions) == Done(cs[i])
      ensures forall c :: Canonical(c, subdivisions) ==> c in cs
    {
      cs := [Polar(0, 0, 0, 0)];
      NorthPoleFirst(subdivisions);
      cs := NorthCapCoordinates(subdivisions, cs);
      cs := TropicCoordinates(subdivisions, cs);
      cs := SouthCapCoordinates(subdivisions, cs);
      SouthPoleLast(subdivisions, cs);
      cs := cs + [Polar(3, 0, 0, 0)];
      EnumerationFacts(subdivisions, cs);
    }

    /**
     * The edges as pairs of vertex numbers: the north cap's triangles, the tropics' and the
     * south cap's. Together they form the icosahedral mesh: no edge is a loop or repeated in
     * either direction, and every vertex has exactly 5 neighbours at the 12 corners of the
     * icosahedron and 6 elsewhere.
     */
    method Edges() returns (edges: seq<Edge>)
      ensures edges == EdgeList(subdivisions)
      ensures forall k :: 0 <= k < |edges| ==>
        0 <= edges[k].0 < VertexCount(subdivisions) && 0 <= edges[k].1 < VertexCount(subdivisions) && edges[k].0 != edges[k].1
      ensures forall i, j :: 0 <= i < j < |edges| ==> edges[i] != edges[j] && edges[i] != (edges[j].1, edges[j].0)
      ensures forall v :: 0 <= v < VertexCount(subdivisions) ==>
        |Neighbours(edges, v)| == (if v in Corners(subdivisions) then 5 else 6)
      ensures |Corners(subdivisions)| == 12
    {
      var n := subdivisions;
      var north := NorthCapEdges(n);
      var tropics := TropicEdges(n);
      var south := SouthCapEdges(n);
      edges := north + tropics + south;
      forall k | 0 <= k < |edges|
        ensures 0 <= edges[k].0 < VertexCount(n) && 0 <= edges[k].1 < VertexCount(n) && edges[k].0 != edges[k].1
      {
        EdgeEnds(n, k);
      }
      forall i, j | 0 <= i < j < |edges|
        ensures edges[i] != edges[j] && edges[i] != (edges[j].1, edges[j].0)
      {
        NoRepeatedEdge(n, i, j);
      }
      DegreeFiveAtCorners(n);
    }
  }

  /** `new IcoLattice(subdivisions)`: an ArgumentOutOfRangeException below one subdivision. */
  function NewLattice(subdivisions: int): (r: Result<Lattice>)
    ensures r.Ok? <==> subdivisions >= 1
    ensures r.Ok? ==> r.value.subdivisions == subdivisions
    ensures r.Err? ==> r.error == ArgumentOutOfRange
  {
    if subdivisions < 1 then Err(ArgumentOutOfRange) else Ok(Lattice(subdivisions))
  }

  // The enumeration of polar coordinates.

  /** The latitude of row `r`: rows of the north cap, the tropics and the south cap in turn. */
  function RowLat(n: int, r: int): SubdividedCoordinate
  {
    if r < n then SubdividedCoordinate(0, r)
    else if r < 2 * n then SubdividedCoordinate(1, r - n)
    else SubdividedCoordinate(2, r - 2 * n)
  }

  /** The polar coordinate of vertex `x`: its row's latitude, and its face and division as longitude. */
  function PolarOf(n: int, x: Vertex): PolarCoordinate
  {
    if x.row <= 0 then NorthPole
    else if x.row >= 3 * n then SouthPole
    else PolarCoordinate(RowLat(n, x.row), SubdividedCoordinate(x.face, x.div))
  }

  lemma PolarOfCanonical(n: int, x: Vertex)
    requires n >= 1 && ValidVertex(n, x)
    ensures Canonical(PolarOf(n, x), n)
  {
  }

  /** Distinct vertices have distinct coordinates. */
  lemma PolarOfInjective(n: int, x: Vertex, y: Vertex)
    requires n >= 1 && ValidVertex(n, x) && ValidVertex(n, y)
    ensures PolarOf(n, x) == PolarOf(n, y) <==> x == y
  {
  }

  /** Every canonical coordinate is the coordinate of some vertex. */
  lemma PolarOfComplete(n: int, c: PolarCoordinate)
    requires n >= 1 && Canonical(c, n)
    ensures exists x :: ValidVertex(n, x) && PolarOf(n, x) == c
  {
    var x := if c == NorthPole then NorthPoleV()
      else if c == SouthPole then SouthPoleV(n)
      else V(c.lat.face * n + c.lat.div, c.lon.face, c.lon.div);
    assert ValidVertex(n, x) && PolarOf(n, x) == c;
  }

  /** The north cap's rings of latitude 1..n-1 on latitude face 0, after the north pole. */
  method NorthCapCoordinates(n: int, cs0: seq<PolarCoordinate>) returns (cs: seq<PolarCoordinate>)
    requires n >= 1 && EnumeratedRows(n, cs0, 1)
    ensures EnumeratedRows(n, cs, n)
  {
    cs := cs0;
    var c := PolarCoordinate(SubdividedCoordinate(0, 1), SubdividedCoordinate(0, 0));
    while c.lat.div < n
      invariant c.lat.face == 0 && 1 <= c.lat.div <= n
      invariant EnumeratedRows(n, cs, c.lat.div)
      decreases n - c.lat.div
    {
      var ring := Ring(c.lat, c.lat.div);
      RowStep(n, cs, ring, c.lat.div, c.lat, c.lat.div);
      cs := cs + ring;
      c := c.(lat := c.lat.(div := c.lat.div + 1));
    }
  }

  /** The tropics' rings of latitude 0..n-1 on latitude face 1, each of n divisions per face. */
  method TropicCoordinates(n: int, cs0: seq<PolarCoordinate>) returns (cs: seq<PolarCoordinate>)
    requires n >= 1 && EnumeratedRows(n, cs0, n)
    ensures EnumeratedRows(n, cs, 2 * n)
  {
    cs := cs0;
    var c := PolarCoordinate(SubdividedCoordinate(1, 0), SubdividedCoordinate(0, 0));
    while c.lat.div < n
      invariant c.lat.face == 1 && 0 <= c.lat.div <= n
      invariant EnumeratedRows(n, cs, n + c.lat.div)
      decreases n - c.lat.div
    {
      var ring := Ring(c.lat, n);
      RowStep(n, cs, ring, n + c.lat.div, c.lat, n);
      cs := cs + ring;
      c := c.(lat := c.lat.(div := c.lat.div + 1));
    }
  }

  /** The south cap's rings of latitude 0..n-1 on latitude face 2, of n - lat divisions per face. */
  method SouthCapCoordinates(n: int, cs0: seq<PolarCoordinate>) returns (cs: seq<PolarCoordinate>)
    requires n >= 1 && EnumeratedRows(n, cs0, 2 * n)
    ensures EnumeratedRows(n, cs, 3 * n)
  {
    cs := cs0;
    var c := PolarCoordinate(SubdividedCoordinate(2, 0), SubdividedCoordinate(0, 0));
    while c.lat.div < n
      invariant c.lat.face == 2 && 0 <= c.lat.div <= n
      invariant EnumeratedRows(n, cs, 2 * n + c.lat.div)
      decreases n - c.lat.div
    {
      var ring := Ring(c.lat, n - c.lat.div);
      RowStep(n, cs, ring, 2 * n + c.lat.div, c.lat, n - c.lat.div);
      cs := cs + ring;
      c := c.(lat := c.lat.(div := c.lat.div + 1));
    }
  }

  /** `ring` holds the coordinates of one ring of latitude `lat`, face by face. */
  predicate RingOf(ring: seq<PolarCoordinate>, lat: SubdividedCoordinate, len: int)
  {
    |ring| == 5 * len &&
    forall f, d :: 0 <= f < 5 && 0 <= d < len ==>
      0 <= Pos(len, f, d) < |ring| && ring[Pos(len, f, d)] == PolarCoordinate(lat, SubdividedCoordinate(f, d))
  }

  /** The coordinates of all rows above row `r` are enumerated, each at its vertex's number. */
  ghost predicate EnumeratedRows(n: int, cs: seq<PolarCoordinate>, r: int)
  {
    |cs| == RowStart(n, r) &&
    forall x :: ValidVertex(n, x) && x.row < r ==> 0 <= Index(n, x) < |cs| && cs[Index(n, x)] == PolarOf(n, x)
  }

  /**
   * The two inner loops of the enumeration: for each longitude face, the divisions 0..len-1
   * at latitude `lat`.
   */
  method Ring(lat: SubdividedCoordinate, len: int) returns (ring: seq<PolarCoordinate>)
    requires len >= 0
    ensures RingOf(ring, lat, len)
  {
    ring := [];
    var c := PolarCoordinate(lat, SubdividedCoordinate(0, 0));
    ghost var face := 0;
    while c.lon.face < 5
      invariant c.lat == lat && 0 <= c.lon.face <= 5
      invariant |ring| == c.lon.face * len
      decreases 5 - c.lon.face
      invariant forall f, d :: 0 <= f < c.lon.face && 0 <= d < len ==>
        0 <= Pos(len, f, d) < |ring| && ring[Pos(len, f, d)] == PolarCoordinate(lat, SubdividedCoordinate(f, d))
    {
      c := c.(lon := c.lon.(div := 0));
      face := c.lon.face;
      while c.lon.div < len
        invariant c.lat == lat && c.lon.face == face && 0 <= face < 5 && 0 <= c.lon.div <= len
        invariant |ring| == Pos(len, c.lon.face, c.lon.div)
        decreases len - c.lon.div
        invariant forall f, d :: 0 <= f < 5 && 0 <= d < len && (f < c.lon.face || (f == c.lon.face && d < c.lon.div)) ==>
          0 <= Pos(len, f, d) < |ring| && ring[Pos(len, f, d)] == PolarCoordinate(lat, SubdividedCoordinate(f, d))
      {
        PosNext(len, 5, c.lon.face, c.lon.div);
        ring := ring + [c];
        c := c.(lon := c.lon.(div := c.lon.div + 1));
      }
      c := c.(lon := c.lon.(face := c.lon.face + 1));
    }
  }

  lemma NorthPoleFirst(n: int)
    requires n >= 1
    ensures EnumeratedRows(n, [NorthPole], 1)
  {
    assert RowStart(n, 1) == 1;
  }

  /** Appending the ring of row `r` extends the enumeration by that row. */
  lemma RowStep(n: int, cs: seq<PolarCoordinate>, ring: seq<PolarCoordinate>, r: int, lat: SubdividedCoordinate, len: int)
    requires n >= 1 && 0 < r < 3 * n && EnumeratedRows(n, cs, r)
    requires lat == RowLat(n, r) && len == FaceLength(n, r) && RingOf(ring, lat, len)
    ensures EnumeratedRows(n, cs + ring, r + 1)
  {
    assert RowLength(n, r) == 5 * len;
    forall x | ValidVertex(n, x) && x.row < r + 1
      ensures 0 <= Index(n, x) < |cs + ring| && (cs + ring)[Index(n, x)] == PolarOf(n, x)
    {
      if x.row == r {
        assert Index(n, x) == |cs| + Pos(len, x.face, x.div);
      }
    }
  }

  lemma SouthPoleLast(n: int, cs: seq<PolarCoordinate>)
    requires n >= 1 && EnumeratedRows(n, cs, 3 * n)
    ensures EnumeratedRows(n, cs + [SouthPole], 3 * n + 1)
  {
    forall x | ValidVertex(n, x) && x.row < 3 * n + 1
      ensures 0 <= Index(n, x) < |cs| + 1 && (cs + [SouthPole])[Index(n, x)] == PolarOf(n, x)
    {
      if x.row == 3 * n {
        assert Index(n, x) == |cs|;
      }
    }
  }

  /**
   * An enumeration that puts the coordinate of each vertex at its number lists every canonical
   * coordinate exactly once, from the north pole to the south pole.
   */
  lemma EnumerationFacts(n: int, cs: seq<PolarCoordinate>)
    requires n >= 1 && EnumeratedRows(n, cs, 3 * n + 1)
    ensures |cs| == VertexCount(n) == 10 * n * n + 2
    ensures forall x :: ValidVertex(n, x) ==> 0 <= Index(n, x) < |cs| && cs[Index(n, x)] == PolarOf(n, x)
    ensures cs[0] == NorthPole && cs[|cs| - 1] == SouthPole
    ensures forall i, j :: 0 <= i < j < |cs| ==> cs[i] != cs[j]
    ensures forall i :: 0 <= i < |cs| ==> Canonical(cs[i], n) && NormalizedPolar(cs[i], n) == Done(cs[i])
    ensures forall c :: Canonical(c, n) ==> c in cs
  {
    VertexCountClosed(n);
    assert cs[Index(n, NorthPoleV())] == NorthPole;
    assert cs[Index(n, SouthPoleV(n))] == SouthPole;
    forall i | 0 <= i < |cs|
      ensures Canonical(cs[i], n) && NormalizedPolar(cs[i], n) == Done(cs[i])
    {
      IndexSurjective(n, i);
      var x :| ValidVertex(n, x) && Index(n, x) == i;
      PolarOfCanonical(n, x);
      CanonicalIsFixedPoint(cs[i], n);
    }
    forall i, j | 0 <= i < j < |cs|
      ensures cs[i] != cs[j]
    {
      IndexSurjective(n, i);
      IndexSurjective(n, j);
      var x :| ValidVertex(n, x) && Index(n, x) == i;
      var y :| ValidVertex(n, y) && Index(n, y) == j;
      IndexInjective(n, x, y);
      PolarOfInjective(n, x, y);
    }
    forall c | Canonical(c, n)
      ensures c in cs
    {
      PolarOfComplete(n, c);
      var x :| ValidVertex(n, x) && PolarOf(n, x) == c;
      IndexRange(n, x);
    }
  }

  // The three loops of Edges, one method per loop level.

  method NorthCapEdges(n: int) returns (edges: seq<Edge>)
    requires n >= 1
    ensures edges == NorthRings(n)
  {
    edges := [];
    for lat := 0 to n
      invariant edges == NorthRings(lat)
    {
      var ring := NorthRingEdges(lat);
      edges := edges + ring;
      NorthLoopStep(lat, 0, lat);
    }
  }

  method NorthRingEdges(lat: int) returns (edges: seq<Edge>)
    requires lat >= 0
    ensures edges == NorthFaces(lat, 5)
  {
    edges := [];
    for face := 0 to 5
      invariant edges == NorthFaces(lat, face)
    {
      var e := NorthFaceEdges(lat, face);
      edges := edges + e;
      NorthLoopStep(lat, face, face);
    }
  }

  method NorthFaceEdges(lat: int, face: int) returns (edges: seq<Edge>)
    requires lat >= 0
    ensures edges == NorthFace(lat, face)
  {
    edges := [(NorthVertex(lat, face, 0), NorthVertex(lat + 1, face, 0))];
    for div := 0 to lat
      invariant edges == [NorthSpoke(lat, face)] + NorthTriangles(lat, face, div)
    {
      var a, b, c := NorthVertex(lat, face, div), NorthVertex(lat, face, div + 1), NorthVertex(lat + 1, face, div + 1);
      edges := edges + [(a, b), (a, c), (b, c)];
      NorthLoopStep(lat, face, div);
    }
  }

  method TropicEdges(n: int) returns (edges: seq<Edge>)
    requires n >= 1
    ensures edges == TropicRows(n, n)
  {
    edges := [];
    var latLength := 5 * n;
    for lat := 0 to n
      invariant edges == TropicRows(n, lat)
    {
      ghost var above := edges;
      for div := 0 to latLength
        invariant edges == above + TropicCells(n, lat, div)
      {
        var a, b, c := TropicVertex(n, lat, div), TropicVertex(n, lat, div + 1), TropicVertex(n, lat + 1, div);
        edges := edges + [(a, b), (a, c), (b, c)];
        TropicLoopStep(n, lat, div);
      }
      TropicLoopStep(n, lat, lat);
    }
  }

  method SouthCapEdges(n: int) returns (edges: seq<Edge>)
    requires n >= 1
    ensures edges == SouthRings(n, n)
  {
    edges := [];
    for lat := 0 to n
      invariant edges == SouthRings(n, lat)
    {
      var ring := SouthRingEdges(n, lat);
      edges := edges + ring;
      SouthLoopStep(n, lat, 0, lat);
    }
  }

  method SouthRingEdges(n: int, lat: int) returns (edges: seq<Edge>)
    requires 0 <= lat < n
    ensures edges == SouthFaces(n, lat, 5)
  {
    edges := [];
    for face := 0 to 5
      invariant edges == SouthFaces(n, lat, face)
    {
      var e := SouthFaceEdges(n, lat, face);
      edges := edges + e;
      SouthLoopStep(n, lat, face, face);
    }
  }

  method SouthFaceEdges(n: int, lat: int, face: int) returns (edges: seq<Edge>)
    requires 0 <= lat < n
    ensures edges == SouthTriangles(n, lat, face, n - lat)
  {
    edges := [];
    for div := 0 to n - lat
      invariant edges == SouthTriangles(n, lat, face, div)
    {
      ghost var before := edges;
      var a, b, c := SouthVertex(n, lat, face, div), SouthVertex(n, lat, face, div + 1), SouthVertex(n, lat + 1, face, div);
      edges := edges + [(a, b)];
      if div > 0 {
        edges := edges + [(a, c)];
      }
      edges := edges + [(b, c)];
      assert edges == before + SouthTriangle(n, lat, face, div);
      SouthLoopStep(n, lat, face, div);
    }
  }
}
