/**
 * The edges of IcoLattice.Edges between named vertices: the same three nests of loops as
 * IcoEdges, with each vertex formula replaced by the vertex it denotes. `EdgeListIndex`
 * shows that numbering these names gives exactly the source's edges, and `EdgeListVIn`
 * that every endpoint is a vertex of the lattice.
 */
module IcoNamedEdges {
  import opened Arith
  import opened IcoRows
  import opened IcoEdges
  import opened IcoVertices

  // The north cap: ring `lat` joins row lat to row lat + 1.

  function NorthV(lat: int, face: int, div: int): Vertex
  {
    if lat == 0 then NorthPoleV() else Wrap(lat, face, div, lat)
  }

  function NorthSpokeV(lat: int, face: int): VEdge
  {
    (NorthV(lat, face, 0), NorthV(lat + 1, face, 0))
  }

  function NorthTriangleV(lat: int, face: int, div: int): seq<VEdge>
  {
    Triangle(NorthV(lat, face, div), NorthV(lat, face, div + 1), NorthV(lat + 1, face, div + 1))
  }

  function NorthTriangleBodyV(lat: int, face: int): int -> seq<VEdge>
  {
    div => NorthTriangleV(lat, face, div)
  }

  function NorthTrianglesV(lat: int, face: int, k: int): seq<VEdge>
  {
    Concat(0, k, NorthTriangleBodyV(lat, face))
  }

  function NorthFaceV(lat: int, face: int): seq<VEdge>
  {
    [NorthSpokeV(lat, face)] + NorthTrianglesV(lat, face, lat)
  }

  function NorthFaceBodyV(lat: int): int -> seq<VEdge>
  {
    face => NorthFaceV(lat, face)
  }

  function NorthRingV(lat: int): seq<VEdge>
  {
    Concat(0, 5, NorthFaceBodyV(lat))
  }

  function NorthRingBodyV(): int -> seq<VEdge>
  {
    lat => NorthRingV(lat)
  }

  function NorthCapV(k: int): seq<VEdge>
  {
    Concat(0, k, NorthRingBodyV())
  }

  // The tropics: row `t` joins row n + t to row n + t + 1, face by face.

  function TropicV(n: int, t: int, face: int, div: int): Vertex
  {
    Wrap(n + t, face, div, n)
  }

  function TropicCellV(n: int, t: int, face: int, div: int): seq<VEdge>
  {
    Triangle(TropicV(n, t, face, div), TropicV(n, t, face, div + 1), TropicV(n, t + 1, face, div))
  }

  function TropicCellBodyV(n: int, t: int, face: int): int -> seq<VEdge>
  {
    div => TropicCellV(n, t, face, div)
  }

  function TropicCellsV(n: int, t: int, face: int, k: int): seq<VEdge>
  {
    Concat(0, k, TropicCellBodyV(n, t, face))
  }

  function TropicFaceBodyV(n: int, t: int): int -> seq<VEdge>
  {
    face => TropicCellsV(n, t, face, n)
  }

  function TropicFacesV(n: int, t: int, k: int): seq<VEdge>
  {
    Concat(0, k, TropicFaceBodyV(n, t))
  }

  function TropicRowBodyV(n: int): int -> seq<VEdge>
  {
    t => TropicFacesV(n, t, 5)
  }

  function TropicsV(n: int, k: int): seq<VEdge>
  {
    Concat(0, k, TropicRowBodyV(n))
  }

  // The south cap: ring `lat` joins row 2n + lat to row 2n + lat + 1.

  function SouthV(n: int, lat: int, face: int, div: int): Vertex
  {
    if lat == n then SouthPoleV(n) else Wrap(2 * n + lat, face, div, n - lat)
  }

  function SouthTriangleV(n: int, lat: int, face: int, div: int): seq<VEdge>
  {
    var a, b, c := SouthV(n, lat, face, div), SouthV(n, lat, face, div + 1), SouthV(n, lat + 1, face, div);
    [(a, b)] + (if div > 0 then [(a, c)] else []) + [(b, c)]
  }

  function SouthTriangleBodyV(n: int, lat: int, face: int): int -> seq<VEdge>
  {
    div => SouthTriangleV(n, lat, face, div)
  }

  function SouthTrianglesV(n: int, lat: int, face: int, k: int): seq<VEdge>
  {
    Concat(0, k, SouthTriangleBodyV(n, lat, face))
  }

  function SouthFaceBodyV(n: int, lat: int): int -> seq<VEdge>
  {
    face => SouthTrianglesV(n, lat, face, n - lat)
  }

  function SouthRingV(n: int, lat: int): seq<VEdge>
  {
    Concat(0, 5, SouthFaceBodyV(n, lat))
  }

  function SouthRingBodyV(n: int): int -> seq<VEdge>
  {
    lat => SouthRingV(n, lat)
  }

  function SouthCapV(n: int, k: int): seq<VEdge>
  {
    Concat(0, k, SouthRingBodyV(n))
  }

  function EdgeListV(n: int): seq<VEdge>
  {
    NorthCapV(n) + TropicsV(n, n) + SouthCapV(n, n)
  }

  // Numbering the named edges gives the source's edges.

  lemma {:induction false} ConcatIndex(n: int, lo: int, hi: int, body: int -> seq<Edge>, bodyV: int -> seq<VEdge>)
    requires forall k :: lo <= k < hi ==> body(k) == MapEdges(n, bodyV(k))
    ensures Concat(lo, hi, body) == MapEdges(n, Concat(lo, hi, bodyV))
    decreases hi - lo
  {
    if hi > lo {
      ConcatIndex(n, lo, hi - 1, body, bodyV);
      MapEdgesAppend(n, Concat(lo, hi - 1, bodyV), bodyV(hi - 1));
    }
  }

  lemma NorthVertexIndex(n: int, lat: int, face: int, div: int)
    requires 1 <= n && 0 <= lat <= n && 0 <= face < 5 && 0 <= div <= lat
    ensures NorthVertex(lat, face, div) == Index(n, NorthV(lat, face, div))
  {
    if lat > 0 {
      RowStartNorth(n, lat);
      MulNonneg(face, lat);
      if div < lat {
        MulLeq(face, 4, lat);
        ModSmall(face * lat + div, 5 * lat);
      } else {
        assert face * lat + div == (face + 1) * lat;
        if face < 4 {
          MulLeq(face + 1, 4, lat);
          ModSmall((face + 1) * lat, 5 * lat);
        } else {
          ModWrap(5 * lat, 5 * lat);
        }
      }
    }
  }

  lemma NorthTriangleIndex(n: int, lat: int, face: int, div: int)
    requires 0 <= lat < n && 0 <= face < 5 && 0 <= div < lat
    ensures NorthTriangle(lat, face, div) == MapEdges(n, NorthTriangleV(lat, face, div))
  {
    NorthVertexIndex(n, lat, face, div);
    NorthVertexIndex(n, lat, face, div + 1);
    NorthVertexIndex(n, lat + 1, face, div + 1);
    MapTriangle(n, NorthV(lat, face, div), NorthV(lat, face, div + 1), NorthV(lat + 1, face, div + 1));
  }

  lemma NorthFaceIndex(n: int, lat: int, face: int)
    requires 0 <= lat < n && 0 <= face < 5
    ensures NorthFace(lat, face) == MapEdges(n, NorthFaceV(lat, face))
  {
    forall k | 0 <= k < lat
      ensures NorthTriangleBody(lat, face)(k) == MapEdges(n, NorthTriangleBodyV(lat, face)(k))
    {
      NorthTriangleIndex(n, lat, face, k);
    }
    ConcatIndex(n, 0, lat, NorthTriangleBody(lat, face), NorthTriangleBodyV(lat, face));
    NorthVertexIndex(n, lat, face, 0);
    NorthVertexIndex(n, lat + 1, face, 0);
    assert [NorthSpoke(lat, face)] == MapEdges(n, [NorthSpokeV(lat, face)]);
    MapEdgesAppend(n, [NorthSpokeV(lat, face)], NorthTrianglesV(lat, face, lat));
  }

  lemma NorthCapIndex(n: int)
    requires n >= 1
    ensures NorthRings(n) == MapEdges(n, NorthCapV(n))
  {
    forall lat | 0 <= lat < n
      ensures NorthRingBody()(lat) == MapEdges(n, NorthRingBodyV()(lat))
    {
      forall face | 0 <= face < 5
        ensures NorthFaceBody(lat)(face) == MapEdges(n, NorthFaceBodyV(lat)(face))
      {
        NorthFaceIndex(n, lat, face);
      }
      ConcatIndex(n, 0, 5, NorthFaceBody(lat), NorthFaceBodyV(lat));
    }
    ConcatIndex(n, 0, n, NorthRingBody(), NorthRingBodyV());
  }

  /** The source's tropic vertex `face * n + div` of row `t` is vertex (face, div) of row n + t. */
  lemma TropicVertexIndex(n: int, t: int, face: int, div: int)
    requires 1 <= n && 0 <= t <= n && 0 <= face < 5 && 0 <= div <= n
    ensures TropicVertex(n, t, face * n + div) == Index(n, TropicV(n, t, face, div))
  {
    RowStartTropics(n, t);
    assert FaceLength(n, n + t) == n;
    TropicWrap(n, face, div);
    if div == n {
      assert face * n + div == (face + 1) * n;
    }
  }

  /** A ring position `face * n + div` with `div <= n` stays as it is modulo 5n, except the end of the ring. */
  lemma TropicWrap(n: int, face: int, div: int)
    requires 1 <= n && 0 <= face < 5 && 0 <= div <= n
    ensures (face * n + div) % (5 * n) == if face == 4 && div == n then 0 else face * n + div
  {
    var p := face * n + div;
    MulNonneg(face, n);
    if face == 4 && div == n {
      ModWrap(p, 5 * n);
    } else if div < n {
      MulLeq(face, 4, n);
      ModSmall(p, 5 * n);
    } else {
      assert p == (face + 1) * n;
      MulLeq(face + 1, 4, n);
      ModSmall(p, 5 * n);
    }
  }

  lemma TropicVertexIndexAt(n: int, t: int, face: int, div: int, p: int)
    requires 1 <= n && 0 <= t <= n && 0 <= face < 5 && 0 <= div <= n && p == face * n + div
    ensures TropicVertex(n, t, p) == Index(n, TropicV(n, t, face, div))
  {
    TropicVertexIndex(n, t, face, div);
  }

  lemma TropicCellIndex(n: int, t: int, face: int, div: int)
    requires 1 <= n && 0 <= t < n && 0 <= face < 5 && 0 <= div < n
    ensures TropicCell(n, t, face * n + div) == MapEdges(n, TropicCellV(n, t, face, div))
  {
    TropicCellAt(n, t, face, div, face * n + div);
  }

  lemma TropicCellAt(n: int, t: int, face: int, div: int, p: int)
    requires 1 <= n && 0 <= t < n && 0 <= face < 5 && 0 <= div < n && p == face * n + div
    ensures TropicCell(n, t, p) == MapEdges(n, TropicCellV(n, t, face, div))
  {
    var a, b, c := TropicV(n, t, face, div), TropicV(n, t, face, div + 1), TropicV(n, t + 1, face, div);
    TropicVertexIndexAt(n, t, face, div, p);
    TropicVertexIndexAt(n, t, face, div + 1, p + 1);
    TropicVertexIndexAt(n, t + 1, face, div, p);
    assert TropicCell(n, t, p) == Triangle(Index(n, a), Index(n, b), Index(n, c));
    MapTriangle(n, a, b, c);
  }

  /** The single loop over the 5n cells of a tropic row is five loops of n, one per face. */
  lemma {:induction false} TropicCellsSplit(n: int, t: int, face: int, div: int)
    requires 1 <= n && 0 <= t < n && 0 <= face < 5 && 0 <= div <= n
    ensures TropicCells(n, t, face * n + div) == MapEdges(n, TropicFacesV(n, t, face) + TropicCellsV(n, t, face, div))
    decreases face, div
  {
    if div > 0 {
      TropicCellsSplit(n, t, face, div - 1);
      TropicCellIndex(n, t, face, div - 1);
      assert TropicCells(n, t, face * n + div) == TropicCells(n, t, face * n + div - 1) + TropicCell(n, t, face * n + div - 1);
      MapEdgesAppend(n, TropicFacesV(n, t, face) + TropicCellsV(n, t, face, div - 1), TropicCellV(n, t, face, div - 1));
    } else if face > 0 {
      TropicCellsSplit(n, t, face - 1, n);
      assert (face - 1) * n + n == face * n + div;
    }
  }

  lemma TropicsIndex(n: int)
    requires n >= 1
    ensures TropicRows(n, n) == MapEdges(n, TropicsV(n, n))
  {
    forall t | 0 <= t < n
      ensures TropicRowBody(n)(t) == MapEdges(n, TropicRowBodyV(n)(t))
    {
      TropicCellsSplit(n, t, 4, n);
    }
    ConcatIndex(n, 0, n, TropicRowBody(n), TropicRowBodyV(n));
  }

  lemma SouthVertexIndex(n: int, lat: int, face: int, div: int)
    requires 1 <= n && 0 <= lat <= n && 0 <= face < 5 && 0 <= div <= n - lat
    ensures SouthVertex(n, lat, face, div) == Index(n, SouthV(n, lat, face, div))
  {
    RowStartSouth(n, lat);
    if lat < n {
      var len := n - lat;
      var row := SouthRowStart(n, lat);
      assert FaceLength(n, 2 * n + lat) == len;
      var p := face * len + div;
      assert SouthVertex(n, lat, face, div) == row + p % (5 * len);
      MulNonneg(face, len);
      if div < len {
        MulLeq(face, 4, len);
        ModSmall(p, 5 * len);
        assert Index(n, SouthV(n, lat, face, div)) == row + p;
      } else {
        assert p == (face + 1) * len;
        if face < 4 {
          MulLeq(face + 1, 4, len);
          ModSmall(p, 5 * len);
          assert Index(n, SouthV(n, lat, face, div)) == row + (face + 1) * len;
        } else {
          ModWrap(5 * len, 5 * len);
          assert Index(n, SouthV(n, lat, face, div)) == row + 0 * len;
        }
      }
    }
  }

  lemma SouthTriangleIndex(n: int, lat: int, face: int, div: int)
    requires 1 <= n && 0 <= lat < n && 0 <= face < 5 && 0 <= div < n - lat
    ensures SouthTriangle(n, lat, face, div) == MapEdges(n, SouthTriangleV(n, lat, face, div))
  {
    SouthVertexIndex(n, lat, face, div);
    SouthVertexIndex(n, lat, face, div + 1);
    SouthVertexIndex(n, lat + 1, face, div);
    var a, b, c := SouthV(n, lat, face, div), SouthV(n, lat, face, div + 1), SouthV(n, lat + 1, face, div);
    MapEdgesAppend(n, [(a, b)] + (if div > 0 then [(a, c)] else []), [(b, c)]);
    MapEdgesAppend(n, [(a, b)], if div > 0 then [(a, c)] else []);
  }

  lemma SouthCapIndex(n: int)
    requires n >= 1
    ensures SouthRings(n, n) == MapEdges(n, SouthCapV(n, n))
  {
    forall lat | 0 <= lat < n
      ensures SouthRingBody(n)(lat) == MapEdges(n, SouthRingBodyV(n)(lat))
    {
      forall face | 0 <= face < 5
        ensures SouthFaceBody(n, lat)(face) == MapEdges(n, SouthFaceBodyV(n, lat)(face))
      {
        forall k | 0 <= k < n - lat
          ensures SouthTriangleBody(n, lat, face)(k) == MapEdges(n, SouthTriangleBodyV(n, lat, face)(k))
        {
          SouthTriangleIndex(n, lat, face, k);
        }
        ConcatIndex(n, 0, n - lat, SouthTriangleBody(n, lat, face), SouthTriangleBodyV(n, lat, face));
      }
      ConcatIndex(n, 0, 5, SouthFaceBody(n, lat), SouthFaceBodyV(n, lat));
    }
    ConcatIndex(n, 0, n, SouthRingBody(n), SouthRingBodyV(n));
  }

  /** IcoLattice.Edges yields the named edges, numbered. */
  lemma EdgeListIndex(n: int)
    requires n >= 1
    ensures EdgeList(n) == MapEdges(n, EdgeListV(n))
  {
    NorthCapIndex(n);
    TropicsIndex(n);
    SouthCapIndex(n);
    MapEdgesAppend(n, NorthCapV(n), TropicsV(n, n));
    MapEdgesAppend(n, NorthCapV(n) + TropicsV(n, n), SouthCapV(n, n));
  }

  // Every endpoint is a vertex of the lattice, on one of the two rows its ring or row joins.

  lemma NorthVIn(n: int, lat: int, face: int, div: int)
    requires 1 <= n && 0 <= lat <= n && 0 <= face < 5 && 0 <= div <= lat
    ensures ValidVertex(n, NorthV(lat, face, div)) && NorthV(lat, face, div).row == lat
  {
  }

  lemma TropicVIn(n: int, t: int, face: int, div: int)
    requires 1 <= n && 0 <= t <= n && 0 <= face < 5 && 0 <= div <= n
    ensures ValidVertex(n, TropicV(n, t, face, div)) && TropicV(n, t, face, div).row == n + t
  {
  }

  lemma SouthVIn(n: int, lat: int, face: int, div: int)
    requires 1 <= n && 0 <= lat <= n && 0 <= face < 5 && 0 <= div <= n - lat
    ensures ValidVertex(n, SouthV(n, lat, face, div)) && SouthV(n, lat, face, div).row == 2 * n + lat
  {
  }

  lemma NorthTriangleIn(n: int, lat: int, face: int, div: int)
    requires 0 <= lat < n && 0 <= face < 5 && 0 <= div < lat
    ensures EdgesIn(n, NorthTriangleV(lat, face, div), lat, lat + 1)
  {
    NorthVIn(n, lat, face, div);
    NorthVIn(n, lat, face, div + 1);
    NorthVIn(n, lat + 1, face, div + 1);
  }

  lemma NorthRingIn(n: int, lat: int)
    requires 0 <= lat < n
    ensures EdgesIn(n, NorthRingV(lat), lat, lat + 1)
  {
    forall face | 0 <= face < 5
      ensures EdgesIn(n, NorthFaceBodyV(lat)(face), lat, lat + 1)
    {
      forall div | 0 <= div < lat
        ensures EdgesIn(n, NorthTriangleBodyV(lat, face)(div), lat, lat + 1)
      {
        NorthTriangleIn(n, lat, face, div);
      }
      ConcatEdgesIn(n, 0, lat, NorthTriangleBodyV(lat, face), lat, lat + 1);
      NorthVIn(n, lat, face, 0);
      NorthVIn(n, lat + 1, face, 0);
      EdgesInAppend(n, [NorthSpokeV(lat, face)], NorthTrianglesV(lat, face, lat), lat, lat + 1);
    }
    ConcatEdgesIn(n, 0, 5, NorthFaceBodyV(lat), lat, lat + 1);
  }

  lemma TropicCellIn(n: int, t: int, face: int, div: int)
    requires 1 <= n && 0 <= t < n && 0 <= face < 5 && 0 <= div < n
    ensures EdgesIn(n, TropicCellV(n, t, face, div), n + t, n + t + 1)
  {
    TropicVIn(n, t, face, div);
    TropicVIn(n, t, face, div + 1);
    TropicVIn(n, t + 1, face, div);
  }

  lemma TropicRowIn(n: int, t: int)
    requires 1 <= n && 0 <= t < n
    ensures EdgesIn(n, TropicRowBodyV(n)(t), n + t, n + t + 1)
  {
    forall face | 0 <= face < 5
      ensures EdgesIn(n, TropicFaceBodyV(n, t)(face), n + t, n + t + 1)
    {
      forall div | 0 <= div < n
        ensures EdgesIn(n, TropicCellBodyV(n, t, face)(div), n + t, n + t + 1)
      {
        TropicCellIn(n, t, face, div);
      }
      ConcatEdgesIn(n, 0, n, TropicCellBodyV(n, t, face), n + t, n + t + 1);
    }
    ConcatEdgesIn(n, 0, 5, TropicFaceBodyV(n, t), n + t, n + t + 1);
  }

  lemma SouthTriangleIn(n: int, lat: int, face: int, div: int)
    requires 1 <= n && 0 <= lat < n && 0 <= face < 5 && 0 <= div < n - lat
    ensures EdgesIn(n, SouthTriangleV(n, lat, face, div), 2 * n + lat, 2 * n + lat + 1)
  {
    SouthVIn(n, lat, face, div);
    SouthVIn(n, lat, face, div + 1);
    SouthVIn(n, lat + 1, face, div);
  }

  lemma SouthRingIn(n: int, lat: int)
    requires 1 <= n && 0 <= lat < n
    ensures EdgesIn(n, SouthRingV(n, lat), 2 * n + lat, 2 * n + lat + 1)
  {
    forall face | 0 <= face < 5
      ensures EdgesIn(n, SouthFaceBodyV(n, lat)(face), 2 * n + lat, 2 * n + lat + 1)
    {
      forall div | 0 <= div < n - lat
        ensures EdgesIn(n, SouthTriangleBodyV(n, lat, face)(div), 2 * n + lat, 2 * n + lat + 1)
      {
        SouthTriangleIn(n, lat, face, div);
      }
      ConcatEdgesIn(n, 0, n - lat, SouthTriangleBodyV(n, lat, face), 2 * n + lat, 2 * n + lat + 1);
    }
    ConcatEdgesIn(n, 0, 5, SouthFaceBodyV(n, lat), 2 * n + lat, 2 * n + lat + 1);
  }

  lemma NorthCapIn(n: int)
    requires n >= 1
    ensures EdgesIn(n, NorthCapV(n), 0, n)
  {
    forall lat | 0 <= lat < n
      ensures EdgesIn(n, NorthRingBodyV()(lat), 0, n)
    {
      NorthRingIn(n, lat);
      EdgesInWiden(n, NorthRingV(lat), lat, lat + 1, 0, n);
    }
    ConcatEdgesIn(n, 0, n, NorthRingBodyV(), 0, n);
  }

  lemma TropicsIn(n: int)
    requires n >= 1
    ensures EdgesIn(n, TropicsV(n, n), n, 2 * n)
  {
    forall t | 0 <= t < n
      ensures EdgesIn(n, TropicRowBodyV(n)(t), n, 2 * n)
    {
      TropicRowIn(n, t);
      EdgesInWiden(n, TropicRowBodyV(n)(t), n + t, n + t + 1, n, 2 * n);
    }
    ConcatEdgesIn(n, 0, n, TropicRowBodyV(n), n, 2 * n);
  }

  lemma SouthCapIn(n: int)
    requires n >= 1
    ensures EdgesIn(n, SouthCapV(n, n), 2 * n, 3 * n)
  {
    forall lat | 0 <= lat < n
      ensures EdgesIn(n, SouthRingBodyV(n)(lat), 2 * n, 3 * n)
    {
      SouthRingIn(n, lat);
      EdgesInWiden(n, SouthRingV(n, lat), 2 * n + lat, 2 * n + lat + 1, 2 * n, 3 * n);
    }
    ConcatEdgesIn(n, 0, n, SouthRingBodyV(n), 2 * n, 3 * n);
  }

  /** Every endpoint of the named edge list is a vertex of the lattice. */
  lemma EdgeListVIn(n: int)
    requires n >= 1
    ensures EdgesIn(n, EdgeListV(n), 0, 3 * n)
  {
    NorthCapIn(n);
    TropicsIn(n);
    SouthCapIn(n);
    EdgesInWiden(n, NorthCapV(n), 0, n, 0, 3 * n);
    EdgesInWiden(n, TropicsV(n, n), n, 2 * n, 0, 3 * n);
    EdgesInWiden(n, SouthCapV(n, n), 2 * n, 3 * n, 0, 3 * n);
    EdgesInAppend(n, NorthCapV(n), TropicsV(n, n), 0, 3 * n);
    EdgesInAppend(n, NorthCapV(n) + TropicsV(n, n), SouthCapV(n, n), 0, 3 * n);
  }
}
