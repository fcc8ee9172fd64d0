/**
 * Which neighbours the south-cap loop of IcoLattice.Edges gives each vertex. Ring `lat` joins
 * row 2n + lat, whose faces are n - lat long, to row 2n + lat + 1 (the south pole when
 * lat == n - 1). The first cell of each face has no edge from its left corner down, so it is
 * a path of two edges rather than a triangle. The ring gives a vertex of row 2n + lat its
 * "own" neighbours and a vertex of the row below its "up" neighbours.
 */
module IcoSouthMesh {
  import opened IcoEdges
  import opened IcoVertices
  import opened IcoNamedEdges

  lemma {:induction false} SouthTriangleIsFirst(n: int, lat: int, face: int, k: int)
    requires 0 <= lat < n && k == 0
    ensures SouthTriangleBodyV(n, lat, face)(k) ==
      Path(V(2 * n + lat, face, k), Wrap(2 * n + lat, face, k + 1, n - lat), SouthV(n, lat + 1, face, k))
  {
  }

  lemma {:induction false} SouthTriangleIsInner(n: int, lat: int, face: int, k: int)
    requires 0 <= lat && 1 <= k < n - lat
    ensures SouthTriangleBodyV(n, lat, face)(k) ==
      Triangle(V(2 * n + lat, face, k), Wrap(2 * n + lat, face, k + 1, n - lat), SouthV(n, lat + 1, face, k))
  {
  }

  /** The lower corner of cell `k` is on the row below ring `lat`. */
  lemma {:induction false} SouthBelow(n: int, lat: int, face: int, k: int)
    requires 0 <= lat < n
    ensures SouthV(n, lat + 1, face, k).row == 2 * n + lat + 1
  {
  }

  // Cell `k` of face `face` of ring lat, seen from a vertex of row 2n + lat or of the row below.

  lemma {:induction false} SouthTriangleOwnFirst(n: int, lat: int, F: int, D: int)
    requires 0 <= lat < n && 0 <= F < 5 && D == 0
    ensures Neighbours(SouthTriangleBodyV(n, lat, F)(D), V(2 * n + lat, F, D)) == multiset{Wrap(2 * n + lat, F, D + 1, n - lat)}
  {
    SouthTriangleIsFirst(n, lat, F, D);
    SouthBelow(n, lat, F, D);
    PathHitA(V(2 * n + lat, F, D), Wrap(2 * n + lat, F, D + 1, n - lat), SouthV(n, lat + 1, F, D), V(2 * n + lat, F, D));
  }

  lemma {:induction false} SouthTriangleOwnA(n: int, lat: int, F: int, D: int)
    requires 0 <= lat && 0 <= F < 5 && 1 <= D < n - lat
    ensures Neighbours(SouthTriangleBodyV(n, lat, F)(D), V(2 * n + lat, F, D)) ==
      multiset{Wrap(2 * n + lat, F, D + 1, n - lat), SouthV(n, lat + 1, F, D)}
  {
    SouthTriangleIsInner(n, lat, F, D);
    SouthBelow(n, lat, F, D);
    TriangleHitA(V(2 * n + lat, F, D), Wrap(2 * n + lat, F, D + 1, n - lat), SouthV(n, lat + 1, F, D), V(2 * n + lat, F, D));
  }

  lemma {:induction false} SouthTriangleOwnLeft(n: int, lat: int, F: int, D: int)
    requires 0 <= lat && 0 <= F < 5 && 1 <= D < n - lat
    ensures Neighbours(SouthTriangleBodyV(n, lat, F)(D - 1), V(2 * n + lat, F, D)) ==
      multiset{V(2 * n + lat, F, D - 1), SouthV(n, lat + 1, F, D - 1)}
  {
    SouthBelow(n, lat, F, D - 1);
    if D == 1 {
      SouthTriangleIsFirst(n, lat, F, D - 1);
      PathHitB(V(2 * n + lat, F, D - 1), Wrap(2 * n + lat, F, D, n - lat), SouthV(n, lat + 1, F, D - 1), V(2 * n + lat, F, D));
    } else {
      SouthTriangleIsInner(n, lat, F, D - 1);
      TriangleHitB(V(2 * n + lat, F, D - 1), Wrap(2 * n + lat, F, D, n - lat), SouthV(n, lat + 1, F, D - 1), V(2 * n + lat, F, D));
    }
  }

  lemma {:induction false} SouthTriangleOwnPrev(n: int, lat: int, F: int)
    requires 0 <= lat < n && 0 <= F < 5
    ensures Neighbours(SouthTriangleBodyV(n, lat, Prev(F))(n - lat - 1), V(2 * n + lat, F, 0)) ==
      multiset{V(2 * n + lat, Prev(F), n - lat - 1), SouthV(n, lat + 1, Prev(F), n - lat - 1)}
  {
    var G, k := Prev(F), n - lat - 1;
    SouthBelow(n, lat, G, k);
    assert Wrap(2 * n + lat, G, k + 1, n - lat) == V(2 * n + lat, F, 0);
    if k == 0 {
      SouthTriangleIsFirst(n, lat, G, k);
      PathHitB(V(2 * n + lat, G, k), Wrap(2 * n + lat, G, k + 1, n - lat), SouthV(n, lat + 1, G, k), V(2 * n + lat, F, 0));
    } else {
      SouthTriangleIsInner(n, lat, G, k);
      TriangleHitB(V(2 * n + lat, G, k), Wrap(2 * n + lat, G, k + 1, n - lat), SouthV(n, lat + 1, G, k), V(2 * n + lat, F, 0));
    }
  }

  lemma {:induction false} SouthTriangleOwnMiss(n: int, lat: int, face: int, k: int, F: int, D: int)
    requires 0 <= lat && 0 <= face < 5 && 0 <= k < n - lat && 0 <= F < 5 && 0 <= D < n - lat
    requires !(face == F && k == D) && !(face == F && k == D - 1) && !(D == 0 && face == Prev(F) && k == n - lat - 1)
    ensures Avoids(SouthTriangleBodyV(n, lat, face)(k), V(2 * n + lat, F, D))
  {
    var x := V(2 * n + lat, F, D);
    SouthBelow(n, lat, face, k);
    if k == 0 {
      SouthTriangleIsFirst(n, lat, face, k);
      PathMiss(V(2 * n + lat, face, k), Wrap(2 * n + lat, face, k + 1, n - lat), SouthV(n, lat + 1, face, k), x);
    } else {
      SouthTriangleIsInner(n, lat, face, k);
      TriangleMiss(V(2 * n + lat, face, k), Wrap(2 * n + lat, face, k + 1, n - lat), SouthV(n, lat + 1, face, k), x);
    }
  }

  /** Below a ring that is not the last, the lower corner of cell `k` of the face. */
  lemma {:induction false} SouthLower(n: int, lat: int, face: int, k: int)
    requires 0 <= lat && lat + 1 < n
    ensures SouthV(n, lat + 1, face, k) == Wrap(2 * n + lat + 1, face, k, n - lat - 1)
  {
  }

  lemma {:induction false} SouthTriangleUpFirst(n: int, lat: int, F: int, E: int)
    requires 0 <= lat && lat + 1 < n && 0 <= F < 5 && E == 0
    ensures Neighbours(SouthTriangleBodyV(n, lat, F)(E), V(2 * n + lat + 1, F, E)) == multiset{Wrap(2 * n + lat, F, E + 1, n - lat)}
  {
    SouthTriangleIsFirst(n, lat, F, E);
    SouthLower(n, lat, F, E);
    PathHitC(V(2 * n + lat, F, E), Wrap(2 * n + lat, F, E + 1, n - lat), SouthV(n, lat + 1, F, E), V(2 * n + lat + 1, F, E));
  }

  lemma {:induction false} SouthTriangleUpInner(n: int, lat: int, F: int, E: int)
    requires 0 <= lat && 0 <= F < 5 && 1 <= E < n - lat - 1
    ensures Neighbours(SouthTriangleBodyV(n, lat, F)(E), V(2 * n + lat + 1, F, E)) ==
      multiset{V(2 * n + lat, F, E), Wrap(2 * n + lat, F, E + 1, n - lat)}
  {
    SouthTriangleIsInner(n, lat, F, E);
    SouthLower(n, lat, F, E);
    TriangleHitC(V(2 * n + lat, F, E), Wrap(2 * n + lat, F, E + 1, n - lat), SouthV(n, lat + 1, F, E), V(2 * n + lat + 1, F, E));
  }

  lemma {:induction false} SouthTriangleUpPrev(n: int, lat: int, F: int)
    requires 0 <= lat && lat + 1 < n && 0 <= F < 5
    ensures Neighbours(SouthTriangleBodyV(n, lat, Prev(F))(n - lat - 1), V(2 * n + lat + 1, F, 0)) ==
      multiset{V(2 * n + lat, Prev(F), n - lat - 1), V(2 * n + lat, F, 0)}
  {
    var G, k := Prev(F), n - lat - 1;
    SouthTriangleIsInner(n, lat, G, k);
    SouthLower(n, lat, G, k);
    assert Wrap(2 * n + lat, G, k + 1, n - lat) == V(2 * n + lat, F, 0);
    TriangleHitC(V(2 * n + lat, G, k), Wrap(2 * n + lat, G, k + 1, n - lat), SouthV(n, lat + 1, G, k), V(2 * n + lat + 1, F, 0));
  }

  lemma {:induction false} SouthTriangleUpMiss(n: int, lat: int, face: int, k: int, F: int, E: int)
    requires 0 <= lat && lat + 1 < n && 0 <= face < 5 && 0 <= k < n - lat && 0 <= F < 5 && 0 <= E < n - lat - 1
    requires !(face == F && k == E) && !(E == 0 && face == Prev(F) && k == n - lat - 1)
    ensures Avoids(SouthTriangleBodyV(n, lat, face)(k), V(2 * n + lat + 1, F, E))
  {
    var y := V(2 * n + lat + 1, F, E);
    SouthLower(n, lat, face, k);
    if k == 0 {
      SouthTriangleIsFirst(n, lat, face, k);
      PathMiss(V(2 * n + lat, face, k), Wrap(2 * n + lat, face, k + 1, n - lat), SouthV(n, lat + 1, face, k), y);
    } else {
      SouthTriangleIsInner(n, lat, face, k);
      TriangleMiss(V(2 * n + lat, face, k), Wrap(2 * n + lat, face, k + 1, n - lat), SouthV(n, lat + 1, face, k), y);
    }
  }

  lemma {:induction false} SouthTrianglePole(n: int, lat: int, face: int)
    requires 0 <= lat && lat + 1 == n && 0 <= face < 5
    ensures Neighbours(SouthTriangleBodyV(n, lat, face)(0), SouthPoleV(n)) == multiset{V(2 * n + lat, Next(face), 0)}
  {
    SouthTriangleIsFirst(n, lat, face, 0);
    PathHitC(V(2 * n + lat, face, 0), Wrap(2 * n + lat, face, 1, n - lat), SouthV(n, lat + 1, face, 0), SouthPoleV(n));
  }

  // The cells of one face.

  /** What face `face` of ring lat gives `x`, read off its cells. */
  lemma {:induction false} SouthFaceIs(n: int, lat: int, face: int, x: Vertex, m: multiset<Vertex>)
    requires Neighbours(Concat(0, n - lat, SouthTriangleBodyV(n, lat, face)), x) == m
    ensures Neighbours(SouthFaceBodyV(n, lat)(face), x) == m
  {
  }

  lemma {:induction false} SouthFaceAvoids(n: int, lat: int, face: int, x: Vertex)
    requires Avoids(Concat(0, n - lat, SouthTriangleBodyV(n, lat, face)), x)
    ensures Avoids(SouthFaceBodyV(n, lat)(face), x)
  {
  }

  lemma {:induction false} SouthTrianglesSameQuiet(n: int, lat: int, F: int, D: int)
    requires 0 <= lat && 0 <= F < 5 && 0 <= D < n - lat
    ensures forall k :: 0 <= k < n - lat && k != D && k != D - 1 ==>
      Avoids(SouthTriangleBodyV(n, lat, F)(k), V(2 * n + lat, F, D))
  {
    forall k | 0 <= k < n - lat && k != D && k != D - 1
      ensures Avoids(SouthTriangleBodyV(n, lat, F)(k), V(2 * n + lat, F, D))
    {
      SouthTriangleOwnMiss(n, lat, F, k, F, D);
    }
  }

  /** Face F gives its first vertex of row 2n + lat only the next vertex of the row. */
  lemma {:induction false} SouthFaceOwnFirst(n: int, lat: int, F: int, D: int, L: int, x: Vertex, m: multiset<Vertex>)
    requires 0 <= lat < n && 0 <= F < 5 && D == 0 && L == n - lat
    requires x == V(2 * n + lat, F, D) && m == multiset{Wrap(2 * n + lat, F, D + 1, n - lat)}
    ensures Neighbours(Concat(0, L, SouthTriangleBodyV(n, lat, F)), x) == m
  {
    SouthTrianglesSameQuiet(n, lat, F, D);
    SouthTriangleOwnFirst(n, lat, F, D);
    ConcatNeighboursOne(0, L, SouthTriangleBodyV(n, lat, F), x, D);
  }

  /**
   * Face F gives any other vertex (F, D) of row 2n + lat the other corners of the cells right and
   * left of it. The face length is the parameter L, which keeps the solver from unfolding the cells.
   */
  lemma {:induction false} SouthFaceOwnInner(n: int, lat: int, F: int, D: int, L: int)
    requires 0 <= lat && 0 <= F < 5 && 1 <= D < L && L == n - lat
    ensures Neighbours(Concat(0, L, SouthTriangleBodyV(n, lat, F)), V(2 * n + lat, F, D)) ==
      multiset{Wrap(2 * n + lat, F, D + 1, n - lat), SouthV(n, lat + 1, F, D)} +
      multiset{V(2 * n + lat, F, D - 1), SouthV(n, lat + 1, F, D - 1)}
  {
    SouthTrianglesSameQuiet(n, lat, F, D);
    SouthTriangleOwnA(n, lat, F, D);
    SouthTriangleOwnLeft(n, lat, F, D);
    ConcatNeighboursPair(0, L, SouthTriangleBodyV(n, lat, F), V(2 * n + lat, F, D), D, D - 1,
      multiset{Wrap(2 * n + lat, F, D + 1, n - lat), SouthV(n, lat + 1, F, D)},
      multiset{V(2 * n + lat, F, D - 1), SouthV(n, lat + 1, F, D - 1)});
  }

  lemma {:induction false} SouthTrianglesPrevQuiet(n: int, lat: int, F: int)
    requires 0 <= lat < n && 0 <= F < 5
    ensures forall k :: 0 <= k < n - lat && k != n - lat - 1 ==>
      Avoids(SouthTriangleBodyV(n, lat, Prev(F))(k), V(2 * n + lat, F, 0))
  {
    forall k | 0 <= k < n - lat && k != n - lat - 1
      ensures Avoids(SouthTriangleBodyV(n, lat, Prev(F))(k), V(2 * n + lat, F, 0))
    {
      SouthTriangleOwnMiss(n, lat, Prev(F), k, F, 0);
    }
  }

  /** The last cell of the face before F gives vertex (F, 0) of row 2n + lat two neighbours. */
  lemma {:induction false} SouthFaceOwnPrevAt(n: int, lat: int, F: int, L: int, K: int, x: Vertex, m: multiset<Vertex>)
    requires 0 <= lat < n && 0 <= F < 5 && L == n - lat && K == L - 1 && x == V(2 * n + lat, F, 0)
    requires m == multiset{V(2 * n + lat, Prev(F), n - lat - 1), SouthV(n, lat + 1, Prev(F), n - lat - 1)}
    ensures Neighbours(Concat(0, L, SouthTriangleBodyV(n, lat, Prev(F))), x) == m
  {
    SouthTrianglesPrevQuiet(n, lat, F);
    SouthTriangleOwnPrev(n, lat, F);
    ConcatNeighboursSingle(0, L, SouthTriangleBodyV(n, lat, Prev(F)), x, K, m);
  }

  lemma {:induction false} SouthFaceOwnMiss(n: int, lat: int, face: int, F: int, D: int)
    requires 0 <= lat && 0 <= face < 5 && 0 <= F < 5 && 0 <= D < n - lat
    requires face != F && !(D == 0 && face == Prev(F))
    ensures Avoids(Concat(0, n - lat, SouthTriangleBodyV(n, lat, face)), V(2 * n + lat, F, D))
  {
    forall k | 0 <= k < n - lat
      ensures Avoids(SouthTriangleBodyV(n, lat, face)(k), V(2 * n + lat, F, D))
    {
      SouthTriangleOwnMiss(n, lat, face, k, F, D);
    }
    ConcatAvoids(0, n - lat, SouthTriangleBodyV(n, lat, face), V(2 * n + lat, F, D));
  }

  lemma {:induction false} SouthTrianglesUpQuiet(n: int, lat: int, face: int, F: int, E: int)
    requires 0 <= lat && lat + 1 < n && 0 <= face < 5 && 0 <= F < 5 && 0 <= E < n - lat - 1
    ensures forall k :: 0 <= k < n - lat && !(face == F && k == E) && !(E == 0 && face == Prev(F) && k == n - lat - 1) ==>
      Avoids(SouthTriangleBodyV(n, lat, face)(k), V(2 * n + lat + 1, F, E))
  {
    forall k | 0 <= k < n - lat && !(face == F && k == E) && !(E == 0 && face == Prev(F) && k == n - lat - 1)
      ensures Avoids(SouthTriangleBodyV(n, lat, face)(k), V(2 * n + lat + 1, F, E))
    {
      SouthTriangleUpMiss(n, lat, face, k, F, E);
    }
  }

  lemma {:induction false} SouthFaceUpFirst(n: int, lat: int, F: int, E: int)
    requires 0 <= lat && lat + 1 < n && 0 <= F < 5 && E == 0
    ensures Neighbours(Concat(0, n - lat, SouthTriangleBodyV(n, lat, F)), V(2 * n + lat + 1, F, E)) == multiset{Wrap(2 * n + lat, F, E + 1, n - lat)}
  {
    SouthTrianglesUpQuiet(n, lat, F, F, E);
    SouthTriangleUpFirst(n, lat, F, E);
    ConcatNeighboursSingle(0, n - lat, SouthTriangleBodyV(n, lat, F), V(2 * n + lat + 1, F, E), E, multiset{Wrap(2 * n + lat, F, E + 1, n - lat)});
  }

  lemma {:induction false} SouthTrianglesUpInnerQuiet(n: int, lat: int, F: int, E: int, L: int, x: Vertex)
    requires 0 <= lat && 0 <= F < 5 && 1 <= E < n - lat - 1 && L == n - lat && x == V(2 * n + lat + 1, F, E)
    ensures forall k :: 0 <= k < L && k != E ==> Avoids(SouthTriangleBodyV(n, lat, F)(k), x)
  {
    SouthTrianglesUpQuiet(n, lat, F, F, E);
  }

  lemma {:induction false} SouthFaceUpInnerAt(n: int, lat: int, F: int, E: int, L: int, x: Vertex, m: multiset<Vertex>)
    requires 0 <= lat && 0 <= F < 5 && 1 <= E < n - lat - 1 && L == n - lat && x == V(2 * n + lat + 1, F, E)
    requires m == multiset{V(2 * n + lat, F, E), Wrap(2 * n + lat, F, E + 1, n - lat)}
    ensures Neighbours(Concat(0, L, SouthTriangleBodyV(n, lat, F)), x) == m
  {
    SouthTrianglesUpInnerQuiet(n, lat, F, E, L, x);
    SouthTriangleUpInner(n, lat, F, E);
    ConcatNeighboursSingle(0, L, SouthTriangleBodyV(n, lat, F), x, E, m);
  }

  /** The last cell of the face before F gives the first vertex of face F below the ring two neighbours (L as in SouthFaceOwnInner). */
  lemma {:induction false} SouthFaceUpPrev(n: int, lat: int, F: int, L: int)
    requires 0 <= lat && lat + 1 < n && 0 <= F < 5 && L == n - lat
    ensures Neighbours(Concat(0, L, SouthTriangleBodyV(n, lat, Prev(F))), V(2 * n + lat + 1, F, 0)) ==
      multiset{V(2 * n + lat, Prev(F), n - lat - 1), V(2 * n + lat, F, 0)}
  {
    SouthTrianglesUpQuiet(n, lat, Prev(F), F, 0);
    SouthTriangleUpPrev(n, lat, F);
    ConcatNeighboursOne(0, L, SouthTriangleBodyV(n, lat, Prev(F)), V(2 * n + lat + 1, F, 0), L - 1);
  }

  lemma {:induction false} SouthFaceUpMiss(n: int, lat: int, face: int, F: int, E: int)
    requires 0 <= lat && lat + 1 < n && 0 <= face < 5 && 0 <= F < 5 && 0 <= E < n - lat - 1
    requires face != F && !(E == 0 && face == Prev(F))
    ensures Avoids(Concat(0, n - lat, SouthTriangleBodyV(n, lat, face)), V(2 * n + lat + 1, F, E))
  {
    SouthTrianglesUpQuiet(n, lat, face, F, E);
    ConcatAvoids(0, n - lat, SouthTriangleBodyV(n, lat, face), V(2 * n + lat + 1, F, E));
  }

  lemma {:induction false} SouthFacePole(n: int, lat: int, face: int)
    requires 0 <= lat && lat + 1 == n && 0 <= face < 5
    ensures Neighbours(Concat(0, n - lat, SouthTriangleBodyV(n, lat, face)), SouthPoleV(n)) == multiset{V(2 * n + lat, Next(face), 0)}
  {
    SouthTrianglePole(n, lat, face);
    ConcatNeighboursOne(0, n - lat, SouthTriangleBodyV(n, lat, face), SouthPoleV(n), 0);
  }

  // Whole rings.

  /**
   * The neighbours ring `lat` gives vertex (F, D) of row 2n + lat: the next vertex of the row
   * and, unless D == 0, the vertex below; then the other corners of the cell left of it, which
   * for D == 0 is the last cell of the face before.
   */
  function SouthOwn(n: int, lat: int, F: int, D: int): seq<Vertex>
  {
    if D == 0 then [Wrap(2 * n + lat, F, D + 1, n - lat), V(2 * n + lat, Prev(F), n - lat - 1), SouthV(n, lat + 1, Prev(F), n - lat - 1)]
    else [Wrap(2 * n + lat, F, D + 1, n - lat), SouthV(n, lat + 1, F, D), V(2 * n + lat, F, D - 1), SouthV(n, lat + 1, F, D - 1)]
  }

  lemma SouthOwnFirstIs(n: int, lat: int, F: int, D: int)
    requires D == 0
    ensures multiset(SouthOwn(n, lat, F, D)) ==
      multiset{Wrap(2 * n + lat, F, D + 1, n - lat)} +
      multiset{V(2 * n + lat, Prev(F), n - lat - 1), SouthV(n, lat + 1, Prev(F), n - lat - 1)}
  {
  }

  lemma SouthOwnInnerIs(n: int, lat: int, F: int, D: int)
    requires D != 0
    ensures multiset(SouthOwn(n, lat, F, D)) ==
      multiset{Wrap(2 * n + lat, F, D + 1, n - lat), SouthV(n, lat + 1, F, D)} +
      multiset{V(2 * n + lat, F, D - 1), SouthV(n, lat + 1, F, D - 1)}
  {
  }

  /**
   * The neighbours ring `lat` gives vertex (F, E) of row 2n + lat + 1: the upper corners of
   * the cell above it, and for E == 0 also the upper corners of the last cell of the face before.
   */
  function SouthUp(n: int, lat: int, F: int, E: int): seq<Vertex>
  {
    if E == 0 then [Wrap(2 * n + lat, F, E + 1, n - lat), V(2 * n + lat, Prev(F), n - lat - 1), V(2 * n + lat, F, 0)]
    else [V(2 * n + lat, F, E), Wrap(2 * n + lat, F, E + 1, n - lat)]
  }

  lemma SouthUpFirstIs(n: int, lat: int, F: int, E: int)
    requires E == 0
    ensures multiset(SouthUp(n, lat, F, E)) ==
      multiset{Wrap(2 * n + lat, F, E + 1, n - lat)} + multiset{V(2 * n + lat, Prev(F), n - lat - 1), V(2 * n + lat, F, 0)}
  {
  }

  lemma SouthUpInnerIs(n: int, lat: int, F: int, E: int)
    requires E != 0
    ensures multiset(SouthUp(n, lat, F, E)) == multiset{V(2 * n + lat, F, E), Wrap(2 * n + lat, F, E + 1, n - lat)}
  {
  }

  /** The south pole's neighbours: the first vertex of every face of the row above it. */
  function SouthPoleOwn(n: int): seq<Vertex>
  {
    [V(3 * n - 1, 1, 0), V(3 * n - 1, 2, 0), V(3 * n - 1, 3, 0), V(3 * n - 1, 4, 0), V(3 * n - 1, 0, 0)]
  }

  lemma {:induction false} SouthRingOwnQuiet(n: int, lat: int, F: int, D: int, G: int)
    requires 0 <= lat && 0 <= F < 5 && 0 <= D < n - lat && G == (if D == 0 then Prev(F) else -1)
    ensures forall face :: 0 <= face < 5 && face != F && face != G ==>
      Avoids(SouthFaceBodyV(n, lat)(face), V(2 * n + lat, F, D))
  {
    forall face | 0 <= face < 5 && face != F && face != G
      ensures Avoids(SouthFaceBodyV(n, lat)(face), V(2 * n + lat, F, D))
    {
      SouthFaceOwnMiss(n, lat, face, F, D);
      SouthFaceAvoids(n, lat, face, V(2 * n + lat, F, D));
    }
  }

  lemma {:induction false} SouthFaceOwnFirstAt(n: int, lat: int, F: int, D: int, x: Vertex)
    requires 0 <= lat < n && 0 <= F < 5 && D == 0 && x == V(2 * n + lat, F, D)
    ensures Neighbours(SouthFaceBodyV(n, lat)(F), x) == multiset{Wrap(2 * n + lat, F, D + 1, n - lat)}
  {
    SouthFaceOwnFirst(n, lat, F, D, n - lat, x, multiset{Wrap(2 * n + lat, F, D + 1, n - lat)});
    SouthFaceIs(n, lat, F, x, multiset{Wrap(2 * n + lat, F, D + 1, n - lat)});
  }

  lemma {:induction false} SouthFaceOwnPrevIs(n: int, lat: int, F: int, x: Vertex, m: multiset<Vertex>)
    requires 0 <= lat < n && 0 <= F < 5 && x == V(2 * n + lat, F, 0)
    requires m == multiset{V(2 * n + lat, Prev(F), n - lat - 1), SouthV(n, lat + 1, Prev(F), n - lat - 1)}
    ensures Neighbours(SouthFaceBodyV(n, lat)(Prev(F)), x) == m
  {
    SouthFaceOwnPrevAt(n, lat, F, n - lat, n - lat - 1, x, m);
    SouthFaceIs(n, lat, Prev(F), x, m);
  }

  lemma {:induction false} SouthRingOwnFirst(n: int, lat: int, F: int, D: int)
    requires 0 <= lat < n && 0 <= F < 5 && D == 0
    ensures Neighbours(SouthRingV(n, lat), V(2 * n + lat, F, D)) ==
      multiset{Wrap(2 * n + lat, F, D + 1, n - lat)} +
      multiset{V(2 * n + lat, Prev(F), n - lat - 1), SouthV(n, lat + 1, Prev(F), n - lat - 1)}
  {
    SouthRingOwnQuiet(n, lat, F, D, Prev(F));
    SouthFaceOwnFirstAt(n, lat, F, D, V(2 * n + lat, F, D));
    SouthFaceOwnPrevIs(n, lat, F, V(2 * n + lat, F, D),
      multiset{V(2 * n + lat, Prev(F), n - lat - 1), SouthV(n, lat + 1, Prev(F), n - lat - 1)});
    ConcatNeighboursPair(0, 5, SouthFaceBodyV(n, lat), V(2 * n + lat, F, D), F, Prev(F),
      multiset{Wrap(2 * n + lat, F, D + 1, n - lat)},
      multiset{V(2 * n + lat, Prev(F), n - lat - 1), SouthV(n, lat + 1, Prev(F), n - lat - 1)});
  }

  lemma {:induction false} SouthRingOwnInner(n: int, lat: int, F: int, D: int)
    requires 0 <= lat && 0 <= F < 5 && 1 <= D < n - lat
    ensures Neighbours(SouthRingV(n, lat), V(2 * n + lat, F, D)) ==
      multiset{Wrap(2 * n + lat, F, D + 1, n - lat), SouthV(n, lat + 1, F, D)} +
      multiset{V(2 * n + lat, F, D - 1), SouthV(n, lat + 1, F, D - 1)}
  {
    SouthRingOwnQuiet(n, lat, F, D, -1);
    SouthFaceOwnInner(n, lat, F, D, n - lat);
    SouthFaceIs(n, lat, F, V(2 * n + lat, F, D),
      multiset{Wrap(2 * n + lat, F, D + 1, n - lat), SouthV(n, lat + 1, F, D)} +
      multiset{V(2 * n + lat, F, D - 1), SouthV(n, lat + 1, F, D - 1)});
    ConcatNeighboursOne(0, 5, SouthFaceBodyV(n, lat), V(2 * n + lat, F, D), F);
  }

  lemma {:induction false} SouthRingOwn(n: int, lat: int, F: int, D: int)
    requires 0 <= lat < n && 0 <= F < 5 && 0 <= D < n - lat
    ensures Neighbours(SouthRingV(n, lat), V(2 * n + lat, F, D)) == multiset(SouthOwn(n, lat, F, D))
  {
    if D == 0 {
      SouthRingOwnFirst(n, lat, F, D);
      SouthOwnFirstIs(n, lat, F, D);
    } else {
      SouthRingOwnInner(n, lat, F, D);
      SouthOwnInnerIs(n, lat, F, D);
    }
  }

  lemma {:induction false} SouthRingUpQuiet(n: int, lat: int, F: int, E: int, G: int)
    requires 0 <= lat && lat + 1 < n && 0 <= F < 5 && 0 <= E < n - lat - 1 && G == (if E == 0 then Prev(F) else -1)
    ensures forall face :: 0 <= face < 5 && face != F && face != G ==>
      Avoids(SouthFaceBodyV(n, lat)(face), V(2 * n + lat + 1, F, E))
  {
    forall face | 0 <= face < 5 && face != F && face != G
      ensures Avoids(SouthFaceBodyV(n, lat)(face), V(2 * n + lat + 1, F, E))
    {
      SouthFaceUpMiss(n, lat, face, F, E);
      SouthFaceAvoids(n, lat, face, V(2 * n + lat + 1, F, E));
    }
  }

  lemma {:induction false} SouthFaceUpFirstAt(n: int, lat: int, F: int, E: int, x: Vertex)
    requires 0 <= lat && lat + 1 < n && 0 <= F < 5 && E == 0 && x == V(2 * n + lat + 1, F, E)
    ensures Neighbours(SouthFaceBodyV(n, lat)(F), x) == multiset{Wrap(2 * n + lat, F, E + 1, n - lat)}
  {
    SouthFaceUpFirst(n, lat, F, E);
    SouthFaceIs(n, lat, F, x, multiset{Wrap(2 * n + lat, F, E + 1, n - lat)});
  }

  lemma {:induction false} SouthFaceUpPrevAt(n: int, lat: int, F: int, x: Vertex)
    requires 0 <= lat && lat + 1 < n && 0 <= F < 5 && x == V(2 * n + lat + 1, F, 0)
    ensures Neighbours(SouthFaceBodyV(n, lat)(Prev(F)), x) == multiset{V(2 * n + lat, Prev(F), n - lat - 1), V(2 * n + lat, F, 0)}
  {
    SouthFaceUpPrev(n, lat, F, n - lat);
    SouthFaceIs(n, lat, Prev(F), x, multiset{V(2 * n + lat, Prev(F), n - lat - 1), V(2 * n + lat, F, 0)});
  }

  lemma {:induction false} SouthRingUpFirstAt(n: int, lat: int, F: int, E: int, x: Vertex)
    requires 0 <= lat && lat + 1 < n && 0 <= F < 5 && E == 0
    requires x == V(2 * n + lat + 1, F, E) && x == V(2 * n + lat + 1, F, 0)
    ensures Neighbours(SouthRingV(n, lat), x) ==
      multiset{Wrap(2 * n + lat, F, E + 1, n - lat)} + multiset{V(2 * n + lat, Prev(F), n - lat - 1), V(2 * n + lat, F, 0)}
  {
    SouthRingUpQuiet(n, lat, F, E, Prev(F));
    SouthFaceUpFirstAt(n, lat, F, E, x);
    SouthFaceUpPrevAt(n, lat, F, x);
    ConcatNeighboursPair(0, 5, SouthFaceBodyV(n, lat), x, F, Prev(F),
      multiset{Wrap(2 * n + lat, F, E + 1, n - lat)}, multiset{V(2 * n + lat, Prev(F), n - lat - 1), V(2 * n + lat, F, 0)});
  }

  lemma {:induction false} SouthRingUpFirst(n: int, lat: int, F: int, E: int)
    requires 0 <= lat && lat + 1 < n && 0 <= F < 5 && E == 0
    ensures Neighbours(SouthRingV(n, lat), V(2 * n + lat + 1, F, E)) ==
      multiset{Wrap(2 * n + lat, F, E + 1, n - lat)} + multiset{V(2 * n + lat, Prev(F), n - lat - 1), V(2 * n + lat, F, 0)}
  {
    SouthRingUpFirstAt(n, lat, F, E, V(2 * n + lat + 1, F, E));
  }

  lemma {:induction false} SouthFaceUpInnerIs(n: int, lat: int, F: int, E: int, x: Vertex, m: multiset<Vertex>)
    requires 0 <= lat && 0 <= F < 5 && 1 <= E < n - lat - 1 && x == V(2 * n + lat + 1, F, E)
    requires m == multiset{V(2 * n + lat, F, E), Wrap(2 * n + lat, F, E + 1, n - lat)}
    ensures Neighbours(SouthFaceBodyV(n, lat)(F), x) == m
  {
    SouthFaceUpInnerAt(n, lat, F, E, n - lat, x, m);
    SouthFaceIs(n, lat, F, x, m);
  }

  lemma {:induction false} SouthRingUpInner(n: int, lat: int, F: int, E: int)
    requires 0 <= lat && 0 <= F < 5 && 1 <= E < n - lat - 1
    ensures Neighbours(SouthRingV(n, lat), V(2 * n + lat + 1, F, E)) ==
      multiset{V(2 * n + lat, F, E), Wrap(2 * n + lat, F, E + 1, n - lat)}
  {
    SouthRingUpQuiet(n, lat, F, E, -1);
    SouthFaceUpInnerIs(n, lat, F, E, V(2 * n + lat + 1, F, E), multiset{V(2 * n + lat, F, E), Wrap(2 * n + lat, F, E + 1, n - lat)});
    ConcatNeighboursSingle(0, 5, SouthFaceBodyV(n, lat), V(2 * n + lat + 1, F, E), F,
      multiset{V(2 * n + lat, F, E), Wrap(2 * n + lat, F, E + 1, n - lat)});
  }

  lemma {:induction false} SouthRingUp(n: int, lat: int, F: int, E: int)
    requires 0 <= lat && lat + 1 < n && 0 <= F < 5 && 0 <= E < n - lat - 1
    ensures Neighbours(SouthRingV(n, lat), V(2 * n + lat + 1, F, E)) == multiset(SouthUp(n, lat, F, E))
  {
    if E == 0 {
      SouthRingUpFirst(n, lat, F, E);
      SouthUpFirstIs(n, lat, F, E);
    } else {
      SouthRingUpInner(n, lat, F, E);
      SouthUpInnerIs(n, lat, F, E);
    }
  }

  lemma {:induction false} SouthPoleOwnIs(n: int, lat: int)
    requires lat + 1 == n
    ensures multiset{V(2 * n + lat, Next(0), 0)} + multiset{V(2 * n + lat, Next(1), 0)} + multiset{V(2 * n + lat, Next(2), 0)} +
      multiset{V(2 * n + lat, Next(3), 0)} + multiset{V(2 * n + lat, Next(4), 0)} == multiset(SouthPoleOwn(n))
  {
    assert 2 * n + lat == 3 * n - 1;
  }

  /** The last ring gives the south pole the first vertex of every face of the row above it. */
  lemma {:induction false} SouthRingPole(n: int, lat: int)
    requires 0 <= lat && lat + 1 == n
    ensures Neighbours(SouthRingV(n, lat), SouthPoleV(n)) == multiset(SouthPoleOwn(n))
  {
    SouthFacePole(n, lat, 0);
    SouthFaceIs(n, lat, 0, SouthPoleV(n), multiset{V(2 * n + lat, Next(0), 0)});
    SouthFacePole(n, lat, 1);
    SouthFaceIs(n, lat, 1, SouthPoleV(n), multiset{V(2 * n + lat, Next(1), 0)});
    SouthFacePole(n, lat, 2);
    SouthFaceIs(n, lat, 2, SouthPoleV(n), multiset{V(2 * n + lat, Next(2), 0)});
    SouthFacePole(n, lat, 3);
    SouthFaceIs(n, lat, 3, SouthPoleV(n), multiset{V(2 * n + lat, Next(3), 0)});
    SouthFacePole(n, lat, 4);
    SouthFaceIs(n, lat, 4, SouthPoleV(n), multiset{V(2 * n + lat, Next(4), 0)});
    ConcatNeighboursFive(SouthFaceBodyV(n, lat), SouthPoleV(n),
      multiset{V(2 * n + lat, Next(0), 0)}, multiset{V(2 * n + lat, Next(1), 0)}, multiset{V(2 * n + lat, Next(2), 0)},
      multiset{V(2 * n + lat, Next(3), 0)}, multiset{V(2 * n + lat, Next(4), 0)});
    SouthPoleOwnIs(n, lat);
  }
}
