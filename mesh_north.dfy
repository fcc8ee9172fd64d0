/**
 * Which neighbours the north-cap loop of IcoLattice.Edges gives each vertex. Ring `lat`
 * joins row lat to row lat + 1; it gives a vertex of row lat its "own" neighbours (on rows
 * lat and lat + 1) and a vertex of row lat + 1 its "up" neighbours (on row lat).
 */
module IcoNorthMesh {
  import opened IcoEdges
  import opened IcoVertices
  import opened IcoNamedEdges

  lemma {:induction false} NorthTriangleIs(lat: int, face: int, k: int)
    requires 1 <= lat && 0 <= k < lat
    ensures NorthTriangleBodyV(lat, face)(k) == Triangle(V(lat, face, k), Wrap(lat, face, k + 1, lat), V(lat + 1, face, k + 1))
  {
  }

  // Triangle `k` of face `face` of ring `lat`, seen from a vertex of row lat or lat + 1.

  lemma {:induction false} NorthTriangleOwnA(lat: int, F: int, D: int)
    requires 1 <= lat && 0 <= F < 5 && 0 <= D < lat
    ensures Neighbours(NorthTriangleBodyV(lat, F)(D), V(lat, F, D)) == multiset{Wrap(lat, F, D + 1, lat), V(lat + 1, F, D + 1)}
  {
    NorthTriangleIs(lat, F, D);
    TriangleHitA(V(lat, F, D), Wrap(lat, F, D + 1, lat), V(lat + 1, F, D + 1), V(lat, F, D));
  }

  lemma {:induction false} NorthTriangleOwnB(lat: int, face: int, k: int, F: int, D: int)
    requires 1 <= lat && 0 <= face < 5 && 0 <= k < lat && 0 <= F < 5 && 0 <= D < lat
    requires Wrap(lat, face, k + 1, lat) == V(lat, F, D)
    ensures Neighbours(NorthTriangleBodyV(lat, face)(k), V(lat, F, D)) == multiset{V(lat, face, k), V(lat + 1, face, k + 1)}
  {
    NorthTriangleIs(lat, face, k);
    TriangleHitB(V(lat, face, k), Wrap(lat, face, k + 1, lat), V(lat + 1, face, k + 1), V(lat, F, D));
  }

  lemma {:induction false} NorthTriangleOwnMiss(lat: int, face: int, k: int, F: int, D: int)
    requires 1 <= lat && 0 <= face < 5 && 0 <= k < lat && 0 <= F < 5 && 0 <= D < lat
    requires !(face == F && k == D) && Wrap(lat, face, k + 1, lat) != V(lat, F, D)
    ensures Avoids(NorthTriangleBodyV(lat, face)(k), V(lat, F, D))
  {
    NorthTriangleIs(lat, face, k);
    TriangleMiss(V(lat, face, k), Wrap(lat, face, k + 1, lat), V(lat + 1, face, k + 1), V(lat, F, D));
  }

  lemma {:induction false} NorthTriangleUpC(lat: int, F: int, E: int)
    requires 1 <= lat && 0 <= F < 5 && 1 <= E <= lat
    ensures Neighbours(NorthTriangleBodyV(lat, F)(E - 1), V(lat + 1, F, E)) == multiset{V(lat, F, E - 1), Wrap(lat, F, E, lat)}
  {
    NorthTriangleIs(lat, F, E - 1);
    TriangleHitC(V(lat, F, E - 1), Wrap(lat, F, E, lat), V(lat + 1, F, E), V(lat + 1, F, E));
  }

  lemma {:induction false} NorthTriangleUpMiss(lat: int, face: int, k: int, F: int, E: int)
    requires 1 <= lat && 0 <= face < 5 && 0 <= k < lat && 0 <= F < 5 && 0 <= E <= lat
    requires !(face == F && k == E - 1)
    ensures Avoids(NorthTriangleBodyV(lat, face)(k), V(lat + 1, F, E))
  {
    NorthTriangleIs(lat, face, k);
    TriangleMiss(V(lat, face, k), Wrap(lat, face, k + 1, lat), V(lat + 1, face, k + 1), V(lat + 1, F, E));
  }

  // The triangles of one face.

  lemma {:induction false} NorthTrianglesSameQuiet(lat: int, F: int, D: int)
    requires 1 <= lat && 0 <= F < 5 && 0 <= D < lat
    ensures forall k :: 0 <= k < lat && k != D && k != D - 1 ==>
      Avoids(NorthTriangleBodyV(lat, F)(k), V(lat, F, D))
  {
    forall k | 0 <= k < lat && k != D && k != D - 1
      ensures Avoids(NorthTriangleBodyV(lat, F)(k), V(lat, F, D))
    {
      NorthTriangleOwnMiss(lat, F, k, F, D);
    }
  }

  /** Face F gives vertex (F, 0) of row lat the other corners of the triangle right of it. */
  lemma {:induction false} NorthTrianglesOwnFirst(lat: int, F: int, D: int)
    requires 1 <= lat && 0 <= F < 5 && D == 0
    ensures Neighbours(NorthTrianglesV(lat, F, lat), V(lat, F, D)) == multiset{Wrap(lat, F, D + 1, lat), V(lat + 1, F, D + 1)}
  {
    NorthTrianglesSameQuiet(lat, F, D);
    NorthTriangleOwnA(lat, F, D);
    ConcatNeighboursOne(0, lat, NorthTriangleBodyV(lat, F), V(lat, F, D), D);
  }

  lemma {:induction false} NorthTriangleOwnLeft(lat: int, F: int, D: int)
    requires 0 <= F < 5 && 1 <= D < lat
    ensures Neighbours(NorthTriangleBodyV(lat, F)(D - 1), V(lat, F, D)) == multiset{V(lat, F, D - 1), V(lat + 1, F, D)}
  {
    NorthTriangleIs(lat, F, D - 1);
    TriangleHitB(V(lat, F, D - 1), Wrap(lat, F, D, lat), V(lat + 1, F, D), V(lat, F, D));
  }

  /** Face F gives any other vertex (F, D) of row lat the other corners of the triangles right and left of it. */
  lemma {:induction false} NorthTrianglesOwnInner(lat: int, F: int, D: int)
    requires 0 <= F < 5 && 1 <= D < lat
    ensures Neighbours(NorthTrianglesV(lat, F, lat), V(lat, F, D)) ==
      multiset{Wrap(lat, F, D + 1, lat), V(lat + 1, F, D + 1)} + multiset{V(lat, F, D - 1), V(lat + 1, F, D)}
  {
    NorthTrianglesSameQuiet(lat, F, D);
    NorthTriangleOwnA(lat, F, D);
    NorthTriangleOwnLeft(lat, F, D);
    ConcatNeighboursTwo(0, lat, NorthTriangleBodyV(lat, F), V(lat, F, D), D, D - 1);
  }

  lemma {:induction false} NorthTrianglesPrevQuiet(lat: int, F: int)
    requires 1 <= lat && 0 <= F < 5
    ensures forall k :: 0 <= k < lat && k != lat - 1 ==>
      Avoids(NorthTriangleBodyV(lat, Prev(F))(k), V(lat, F, 0))
  {
    forall k | 0 <= k < lat && k != lat - 1
      ensures Avoids(NorthTriangleBodyV(lat, Prev(F))(k), V(lat, F, 0))
    {
      NorthTriangleOwnMiss(lat, Prev(F), k, F, 0);
    }
  }

  /** The last triangle of the face before F gives vertex (F, 0) of row lat two neighbours. */
  lemma {:induction false} NorthTrianglesOwnPrev(lat: int, F: int)
    requires 1 <= lat && 0 <= F < 5
    ensures Neighbours(NorthTrianglesV(lat, Prev(F), lat), V(lat, F, 0)) ==
      multiset{V(lat, Prev(F), lat - 1), V(lat + 1, Prev(F), lat)}
  {
    NorthTrianglesPrevQuiet(lat, F);
    NorthTriangleOwnB(lat, Prev(F), lat - 1, F, 0);
    assert V(lat + 1, Prev(F), lat - 1 + 1) == V(lat + 1, Prev(F), lat);
    ConcatNeighboursOne(0, lat, NorthTriangleBodyV(lat, Prev(F)), V(lat, F, 0), lat - 1);
  }

  lemma {:induction false} NorthTrianglesOwnMiss(lat: int, face: int, F: int, D: int)
    requires 1 <= lat && 0 <= face < 5 && 0 <= F < 5 && 0 <= D < lat
    requires face != F && !(D == 0 && face == Prev(F))
    ensures Avoids(NorthTrianglesV(lat, face, lat), V(lat, F, D))
  {
    forall k | 0 <= k < lat
      ensures Avoids(NorthTriangleBodyV(lat, face)(k), V(lat, F, D))
    {
      NorthTriangleOwnMiss(lat, face, k, F, D);
    }
    ConcatAvoids(0, lat, NorthTriangleBodyV(lat, face), V(lat, F, D));
  }

  lemma {:induction false} NorthTrianglesUpQuiet(lat: int, face: int, F: int, E: int)
    requires 1 <= lat && 0 <= face < 5 && 0 <= F < 5 && 0 <= E <= lat
    ensures forall k :: 0 <= k < lat && !(face == F && k == E - 1) ==>
      Avoids(NorthTriangleBodyV(lat, face)(k), V(lat + 1, F, E))
  {
    forall k | 0 <= k < lat && !(face == F && k == E - 1)
      ensures Avoids(NorthTriangleBodyV(lat, face)(k), V(lat + 1, F, E))
    {
      NorthTriangleUpMiss(lat, face, k, F, E);
    }
  }

  lemma {:induction false} NorthTrianglesUpHit(lat: int, F: int, E: int)
    requires 0 <= F < 5 && 1 <= E <= lat
    ensures Neighbours(NorthTrianglesV(lat, F, lat), V(lat + 1, F, E)) == multiset{V(lat, F, E - 1), Wrap(lat, F, E, lat)}
  {
    NorthTrianglesUpQuiet(lat, F, F, E);
    NorthTriangleUpC(lat, F, E);
    ConcatNeighboursOne(0, lat, NorthTriangleBodyV(lat, F), V(lat + 1, F, E), E - 1);
  }

  lemma {:induction false} NorthTrianglesUpMiss(lat: int, face: int, F: int, E: int)
    requires 0 <= lat && 0 <= face < 5 && 0 <= F < 5 && 0 <= E <= lat && (face != F || E == 0)
    ensures Avoids(NorthTrianglesV(lat, face, lat), V(lat + 1, F, E))
  {
    if lat > 0 {
      NorthTrianglesUpQuiet(lat, face, F, E);
    }
    ConcatAvoids(0, lat, NorthTriangleBodyV(lat, face), V(lat + 1, F, E));
  }

  // Whole faces: the spoke, then the triangles.

  lemma {:induction false} NorthSpokeIs(lat: int, face: int)
    requires 1 <= lat
    ensures NorthSpokeV(lat, face) == (V(lat, face, 0), V(lat + 1, face, 0))
  {
  }

  lemma {:induction false} NorthFaceOwnFirst(lat: int, F: int, D: int)
    requires 1 <= lat && 0 <= F < 5 && D == 0
    ensures Neighbours(NorthFaceBodyV(lat)(F), V(lat, F, D)) ==
      multiset{V(lat + 1, F, 0)} + multiset{Wrap(lat, F, D + 1, lat), V(lat + 1, F, D + 1)}
  {
    NeighboursAppend([NorthSpokeV(lat, F)], NorthTrianglesV(lat, F, lat), V(lat, F, D));
    NorthSpokeIs(lat, F);
    EdgeHitA(V(lat, F, 0), V(lat + 1, F, 0), V(lat, F, D));
    NorthTrianglesOwnFirst(lat, F, D);
  }

  lemma {:induction false} NorthFaceOwnInner(lat: int, F: int, D: int)
    requires 0 <= F < 5 && 1 <= D < lat
    ensures Neighbours(NorthFaceBodyV(lat)(F), V(lat, F, D)) ==
      multiset{Wrap(lat, F, D + 1, lat), V(lat + 1, F, D + 1)} + multiset{V(lat, F, D - 1), V(lat + 1, F, D)}
  {
    NeighboursAppend([NorthSpokeV(lat, F)], NorthTrianglesV(lat, F, lat), V(lat, F, D));
    NorthSpokeIs(lat, F);
    EdgeMiss(V(lat, F, 0), V(lat + 1, F, 0), V(lat, F, D));
    AvoidsNeighbours([NorthSpokeV(lat, F)], V(lat, F, D));
    NorthTrianglesOwnInner(lat, F, D);
    UnionEmpty(Neighbours(NorthTrianglesV(lat, F, lat), V(lat, F, D)));
  }

  lemma {:induction false} NorthFaceOwnPrev(lat: int, F: int)
    requires 1 <= lat && 0 <= F < 5
    ensures Neighbours(NorthFaceBodyV(lat)(Prev(F)), V(lat, F, 0)) ==
      multiset{V(lat, Prev(F), lat - 1), V(lat + 1, Prev(F), lat)}
  {
    NeighboursAppend([NorthSpokeV(lat, Prev(F))], NorthTrianglesV(lat, Prev(F), lat), V(lat, F, 0));
    NorthSpokeIs(lat, Prev(F));
    EdgeMiss(V(lat, Prev(F), 0), V(lat + 1, Prev(F), 0), V(lat, F, 0));
    AvoidsNeighbours([NorthSpokeV(lat, Prev(F))], V(lat, F, 0));
    NorthTrianglesOwnPrev(lat, F);
    UnionEmpty(Neighbours(NorthTrianglesV(lat, Prev(F), lat), V(lat, F, 0)));
  }

  lemma {:induction false} NorthFaceOwnMiss(lat: int, face: int, F: int, D: int)
    requires 1 <= lat && 0 <= face < 5 && 0 <= F < 5 && 0 <= D < lat
    requires face != F && !(D == 0 && face == Prev(F))
    ensures Avoids(NorthFaceBodyV(lat)(face), V(lat, F, D))
  {
    NorthSpokeIs(lat, face);
    EdgeMiss(V(lat, face, 0), V(lat + 1, face, 0), V(lat, F, D));
    NorthTrianglesOwnMiss(lat, face, F, D);
    AvoidsAppend([NorthSpokeV(lat, face)], NorthTrianglesV(lat, face, lat), V(lat, F, D));
  }

  lemma {:induction false} NorthFaceUpFirst(lat: int, F: int, E: int)
    requires 0 <= lat && 0 <= F < 5 && E == 0
    ensures Neighbours(NorthFaceBodyV(lat)(F), V(lat + 1, F, E)) == multiset{NorthV(lat, F, 0)}
  {
    NeighboursAppend([NorthSpokeV(lat, F)], NorthTrianglesV(lat, F, lat), V(lat + 1, F, E));
    EdgeHitB(NorthV(lat, F, 0), V(lat + 1, F, 0), V(lat + 1, F, E));
    NorthTrianglesUpMiss(lat, F, F, E);
    AvoidsNeighbours(NorthTrianglesV(lat, F, lat), V(lat + 1, F, E));
    UnionEmpty(Neighbours([NorthSpokeV(lat, F)], V(lat + 1, F, E)));
  }

  lemma {:induction false} NorthFaceUpInner(lat: int, F: int, E: int)
    requires 0 <= F < 5 && 1 <= E <= lat
    ensures Neighbours(NorthFaceBodyV(lat)(F), V(lat + 1, F, E)) == multiset{V(lat, F, E - 1), Wrap(lat, F, E, lat)}
  {
    NeighboursAppend([NorthSpokeV(lat, F)], NorthTrianglesV(lat, F, lat), V(lat + 1, F, E));
    NorthSpokeIs(lat, F);
    EdgeMiss(V(lat, F, 0), V(lat + 1, F, 0), V(lat + 1, F, E));
    AvoidsNeighbours([NorthSpokeV(lat, F)], V(lat + 1, F, E));
    NorthTrianglesUpHit(lat, F, E);
    UnionEmpty(Neighbours(NorthTrianglesV(lat, F, lat), V(lat + 1, F, E)));
  }

  lemma {:induction false} NorthFaceUpMiss(lat: int, face: int, F: int, E: int)
    requires 0 <= lat && 0 <= face < 5 && 0 <= F < 5 && 0 <= E <= lat && face != F
    ensures Avoids(NorthFaceBodyV(lat)(face), V(lat + 1, F, E))
  {
    EdgeMiss(NorthV(lat, face, 0), V(lat + 1, face, 0), V(lat + 1, F, E));
    NorthTrianglesUpMiss(lat, face, F, E);
    AvoidsAppend([NorthSpokeV(lat, face)], NorthTrianglesV(lat, face, lat), V(lat + 1, F, E));
  }

  // Whole rings.

  /**
   * The neighbours ring `lat` gives vertex (F, D) of row lat: the spoke below a face's first
   * vertex, then the other corners of the triangles right and left of the vertex.
   */
  function NorthOwn(lat: int, F: int, D: int): seq<Vertex>
  {
    if D == 0 then [V(lat + 1, F, 0), Wrap(lat, F, D + 1, lat), V(lat + 1, F, D + 1), V(lat, Prev(F), lat - 1), V(lat + 1, Prev(F), lat)]
    else [Wrap(lat, F, D + 1, lat), V(lat + 1, F, D + 1), V(lat, F, D - 1), V(lat + 1, F, D)]
  }

  lemma NorthOwnFirstIs(lat: int, F: int, D: int)
    requires D == 0
    ensures multiset(NorthOwn(lat, F, D)) ==
      multiset{V(lat + 1, F, 0)} + multiset{Wrap(lat, F, D + 1, lat), V(lat + 1, F, D + 1)} +
      multiset{V(lat, Prev(F), lat - 1), V(lat + 1, Prev(F), lat)}
  {
  }

  lemma NorthOwnInnerIs(lat: int, F: int, D: int)
    requires D != 0
    ensures multiset(NorthOwn(lat, F, D)) ==
      multiset{Wrap(lat, F, D + 1, lat), V(lat + 1, F, D + 1)} + multiset{V(lat, F, D - 1), V(lat + 1, F, D)}
  {
  }

  /** The neighbours ring `lat` gives vertex (F, E) of row lat + 1: the ends of the edge or triangle above it. */
  function NorthUp(lat: int, F: int, E: int): seq<Vertex>
  {
    if E == 0 then [NorthV(lat, F, 0)] else [V(lat, F, E - 1), Wrap(lat, F, E, lat)]
  }

  lemma NorthUpFirstIs(lat: int, F: int, E: int)
    requires E == 0
    ensures multiset(NorthUp(lat, F, E)) == multiset{NorthV(lat, F, 0)}
  {
  }

  lemma NorthUpInnerIs(lat: int, F: int, E: int)
    requires E != 0
    ensures multiset(NorthUp(lat, F, E)) == multiset{V(lat, F, E - 1), Wrap(lat, F, E, lat)}
  {
  }

  /** The north pole's neighbours: the first vertex of every face of row 1. */
  function NorthPoleOwn(): seq<Vertex>
  {
    [V(1, 0, 0), V(1, 1, 0), V(1, 2, 0), V(1, 3, 0), V(1, 4, 0)]
  }

  lemma NorthPoleOwnIs()
    ensures multiset(NorthPoleOwn()) ==
      multiset{V(1, 0, 0)} + multiset{V(1, 1, 0)} + multiset{V(1, 2, 0)} + multiset{V(1, 3, 0)} + multiset{V(1, 4, 0)}
  {
  }

  lemma {:induction false} NorthRingOwnQuiet(lat: int, F: int, D: int, G: int)
    requires 1 <= lat && 0 <= F < 5 && 0 <= D < lat && G == (if D == 0 then Prev(F) else -1)
    ensures forall face :: 0 <= face < 5 && face != F && face != G ==>
      Avoids(NorthFaceBodyV(lat)(face), V(lat, F, D))
  {
    forall face | 0 <= face < 5 && face != F && face != G
      ensures Avoids(NorthFaceBodyV(lat)(face), V(lat, F, D))
    {
      NorthFaceOwnMiss(lat, face, F, D);
    }
  }

  lemma {:induction false} NorthRingOwnFirst(lat: int, F: int, D: int)
    requires 1 <= lat && 0 <= F < 5 && D == 0
    ensures Neighbours(NorthRingV(lat), V(lat, F, D)) ==
      multiset{V(lat + 1, F, 0)} + multiset{Wrap(lat, F, D + 1, lat), V(lat + 1, F, D + 1)} +
      multiset{V(lat, Prev(F), lat - 1), V(lat + 1, Prev(F), lat)}
  {
    NorthRingOwnQuiet(lat, F, D, Prev(F));
    NorthFaceOwnFirst(lat, F, D);
    NorthFaceOwnPrev(lat, F);
    ConcatNeighboursPair(0, 5, NorthFaceBodyV(lat), V(lat, F, D), F, Prev(F),
      multiset{V(lat + 1, F, 0)} + multiset{Wrap(lat, F, D + 1, lat), V(lat + 1, F, D + 1)},
      multiset{V(lat, Prev(F), lat - 1), V(lat + 1, Prev(F), lat)});
  }

  lemma {:induction false} NorthRingOwnInner(lat: int, F: int, D: int)
    requires 0 <= F < 5 && 1 <= D < lat
    ensures Neighbours(NorthRingV(lat), V(lat, F, D)) ==
      multiset{Wrap(lat, F, D + 1, lat), V(lat + 1, F, D + 1)} + multiset{V(lat, F, D - 1), V(lat + 1, F, D)}
  {
    NorthRingOwnQuiet(lat, F, D, -1);
    NorthFaceOwnInner(lat, F, D);
    ConcatNeighboursSingle(0, 5, NorthFaceBodyV(lat), V(lat, F, D), F,
      multiset{Wrap(lat, F, D + 1, lat), V(lat + 1, F, D + 1)} + multiset{V(lat, F, D - 1), V(lat + 1, F, D)});
  }

  lemma {:induction false} NorthRingOwn(lat: int, F: int, D: int)
    requires 1 <= lat && 0 <= F < 5 && 0 <= D < lat
    ensures Neighbours(NorthRingV(lat), V(lat, F, D)) == multiset(NorthOwn(lat, F, D))
  {
    if D == 0 {
      NorthRingOwnFirst(lat, F, D);
      NorthOwnFirstIs(lat, F, D);
    } else {
      NorthRingOwnInner(lat, F, D);
      NorthOwnInnerIs(lat, F, D);
    }
  }

  lemma {:induction false} NorthPoleFace(lat: int, face: int)
    requires lat == 0 && 0 <= face < 5
    ensures Neighbours(NorthFaceBodyV(lat)(face), NorthPoleV()) == multiset{V(1, face, 0)}
  {
    assert NorthFaceBodyV(lat)(face) == [(NorthPoleV(), V(1, face, 0))] + [];
    EdgeHitA(NorthPoleV(), V(1, face, 0), NorthPoleV());
  }

  /** Ring 0 gives the north pole the first vertex of every face of row 1. */
  lemma {:induction false} NorthRingPole(lat: int)
    requires lat == 0
    ensures Neighbours(NorthRingV(lat), NorthPoleV()) == multiset(NorthPoleOwn())
  {
    NorthPoleFace(lat, 0);
    NorthPoleFace(lat, 1);
    NorthPoleFace(lat, 2);
    NorthPoleFace(lat, 3);
    NorthPoleFace(lat, 4);
    ConcatNeighboursFive(NorthFaceBodyV(lat), NorthPoleV(),
      multiset{V(1, 0, 0)}, multiset{V(1, 1, 0)}, multiset{V(1, 2, 0)}, multiset{V(1, 3, 0)}, multiset{V(1, 4, 0)});
    NorthPoleOwnIs();
  }

  lemma {:induction false} NorthRingUpQuiet(lat: int, F: int, E: int)
    requires 0 <= lat && 0 <= F < 5 && 0 <= E <= lat
    ensures forall face :: 0 <= face < 5 && face != F ==>
      Avoids(NorthFaceBodyV(lat)(face), V(lat + 1, F, E))
  {
    forall face | 0 <= face < 5 && face != F
      ensures Avoids(NorthFaceBodyV(lat)(face), V(lat + 1, F, E))
    {
      NorthFaceUpMiss(lat, face, F, E);
    }
  }

  lemma {:induction false} NorthRingUp(lat: int, F: int, E: int)
    requires 0 <= lat && 0 <= F < 5 && 0 <= E <= lat
    ensures Neighbours(NorthRingV(lat), V(lat + 1, F, E)) == multiset(NorthUp(lat, F, E))
  {
    NorthRingUpQuiet(lat, F, E);
    if E == 0 {
      NorthFaceUpFirst(lat, F, E);
      NorthUpFirstIs(lat, F, E);
    } else {
      NorthFaceUpInner(lat, F, E);
      NorthUpInnerIs(lat, F, E);
    }
    ConcatNeighboursOne(0, 5, NorthFaceBodyV(lat), V(lat + 1, F, E), F);
  }
}
