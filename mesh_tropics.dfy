/**
 * Which neighbours the tropics loop of IcoLattice.Edges gives each vertex. Tropic row `t`
 * joins row n + t to row n + t + 1 with one triangle per vertex of row n + t; it gives a
 * vertex of row n + t its "own" neighbours and a vertex of row n + t + 1 its "up" neighbours.
 */
module IcoTropicMesh {
  import opened IcoEdges
  import opened IcoVertices
  import opened IcoNamedEdges

  lemma {:induction false} TropicCellIs(n: int, t: int, face: int, k: int)
    requires 0 <= k < n
    ensures TropicCellBodyV(n, t, face)(k) == Triangle(V(n + t, face, k), Wrap(n + t, face, k + 1, n), V(n + t + 1, face, k))
  {
  }

  // Cell `k` of face `face` of tropic row t, seen from a vertex of row n + t or n + t + 1.

  lemma {:induction false} TropicCellOwnA(n: int, t: int, F: int, D: int)
    requires 0 <= F < 5 && 0 <= D < n
    ensures Neighbours(TropicCellBodyV(n, t, F)(D), V(n + t, F, D)) == multiset{Wrap(n + t, F, D + 1, n), V(n + t + 1, F, D)}
  {
    TropicCellIs(n, t, F, D);
    TriangleHitA(V(n + t, F, D), Wrap(n + t, F, D + 1, n), V(n + t + 1, F, D), V(n + t, F, D));
  }

  lemma {:induction false} TropicCellOwnLeft(n: int, t: int, F: int, D: int)
    requires 0 <= F < 5 && 1 <= D < n
    ensures Neighbours(TropicCellBodyV(n, t, F)(D - 1), V(n + t, F, D)) == multiset{V(n + t, F, D - 1), V(n + t + 1, F, D - 1)}
  {
    TropicCellIs(n, t, F, D - 1);
    TriangleHitB(V(n + t, F, D - 1), Wrap(n + t, F, D, n), V(n + t + 1, F, D - 1), V(n + t, F, D));
  }

  lemma {:induction false} TropicCellOwnPrev(n: int, t: int, F: int)
    requires 1 <= n && 0 <= F < 5
    ensures Neighbours(TropicCellBodyV(n, t, Prev(F))(n - 1), V(n + t, F, 0)) ==
      multiset{V(n + t, Prev(F), n - 1), V(n + t + 1, Prev(F), n - 1)}
  {
    TropicCellIs(n, t, Prev(F), n - 1);
    TriangleHitB(V(n + t, Prev(F), n - 1), Wrap(n + t, Prev(F), n - 1 + 1, n), V(n + t + 1, Prev(F), n - 1), V(n + t, F, 0));
  }

  lemma {:induction false} TropicCellOwnMiss(n: int, t: int, face: int, k: int, F: int, D: int)
    requires 0 <= face < 5 && 0 <= k < n && 0 <= F < 5 && 0 <= D < n
    requires !(face == F && k == D) && !(face == F && k == D - 1) && !(D == 0 && face == Prev(F) && k == n - 1)
    ensures Avoids(TropicCellBodyV(n, t, face)(k), V(n + t, F, D))
  {
    TropicCellIs(n, t, face, k);
    TriangleMiss(V(n + t, face, k), Wrap(n + t, face, k + 1, n), V(n + t + 1, face, k), V(n + t, F, D));
  }

  lemma {:induction false} TropicCellUpC(n: int, t: int, F: int, D: int)
    requires 0 <= F < 5 && 0 <= D < n
    ensures Neighbours(TropicCellBodyV(n, t, F)(D), V(n + t + 1, F, D)) == multiset{V(n + t, F, D), Wrap(n + t, F, D + 1, n)}
  {
    TropicCellIs(n, t, F, D);
    TriangleHitC(V(n + t, F, D), Wrap(n + t, F, D + 1, n), V(n + t + 1, F, D), V(n + t + 1, F, D));
  }

  lemma {:induction false} TropicCellUpMiss(n: int, t: int, face: int, k: int, F: int, D: int)
    requires 0 <= face < 5 && 0 <= k < n && 0 <= F < 5 && 0 <= D < n
    requires !(face == F && k == D)
    ensures Avoids(TropicCellBodyV(n, t, face)(k), V(n + t + 1, F, D))
  {
    TropicCellIs(n, t, face, k);
    TriangleMiss(V(n + t, face, k), Wrap(n + t, face, k + 1, n), V(n + t + 1, face, k), V(n + t + 1, F, D));
  }

  // The cells of one face.

  lemma {:induction false} TropicCellsSameQuiet(n: int, t: int, F: int, D: int)
    requires 0 <= F < 5 && 0 <= D < n
    ensures forall k :: 0 <= k < n && k != D && k != D - 1 ==>
      Avoids(TropicCellBodyV(n, t, F)(k), V(n + t, F, D))
  {
    forall k | 0 <= k < n && k != D && k != D - 1
      ensures Avoids(TropicCellBodyV(n, t, F)(k), V(n + t, F, D))
    {
      TropicCellOwnMiss(n, t, F, k, F, D);
    }
  }

  /** Face F gives vertex (F, 0) of row n + t the other corners of the cell right of it. */
  lemma {:induction false} TropicCellsOwnFirst(n: int, t: int, F: int, D: int)
    requires 0 <= F < 5 && D == 0 && 1 <= n
    ensures Neighbours(TropicFaceBodyV(n, t)(F), V(n + t, F, D)) == multiset{Wrap(n + t, F, D + 1, n), V(n + t + 1, F, D)}
  {
    TropicCellsSameQuiet(n, t, F, D);
    TropicCellOwnA(n, t, F, D);
    ConcatNeighboursOne(0, n, TropicCellBodyV(n, t, F), V(n + t, F, D), D);
  }

  /** Face F gives any other vertex (F, D) of row n + t the other corners of the cells right and left of it. */
  lemma {:induction false} TropicCellsOwnInner(n: int, t: int, F: int, D: int)
    requires 0 <= F < 5 && 1 <= D < n
    ensures Neighbours(TropicFaceBodyV(n, t)(F), V(n + t, F, D)) ==
      multiset{Wrap(n + t, F, D + 1, n), V(n + t + 1, F, D)} + multiset{V(n + t, F, D - 1), V(n + t + 1, F, D - 1)}
  {
    TropicCellsSameQuiet(n, t, F, D);
    TropicCellOwnA(n, t, F, D);
    TropicCellOwnLeft(n, t, F, D);
    ConcatNeighboursTwo(0, n, TropicCellBodyV(n, t, F), V(n + t, F, D), D, D - 1);
  }

  lemma {:induction false} TropicCellsPrevQuiet(n: int, t: int, F: int)
    requires 1 <= n && 0 <= F < 5
    ensures forall k :: 0 <= k < n && k != n - 1 ==>
      Avoids(TropicCellBodyV(n, t, Prev(F))(k), V(n + t, F, 0))
  {
    forall k | 0 <= k < n && k != n - 1
      ensures Avoids(TropicCellBodyV(n, t, Prev(F))(k), V(n + t, F, 0))
    {
      TropicCellOwnMiss(n, t, Prev(F), k, F, 0);
    }
  }

  /** The last cell of the face before F gives vertex (F, 0) of row n + t two neighbours. */
  lemma {:induction false} TropicCellsOwnPrev(n: int, t: int, F: int)
    requires 1 <= n && 0 <= F < 5
    ensures Neighbours(TropicFaceBodyV(n, t)(Prev(F)), V(n + t, F, 0)) ==
      multiset{V(n + t, Prev(F), n - 1), V(n + t + 1, Prev(F), n - 1)}
  {
    TropicCellsPrevQuiet(n, t, F);
    TropicCellOwnPrev(n, t, F);
    ConcatNeighboursOne(0, n, TropicCellBodyV(n, t, Prev(F)), V(n + t, F, 0), n - 1);
  }

  lemma {:induction false} TropicCellsOwnMiss(n: int, t: int, face: int, F: int, D: int)
    requires 0 <= face < 5 && 0 <= F < 5 && 0 <= D < n
    requires face != F && !(D == 0 && face == Prev(F))
    ensures Avoids(TropicFaceBodyV(n, t)(face), V(n + t, F, D))
  {
    forall k | 0 <= k < n
      ensures Avoids(TropicCellBodyV(n, t, face)(k), V(n + t, F, D))
    {
      TropicCellOwnMiss(n, t, face, k, F, D);
    }
    ConcatAvoids(0, n, TropicCellBodyV(n, t, face), V(n + t, F, D));
  }

  lemma {:induction false} TropicCellsUpQuiet(n: int, t: int, face: int, F: int, D: int)
    requires 0 <= face < 5 && 0 <= F < 5 && 0 <= D < n
    ensures forall k :: 0 <= k < n && !(face == F && k == D) ==>
      Avoids(TropicCellBodyV(n, t, face)(k), V(n + t + 1, F, D))
  {
    forall k | 0 <= k < n && !(face == F && k == D)
      ensures Avoids(TropicCellBodyV(n, t, face)(k), V(n + t + 1, F, D))
    {
      TropicCellUpMiss(n, t, face, k, F, D);
    }
  }

  lemma {:induction false} TropicCellsUpHit(n: int, t: int, F: int, D: int)
    requires 0 <= F < 5 && 0 <= D < n
    ensures Neighbours(TropicFaceBodyV(n, t)(F), V(n + t + 1, F, D)) == multiset{V(n + t, F, D), Wrap(n + t, F, D + 1, n)}
  {
    TropicCellsUpQuiet(n, t, F, F, D);
    TropicCellUpC(n, t, F, D);
    ConcatNeighboursOne(0, n, TropicCellBodyV(n, t, F), V(n + t + 1, F, D), D);
  }

  lemma {:induction false} TropicCellsUpMiss(n: int, t: int, face: int, F: int, D: int)
    requires 0 <= face < 5 && 0 <= F < 5 && 0 <= D < n && face != F
    ensures Avoids(TropicFaceBodyV(n, t)(face), V(n + t + 1, F, D))
  {
    TropicCellsUpQuiet(n, t, face, F, D);
    ConcatAvoids(0, n, TropicCellBodyV(n, t, face), V(n + t + 1, F, D));
  }

  // Whole rows.

  /**
   * The neighbours tropic row t gives vertex (F, D) of row n + t: the other corners of the
   * cell right of it and of the cell left of it, which for D == 0 is the last cell of the face before.
   */
  function TropicOwn(n: int, t: int, F: int, D: int): seq<Vertex>
  {
    if D == 0 then [Wrap(n + t, F, D + 1, n), V(n + t + 1, F, D), V(n + t, Prev(F), n - 1), V(n + t + 1, Prev(F), n - 1)]
    else [Wrap(n + t, F, D + 1, n), V(n + t + 1, F, D), V(n + t, F, D - 1), V(n + t + 1, F, D - 1)]
  }

  lemma TropicOwnFirstIs(n: int, t: int, F: int, D: int)
    requires D == 0
    ensures multiset(TropicOwn(n, t, F, D)) ==
      multiset{Wrap(n + t, F, D + 1, n), V(n + t + 1, F, D)} + multiset{V(n + t, Prev(F), n - 1), V(n + t + 1, Prev(F), n - 1)}
  {
  }

  lemma TropicOwnInnerIs(n: int, t: int, F: int, D: int)
    requires D != 0
    ensures multiset(TropicOwn(n, t, F, D)) ==
      multiset{Wrap(n + t, F, D + 1, n), V(n + t + 1, F, D)} + multiset{V(n + t, F, D - 1), V(n + t + 1, F, D - 1)}
  {
  }

  /** The neighbours tropic row t gives vertex (F, D) of row n + t + 1: the upper corners of the cell above it. */
  function TropicUp(n: int, t: int, F: int, D: int): seq<Vertex>
  {
    [V(n + t, F, D), Wrap(n + t, F, D + 1, n)]
  }

  lemma TropicUpIs(n: int, t: int, F: int, D: int)
    ensures multiset(TropicUp(n, t, F, D)) == multiset{V(n + t, F, D), Wrap(n + t, F, D + 1, n)}
  {
  }

  lemma {:induction false} TropicRowIs(n: int, t: int)
    ensures TropicRowBodyV(n)(t) == Concat(0, 5, TropicFaceBodyV(n, t))
  {
  }

  lemma {:induction false} TropicRowOwnQuiet(n: int, t: int, F: int, D: int, G: int)
    requires 0 <= F < 5 && 0 <= D < n && G == (if D == 0 then Prev(F) else -1)
    ensures forall face :: 0 <= face < 5 && face != F && face != G ==>
      Avoids(TropicFaceBodyV(n, t)(face), V(n + t, F, D))
  {
    forall face | 0 <= face < 5 && face != F && face != G
      ensures Avoids(TropicFaceBodyV(n, t)(face), V(n + t, F, D))
    {
      TropicCellsOwnMiss(n, t, face, F, D);
    }
  }

  lemma {:induction false} TropicRowOwnFirst(n: int, t: int, F: int, D: int)
    requires 0 <= F < 5 && D == 0 && 1 <= n
    ensures Neighbours(Concat(0, 5, TropicFaceBodyV(n, t)), V(n + t, F, D)) ==
      multiset{Wrap(n + t, F, D + 1, n), V(n + t + 1, F, D)} + multiset{V(n + t, Prev(F), n - 1), V(n + t + 1, Prev(F), n - 1)}
  {
    TropicRowOwnQuiet(n, t, F, D, Prev(F));
    TropicCellsOwnFirst(n, t, F, D);
    TropicCellsOwnPrev(n, t, F);
    ConcatNeighboursPair(0, 5, TropicFaceBodyV(n, t), V(n + t, F, D), F, Prev(F),
      multiset{Wrap(n + t, F, D + 1, n), V(n + t + 1, F, D)}, multiset{V(n + t, Prev(F), n - 1), V(n + t + 1, Prev(F), n - 1)});
  }

  lemma {:induction false} TropicRowOwnInner(n: int, t: int, F: int, D: int)
    requires 0 <= F < 5 && 1 <= D < n
    ensures Neighbours(Concat(0, 5, TropicFaceBodyV(n, t)), V(n + t, F, D)) ==
      multiset{Wrap(n + t, F, D + 1, n), V(n + t + 1, F, D)} + multiset{V(n + t, F, D - 1), V(n + t + 1, F, D - 1)}
  {
    TropicRowOwnQuiet(n, t, F, D, -1);
    TropicCellsOwnInner(n, t, F, D);
    ConcatNeighboursOne(0, 5, TropicFaceBodyV(n, t), V(n + t, F, D), F);
  }

  lemma {:induction false} TropicRowOwn(n: int, t: int, F: int, D: int)
    requires 0 <= F < 5 && 0 <= D < n
    ensures Neighbours(TropicRowBodyV(n)(t), V(n + t, F, D)) == multiset(TropicOwn(n, t, F, D))
  {
    TropicRowIs(n, t);
    if D == 0 {
      TropicRowOwnFirst(n, t, F, D);
      TropicOwnFirstIs(n, t, F, D);
    } else {
      TropicRowOwnInner(n, t, F, D);
      TropicOwnInnerIs(n, t, F, D);
    }
  }

  lemma {:induction false} TropicRowUpQuiet(n: int, t: int, F: int, D: int)
    requires 0 <= F < 5 && 0 <= D < n
    ensures forall face :: 0 <= face < 5 && face != F ==>
      Avoids(TropicFaceBodyV(n, t)(face), V(n + t + 1, F, D))
  {
    forall face | 0 <= face < 5 && face != F
      ensures Avoids(TropicFaceBodyV(n, t)(face), V(n + t + 1, F, D))
    {
      TropicCellsUpMiss(n, t, face, F, D);
    }
  }

  lemma {:induction false} TropicRowUp(n: int, t: int, F: int, D: int)
    requires 0 <= F < 5 && 0 <= D < n
    ensures Neighbours(TropicRowBodyV(n)(t), V(n + t + 1, F, D)) == multiset(TropicUp(n, t, F, D))
  {
    TropicRowUpQuiet(n, t, F, D);
    TropicCellsUpHit(n, t, F, D);
    ConcatNeighboursOne(0, 5, TropicFaceBodyV(n, t), V(n + t + 1, F, D), F);
    TropicUpIs(n, t, F, D);
  }
}
