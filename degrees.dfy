/**
 * The properties of the numbered edge list EdgeList(n) that IcoLattice.Edges yields: every
 * endpoint is a vertex number below VertexCount(n) == 10n² + 2, no edge is a loop, no
 * undirected edge is yielded twice, and every vertex has six neighbours except the twelve
 * corners of the icosahedron, which have five.
 */
module IcoDegrees {
  import opened IcoRows
  import opened IcoEdges
  import opened IcoVertices
  import opened IcoNamedEdges
  import opened IcoMesh
  import opened IcoShape

  // Facts about any list of edges.

  /** Both ends of an edge are neighbours of each other. */
  lemma {:induction false} EdgeNeighbour<T>(es: seq<(T, T)>, k: int)
    requires 0 <= k < |es|
    ensures es[k].1 in Neighbours(es, es[k].0) && es[k].0 in Neighbours(es, es[k].1)
  {
    NeighboursSplit(es, k, es[k].0);
    NeighboursSplit(es, k, es[k].1);
  }

  /** The neighbours `es` gives `v`: those before edge k, those of edge k, and those after it. */
  lemma {:induction false} NeighboursSplit<T>(es: seq<(T, T)>, k: int, v: T)
    requires 0 <= k < |es|
    ensures Neighbours(es, v) == Neighbours(es[..k], v) + Ends(es[k], v) + Neighbours(es[k + 1..], v)
  {
    assert es == es[..k + 1] + es[k + 1..];
    NeighboursAppend(es[..k + 1], es[k + 1..], v);
    assert es[..k + 1][..k] == es[..k];
  }

  /** Two different edges both count towards the neighbours of `v`. */
  lemma {:induction false} TwoEdgesNeighbours<T>(es: seq<(T, T)>, i: int, j: int, v: T)
    requires 0 <= i < j < |es|
    ensures Ends(es[i], v) + Ends(es[j], v) <= Neighbours(es, v)
  {
    NeighboursSplit(es, j, v);
    var front := es[..j];
    assert front[i] == es[i];
    NeighboursSplit(front, i, v);
  }

  lemma {:induction false} DistinctCount<T>(xs: seq<T>, w: T)
    requires Distinct(xs)
    ensures multiset(xs)[w] <= 1
    decreases |xs|
  {
    if |xs| > 0 {
      var init := xs[..|xs| - 1];
      assert xs == init + [xs[|xs| - 1]];
      assert Distinct(init);
      DistinctCount(init, w);
      if xs[|xs| - 1] == w {
        forall i | 0 <= i < |init|
          ensures init[i] != w
        {
          assert init[i] == xs[i];
        }
      }
    }
  }

  // The corners.

  /** The twelve vertices of degree five, by name: the poles and the first vertex of every face on rows n and 2n. */
  function CornerNames(n: int): seq<Vertex>
  {
    [NorthPoleV(), V(n, 0, 0), V(n, 1, 0), V(n, 2, 0), V(n, 3, 0), V(n, 4, 0),
     V(2 * n, 0, 0), V(2 * n, 1, 0), V(2 * n, 2, 0), V(2 * n, 3, 0), V(2 * n, 4, 0), SouthPoleV(n)]
  }

  /** The twelve vertices of degree five, by number. */
  function Corners(n: int): seq<int>
  {
    IndexSeq(n, CornerNames(n))
  }

  lemma CornerNamesValid(n: int)
    requires n >= 1
    ensures forall k :: 0 <= k < |CornerNames(n)| ==> ValidVertex(n, CornerNames(n)[k]) && IsCorner(n, CornerNames(n)[k])
    ensures Distinct(CornerNames(n)) && |CornerNames(n)| == 12
  {
  }

  lemma CornerNamesComplete(n: int, x: Vertex)
    requires n >= 1 && ValidVertex(n, x) && IsCorner(n, x)
    ensures x in CornerNames(n)
  {
    if x != NorthPoleV() && x != SouthPoleV(n) {
      assert 0 <= x.face < 5;
      assert x == V(x.row, x.face, 0);
    }
  }

  /** There are twelve corners, all of them distinct vertex numbers. */
  lemma CornersDistinct(n: int)
    requires n >= 1
    ensures |Corners(n)| == 12 && Distinct(Corners(n))
    ensures forall k :: 0 <= k < 12 ==> 0 <= Corners(n)[k] < VertexCount(n)
  {
    CornerNamesValid(n);
    IndexSeqDistinct(n, CornerNames(n));
    forall k | 0 <= k < 12
      ensures 0 <= Corners(n)[k] < VertexCount(n)
    {
      IndexRange(n, CornerNames(n)[k]);
    }
  }

  /** Vertex `x` is a corner exactly when its number is one of Corners(n). */
  lemma CornerIndex(n: int, x: Vertex)
    requires n >= 1 && ValidVertex(n, x)
    ensures IsCorner(n, x) <==> Index(n, x) in Corners(n)
  {
    CornerNamesValid(n);
    if IsCorner(n, x) {
      CornerNamesComplete(n, x);
      var k :| 0 <= k < 12 && CornerNames(n)[k] == x;
      assert Corners(n)[k] == Index(n, x);
    }
    if Index(n, x) in Corners(n) {
      var k :| 0 <= k < 12 && Corners(n)[k] == Index(n, x);
      IndexInjective(n, CornerNames(n)[k], x);
    }
  }

  // The numbered edge list.

  /** The neighbours of vertex number Index(n, x) are the numbers of the vertices Expected(n, x). */
  lemma VertexNeighbours(n: int, x: Vertex)
    requires n >= 1 && ValidVertex(n, x)
    ensures Neighbours(EdgeList(n), Index(n, x)) == multiset(IndexSeq(n, Expected(n, x)))
  {
    EdgeListIndex(n);
    EdgeListVIn(n);
    EdgeListVNeighbours(n, x);
    NeighboursIndex(n, EdgeListV(n), x, Expected(n, x));
  }

  /**
   * Every vertex is joined to distinct vertices of the lattice other than itself, each by one
   * edge: five of them at a corner and six everywhere else.
   */
  lemma VertexDegree(n: int, v: int)
    requires n >= 1 && 0 <= v < VertexCount(n)
    ensures Neighbours(EdgeList(n), v)[v] == 0
    ensures forall w :: Neighbours(EdgeList(n), v)[w] <= 1
    ensures forall w :: w in Neighbours(EdgeList(n), v) ==> 0 <= w < VertexCount(n)
    ensures |Neighbours(EdgeList(n), v)| == (if v in Corners(n) then 5 else 6)
  {
    IndexSurjective(n, v);
    var x :| ValidVertex(n, x) && Index(n, x) == v;
    VertexNeighbours(n, x);
    ExpectedRegular(n, x);
    CornerIndex(n, x);
    var xs := Expected(n, x);
    var ns := IndexSeq(n, xs);
    IndexSeqDistinct(n, xs);
    assert Distinct(ns);
    forall w
      ensures multiset(ns)[w] <= 1
    {
      DistinctCount(ns, w);
    }
    forall k | 0 <= k < |xs|
      ensures ns[k] != v && 0 <= ns[k] < VertexCount(n)
    {
      IndexInjective(n, xs[k], x);
      IndexRange(n, xs[k]);
    }
  }

  /** The corners are twelve distinct vertices; they have degree five and every other vertex degree six. */
  lemma DegreeFiveAtCorners(n: int)
    requires n >= 1
    ensures |Corners(n)| == 12 && Distinct(Corners(n))
    ensures forall k :: 0 <= k < 12 ==> 0 <= Corners(n)[k] < VertexCount(n)
    ensures forall v :: 0 <= v < VertexCount(n) ==> |Neighbours(EdgeList(n), v)| == (if v in Corners(n) then 5 else 6)
    ensures VertexCount(n) == 10 * n * n + 2
  {
    CornersDistinct(n);
    VertexCountClosed(n);
    forall v | 0 <= v < VertexCount(n)
      ensures |Neighbours(EdgeList(n), v)| == (if v in Corners(n) then 5 else 6)
    {
      VertexDegree(n, v);
    }
  }

  /** Both ends of every edge are vertex numbers below 10n² + 2, and they differ. */
  lemma EdgeEnds(n: int, k: int)
    requires n >= 1 && 0 <= k < |EdgeList(n)|
    ensures 0 <= EdgeList(n)[k].0 < VertexCount(n) && 0 <= EdgeList(n)[k].1 < VertexCount(n)
    ensures EdgeList(n)[k].0 != EdgeList(n)[k].1
  {
    EdgeListIndex(n);
    EdgeListVIn(n);
    var e := EdgeListV(n)[k];
    assert EdgeList(n)[k] == IndexEdge(n, e);
    IndexRange(n, e.0);
    IndexRange(n, e.1);
    EdgeNeighbour(EdgeList(n), k);
    VertexDegree(n, EdgeList(n)[k].0);
  }

  /** No undirected edge is yielded twice, in either direction. */
  lemma NoRepeatedEdge(n: int, i: int, j: int)
    requires n >= 1 && 0 <= i < j < |EdgeList(n)|
    ensures EdgeList(n)[i] != EdgeList(n)[j]
    ensures EdgeList(n)[i] != (EdgeList(n)[j].1, EdgeList(n)[j].0)
  {
    var es := EdgeList(n);
    EdgeEnds(n, i);
    var a, b := es[i].0, es[i].1;
    TwoEdgesNeighbours(es, i, j, a);
    VertexDegree(n, a);
    assert Ends(es[i], a)[b] == 1;
    assert Ends(es[j], a)[b] == 0 by {
      assert Ends(es[i], a)[b] + Ends(es[j], a)[b] <= Neighbours(es, a)[b] <= 1;
    }
  }
}
