/**
 * Vertices of the lattice named by their place rather than their number: `V(row, face, div)`
 * is vertex `div` of face `face` on row `row`, and each pole is `V(row, 0, 0)`. `Index` is the
 * vertex numbering of IcoLattice; the neighbour lemmas are proved on names, where equality is
 * structural, and carried over to numbers here.
 */
module IcoVertices {
  import opened Arith
  import opened IcoRows
  import opened IcoEdges

  datatype Vertex = V(row: int, face: int, div: int)

  type VEdge = (Vertex, Vertex)

  function NorthPoleV(): Vertex { V(0, 0, 0) }

  function SouthPoleV(n: int): Vertex { V(3 * n, 0, 0) }

  predicate ValidVertex(n: int, x: Vertex)
  {
    x == NorthPoleV() || x == SouthPoleV(n) || OnRing(n, x.row, x.face, x.div)
  }

  /** The number IcoLattice gives vertex `x`. */
  function Index(n: int, x: Vertex): int
  {
    if 0 < x.row < 3 * n then At(n, x.row, x.face, x.div) else Idx(n, x.row, 0)
  }

  /** The face after `face`, and the face before it, going round the pole. */
  function Next(face: int): int
  {
    if face == 4 then 0 else face + 1
  }

  function Prev(face: int): int
  {
    if face == 0 then 4 else face - 1
  }

  /** Vertex `div` of face `face` on a row of faces `len` long, where `div == len` is the first vertex of the next face. */
  function Wrap(row: int, face: int, div: int, len: int): Vertex
  {
    if div == len then V(row, Next(face), 0) else V(row, face, div)
  }

  lemma IndexRange(n: int, x: Vertex)
    requires n >= 1 && ValidVertex(n, x)
    ensures 0 <= Index(n, x) < VertexCount(n)
  {
    if 0 < x.row < 3 * n {
      AtValid(n, x.row, x.face, x.div);
    } else {
      IdxInRow(n, x.row, 0);
    }
  }

  /** Distinct names are distinct numbers. */
  lemma IndexInjective(n: int, x: Vertex, y: Vertex)
    requires n >= 1 && ValidVertex(n, x) && ValidVertex(n, y)
    ensures Index(n, x) == Index(n, y) <==> x == y
  {
    PolesDistinct(n);
    if 0 < x.row < 3 * n && 0 < y.row < 3 * n {
      AtInjective(n, x.row, x.face, x.div, y.row, y.face, y.div);
    } else if 0 < x.row < 3 * n {
      AtNotPole(n, x.row, x.face, x.div);
    } else if 0 < y.row < 3 * n {
      AtNotPole(n, y.row, y.face, y.div);
    }
  }

  /** Every number below VertexCount(n) names a vertex. */
  lemma IndexSurjective(n: int, v: int)
    requires n >= 1 && 0 <= v < VertexCount(n)
    ensures exists x :: ValidVertex(n, x) && Index(n, x) == v
  {
    IdxSurjective(n, v, 0);
    var r, p :| ValidPos(n, r, p) && Idx(n, r, p) == v;
    if 0 < r < 3 * n {
      MiddleRowVertex(n, r, p);
    } else {
      assert p == 0;
      assert ValidVertex(n, V(r, 0, 0)) && Index(n, V(r, 0, 0)) == v;
    }
  }

  /** Position `p` of a row strictly between the poles is division `p % len` of face `p / len`. */
  lemma MiddleRowVertex(n: int, r: int, p: int)
    requires n >= 1 && 0 < r < 3 * n && ValidPos(n, r, p)
    ensures ValidVertex(n, V(r, p / FaceLength(n, r), p % FaceLength(n, r)))
    ensures Index(n, V(r, p / FaceLength(n, r), p % FaceLength(n, r))) == Idx(n, r, p)
  {
    var len := FaceLength(n, r);
    assert len >= 1;
    var x := V(r, p / len, p % len);
    assert p == x.face * len + x.div;
    assert RowLength(n, r) == 5 * len;
    DivBelow(p, len, 5);
  }

  // Edges between names, and their numbering.

  function IndexEdge(n: int, e: VEdge): Edge
  {
    (Index(n, e.0), Index(n, e.1))
  }

  function MapEdges(n: int, es: seq<VEdge>): seq<Edge>
  {
    seq(|es|, k requires 0 <= k < |es| => IndexEdge(n, es[k]))
  }

  function IndexSeq(n: int, xs: seq<Vertex>): seq<int>
  {
    seq(|xs|, k requires 0 <= k < |xs| => Index(n, xs[k]))
  }

  lemma MapEdgesAppend(n: int, xs: seq<VEdge>, ys: seq<VEdge>)
    ensures MapEdges(n, xs + ys) == MapEdges(n, xs) + MapEdges(n, ys)
  {
  }

  lemma MapTriangle(n: int, a: Vertex, b: Vertex, c: Vertex)
    ensures MapEdges(n, Triangle(a, b, c)) == Triangle(Index(n, a), Index(n, b), Index(n, c))
  {
  }

  /** Every endpoint of `es` is a vertex of the lattice on a row in lo..hi. */
  predicate EdgesIn(n: int, es: seq<VEdge>, lo: int, hi: int)
  {
    forall k :: 0 <= k < |es| ==>
      ValidVertex(n, es[k].0) && ValidVertex(n, es[k].1) &&
      lo <= es[k].0.row <= hi && lo <= es[k].1.row <= hi
  }

  lemma EdgesInAppend(n: int, xs: seq<VEdge>, ys: seq<VEdge>, lo: int, hi: int)
    requires EdgesIn(n, xs, lo, hi) && EdgesIn(n, ys, lo, hi)
    ensures EdgesIn(n, xs + ys, lo, hi)
  {
    forall k | 0 <= k < |xs + ys|
      ensures ValidVertex(n, (xs + ys)[k].0) && ValidVertex(n, (xs + ys)[k].1) &&
        lo <= (xs + ys)[k].0.row <= hi && lo <= (xs + ys)[k].1.row <= hi
    {
      if k >= |xs| {
        assert (xs + ys)[k] == ys[k - |xs|];
      }
    }
  }

  lemma EdgesInWiden(n: int, es: seq<VEdge>, lo: int, hi: int, lo': int, hi': int)
    requires EdgesIn(n, es, lo, hi) && lo' <= lo && hi <= hi'
    ensures EdgesIn(n, es, lo', hi')
  {
  }

  lemma {:induction false} ConcatEdgesIn(n: int, lo: int, hi: int, body: int -> seq<VEdge>, rlo: int, rhi: int)
    requires forall k :: lo <= k < hi ==> EdgesIn(n, body(k), rlo, rhi)
    ensures EdgesIn(n, Concat(lo, hi, body), rlo, rhi)
    decreases hi - lo
  {
    if hi > lo {
      ConcatEdgesIn(n, lo, hi - 1, body, rlo, rhi);
      EdgesInAppend(n, Concat(lo, hi - 1, body), body(hi - 1), rlo, rhi);
    }
  }

  /** Edges between rows lo..hi do not touch a vertex on any other row. */
  lemma AvoidsOutside(n: int, es: seq<VEdge>, lo: int, hi: int, x: Vertex)
    requires EdgesIn(n, es, lo, hi) && (x.row < lo || x.row > hi)
    ensures Avoids(es, x)
  {
  }

  // Neighbours of names and neighbours of numbers.

  lemma {:induction false} NeighbourListIndex(n: int, es: seq<VEdge>, x: Vertex)
    requires n >= 1 && EdgesIn(n, es, 0, 3 * n) && ValidVertex(n, x)
    ensures NeighbourList(MapEdges(n, es), Index(n, x)) == IndexSeq(n, NeighbourList(es, x))
    decreases |es|
  {
    if |es| > 0 {
      var init, e := es[..|es| - 1], es[|es| - 1];
      assert EdgesIn(n, init, 0, 3 * n);
      NeighbourListIndex(n, init, x);
      assert MapEdges(n, es)[..|es| - 1] == MapEdges(n, init);
      IndexInjective(n, e.0, x);
      IndexInjective(n, e.1, x);
      assert EndList(IndexEdge(n, e), Index(n, x)) == IndexSeq(n, EndList(e, x));
      IndexSeqAppend(n, NeighbourList(init, x), EndList(e, x));
    }
  }

  lemma IndexSeqAppend(n: int, xs: seq<Vertex>, ys: seq<Vertex>)
    ensures IndexSeq(n, xs + ys) == IndexSeq(n, xs) + IndexSeq(n, ys)
  {
  }

  /** Numbering preserves "the same elements, counted with multiplicity". */
  lemma {:induction false} IndexSeqPermutation(n: int, xs: seq<Vertex>, ys: seq<Vertex>)
    requires multiset(xs) == multiset(ys)
    ensures multiset(IndexSeq(n, xs)) == multiset(IndexSeq(n, ys))
    decreases |xs|
  {
    if |xs| == 0 {
      assert |ys| == |multiset(ys)| == 0;
    } else {
      var xs', a := xs[..|xs| - 1], xs[|xs| - 1];
      assert xs == xs' + [a];
      assert a in multiset(ys);
      var k :| 0 <= k < |ys| && ys[k] == a;
      RemoveMatched(xs', a, ys, k);
      IndexSeqPermutation(n, xs', ys[..k] + ys[k + 1..]);
      IndexSeqAppend(n, xs', [a]);
      IndexSeqSplice(n, ys, k);
    }
  }

  /** Taking a matched element out of both sides keeps their multisets equal. */
  lemma RemoveMatched<T>(xs: seq<T>, a: T, ys: seq<T>, k: int)
    requires multiset(xs + [a]) == multiset(ys) && 0 <= k < |ys| && ys[k] == a
    ensures multiset(ys[..k] + ys[k + 1..]) == multiset(xs)
  {
    assert ys == ys[..k] + [a] + ys[k + 1..];
    var rest := ys[..k] + ys[k + 1..];
    assert multiset(ys) == multiset(ys[..k]) + multiset{a} + multiset(ys[k + 1..]);
    assert multiset(rest) == multiset(ys[..k]) + multiset(ys[k + 1..]);
    assert multiset(xs + [a]) == multiset(xs) + multiset{a};
    forall y
      ensures multiset(rest)[y] == multiset(xs)[y]
    {
      assert multiset(ys)[y] == multiset(ys[..k])[y] + multiset{a}[y] + multiset(ys[k + 1..])[y];
      assert multiset(rest)[y] == multiset(ys[..k])[y] + multiset(ys[k + 1..])[y];
      assert multiset(xs + [a])[y] == multiset(xs)[y] + multiset{a}[y];
    }
  }

  /** Numbering a sequence with one element taken out numbers the rest. */
  lemma IndexSeqSplice(n: int, ys: seq<Vertex>, k: int)
    requires 0 <= k < |ys|
    ensures multiset(IndexSeq(n, ys)) == multiset(IndexSeq(n, ys[..k] + ys[k + 1..])) + multiset{Index(n, ys[k])}
  {
    assert ys == ys[..k] + [ys[k]] + ys[k + 1..];
    IndexSeqAppend(n, ys[..k], [ys[k]]);
    IndexSeqAppend(n, ys[..k] + [ys[k]], ys[k + 1..]);
    IndexSeqAppend(n, ys[..k], ys[k + 1..]);
  }

  /** The neighbours of vertex Index(n, x) in the numbered edges, from those of `x`. */
  lemma NeighboursIndex(n: int, es: seq<VEdge>, x: Vertex, expected: seq<Vertex>)
    requires n >= 1 && EdgesIn(n, es, 0, 3 * n) && ValidVertex(n, x)
    requires Neighbours(es, x) == multiset(expected)
    ensures Neighbours(MapEdges(n, es), Index(n, x)) == multiset(IndexSeq(n, expected))
  {
    NeighboursList(es, x);
    NeighboursList(MapEdges(n, es), Index(n, x));
    NeighbourListIndex(n, es, x);
    IndexSeqPermutation(n, NeighbourList(es, x), expected);
  }

  /** Distinct vertices of the lattice have distinct numbers. */
  lemma IndexSeqDistinct(n: int, xs: seq<Vertex>)
    requires n >= 1 && forall k :: 0 <= k < |xs| ==> ValidVertex(n, xs[k])
    requires forall i, j :: 0 <= i < j < |xs| ==> xs[i] != xs[j]
    ensures forall i, j :: 0 <= i < j < |xs| ==> IndexSeq(n, xs)[i] != IndexSeq(n, xs)[j]
  {
    forall i, j | 0 <= i < j < |xs|
      ensures IndexSeq(n, xs)[i] != IndexSeq(n, xs)[j]
    {
      IndexInjective(n, xs[i], xs[j]);
    }
  }
}
