/**
 * IcoGrid: per-vertex storage over the icosahedral lattice. The grid owns one array slot per
 * vertex; its edges are views that read and write the slots of their two end vertices.
 */
module Terrain {
  import opened Errors
  import opened IcoRows
  import opened IcoEdges
  import IcoLattice
  import IcoDegrees

  class IcoGrid<T(0)> {
    const subdivisions: int
    /** One slot per vertex, numbered as the lattice numbers its vertices; `new T[..]` fills it with default(T). */
    const vertices: array<T>

    /** What the constructor establishes: at least one subdivision, and a slot for every vertex. */
    predicate Valid()
    {
      subdivisions >= 1 && vertices.Length == VertexCount(subdivisions)
    }

    constructor (subdivisions: int)
      requires subdivisions >= 1
      ensures this.subdivisions == subdivisions && Valid() && fresh(vertices)
      ensures vertices.Length == 10 * subdivisions * subdivisions + 2
    {
      this.subdivisions := subdivisions;
      vertices := new T[2 * subdivisions * 5 * subdivisions + 2];
      VertexCountClosed(subdivisions);
    }

    /**
     * The edges of the grid, each a fresh view on this grid's slots. The inlined vertex
     * formulas of IcoGrid.Edges are those of IcoLattice.Edges (PyramidSize(n) is the start of
     * the tropics there too), so the edges join the pairs the lattice enumerates, in order.
     */
    method Edges() returns (edges: seq<Edge<T>>)
      requires Valid()
      ensures |edges| == |EdgeList(subdivisions)|
      ensures forall k :: 0 <= k < |edges| ==>
        edges[k].vertices == vertices && edges[k].a == EdgeList(subdivisions)[k].0 && edges[k].b == EdgeList(subdivisions)[k].1
      ensures forall k :: 0 <= k < |edges| ==> fresh(edges[k]) && edges[k].Valid()
    {
      var north := IcoLattice.NorthCapEdges(subdivisions);
      var tropics := IcoLattice.TropicEdges(subdivisions);
      var south := IcoLattice.SouthCapEdges(subdivisions);
      var pairs := north + tropics + south;
      edges := Views(pairs);
      forall k | 0 <= k < |edges|
        ensures edges[k].Valid()
      {
        IcoDegrees.EdgeEnds(subdivisions, k);
      }
    }

    /** `new Edge(this, a, b)` for each pair (a, b), in order. */
    method Views(pairs: seq<(int, int)>) returns (edges: seq<Edge<T>>)
      ensures |edges| == |pairs|
      ensures forall k :: 0 <= k < |edges| ==>
        edges[k].vertices == vertices && edges[k].a == pairs[k].0 && edges[k].b == pairs[k].1 && fresh(edges[k])
    {
      edges := [];
      for k := 0 to |pairs|
        invariant |edges| == k
        invariant forall i :: 0 <= i < k ==>
          edges[i].vertices == vertices && edges[i].a == pairs[i].0 && edges[i].b == pairs[i].1 && fresh(edges[i])
      {
        var e := new Edge(this, pairs[k].0, pairs[k].1);
        edges := edges + [e];
      }
    }
  }

  /** `new IcoGrid<T>(subdivisions)`: an ArgumentOutOfRangeException below one subdivision. */
  method NewIcoGrid<T(0)>(subdivisions: int) returns (r: Result<IcoGrid<T>>)
    ensures r.Ok? <==> subdivisions >= 1
    ensures r.Err? ==> r.error == ArgumentOutOfRange
    ensures r.Ok? ==> fresh(r.value) && fresh(r.value.vertices) && r.value.subdivisions == subdivisions && r.value.Valid()
  {
    if subdivisions < 1 {
      return Err(ArgumentOutOfRange);
    }
    var grid := new IcoGrid<T>(subdivisions);
    r := Ok(grid);
  }

  /** An edge between vertices `a` and `b` of a grid, sharing the grid's array of slots. */
  class Edge<T(0)> {
    const vertices: array<T>
    const a: int
    const b: int

    constructor (grid: IcoGrid<T>, a: int, b: int)
      ensures vertices == grid.vertices && this.a == a && this.b == b
    {
      vertices := grid.vertices;
      this.a := a;
      this.b := b;
    }

    /** Both ends name slots of the array; other edges would throw on access. */
    predicate Valid()
    {
      0 <= a < vertices.Length && 0 <= b < vertices.Length
    }

    function A(): T
      requires Valid()
      reads vertices
    {
      vertices[a]
    }

    function B(): T
      requires Valid()
      reads vertices
    {
      vertices[b]
    }

    /** Writes the slot of end `a`, in the grid itself: every edge at that vertex sees the value. */
    method SetA(value: T)
      requires Valid()
      modifies vertices
      ensures vertices[..] == old(vertices[..])[a := value]
      ensures A() == value && (b != a ==> B() == old(B()))
    {
      vertices[a] := value;
    }

    method SetB(value: T)
      requires Valid()
      modifies vertices
      ensures vertices[..] == old(vertices[..])[b := value]
      ensures B() == value && (b != a ==> A() == old(A()))
    {
      vertices[b] := value;
    }
  }
}
