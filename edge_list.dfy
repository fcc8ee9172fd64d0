/**
 * The edge enumeration of IcoLattice.Edges as a value: the three loops over the north cap,
 * the tropics and the south cap, each a nest of `for` loops that yield edges in turn.
 * `Concat(lo, hi, body)` is the sequence a loop `for (i = lo; i < hi; ++i)` yields when its
 * body yields `body(i)`.
 */
module IcoEdges {
  import opened IcoRows

  type Edge = (int, int)

  function Concat<T>(lo: int, hi: int, body: int -> seq<T>): seq<T>
    decreases hi - lo
  {
    if hi <= lo then [] else Concat(lo, hi - 1, body) + body(hi - 1)
  }

  // The north cap: rings 0..n-1, each with a spoke down every face and a row of
  // south-facing triangles. All remainders here have non-negative operands, where C#'s `%`
  // and Dafny's agree.

  /** The local `vertex` of the north cap: ring `lat` holds the numbers from PyramidSize(lat) on. */
  function NorthVertex(lat: int, face: int, div: int): (r: int)
    ensures lat == 0 ==> r == 0
    ensures lat >= 1 ==> PyramidSize(lat) <= r < PyramidSize(lat) + 5 * lat
  {
    if lat == 0 then 0 else PyramidSize(lat) + (face * lat + div) % (5 * lat)
  }

  function NorthSpoke(lat: int, face: int): Edge
  {
    (NorthVertex(lat, face, 0), NorthVertex(lat + 1, face, 0))
  }

  /** The three edges yielded for triangle (a, b, c): (a, b), (a, c) and (b, c). */
  function Triangle<T>(a: T, b: T, c: T): seq<(T, T)>
  {
    [(a, b), (a, c), (b, c)]
  }

  function NorthTriangle(lat: int, face: int, div: int): seq<Edge>
  {
    Triangle(NorthVertex(lat, face, div), NorthVertex(lat, face, div + 1), NorthVertex(lat + 1, face, div + 1))
  }

  function NorthTriangleBody(lat: int, face: int): int -> seq<Edge>
  {
    div => NorthTriangle(lat, face, div)
  }

  function NorthTriangles(lat: int, face: int, k: int): seq<Edge>
  {
    Concat(0, k, NorthTriangleBody(lat, face))
  }

  function NorthFace(lat: int, face: int): seq<Edge>
  {
    [NorthSpoke(lat, face)] + NorthTriangles(lat, face, lat)
  }

  function NorthFaceBody(lat: int): int -> seq<Edge>
  {
    face => NorthFace(lat, face)
  }

  function NorthFaces(lat: int, k: int): seq<Edge>
  {
    Concat(0, k, NorthFaceBody(lat))
  }

  function NorthRingBody(): int -> seq<Edge>
  {
    lat => NorthFaces(lat, 5)
  }

  function NorthRings(k: int): seq<Edge>
  {
    Concat(0, k, NorthRingBody())
  }

  // The tropics: rows 0..n-1 of 5n quadrilaterals, each split into two triangles.

  /** The local `vertex` of the tropics: row `lat` holds 5n numbers from northTropic + lat·5n on. */
  function TropicVertex(n: int, lat: int, div: int): (r: int)
    requires n >= 1
    ensures PyramidSize(n) + lat * (5 * n) <= r < PyramidSize(n) + lat * (5 * n) + 5 * n
  {
    PyramidSize(n) + lat * (5 * n) + div % (5 * n)
  }

  function TropicCell(n: int, lat: int, div: int): seq<Edge>
    requires n >= 1
  {
    Triangle(TropicVertex(n, lat, div), TropicVertex(n, lat, div + 1), TropicVertex(n, lat + 1, div))
  }

  function TropicCellBody(n: int, lat: int): int -> seq<Edge>
    requires n >= 1
  {
    div => TropicCell(n, lat, div)
  }

  function TropicCells(n: int, lat: int, k: int): seq<Edge>
    requires n >= 1
  {
    Concat(0, k, TropicCellBody(n, lat))
  }

  function TropicRowBody(n: int): int -> seq<Edge>
    requires n >= 1
  {
    lat => TropicCells(n, lat, 5 * n)
  }

  function TropicRows(n: int, k: int): seq<Edge>
    requires n >= 1
  {
    Concat(0, k, TropicRowBody(n))
  }

  // The south cap: rings 0..n-1 (the ring at latitude n is the south pole), each with a
  // row of triangles whose first one on every face has no (a, c) edge.

  /** The local `vertex` of the south cap: ring `lat` holds 5 (n - lat) numbers from its latStart on. */
  function SouthVertex(n: int, lat: int, face: int, div: int): (r: int)
    ensures lat == n ==> r == SouthRowStart(n, lat)
    ensures lat < n ==> SouthRowStart(n, lat) <= r < SouthRowStart(n, lat) + 5 * (n - lat)
  {
    var latLength := n - lat;
    var latStart := SouthRowStart(n, lat);
    if lat == n then latStart else latStart + (face * latLength + div) % (5 * latLength)
  }

  function SouthTriangle(n: int, lat: int, face: int, div: int): seq<Edge>
  {
    var a, b, c := SouthVertex(n, lat, face, div), SouthVertex(n, lat, face, div + 1), SouthVertex(n, lat + 1, face, div);
    [(a, b)] + (if div > 0 then [(a, c)] else []) + [(b, c)]
  }

  function SouthTriangleBody(n: int, lat: int, face: int): int -> seq<Edge>
  {
    div => SouthTriangle(n, lat, face, div)
  }

  function SouthTriangles(n: int, lat: int, face: int, k: int): seq<Edge>
  {
    Concat(0, k, SouthTriangleBody(n, lat, face))
  }

  function SouthFaceBody(n: int, lat: int): int -> seq<Edge>
  {
    face => SouthTriangles(n, lat, face, n - lat)
  }

  function SouthFaces(n: int, lat: int, k: int): seq<Edge>
  {
    Concat(0, k, SouthFaceBody(n, lat))
  }

  function SouthRingBody(n: int): int -> seq<Edge>
  {
    lat => SouthFaces(n, lat, 5)
  }

  function SouthRings(n: int, k: int): seq<Edge>
  {
    Concat(0, k, SouthRingBody(n))
  }

  /**
   * Every edge IcoLattice.Edges yields, in order: 30n² of them, half the degree sum of 12
   * vertices of degree 5 and 10n² - 10 of degree 6.
   */
  function EdgeList(n: int): (r: seq<Edge>)
    requires n >= 1
    ensures |r| == 30 * n * n
  {
    EdgeListLength(n);
    NorthRings(n) + TropicRows(n, n) + SouthRings(n, n)
  }

  lemma EdgeListLength(n: int)
    requires n >= 1
    ensures |NorthRings(n) + TropicRows(n, n) + SouthRings(n, n)| == 30 * n * n
  {
    NorthRingsLength(n);
    TropicRowsLength(n, n);
    SouthRingsLength(n, n);
    EdgeTotal(n, |NorthRings(n)|, |TropicRows(n, n)|, |SouthRings(n, n)|);
  }

  lemma EdgeTotal(n: int, north: int, tropics: int, south: int)
    requires 2 * north == 10 * n + 15 * (n * (n - 1))
    requires tropics == 15 * n * n
    requires 2 * south == 30 * (n * n) - 15 * (n * (n - 1)) - 10 * n
    ensures north + tropics + south == 30 * n * n
  {
  }

  lemma MulStep(n: int, k: int, m: int)
    requires m == k - 1
    ensures n * k == n * m + n
  {
  }

  lemma SquareStep(k: int, m: int)
    requires m == k - 1
    ensures k * (k - 1) == m * (m - 1) + 2 * m
  {
  }

  lemma {:induction false} NorthTrianglesLength(lat: int, face: int, k: int)
    requires k >= 0
    ensures |NorthTriangles(lat, face, k)| == 3 * k
  {
    if k > 0 {
      NorthTrianglesLength(lat, face, k - 1);
    }
  }

  lemma {:induction false} NorthFacesLength(lat: int, k: int)
    requires lat >= 0 && k >= 0
    ensures |NorthFaces(lat, k)| == k * (1 + 3 * lat)
  {
    if k > 0 {
      NorthFacesLength(lat, k - 1);
      NorthTrianglesLength(lat, k - 1, lat);
      assert (k - 1) * (1 + 3 * lat) + (1 + 3 * lat) == k * (1 + 3 * lat);
    }
  }

  lemma {:induction false} NorthRingsLength(k: int)
    requires k >= 0
    ensures 2 * |NorthRings(k)| == 10 * k + 15 * (k * (k - 1))
  {
    if k > 0 {
      var m := k - 1;
      NorthRingsLength(m);
      NorthFacesLength(m, 5);
      assert NorthRings(k) == NorthRings(m) + NorthFaces(m, 5);
      SquareStep(k, m);
    }
  }

  lemma {:induction false} TropicCellsLength(n: int, lat: int, k: int)
    requires n >= 1 && k >= 0
    ensures |TropicCells(n, lat, k)| == 3 * k
  {
    if k > 0 {
      TropicCellsLength(n, lat, k - 1);
    }
  }

  lemma {:induction false} TropicRowsLength(n: int, k: int)
    requires n >= 1 && k >= 0
    ensures |TropicRows(n, k)| == 15 * n * k
  {
    if k > 0 {
      TropicRowsLength(n, k - 1);
      TropicCellsLength(n, k - 1, 5 * n);
      assert 15 * n * (k - 1) + 3 * (5 * n) == 15 * n * k;
    }
  }

  lemma {:induction false} SouthTrianglesLength(n: int, lat: int, face: int, k: int)
    requires k >= 1
    ensures |SouthTriangles(n, lat, face, k)| == 3 * k - 1
  {
    if k > 1 {
      SouthTrianglesLength(n, lat, face, k - 1);
    }
  }

  lemma {:induction false} SouthFacesLength(n: int, lat: int, k: int)
    requires lat < n && k >= 0
    ensures |SouthFaces(n, lat, k)| == k * (3 * (n - lat) - 1)
  {
    if k > 0 {
      SouthFacesLength(n, lat, k - 1);
      SouthTrianglesLength(n, lat, k - 1, n - lat);
      assert (k - 1) * (3 * (n - lat) - 1) + (3 * (n - lat) - 1) == k * (3 * (n - lat) - 1);
    }
  }

  lemma {:induction false} SouthRingsLength(n: int, k: int)
    requires 0 <= k <= n
    ensures 2 * |SouthRings(n, k)| == 30 * (n * k) - 15 * (k * (k - 1)) - 10 * k
  {
    if k > 0 {
      var m := k - 1;
      SouthRingsLength(n, m);
      SouthFacesLength(n, m, 5);
      assert SouthRings(n, k) == SouthRings(n, m) + SouthFaces(n, m, 5);
      assert n * k == n * m + n by { MulStep(n, k, m); }
      SquareStep(k, m);
    }
  }

  // Neighbour lists: what the adjacency test adds to the set of vertex `v`, edge by edge. The
  // vertices may be numbers, or any other type of vertex names.

  function EndList<T(==)>(e: (T, T), v: T): seq<T>
  {
    (if e.0 == v then [e.1] else []) + (if e.1 == v then [e.0] else [])
  }

  function NeighbourList<T(==)>(es: seq<(T, T)>, v: T): seq<T>
  {
    if |es| == 0 then [] else NeighbourList(es[..|es| - 1], v) + EndList(es[|es| - 1], v)
  }

  /** The neighbours of `v` in `es`, counted with multiplicity. */
  function Neighbours<T(==)>(es: seq<(T, T)>, v: T): multiset<T>
  {
    if |es| == 0 then multiset{} else Neighbours(es[..|es| - 1], v) + Ends(es[|es| - 1], v)
  }

  function Ends<T(==)>(e: (T, T), v: T): multiset<T>
  {
    (if e.0 == v then multiset{e.1} else multiset{}) + (if e.1 == v then multiset{e.0} else multiset{})
  }

  /** The multiset of neighbours holds the elements of the list of neighbours. */
  lemma {:induction false} NeighboursList<T>(es: seq<(T, T)>, v: T)
    ensures Neighbours(es, v) == multiset(NeighbourList(es, v))
    decreases |es|
  {
    if |es| > 0 {
      NeighboursList(es[..|es| - 1], v);
      assert multiset(EndList(es[|es| - 1], v)) == Ends(es[|es| - 1], v);
    }
  }

  lemma {:induction false} NeighbourListAppend<T>(xs: seq<(T, T)>, ys: seq<(T, T)>, v: T)
    ensures NeighbourList(xs + ys, v) == NeighbourList(xs, v) + NeighbourList(ys, v)
    decreases |ys|
  {
    if |ys| > 0 {
      var zs := xs + ys;
      assert zs[..|zs| - 1] == xs + ys[..|ys| - 1];
      NeighbourListAppend(xs, ys[..|ys| - 1], v);
    } else {
      assert xs + ys == xs;
    }
  }

  lemma {:induction false} NeighboursAppend<T>(xs: seq<(T, T)>, ys: seq<(T, T)>, v: T)
    ensures Neighbours(xs + ys, v) == Neighbours(xs, v) + Neighbours(ys, v)
    decreases |ys|
  {
    if |ys| > 0 {
      var zs := xs + ys;
      assert zs[..|zs| - 1] == xs + ys[..|ys| - 1];
      assert zs[|zs| - 1] == ys[|ys| - 1];
      NeighboursAppend(xs, ys[..|ys| - 1], v);
    } else {
      assert xs + ys == xs;
    }
  }

  lemma NeighboursTriple<T>(e1: (T, T), e2: (T, T), e3: (T, T), v: T)
    ensures Neighbours([e1, e2, e3], v) == Ends(e1, v) + Ends(e2, v) + Ends(e3, v)
    ensures Neighbours([e1, e3], v) == Ends(e1, v) + Ends(e3, v)
    ensures Neighbours([e1], v) == Ends(e1, v)
  {
    assert [e1][..0] == [];
    assert Neighbours([e1], v) == multiset{} + Ends(e1, v) == Ends(e1, v);
    assert [e1, e3][..1] == [e1];
    assert [e1, e2][..1] == [e1];
    assert [e1, e2, e3][..2] == [e1, e2];
    assert Neighbours([e1, e2], v) == Ends(e1, v) + Ends(e2, v);
  }

  lemma TriangleNeighbours<T>(a: T, b: T, c: T, v: T)
    ensures Neighbours(Triangle(a, b, c), v) ==
      (if a == v then multiset{b, c} else multiset{}) +
      (if b == v then multiset{a, c} else multiset{}) +
      (if c == v then multiset{a, b} else multiset{})
  {
    NeighboursTriple((a, b), (a, c), (b, c), v);
  }

  lemma UnionEmpty<T>(a: multiset<T>)
    ensures multiset{} + a == a && a + multiset{} == a
  {
  }

  /** No edge of `es` has `v` as an end. */
  predicate Avoids<T(==)>(es: seq<(T, T)>, v: T)
  {
    forall j :: 0 <= j < |es| ==> es[j].0 != v && es[j].1 != v
  }

  lemma {:induction false} AvoidsNeighbours<T>(es: seq<(T, T)>, v: T)
    requires Avoids(es, v)
    ensures Neighbours(es, v) == multiset{}
    decreases |es|
  {
    if |es| > 0 {
      AvoidsNeighbours(es[..|es| - 1], v);
    }
  }

  lemma AvoidsAppend<T>(xs: seq<(T, T)>, ys: seq<(T, T)>, v: T)
    requires Avoids(xs, v) && Avoids(ys, v)
    ensures Avoids(xs + ys, v)
  {
    forall j | 0 <= j < |xs + ys|
      ensures (xs + ys)[j].0 != v && (xs + ys)[j].1 != v
    {
      if j >= |xs| {
        assert (xs + ys)[j] == ys[j - |xs|];
      }
    }
  }

  /** A loop whose every body avoids `v` avoids it. */
  lemma {:induction false} ConcatAvoids<T>(lo: int, hi: int, body: int -> seq<(T, T)>, v: T)
    requires forall k :: lo <= k < hi ==> Avoids(body(k), v)
    ensures Avoids(Concat(lo, hi, body), v)
    decreases hi - lo
  {
    if hi > lo {
      ConcatAvoids(lo, hi - 1, body, v);
      AvoidsAppend(Concat(lo, hi - 1, body), body(hi - 1), v);
    }
  }

  // The neighbours a single triangle or edge gives a vertex, case by case.

  lemma TriangleHitA<T>(a: T, b: T, c: T, v: T)
    requires a == v && b != v && c != v
    ensures Neighbours(Triangle(a, b, c), v) == multiset{b, c}
  {
    TriangleNeighbours(a, b, c, v);
  }

  lemma TriangleHitB<T>(a: T, b: T, c: T, v: T)
    requires a != v && b == v && c != v
    ensures Neighbours(Triangle(a, b, c), v) == multiset{a, c}
  {
    TriangleNeighbours(a, b, c, v);
  }

  lemma TriangleHitC<T>(a: T, b: T, c: T, v: T)
    requires a != v && b != v && c == v
    ensures Neighbours(Triangle(a, b, c), v) == multiset{a, b}
  {
    TriangleNeighbours(a, b, c, v);
  }

  lemma TriangleMiss<T>(a: T, b: T, c: T, v: T)
    requires a != v && b != v && c != v
    ensures Avoids(Triangle(a, b, c), v)
  {
  }

  /** Two edges through `b`. */
  function Path<T>(a: T, b: T, c: T): seq<(T, T)>
  {
    [(a, b), (b, c)]
  }

  lemma PathNeighbours<T>(a: T, b: T, c: T, v: T)
    ensures Neighbours(Path(a, b, c), v) ==
      (if a == v then multiset{b} else multiset{}) +
      (if b == v then multiset{a, c} else multiset{}) +
      (if c == v then multiset{b} else multiset{})
  {
    NeighboursTriple((a, b), (a, b), (b, c), v);
  }

  lemma PathHitA<T>(a: T, b: T, c: T, v: T)
    requires a == v && b != v && c != v
    ensures Neighbours(Path(a, b, c), v) == multiset{b}
  {
    PathNeighbours(a, b, c, v);
  }

  lemma PathHitB<T>(a: T, b: T, c: T, v: T)
    requires a != v && b == v && c != v
    ensures Neighbours(Path(a, b, c), v) == multiset{a, c}
  {
    PathNeighbours(a, b, c, v);
  }

  lemma PathHitC<T>(a: T, b: T, c: T, v: T)
    requires a != v && b != v && c == v
    ensures Neighbours(Path(a, b, c), v) == multiset{b}
  {
    PathNeighbours(a, b, c, v);
  }

  lemma PathMiss<T>(a: T, b: T, c: T, v: T)
    requires a != v && b != v && c != v
    ensures Avoids(Path(a, b, c), v)
  {
  }

  lemma EdgeHitA<T>(a: T, b: T, v: T)
    requires a == v && b != v
    ensures Neighbours([(a, b)], v) == multiset{b}
  {
    NeighboursTriple((a, b), (a, b), (a, b), v);
  }

  lemma EdgeHitB<T>(a: T, b: T, v: T)
    requires a != v && b == v
    ensures Neighbours([(a, b)], v) == multiset{a}
  {
    NeighboursTriple((a, b), (a, b), (a, b), v);
  }

  lemma EdgeMiss<T>(a: T, b: T, v: T)
    requires a != v && b != v
    ensures Avoids([(a, b)], v)
  {
  }

  lemma AvoidsQuiet<T>(lo: int, hi: int, body: int -> seq<(T, T)>, v: T, i: int, j: int)
    requires forall k :: lo <= k < hi && k != i && k != j ==> Avoids(body(k), v)
    ensures forall k :: lo <= k < hi && k != i && k != j ==> Neighbours(body(k), v) == multiset{}
  {
    forall k | lo <= k < hi && k != i && k != j
      ensures Neighbours(body(k), v) == multiset{}
    {
      AvoidsNeighbours(body(k), v);
    }
  }

  /** Only the bodies that touch `v` contribute neighbours; here at most two of them. */
  lemma {:induction false} ConcatNeighbours<T>(lo: int, hi: int, body: int -> seq<(T, T)>, v: T, i: int, j: int)
    requires i != j
    requires forall k :: lo <= k < hi && k != i && k != j ==> Neighbours(body(k), v) == multiset{}
    ensures Neighbours(Concat(lo, hi, body), v) == Hit(lo, hi, body, v, i) + Hit(lo, hi, body, v, j)
    decreases hi - lo
  {
    if hi > lo {
      ConcatNeighbours(lo, hi - 1, body, v, i, j);
      NeighboursAppend(Concat(lo, hi - 1, body), body(hi - 1), v);
      var last := hi - 1;
      if last == i {
        assert Hit(lo, hi, body, v, j) == Hit(lo, hi - 1, body, v, j);
        assert Hit(lo, hi, body, v, i) == Neighbours(body(last), v) && Hit(lo, hi - 1, body, v, i) == multiset{};
      } else if last == j {
        assert Hit(lo, hi, body, v, i) == Hit(lo, hi - 1, body, v, i);
        assert Hit(lo, hi, body, v, j) == Neighbours(body(last), v) && Hit(lo, hi - 1, body, v, j) == multiset{};
      } else {
        assert Neighbours(body(last), v) == multiset{};
        assert Hit(lo, hi, body, v, i) == Hit(lo, hi - 1, body, v, i);
        assert Hit(lo, hi, body, v, j) == Hit(lo, hi - 1, body, v, j);
      }
    }
  }

  function Hit<T(==)>(lo: int, hi: int, body: int -> seq<(T, T)>, v: T, i: int): multiset<T>
  {
    if lo <= i < hi then Neighbours(body(i), v) else multiset{}
  }

  lemma ConcatNeighboursOne<T>(lo: int, hi: int, body: int -> seq<(T, T)>, v: T, i: int)
    requires lo <= i < hi
    requires forall k :: lo <= k < hi && k != i ==> Avoids(body(k), v)
    ensures Neighbours(Concat(lo, hi, body), v) == Neighbours(body(i), v)
  {
    AvoidsQuiet(lo, hi, body, v, i, hi);
    ConcatNeighbours(lo, hi, body, v, i, hi);
  }

  lemma ConcatNeighboursTwo<T>(lo: int, hi: int, body: int -> seq<(T, T)>, v: T, i: int, j: int)
    requires lo <= i < hi && lo <= j < hi && i != j
    requires forall k :: lo <= k < hi && k != i && k != j ==> Avoids(body(k), v)
    ensures Neighbours(Concat(lo, hi, body), v) == Neighbours(body(i), v) + Neighbours(body(j), v)
  {
    AvoidsQuiet(lo, hi, body, v, i, j);
    ConcatNeighbours(lo, hi, body, v, i, j);
  }

  lemma ConcatNeighboursLast<T>(lo: int, hi: int, body: int -> seq<(T, T)>, v: T)
    requires lo < hi
    ensures Neighbours(Concat(lo, hi, body), v) == Neighbours(Concat(lo, hi - 1, body), v) + Neighbours(body(hi - 1), v)
  {
    NeighboursAppend(Concat(lo, hi - 1, body), body(hi - 1), v);
  }

  /** The neighbours from a loop where only body `i` touches `v`, with what it gives. */
  lemma ConcatNeighboursSingle<T>(lo: int, hi: int, body: int -> seq<(T, T)>, v: T, i: int, m: multiset<T>)
    requires lo <= i < hi
    requires forall k :: lo <= k < hi && k != i ==> Avoids(body(k), v)
    requires Neighbours(body(i), v) == m
    ensures Neighbours(Concat(lo, hi, body), v) == m
  {
    AvoidsQuiet(lo, hi, body, v, i, hi);
    ConcatNeighbours(lo, hi, body, v, i, hi);
  }

  /** The neighbours from a loop where only bodies `i` and `j` touch `v`, with what each gives. */
  lemma ConcatNeighboursPair<T>(lo: int, hi: int, body: int -> seq<(T, T)>, v: T, i: int, j: int, mi: multiset<T>, mj: multiset<T>)
    requires lo <= i < hi && lo <= j < hi && i != j
    requires forall k :: lo <= k < hi && k != i && k != j ==> Avoids(body(k), v)
    requires Neighbours(body(i), v) == mi && Neighbours(body(j), v) == mj
    ensures Neighbours(Concat(lo, hi, body), v) == mi + mj
  {
    AvoidsQuiet(lo, hi, body, v, i, j);
    ConcatNeighbours(lo, hi, body, v, i, j);
  }

  /** The neighbours from a loop over five faces, face by face. */
  lemma ConcatNeighboursFive<T>(body: int -> seq<(T, T)>, v: T, m0: multiset<T>, m1: multiset<T>, m2: multiset<T>, m3: multiset<T>, m4: multiset<T>)
    requires Neighbours(body(0), v) == m0 && Neighbours(body(1), v) == m1 && Neighbours(body(2), v) == m2
    requires Neighbours(body(3), v) == m3 && Neighbours(body(4), v) == m4
    ensures Neighbours(Concat(0, 5, body), v) == m0 + m1 + m2 + m3 + m4
  {
    assert Concat(0, 0, body) == [];
    ConcatNeighboursLast(0, 1, body, v);
    UnionEmpty(m0);
    ConcatNeighboursLast(0, 2, body, v);
    ConcatNeighboursLast(0, 3, body, v);
    ConcatNeighboursLast(0, 4, body, v);
    ConcatNeighboursLast(0, 5, body, v);
  }

  // One more iteration of each loop appends one more body.

  lemma NorthLoopStep(lat: int, face: int, k: int)
    requires k >= 0
    ensures NorthTriangles(lat, face, k + 1) == NorthTriangles(lat, face, k) + NorthTriangle(lat, face, k)
    ensures NorthFaces(lat, k + 1) == NorthFaces(lat, k) + NorthFace(lat, k)
    ensures NorthRings(k + 1) == NorthRings(k) + NorthFaces(k, 5)
  {
  }

  lemma TropicLoopStep(n: int, lat: int, k: int)
    requires n >= 1 && k >= 0
    ensures TropicCells(n, lat, k + 1) == TropicCells(n, lat, k) + TropicCell(n, lat, k)
    ensures TropicRows(n, k + 1) == TropicRows(n, k) + TropicCells(n, k, 5 * n)
  {
  }

  lemma SouthLoopStep(n: int, lat: int, face: int, k: int)
    requires k >= 0
    ensures SouthTriangles(n, lat, face, k + 1) == SouthTriangles(n, lat, face, k) + SouthTriangle(n, lat, face, k)
    ensures SouthFaces(n, lat, k + 1) == SouthFaces(n, lat, k) + SouthTriangles(n, lat, k, n - lat)
    ensures SouthRings(n, k + 1) == SouthRings(n, k) + SouthFaces(n, k, 5)
  {
  }
}
