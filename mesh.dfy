/**
 * The neighbours every vertex gets from the whole edge list of IcoLattice.Edges. A vertex on
 * row r meets two loops: the ring or row joining row r - 1 to row r ("above"), and the one
 * joining row r to row r + 1 ("below"). `Expected` lists what the two give, and
 * `EdgeListVNeighbours` proves that the edge list gives exactly those neighbours, counted
 * with multiplicity.
 */
module IcoMesh {
  import opened IcoRows
  import opened IcoEdges
  import opened IcoVertices
  import opened IcoNamedEdges
  import opened IcoNorthMesh
  import opened IcoTropicMesh
  import opened IcoSouthMesh

  /** What x gets from the loop joining its row to the row below. */
  function Below(n: int, x: Vertex): seq<Vertex>
  {
    var r, F, D := x.row, x.face, x.div;
    if r == 0 then NorthPoleOwn()
    else if r < n then NorthOwn(r, F, D)
    else if r < 2 * n then TropicOwn(n, r - n, F, D)
    else if r < 3 * n then SouthOwn(n, r - 2 * n, F, D)
    else []
  }

  /** What x gets from the loop joining the row above to its row. */
  function Above(n: int, x: Vertex): seq<Vertex>
  {
    var r, F, D := x.row, x.face, x.div;
    if r == 0 then []
    else if r <= n then NorthUp(r - 1, F, D)
    else if r <= 2 * n then TropicUp(n, r - n - 1, F, D)
    else if r < 3 * n then SouthUp(n, r - 2 * n - 1, F, D)
    else SouthPoleOwn(n)
  }

  /** The neighbours of x in the lattice with n subdivisions. */
  function Expected(n: int, x: Vertex): seq<Vertex>
  {
    Above(n, x) + Below(n, x)
  }

  // The ring and row lemmas at a vertex given by name, so that callers need not match
  // `V(lat + 1, F, E)` against `V(r, F, E)` inside a larger proof.

  lemma {:induction false} NorthRingOwnAt(lat: int, F: int, D: int, x: Vertex)
    requires 1 <= lat && 0 <= F < 5 && 0 <= D < lat && x == V(lat, F, D)
    ensures Neighbours(NorthRingV(lat), x) == multiset(NorthOwn(lat, F, D))
  {
    NorthRingOwn(lat, F, D);
  }

  lemma {:induction false} NorthRingUpAt(lat: int, F: int, E: int, x: Vertex)
    requires 0 <= lat && 0 <= F < 5 && 0 <= E <= lat && x == V(lat + 1, F, E)
    ensures Neighbours(NorthRingV(lat), x) == multiset(NorthUp(lat, F, E))
  {
    NorthRingUp(lat, F, E);
  }

  lemma {:induction false} TropicRowOwnAt(n: int, t: int, F: int, D: int, x: Vertex)
    requires 0 <= F < 5 && 0 <= D < n && x == V(n + t, F, D)
    ensures Neighbours(TropicRowBodyV(n)(t), x) == multiset(TropicOwn(n, t, F, D))
  {
    TropicRowOwn(n, t, F, D);
  }

  lemma {:induction false} TropicRowUpAt(n: int, t: int, F: int, D: int, x: Vertex)
    requires 0 <= F < 5 && 0 <= D < n && x == V(n + t + 1, F, D)
    ensures Neighbours(TropicRowBodyV(n)(t), x) == multiset(TropicUp(n, t, F, D))
  {
    TropicRowUp(n, t, F, D);
  }

  lemma {:induction false} SouthRingOwnAt(n: int, lat: int, F: int, D: int, x: Vertex)
    requires 0 <= lat < n && 0 <= F < 5 && 0 <= D < n - lat && x == V(2 * n + lat, F, D)
    ensures Neighbours(SouthRingV(n, lat), x) == multiset(SouthOwn(n, lat, F, D))
  {
    SouthRingOwn(n, lat, F, D);
  }

  lemma {:induction false} SouthRingUpAt(n: int, lat: int, F: int, E: int, x: Vertex)
    requires 0 <= lat && lat + 1 < n && 0 <= F < 5 && 0 <= E < n - lat - 1 && x == V(2 * n + lat + 1, F, E)
    ensures Neighbours(SouthRingV(n, lat), x) == multiset(SouthUp(n, lat, F, E))
  {
    SouthRingUp(n, lat, F, E);
  }

  lemma {:induction false} SouthRingPoleAt(n: int, lat: int, x: Vertex)
    requires 0 <= lat && lat + 1 == n && x == SouthPoleV(n)
    ensures Neighbours(SouthRingV(n, lat), x) == multiset(SouthPoleOwn(n))
  {
    SouthRingPole(n, lat);
  }

  // The north cap.

  /** Only rings x.row - 1 and x.row touch x; `i` and `j` name them in either order. */
  lemma {:induction false} NorthCapQuiet(n: int, x: Vertex, i: int, j: int)
    requires n >= 1 && ((i == x.row && j == x.row - 1) || (i == x.row - 1 && j == x.row))
    ensures forall lat :: 0 <= lat < n && lat != i && lat != j ==> Avoids(NorthRingBodyV()(lat), x)
  {
    forall lat | 0 <= lat < n && lat != i && lat != j
      ensures Avoids(NorthRingBodyV()(lat), x)
    {
      NorthRingIn(n, lat);
      AvoidsOutside(n, NorthRingV(lat), lat, lat + 1, x);
    }
  }

  lemma {:induction false} NorthCapQuietOne(n: int, x: Vertex, i: int, j: int)
    requires n >= 1 && ((i == x.row && j == x.row - 1) || (i == x.row - 1 && j == x.row)) && !(0 <= j < n)
    ensures forall lat :: 0 <= lat < n && lat != i ==> Avoids(NorthRingBodyV()(lat), x)
  {
    NorthCapQuiet(n, x, i, j);
  }

  /** The cap gives x what rings i and j give it, when those are the only rings touching x. */
  lemma {:induction false} NorthCapFrom(n: int, x: Vertex, i: int, j: int, mi: multiset<Vertex>, mj: multiset<Vertex>)
    requires n >= 1 && ((i == x.row && j == x.row - 1) || (i == x.row - 1 && j == x.row)) && 0 <= i < n && 0 <= j < n
    requires Neighbours(NorthRingV(i), x) == mi && Neighbours(NorthRingV(j), x) == mj
    ensures Neighbours(NorthCapV(n), x) == mi + mj
  {
    NorthCapQuiet(n, x, i, j);
    ConcatNeighboursPair(0, n, NorthRingBodyV(), x, i, j, mi, mj);
  }

  lemma {:induction false} NorthCapFromOne(n: int, x: Vertex, i: int, j: int, m: multiset<Vertex>)
    requires n >= 1 && ((i == x.row && j == x.row - 1) || (i == x.row - 1 && j == x.row)) && 0 <= i < n && !(0 <= j < n)
    requires Neighbours(NorthRingV(i), x) == m
    ensures Neighbours(NorthCapV(n), x) == m
  {
    NorthCapQuietOne(n, x, i, j);
    ConcatNeighboursSingle(0, n, NorthRingBodyV(), x, i, m);
  }

  lemma {:induction false} NorthCapPole(n: int, i: int, x: Vertex)
    requires n >= 1 && i == 0 && x == NorthPoleV()
    ensures Neighbours(NorthCapV(n), x) == multiset(NorthPoleOwn())
  {
    NorthRingPole(i);
    NorthCapFromOne(n, x, i, i - 1, multiset(NorthPoleOwn()));
  }

  lemma {:induction false} NorthCapRow(n: int, r: int, q: int, F: int, D: int, x: Vertex)
    requires 1 <= r < n && 0 <= F < 5 && 0 <= D < r && q == r - 1 && x == V(r, F, D)
    ensures Neighbours(NorthCapV(n), x) == multiset(NorthOwn(r, F, D)) + multiset(NorthUp(q, F, D))
  {
    NorthRingOwnAt(r, F, D, x);
    NorthRingUpAt(q, F, D, x);
    NorthCapFrom(n, x, r, q, multiset(NorthOwn(r, F, D)), multiset(NorthUp(q, F, D)));
  }

  lemma {:induction false} NorthCapRim(n: int, q: int, F: int, D: int, x: Vertex)
    requires 1 <= n && 0 <= F < 5 && 0 <= D < n && q == n - 1 && x == V(n, F, D)
    ensures Neighbours(NorthCapV(n), x) == multiset(NorthUp(q, F, D))
  {
    NorthRingUpAt(q, F, D, x);
    NorthCapFromOne(n, x, q, n, multiset(NorthUp(q, F, D)));
  }

  lemma {:induction false} NorthCapBelow(n: int, x: Vertex)
    requires n >= 1 && x.row > n
    ensures Neighbours(NorthCapV(n), x) == multiset{}
  {
    NorthCapIn(n);
    AvoidsOutside(n, NorthCapV(n), 0, n, x);
    AvoidsNeighbours(NorthCapV(n), x);
  }

  // The tropics.

  /** Only tropic rows x.row - n - 1 and x.row - n touch x; `i` and `j` name them in either order. */
  lemma {:induction false} TropicsQuiet(n: int, x: Vertex, i: int, j: int)
    requires n >= 1 && ((i == x.row - n && j == x.row - n - 1) || (i == x.row - n - 1 && j == x.row - n))
    ensures forall t :: 0 <= t < n && t != i && t != j ==> Avoids(TropicRowBodyV(n)(t), x)
  {
    forall t | 0 <= t < n && t != i && t != j
      ensures Avoids(TropicRowBodyV(n)(t), x)
    {
      TropicRowIn(n, t);
      AvoidsOutside(n, TropicRowBodyV(n)(t), n + t, n + t + 1, x);
    }
  }

  lemma {:induction false} TropicsQuietOne(n: int, x: Vertex, i: int, j: int)
    requires n >= 1 && ((i == x.row - n && j == x.row - n - 1) || (i == x.row - n - 1 && j == x.row - n)) && !(0 <= j < n)
    ensures forall t :: 0 <= t < n && t != i ==> Avoids(TropicRowBodyV(n)(t), x)
  {
    TropicsQuiet(n, x, i, j);
  }

  lemma {:induction false} TropicsFrom(n: int, x: Vertex, i: int, j: int, mi: multiset<Vertex>, mj: multiset<Vertex>)
    requires n >= 1 && ((i == x.row - n && j == x.row - n - 1) || (i == x.row - n - 1 && j == x.row - n)) && 0 <= i < n && 0 <= j < n
    requires Neighbours(TropicRowBodyV(n)(i), x) == mi && Neighbours(TropicRowBodyV(n)(j), x) == mj
    ensures Neighbours(TropicsV(n, n), x) == mi + mj
  {
    TropicsQuiet(n, x, i, j);
    ConcatNeighboursPair(0, n, TropicRowBodyV(n), x, i, j, mi, mj);
  }

  lemma {:induction false} TropicsFromOne(n: int, x: Vertex, i: int, j: int, m: multiset<Vertex>)
    requires n >= 1 && ((i == x.row - n && j == x.row - n - 1) || (i == x.row - n - 1 && j == x.row - n)) && 0 <= i < n && !(0 <= j < n)
    requires Neighbours(TropicRowBodyV(n)(i), x) == m
    ensures Neighbours(TropicsV(n, n), x) == m
  {
    TropicsQuietOne(n, x, i, j);
    ConcatNeighboursSingle(0, n, TropicRowBodyV(n), x, i, m);
  }

  lemma {:induction false} TropicsTop(n: int, t: int, F: int, D: int, x: Vertex)
    requires 1 <= n && 0 <= F < 5 && 0 <= D < n && t == 0 && x == V(n + t, F, D)
    ensures Neighbours(TropicsV(n, n), x) == multiset(TropicOwn(n, t, F, D))
  {
    TropicRowOwnAt(n, t, F, D, x);
    TropicsFromOne(n, x, t, t - 1, multiset(TropicOwn(n, t, F, D)));
  }

  lemma {:induction false} TropicsRow(n: int, t: int, s: int, F: int, D: int, x: Vertex)
    requires 1 <= t < n && 0 <= F < 5 && 0 <= D < n && s == t - 1 && x == V(n + t, F, D)
    ensures Neighbours(TropicsV(n, n), x) == multiset(TropicOwn(n, t, F, D)) + multiset(TropicUp(n, s, F, D))
  {
    TropicRowOwnAt(n, t, F, D, x);
    TropicRowUpAt(n, s, F, D, x);
    TropicsFrom(n, x, t, s, multiset(TropicOwn(n, t, F, D)), multiset(TropicUp(n, s, F, D)));
  }

  lemma {:induction false} TropicsBottom(n: int, s: int, F: int, D: int, x: Vertex)
    requires 1 <= n && 0 <= F < 5 && 0 <= D < n && s == n - 1 && x == V(2 * n, F, D)
    ensures Neighbours(TropicsV(n, n), x) == multiset(TropicUp(n, s, F, D))
  {
    TropicRowUpAt(n, s, F, D, x);
    TropicsFromOne(n, x, s, n, multiset(TropicUp(n, s, F, D)));
  }

  lemma {:induction false} TropicsOutside(n: int, x: Vertex)
    requires n >= 1 && (x.row < n || x.row > 2 * n)
    ensures Neighbours(TropicsV(n, n), x) == multiset{}
  {
    TropicsIn(n);
    AvoidsOutside(n, TropicsV(n, n), n, 2 * n, x);
    AvoidsNeighbours(TropicsV(n, n), x);
  }

  // The south cap.

  /** Only south rings x.row - 2n - 1 and x.row - 2n touch x; `i` and `j` name them in either order. */
  lemma {:induction false} SouthCapQuiet(n: int, x: Vertex, i: int, j: int)
    requires n >= 1 && ((i == x.row - 2 * n && j == x.row - 2 * n - 1) || (i == x.row - 2 * n - 1 && j == x.row - 2 * n))
    ensures forall lat :: 0 <= lat < n && lat != i && lat != j ==> Avoids(SouthRingBodyV(n)(lat), x)
  {
    forall lat | 0 <= lat < n && lat != i && lat != j
      ensures Avoids(SouthRingBodyV(n)(lat), x)
    {
      SouthRingIn(n, lat);
      AvoidsOutside(n, SouthRingV(n, lat), 2 * n + lat, 2 * n + lat + 1, x);
    }
  }

  lemma {:induction false} SouthCapQuietOne(n: int, x: Vertex, i: int, j: int)
    requires n >= 1 && ((i == x.row - 2 * n && j == x.row - 2 * n - 1) || (i == x.row - 2 * n - 1 && j == x.row - 2 * n)) && !(0 <= j < n)
    ensures forall lat :: 0 <= lat < n && lat != i ==> Avoids(SouthRingBodyV(n)(lat), x)
  {
    SouthCapQuiet(n, x, i, j);
  }

  lemma {:induction false} SouthCapFrom(n: int, x: Vertex, i: int, j: int, mi: multiset<Vertex>, mj: multiset<Vertex>)
    requires n >= 1 && ((i == x.row - 2 * n && j == x.row - 2 * n - 1) || (i == x.row - 2 * n - 1 && j == x.row - 2 * n)) && 0 <= i < n && 0 <= j < n
    requires Neighbours(SouthRingV(n, i), x) == mi && Neighbours(SouthRingV(n, j), x) == mj
    ensures Neighbours(SouthCapV(n, n), x) == mi + mj
  {
    SouthCapQuiet(n, x, i, j);
    ConcatNeighboursPair(0, n, SouthRingBodyV(n), x, i, j, mi, mj);
  }

  lemma {:induction false} SouthCapFromOne(n: int, x: Vertex, i: int, j: int, m: multiset<Vertex>)
    requires n >= 1 && ((i == x.row - 2 * n && j == x.row - 2 * n - 1) || (i == x.row - 2 * n - 1 && j == x.row - 2 * n)) && 0 <= i < n && !(0 <= j < n)
    requires Neighbours(SouthRingV(n, i), x) == m
    ensures Neighbours(SouthCapV(n, n), x) == m
  {
    SouthCapQuietOne(n, x, i, j);
    ConcatNeighboursSingle(0, n, SouthRingBodyV(n), x, i, m);
  }

  lemma {:induction false} SouthCapTop(n: int, lat: int, F: int, D: int, x: Vertex)
    requires 1 <= n && 0 <= F < 5 && 0 <= D < n && lat == 0 && x == V(2 * n + lat, F, D)
    ensures Neighbours(SouthCapV(n, n), x) == multiset(SouthOwn(n, lat, F, D))
  {
    SouthRingOwnAt(n, lat, F, D, x);
    SouthCapFromOne(n, x, lat, lat - 1, multiset(SouthOwn(n, lat, F, D)));
  }

  lemma {:induction false} SouthCapRow(n: int, lat: int, s: int, F: int, D: int, x: Vertex)
    requires 1 <= lat < n && 0 <= F < 5 && 0 <= D < n - lat && s == lat - 1 && x == V(2 * n + lat, F, D)
    ensures Neighbours(SouthCapV(n, n), x) == multiset(SouthOwn(n, lat, F, D)) + multiset(SouthUp(n, s, F, D))
  {
    SouthRingOwnAt(n, lat, F, D, x);
    SouthRingUpAt(n, s, F, D, x);
    SouthCapFrom(n, x, lat, s, multiset(SouthOwn(n, lat, F, D)), multiset(SouthUp(n, s, F, D)));
  }

  lemma {:induction false} SouthCapPole(n: int, s: int, x: Vertex)
    requires n >= 1 && s == n - 1 && x == SouthPoleV(n)
    ensures Neighbours(SouthCapV(n, n), x) == multiset(SouthPoleOwn(n))
  {
    SouthRingPoleAt(n, s, x);
    SouthCapFromOne(n, x, s, n, multiset(SouthPoleOwn(n)));
  }

  lemma {:induction false} SouthCapAbove(n: int, x: Vertex)
    requires n >= 1 && x.row < 2 * n
    ensures Neighbours(SouthCapV(n, n), x) == multiset{}
  {
    SouthCapIn(n);
    AvoidsOutside(n, SouthCapV(n, n), 2 * n, 3 * n, x);
    AvoidsNeighbours(SouthCapV(n, n), x);
  }

  // The whole list.

  lemma {:induction false} EdgeListVSplit(n: int, x: Vertex)
    ensures Neighbours(EdgeListV(n), x) ==
      Neighbours(NorthCapV(n), x) + Neighbours(TropicsV(n, n), x) + Neighbours(SouthCapV(n, n), x)
  {
    NeighboursAppend(NorthCapV(n), TropicsV(n, n), x);
    NeighboursAppend(NorthCapV(n) + TropicsV(n, n), SouthCapV(n, n), x);
  }

  // What Expected is in each region.

  lemma ExpectedNorthPole(n: int, x: Vertex)
    requires n >= 1 && x == NorthPoleV()
    ensures Expected(n, x) == NorthPoleOwn()
  {
  }

  lemma ExpectedNorthRow(n: int, r: int, q: int, F: int, D: int, x: Vertex)
    requires 1 <= r < n && q == r - 1 && x == V(r, F, D)
    ensures Expected(n, x) == NorthUp(q, F, D) + NorthOwn(r, F, D)
  {
  }

  lemma ExpectedNorthRim(n: int, q: int, t: int, F: int, D: int, x: Vertex)
    requires n >= 1 && q == n - 1 && t == 0 && x == V(n, F, D)
    ensures Expected(n, x) == NorthUp(q, F, D) + TropicOwn(n, t, F, D)
  {
  }

  lemma ExpectedTropicRow(n: int, t: int, s: int, F: int, D: int, x: Vertex)
    requires 1 <= t < n && s == t - 1 && x == V(n + t, F, D)
    ensures Expected(n, x) == TropicUp(n, s, F, D) + TropicOwn(n, t, F, D)
  {
  }

  lemma ExpectedSouthRim(n: int, s: int, lat: int, F: int, D: int, x: Vertex)
    requires n >= 1 && s == n - 1 && lat == 0 && x == V(2 * n, F, D)
    ensures Expected(n, x) == TropicUp(n, s, F, D) + SouthOwn(n, lat, F, D)
  {
  }

  lemma ExpectedSouthRow(n: int, lat: int, s: int, F: int, D: int, x: Vertex)
    requires 1 <= lat < n && s == lat - 1 && x == V(2 * n + lat, F, D)
    ensures Expected(n, x) == SouthUp(n, s, F, D) + SouthOwn(n, lat, F, D)
  {
  }

  lemma ExpectedSouthPole(n: int, x: Vertex)
    requires n >= 1 && x == SouthPoleV(n)
    ensures Expected(n, x) == SouthPoleOwn(n)
  {
  }

  // Each region of the lattice.

  lemma {:induction false} NorthPoleNeighbours(n: int, x: Vertex)
    requires n >= 1 && x == NorthPoleV()
    ensures Neighbours(EdgeListV(n), x) == multiset(Expected(n, x))
  {
    EdgeListVSplit(n, x);
    TropicsOutside(n, x);
    SouthCapAbove(n, x);
    NorthCapPole(n, 0, x);
    ExpectedNorthPole(n, x);
  }

  lemma {:induction false} NorthRowNeighbours(n: int, r: int, q: int, F: int, D: int, x: Vertex)
    requires 1 <= r < n && 0 <= F < 5 && 0 <= D < r && q == r - 1 && x == V(r, F, D)
    ensures Neighbours(EdgeListV(n), x) == multiset(Expected(n, x))
  {
    EdgeListVSplit(n, x);
    TropicsOutside(n, x);
    SouthCapAbove(n, x);
    NorthCapRow(n, r, q, F, D, x);
    ExpectedNorthRow(n, r, q, F, D, x);
  }

  lemma {:induction false} NorthRimNeighbours(n: int, q: int, t: int, F: int, D: int, x: Vertex)
    requires 1 <= n && 0 <= F < 5 && 0 <= D < n && q == n - 1 && t == 0 && x == V(n, F, D) && x == V(n + t, F, D)
    ensures Neighbours(EdgeListV(n), x) == multiset(Expected(n, x))
  {
    EdgeListVSplit(n, x);
    NorthCapRim(n, q, F, D, x);
    TropicsTop(n, t, F, D, x);
    SouthCapAbove(n, x);
    ExpectedNorthRim(n, q, t, F, D, x);
  }

  lemma {:induction false} TropicRowNeighbours(n: int, t: int, s: int, F: int, D: int, x: Vertex)
    requires 1 <= t < n && 0 <= F < 5 && 0 <= D < n && s == t - 1 && x == V(n + t, F, D)
    ensures Neighbours(EdgeListV(n), x) == multiset(Expected(n, x))
  {
    EdgeListVSplit(n, x);
    NorthCapBelow(n, x);
    TropicsRow(n, t, s, F, D, x);
    SouthCapAbove(n, x);
    ExpectedTropicRow(n, t, s, F, D, x);
  }

  lemma {:induction false} SouthRimNeighbours(n: int, s: int, lat: int, F: int, D: int, x: Vertex)
    requires 1 <= n && 0 <= F < 5 && 0 <= D < n && s == n - 1 && lat == 0 && x == V(2 * n, F, D) && x == V(2 * n + lat, F, D)
    ensures Neighbours(EdgeListV(n), x) == multiset(Expected(n, x))
  {
    EdgeListVSplit(n, x);
    NorthCapBelow(n, x);
    TropicsBottom(n, s, F, D, x);
    SouthCapTop(n, lat, F, D, x);
    ExpectedSouthRim(n, s, lat, F, D, x);
  }

  lemma {:induction false} SouthRowNeighbours(n: int, lat: int, s: int, F: int, D: int, x: Vertex)
    requires 1 <= lat < n && 0 <= F < 5 && 0 <= D < n - lat && s == lat - 1 && x == V(2 * n + lat, F, D)
    ensures Neighbours(EdgeListV(n), x) == multiset(Expected(n, x))
  {
    EdgeListVSplit(n, x);
    NorthCapBelow(n, x);
    TropicsOutside(n, x);
    SouthCapRow(n, lat, s, F, D, x);
    ExpectedSouthRow(n, lat, s, F, D, x);
  }

  lemma {:induction false} SouthPoleNeighbours(n: int, x: Vertex)
    requires n >= 1 && x == SouthPoleV(n)
    ensures Neighbours(EdgeListV(n), x) == multiset(Expected(n, x))
  {
    EdgeListVSplit(n, x);
    NorthCapBelow(n, x);
    TropicsOutside(n, x);
    SouthCapPole(n, n - 1, x);
    ExpectedSouthPole(n, x);
  }

  /** The named edge list gives every vertex exactly its expected neighbours. */
  lemma EdgeListVNeighbours(n: int, x: Vertex)
    requires n >= 1 && ValidVertex(n, x)
    ensures Neighbours(EdgeListV(n), x) == multiset(Expected(n, x))
  {
    var r, F, D := x.row, x.face, x.div;
    if r == 0 {
      NorthPoleNeighbours(n, x);
    } else if r < n {
      NorthRowNeighbours(n, r, r - 1, F, D, x);
    } else if r == n {
      NorthRimNeighbours(n, n - 1, 0, F, D, x);
    } else if r < 2 * n {
      TropicRowNeighbours(n, r - n, r - n - 1, F, D, x);
    } else if r == 2 * n {
      SouthRimNeighbours(n, n - 1, 0, F, D, x);
    } else if r < 3 * n {
      SouthRowNeighbours(n, r - 2 * n, r - 2 * n - 1, F, D, x);
    } else {
      SouthPoleNeighbours(n, x);
    }
  }
}
