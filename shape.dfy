/**
 * The shape of every vertex's neighbourhood: `Expected(n, x)` lists vertices of the lattice,
 * none of them `x`, none twice, and there are five of them at the twelve corners of the
 * icosahedron (the poles and the first vertex of every face on rows n and 2n) and six
 * everywhere else.
 */
module IcoShape {
  import opened IcoRows
  import opened IcoVertices
  import opened IcoNamedEdges
  import opened IcoNorthMesh
  import opened IcoTropicMesh
  import opened IcoSouthMesh
  import opened IcoMesh

  /** Every vertex of `xs` is a vertex of the lattice other than `x`. */
  predicate Apart(n: int, x: Vertex, xs: seq<Vertex>)
  {
    forall k :: 0 <= k < |xs| ==> ValidVertex(n, xs[k]) && xs[k] != x
  }

  predicate Distinct<T(==)>(xs: seq<T>)
  {
    forall i, j :: 0 <= i < j < |xs| ==> xs[i] != xs[j]
  }

  /** The twelve vertices of the icosahedron itself. */
  predicate IsCorner(n: int, x: Vertex)
  {
    x == NorthPoleV() || x == SouthPoleV(n) || ((x.row == n || x.row == 2 * n) && x.div == 0)
  }

  // The north cap.

  lemma NorthPoleShape(n: int)
    requires n >= 1
    ensures Apart(n, NorthPoleV(), NorthPoleOwn()) && Distinct(NorthPoleOwn()) && |NorthPoleOwn()| == 5
  {
  }

  lemma NorthRowFirstShape(n: int, r: int, q: int, F: int, D: int, x: Vertex)
    requires 1 <= r < n && 0 <= F < 5 && D == 0 && q == r - 1 && x == V(r, F, D)
    ensures Apart(n, x, NorthUp(q, F, D) + NorthOwn(r, F, D)) && Distinct(NorthUp(q, F, D) + NorthOwn(r, F, D))
    ensures |NorthUp(q, F, D) + NorthOwn(r, F, D)| == 6
  {
  }

  lemma NorthRowInnerShape(n: int, r: int, q: int, F: int, D: int, x: Vertex)
    requires 1 <= r < n && 0 <= F < 5 && 1 <= D < r && q == r - 1 && x == V(r, F, D)
    ensures Apart(n, x, NorthUp(q, F, D) + NorthOwn(r, F, D)) && Distinct(NorthUp(q, F, D) + NorthOwn(r, F, D))
    ensures |NorthUp(q, F, D) + NorthOwn(r, F, D)| == 6
  {
  }

  lemma NorthRimFirstShape(n: int, q: int, t: int, F: int, D: int, x: Vertex)
    requires 1 <= n && 0 <= F < 5 && D == 0 && q == n - 1 && t == 0 && x == V(n, F, D)
    ensures Apart(n, x, NorthUp(q, F, D) + TropicOwn(n, t, F, D)) && Distinct(NorthUp(q, F, D) + TropicOwn(n, t, F, D))
    ensures |NorthUp(q, F, D) + TropicOwn(n, t, F, D)| == 5
  {
  }

  lemma NorthRimInnerShape(n: int, q: int, t: int, F: int, D: int, x: Vertex)
    requires 1 <= n && 0 <= F < 5 && 1 <= D < n && q == n - 1 && t == 0 && x == V(n, F, D)
    ensures Apart(n, x, NorthUp(q, F, D) + TropicOwn(n, t, F, D)) && Distinct(NorthUp(q, F, D) + TropicOwn(n, t, F, D))
    ensures |NorthUp(q, F, D) + TropicOwn(n, t, F, D)| == 6
  {
  }

  // The tropics.

  lemma TropicRowFirstShape(n: int, t: int, s: int, F: int, D: int, x: Vertex)
    requires 1 <= t < n && 0 <= F < 5 && D == 0 && s == t - 1 && x == V(n + t, F, D)
    ensures Apart(n, x, TropicUp(n, s, F, D) + TropicOwn(n, t, F, D)) && Distinct(TropicUp(n, s, F, D) + TropicOwn(n, t, F, D))
    ensures |TropicUp(n, s, F, D) + TropicOwn(n, t, F, D)| == 6
  {
  }

  lemma TropicRowInnerShape(n: int, t: int, s: int, F: int, D: int, x: Vertex)
    requires 1 <= t < n && 0 <= F < 5 && 1 <= D < n && s == t - 1 && x == V(n + t, F, D)
    ensures Apart(n, x, TropicUp(n, s, F, D) + TropicOwn(n, t, F, D)) && Distinct(TropicUp(n, s, F, D) + TropicOwn(n, t, F, D))
    ensures |TropicUp(n, s, F, D) + TropicOwn(n, t, F, D)| == 6
  {
  }

  // The south cap.

  lemma SouthRimFirstShape(n: int, s: int, lat: int, F: int, D: int, x: Vertex)
    requires 1 <= n && 0 <= F < 5 && D == 0 && s == n - 1 && lat == 0 && x == V(2 * n, F, D)
    ensures Apart(n, x, TropicUp(n, s, F, D) + SouthOwn(n, lat, F, D)) && Distinct(TropicUp(n, s, F, D) + SouthOwn(n, lat, F, D))
    ensures |TropicUp(n, s, F, D) + SouthOwn(n, lat, F, D)| == 5
  {
  }

  lemma SouthRimInnerShape(n: int, s: int, lat: int, F: int, D: int, x: Vertex)
    requires 1 <= n && 0 <= F < 5 && 1 <= D < n && s == n - 1 && lat == 0 && x == V(2 * n, F, D)
    ensures Apart(n, x, TropicUp(n, s, F, D) + SouthOwn(n, lat, F, D)) && Distinct(TropicUp(n, s, F, D) + SouthOwn(n, lat, F, D))
    ensures |TropicUp(n, s, F, D) + SouthOwn(n, lat, F, D)| == 6
  {
  }

  lemma SouthRowFirstShape(n: int, lat: int, s: int, F: int, D: int, x: Vertex)
    requires 1 <= lat < n && 0 <= F < 5 && D == 0 && s == lat - 1 && x == V(2 * n + lat, F, D)
    ensures Apart(n, x, SouthUp(n, s, F, D) + SouthOwn(n, lat, F, D)) && Distinct(SouthUp(n, s, F, D) + SouthOwn(n, lat, F, D))
    ensures |SouthUp(n, s, F, D) + SouthOwn(n, lat, F, D)| == 6
  {
  }

  lemma SouthRowInnerShape(n: int, lat: int, s: int, F: int, D: int, x: Vertex)
    requires 1 <= lat < n && 0 <= F < 5 && 1 <= D < n - lat && s == lat - 1 && x == V(2 * n + lat, F, D)
    ensures Apart(n, x, SouthUp(n, s, F, D) + SouthOwn(n, lat, F, D)) && Distinct(SouthUp(n, s, F, D) + SouthOwn(n, lat, F, D))
    ensures |SouthUp(n, s, F, D) + SouthOwn(n, lat, F, D)| == 6
  {
  }

  lemma SouthPoleShape(n: int)
    requires n >= 1
    ensures Apart(n, SouthPoleV(n), SouthPoleOwn(n)) && Distinct(SouthPoleOwn(n)) && |SouthPoleOwn(n)| == 5
  {
  }

  // Every vertex.

  /** The neighbours of `x` are distinct vertices other than `x`: five at a corner, six elsewhere. */
  predicate Regular(n: int, x: Vertex)
  {
    Apart(n, x, Expected(n, x)) && Distinct(Expected(n, x)) && |Expected(n, x)| == (if IsCorner(n, x) then 5 else 6)
  }

  lemma {:induction false} NorthRowRegular(n: int, r: int, q: int, F: int, D: int, x: Vertex)
    requires 1 <= r < n && 0 <= F < 5 && 0 <= D < r && q == r - 1 && x == V(r, F, D)
    ensures Regular(n, x)
  {
    ExpectedNorthRow(n, r, q, F, D, x);
    if D == 0 {
      NorthRowFirstShape(n, r, q, F, D, x);
    } else {
      NorthRowInnerShape(n, r, q, F, D, x);
    }
  }

  lemma {:induction false} NorthRimRegular(n: int, q: int, t: int, F: int, D: int, x: Vertex)
    requires 1 <= n && 0 <= F < 5 && 0 <= D < n && q == n - 1 && t == 0 && x == V(n, F, D)
    ensures Regular(n, x)
  {
    ExpectedNorthRim(n, q, t, F, D, x);
    if D == 0 {
      NorthRimFirstShape(n, q, t, F, D, x);
    } else {
      NorthRimInnerShape(n, q, t, F, D, x);
    }
  }

  lemma {:induction false} TropicRowRegular(n: int, t: int, s: int, F: int, D: int, x: Vertex)
    requires 1 <= t < n && 0 <= F < 5 && 0 <= D < n && s == t - 1 && x == V(n + t, F, D)
    ensures Regular(n, x)
  {
    ExpectedTropicRow(n, t, s, F, D, x);
    if D == 0 {
      TropicRowFirstShape(n, t, s, F, D, x);
    } else {
      TropicRowInnerShape(n, t, s, F, D, x);
    }
  }

  lemma {:induction false} SouthRimRegular(n: int, s: int, lat: int, F: int, D: int, x: Vertex)
    requires 1 <= n && 0 <= F < 5 && 0 <= D < n && s == n - 1 && lat == 0 && x == V(2 * n, F, D)
    ensures Regular(n, x)
  {
    ExpectedSouthRim(n, s, lat, F, D, x);
    if D == 0 {
      SouthRimFirstShape(n, s, lat, F, D, x);
    } else {
      SouthRimInnerShape(n, s, lat, F, D, x);
    }
  }

  lemma {:induction false} SouthRowRegular(n: int, lat: int, s: int, F: int, D: int, x: Vertex)
    requires 1 <= lat < n && 0 <= F < 5 && 0 <= D < n - lat && s == lat - 1 && x == V(2 * n + lat, F, D)
    ensures Regular(n, x)
  {
    ExpectedSouthRow(n, lat, s, F, D, x);
    if D == 0 {
      SouthRowFirstShape(n, lat, s, F, D, x);
    } else {
      SouthRowInnerShape(n, lat, s, F, D, x);
    }
  }

  /** Every vertex of the lattice has the neighbourhood of a vertex of a geodesic sphere. */
  lemma {:induction false} ExpectedRegular(n: int, x: Vertex)
    requires n >= 1 && ValidVertex(n, x)
    ensures Regular(n, x)
  {
    var r, F, D := x.row, x.face, x.div;
    if r == 0 {
      ExpectedNorthPole(n, x);
      NorthPoleShape(n);
    } else if r < n {
      NorthRowRegular(n, r, r - 1, F, D, x);
    } else if r == n {
      NorthRimRegular(n, n - 1, 0, F, D, x);
    } else if r < 2 * n {
      TropicRowRegular(n, r - n, r - n - 1, F, D, x);
    } else if r == 2 * n {
      SouthRimRegular(n, n - 1, 0, F, D, x);
    } else if r < 3 * n {
      SouthRowRegular(n, r - 2 * n, r - 2 * n - 1, F, D, x);
    } else {
      ExpectedSouthPole(n, x);
      SouthPoleShape(n);
    }
  }
}
