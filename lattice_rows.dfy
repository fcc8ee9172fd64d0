/**
 * The vertex numbering of an icosahedral lattice with `n` subdivisions, as rows of latitude.
 * Row 0 is the north pole and row 3n the south pole; rows 1..n-1 cross the north cap,
 * rows n..2n the tropics and rows 2n+1..3n-1 the south cap. Vertices are numbered row by row,
 * so the vertex at position `p` of row `r` has index `RowStart(n, r) + p`.
 */
module IcoRows {
  import opened Arith

  /** The number of vertices on row `r`: 5 per face and division of the ring, 1 at each pole. */
  function RowLength(n: int, r: int): int
  {
    if r <= 0 || r >= 3 * n then 1
    else if r <= n then 5 * r
    else if r <= 2 * n then 5 * n
    else 5 * (3 * n - r)
  }

  /** The index of the first vertex of row `r`: the lengths of the rows above it, added up. */
  function RowStart(n: int, r: int): int
    decreases r
  {
    if r <= 0 then 0 else RowStart(n, r - 1) + RowLength(n, r - 1)
  }

  function VertexCount(n: int): int
  {
    RowStart(n, 3 * n) + 1
  }

  predicate ValidPos(n: int, r: int, p: int)
  {
    0 <= r <= 3 * n && 0 <= p < RowLength(n, r)
  }

  function Idx(n: int, r: int, p: int): int
  {
    RowStart(n, r) + p
  }

  /**
   * The number of vertices in the equilateral pentagonal pyramid of the given height. The
   * source's integer halving is exact: `5 h (h - 1)` is always even.
   */
  function PyramidSize(height: int): (r: int)
    ensures 2 * (r - 1) == 5 * height * (height - 1)
  {
    HalfExact(height);
    1 + 5 * height * (height - 1) / 2
  }

  /** The first index of the south cap's rim (row 2n). */
  function SouthTropic(n: int): int
  {
    PyramidSize(n) + 5 * n * n
  }

  /** Where row `lat` of the south cap (row 2n + lat, of length 5 (n - lat)) begins. */
  function SouthRowStart(n: int, lat: int): int
  {
    SouthTropic(n) + 5 * lat * (n + (n - lat) + 1) / 2
  }

  lemma RowLengthPositive(n: int, r: int)
    requires n >= 1
    ensures RowLength(n, r) >= 1
  {
  }

  lemma PyramidStep(h: int)
    ensures PyramidSize(h + 1) == PyramidSize(h) + 5 * h
  {
    assert 5 * (h + 1) * (h + 1 - 1) == 5 * h * (h - 1) + 2 * (5 * h);
    HalfShift(5 * h * (h - 1), 5 * h);
  }

  lemma SouthStep(n: int, lat: int)
    ensures SouthRowStart(n, lat + 1) == SouthRowStart(n, lat) + 5 * (n - lat)
  {
    assert 5 * (lat + 1) * (n + (n - (lat + 1)) + 1) == 5 * lat * (n + (n - lat) + 1) + 2 * (5 * (n - lat));
    HalfShift(5 * lat * (n + (n - lat) + 1), 5 * (n - lat));
  }

  /** Rows 1..n start at the pyramid sizes: row r is the base of a pyramid of height r. */
  lemma {:induction false} RowStartNorth(n: int, r: int)
    requires 1 <= r <= n
    ensures RowStart(n, r) == PyramidSize(r)
  {
    if r > 1 {
      RowStartNorth(n, r - 1);
      PyramidStep(r - 1);
    }
  }

  /** The tropic rows n..2n are all 5n long. */
  lemma {:induction false} RowStartTropics(n: int, t: int)
    requires n >= 1 && 0 <= t <= n
    ensures RowStart(n, n + t) == PyramidSize(n) + t * (5 * n)
  {
    if t == 0 {
      RowStartNorth(n, n);
    } else {
      RowStartTropics(n, t - 1);
      assert (t - 1) * (5 * n) + 5 * n == t * (5 * n);
    }
  }

  /** Row 2n + lat of the south cap starts where the source's south formula says. */
  lemma {:induction false} RowStartSouth(n: int, lat: int)
    requires n >= 1 && 0 <= lat <= n
    ensures RowStart(n, 2 * n + lat) == SouthRowStart(n, lat)
  {
    if lat == 0 {
      RowStartTropics(n, n);
      assert n * (5 * n) == 5 * n * n;
      assert 5 * 0 * (n + (n - 0) + 1) == 0;
    } else {
      RowStartSouth(n, lat - 1);
      SouthStep(n, lat - 1);
    }
  }

  lemma PyramidEven(h: int)
    ensures 5 * h * (h - 1) == 2 * PyramidHalf(h)
    ensures PyramidSize(h) == 1 + PyramidHalf(h)
  {
    HalfExact(h);
  }

  lemma HalfExact(h: int)
    ensures 5 * h * (h - 1) == 2 * PyramidHalf(h)
  {
    var k := h / 2;
    var x := 5 * h * (h - 1);
    if h % 2 == 0 {
      assert h == 2 * k;
      assert x == 5 * (2 * k) * (h - 1);
      DoubleFactor(k, h - 1);
      DivModUnique(x, 2, 5 * k * (h - 1), 0);
    } else {
      assert h - 1 == 2 * k;
      assert x == 5 * h * (2 * k);
      DoubleFactor(k, h);
      DivModUnique(x, 2, 5 * k * h, 0);
    }
  }

  lemma DoubleFactor(k: int, m: int)
    ensures 5 * (2 * k) * m == 2 * (5 * k * m)
    ensures 5 * m * (2 * k) == 2 * (5 * k * m)
  {
  }

  function PyramidHalf(h: int): int
  {
    5 * h * (h - 1) / 2
  }

  /** The lattice has 10 n^2 + 2 vertices. */
  lemma VertexCountClosed(n: int)
    requires n >= 1
    ensures VertexCount(n) == 10 * n * n + 2
  {
    RowStartSouth(n, n);
    SouthStep(n, 0);
    PyramidEven(n);
    PyramidEven(n + 1);
    assert 5 * (n + 1) * n == 5 * n * (n - 1) + 10 * n;
    assert 5 * n * (n + (n - n) + 1) == 5 * (n + 1) * (n + 1 - 1);
  }

  /** Rows are consecutive index ranges. */
  lemma {:induction false} RowStartMonotone(n: int, r1: int, r2: int)
    requires n >= 1 && 0 <= r1 < r2
    ensures RowStart(n, r1 + 1) <= RowStart(n, r2)
    ensures RowStart(n, r1) < RowStart(n, r2)
    decreases r2
  {
    if r2 > r1 + 1 {
      RowStartMonotone(n, r1, r2 - 1);
    }
  }

  /** A valid position names an index inside its own row and inside [0, VertexCount). */
  lemma IdxInRow(n: int, r: int, p: int)
    requires n >= 1 && ValidPos(n, r, p)
    ensures RowStart(n, r) <= Idx(n, r, p) < RowStart(n, r + 1)
    ensures 0 <= Idx(n, r, p) < VertexCount(n)
  {
    if r < 3 * n {
      RowStartMonotone(n, r, 3 * n);
    }
    if r > 0 {
      RowStartMonotone(n, 0, r);
    }
  }

  /** Valid positions and vertex indices are in one-to-one correspondence. */
  lemma IdxInjective(n: int, r1: int, p1: int, r2: int, p2: int)
    requires n >= 1 && ValidPos(n, r1, p1) && ValidPos(n, r2, p2)
    ensures Idx(n, r1, p1) == Idx(n, r2, p2) <==> r1 == r2 && p1 == p2
  {
    IdxInRow(n, r1, p1);
    IdxInRow(n, r2, p2);
    if r1 < r2 {
      RowStartMonotone(n, r1, r2);
    } else if r2 < r1 {
      RowStartMonotone(n, r2, r1);
    }
  }

  /** Every vertex index has a row and a position. */
  lemma {:induction false} IdxSurjective(n: int, v: int, r: int)
    requires n >= 1 && 0 <= r <= 3 * n && RowStart(n, r) <= v < VertexCount(n)
    ensures exists r', p :: ValidPos(n, r', p) && Idx(n, r', p) == v
    decreases 3 * n - r
  {
    if v < RowStart(n, r + 1) || r == 3 * n {
      assert ValidPos(n, r, v - RowStart(n, r)) && Idx(n, r, v - RowStart(n, r)) == v;
    } else {
      IdxSurjective(n, v, r + 1);
    }
  }

  // Inside the two caps and the tropics, a row is 5 faces of FaceLength(n, r) vertices each.

  function FaceLength(n: int, r: int): int
  {
    if r <= n then r else if r <= 2 * n then n else 3 * n - r
  }

  /** Vertex `div` of face `face` on row `r`, for a row strictly between the poles. */
  predicate OnRing(n: int, r: int, face: int, div: int)
  {
    0 < r < 3 * n && 0 <= face < 5 && 0 <= div < FaceLength(n, r)
  }

  function At(n: int, r: int, face: int, div: int): int
  {
    Idx(n, r, face * FaceLength(n, r) + div)
  }

  lemma AtValid(n: int, r: int, face: int, div: int)
    requires n >= 1 && OnRing(n, r, face, div)
    ensures ValidPos(n, r, face * FaceLength(n, r) + div)
    ensures RowStart(n, r) <= At(n, r, face, div) < RowStart(n, r + 1)
    ensures 0 <= At(n, r, face, div) < VertexCount(n)
  {
    MulLeq(face, 4, FaceLength(n, r));
    MulNonneg(face, FaceLength(n, r));
    assert FaceLength(n, r) * face == face * FaceLength(n, r);
    IdxInRow(n, r, face * FaceLength(n, r) + div);
  }

  /** Distinct (row, face, div) triples name distinct vertices. */
  lemma AtInjective(n: int, r1: int, f1: int, d1: int, r2: int, f2: int, d2: int)
    requires n >= 1 && OnRing(n, r1, f1, d1) && OnRing(n, r2, f2, d2)
    ensures At(n, r1, f1, d1) == At(n, r2, f2, d2) <==> r1 == r2 && f1 == f2 && d1 == d2
  {
    AtValid(n, r1, f1, d1);
    AtValid(n, r2, f2, d2);
    if At(n, r1, f1, d1) == At(n, r2, f2, d2) {
      IdxInjective(n, r1, f1 * FaceLength(n, r1) + d1, r2, f2 * FaceLength(n, r2) + d2);
      var x := f1 * FaceLength(n, r1) + d1;
      DivModUnique(x, FaceLength(n, r1), f1, d1);
      DivModUnique(x, FaceLength(n, r1), f2, d2);
    }
  }

  /** A vertex between the poles is neither pole. */
  lemma AtNotPole(n: int, r: int, face: int, div: int)
    requires n >= 1 && OnRing(n, r, face, div)
    ensures At(n, r, face, div) != Idx(n, 0, 0) && At(n, r, face, div) != Idx(n, 3 * n, 0)
  {
    AtValid(n, r, face, div);
    IdxInjective(n, r, face * FaceLength(n, r) + div, 0, 0);
    IdxInjective(n, r, face * FaceLength(n, r) + div, 3 * n, 0);
  }

  lemma PolesDistinct(n: int)
    requires n >= 1
    ensures Idx(n, 0, 0) != Idx(n, 3 * n, 0)
  {
    IdxInjective(n, 0, 0, 3 * n, 0);
  }
}
