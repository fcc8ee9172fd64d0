/**
 * SymmetricMatrix: a square matrix that stores only its lower triangle, row by row, in a packed
 * array. Cell (row, column) and its transposition share one slot, so a write through
 * SetSymmetric changes both, and the ordinary indexer's setter refuses to write at all.
 */
module SymmetricMatrices {
  import opened Errors

  /** The number of cells in rows 0..k-1 of a lower triangle: k (k + 1) / 2. */
  function TriangleNumber(k: int): int
  {
    k * (k + 1) / 2
  }

  /**
   * The packed slot of (row, column): the lower triangle's cell (max, min), at the end of the
   * TriangleNumber(max) cells of the rows above it.
   */
  function ResolveIndex(row: int, column: int): int
  {
    if column <= row then row * (row + 1) / 2 + column else column * (column + 1) / 2 + row
  }

  /** Whether {r1, c1} and {r2, c2} are the same unordered pair. */
  predicate SamePair(r1: int, c1: int, r2: int, c2: int)
  {
    (r1 == r2 && c1 == c2) || (r1 == c2 && c1 == r2)
  }

  /** The storage the constructor allocates is never of negative length, whatever the size. */
  lemma TriangleNumberNonnegative(k: int)
    ensures TriangleNumber(k) >= 0
  {
    if k < 0 {
      assert k * (k + 1) >= 0 by {
        assert -k > 0 && -(k + 1) >= 0;
        assert k * (k + 1) == (-k) * (-(k + 1));
      }
    } else {
      assert k * (k + 1) >= 0;
    }
  }

  /** Each row of the triangle is one cell longer than the one above it. */
  lemma TriangleStep(k: int)
    ensures TriangleNumber(k + 1) == TriangleNumber(k) + k + 1
  {
    assert (k + 1) * (k + 2) == k * (k + 1) + 2 * (k + 1);
  }

  lemma {:induction false} TriangleMonotone(j: int, k: int)
    requires 0 <= j <= k
    ensures TriangleNumber(j) + (k - j) <= TriangleNumber(k)
    decreases k - j
  {
    if j < k {
      TriangleMonotone(j, k - 1);
      TriangleStep(k - 1);
    }
  }

  /** A cell and its transposition share a slot. */
  lemma ResolveIndexSymmetric(row: int, column: int)
    ensures ResolveIndex(row, column) == ResolveIndex(column, row)
  {
  }

  /** Slot of the lower-triangle cell (row, column): it lies on row `row` of the packed triangle. */
  lemma ResolveIndexInRow(row: int, column: int)
    requires 0 <= column <= row
    ensures TriangleNumber(row) <= ResolveIndex(row, column) < TriangleNumber(row + 1)
  {
    TriangleStep(row);
  }

  /**
   * For non-negative indices, the slot is inside the storage of a `size` matrix exactly when
   * both indices are below `size`: the array access throws for every other cell.
   */
  lemma ResolveIndexInStorage(size: int, row: int, column: int)
    requires 0 <= size && 0 <= row && 0 <= column
    ensures 0 <= ResolveIndex(row, column) < TriangleNumber(size) <==> row < size && column < size
  {
    var hi, lo := if column <= row then row else column, if column <= row then column else row;
    ResolveIndexInRow(hi, lo);
    TriangleNumberNonnegative(hi);
    if hi < size {
      TriangleMonotone(hi + 1, size);
    } else {
      TriangleMonotone(size, hi);
    }
  }

  /** Two cells share a slot exactly when they are the same unordered pair. */
  lemma ResolveIndexInjective(r1: int, c1: int, r2: int, c2: int)
    requires 0 <= r1 && 0 <= c1 && 0 <= r2 && 0 <= c2
    ensures ResolveIndex(r1, c1) == ResolveIndex(r2, c2) <==> SamePair(r1, c1, r2, c2)
  {
    var h1, l1 := if c1 <= r1 then r1 else c1, if c1 <= r1 then c1 else r1;
    var h2, l2 := if c2 <= r2 then r2 else c2, if c2 <= r2 then c2 else r2;
    ResolveIndexInRow(h1, l1);
    ResolveIndexInRow(h2, l2);
    if h1 < h2 {
      TriangleMonotone(h1 + 1, h2);
    } else if h2 < h1 {
      TriangleMonotone(h2 + 1, h1);
    }
  }

  /** Every slot of the storage of a `size` matrix belongs to some cell of the lower triangle. */
  lemma {:induction false} ResolveIndexSurjective(size: int, k: int)
    requires 0 <= k < TriangleNumber(size) && size >= 0
    ensures exists r, c :: 0 <= c <= r < size && ResolveIndex(r, c) == k
    decreases size
  {
    TriangleStep(size - 1);
    if k < TriangleNumber(size - 1) {
      ResolveIndexSurjective(size - 1, k);
    } else {
      var c := k - TriangleNumber(size - 1);
      assert ResolveIndex(size - 1, c) == k;
    }
  }

  /** The cells of a `size` matrix other than {row, column} have slots in storage other than its slot. */
  lemma OtherCells(size: int, row: int, column: int)
    requires 0 <= row < size && 0 <= column < size
    ensures 0 <= ResolveIndex(row, column) < TriangleNumber(size)
    ensures forall r, c :: 0 <= r < size && 0 <= c < size && !SamePair(r, c, row, column) ==>
      0 <= ResolveIndex(r, c) < TriangleNumber(size) && ResolveIndex(r, c) != ResolveIndex(row, column)
  {
    ResolveIndexInStorage(size, row, column);
    forall r, c | 0 <= r < size && 0 <= c < size && !SamePair(r, c, row, column)
      ensures 0 <= ResolveIndex(r, c) < TriangleNumber(size) && ResolveIndex(r, c) != ResolveIndex(row, column)
    {
      ResolveIndexInjective(r, c, row, column);
      ResolveIndexInStorage(size, r, c);
    }
  }

  class SymmetricMatrix {
    const size: int
    const data: array<real>

    /** The storage holds one slot for every cell of the lower triangle. */
    predicate Valid()
    {
      data.Length == TriangleNumber(size)
    }

    /** `new SymmetricMatrix(size)`: size (size + 1) / 2 slots, all zero. */
    constructor (size: int)
      ensures this.size == size && Valid() && fresh(data)
      ensures forall k :: 0 <= k < data.Length ==> data[k] == 0.0
    {
      TriangleNumberNonnegative(size);
      this.size := size;
      data := new real[size * (size + 1) / 2](_ => 0.0);
    }

    function Size(): int
    {
      size
    }

    /** The getter of `this[row, column]`. */
    function Get(row: int, column: int): real
      requires Valid() && 0 <= row < size && 0 <= column < size
      reads data
    {
      ResolveIndexInStorage(size, row, column);
      data[ResolveIndex(row, column)]
    }

    /** The matrix is symmetric whatever its storage holds. */
    lemma GetSymmetric(row: int, column: int)
      requires Valid() && 0 <= row < size && 0 <= column < size
      ensures Get(row, column) == Get(column, row)
    {
      ResolveIndexSymmetric(row, column);
    }

    /** The setter of `this[row, column]`: a NotImplementedException, and nothing changes. */
    method SetIndexer(row: int, column: int, value: real) returns (error: Error)
      ensures error == NotImplemented
    {
      error := NotImplemented;
    }

    /** Writes `value` to (row, column) and (column, row), and to no other cell. */
    method SetSymmetric(row: int, column: int, value: real)
      requires Valid() && 0 <= row < size && 0 <= column < size
      modifies data
      ensures 0 <= ResolveIndex(row, column) < data.Length
      ensures data[..] == old(data[..])[ResolveIndex(row, column) := value]
      ensures Get(row, column) == value && Get(column, row) == value
      ensures forall r, c :: 0 <= r < size && 0 <= c < size && !SamePair(r, c, row, column) ==> Get(r, c) == old(Get(r, c))
    {
      var k := ResolveIndex(row, column);
      OtherCells(size, row, column);
      data[k] := value;
      ResolveIndexSymmetric(row, column);
    }
  }
}
