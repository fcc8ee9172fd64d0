/**
 * Matrix and SquareMatrix: dense matrices over a two-dimensional array of entries. The array
 * is either allocated (all zero) or the caller's own, kept without a copy, so writes through
 * the matrix and through the caller's array are the same writes.
 */
module Matrices {
  import opened Errors

  class Matrix {
    const data: array2<real>

    /** `new Matrix(rows, columns)`: a zero matrix of that shape. */
    constructor (rows: nat, columns: nat)
      ensures Rows() == rows && Columns() == columns && fresh(data)
      ensures forall i, j :: 0 <= i < rows && 0 <= j < columns ==> data[i, j] == 0.0
    {
      data := new real[rows, columns]((_, _) => 0.0);
    }

    /** `new Matrix(data)`: a matrix over the caller's array itself. */
    constructor FromArray(data: array2<real>)
      ensures this.data == data
    {
      this.data := data;
    }

    /** The shape is the array's, fixed for the matrix's lifetime. */
    function Rows(): int
    {
      data.Length0
    }

    function Columns(): int
    {
      data.Length1
    }

    /** The getter of `this[row, column]`. */
    function Get(row: int, column: int): real
      requires 0 <= row < Rows() && 0 <= column < Columns()
      reads data
    {
      data[row, column]
    }

    /**
     * The setter of `this[row, column]`. It writes that entry only: the transposed entry
     * keeps its value.
     */
    method Set(row: int, column: int, value: real)
      requires 0 <= row < Rows() && 0 <= column < Columns()
      modifies data
      ensures Get(row, column) == value
      ensures forall i, j :: 0 <= i < Rows() && 0 <= j < Columns() && (i, j) != (row, column) ==> data[i, j] == old(data[i, j])
    {
      data[row, column] := value;
    }
  }

  /** A matrix whose row count equals its column count. */
  class SquareMatrix {
    /** The underlying Matrix (SquareMatrix derives from Matrix). */
    const matrix: Matrix

    predicate Valid()
    {
      matrix.Rows() == matrix.Columns()
    }

    /** `new SquareMatrix(size)`: a zero matrix of size × size. */
    constructor (size: nat)
      ensures Valid() && Size() == size && fresh(matrix) && fresh(matrix.data)
      ensures forall i, j :: 0 <= i < size && 0 <= j < size ==> matrix.Get(i, j) == 0.0
    {
      matrix := new Matrix(size, size);
    }

    constructor FromMatrix(m: Matrix)
      requires m.Rows() == m.Columns()
      ensures matrix == m && Valid()
    {
      matrix := m;
    }

    function Size(): int
    {
      matrix.Rows()
    }
  }

  /**
   * `new SquareMatrix(data)`: the base constructor keeps the caller's array, then an array
   * that is not square is refused with an ArgumentException.
   */
  method NewSquareMatrix(data: array2<real>) returns (r: Result<SquareMatrix>)
    ensures r.Ok? <==> data.Length0 == data.Length1
    ensures r.Err? ==> r.error == Argument
    ensures r.Ok? ==> r.value.Valid() && r.value.matrix.data == data && r.value.Size() == data.Length0 && fresh(r.value)
  {
    var m := new Matrix.FromArray(data);
    if m.Rows() != m.Columns() {
      return Err(Argument);
    }
    var s := new SquareMatrix.FromMatrix(m);
    r := Ok(s);
  }
}
