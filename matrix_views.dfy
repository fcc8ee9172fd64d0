/**
 * IMatrix: what every matrix offers (a shape, entries, row-major enumeration), and the
 * pointwise operators. An operator does not compute its result: it returns a view whose entries
 * are recomputed from its operands on every read, so a later write to an operand shows up in
 * every view over it.
 */
module MatrixViews {
  import opened Arith
  import opened Matrices
  import opened SymmetricMatrices

  /** A matrix as the operators see it: stored in a Matrix or a SymmetricMatrix, or a view over others. */
  datatype MatrixExpr =
    | Dense(m: Matrix)
    | Symmetric(s: SymmetricMatrix)
    | Scaled(c: real, e: MatrixExpr)
    | Sum(a: MatrixExpr, b: MatrixExpr)

  function Rows(e: MatrixExpr): int
  {
    match e
    case Dense(m) => m.Rows()
    case Symmetric(s) => s.Size()
    case Scaled(_, e') => Rows(e')
    case Sum(a, _) => Rows(a)
  }

  function Columns(e: MatrixExpr): int
  {
    match e
    case Dense(m) => m.Columns()
    case Symmetric(s) => s.Size()
    case Scaled(_, e') => Columns(e')
    case Sum(a, _) => Columns(a)
  }

  /** The stored matrices are valid and the two operands of every sum have the same shape. */
  predicate WellFormed(e: MatrixExpr)
  {
    match e
    case Dense(_) => true
    case Symmetric(s) => s.Valid() && s.size >= 0
    case Scaled(_, e') => WellFormed(e')
    case Sum(a, b) => WellFormed(a) && WellFormed(b) && Rows(a) == Rows(b) && Columns(a) == Columns(b)
  }

  /** The storage the entries of `e` are read from. */
  function Footprint(e: MatrixExpr): set<object>
  {
    match e
    case Dense(m) => {m.data}
    case Symmetric(s) => {s.data}
    case Scaled(_, e') => Footprint(e')
    case Sum(a, b) => Footprint(a) + Footprint(b)
  }

  /** `e[row, column]`, read from the storage as it is now. */
  function Entry(e: MatrixExpr, row: int, column: int): real
    requires WellFormed(e) && 0 <= row < Rows(e) && 0 <= column < Columns(e)
    reads Footprint(e)
  {
    match e
    case Dense(m) => m.Get(row, column)
    case Symmetric(s) => s.Get(row, column)
    case Scaled(c, e') => c * Entry(e', row, column)
    case Sum(a, b) => Entry(a, row, column) + Entry(b, row, column)
  }

  /** `c * m`: m's shape, each entry scaled by c, read from m's storage. */
  function Times(c: real, m: MatrixExpr): (r: MatrixExpr)
    requires WellFormed(m)
    reads Footprint(m)
    ensures WellFormed(r) && Rows(r) == Rows(m) && Columns(r) == Columns(m) && Footprint(r) == Footprint(m)
    ensures forall i, j :: 0 <= i < Rows(m) && 0 <= j < Columns(m) ==> Entry(r, i, j) == c * Entry(m, i, j)
  {
    Scaled(c, m)
  }

  /** `m * c`, which is `c * m`. */
  function TimesRight(m: MatrixExpr, c: real): (r: MatrixExpr)
    requires WellFormed(m)
    reads Footprint(m)
    ensures WellFormed(r) && Rows(r) == Rows(m) && Columns(r) == Columns(m) && Footprint(r) == Footprint(m)
    ensures forall i, j :: 0 <= i < Rows(m) && 0 <= j < Columns(m) ==> Entry(r, i, j) == Entry(m, i, j) * c
  {
    Times(c, m)
  }

  /** `m / c`, which is `1 / c * m`. */
  function Divide(m: MatrixExpr, c: real): (r: MatrixExpr)
    requires WellFormed(m) && c != 0.0
    reads Footprint(m)
    ensures WellFormed(r) && Rows(r) == Rows(m) && Columns(r) == Columns(m) && Footprint(r) == Footprint(m)
    ensures forall i, j :: 0 <= i < Rows(m) && 0 <= j < Columns(m) ==> Entry(r, i, j) == Entry(m, i, j) / c
  {
    Times(1.0 / c, m)
  }

  /** `a + b`, for operands of one shape: the entry-wise sum, read from both operands' storage. */
  function Plus(a: MatrixExpr, b: MatrixExpr): (r: MatrixExpr)
    requires WellFormed(a) && WellFormed(b) && Rows(a) == Rows(b) && Columns(a) == Columns(b)
    reads Footprint(a) + Footprint(b)
    ensures WellFormed(r) && Rows(r) == Rows(a) && Columns(r) == Columns(a) && Footprint(r) == Footprint(a) + Footprint(b)
    ensures forall i, j :: 0 <= i < Rows(a) && 0 <= j < Columns(a) ==> Entry(r, i, j) == Entry(a, i, j) + Entry(b, i, j)
  {
    Sum(a, b)
  }

  /** `a - b`, which is `a + -1 * b`: the entry-wise difference. */
  function Minus(a: MatrixExpr, b: MatrixExpr): (r: MatrixExpr)
    requires WellFormed(a) && WellFormed(b) && Rows(a) == Rows(b) && Columns(a) == Columns(b)
    reads Footprint(a) + Footprint(b)
    ensures WellFormed(r) && Rows(r) == Rows(a) && Columns(r) == Columns(a) && Footprint(r) == Footprint(a) + Footprint(b)
    ensures forall i, j :: 0 <= i < Rows(a) && 0 <= j < Columns(a) ==> Entry(r, i, j) == Entry(a, i, j) - Entry(b, i, j)
  {
    Plus(a, Times(-1.0, b))
  }

  /**
   * A view is live: after a write to an operand of `a + b`, reading the sum sees the new value.
   * `b` may share storage with `a`; its entry is read after the write too.
   */
  method WriteThroughSum(a: Matrix, b: MatrixExpr, row: int, column: int, value: real)
    requires WellFormed(b) && Rows(b) == a.Rows() && Columns(b) == a.Columns()
    requires 0 <= row < a.Rows() && 0 <= column < a.Columns()
    modifies a.data
    ensures Entry(Plus(Dense(a), b), row, column) == value + Entry(b, row, column)
  {
    a.Set(row, column, value);
  }

  /** The enumerator: every entry, row by row, each row from its first column to its last. */
  method Enumerate(e: MatrixExpr) returns (xs: seq<real>)
    requires WellFormed(e)
    ensures |xs| == Rows(e) * Columns(e)
    ensures forall i, j :: 0 <= i < Rows(e) && 0 <= j < Columns(e) ==>
      0 <= Pos(Columns(e), i, j) < |xs| && xs[Pos(Columns(e), i, j)] == Entry(e, i, j)
  {
    var rows, columns := Rows(e), Columns(e);
    RowsColumnsNonnegative(e);
    xs := [];
    for row := 0 to rows
      invariant |xs| == row * columns
      invariant forall i, j :: 0 <= i < row && 0 <= j < columns ==>
        0 <= Pos(columns, i, j) < |xs| && xs[Pos(columns, i, j)] == Entry(e, i, j)
    {
      var ys := [];
      for column := 0 to columns
        invariant |ys| == column
        invariant forall j :: 0 <= j < column ==> ys[j] == Entry(e, row, j)
      {
        ys := ys + [Entry(e, row, column)];
      }
      ghost var above := xs;
      xs := xs + ys;
      assert |xs| == (row + 1) * columns;
      forall i, j | 0 <= i <= row && 0 <= j < columns
        ensures 0 <= Pos(columns, i, j) < |xs| && xs[Pos(columns, i, j)] == Entry(e, i, j)
      {
        if i < row {
          PosBelow(columns, row, i, j);
          assert xs[Pos(columns, i, j)] == above[Pos(columns, i, j)];
        } else {
          assert Pos(columns, i, j) == |above| + j;
          assert xs[|above| + j] == ys[j];
        }
      }
    }
  }

  lemma RowsColumnsNonnegative(e: MatrixExpr)
    requires WellFormed(e)
    ensures Rows(e) >= 0 && Columns(e) >= 0
  {
  }
}
