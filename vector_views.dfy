/**
 * IVector: what every vector offers (a length, entries, enumeration in index order), and the
 * pointwise operators, which return live views over their operands.
 */
module VectorViews {
  import opened Vectors

  /** A vector as the operators see it: stored in a Vector, or a view over others. */
  datatype VectorExpr =
    | Dense(v: Vector)
    | Scaled(c: real, e: VectorExpr)
    | Sum(a: VectorExpr, b: VectorExpr)

  function Length(e: VectorExpr): int
  {
    match e
    case Dense(v) => v.Length()
    case Scaled(_, e') => Length(e')
    case Sum(a, _) => Length(a)
  }

  /** The two operands of every sum have the same length. */
  predicate WellFormed(e: VectorExpr)
  {
    match e
    case Dense(_) => true
    case Scaled(_, e') => WellFormed(e')
    case Sum(a, b) => WellFormed(a) && WellFormed(b) && Length(a) == Length(b)
  }

  /** The storage the entries of `e` are read from. */
  function Footprint(e: VectorExpr): set<object>
  {
    match e
    case Dense(v) => {v.data}
    case Scaled(_, e') => Footprint(e')
    case Sum(a, b) => Footprint(a) + Footprint(b)
  }

  /** `e[i]`, read from the storage as it is now. */
  function Entry(e: VectorExpr, i: int): real
    requires WellFormed(e) && 0 <= i < Length(e)
    reads Footprint(e)
  {
    match e
    case Dense(v) => v.Get(i)
    case Scaled(c, e') => c * Entry(e', i)
    case Sum(a, b) => Entry(a, i) + Entry(b, i)
  }

  /** `c * v`: v's length, each entry scaled by c, read from v's storage. */
  function Times(c: real, v: VectorExpr): (r: VectorExpr)
    requires WellFormed(v)
    reads Footprint(v)
    ensures WellFormed(r) && Length(r) == Length(v) && Footprint(r) == Footprint(v)
    ensures forall i :: 0 <= i < Length(v) ==> Entry(r, i) == c * Entry(v, i)
  {
    Scaled(c, v)
  }

  /** `v * c`, which is `c * v`. */
  function TimesRight(v: VectorExpr, c: real): (r: VectorExpr)
    requires WellFormed(v)
    reads Footprint(v)
    ensures WellFormed(r) && Length(r) == Length(v) && Footprint(r) == Footprint(v)
    ensures forall i :: 0 <= i < Length(v) ==> Entry(r, i) == Entry(v, i) * c
  {
    Times(c, v)
  }

  /** `v / c`, which is `1 / c * v`. */
  function Divide(v: VectorExpr, c: real): (r: VectorExpr)
    requires WellFormed(v) && c != 0.0
    reads Footprint(v)
    ensures WellFormed(r) && Length(r) == Length(v) && Footprint(r) == Footprint(v)
    ensures forall i :: 0 <= i < Length(v) ==> Entry(r, i) == Entry(v, i) / c
  {
    Times(1.0 / c, v)
  }

  /** `a + b`, for operands of one length: the entry-wise sum. */
  function Plus(a: VectorExpr, b: VectorExpr): (r: VectorExpr)
    requires WellFormed(a) && WellFormed(b) && Length(a) == Length(b)
    reads Footprint(a) + Footprint(b)
    ensures WellFormed(r) && Length(r) == Length(a) && Footprint(r) == Footprint(a) + Footprint(b)
    ensures forall i :: 0 <= i < Length(a) ==> Entry(r, i) == Entry(a, i) + Entry(b, i)
  {
    Sum(a, b)
  }

  /** `a - b`, which is `a + -1 * b`: the entry-wise difference. */
  function Minus(a: VectorExpr, b: VectorExpr): (r: VectorExpr)
    requires WellFormed(a) && WellFormed(b) && Length(a) == Length(b)
    reads Footprint(a) + Footprint(b)
    ensures WellFormed(r) && Length(r) == Length(a) && Footprint(r) == Footprint(a) + Footprint(b)
    ensures forall i :: 0 <= i < Length(a) ==> Entry(r, i) == Entry(a, i) - Entry(b, i)
  {
    Plus(a, Times(-1.0, b))
  }

  /** A view is live: after a write to an operand of `a + b`, reading the sum sees the new value. */
  method WriteThroughSum(a: Vector, b: VectorExpr, i: int, value: real)
    requires WellFormed(b) && Length(b) == a.Length() && 0 <= i < a.Length()
    modifies a.data
    ensures Entry(Plus(Dense(a), b), i) == value + Entry(b, i)
  {
    a.Set(i, value);
  }

  /** The enumerator: every entry, in index order. */
  method Enumerate(e: VectorExpr) returns (xs: seq<real>)
    requires WellFormed(e)
    ensures |xs| == Length(e)
    ensures forall i :: 0 <= i < |xs| ==> xs[i] == Entry(e, i)
  {
    LengthNonnegative(e);
    xs := [];
    for i := 0 to Length(e)
      invariant |xs| == i
      invariant forall k :: 0 <= k < i ==> xs[k] == Entry(e, k)
    {
      xs := xs + [Entry(e, i)];
    }
  }

  lemma LengthNonnegative(e: VectorExpr)
    ensures Length(e) >= 0
  {
  }
}
