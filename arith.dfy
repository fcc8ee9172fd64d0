/** Small facts about multiplication, division and remainder that the solver needs spelled out. */
module Arith {

  lemma MulAtLeast(k: int, m: int)
    requires k >= 1 && m > 0
    ensures k * m >= m
  {
  }

  lemma MulSub(q: int, p: int, m: int)
    ensures (q - p) * m == q * m - p * m
  {
  }

  /** Dafny's `/` and `%` by a positive divisor are the only quotient and remainder in [0, m). */
  lemma DivModUnique(a: int, m: int, q: int, r: int)
    requires m > 0 && a == q * m + r && 0 <= r < m
    ensures q == a / m && r == a % m
  {
    var q0, r0 := a / m, a % m;
    assert a == q0 * m + r0;
    MulSub(q, q0, m);
    if q > q0 {
      MulAtLeast(q - q0, m);
    } else if q < q0 {
      MulSub(q0, q, m);
      MulAtLeast(q0 - q, m);
    }
  }

  lemma MulNonneg(x: int, y: int)
    requires x >= 0 && y >= 0
    ensures x * y >= 0
  {
  }

  lemma MulLeq(a: int, b: int, c: int)
    requires a <= b && c >= 0
    ensures c * a <= c * b
  {
  }

  lemma ModSmall(x: int, m: int)
    requires 0 <= x < m
    ensures x % m == x
  {
    DivModUnique(x, m, 0, x);
  }

  lemma ModWrap(x: int, m: int)
    requires m <= x < 2 * m
    ensures x % m == x - m
  {
    DivModUnique(x, m, 1, x - m);
  }

  lemma ModBelow(x: int, m: int)
    requires -m <= x < 0
    ensures x % m == x + m
  {
    DivModUnique(x, m, -1, x + m);
  }

  /** Adding a multiple of 2 to a number halves exactly. */
  lemma HalfShift(x: int, k: int)
    ensures (x + 2 * k) / 2 == x / 2 + k
  {
    DivModUnique(x + 2 * k, 2, x / 2 + k, x % 2);
  }

  /** A quotient below the bound of the dividend, with its remainder. */
  lemma DivBelow(p: int, m: int, k: int)
    requires m > 0 && 0 <= p < k * m
    ensures 0 <= p / m < k && p == (p / m) * m + p % m && 0 <= p % m < m
  {
    if p / m >= k {
      MulLeq(k, p / m, m);
    }
  }

  /** Position (major, minor) of a row-major layout whose rows are `width` long. */
  function Pos(width: int, major: int, minor: int): int
  {
    major * width + minor
  }

  /**
   * Visiting a row-major layout of `count` rows in order: the positions before (major, minor)
   * are exactly the positions below it, and no other cell has its position.
   */
  lemma PosNext(width: int, count: int, major: int, minor: int)
    requires 0 <= major < count && 0 <= minor < width
    ensures forall i, j :: 0 <= i < count && 0 <= j < width && (i < major || (i == major && j < minor)) ==>
      0 <= Pos(width, i, j) < Pos(width, major, minor)
    ensures forall i, j :: 0 <= i < count && 0 <= j < width && Pos(width, i, j) == Pos(width, major, minor) ==> i == major && j == minor
  {
    forall i, j | 0 <= i < count && 0 <= j < width
      ensures i < major ==> 0 <= Pos(width, i, j) < Pos(width, major, minor)
      ensures Pos(width, i, j) == Pos(width, major, minor) ==> i == major && j == minor
    {
      MulNonneg(i, width);
      if i < major {
        MulLeq(i + 1, major, width);
      }
      if Pos(width, i, j) == Pos(width, major, minor) {
        DivModUnique(Pos(width, i, j), width, i, j);
        DivModUnique(Pos(width, i, j), width, major, minor);
      }
    }
  }

  /** The last position of a layout of `count` rows of `width`. */
  lemma PosBelow(width: int, count: int, major: int, minor: int)
    requires 0 <= major < count && 0 <= minor < width
    ensures 0 <= Pos(width, major, minor) < count * width
  {
    MulNonneg(major, width);
    MulLeq(major + 1, count, width);
  }
}
