/**
 * The integer helpers of the static class Assets.Math: FloorMod, DivRem and IntCube,
 * over C#'s truncating integer division.
 */
module IntMath {
  import opened Arith

  function Abs(a: int): (r: int)
    ensures r >= 0 && (r == a || r == -a)
  {
    if a < 0 then -a else a
  }

  /** C#'s `a / b`: the quotient rounded toward zero. */
  function TruncDiv(a: int, b: int): (q: int)
    requires b != 0
    ensures a >= 0 ==> 0 <= a - q * b < Abs(b)
    ensures a < 0 ==> -Abs(b) < a - q * b <= 0
  {
    TruncQuotient(a, b);
    if (a < 0) == (b < 0) then Abs(a) / Abs(b) else -(Abs(a) / Abs(b))
  }

  /** |a| / |b| with the sign of a / b leaves the remainder |a| % |b|, with the sign of `a`. */
  lemma TruncQuotient(a: int, b: int)
    requires b != 0
    ensures var q := if (a < 0) == (b < 0) then Abs(a) / Abs(b) else -(Abs(a) / Abs(b));
      a - q * b == (if a < 0 then -(Abs(a) % Abs(b)) else Abs(a) % Abs(b))
  {
    var m, s := Abs(a) / Abs(b), Abs(a) % Abs(b);
    assert Abs(a) == m * Abs(b) + s;
    if b < 0 {
      assert m * Abs(b) == -(m * b);
    } else {
      assert m * Abs(b) == m * b;
    }
  }

  /** C#'s `a % b`: the remainder of the truncating division, with the sign of `a`. */
  function TruncRem(a: int, b: int): (r: int)
    requires b != 0
    ensures a == TruncDiv(a, b) * b + r
    ensures a >= 0 ==> 0 <= r < Abs(b)
    ensures a < 0 ==> -Abs(b) < r <= 0
  {
    a - TruncDiv(a, b) * b
  }

  /** On a non-negative dividend and a positive divisor, C#'s and Dafny's division agree. */
  lemma TruncNonneg(a: int, b: int)
    requires a >= 0 && b > 0
    ensures TruncDiv(a, b) == a / b && TruncRem(a, b) == a % b
  {
    DivModUnique(a, b, TruncDiv(a, b), TruncRem(a, b));
  }

  /** The truncating quotient is the only one leaving a remainder of the sign of `a` below |b|. */
  lemma TruncUnique(a: int, b: int, q: int, r: int)
    requires b != 0 && a == q * b + r
    requires a >= 0 ==> 0 <= r < Abs(b)
    requires a < 0 ==> -Abs(b) < r <= 0
    ensures q == TruncDiv(a, b) && r == TruncRem(a, b)
  {
    var q0, r0 := TruncDiv(a, b), TruncRem(a, b);
    MulSub(q, q0, b);
    assert (q - q0) * b == r0 - r;
    if q != q0 {
      var d := if q > q0 then q - q0 else q0 - q;
      var c := Abs(b);
      MulAtLeast(d, c);
      assert d * c == Abs((q - q0) * b) by {
        MulSub(q0, q, b);
        NegMul(d, b);
      }
    }
  }

  lemma NegMul(d: int, b: int)
    ensures d * Abs(b) == Abs(d * b) || d < 0
  {
    if d >= 0 {
      if b < 0 {
        assert d * Abs(b) == -(d * b);
        MulNonneg(d, -b);
      } else {
        MulNonneg(d, b);
      }
    }
  }

  /** Math.FloorMod as written: the truncating remainder, shifted up by |b| when `a` is negative. */
  function FloorMod(a: int, b: int): (r: int)
    requires b != 0
    ensures a >= 0 ==> r == TruncRem(a, b) && 0 <= r < Abs(b)
    ensures a < 0 ==> r == TruncRem(a, b) + Abs(b) && 0 < r <= Abs(b)
    ensures (r - a) % Abs(b) == 0
    ensures r == Abs(b) <==> a < 0 && a % Abs(b) == 0
  {
    var r := if a >= 0 then TruncRem(a, b) else TruncRem(a, b) + Abs(b);
    FloorModFacts(a, b, r);
    r
  }

  lemma FloorModFacts(a: int, b: int, r: int)
    requires b != 0 && r == (if a >= 0 then TruncRem(a, b) else TruncRem(a, b) + Abs(b))
    ensures (r - a) % Abs(b) == 0
    ensures r == Abs(b) <==> a < 0 && a % Abs(b) == 0
  {
    var m, c := TruncRem(a, b), Abs(b);
    var k := AbsQuotient(a, b);
    if a >= 0 {
      assert r - a == (-k) * c + 0;
      DivModUnique(r - a, c, -k, 0);
    } else {
      assert r - a == (1 - k) * c + 0 by { MulSub(1, k, c); }
      DivModUnique(r - a, c, 1 - k, 0);
      if m == 0 {
        DivModUnique(a, c, k, 0);
      } else {
        assert a == (k - 1) * c + (m + c) by { MulSub(k, 1, c); }
        DivModUnique(a, c, k - 1, m + c);
      }
    }
  }

  /** The truncating quotient measured in multiples of |b|. */
  function AbsQuotient(a: int, b: int): (k: int)
    requires b != 0
    ensures a == k * Abs(b) + TruncRem(a, b)
  {
    var q := TruncDiv(a, b);
    if b > 0 then q
    else
      assert (-q) * Abs(b) == q * b;
      -q
  }

  lemma ModUniqueNonneg(a: int, m: int, k: int, r: int)
    requires m > 0 && a == k * m + r && 0 <= r < m
    ensures a % m == r
  {
    DivModUnique(a, m, k, r);
  }

  /** Counterexample to the intended range of FloorMod: a negative multiple of `b` maps to |b|, not 0. */
  lemma FloorModNegativeMultiple()
    ensures FloorMod(-4, 4) == 4
    ensures FloorMod(-4, 4) !in {0, 1, 2, 3}
  {
  }

  /** FloorMod as evidently intended: the floor (Euclidean) remainder, always in [0, |b|). */
  function FloorModCorrected(a: int, b: int): (r: int)
    requires b != 0
    ensures 0 <= r < Abs(b)
    ensures r == a % b
    ensures a >= 0 ==> r == FloorMod(a, b)
    ensures a < 0 && a % b != 0 ==> r == FloorMod(a, b)
  {
    var m := TruncRem(a, b);
    var r := if m < 0 then m + Abs(b) else m;
    EuclideanRemainder(a, b, TruncDiv(a, b), m, r);
    r
  }

  /** Shifting a truncating remainder into [0, |b|) yields Dafny's Euclidean remainder. */
  lemma EuclideanRemainder(a: int, b: int, q: int, m: int, r: int)
    requires b != 0 && a == q * b + m && -Abs(b) < m < Abs(b)
    requires r == (if m < 0 then m + Abs(b) else m)
    ensures r == a % b
  {
    var k := if m < 0 then (if b > 0 then q - 1 else q + 1) else q;
    assert a == k * b + r;
    assert 0 <= r < Abs(b);
    EuclideanUnique(a, b, k, r);
  }

  lemma EuclideanUnique(a: int, b: int, k: int, r: int)
    requires b != 0 && a == k * b + r && 0 <= r < Abs(b)
    ensures k == a / b && r == a % b
  {
    var k0, r0 := a / b, a % b;
    assert a == k0 * b + r0;
    assert (k - k0) * b == r0 - r;
    if k != k0 {
      assert Abs((k - k0) * b) >= Abs(b) by {
        assert Abs((k - k0) * b) == Abs(k - k0) * Abs(b);
      }
    }
  }

  /**
   * Math.DivRem as written: the truncating quotient and remainder, adjusted once when the
   * remainder is negative. For a positive divisor it is floor division; for a negative divisor
   * the quotient moves the wrong way, so the division identity is off by 2b.
   */
  method DivRem(a: int, b: int) returns (q: int, rem: int)
    requires b != 0
    ensures 0 <= rem < Abs(b)
    ensures TruncRem(a, b) >= 0 ==> q == TruncDiv(a, b) && rem == TruncRem(a, b)
    ensures a >= 0 ==> q == TruncDiv(a, b) && rem == TruncRem(a, b)
    ensures b > 0 ==> a == q * b + rem && q == a / b && rem == a % b
    ensures b < 0 && TruncRem(a, b) < 0 ==> a == (q + 2) * b + rem
  {
    q, rem := TruncDiv(a, b), TruncRem(a, b);
    if rem < 0 {
      q := q - 1;
      rem := rem + Abs(b);
    }
    if b > 0 {
      EuclideanUnique(a, b, q, rem);
    }
  }

  /** Counterexample: DivRem(-1, -2) returns (-1, 1), and (-1) * (-2) + 1 is 3, not -1. */
  method DivRemNegativeDivisor() returns (q: int, rem: int)
    ensures q == -1 && rem == 1
    ensures q * -2 + rem != -1
  {
    q, rem := DivRem(-1, -2);
    assert TruncRem(-1, -2) == -1;
  }

  /** DivRem as evidently intended: Euclidean division, a == q * b + rem with 0 <= rem < |b|. */
  method DivRemCorrected(a: int, b: int) returns (q: int, rem: int)
    requires b != 0
    ensures a == q * b + rem && 0 <= rem < Abs(b)
    ensures q == a / b && rem == a % b
    ensures b > 0 || TruncRem(a, b) >= 0 ==> q == (if TruncRem(a, b) < 0 then TruncDiv(a, b) - 1 else TruncDiv(a, b))
  {
    q, rem := TruncDiv(a, b), TruncRem(a, b);
    if rem < 0 {
      q := if b > 0 then q - 1 else q + 1;
      rem := rem + Abs(b);
    }
    EuclideanUnique(a, b, q, rem);
  }

  /** UnityEngine.Vector3Int. */
  datatype Int3 = Int3(x: int, y: int, z: int)

  ghost predicate InCube(v: Int3, n: int)
  {
    0 <= v.x < n && 0 <= v.y < n && 0 <= v.z < n
  }

  /** Position of `v` in a walk over the cube where x varies fastest, then y, then z. */
  function CubeOffset(v: Int3, n: int): int
  {
    v.x + n * (v.y + n * v.z)
  }

  /** Distinct points of the cube have distinct offsets. */
  lemma CubeOffsetInjective(u: Int3, v: Int3, n: int)
    requires InCube(u, n) && InCube(v, n) && CubeOffset(u, n) == CubeOffset(v, n)
    ensures u == v
  {
    DigitUnique(u.x, u.y + n * u.z, v.x, v.y + n * v.z, n);
    DigitUnique(u.y, u.z, v.y, v.z, n);
  }

  lemma DigitUnique(x1: int, h1: int, x2: int, h2: int, n: int)
    requires 0 <= x1 < n && 0 <= x2 < n && x1 + n * h1 == x2 + n * h2
    ensures x1 == x2 && h1 == h2
  {
    var a := x1 + n * h1;
    DivModUnique(a, n, h1, x1);
    DivModUnique(a, n, h2, x2);
  }

  lemma CubeOffsetBound(v: Int3, n: int)
    requires InCube(v, n)
    ensures 0 <= CubeOffset(v, n) < n * n * n
  {
    var h := v.y + n * v.z;
    MulNonneg(n, v.z);
    assert n * v.z <= n * (n - 1) by { MulLeq(v.z, n - 1, n); }
    assert h <= n * n - 1 by { MulSub(n, 1, n); }
    MulNonneg(n, h);
    assert n * h <= n * (n * n - 1) by { MulLeq(h, n * n - 1, n); }
    assert n * (n * n - 1) == n * n * n - n by { MulSub(n * n, 1, n); }
  }

  lemma OffsetCarry(x: int, y: int, z: int, n: int)
    ensures CubeOffset(Int3(n, y, z), n) == CubeOffset(Int3(0, y + 1, z), n)
    ensures CubeOffset(Int3(0, n, z), n) == CubeOffset(Int3(0, 0, z + 1), n)
    ensures CubeOffset(Int3(0, 0, n), n) == n * n * n
    ensures CubeOffset(Int3(x + 1, y, z), n) == CubeOffset(Int3(x, y, z), n) + 1
  {
    assert n * (y + 1 + n * z) == n * (y + n * z) + n;
    assert n * (n + n * z) == n * (n * (z + 1));
  }

  /**
   * Math.IntCube: yields every point of [0, n)^3, x varying fastest, then y, then z,
   * so that the point at position i has offset i.
   */
  method IntCube(n: int) returns (cube: seq<Int3>)
    ensures |cube| == if n > 0 then n * n * n else 0
    ensures forall i :: 0 <= i < |cube| ==> InCube(cube[i], n) && CubeOffset(cube[i], n) == i
    ensures forall i, j :: 0 <= i < j < |cube| ==> cube[i] != cube[j]
    ensures forall v :: InCube(v, n) ==> v in cube
  {
    cube := [];
    var z := 0;
    while z < n
      invariant if n > 0 then 0 <= z <= n else z == 0
      invariant |cube| == CubeOffset(Int3(0, 0, z), n)
      invariant forall i :: 0 <= i < |cube| ==> InCube(cube[i], n) && CubeOffset(cube[i], n) == i
    {
      var y := 0;
      while y < n
        invariant 0 <= y <= n
        invariant |cube| == CubeOffset(Int3(0, y, z), n)
        invariant forall i :: 0 <= i < |cube| ==> InCube(cube[i], n) && CubeOffset(cube[i], n) == i
      {
        var x := 0;
        while x < n
          invariant 0 <= x <= n
          invariant |cube| == CubeOffset(Int3(x, y, z), n)
          invariant forall i :: 0 <= i < |cube| ==> InCube(cube[i], n) && CubeOffset(cube[i], n) == i
        {
          cube := cube + [Int3(x, y, z)];
          OffsetCarry(x, y, z, n);
          x := x + 1;
        }
        OffsetCarry(x, y, z, n);
        y := y + 1;
      }
      OffsetCarry(0, y, z, n);
      z := z + 1;
    }
    if n > 0 {
      assert z == n;
      OffsetCarry(0, 0, z, n);
    } else {
      assert CubeOffset(Int3(0, 0, z), n) == 0;
    }
    forall i, j | 0 <= i < j < |cube|
      ensures cube[i] != cube[j]
    {
      assert CubeOffset(cube[i], n) != CubeOffset(cube[j], n);
    }
    forall v | InCube(v, n)
      ensures v in cube
    {
      CubeOffsetBound(v, n);
      var k := CubeOffset(v, n);
      CubeOffsetInjective(cube[k], v, n);
    }
  }
}
