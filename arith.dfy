/** The integer operations of the big-integer type that are not plain
    mathematical ones, and the constants of the library. */
module Arith {

  /** Fees are given in basis points: 10000 is 100%. */
  const BPS_DIVISOR: int := 10000

  predicate ValidFee(fee: int) {
    0 <= fee <= BPS_DIVISOR
  }

  function Abs(x: int): (r: nat)
    ensures r == x || r == -x
  {
    if x < 0 then -x else x
  }

  /** Big-integer division: the quotient truncated toward zero, as opposed to
      Dafny's Euclidean `/`. The two agree when both operands are non-negative. */
  function Div(a: int, b: int): (q: int)
    requires b != 0
    ensures 0 <= a && 0 < b ==> q == a / b
    ensures (a < 0) == (b < 0) ==> q >= 0
    ensures (a < 0) != (b < 0) ==> q <= 0
    ensures Abs(q) * Abs(b) <= Abs(a) < (Abs(q) + 1) * Abs(b)
  {
    var x, y := Abs(a), Abs(b);
    var m := x / y;
    EuclidBounds(x, y);
    if (a < 0) == (b < 0) then
      m
    else
      assert Abs(-m) == m;
      -m
  }

  /** The Euclidean quotient of non-negative numbers is their floor quotient. */
  lemma EuclidBounds(x: nat, y: nat)
    requires y > 0
    ensures 0 <= x / y
    ensures (x / y) * y <= x < (x / y + 1) * y
  {
    var m, k := x / y, x % y;
    assert x == m * y + k && 0 <= k < y;
    assert (m + 1) * y == m * y + y;
  }

  /** Multiplying by a non-negative factor keeps the order. */
  lemma MulMonotone(x: int, y: int, k: int)
    requires x <= y && k >= 0
    ensures x * k <= y * k
  {
    assert y * k - x * k == (y - x) * k;
  }

  /** Squaring keeps the order of non-negative numbers. */
  lemma SquareMonotone(x: int, y: int)
    requires 0 <= x <= y
    ensures x * x <= y * y
  {
    MulMonotone(x, y, x);
    MulMonotone(x, y, y);
  }
}
