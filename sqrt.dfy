/** Integer square root by digit doubling (sqrtBN). */
module IntegerSqrt {
  import opened Arith
  import opened Outcomes

  /** r is the floor of the square root of n. */
  predicate IsFloorSqrt(n: int, r: int) {
    0 <= r && r * r <= n < (r + 1) * (r + 1)
  }

  /** The square root of n/4 doubled is within one of the square root of n:
      the step that makes the recursion of Sqrt correct. */
  lemma DoublingStep(n: int, half: int)
    ensures n >= 2 && IsFloorSqrt(n / 4, half) ==>
      0 <= 2 * half && (2 * half) * (2 * half) <= n < (2 * half + 2) * (2 * half + 2)
  {
    if n >= 2 && IsFloorSqrt(n / 4, half) {
      var q := n / 4;
      assert 4 * q <= n < 4 * q + 4;
      calc {
        (2 * half) * (2 * half);
      ==
        4 * (half * half);
      <=
        4 * q;
      }
      calc {
        (2 * half + 2) * (2 * half + 2);
      ==
        4 * ((half + 1) * (half + 1));
      >=
        4 * (q + 1);
      }
    }
  }

  /** Floor square root; fails on a negative input. Recurses on n / 4 (the
      input shifted right by two bits) and doubles the answer (shifted left by
      one bit), then picks the larger of the two candidates that still fits. */
  function Sqrt(n: int): (r: Result<int>)
    ensures n < 0 ==> r == Err(NegativeInput)
    ensures n >= 0 ==> r.Ok? && IsFloorSqrt(n, r.value)
    decreases n
  {
    if n < 0 then Err(NegativeInput)
    else if n < 2 then Ok(n)
    else
      // n / 4 is not negative, so the recursive call does not fail.
      var rest := Sqrt(n / 4);
      var half := if rest.Ok? then rest.value else 0;
      DoublingStep(n, half);
      var smallCand := 2 * half;
      var largeCand := smallCand + 1;
      if largeCand * largeCand > n then Ok(smallCand) else Ok(largeCand)
  }

  /** There is only one floor square root. */
  lemma FloorSqrtUnique(n: int, r1: int, r2: int)
    requires IsFloorSqrt(n, r1) && IsFloorSqrt(n, r2)
    ensures r1 == r2
  {
    if r1 < r2 {
      SquareMonotone(r1 + 1, r2);
    } else if r2 < r1 {
      SquareMonotone(r2 + 1, r1);
    }
  }
}
