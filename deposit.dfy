/** Optimal split of a two-token deposit (_optimalDeposit, optimalDeposit):
    how much of the token in excess to swap first so that what is left
    matches the pool's proportion. */
module OptimalDepositSolver {
  import opened Arith
  import opened Outcomes
  import opened IntegerSqrt

  /** The amount to swap and its direction: false for token A into token B,
      true for token B into token A. */
  datatype SwapPlan = SwapPlan(swapAmount: int, isReversed: bool)

  /** The swap amount s of the token in excess (A) solves
      QuadA * s^2 + QuadB * s = QuadC. */
  function QuadA(fee: int): int {
    BPS_DIVISOR - fee
  }

  function QuadB(resA: int, fee: int): int {
    (BPS_DIVISOR * 2 - fee) * resA
  }

  /** The cross-difference amtA * resB - amtB * resA, scaled by
      BPS_DIVISOR * resA / (amtB + resB) with the big-integer division. */
  function QuadC(amtA: int, amtB: int, resA: int, resB: int): int
    requires amtB + resB != 0
  {
    Div((amtA * resB - amtB * resA) * BPS_DIVISOR, amtB + resB) * resA
  }

  /** s is the largest non-negative integer not beyond the positive root of
      a * s^2 + b * s = c: the root rounded down. */
  predicate IsFloorRoot(a: int, b: int, c: int, s: int) {
    0 <= s && a * s * s + b * s <= c < a * (s + 1) * (s + 1) + b * (s + 1)
  }

  /** Valid public arguments: amounts not negative, reserves positive, fee
      between 0 and 100%. */
  predicate ValidDeposit(amtA: int, amtB: int, resA: int, resB: int, fee: int) {
    amtA >= 0 && amtB >= 0 && resA > 0 && resB > 0 && ValidFee(fee)
  }

  /** Valid arguments with token A in excess of the pool's proportion. */
  predicate Oriented(amtA: int, amtB: int, resA: int, resB: int, fee: int) {
    ValidDeposit(amtA, amtB, resA, resB, fee) && amtA * resB >= amtB * resA
  }

  /** (e - b) / 2a, with e the floor square root of b^2 + 4ac, is the floor
      root of a * s^2 + b * s = c. */
  lemma FloorRootOfDiscriminant(a: int, b: int, c: int, e: int)
    requires a > 0 && b >= 0 && c >= 0
    requires IsFloorSqrt(b * b + a * c * 4, e)
    ensures e >= b
    ensures IsFloorRoot(a, b, c, (e - b) / (a * 2))
  {
    if e < b {
      SquareMonotone(e + 1, b);
    }
    var s := (e - b) / (a * 2);
    EuclidBounds(e - b, a * 2);
    BelowRoot(a, b, c, s, e);
    BeyondRoot(a, b, c, s + 1, e);
  }

  /** The square of 2as + b, written with the left-hand side of the quadratic. */
  lemma SquareOfLinear(a: int, b: int, s: int)
    ensures (a * 2 * s + b) * (a * 2 * s + b) == 4 * a * (a * s * s + b * s) + b * b
  {
  }

  /** If 2as + b is at most the floor square root of the discriminant, s is
      not beyond the root. */
  lemma BelowRoot(a: int, b: int, c: int, s: int, e: int)
    requires a > 0 && 0 <= a * 2 * s + b <= e
    requires e * e <= b * b + a * c * 4
    ensures a * s * s + b * s <= c
  {
    var t := a * 2 * s + b;
    var p := a * s * s + b * s;
    SquareMonotone(t, e);
    SquareOfLinear(a, b, s);
    if p > c {
      MulMonotone(c + 1, p, 4 * a);
      assert false;
    }
  }

  /** If 2as + b exceeds the floor square root of the discriminant, s is
      beyond the root. */
  lemma BeyondRoot(a: int, b: int, c: int, s: int, e: int)
    requires a > 0 && 0 <= e < a * 2 * s + b
    requires b * b + a * c * 4 < (e + 1) * (e + 1)
    ensures c < a * s * s + b * s
  {
    var u := a * 2 * s + b;
    var p := a * s * s + b * s;
    SquareMonotone(e + 1, u);
    SquareOfLinear(a, b, s);
    if p <= c {
      MulMonotone(p, c, 4 * a);
      assert false;
    }
  }

  /** A non-negative quotient q of a number at most k times cross, by den,
      is at most amt * k when cross <= amt * lo and lo <= den. */
  lemma ScaledQuotientBound(q: int, den: int, lo: int, cross: int, amt: int, k: int)
    requires 0 < lo <= den && q >= 0 && k > 0 && 0 <= cross <= amt * lo
    requires q * den <= cross * k
    ensures q <= amt * k
  {
    MulMonotone(lo, den, q);
    MulMonotone(cross, amt * lo, k);
    assert amt * lo * k == amt * k * lo;
    if q > amt * k {
      MulMonotone(amt * k + 1, q, lo);
      assert false;
    }
  }

  /** With token A in excess the scaled cross-difference is between 0 and
      what swapping the whole of amtA would account for. */
  lemma QuadCBounds(amtA: int, amtB: int, resA: int, resB: int, fee: int)
    requires Oriented(amtA, amtB, resA, resB, fee)
    ensures 0 <= QuadC(amtA, amtB, resA, resB) <= QuadB(resA, fee) * amtA
  {
    var cross := amtA * resB - amtB * resA;
    assert amtB * resA >= 0;
    var q := Div(cross * BPS_DIVISOR, amtB + resB);
    QuotientBound(cross, amtA, resB, amtB + resB, q);
    ScaledByReserve(q, amtA, resA, fee);
  }

  /** The big-integer quotient of cross * BPS_DIVISOR by den is at most
      amt * BPS_DIVISOR when cross <= amt * lo and lo <= den. */
  lemma QuotientBound(cross: int, amt: int, lo: int, den: int, q: int)
    requires 0 <= cross <= amt * lo && 0 < lo <= den
    requires q == Div(cross * BPS_DIVISOR, den)
    ensures 0 <= q <= amt * BPS_DIVISOR
  {
    var x := cross * BPS_DIVISOR;
    assert q == x / den;
    EuclidBounds(x, den);
    ScaledQuotientBound(q, den, lo, cross, amt, BPS_DIVISOR);
  }

  /** Scaled by resA, a quotient of at most amt * BPS_DIVISOR stays within
      QuadB * amt, because QuadB is at least BPS_DIVISOR * resA. */
  lemma ScaledByReserve(q: int, amt: int, resA: int, fee: int)
    requires 0 <= q <= amt * BPS_DIVISOR && resA > 0 && ValidFee(fee)
    ensures 0 <= q * resA <= QuadB(resA, fee) * amt
  {
    MulMonotone(q, amt * BPS_DIVISOR, resA);
    assert amt * BPS_DIVISOR * resA == BPS_DIVISOR * resA * amt;
    MulMonotone(BPS_DIVISOR * resA, QuadB(resA, fee), amt);
  }

  /** The inner solver. It throws "Reversed" when token B is the one in
      excess; on valid oriented arguments it returns the floor root of the
      balancing quadratic, and it fails only for a 100% fee (a zero divisor). */
  function OptimalDepositCore(amtA: int, amtB: int, resA: int, resB: int, fee: int): (r: Result<int>)
    ensures r == Err(Reversed) <==> amtA * resB < amtB * resA
    ensures Oriented(amtA, amtB, resA, resB, fee) ==>
              (r.Ok? <==> fee < BPS_DIVISOR) && (r.Err? ==> r.error == DivisionByZero)
    ensures Oriented(amtA, amtB, resA, resB, fee) && r.Ok? ==>
              IsFloorRoot(QuadA(fee), QuadB(resA, fee), QuadC(amtA, amtB, resA, resB), r.value)
  {
    if amtA * resB < amtB * resA then
      Err(Reversed)
    else if amtB + resB == 0 then
      Err(DivisionByZero)
    else
      var a := QuadA(fee);
      var b := QuadB(resA, fee);
      var c := QuadC(amtA, amtB, resA, resB);
      var d := a * c * 4;
      OrientedDiscriminant(amtA, amtB, resA, resB, fee, a, b, c, d);
      var e :- Sqrt(b * b + d);
      var numerator := e - b;
      var denominator := a * 2;
      if denominator == 0 then
        Err(DivisionByZero)
      else
        OrientedFloorRoot(amtA, amtB, resA, resB, fee, a, b, c, e);
        Ok(Div(numerator, denominator))
  }

  /** On oriented arguments the discriminant b^2 + 4ac is not negative, so
      the square root in the inner solver does not fail. */
  lemma OrientedDiscriminant(amtA: int, amtB: int, resA: int, resB: int, fee: int, a: int, b: int, c: int, d: int)
    requires amtB + resB != 0
    requires a == QuadA(fee) && b == QuadB(resA, fee) && c == QuadC(amtA, amtB, resA, resB)
    requires d == a * c * 4
    ensures Oriented(amtA, amtB, resA, resB, fee) ==> b * b + d >= 0
  {
    if Oriented(amtA, amtB, resA, resB, fee) {
      QuadCBounds(amtA, amtB, resA, resB, fee);
      MulMonotone(0, a, c);
      MulMonotone(0, b, b);
    }
  }

  /** On oriented arguments with a fee below 100%, the inner solver's closing
      division of e - b by 2a, with e the floor square root of the
      discriminant, is the floor root of the balancing quadratic. */
  lemma OrientedFloorRoot(amtA: int, amtB: int, resA: int, resB: int, fee: int, a: int, b: int, c: int, e: int)
    requires amtB + resB != 0
    requires a == QuadA(fee) && b == QuadB(resA, fee) && c == QuadC(amtA, amtB, resA, resB)
    requires IsFloorSqrt(b * b + a * c * 4, e)
    ensures Oriented(amtA, amtB, resA, resB, fee) && fee < BPS_DIVISOR ==>
              IsFloorRoot(a, b, c, Div(e - b, a * 2))
  {
    if Oriented(amtA, amtB, resA, resB, fee) && fee < BPS_DIVISOR {
      QuadCBounds(amtA, amtB, resA, resB, fee);
      FloorRootOfDiscriminant(a, b, c, e);
    }
  }

  /** optimalDeposit: checks the arguments, picks the direction by comparing
      the cross-products and solves with the token in excess first. */
  function OptimalDeposit(amtA: int, amtB: int, resA: int, resB: int, fee: int): (r: Result<SwapPlan>)
    ensures !ValidDeposit(amtA, amtB, resA, resB, fee) <==> r == Err(InvalidInput)
    ensures ValidDeposit(amtA, amtB, resA, resB, fee) ==>
              (r.Ok? <==> fee < BPS_DIVISOR) && (r.Err? ==> r.error == DivisionByZero)
    ensures r.Ok? ==> r.value.isReversed == (amtA * resB < amtB * resA)
    ensures r.Ok? && !r.value.isReversed ==>
              IsFloorRoot(QuadA(fee), QuadB(resA, fee), QuadC(amtA, amtB, resA, resB), r.value.swapAmount)
    ensures r.Ok? && r.value.isReversed ==>
              IsFloorRoot(QuadA(fee), QuadB(resB, fee), QuadC(amtB, amtA, resB, resA), r.value.swapAmount)
  {
    if amtA < 0 || amtB < 0 || resA <= 0 || resB <= 0
       || fee < 0 || fee > BPS_DIVISOR then
      Err(InvalidInput)
    else
      var isReversed := amtA * resB < amtB * resA;
      var swapAmount :-
        if isReversed then OptimalDepositCore(amtB, amtA, resB, resA, fee)
        else OptimalDepositCore(amtA, amtB, resA, resB, fee);
      Ok(SwapPlan(swapAmount, isReversed))
  }

  /** The public entry point never lets the inner "Reversed" error out. */
  lemma OptimalDepositNeverReversed(amtA: int, amtB: int, resA: int, resB: int, fee: int)
    ensures OptimalDeposit(amtA, amtB, resA, resB, fee) != Err(Reversed)
  {
  }

  /** With token A in excess, optimalDeposit returns the inner solver's
      amount unreversed; with the two tokens exchanged it returns the same
      amount reversed, when the deposit is out of proportion. */
  lemma OptimalDepositOfCore(amtA: int, amtB: int, resA: int, resB: int, fee: int, s: int)
    requires Oriented(amtA, amtB, resA, resB, fee)
    requires OptimalDepositCore(amtA, amtB, resA, resB, fee) == Ok(s)
    ensures OptimalDeposit(amtA, amtB, resA, resB, fee) == Ok(SwapPlan(s, false))
    ensures amtB * resA < amtA * resB ==>
              OptimalDeposit(amtB, amtA, resB, resA, fee) == Ok(SwapPlan(s, true))
  {
  }

  /** The swap amount is never negative and never more than the caller holds
      of the token it swaps. */
  lemma OptimalDepositWithinHolding(amtA: int, amtB: int, resA: int, resB: int, fee: int)
    requires OptimalDeposit(amtA, amtB, resA, resB, fee).Ok?
    ensures var plan := OptimalDeposit(amtA, amtB, resA, resB, fee).value;
            0 <= plan.swapAmount <= (if plan.isReversed then amtB else amtA)
  {
    var plan := OptimalDeposit(amtA, amtB, resA, resB, fee).value;
    if plan.isReversed {
      OrientedRootWithinHolding(amtB, amtA, resB, resA, fee, plan.swapAmount);
    } else {
      OrientedRootWithinHolding(amtA, amtB, resA, resB, fee, plan.swapAmount);
    }
  }

  /** With token A in excess, the floor root is at most amtA. */
  lemma OrientedRootWithinHolding(amtA: int, amtB: int, resA: int, resB: int, fee: int, s: int)
    requires Oriented(amtA, amtB, resA, resB, fee)
    requires IsFloorRoot(QuadA(fee), QuadB(resA, fee), QuadC(amtA, amtB, resA, resB), s)
    ensures 0 <= s <= amtA
  {
    QuadCBounds(amtA, amtB, resA, resB, fee);
    RootBelowHolding(QuadA(fee), QuadB(resA, fee), QuadC(amtA, amtB, resA, resB), s, amtA);
  }

  /** A floor root of a * s^2 + b * s = c with c at most b * h is at most h. */
  lemma RootBelowHolding(a: int, b: int, c: int, s: int, h: int)
    requires a >= 0 && b > 0 && h >= 0 && c <= b * h && IsFloorRoot(a, b, c, s)
    ensures s <= h
  {
    assert a * s * s >= 0 by {
      assert a * s >= 0;
    }
    if s > h {
      MulMonotone(h + 1, s, b);
      assert false;
    }
  }

  /** A deposit already in the pool's proportion needs no swap. */
  lemma OptimalDepositBalanced(amtA: int, amtB: int, resA: int, resB: int, fee: int)
    requires ValidDeposit(amtA, amtB, resA, resB, fee) && fee < BPS_DIVISOR
    requires amtA * resB == amtB * resA
    ensures OptimalDeposit(amtA, amtB, resA, resB, fee) == Ok(SwapPlan(0, false))
  {
    var r := OptimalDeposit(amtA, amtB, resA, resB, fee);
    QuadCBalanced(amtA, amtB, resA, resB);
    assert r.Ok? && !r.value.isReversed;
    assert QuadB(resA, fee) > 0 by {
      MulMonotone(1, BPS_DIVISOR * 2 - fee, resA);
    }
    RootOfZero(QuadA(fee), QuadB(resA, fee), r.value.swapAmount);
  }

  /** The scaled cross-difference of a proportional deposit is zero. */
  lemma QuadCBalanced(amtA: int, amtB: int, resA: int, resB: int)
    requires amtB + resB > 0 && amtA * resB == amtB * resA
    ensures QuadC(amtA, amtB, resA, resB) == 0
  {
    assert Div(0, amtB + resB) == 0;
  }

  /** The only floor root of a * s^2 + b * s = 0 with b > 0 is 0. */
  lemma RootOfZero(a: int, b: int, s: int)
    requires a >= 0 && b > 0 && IsFloorRoot(a, b, 0, s)
    ensures s == 0
  {
    RootBelowHolding(a, b, 0, s, 0);
  }

  /** Exchanging the roles of the two tokens gives the same swap amount, in the
      opposite direction when the deposit is out of proportion. */
  lemma OptimalDepositSymmetric(amtA: int, amtB: int, resA: int, resB: int, fee: int)
    requires ValidDeposit(amtA, amtB, resA, resB, fee)
    ensures var here, there := OptimalDeposit(amtA, amtB, resA, resB, fee),
                               OptimalDeposit(amtB, amtA, resB, resA, fee);
            here.Ok? == there.Ok?
            && (here.Ok? ==> here.value.swapAmount == there.value.swapAmount)
            && (here.Ok? && amtA * resB != amtB * resA ==>
                  there.value.isReversed == !here.value.isReversed)
  {
    if amtA * resB == amtB * resA && fee < BPS_DIVISOR {
      OptimalDepositBalanced(amtA, amtB, resA, resB, fee);
      OptimalDepositBalanced(amtB, amtA, resB, resA, fee);
    }
  }

  /** The repository's deposit test, on amounts scaled by 10^24: the whole
      deposit is token A, and its mirror image is token B only. The amounts are
      parameters fixed by the requires so that the square root is not unfolded
      on a literal. */
  lemma OptimalDepositFixture(amt: int, resA: int, resB: int)
    requires amt == 20000 * 1_000000_000000_000000_000000
    requires resA == 1299997 * 1_000000_000000_000000_000000
    requires resB == 1000000000 * 1_000000_000000_000000_000000
    ensures OptimalDeposit(amt, 0, resA, resB, 111) == Ok(SwapPlan(10017429330203108534310239605, false))
    ensures OptimalDeposit(0, amt, resB, resA, 111) == Ok(SwapPlan(10017429330203108534310239605, true))
  {
    OptimalDepositCoreFixture(amt, resA, resB);
    OptimalDepositOfCore(amt, 0, resA, resB, 111, 10017429330203108534310239605);
  }

  /** The inner solver on the deposit test's arguments. */
  lemma OptimalDepositCoreFixture(amt: int, resA: int, resB: int)
    requires amt == 20000 * 1_000000_000000_000000_000000
    requires resA == 1299997 * 1_000000_000000_000000_000000
    requires resB == 1000000000 * 1_000000_000000_000000_000000
    ensures OptimalDepositCore(amt, 0, resA, resB, 111) == Ok(10017429330203108534310239605)
  {
    var b := QuadB(resA, 111);
    var c := QuadC(amt, 0, resA, resB);
    assert b == 25855640333000000000000000000000000;
    assert Div((amt * resB - 0 * resA) * BPS_DIVISOR, 0 + resB) == 2_00000000_00000000_00000000_00000000;
    assert c == 259999400000000000000000000000000000000000000000000000000000000;
    var n := b * b + QuadA(111) * c * 4;
    assert n == 678798673295856350889000000000000000000000000000000000000000000000000;
    var e := 26053765050292757080591587918916991;
    assert IsFloorSqrt(n, e);
    FloorSqrtUnique(n, Sqrt(n).value, e);
    assert e - b == 198124717292757080591587918916991;
    assert QuadA(111) * 2 == 19778;
    assert 198124717292757080591587918916991 / 19778 == 10017429330203108534310239605;
    assert Div(198124717292757080591587918916991, 19778) == 10017429330203108534310239605;
  }
}
