/** Forward and inverse quotes of a constant-product (x * y = k) pool whose
    fee is taken, in basis points, from the input side (getSwapReturn,
    getAmountToSwap). */
module ConstantProductSwap {
  import opened Arith
  import opened Outcomes

  /** The argument check both quotes share: positive reserves, a positive
      amount, a fee between 0 and 100%. */
  predicate ValidSwap(amount: int, reserveIn: int, reserveOut: int, fee: int) {
    reserveIn > 0 && reserveOut > 0 && amount > 0 && ValidFee(fee)
  }

  /** Paying amountIn in and taking out units out leaves the constant
      product, counting only the part of the input that is not fee, no
      smaller than before (scaled by BPS_DIVISOR). */
  predicate KeepsProduct(amountIn: int, reserveIn: int, reserveOut: int, fee: int, out: int) {
    BPS_DIVISOR * reserveIn * reserveOut
      <= (BPS_DIVISOR * reserveIn + amountIn * (BPS_DIVISOR - fee)) * (reserveOut - out)
  }

  /** What the floor quotient A * R / (B + A) means for the product
      (B + A) * (R - q): it stays at least B * R, and one more unit is too much. */
  lemma FloorQuoteKeepsProduct(a: int, b: int, r: int, q: int)
    requires a >= 0 && b > 0 && r > 0
    requires q * (b + a) <= a * r < (q + 1) * (b + a)
    ensures b * r <= (b + a) * (r - q)
    ensures (b + a) * (r - (q + 1)) < b * r
    ensures q < r
  {
    assert (b + a) * (r - q) == b * r + a * r - q * (b + a);
    assert (b + a) * (r - (q + 1)) == b * r + a * r - (q + 1) * (b + a);
    assert a * r < (b + a) * r;
  }

  /** Output of swapping amountIn against the pool, rounded down: the
      largest output that keeps the fee-adjusted constant product. */
  function SwapReturn(amountIn: int, reserveIn: int, reserveOut: int, fee: int): (r: Result<int>)
    ensures !ValidSwap(amountIn, reserveIn, reserveOut, fee) <==> r == Err(InvalidInput)
    ensures ValidSwap(amountIn, reserveIn, reserveOut, fee) <==> r.Ok?
    ensures r.Ok? ==> 0 <= r.value < reserveOut
    ensures r.Ok? ==> KeepsProduct(amountIn, reserveIn, reserveOut, fee, r.value)
    ensures r.Ok? ==> !KeepsProduct(amountIn, reserveIn, reserveOut, fee, r.value + 1)
  {
    if reserveIn <= 0 || reserveOut <= 0 || amountIn <= 0
       || fee < 0 || fee > BPS_DIVISOR then
      Err(InvalidInput)
    else
      var amountWithFee := amountIn * (BPS_DIVISOR - fee);
      var q := Div(amountWithFee * reserveOut, BPS_DIVISOR * reserveIn + amountWithFee);
      FloorQuoteKeepsProduct(amountWithFee, BPS_DIVISOR * reserveIn, reserveOut, q);
      Ok(q)
  }

  /** A smaller output than one that keeps the product keeps it too. */
  lemma KeepsProductDownward(amountIn: int, reserveIn: int, reserveOut: int, fee: int, lo: int, hi: int)
    requires ValidSwap(amountIn, reserveIn, reserveOut, fee)
    requires lo <= hi && KeepsProduct(amountIn, reserveIn, reserveOut, fee, hi)
    ensures KeepsProduct(amountIn, reserveIn, reserveOut, fee, lo)
  {
    var d := BPS_DIVISOR * reserveIn + amountIn * (BPS_DIVISOR - fee);
    assert d * (reserveOut - lo) == d * (reserveOut - hi) + d * (hi - lo);
    assert d * (hi - lo) >= 0;
  }

  /** SwapReturn is the largest output that keeps the product: every
      product-keeping output is at most it. */
  lemma SwapReturnIsLargest(amountIn: int, reserveIn: int, reserveOut: int, fee: int, out: int)
    requires ValidSwap(amountIn, reserveIn, reserveOut, fee)
    requires KeepsProduct(amountIn, reserveIn, reserveOut, fee, out)
    ensures out <= SwapReturn(amountIn, reserveIn, reserveOut, fee).value
  {
    var q := SwapReturn(amountIn, reserveIn, reserveOut, fee).value;
    if out > q {
      KeepsProductDownward(amountIn, reserveIn, reserveOut, fee, q + 1, out);
    }
  }

  /** Swapping more never returns less. */
  lemma SwapReturnMonotone(amountIn: int, moreIn: int, reserveIn: int, reserveOut: int, fee: int)
    requires ValidSwap(amountIn, reserveIn, reserveOut, fee) && amountIn <= moreIn
    ensures SwapReturn(amountIn, reserveIn, reserveOut, fee).value
         <= SwapReturn(moreIn, reserveIn, reserveOut, fee).value
  {
    var q := SwapReturn(amountIn, reserveIn, reserveOut, fee).value;
    var net, moreNet := amountIn * (BPS_DIVISOR - fee), moreIn * (BPS_DIVISOR - fee);
    assert net <= moreNet by {
      assert moreNet - net == (moreIn - amountIn) * (BPS_DIVISOR - fee);
    }
    var b := BPS_DIVISOR * reserveIn;
    assert (b + moreNet) * (reserveOut - q) == (b + net) * (reserveOut - q) + (moreNet - net) * (reserveOut - q);
    assert (moreNet - net) * (reserveOut - q) >= 0;
    assert KeepsProduct(moreIn, reserveIn, reserveOut, fee, q);
    SwapReturnIsLargest(moreIn, reserveIn, reserveOut, fee, q);
  }

  /** The forward quote of the repository's test, on amounts scaled by 10^24,
      and the quote of swapping its output straight back. */
  lemma SwapReturnFixture()
    ensures SwapReturn(20000 * 1_000000_000000_000000_000000, 1299997 * 1_000000_000000_000000_000000,
                       1000000000 * 1_000000_000000_000000_000000, 111)
         == Ok(14985887746017313557235134776761)
    ensures SwapReturn(14985887746017313557235134776761,
                       1000000000 * 1_000000_000000_000000_000000 - 14985887746017313557235134776761,
                       1299997 * 1_000000_000000_000000_000000 + 20000 * 1_000000_000000_000000_000000, 111)
         == Ok(19565008648014205995055588509)
  {
  }

  /** getAmountToSwap as the library writes it. The division by
      reserveOut - amountOut is not guarded: equal amounts fail in the
      big-integer division, and amountOut > reserveOut gives a negative
      divisor that the truncating division accepts. A 100% fee makes the
      second divisor zero. */
  function AmountToSwapAsWritten(amountOut: int, reserveIn: int, reserveOut: int, fee: int): (r: Result<int>)
    ensures !ValidSwap(amountOut, reserveIn, reserveOut, fee) <==> r == Err(InvalidInput)
    ensures ValidSwap(amountOut, reserveIn, reserveOut, fee) ==>
              (r == Err(DivisionByZero) <==> amountOut == reserveOut || fee == BPS_DIVISOR)
    ensures r.Ok? <==> ValidSwap(amountOut, reserveIn, reserveOut, fee)
                       && amountOut != reserveOut && fee < BPS_DIVISOR
    ensures r.Ok? && amountOut > reserveOut ==> r.value <= 0
  {
    if reserveIn <= 0 || reserveOut <= 0 || amountOut <= 0
       || fee < 0 || fee > BPS_DIVISOR then
      Err(InvalidInput)
    else if reserveOut - amountOut == 0 then
      Err(DivisionByZero)
    else
      var amountWithFee := Div(amountOut * BPS_DIVISOR * reserveIn, reserveOut - amountOut);
      if BPS_DIVISOR - fee == 0 then Err(DivisionByZero)
      else
        OverdrawQuotient(amountOut, reserveIn, reserveOut, fee);
        Ok(Div(amountWithFee, BPS_DIVISOR - fee) + 1)
  }

  /** Above the reserve the first divisor is negative and smaller in size than
      amountOut, so the truncated quotient is at most -BPS_DIVISOR * reserveIn,
      and dividing it by the fee factor leaves at most -1. */
  lemma OverdrawQuotient(amountOut: int, reserveIn: int, reserveOut: int, fee: int)
    requires ValidSwap(amountOut, reserveIn, reserveOut, fee) && fee < BPS_DIVISOR
    ensures amountOut > reserveOut ==>
              Div(Div(amountOut * BPS_DIVISOR * reserveIn, reserveOut - amountOut), BPS_DIVISOR - fee) <= -1
  {
    if amountOut > reserveOut {
      var n := amountOut * BPS_DIVISOR * reserveIn;
      var gap := amountOut - reserveOut;
      var k := BPS_DIVISOR * reserveIn;
      var q := Div(n, reserveOut - amountOut);
      assert Abs(reserveOut - amountOut) == gap;
      assert n == k * amountOut;
      MulMonotone(gap, amountOut, k);
      assert k * gap == gap * k;
      if Abs(q) + 1 <= k {
        MulMonotone(Abs(q) + 1, k, gap);
        assert false;
      }
      MulMonotone(1, reserveIn, BPS_DIVISOR);
      var q2 := Div(q, BPS_DIVISOR - fee);
      assert q2 <= 0;
      if q2 == 0 {
        assert false;
      }
    }
  }

  /** The unguarded case breaks the promise of getAmountToSwap: asking for
      more than the pool holds yields an "amount to swap" that does not buy
      amountOut: it is never positive, so the forward quote rejects it. */
  lemma AmountToSwapAsWrittenOverdraws(amountOut: int, reserveIn: int, reserveOut: int, fee: int)
    requires ValidSwap(amountOut, reserveIn, reserveOut, fee) && fee < BPS_DIVISOR
    requires amountOut > reserveOut
    ensures AmountToSwapAsWritten(amountOut, reserveIn, reserveOut, fee).Ok?
    ensures var x := AmountToSwapAsWritten(amountOut, reserveIn, reserveOut, fee).value;
            x <= 0 && SwapReturn(x, reserveIn, reserveOut, fee) == Err(InvalidInput)
  {
  }

  /** A concrete instance: asking for 3 out of a reserve of 2 returns -2. */
  lemma AmountToSwapAsWrittenNegative()
    ensures AmountToSwapAsWritten(3, 1, 2, 0) == Ok(-2)
    ensures SwapReturn(-2, 1, 2, 0) == Err(InvalidInput)
  {
  }

  /** getAmountToSwap with the guard it evidently intends: an output that
      is not below the reserve is invalid input. */
  function AmountToSwap(amountOut: int, reserveIn: int, reserveOut: int, fee: int): (r: Result<int>)
    ensures !ValidSwap(amountOut, reserveIn, reserveOut, fee) || amountOut >= reserveOut
            <==> r == Err(InvalidInput)
    ensures ValidSwap(amountOut, reserveIn, reserveOut, fee) && amountOut < reserveOut ==>
              (r == Err(DivisionByZero) <==> fee == BPS_DIVISOR)
    ensures r.Ok? <==> ValidSwap(amountOut, reserveIn, reserveOut, fee) && amountOut < reserveOut
                       && fee < BPS_DIVISOR
    ensures amountOut < reserveOut ==> r == AmountToSwapAsWritten(amountOut, reserveIn, reserveOut, fee)
  {
    if ValidSwap(amountOut, reserveIn, reserveOut, fee) && amountOut >= reserveOut then
      Err(InvalidInput)
    else
      AmountToSwapAsWritten(amountOut, reserveIn, reserveOut, fee)
  }

  /** The rounding-up promise of getAmountToSwap: swapping the amount it
      returns yields at least amountOut. */
  lemma AmountToSwapSuffices(amountOut: int, reserveIn: int, reserveOut: int, fee: int)
    requires AmountToSwap(amountOut, reserveIn, reserveOut, fee).Ok?
    ensures var x := AmountToSwap(amountOut, reserveIn, reserveOut, fee).value;
            x >= 1
            && SwapReturn(x, reserveIn, reserveOut, fee).Ok?
            && SwapReturn(x, reserveIn, reserveOut, fee).value >= amountOut
  {
    var x := AmountToSwap(amountOut, reserveIn, reserveOut, fee).value;
    var f := BPS_DIVISOR - fee;
    var gap := reserveOut - amountOut;
    var b := BPS_DIVISOR * reserveIn;
    assert x == (amountOut * BPS_DIVISOR * reserveIn) / gap / f + 1;
    assert amountOut * BPS_DIVISOR * reserveIn == amountOut * b;
    RoundedUpCovers(amountOut * b, gap, f, x);
    OutputFromCover(amountOut, b, reserveOut, x * f);
    assert KeepsProduct(x, reserveIn, reserveOut, fee, amountOut);
    SwapReturnIsLargest(x, reserveIn, reserveOut, fee, amountOut);
  }

  /** The rounding adds at most one unit: one unit less than the returned
      amount does not yield more than amountOut. */
  lemma AmountToSwapTight(amountOut: int, reserveIn: int, reserveOut: int, fee: int)
    requires AmountToSwap(amountOut, reserveIn, reserveOut, fee).Ok?
    requires AmountToSwap(amountOut, reserveIn, reserveOut, fee).value >= 2
    ensures var x := AmountToSwap(amountOut, reserveIn, reserveOut, fee).value;
            SwapReturn(x - 1, reserveIn, reserveOut, fee).Ok?
            && SwapReturn(x - 1, reserveIn, reserveOut, fee).value <= amountOut
  {
    var x := AmountToSwap(amountOut, reserveIn, reserveOut, fee).value;
    var f := BPS_DIVISOR - fee;
    var gap := reserveOut - amountOut;
    var b := BPS_DIVISOR * reserveIn;
    assert x - 1 == (amountOut * BPS_DIVISOR * reserveIn) / gap / f;
    assert amountOut * BPS_DIVISOR * reserveIn == amountOut * b;
    RoundedDownShort(amountOut * b, gap, f, x - 1);
    OutputFromShortfall(amountOut, b, reserveOut, (x - 1) * f);
    assert !KeepsProduct(x - 1, reserveIn, reserveOut, fee, amountOut + 1);
    var q := SwapReturn(x - 1, reserveIn, reserveOut, fee).value;
    if q > amountOut {
      KeepsProductDownward(x - 1, reserveIn, reserveOut, fee, amountOut + 1, q);
    }
  }

  /** One more than the twice rounded-down quotient of need by gap and by f,
      times f and gap, exceeds need. */
  lemma RoundedUpCovers(need: int, gap: int, f: int, x: int)
    requires need >= 0 && gap > 0 && f > 0 && x == need / gap / f + 1
    ensures x * f * gap > need
  {
    var raw := need / gap;
    Arith.EuclidBounds(need, gap);
    Arith.EuclidBounds(raw, f);
    var xf := x * f;
    assert xf >= raw + 1;
    Arith.MulMonotone(raw + 1, xf, gap);
  }

  /** The twice rounded-down quotient, times f and gap, does not exceed need. */
  lemma RoundedDownShort(need: int, gap: int, f: int, y: int)
    requires need >= 0 && gap > 0 && f > 0 && y == need / gap / f
    ensures y * f * gap <= need
  {
    var raw := need / gap;
    Arith.EuclidBounds(need, gap);
    Arith.EuclidBounds(raw, f);
    var yf := y * f;
    assert yf <= raw;
    Arith.MulMonotone(yf, raw, gap);
  }

  /** A net input whose product with the remaining reserve exceeds the
      output times the scaled input reserve keeps the constant product. */
  lemma OutputFromCover(out: int, b: int, reserveOut: int, net: int)
    requires out < reserveOut && net * (reserveOut - out) > out * b
    ensures b * reserveOut <= (b + net) * (reserveOut - out)
  {
    var gap := reserveOut - out;
    assert (b + net) * gap == b * gap + net * gap;
    assert b * reserveOut == b * gap + out * b;
  }

  /** A net input whose product with the remaining reserve is at most the
      output times the scaled input reserve cannot pay for one unit more. */
  lemma OutputFromShortfall(out: int, b: int, reserveOut: int, net: int)
    requires out < reserveOut && b + net > 0 && net * (reserveOut - out) <= out * b
    ensures (b + net) * (reserveOut - (out + 1)) < b * reserveOut
  {
    var gap := reserveOut - out;
    assert (b + net) * (reserveOut - (out + 1)) == (b + net) * gap - (b + net);
    assert (b + net) * gap == b * gap + net * gap;
    assert b * reserveOut == b * gap + out * b;
  }
}
