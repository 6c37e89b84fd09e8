/** Conversions between pool shares and the value they stand for
    (sharesToValue, valueToShares). */
module ShareValueConverter {
  import opened Arith
  import opened Outcomes

  /** q is x * num / den rounded down. */
  predicate IsFloorRatio(x: int, num: int, den: int, q: int) {
    0 <= q && q * den <= x * num < (q + 1) * den
  }

  /** The argument check both conversions share. */
  predicate ValidConversion(amount: int, totalShares: int, totalValue: int) {
    amount > 0 && totalShares >= 0 && totalValue >= 0
  }

  /** The value of a number of shares: its proportional part of totalValue,
      rounded down; before any share exists one share is one unit of value. */
  function SharesToValue(shares: int, totalShares: int, totalValue: int): (r: Result<int>)
    ensures !ValidConversion(shares, totalShares, totalValue) <==> r == Err(InvalidInput)
    ensures ValidConversion(shares, totalShares, totalValue) <==> r.Ok?
    ensures r.Ok? && totalShares == 0 ==> r.value == shares
    ensures r.Ok? && totalShares > 0 ==> IsFloorRatio(shares, totalValue, totalShares, r.value)
  {
    if shares <= 0 || totalShares < 0 || totalValue < 0 then
      Err(InvalidInput)
    else if totalShares == 0 then
      Ok(shares)
    else
      EuclidBounds(shares * totalValue, totalShares);
      Ok(Div(shares * totalValue, totalShares))
  }

  /** The number of shares a value buys: its proportional part of
      totalShares, rounded down; before any share exists one unit of value is
      one share. The division by totalValue is not guarded: shares without
      value fail in the big-integer division. */
  function ValueToShares(value: int, totalShares: int, totalValue: int): (r: Result<int>)
    ensures !ValidConversion(value, totalShares, totalValue) <==> r == Err(InvalidInput)
    ensures ValidConversion(value, totalShares, totalValue) ==>
              (r == Err(DivisionByZero) <==> totalShares > 0 && totalValue == 0)
    ensures r.Ok? <==> ValidConversion(value, totalShares, totalValue) && !(totalShares > 0 && totalValue == 0)
    ensures r.Ok? && totalShares == 0 ==> r.value == value
    ensures r.Ok? && totalShares > 0 ==> IsFloorRatio(value, totalShares, totalValue, r.value)
  {
    if value <= 0 || totalShares < 0 || totalValue < 0 then
      Err(InvalidInput)
    else if totalShares == 0 then
      Ok(value)
    else if totalValue == 0 then
      Err(DivisionByZero)
    else
      EuclidBounds(value * totalShares, totalValue);
      Ok(Div(value * totalShares, totalValue))
  }

  /** Holding no more than all the shares is worth no more than all the value. */
  lemma SharesToValueWithinTotal(shares: int, totalShares: int, totalValue: int)
    requires ValidConversion(shares, totalShares, totalValue)
    requires 0 < totalShares && shares <= totalShares
    ensures SharesToValue(shares, totalShares, totalValue).value <= totalValue
  {
    var v := SharesToValue(shares, totalShares, totalValue).value;
    MulMonotone(shares, totalShares, totalValue);
    if v > totalValue {
      MulMonotone(totalValue + 1, v, totalShares);
      assert false;
    }
  }

  /** Rounding down twice: q * den <= x * num and q' * num <= q * den give q' <= x. */
  lemma FloorRatioBack(x: int, num: int, den: int, q: int, back: int)
    requires num > 0 && den > 0 && x >= 0
    requires IsFloorRatio(x, num, den, q) && IsFloorRatio(q, den, num, back)
    ensures back <= x
  {
    if back > x {
      MulMonotone(x + 1, back, num);
      assert false;
    }
  }

  /** Turning shares into a positive value and the value back into shares
      never gains shares; before any share exists the round trip is exact.
      A value of 0 cannot be converted back: it is not a valid amount. */
  lemma SharesRoundTripNoGain(shares: int, totalShares: int, totalValue: int)
    requires SharesToValue(shares, totalShares, totalValue).Ok?
    requires SharesToValue(shares, totalShares, totalValue).value > 0
    ensures var v := SharesToValue(shares, totalShares, totalValue).value;
            var back := ValueToShares(v, totalShares, totalValue);
            back.Ok? && back.value <= shares && (totalShares == 0 ==> back.value == shares)
  {
    var v := SharesToValue(shares, totalShares, totalValue).value;
    if totalShares > 0 {
      var back := ValueToShares(v, totalShares, totalValue).value;
      FloorRatioBack(shares, totalValue, totalShares, v, back);
    }
  }

  /** Turning value into a positive number of shares and the shares back into
      value never gains value; before any share exists the round trip is
      exact. Zero shares cannot be converted back: it is not a valid amount. */
  lemma ValueRoundTripNoGain(value: int, totalShares: int, totalValue: int)
    requires ValueToShares(value, totalShares, totalValue).Ok?
    requires ValueToShares(value, totalShares, totalValue).value > 0
    ensures var s := ValueToShares(value, totalShares, totalValue).value;
            var back := SharesToValue(s, totalShares, totalValue);
            back.Ok? && back.value <= value && (totalShares == 0 ==> back.value == value)
  {
    var s := ValueToShares(value, totalShares, totalValue).value;
    if totalShares > 0 {
      var back := SharesToValue(s, totalShares, totalValue).value;
      FloorRatioBack(value, totalShares, totalValue, s, back);
    }
  }
}
