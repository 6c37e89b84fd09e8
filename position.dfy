/** Liquidation value of a leveraged farming position (getPositionValue). */
module PositionValuator {
  import opened Arith
  import opened Outcomes
  import opened ConstantProductSwap

  /** The argument check of getPositionValue. */
  predicate ValidPosition(amountBase: int, amountFarm: int, reserveBase: int, reserveFarm: int, fee: int) {
    amountBase > 0 && amountFarm > 0 && reserveBase > 0 && reserveFarm > 0 && ValidFee(fee)
  }

  /** The position's base tokens plus what selling all its farm tokens
      yields in a pool from which the position's own holdings are first taken
      out. The inner quote rejects a position that holds as much as the pool
      of either token. */
  function PositionValue(amountBase: int, amountFarm: int, reserveBase: int, reserveFarm: int, fee: int): (r: Result<int>)
    ensures r.Err? <==> !ValidPosition(amountBase, amountFarm, reserveBase, reserveFarm, fee)
                        || amountFarm >= reserveFarm || amountBase >= reserveBase
    ensures r.Err? ==> r.error == InvalidInput
    ensures r.Ok? ==> amountBase <= r.value < reserveBase
  {
    if amountBase <= 0 || amountFarm <= 0 || reserveBase <= 0 || reserveFarm <= 0
       || fee < 0 || fee > BPS_DIVISOR then
      Err(InvalidInput)
    else
      var out :- SwapReturn(amountFarm, reserveFarm - amountFarm, reserveBase - amountBase, fee);
      Ok(amountBase + out)
  }

  /** The liquidation part of the value is exactly the largest base amount
      that selling the farm tokens into the rest of the pool can take out
      without lowering its fee-adjusted constant product. */
  lemma PositionValueIsLiquidation(amountBase: int, amountFarm: int, reserveBase: int, reserveFarm: int,
                                   fee: int, out: int)
    requires PositionValue(amountBase, amountFarm, reserveBase, reserveFarm, fee).Ok?
    ensures KeepsProduct(amountFarm, reserveFarm - amountFarm, reserveBase - amountBase, fee, out)
            <==> out <= PositionValue(amountBase, amountFarm, reserveBase, reserveFarm, fee).value - amountBase
  {
    var q := SwapReturn(amountFarm, reserveFarm - amountFarm, reserveBase - amountBase, fee).value;
    if KeepsProduct(amountFarm, reserveFarm - amountFarm, reserveBase - amountBase, fee, out) {
      SwapReturnIsLargest(amountFarm, reserveFarm - amountFarm, reserveBase - amountBase, fee, out);
    } else if out <= q {
      KeepsProductDownward(amountFarm, reserveFarm - amountFarm, reserveBase - amountBase, fee, out, q);
    }
  }
}
