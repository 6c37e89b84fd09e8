# js-lyf-math in Dafny

A model of the arithmetic core of js-lyf-math: exact big-integer formulas
for constant-product (x · y = k) liquidity pools with a fee in basis points
(10000 = 100%). Every operation of `index.js` is a pure function here, over
Dafny's unbounded `int`, returning a `Result` that is either the value or the
error the library throws:

- `IntegerSqrt.Sqrt` — `sqrtBN`, floor square root by digit doubling;
- `ConstantProductSwap.SwapReturn` — `getSwapReturn`, the output of a swap,
  rounded down;
- `ConstantProductSwap.AmountToSwapAsWritten` / `AmountToSwap` —
  `getAmountToSwap`, the input that buys at least a given output, rounded up
  (as written, and with the guard it evidently intends, see Findings);
- `OptimalDepositSolver.OptimalDepositCore` / `OptimalDeposit` —
  `_optimalDeposit` / `optimalDeposit`, the swap that brings a two-token
  deposit to the pool's proportion, and its direction;
- `ShareValueConverter.SharesToValue` / `ValueToShares` — `sharesToValue` /
  `valueToShares`, proportional conversions with the bootstrap rule that with
  no shares issued one share is one unit of value;
- `PositionValuator.PositionValue` — `getPositionValue`, the liquidation
  value of a farming position.

Modelling choices:

- The big-integer type's `div` truncates toward zero; `Arith.Div` models it
  for every sign. Where both operands are non-negative it is Dafny's `/`.
  `shrn(2)` and `shln(1)` are used only on non-negative numbers and are
  `/ 4` and `* 2`.
- Errors: `InvalidInput` ("Invalid input"), `NegativeInput` ("Negtiave
  input"), `Reversed` (the inner solver's orientation check) and
  `DivisionByZero`. The last one stands for the big-integer type's assertion
  failure on a zero divisor. No guard in the library excludes that case at
  three places: `getAmountToSwap` when `amountOut == reserveOut` or
  `fee == 10000`, `_optimalDeposit` when `fee == 10000`, and `valueToShares`
  when `totalShares > 0` and `totalValue == 0`.
- In the deposit solver the swap amount `s` of the token in excess solves
  `QuadA·s² + QuadB·s = QuadC`. Here `QuadA = 10000 − fee` and
  `QuadB = (20000 − fee)·resA`. `QuadC` is the cross-difference
  `amtA·resB − amtB·resA` times 10000, divided with truncation by
  `amtB + resB`, then times `resA`. The code
  computes `(√(b² + 4ac) − b) / 2a` with the floor square root. The model
  proves that this is exactly the largest integer not beyond the positive
  root (`IsFloorRoot`).
- `Sqrt` is recursive, as in the code. Its depth is half the bit length of
  the input.

The doc comment of `getAmountToSwap` (index.js:106) promises an input
amount that buys *at least* `amountOut`. The code does not reject
`amountOut >= reserveOut`, where no input can meet that promise: it fails in
the division when the two are equal. When `amountOut` is larger and the fee
is below 100%, it returns a value of at most 0, which the forward quote
rejects (see Findings); at a 100% fee the second division fails instead. The
model keeps that behaviour as written and proves the promise for the guarded
version.

## Model

| member | source | states |
|---|---|---|
| `IntegerSqrt.Sqrt` | index.js:18-30 | a negative input fails with NegativeInput; otherwise the result r satisfies r ≥ 0 and r² ≤ n < (r+1)² |
| `IntegerSqrt.DoublingStep` | index.js:26-29 | twice the floor root of n/4 has square ≤ n, and adding 2 to it overshoots: the two candidates bracket the root |
| `IntegerSqrt.FloorSqrtUnique` | index.js:18-30 | at most one integer is the floor square root of n |
| `Arith.Div` | index.js:124-125 | big-integer division truncates toward zero: quotient sign from the operands' signs, \|q\|·\|b\| ≤ \|a\| < (\|q\|+1)·\|b\|, equal to floor division on non-negative operands |
| `ConstantProductSwap.SwapReturn` | index.js:91-103 | fails with InvalidInput exactly when a reserve or the amount is ≤ 0 or the fee is outside [0, 10000]; otherwise 0 ≤ r < reserveOut, r keeps the fee-adjusted constant product and r + 1 does not |
| `ConstantProductSwap.SwapReturnIsLargest` | index.js:101-102 | every output that keeps the fee-adjusted constant product is at most the quote: the quote rounds down to the largest such output |
| `ConstantProductSwap.SwapReturnMonotone` | index.js:101-102 | swapping a larger amount never returns less |
| `ConstantProductSwap.SwapReturnFixture` | test/test.js:13-23 | the test's two quotes: 14985887746017313557235134776761 and, swapping it back, 19565008648014205995055588509 |
| `ConstantProductSwap.AmountToSwapAsWritten` | index.js:114-126 | InvalidInput exactly on the shared argument check; otherwise DivisionByZero exactly when amountOut == reserveOut or fee == 10000; succeeds on every other valid request; when amountOut > reserveOut the result is at most 0 |
| `ConstantProductSwap.OverdrawQuotient` | index.js:124-125 | above the reserve, with fee < 10000, the two truncating divisions of the code give at most −1, so the amount returned is at most 0 |
| `ConstantProductSwap.AmountToSwapAsWrittenOverdraws` | index.js:119-125 | for every valid-looking request above the reserve with fee < 10000 the call succeeds, the returned amount is ≤ 0, and the forward quote rejects it as invalid input |
| `ConstantProductSwap.AmountToSwapAsWrittenNegative` | index.js:119-125 | asking for 3 from a reserve of 2 (reserveIn 1, fee 0) returns −2, which the forward quote rejects |
| `ConstantProductSwap.AmountToSwap` | index.js:114-126 | InvalidInput exactly when the arguments fail the check or amountOut ≥ reserveOut; otherwise DivisionByZero exactly for a 100% fee, and a result in every other case; below the reserve it returns exactly what the code as written returns |
| `ConstantProductSwap.AmountToSwapSuffices` | index.js:105-126 | the returned amount x is ≥ 1 and SwapReturn(x) ≥ amountOut: swapping it gives at least what was asked |
| `ConstantProductSwap.AmountToSwapTight` | index.js:124-125 | when x ≥ 2, SwapReturn(x − 1) ≤ amountOut: the rounding up adds no more than one unit |
| `OptimalDepositSolver.QuadA` | index.js:37 | the leading coefficient a = 10000 − fee |
| `OptimalDepositSolver.QuadB` | index.js:38 | the linear coefficient b = (2·10000 − fee)·resA |
| `OptimalDepositSolver.QuadC` | index.js:39-40 | the constant c: the cross-difference amtA·resB − amtB·resA times 10000, divided with truncation by amtB + resB, times resA |
| `OptimalDepositSolver.OptimalDepositCore` | index.js:32-48 | fails with Reversed exactly when amtA·resB < amtB·resA; on valid oriented arguments succeeds exactly when fee < 10000, fails otherwise only on the zero divisor, and returns the floor root of QuadA·s² + QuadB·s = QuadC |
| `OptimalDepositSolver.FloorRootOfDiscriminant` | index.js:41-47 | with e the floor root of b² + 4ac, e ≥ b and (e − b) / 2a is the largest s with a·s² + b·s ≤ c |
| `OptimalDepositSolver.OrientedDiscriminant` | index.js:41-42 | on oriented arguments b² + 4ac is not negative, so the square root does not fail |
| `OptimalDepositSolver.OrientedFloorRoot` | index.js:41-47 | for a = QuadA, b = QuadB, c = QuadC on oriented arguments with fee < 10000, the truncating division (e − b) / 2a, with e the floor root of the discriminant, is the floor root of the balancing quadratic |
| `OptimalDepositSolver.QuadCBounds` | index.js:38-40 | with token A in excess, 0 ≤ QuadC ≤ QuadB·amtA |
| `OptimalDepositSolver.OptimalDeposit` | index.js:64-80 | InvalidInput exactly on a negative amount, a reserve ≤ 0 or a fee outside [0, 10000]; never Reversed; otherwise succeeds exactly when fee < 10000; isReversed == (amtA·resB < amtB·resA); swapAmount is the floor root of the quadratic in the chosen orientation |
| `OptimalDepositSolver.OptimalDepositNeverReversed` | index.js:75-78 | the public entry point never throws the inner "Reversed" error |
| `OptimalDepositSolver.OptimalDepositOfCore` | index.js:75-78 | with token A in excess the public entry point returns the inner solver's amount unreversed, and with the tokens exchanged and the deposit out of proportion it returns the same amount reversed |
| `OptimalDepositSolver.OptimalDepositWithinHolding` | index.js:37-47 | 0 ≤ swapAmount ≤ the amount held of the token being swapped |
| `OptimalDepositSolver.OrientedRootWithinHolding` | index.js:37-47 | with token A in excess the floor root is between 0 and amtA |
| `OptimalDepositSolver.OptimalDepositBalanced` | index.js:37-47 | a deposit with amtA·resB == amtB·resA and fee < 10000 gives swapAmount 0, isReversed false |
| `OptimalDepositSolver.OptimalDepositSymmetric` | index.js:75-78 | exchanging the two tokens gives the same outcome and swapAmount, with the opposite flag when the deposit is out of proportion |
| `OptimalDepositSolver.OptimalDepositCoreFixture` | test/test.js:31-43 | the inner solver on the test's arguments returns 10017429330203108534310239605 |
| `OptimalDepositSolver.OptimalDepositFixture` | test/test.js:31-47 | the test: (SwapPlan 10017429330203108534310239605, false) and, mirrored, the same amount with true |
| `ShareValueConverter.SharesToValue` | index.js:136-147 | InvalidInput exactly when shares ≤ 0 or a total is negative; with no shares issued the input comes back; otherwise the result is shares·totalValue/totalShares rounded down |
| `ShareValueConverter.ValueToShares` | index.js:157-168 | InvalidInput exactly when value ≤ 0 or a total is negative; DivisionByZero exactly when shares exist and totalValue == 0; succeeds in every other case; with no shares issued the input comes back; otherwise value·totalShares/totalValue rounded down |
| `ShareValueConverter.SharesToValueWithinTotal` | index.js:146 | no more than all the shares is worth no more than totalValue |
| `ShareValueConverter.SharesRoundTripNoGain` | index.js:136-168 | when the intermediate value is positive, shares → value → shares never gains shares, and is exact when no shares are issued |
| `ShareValueConverter.ValueRoundTripNoGain` | index.js:136-168 | when the intermediate number of shares is positive, value → shares → value never gains value, and is exact when no shares are issued |
| `PositionValuator.PositionValue` | index.js:180-192 | fails with InvalidInput exactly when an argument is ≤ 0, the fee is out of range, or the position holds as much as the pool of either token; otherwise amountBase ≤ r < reserveBase |
| `PositionValuator.PositionValueIsLiquidation` | index.js:191 | an output keeps the constant product of the pool without the position exactly when it is at most r − amountBase: the value is the base plus the best liquidation of the farm tokens |

## Left out

- Input coercion through `new BN(x)` (strings, numbers, BN) is parsing inside the big-integer library; the model takes integers.
- The big-integer library itself: its operations are mathematical integer operations, with truncating division as `Arith.Div`.
- The exact error message strings: each error is a constructor of `Outcomes.Error`.
- The type declarations in `index.d.ts`: signatures only, no logic.
- The proportion assertions of test/test.js:69 and test/test.js:99 compare integer-division ratios on two concrete inputs; they are not a general theorem and are not stated.
- The test imports `getReturn`, which the library does not export; its fixtures are stated about `SwapReturn`.
- OptimalDepositSolver.OptimalDeposit: states the swap amount as the floor root of the solver's quadratic, not that the deposit left after the swap matches the pool's proportion; the derivation of the quadratic from the pool formula is not modelled.

## Findings

| source | as written | input that shows it | evidently intended | confidence | as-written member | corrected member |
|---|---|---|---|---|---|---|
| index.js:119-125 | no check that amountOut < reserveOut; a larger amountOut gives a negative divisor, which the truncating division accepts, so with a fee below 100% an amount ≤ 0 comes back (a 100% fee fails in the second division) | getAmountToSwap(3, 1, 2, 0) returns −2 | reject amountOut ≥ reserveOut as invalid input, since no swap can take out more than the reserve | not executed; high | `ConstantProductSwap.AmountToSwapAsWritten` (`AmountToSwapAsWrittenOverdraws`, `AmountToSwapAsWrittenNegative`) | `ConstantProductSwap.AmountToSwap` (`AmountToSwapSuffices`, `AmountToSwapTight`) |
