# PegBalancer arbitrage bot and dashboard: a Dafny model

This project models the core of the PegBalancer bot and its dashboard. The
bot keeps a Uniswap v4 pool of USDC against the vault token yUSDC close to
the vault's net asset value (NAV). One cycle of the bot does five things:

- it measures the pool price's deviation from NAV in basis points;
- when the deviation reaches the trigger, it sizes a single-tick correcting
  trade from the two E18 prices (the Q64.96 sqrt-price codec and the
  fee-free single-range swap formulas of Uniswap v3);
- it sends the trade through the ArbExecutor contract (`arbMintThenSell` or
  `arbBuyAndQueue`), with 1% slippage minima, a 120% gas limit, a list of
  queued vault redemptions and the early aborts;
- it appends one snapshot to the balance ledger;
- the pool checker reads the pool's state around the current tick. It
  computes sqrt prices at ticks, position
  amounts, a tick window and the running liquidity across it, and formats
  amounts as decimal strings.

The ledger is an append-only history with a fixed starting balance. It also
supports a summary (running-peak drawdown, win rate), the most recent entries
and a CSV export. The dashboard reads it through a profit endpoint. The
dashboard's buy card orders the pool currencies, derives the swap direction,
decimals and minimum, validates, approves and classifies errors. Its redeem
card validates withdrawals and shows the unlock countdown.

The modules follow the source files:

| module | file |
|---|---|
| `OptimalAmounts` | `backend/check_optimal_amounts.js` |
| `PoolState`, `Units` | `backend/check_pool.js` |
| `BalanceLedger` | `backend/simple_balance_logger.js` |
| `ArbExecutor` | `backend/call_arb_contract.js` |
| `ArbCycle` | `backend/server.js` |
| `ProfitsApi` | `app/api/arbexecutor/profits/route.ts` |
| `BuyCard` | `components/BuyTokenCard.tsx` |
| `RedeemCard` | `components/RedeemTokenCard.tsx` |

The shared modules are:

- `Wrappers`: `Option` and `Result`.
- `Arith`: powers and division lemmas.
- `JsNum`: JavaScript's non-finite quotients and `JSON.stringify`'s `null`.
- `JsString`: `toLowerCase` and string `<`.
- `WalletErrors`: the error fields the cards test.
- `WalletChain`: the chain check and signer request both cards make before
  any wallet transaction (`ensureWalletOnArbSepolia`, then `getSigner`).

Code that works in place is imperative Dafny:

- Loops are methods with invariants, proved against a specification function:
  - `SqrtBig` (Newton's method);
  - `GetSqrtPriceAtTick`;
  - the tick window and the liquidity table;
  - the drawdown pass of `GetBalanceSummary`.
- Objects whose state the source mutates are classes:
  - the ledger (`BalanceLog`);
  - the executor's `pendingRedemptions` (`Executor`);
  - the two cards' React state (`BuyTokenCard`, `RedeemTokenCard`).

Straight-line BigInt and array code is functions.

BigInt division truncates toward zero in JavaScript and is Euclidean in Dafny.
They agree here because every modelled BigInt division has a non-negative
dividend and a positive divisor. The one exception is `calculateTokenAmounts`
inside the range when the current price lies outside the tick bounds: there
the model truncates toward zero explicitly.

## Model

| member | source | states |
|---|---|---|
| OptimalAmounts.ISqrt | backend/check_optimal_amounts.js:53-62 | the floor square root: r·r ≤ n < (r+1)·(r+1) |
| OptimalAmounts.NewtonDescends | backend/check_optimal_amounts.js:57-60 | while the guess is above ⌊√n⌋ a Newton step strictly lowers it, so the loop terminates |
| OptimalAmounts.NewtonAboveRoot | backend/check_optimal_amounts.js:59 | a Newton step from any positive guess never drops below ⌊√n⌋ |
| OptimalAmounts.InitialGuessAbove | backend/check_optimal_amounts.js:56 | for n ≥ 2 the first guess n/2+1 is at or above ⌊√n⌋ |
| OptimalAmounts.SqrtBig | backend/check_optimal_amounts.js:53-62 | the Newton loop as written returns the floor root for every n except 2, where it returns 2 |
| OptimalAmounts.FloorRootOfTwo | backend/check_optimal_amounts.js:53-62 | the floor root of 2 is 1, so sqrtBig(2) = 2 is wrong |
| OptimalAmounts.SqrtBigCorrected | backend/check_optimal_amounts.js:53-62 | the loop seeded so that it cannot stall returns the floor root for every n |
| OptimalAmounts.RootOfQuotientBounds | backend/check_optimal_amounts.js:80-81 | the floor root of ⌊n/d⌋ brackets n: s²·d ≤ n < (s+1)²·d |
| OptimalAmounts.SqrtPriceX96FromPriceE18 | backend/check_optimal_amounts.js:73-82 | the result is the unique s with s²·10^18·10^max(dec1−dec0,0) ≤ p·10^max(dec0−dec1,0)·2^192 < (s+1)²·…, for either sign of the exponent |
| OptimalAmounts.DecimalScales | backend/check_optimal_amounts.js:75-77 | the two decimal factors are 10^dec0 : 10^dec1 in lowest terms (one of them is 1), and swapping the decimals swaps them |
| OptimalAmounts.PriceFromSqrt | backend/check_optimal_amounts.js:91-96 | the E18 price is ⌊s²·10^(dec0−dec1)·10^18/2^192⌋, as a floor bracket with the decimal factor on the side where it is whole |
| OptimalAmounts.SqrtPriceX96Unique | backend/check_optimal_amounts.js:73-82 | any s satisfying that bracket is the conversion's result |
| OptimalAmounts.SqrtPriceMonotone | backend/check_optimal_amounts.js:73-82 | a higher E18 price never gives a lower sqrt price |
| OptimalAmounts.SqrtPriceX96FromPriceE18Corrected | backend/check_optimal_amounts.js:73-82 | the inverse of priceFromSqrt: the same bracket with the decimal factor on the other side |
| OptimalAmounts.SqrtPriceCorrectedMonotone | backend/check_optimal_amounts.js:73-82 | the corrected conversion is monotone in the price |
| OptimalAmounts.CorrectedAgreesOnEqualDecimals | backend/check_optimal_amounts.js:36-37 | with equal decimals (the bot's 6 and 6) the two conversions coincide |
| OptimalAmounts.RoundTripCorrected | backend/check_optimal_amounts.js:73-96 | the original price lies between the decoded corrected sqrt price s and the decoded s + 1, for all decimals |
| OptimalAmounts.RoundTripWithinOne | backend/check_optimal_amounts.js:73-96 | with equal decimals and a real price of at most 10^20 (10^38 in E18 units), encoding and decoding loses at most one E18 unit |
| OptimalAmounts.RebuiltAbove | backend/check_optimal_amounts.js:91-96 | a price below the decoding numerator of t, divided by its denominator, is at most t decoded |
| OptimalAmounts.RoundTripAsWritten | backend/check_optimal_amounts.js:73-96 | the source's round trip never overshoots when dec0 ≤ dec1 |
| OptimalAmounts.RoundTripAsWrittenOvershoots | backend/check_optimal_amounts.js:73-96 | for p = 4·10^17, dec0 = 1, dec1 = 0 the source's round trip returns 100·p |
| OptimalAmounts.PriceOfDouble | backend/check_optimal_amounts.js:91-96 | priceFromSqrt(2·2^96, 1, 0) = 40·10^18 |
| OptimalAmounts.AdjacentPricesShareSqrtPrice | backend/check_optimal_amounts.js:73-82 | two different E18 prices (10^18·k² and one more) can share a sqrt price, which makes the direction and the sizing guard disagree |
| OptimalAmounts.ZeroForOneIn | backend/check_optimal_amounts.js:104 | the token0 input is ⌊L·(sa−sb)·2^96/(sa·sb)⌋ (stated as a floor bracket), and 0 for zero liquidity |
| OptimalAmounts.ZeroForOnePostBounds | backend/check_optimal_amounts.js:104-109 | with L > 0 the divisor of the post-trade price is positive and sb ≤ sb_post ≤ sa |
| OptimalAmounts.ZeroForOneAmounts | backend/check_optimal_amounts.js:99-115 | throws iff sb ≥ sa; divides by zero iff sb = 0 or L = 0; otherwise amount0_in = ⌊L·(sa−sb)·2^96/(sa·sb)⌋, amount1_out = ⌊L·(sa−sb)/2^96⌋, sb_post = ⌊L·sa·2^96/(amount0_in·sa + L·2^96)⌋ lies in [sb, sa], and the post price is sb_post decoded |
| OptimalAmounts.OneForZeroPostBounds | backend/check_optimal_amounts.js:123-131 | with L > 0, sa ≤ sb_post ≤ sb |
| OptimalAmounts.OneForZeroAmounts | backend/check_optimal_amounts.js:118-137 | throws iff sb ≤ sa; divides by zero iff sa = 0 or L = 0; otherwise amount1_in = ⌊L·(sb−sa)/2^96⌋, amount0_out = ⌊L·(⌊2^192/sa⌋ − ⌊2^192/sb⌋)/2^96⌋, sb_post = sa + ⌊amount1_in·2^96/L⌋ lies in [sa, sb], and the post price is sb_post decoded |
| OptimalAmounts.SizingsAreExclusive | backend/check_optimal_amounts.js:99-137 | at most one sizing accepts a pair of sqrt prices, and neither accepts equal ones |
| OptimalAmounts.CalcOptAmounts | backend/check_optimal_amounts.js:16-262 | equal prices give "" with all amounts 0; zeroForOne iff P_LP > P_VAULT, oneForZero iff P_LP < P_VAULT; the ordering error occurs exactly when different prices give equal sqrt prices; the result carries the chosen sizing's amounts; it equals OptimalSizing |
| OptimalAmounts.OptimalSizing | backend/check_optimal_amounts.js:16-262 | the sizing as a value: zeroForOne's amounts when P_LP > P_VAULT, oneForZero's when P_LP < P_VAULT, each sizing's error passed on; no trade exactly when the prices are equal |
| PoolState.ConstantsBelowTwo128 | backend/check_pool.js:104-131 | the seed and every per-bit constant are positive and below 2^128 |
| PoolState.MulShiftBounds | backend/check_pool.js:133-137 | one multiply-and-shift step is monotone in the ratio and never raises it |
| PoolState.RatioBounds | backend/check_pool.js:104-137 | after any number of steps the ratio lies between the all-bits product and 2^128 |
| PoolState.RatioPositive | backend/check_pool.js:133-142 | the ratio is never zero, so the inversion for positive ticks never divides by zero |
| PoolState.TickRatio | backend/check_pool.js:104-142 | the Q128.128 ratio after the loop and the inversion is positive |
| PoolState.TickRatioReciprocal | backend/check_pool.js:139-142 | for a positive tick the ratio is ⌊(2^256−1)/ratio(−tick)⌋, and ratio(−tick) is the uninverted product of the constants |
| PoolState.SqrtPriceReciprocal | backend/check_pool.js:104-148 | the sqrt prices at tick and −tick multiply to 2^192 up to rounding: (s−1)(s′−1) < 2^192 ≤ s·s′ + 2^64 |
| PoolState.SqrtPriceAtTick | backend/check_pool.js:104-148 | the result is ⌈ratio / 2^32⌉ and at least 1 |
| PoolState.GetSqrtPriceAtTick | backend/check_pool.js:104-148 | the loop computes SqrtPriceAtTick |
| PoolState.MultiplyInBits | backend/check_pool.js:105-137 | the loop over bits 1..19 leaves the product of the seed and the table constants of the set bits, each shifted right by 128 (RatioAfter) |
| PoolState.SqrtPriceAtTickZero | backend/check_pool.js:104-148 | tick 0 gives exactly 2^96 |
| PoolState.SqrtPriceAtTickSign | backend/check_pool.js:104-148 | non-positive ticks give at most 2^96 and non-negative ticks at least 2^96 |
| PoolState.SqrtPriceAtTickLowBits | backend/check_pool.js:104-148 | only bits 0–19 of \|tick\| and its sign affect the result |
| PoolState.SqrtPriceToPriceE18 | backend/check_pool.js:94-102 | the E18 price is ⌊s²·10^dec0·10^18/(2^192·10^dec1)⌋, as a floor bracket |
| PoolState.SqrtPriceToPriceE18AgreesWithDecoder | backend/check_pool.js:94-102 | the pool checker's E18 price equals priceFromSqrt of the sizing code for the same inputs |
| PoolState.PriceAtUnitSqrtPrice | backend/check_pool.js:94-102 | sqrt price 2^96 with equal decimals reads as exactly 10^18 |
| PoolState.LowerSqrt | backend/check_pool.js:162 | the lower range bound is a positive sqrt price |
| PoolState.UpperSqrt | backend/check_pool.js:163 | the upper range bound is never below the lower one |
| PoolState.Amount0Between | backend/check_pool.js:180-181 | ⌊L·(b−a)·2^96/(b·a)⌋ truncated toward zero: a floor bracket and non-negative when a ≤ b, the negated bracket of the reversed interval when a > b |
| PoolState.Amount1Between | backend/check_pool.js:182 | L·(b−a)/2^96 truncated toward zero: a floor bracket when a ≤ b, the negated one when a > b |
| PoolState.AmountsBetweenAntisymmetric | backend/check_pool.js:180-182 | reversing the price interval negates both amounts exactly |
| PoolState.CalculateTokenAmounts | backend/check_pool.js:150-185 | an error (division by zero) iff the current tick is inside the range and the sqrt price is 0; below the range amount0 = ⌊L·(u−l)·2^96/(u·l)⌋ and amount1 = 0; above it amount0 = 0 and amount1 = ⌊L·(u−l)/2^96⌋; inside, the token0 amount over [price, upper] and the token1 amount over [lower, price], both non-negative when the price lies between the bounds |
| PoolState.CalculateTokenAmountsSymmetric | backend/check_pool.js:157-178 | swapping tickLower and tickUpper changes nothing |
| PoolState.RangeEdgesMatch | backend/check_pool.js:150-185 | inside the range at the lower edge's sqrt price the position is all token0, at the upper edge all token1, as below and above the range |
| PoolState.AmountsMonotoneInPrice | backend/check_pool.js:180-182 | inside the range a higher price means less token0 and more token1 |
| PoolState.OrderTokens | backend/check_pool.js:48-51 | the pair is the raw pair or its swap, with the decimals following their tokens, and the first token's lower-case form is the smaller one |
| PoolState.OrderTokensSymmetric | backend/check_pool.js:48-51 | the order of the raw addresses does not matter |
| PoolState.OrderTokensIdempotent | backend/check_pool.js:48-51 | ordering an ordered pair leaves it unchanged |
| PoolState.BuildTickWindow | backend/check_pool.js:262-266 | base is a multiple of the spacing with base ≤ tickNow < base + spacing; 2·20+1 ticks, tick j = base + (j−20)·spacing |
| PoolState.WindowShape | backend/check_pool.js:262-266 | consecutive ticks differ by the spacing, tickNow lies in the band after the middle tick, and exactly the ticks from the middle on are ≥ base |
| PoolState.BuildLiquidityTable | backend/check_pool.js:274-301 | each row carries its tick, sqrt price, gross and net liquidity, and the cursor liquidity after crossing up |
| PoolState.WindowLiquidity | backend/check_pool.js:274-301 | the cursor is Lnow below base and Lnow plus the net liquidity from base up to and including the tick otherwise |
| PoolState.CheckPool | backend/check_pool.js:203-367 | a zero sqrt price returns nothing; otherwise row j holds tick base + (j−20)·spacing, the sqrt price there and the chain's gross and net liquidity there, its L_after_up follows WindowLiquidity, and the amounts are CalculateTokenAmounts over the configured range |
| PoolState.Liquidities | backend/check_pool.js:277-278 | the table keeps each tick's gross and net liquidity in order |
| Units.NatToDigits | backend/check_pool.js:190 | a non-empty digit string without a leading zero whose value is n |
| Units.PadStart | backend/check_pool.js:190 | left-pads with zeros to the width, keeping longer strings |
| Units.PaddedDigits | backend/check_pool.js:188-190 | at least decimals+1 digits |
| Units.PaddedValue | backend/check_pool.js:188-190 | the padded digits denote \|amount\| |
| Units.TrimTrailingZeros | backend/check_pool.js:192 | removes exactly the trailing zeros |
| Units.IntPart | backend/check_pool.js:191 | a non-empty digit prefix, followed by the last `decimals` digits |
| Units.FracPart | backend/check_pool.js:192 | the last `decimals` digits without trailing zeros |
| Units.SplitValue | backend/check_pool.js:191-192 | the integer and fraction parts together denote the padded value |
| Units.Join | backend/check_pool.js:193-195 | no point with an empty fraction; never ends in "." or, with a point, in "0" |
| Units.FormatUnits | backend/check_pool.js:187-196 | starts with "-" iff amount < 0; never ends in "." or with a fractional trailing 0; plain digits when decimals = 0 |
| Units.FormatUnitsParts | backend/check_pool.js:187-196 | the output is the sign, the integer part and the trimmed fraction of the padded digits |
| Units.ParseFormatRoundTrip | backend/check_pool.js:187-196 | reading a formatted amount back with the same decimals gives the amount |
| Units.SplitAtPoint | components/BuyTokenCard.tsx:166 | the text before the first point and the text after it; the point is the only character dropped, and no point gives an empty fraction |
| Units.ParseUnits | components/BuyTokenCard.tsx:166 | an accepted string is an optional "-", then digits, an optional point and digits, with at least one digit in all; the result is ≤ 0 after a "-" and ≥ 0 otherwise, and its magnitude lies in [whole·10^decimals, (whole+1)·10^decimals) |
| Units.ParseUnitsLeadingPoint | components/BuyTokenCard.tsx:166 | an empty whole part reads as 0: ".5" parses as "0.5", "-.5" as "-0.5" |
| Units.ParseUnitsTrailingZero | components/BuyTokenCard.tsx:166 | appending a zero to a fraction never changes the parse, even past `decimals` digits |
| Units.ParseUnitsExcessDigit | components/BuyTokenCard.tsx:166 | a non-zero digit past `decimals` fraction digits makes the amount unreadable |
| Units.ParseUnitsExcessZero | components/BuyTokenCard.tsx:166 | "1.5000000" at 6 decimals is 1500000 |
| Units.ParseUnitsExcessNonZero | components/BuyTokenCard.tsx:166 | "1.5000001" at 6 decimals is rejected |
| Units.ParseUnitsBareFraction | components/BuyTokenCard.tsx:166 | ".5" at 6 decimals is 500000 |
| Units.ParseUnitsEdgeForms | components/BuyTokenCard.tsx:166 | "1." is accepted; "", "." and "-" are rejected |
| Units.EthersFormatUnits | components/BuyTokenCard.tsx:279-282 | with decimals > 0 the text always has a point and ends in a digit; with 0 decimals it is the plain digits |
| Units.EthersFormatVsFormatUnits | components/BuyTokenCard.tsx:279-282 | ethers' text is the pool checker's text with ".0" appended when that has no point and decimals > 0, and the same text otherwise |
| Units.EthersParseFormatRoundTrip | components/BuyTokenCard.tsx:279-282 | reading ethers' text back with the same decimals gives the amount |
| Units.EthersFormatWholeUnit | components/BuyTokenCard.tsx:279-282 | one whole unit (10^decimals, decimals > 0) is "1" for the pool checker and "1.0" for ethers |
| Units.ParseUnitsBarePoint | components/BuyTokenCard.tsx:166 | a trailing point with no fraction changes nothing: "1." reads as "1" |
| Units.FirstIndex | backend/check_pool.js:193-195 | the first occurrence of a character, or the length when it is absent |
| JsString.LowerChar | backend/check_pool.js:49 | ASCII upper-case letters move to lower case; nothing else changes |
| JsString.ToLower | backend/check_pool.js:49 | the character-wise lower-casing |
| JsString.Less | backend/check_pool.js:49 | string `<` is irreflexive |
| JsString.LessTrichotomy | backend/check_pool.js:48-51 | any two strings are ordered one way, equal, or ordered the other way, never both |
| JsString.LessTransitive | backend/check_pool.js:48-51 | string `<` is transitive |
| JsNum.Divide | backend/simple_balance_logger.js:115 | a finite quotient iff the divisor is non-zero; otherwise NaN for 0/0 and ±Infinity by the sign |
| JsNum.Times100 | backend/simple_balance_logger.js:115 | multiplies finite values and keeps non-finite ones |
| JsNum.Percent | backend/simple_balance_logger.js:101 | (a/b)·100, finite iff b ≠ 0 |
| JsNum.Greater | backend/simple_balance_logger.js:168 | `>` is false with NaN and agrees with real order on finite values |
| JsNum.Stored | backend/simple_balance_logger.js:51 | `JSON.stringify` keeps finite numbers and writes the others as null |
| BalanceLedger.TextOrNull | backend/simple_balance_logger.js:79-80 | `s \|\| null`: kept iff present and non-empty |
| BalanceLedger.NumberOrNull | backend/simple_balance_logger.js:82-87 | `x \|\| null`: kept iff present and non-zero |
| BalanceLedger.ChangeFrom | backend/simple_balance_logger.js:97-105 | prev + change = value; a percentage iff prev ≠ 0, equal to change·100/prev |
| BalanceLedger.EntryFor | backend/simple_balance_logger.js:73-118 | the new entry's value and timestamp; a change iff the history is non-empty, from the last entry; profit = value − start |
| BalanceLedger.BalanceLog.Init | backend/simple_balance_logger.js:19-25 | the initial shape: no balances, zero trades, empty history, and the ledger invariant |
| BalanceLedger.BalanceLog.Reset | backend/simple_balance_logger.js:386-395 | back to the initial shape with a new start time, keeping the invariant |
| BalanceLedger.BalanceLog.LogBalance | backend/simple_balance_logger.js:64-139 | the first append fixes the starting balance and later ones keep it; exactly one entry is appended; current balance and counter are updated; the invariant is kept |
| BalanceLedger.AppendKeepsWellFormed | backend/simple_balance_logger.js:91-121 | appending the computed entry keeps every entry consistent with the starting balance |
| BalanceLedger.ChangesSumToProfit | backend/simple_balance_logger.js:97-118 | the recorded changes sum to the last value minus the first, which is the last entry's profit |
| BalanceLedger.BalanceLog.GetBalanceSummary | backend/simple_balance_logger.js:144-207 | no data iff the history is empty; otherwise start and current come from the first and last entries, profit = current − start, the drawdown is the running-peak maximum and never negative (or +Infinity for a zero peak), the average per trade is finite, wins + losses ≤ entries − 1, and the win rate is in [0, 100] |
| BalanceLedger.PeakBounds | backend/simple_balance_logger.js:160-166 | the running peak starts at the starting balance, is at least every value seen, and never decreases |
| BalanceLedger.MaxDrawdownNonNegative | backend/simple_balance_logger.js:160-172 | the maximum drawdown is never negative |
| BalanceLedger.DrawdownPercentBounds | backend/simple_balance_logger.js:167 | with a positive peak at or above the value the drawdown is a finite percentage in [0, 100] |
| BalanceLedger.MaxDrawdownAtMost100 | backend/simple_balance_logger.js:160-172 | with a positive starting balance and non-negative values the maximum drawdown is finite and at most 100 |
| BalanceLedger.WithChange | backend/simple_balance_logger.js:177-179 | exactly the entries that have a change |
| BalanceLedger.WinsAndLossesBounded | backend/simple_balance_logger.js:177-185 | wins + losses ≤ entries with a change, so zero changes only count in the denominator |
| BalanceLedger.WithChangeOfWellFormed | backend/simple_balance_logger.js:97-111 | in a ledger, every entry but the first has a change |
| BalanceLedger.WinRate | backend/simple_balance_logger.js:186-189 | 0 without changes; otherwise wins·100/changes, in [0, 100] when wins ≤ changes |
| BalanceLedger.Reverse | backend/simple_balance_logger.js:269 | element i of the result is element len−1−i |
| BalanceLedger.SliceStart | backend/simple_balance_logger.js:269 | `slice(-count)`'s start index stays within the array |
| BalanceLedger.RecentBalances | backend/simple_balance_logger.js:267-270 | the last min(count, len) entries, most recent first; count = 0 gives the whole history |
| BalanceLedger.JoinSeparators | backend/simple_balance_logger.js:355 | joining n parts puts n−1 separators in when the parts have none |
| BalanceLedger.NumberCell | backend/simple_balance_logger.js:363-366 | a missing or zero number exports as an empty cell |
| BalanceLedger.CsvCells | backend/simple_balance_logger.js:357-371 | 11 cells, the timestamp first, empty change cells on the first entry, an empty profit cell for a zero profit |
| BalanceLedger.CsvRows | backend/simple_balance_logger.js:357-371 | one joined row per entry, in order |
| BalanceLedger.ExportCsv | backend/simple_balance_logger.js:335-373 | nothing is written iff the history is empty |
| BalanceLedger.RowSingleLine | backend/simple_balance_logger.js:357-371 | a row has no newline when its text fields have none |
| BalanceLedger.HeaderSingleLine | backend/simple_balance_logger.js:343-355 | the header is one line |
| BalanceLedger.HeaderColumnCount | backend/simple_balance_logger.js:343-355 | the header has 11 columns |
| BalanceLedger.CsvColumnCount | backend/simple_balance_logger.js:343-371 | every row has as many columns as the header when its text fields hold no comma |
| BalanceLedger.CsvLineCount | backend/simple_balance_logger.js:373 | the file is the header plus exactly one line per entry |
| ArbExecutor.Slippage99 | backend/call_arb_contract.js:347-348 | ⌊99x/100⌋, never above x |
| ArbExecutor.GasLimit | backend/call_arb_contract.js:392 | ⌊120g/100⌋, never below the estimate |
| ArbExecutor.Deadline | backend/call_arb_contract.js:331 | client seconds plus 3000 |
| ArbExecutor.PlanArb | backend/call_arb_contract.js:104-369 | a call is planned iff not paused, the pool matches, the direction is known, the BASE balance covers the input and the deadline is after the latest block; otherwise one of the five abort reasons, Paused whenever the contract is paused |
| ArbExecutor.DirectionMapping | backend/call_arb_contract.js:261-369 | zeroForOne mints and sells (amount0_in, amount1_out), oneForZero buys and queues (amount1_in, amount0_out); every minimum is at most its amount |
| ArbExecutor.PairKeySymmetric | backend/call_arb_contract.js:211-215 | the sorted lower-case key of a pair ignores the order of the pair |
| ArbExecutor.PairKeyParts | backend/call_arb_contract.js:211-215 | the key is the two lower-case addresses, smaller first, joined by a comma |
| ArbExecutor.PoolMatchesIff | backend/call_arb_contract.js:211-222 | the pool matches iff its currencies equal {BASE, yToken} as lower-case sets, for comma-free addresses |
| ArbExecutor.Without | backend/call_arb_contract.js:506-508 | exactly the redemptions with another hash, and the list itself when none has the hash |
| ArbExecutor.RedemptionFor | backend/call_arb_contract.js:420-427 | canCompleteAt = block time + delay and minBaseOut ≤ expectedOut |
| ArbExecutor.Executor.constructor | backend/call_arb_contract.js:32-35 | no pending redemptions and the configured delay |
| ArbExecutor.Executor.CompleteQueuedRedeem | backend/call_arb_contract.js:477-515 | submits with the redemption's minimum and the 120% gas limit; on success removes exactly the entries with its hash, on failure keeps the list |
| ArbExecutor.Executor.FinalizeHead | backend/call_arb_contract.js:448-455 | completes the oldest queued redemption; the queue is never empty when the timer fires, and the model leaves an empty one unchanged |
| ArbExecutor.Executor.CallArbContract | backend/call_arb_contract.js:73-473 | early returns exactly as PlanArb; success iff the plan holds and the transaction is mined; a mined buy-and-queue completes at once with delay 0 and is appended otherwise; nothing else touches the list; the new queue is QueueAfter of the old one |
| ArbExecutor.QueueAfter | backend/call_arb_contract.js:409-455 | the queue after a call: unchanged unless the plan holds and the transaction is mined; at most one record added, and a new record is the mined trade's, completable after the delay |
| ArbCycle.DeviationBps | backend/server.js:106-109 | ⌊\|NAV − LP\|·10000/NAV⌋, and an exception iff NAV = 0 |
| ArbCycle.DirectionLabel | backend/server.js:117 | "LP_TO_VAULT" iff LP < NAV, "VAULT_TO_LP" iff LP ≥ NAV |
| ArbCycle.DeviationZeroAtPeg | backend/server.js:106-109 | a pool at NAV deviates by 0 |
| ArbCycle.DeviationMonotone | backend/server.js:106-109 | a price further from NAV never has a smaller deviation |
| ArbCycle.TriggerIsInclusive | backend/server.js:114 | with the default 500 bps, 5% below NAV triggers and 4.99% does not |
| ArbCycle.LabelMatchesSizing | backend/server.js:117-122 | "LP_TO_VAULT" is the oneForZero sizing and "VAULT_TO_LP" the zeroForOne one |
| ArbCycle.ArbTxHash | backend/server.js:133 | a hash iff the executor succeeded with a non-empty one |
| ArbCycle.CheckAndExecuteArbitrage | backend/server.js:95-155 | NAV = 0 throws; below the trigger (and at or above it without pool data) nothing is sent or logged; the sizing error is thrown exactly when the triggered sizing fails; a cycle that does not reach the executor leaves the ledger and the redemption queue unchanged; one that does sends exactly the sized trade (OptimalSizing), leaves the queue as QueueAfter says, succeeds iff the plan holds and the transaction is mined, and, when it then reads the balances, appends exactly the EntryFor entry for those balances, labelled with the direction and the transaction hash; when reading the balances throws after the executor ran, the ledger is unchanged |
| ProfitsApi.OrZero | app/api/arbexecutor/profits/route.ts:50-54 | `x \|\| 0` |
| ProfitsApi.ArbTrades | app/api/arbexecutor/profits/route.ts:57-63 | exactly the entries with a hash, a direction other than SWAP_DETECTED and a change |
| ProfitsApi.ArbTradesAppend | app/api/arbexecutor/profits/route.ts:57-63 | the filter distributes over concatenation, so log order is kept |
| ProfitsApi.View | app/api/arbexecutor/profits/route.ts:69-78 | a trade row keeps timestamp and value, and the profit is the change |
| ProfitsApi.Views | app/api/arbexecutor/profits/route.ts:69-78 | one row per trade, in order |
| ProfitsApi.HoursRunning | app/api/arbexecutor/profits/route.ts:83-86 | at least 0.01, and otherwise the elapsed hours |
| ProfitsApi.AveragePerTrade | app/api/arbexecutor/profits/route.ts:104-105 | 0 without trades, otherwise total/count |
| ProfitsApi.PerHour | app/api/arbexecutor/profits/route.ts:87 | rate·hours = total |
| ProfitsApi.StatsOf | app/api/arbexecutor/profits/route.ts:47-125 | a non-empty history gives statistics |
| ProfitsApi.GetProfits | app/api/arbexecutor/profits/route.ts:11-139 | no data with zero totals iff the file or its history is missing or empty; an error iff the file does not parse |
| ProfitsApi.StatsProperties | app/api/arbexecutor/profits/route.ts:47-125 | start time from the log and last update from the latest entry; start balance from the log, else 0; current balance the latest value when non-zero, else the log's, else 0; profit and profit percent from the latest entry (percent 0 when absent); the log's trade count; recent = last ≤ 10 arb trades, most recent first; wins + losses ≤ arb trades, which all have a change; win rate in [0, 100]; average and hourly profit share the total out |
| ProfitsApi.ArbTradesHaveChange | app/api/arbexecutor/profits/route.ts:90-92 | filtering arb trades for a change keeps them all |
| ProfitsApi.StatsOfWellFormedLedger | app/api/arbexecutor/profits/route.ts:47-63 | on a log the ledger wrote, the first snapshot is no arb trade and profit = last value − first value |
| WalletErrors.Thrown | components/BuyTokenCard.tsx:88 | `new Error(msg)` carries only a message |
| WalletErrors.MessageText | components/BuyTokenCard.tsx:380 | `e?.message \|\| ""` |
| WalletErrors.FallbackText | components/BuyTokenCard.tsx:391 | the reason, else the message, else the default |
| WalletErrors.NoMessageNoRateLimit | components/BuyTokenCard.tsx:382 | an error without a message is never a rate limit |
| WalletErrors.NotRateLimitWithout | components/BuyTokenCard.tsx:382 | a message without q, Q or 4 is never a rate limit |
| BuyCard.Validate | components/BuyTokenCard.tsx:88-101 | no failure iff an account, a positive amount and valid USDC, yUSDC and router addresses; the first failing check's message otherwise |
| BuyCard.ValidateIgnoresChain | components/BuyTokenCard.tsx:88-101 | validation reads nothing from the network |
| BuyCard.Currencies | components/BuyTokenCard.tsx:139-142 | currency0 is the address with the smaller lower-case form; the two slots differ |
| BuyCard.ChooseSide | components/BuyTokenCard.tsx:151-161 | buying yUSDC spends USDC and back; zeroForOne iff the input is currency0 |
| BuyCard.SidesAreOpposite | components/BuyTokenCard.tsx:151-161 | the two buy directions have opposite zeroForOne and swapped tokens |
| BuyCard.TokenDecimals | components/BuyTokenCard.tsx:124-135 | yUSDC's decimals as read, 6 when the read fails |
| BuyCard.DecimalsFollowTokens | components/BuyTokenCard.tsx:164-165 | the input and output decimals are those of the input and output tokens |
| BuyCard.MinOut | components/BuyTokenCard.tsx:192-193 | ⌊est·(100 − slippage)/100⌋, never above est |
| BuyCard.SwapDeadline | components/BuyTokenCard.tsx:337 | client seconds plus 1800 |
| BuyCard.Prepare | components/BuyTokenCard.tsx:88-252 | a failed validation throws its message before anything else |
| BuyCard.PrepareProperties | components/BuyTokenCard.tsx:88-252 | preparation succeeds iff every check passes, the amount parses, the output estimate parses, the wallet ends up on Arbitrum Sepolia with a signer and the pool is initialized; an estimate that does not parse (a missing or zero pool price gives "Infinity") is the error before the wallet is asked; a failed chain check or signer is the error before the pool is read; the result spends the chosen token, with its decimals, the parsed amount, the minimum of the estimate and the ordered pool key |
| BuyCard.RequestProperties | components/BuyTokenCard.tsx:355-363 | the swap spends the parsed amount towards the caller in the direction that spends the input token; its minimum is 0 although a 1% minimum is computed |
| BuyCard.Classify | components/BuyTokenCard.tsx:374-392 | the first matching class in the fixed order |
| BuyCard.RejectionWins | components/BuyTokenCard.tsx:374-375 | code 4001 is always shown as a rejection |
| BuyCard.PlainMessageShownAsThrown | components/BuyTokenCard.tsx:374-392 | a thrown message that matches no pattern is shown verbatim |
| BuyCard.PlainMessageTests | components/BuyTokenCard.tsx:374-392 | such a message fails every earlier test |
| BuyCard.RouterMessageShownAsThrown | components/BuyTokenCard.tsx:380-381 | the router-missing message is shown as thrown |
| BuyCard.SwitchRefusalShown | components/BuyTokenCard.tsx:369-392 | a refused switch from a chain whose id has no digit 4 passes none of the message tests and is shown unchanged |
| BuyCard.NotDeployedShownWithHint | components/BuyTokenCard.tsx:386-387 | a "not deployed" message gets the .env hint appended |
| BuyCard.NotDeployedTests | components/BuyTokenCard.tsx:374-387 | it fails every test before the "not deployed" one |
| BuyCard.SubmitApprovals | components/BuyTokenCard.tsx:275-327 | the balance is read first; the input token is approved iff its allowance is below the amount, the other iff its allowance is 0; the swap is last |
| BuyCard.ApprovalRules | components/BuyTokenCard.tsx:275-327 | the same rules over the handler's whole trace |
| BuyCard.Preflight | components/BuyTokenCard.tsx:88-252 | returns Prepare's result, only reads, and reads nothing iff validation fails |
| BuyCard.BuyTokenCard.constructor | components/BuyTokenCard.tsx:39-46 | the initial React state |
| BuyCard.BuyTokenCard.Fail | components/BuyTokenCard.tsx:369-395 | shows the classified error and stops loading |
| BuyCard.BuyTokenCard.Submit | components/BuyTokenCard.tsx:254-368 | a short balance aborts after reading balances; otherwise the approvals and the swap are sent and the hash or the error is shown |
| BuyCard.BuyTokenCard.HandleBuy | components/BuyTokenCard.tsx:82-396 | never left loading; an error iff no hash; no read iff validation fails; a failed preparation (a refused chain switch or signer included) only reads and shows its error; a short balance sends nothing and shows both amounts in ethers' format; otherwise the whole swap trace |
| RedeemCard.ValidateRedeem | components/RedeemTokenCard.tsx:124-129 | no failure iff an account, a non-empty amount not ≤ 0 and a vault address; the first failing message otherwise |
| RedeemCard.CallFor | components/RedeemTokenCard.tsx:149-203 | initiateWithdraw(shares) or withdraw(shares, account, account) |
| RedeemCard.PlanRedeemProperties | components/RedeemTokenCard.tsx:118-149 | a plan succeeds iff validation passes, the vault's decimals are read, the amount parses with them, a wallet exists and it ends up on Arbitrum Sepolia with a signer; a failed decimals read is the error, and so is a failed chain check or signer; a plan sends the parsed shares |
| RedeemCard.HandlersAgreeOnChecks | components/RedeemTokenCard.tsx:172-203 | both handlers accept and reject the same inputs with the same errors and send the same shares |
| RedeemCard.RedeemErrorText | components/RedeemTokenCard.tsx:158-165 | rejection first, then the rate limit, then reason, message or default |
| RedeemCard.ErrorTextNonEmpty | components/RedeemTokenCard.tsx:158-165 | a failure always shows some text |
| RedeemCard.ThrownShownVerbatim | components/RedeemTokenCard.tsx:158-165 | a thrown message that cannot read as a rate limit is shown as is |
| RedeemCard.NowSec | components/RedeemTokenCard.tsx:231 | ⌊ms/1000⌋ |
| RedeemCard.TimeUntilUnlock | components/RedeemTokenCard.tsx:233 | 0 iff no unlock time or already past; otherwise now + t = unlock |
| RedeemCard.MinutesOf | components/RedeemTokenCard.tsx:235 | below 60 |
| RedeemCard.HoursMinutesBracket | components/RedeemTokenCard.tsx:234-235 | hours·3600 + minutes·60 ≤ t < that + 60, with minutes ≤ 59 |
| RedeemCard.UnlockedMeansNoWait | components/RedeemTokenCard.tsx:232-233 | unlocked implies no wait; no wait with an unlock time set implies unlocked |
| RedeemCard.CountdownMonotone | components/RedeemTokenCard.tsx:231-235 | as time passes the wait never grows and an unlocked card stays unlocked |
| RedeemCard.CountdownAt | components/RedeemTokenCard.tsx:231-235 | the displayed countdown agrees with the unlock flag and the remaining seconds |
| RedeemCard.RedeemTokenCard.constructor | components/RedeemTokenCard.tsx:24-27 | the initial React state |
| RedeemCard.RedeemTokenCard.HandleWithdraw | components/RedeemTokenCard.tsx:118-223 | never left loading; an error iff no hash; nothing read iff validation fails; a failed plan (a refused chain switch or signer included) only reads the decimals and shows its error; otherwise the vault call is sent and its hash or error shown |
| RedeemCard.SwitchRefusalShown | components/RedeemTokenCard.tsx:212-220 | a refused switch from a chain whose id has no digit 4 shows the switch message unchanged |
| WalletChain.SwitchMessage | components/BuyTokenCard.tsx:75-77 | the message is the fixed prefix, the current chain id in decimal digits, and ")" |
| WalletChain.SwitchMessageNamesChain | components/BuyTokenCard.tsx:75-77 | two chains give the same message iff they are the same chain |
| WalletChain.EnsureArbSepolia | components/BuyTokenCard.tsx:59-80 | returns iff the network is read and the wallet is on Arbitrum Sepolia, or switches, or (answering 4902) adds the chain; a refusal with another code throws the switch message naming the current chain; a failed add throws the add's error |
| WalletChain.ConnectSigner | components/BuyTokenCard.tsx:211-212 | a signer on the chain iff the chain check returns and `getSigner` succeeds; otherwise the first error |
| WalletChain.OnChainAsksNothing | components/BuyTokenCard.tsx:62 | a wallet already on Arbitrum Sepolia is asked neither to switch nor to add the chain: the outcome is `getSigner`'s alone |
| WalletChain.SwitchMessageChars | components/BuyTokenCard.tsx:75-77 | with a chain id free of the digit 4, the switch message lacks every character the cards' message tests need |

## Left out

- Network, wallet and ethers calls are parameters. These include contract reads, `getCode`, gas estimates, sending and mining transactions and `getPoolId`'s keccak hash. For the chain check, what the wallet answers to `getNetwork`, `wallet_switchEthereumChain`, `wallet_addEthereumChain` and `getSigner` is the parameter `WalletSession`; the decisions `ensureWalletOnArbSepolia` takes on those answers are modelled (`WalletChain`).
- WalletChain.ArbSepoliaChainId: it is the default 421614; overriding the chain id through the environment is not modelled.
- The chain-switch and signer requests are not entries of the cards' action traces, which list the contract reads and transactions.
- BuyCard.PrepareProperties: the reads of `getCode`, USDC's `decimals()`, the two balances and the two allowances, and the two approval transactions, always succeed in the model. In the card a throw from any of them goes to the catch block and is shown like any other error. yUSDC's `decimals()` failure (default 6) and the output estimate's parse failure are modelled.
- ArbCycle.CheckAndExecuteArbitrage: the executor's reads before its transaction (owner and paused flag, addresses, decimals, balances, allowances, pool key, latest block, `convertToShares`) always succeed in the model. In the bot a throw from any of them ends the cycle in its catch block with nothing logged. A failure of `getBalances` after the executor ran is modelled.
- Floating-point display math is not modelled: `sqrtPriceToPrice`'s final `Number(...)/1e18`, the price impact, the float arithmetic inside `getBalances`, the buy card's output estimate (`estTokens` is a parameter: the estimate in base units, or what parsing its formatted text threw) and `cashToReceive`.
- Ledger numbers are `real`. JavaScript float rounding is not modelled.
- `Number(amount)` and `ethers.isAddress` are inputs (`amountNum`, the `...Ok` flags).
- `ethers.parseUnits` is `Units.ParseUnits`, the inverse of `formatUnits`. It follows ethers' fixed-point grammar: an optional "-", digits, an optional point and digits, at least one digit in all; an empty whole part reads as 0, and fraction digits beyond `decimals` are accepted only when they are all zeros. What ethers throws on any other string is the parameter `parseFailure`.
- Units.ParseUnits: ethers' 512-bit limit on the parsed value is not modelled; the model reads amounts of any size.
- Lower-casing covers the ASCII letters, which is all that hex addresses contain.
- Timers and concurrency are left out: the `FeeChosen` event listener, `setInterval` polling and the retry/backoff helpers. The `setTimeout` callback is the method `FinalizeHead`, called explicitly.
- File reads and writes, `JSON.parse` and the BigInt replacer are left out. The ledger file is the state of `BalanceLog`, and an unparsable file is the input `Unparsable`.
- The console display functions (`displayBalanceSummary`, `displayRecentBalances`) and all logging are left out.
- Dates are inputs: ISO timestamps are strings, and the elapsed milliseconds between two of them are a parameter.
- `hoursRunning.toFixed(2)` is returned as the number before formatting.
- `fetchPendingWithdrawal` in the redeem card is left out: its only effect is reading values from the chain. The unlock time is a parameter of the countdown.
- The toggle route, which starts and stops the bot process, is not part of this model. Neither are the UI-only pages, components and hooks.
- OptimalAmounts.RoundTripAsWritten: the round-trip bound is proved only for dec0 ≤ dec1, because it fails otherwise (see Findings).
- OptimalAmounts.SqrtPriceX96FromPriceE18: specified by the floor root `ISqrt` rather than by `sqrtBig`. The two differ only on a radicand of 2 (see Findings).
- OptimalAmounts.CalcOptAmounts: uses the corrected conversion, which equals the source's on the bot's equal decimals (6 and 6).
- BalanceLedger.MaxDrawdownAtMost100: assumes a positive starting balance and non-negative values. JavaScript would give Infinity or NaN for a zero peak.

## Findings

| source | as written | input that shows it | evidently intended | confidence | as-written member | corrected member |
|---|---|---|---|---|---|---|
| backend/check_optimal_amounts.js:53-62 | `sqrtBig` starts Newton's method at x1 = (n >> 1) + 1. For n = 2 that equals n, so the loop never runs and 2 is returned. | n = 2 returns 2, but 2·2 > 2 | the floor square root for every n (1 for n = 2) | not executed | OptimalAmounts.SqrtBig | OptimalAmounts.SqrtBigCorrected |
| backend/check_optimal_amounts.js:73-96 | `sqrtPriceX96FromPriceE18` multiplies the price by 10^(dec0−dec1). `priceFromSqrt` (and the pool checker's `sqrtPriceToPriceE18`) multiplies by it again, so the factor is applied twice. | priceE18 = 4·10^17, dec0 = 1, dec1 = 0: the sqrt price is 2·2^96, which reads back as 4·10^19, 100 times the input | encoding divides by the factor, so that decoding the encoded price never exceeds it | not executed | OptimalAmounts.RoundTripAsWrittenOvershoots | OptimalAmounts.RoundTripCorrected |

Both discrepancies are latent in the deployed configuration. Both decimals are 6, and the radicands are either 0 or far above 2.
