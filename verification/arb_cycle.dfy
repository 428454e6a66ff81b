/**
 * One pass of the bot's cycle (`checkAndExecuteArbitrage`): measure how far
 * the pool price has drifted from the vault's NAV in basis points, and when
 * the drift reaches the trigger size the correction, hand it to the
 * executor and append exactly one snapshot to the balance ledger.
 *
 * The hook's prices, the pool liquidity `checkPool` reports, the chain
 * view the executor reads, the outcome of its transactions, the balances
 * read after the attempt and the clock are parameters.
 */
module ArbCycle {
  import opened Wrappers
  import opened Arith
  import opened OptimalAmounts
  import opened ArbExecutor
  import opened BalanceLedger

  const Bps: nat := 10000

  /** The trigger used when ARB_TRIGGER_BPS is not set: 5%. */
  const DefaultTriggerBps: nat := 500

  /** `|NAV - LP| * 10000n / NAV` in BigInt; `None` where the division throws (NAV = 0). */
  function DeviationBps(priceLP: nat, priceNAV: nat): (dev: Option<nat>)
    ensures dev.None? <==> priceNAV == 0
    ensures dev.Some? ==>
      var diff := if priceNAV > priceLP then priceNAV - priceLP else priceLP - priceNAV;
      dev.value * priceNAV <= diff * Bps < (dev.value + 1) * priceNAV
  {
    if priceNAV == 0 then None
    else
      var diff := if priceNAV > priceLP then priceNAV - priceLP else priceLP - priceNAV;
      DivBounds(diff * Bps, priceNAV);
      DivNat(diff * Bps, priceNAV);
      MulSucc((diff * Bps) / priceNAV, priceNAV);
      Some((diff * Bps) / priceNAV)
  }

  /** A correction is attempted when the deviation reaches the trigger. */
  predicate Triggers(dev: nat, triggerBps: nat)
  {
    dev >= triggerBps
  }

  /** "LP_TO_VAULT" when the pool trades below NAV, "VAULT_TO_LP" otherwise, equality included. */
  function DirectionLabel(priceLP: nat, priceNAV: nat): (name: string)
    ensures name == "LP_TO_VAULT" <==> priceLP < priceNAV
    ensures name == "VAULT_TO_LP" <==> priceLP >= priceNAV
  {
    if priceLP < priceNAV then "LP_TO_VAULT" else "VAULT_TO_LP"
  }

  /** A pool price at NAV has no deviation. */
  lemma DeviationZeroAtPeg(price: nat)
    requires price > 0
    ensures DeviationBps(price, price) == Some(0)
  {
  }

  /**
   * The deviation grows with the distance from NAV: a pool price further
   * from NAV never has a smaller deviation.
   */
  lemma DeviationMonotone(lp1: nat, lp2: nat, nav: nat)
    requires nav > 0
    requires (if nav > lp1 then nav - lp1 else lp1 - nav) <= (if nav > lp2 then nav - lp2 else lp2 - nav)
    ensures DeviationBps(lp1, nav).value <= DeviationBps(lp2, nav).value
  {
    var d1 := if nav > lp1 then nav - lp1 else lp1 - nav;
    var d2 := if nav > lp2 then nav - lp2 else lp2 - nav;
    MulLeRight(d1, d2, Bps);
    DivMonotone(d1 * Bps, d2 * Bps, nav);
  }

  /**
   * The trigger is inclusive: with the default of 500 bps a pool exactly 5%
   * below a NAV of 1.0 (E18) triggers, and one 4.99% below does not.
   */
  lemma TriggerIsInclusive()
    ensures DeviationBps(950_000_000_000_000_000, 1_000_000_000_000_000_000) == Some(500)
    ensures Triggers(500, DefaultTriggerBps)
    ensures DeviationBps(950_100_000_000_000_000, 1_000_000_000_000_000_000) == Some(499)
    ensures !Triggers(499, DefaultTriggerBps)
  {
    var nav := 1_000_000_000_000_000_000;
    assert 50_000_000_000_000_000 * Bps == 500 * nav;
    LeDiv(500, 50_000_000_000_000_000 * Bps, nav);
    DivLt(501, 50_000_000_000_000_000 * Bps, nav);
    assert 49_900_000_000_000_000 * Bps == 499 * nav;
    LeDiv(499, 49_900_000_000_000_000 * Bps, nav);
    DivLt(500, 49_900_000_000_000_000 * Bps, nav);
  }

  /**
   * The direction label and the sizing agree: "LP_TO_VAULT" is exactly the case in
   * which a successful sizing buys the vault token in the pool
   * (oneForZero), and "VAULT_TO_LP" with different prices is the case in
   * which it mints and sells (zeroForOne).
   */
  lemma LabelMatchesSizing(priceLP: nat, priceNAV: nat, opt: OptAmounts)
    requires priceLP != priceNAV
    requires opt.direction == ZeroForOne <==> priceLP > priceNAV
    requires opt.direction == OneForZero <==> priceLP < priceNAV
    ensures DirectionLabel(priceLP, priceNAV) == "LP_TO_VAULT" <==> opt.direction == OneForZero
    ensures DirectionLabel(priceLP, priceNAV) == "VAULT_TO_LP" <==> opt.direction == ZeroForOne
  {
  }

  /** The swap-fee fields an event listener may pass along. */
  datatype SwapFee = SwapFee(rawFee: real, feePercent: real, withFlag: real, toward: bool, devBps: real)

  /** The balances `getBalances` reads after the attempt; the cycle receives `None` when a read throws. */
  datatype Balances = Balances(balUSDC: real, balYUSDC: real, sharePrice: real, totalBal: real)

  /** Why a cycle ended in the catch block. */
  datatype CycleError = NavIsZero | NoPoolData | Sizing(error: SizingError)

  datatype CycleOutcome =
    | Threw(cause: CycleError)
    | NoOpportunity(deviation: nat)
    | Executed(deviation: nat, directionName: string, opt: OptAmounts, arb: ArbResult, entry: Entry)
    | Unlogged(deviation: nat, directionName: string, opt: OptAmounts, arb: ArbResult)

  /** The transaction hash the ledger receives: `arbData?.txHash || null`. */
  function ArbTxHash(arb: ArbResult): (h: Option<string>)
    ensures h.Some? <==> arb.Success? && arb.txHash != ""
  {
    if arb.Success? && arb.txHash != "" then Some(arb.txHash) else None
  }

  /** The ledger input for the snapshot after an attempt. */
  function SnapshotData(b: Balances, arb: ArbResult, dirName: string, fee: Option<SwapFee>): BalanceData
  {
    BalanceData(b.balUSDC, b.balYUSDC, b.sharePrice, b.totalBal, ArbTxHash(arb), Some(dirName),
                if fee.Some? then Some(fee.value.rawFee) else None,
                if fee.Some? then Some(fee.value.feePercent) else None,
                if fee.Some? then Some(fee.value.withFlag) else None,
                if fee.Some? then Some(fee.value.toward) else None,
                if fee.Some? then Some(fee.value.devBps) else None)
  }

  /**
   * `checkAndExecuteArbitrage`.  Below the trigger nothing is sized, sent
   * or logged; a cycle that throws (NAV of zero, no pool data, a sizing
   * error) logs nothing either; a triggered cycle hands the executor
   * exactly the trade `calcOptAmounts` sized, leaves the redemption queue
   * as `QueueAfter` says, and, when it then reads the balances, appends
   * exactly one ledger entry: the `logBalance` entry for those balances,
   * labelled with the direction and carrying the executor's transaction
   * hash when there is one.  When reading the balances throws after the
   * executor ran, the catch block ends the cycle and nothing is logged,
   * even for a mined transaction.
   */
  method CheckAndExecuteArbitrage(
    ledger: BalanceLog, executor: Executor, triggerBps: nat,
    priceLP: nat, priceNAV: nat, poolLiquidity: Option<nat>,
    chain: ChainView, attempt: TxAttempt, completion: TxAttempt,
    balances: Option<Balances>, now: string, fee: Option<SwapFee>)
    returns (outcome: CycleOutcome)
    requires ledger.Valid()
    modifies ledger, executor
    ensures ledger.Valid()
    ensures priceNAV == 0 <==> outcome == Threw(NavIsZero)
    ensures outcome.NoOpportunity? <==>
      DeviationBps(priceLP, priceNAV).Some? && !Triggers(DeviationBps(priceLP, priceNAV).value, triggerBps)
    ensures outcome.NoOpportunity? ==> outcome.deviation == DeviationBps(priceLP, priceNAV).value
    ensures outcome == Threw(NoPoolData) <==>
      DeviationBps(priceLP, priceNAV).Some? && Triggers(DeviationBps(priceLP, priceNAV).value, triggerBps)
      && poolLiquidity.None?
    ensures outcome.Threw? && outcome.cause.Sizing? <==>
      DeviationBps(priceLP, priceNAV).Some? && Triggers(DeviationBps(priceLP, priceNAV).value, triggerBps)
      && poolLiquidity.Some? && OptimalSizing(poolLiquidity.value, priceLP, priceNAV).Err?
    ensures outcome.Threw? && outcome.cause.Sizing? ==>
      poolLiquidity.Some? && OptimalSizing(poolLiquidity.value, priceLP, priceNAV) == Err(outcome.cause.error)
    ensures !outcome.Executed? ==>
      && ledger.history == old(ledger.history)
      && ledger.totalTrades == old(ledger.totalTrades)
      && unchanged(ledger)
    ensures outcome.Executed? || outcome.Unlogged? ==>
      && poolLiquidity.Some? && OptimalSizing(poolLiquidity.value, priceLP, priceNAV) == Ok(outcome.opt)
      && executor.pendingRedemptions ==
         QueueAfter(old(executor.pendingRedemptions), outcome.opt, chain, attempt, completion, executor.redemptionDelay)
    ensures !outcome.Executed? && !outcome.Unlogged? ==>
      executor.pendingRedemptions == old(executor.pendingRedemptions)
    ensures outcome.Unlogged? ==> balances.None?
    ensures outcome.Unlogged? ==>
      && DeviationBps(priceLP, priceNAV) == Some(outcome.deviation)
      && Triggers(outcome.deviation, triggerBps)
      && outcome.directionName == DirectionLabel(priceLP, priceNAV)
      && (outcome.arb.Success? <==> PlanArb(outcome.opt, chain).Ok? && Completes(attempt))
    ensures outcome.Executed? ==>
      && DeviationBps(priceLP, priceNAV) == Some(outcome.deviation)
      && Triggers(outcome.deviation, triggerBps)
      && outcome.directionName == DirectionLabel(priceLP, priceNAV)
      && (outcome.opt.direction == ZeroForOne <==> priceLP > priceNAV)
      && (outcome.opt.direction == OneForZero <==> priceLP < priceNAV)
      && (outcome.arb.Success? <==> PlanArb(outcome.opt, chain).Ok? && Completes(attempt))
      && ledger.history == old(ledger.history) + [outcome.entry]
      && ledger.totalTrades == old(ledger.totalTrades) + 1
      && outcome.entry.direction == Some(outcome.directionName)
      && outcome.entry.txHash == ArbTxHash(outcome.arb)
      && balances.Some? && outcome.entry.totalValueUSDC == balances.value.totalBal
      && ledger.startingBalance ==
         (if old(ledger.startingBalance).None? then Some(balances.value.totalBal) else old(ledger.startingBalance))
      && outcome.entry == EntryFor(old(ledger.history), ledger.startingBalance.value, now,
                                   SnapshotData(balances.value, outcome.arb, outcome.directionName, fee))
  {
    var deviation := DeviationBps(priceLP, priceNAV);
    if deviation.None? {
      return Threw(NavIsZero);
    }
    var dev := deviation.value;
    if dev < triggerBps {
      return NoOpportunity(dev);
    }
    var dirName := if priceLP < priceNAV then "LP_TO_VAULT" else "VAULT_TO_LP";
    if poolLiquidity.None? {
      return Threw(NoPoolData);
    }
    var sized := CalcOptAmounts(poolLiquidity.value, priceLP, priceNAV);
    if sized.Err? {
      return Threw(Sizing(sized.error));
    }
    var opt := sized.value;
    var arb, _ := executor.CallArbContract(opt, chain, attempt, completion);
    if balances.None? {
      return Unlogged(dev, dirName, opt, arb);
    }
    var entry := ledger.LogBalance(now, SnapshotData(balances.value, arb, dirName, fee));
    outcome := Executed(dev, dirName, opt, arb, entry);
  }
}
