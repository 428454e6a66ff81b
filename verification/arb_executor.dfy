/**
 * The executor side of an arbitrage cycle: turn the sized trade into a
 * call on the ArbExecutor contract, refuse to send it when the executor is
 * paused, the pool does not trade BASE against the vault token, the
 * direction is unknown, the BASE balance is short or the deadline has
 * already passed, and keep the list of queued vault redemptions.
 *
 * Every chain read (paused flag, addresses, balances, `convertToShares`,
 * the latest block), the wall clock, and the outcome of each gas estimate
 * and transaction are parameters: `ChainView` for the reads and
 * `TxAttempt` for what estimating and sending a transaction returned.
 */
module ArbExecutor {
  import opened Wrappers
  import opened JsString
  import opened OptimalAmounts
  import opened Units

  /** What the chain reports before anything is sent. */
  datatype ChainView = ChainView(
    paused: bool,
    baseAddr: string,
    yTokenAddr: string,
    poolCurrency0: string,
    poolCurrency1: string,
    arbBaseBal: nat,
    nowMs: nat,
    blockTimestamp: int,
    convertToShares: nat -> nat)

  datatype Receipt = Receipt(hash: string, blockNumber: nat)

  /**
   * The outcome of one transaction: the gas estimate (`None` when
   * estimating threw) and the mined receipt (`None` when sending or
   * waiting threw).
   */
  datatype TxAttempt = TxAttempt(gasEstimate: Option<nat>, receipt: Option<Receipt>)

  /** The two contract entry points with their arguments. */
  datatype ArbCall =
    | MintThenSell(maxBaseToMint: nat, minYShares: nat, minQuoteOut: nat, deadline: int)
    | BuyAndQueue(maxQuoteIn: nat, minYOut: nat, deadline: int)

  /** A call together with the gas limit it is sent with. */
  datatype Submission = Submission(call: ArbCall, gasLimit: nat)

  /** How `callArbContract` ended: an early return, a failure, or a mined transaction. */
  datatype ArbResult =
    | Paused
    | PoolMismatch
    | UnknownDirection
    | InsufficientBalance
    | DeadlinePassed
    | Failed
    | Success(txHash: string, blockNumber: nat)

  datatype Redemption = Redemption(
    txHash: string,
    blockNumber: nat,
    timestamp: int,
    canCompleteAt: int,
    expectedOut: nat,
    minBaseOut: nat)

  /** `(x * 99n) / 100n`: the 1% slippage minimum. */
  function Slippage99(x: nat): (m: nat)
    ensures m <= x
    ensures 100 * m <= 99 * x < 100 * m + 100
  {
    (x * 99) / 100
  }

  /** `(gasEstimate * 120n) / 100n`: the estimate plus 20% headroom. */
  function GasLimit(estimate: nat): (g: nat)
    ensures g >= estimate
    ensures 100 * g <= 120 * estimate < 100 * g + 100
  {
    (estimate * 120) / 100
  }

  /** `Math.floor(Date.now() / 1000) + 3000`: fifty minutes past the client clock, in seconds. */
  function Deadline(nowMs: nat): (d: int)
    ensures 1000 * (d - 3000) <= nowMs < 1000 * (d - 3000) + 1000
  {
    nowMs / 1000 + 3000
  }

  /**
   * Both addresses lower-cased, sorted with the default string order and
   * joined by a comma, as the pool-key check compares them.
   */
  function PairKey(a: string, b: string): string
  {
    var x, y := ToLower(a), ToLower(b);
    if Less(y, x) then y + "," + x else x + "," + y
  }

  /** The pool key's currencies, in either order, are BASE and the vault token. */
  predicate PoolMatches(chain: ChainView)
  {
    PairKey(chain.poolCurrency0, chain.poolCurrency1) == PairKey(chain.baseAddr, chain.yTokenAddr)
  }

  /** The input amount the direction selects; BASE is the token the balance check reads. */
  function AmountIn(opt: OptAmounts): nat
  {
    if opt.direction == ZeroForOne then opt.amount0In else opt.amount1In
  }

  /**
   * What `callArbContract` decides before any transaction: the early
   * return, in the order the checks are made, or the call to send.
   */
  function PlanArb(opt: OptAmounts, chain: ChainView): (plan: Result<ArbCall, ArbResult>)
    ensures plan.Ok? <==>
      && !chain.paused && PoolMatches(chain) && opt.direction != NoTrade
      && chain.arbBaseBal >= AmountIn(opt) && Deadline(chain.nowMs) > chain.blockTimestamp
    ensures plan.Err? ==> plan.error in {Paused, PoolMismatch, UnknownDirection, InsufficientBalance, DeadlinePassed}
    ensures chain.paused ==> plan == Err(Paused)
    ensures !chain.paused && opt.direction == NoTrade ==> plan.Err?
  {
    if chain.paused then Err(Paused)
    else if !PoolMatches(chain) then Err(PoolMismatch)
    else if opt.direction == NoTrade then Err(UnknownDirection)
    else if chain.arbBaseBal < AmountIn(opt) then Err(InsufficientBalance)
    else
      var deadline := Deadline(chain.nowMs);
      if deadline <= chain.blockTimestamp then Err(DeadlinePassed)
      else if opt.direction == ZeroForOne then
        Ok(MintThenSell(opt.amount0In, Slippage99(chain.convertToShares(opt.amount0In)),
                        Slippage99(opt.amount1Out), deadline))
      else
        Ok(BuyAndQueue(opt.amount1In, Slippage99(opt.amount0Out), deadline))
  }

  /**
   * The direction picks the entry point and its amounts: zeroForOne mints
   * and sells with (amount0_in, amount1_out), oneForZero buys and queues
   * with (amount1_in, amount0_out); every minimum is at most the amount it
   * protects, and the deadline lies in the future of the latest block.
   */
  lemma DirectionMapping(opt: OptAmounts, chain: ChainView)
    requires PlanArb(opt, chain).Ok?
    ensures var call := PlanArb(opt, chain).value;
      && (opt.direction == ZeroForOne <==> call.MintThenSell?)
      && (call.MintThenSell? ==>
            && call.maxBaseToMint == opt.amount0In
            && call.minQuoteOut <= opt.amount1Out
            && call.minYShares <= chain.convertToShares(opt.amount0In))
      && (call.BuyAndQueue? ==>
            && opt.direction == OneForZero
            && call.maxQuoteIn == opt.amount1In
            && call.minYOut <= opt.amount0Out)
      && call.deadline > chain.blockTimestamp
      && chain.arbBaseBal >= (if call.MintThenSell? then call.maxBaseToMint else call.maxQuoteIn)
  {
  }

  /** A comma-free head is recovered from `x + "," + y`. */
  lemma CommaSplit(x: string, y: string, x': string, y': string)
    requires ',' !in x && ',' !in x'
    requires x + "," + y == x' + "," + y'
    ensures x == x' && y == y'
  {
    var s := x + "," + y;
    CommaAfterHead(x, y);
    CommaAfterHead(x', y');
    assert x == s[..|x|];
    assert x' == (x' + "," + y')[..|x'|];
    assert y == s[|x| + 1..];
    assert y' == (x' + "," + y')[|x'| + 1..];
  }

  /** In `x + "," + y` with a comma-free x, the first comma sits right after x. */
  lemma CommaAfterHead(x: string, y: string)
    requires ',' !in x
    ensures FirstIndex(x + "," + y, ',') == |x|
  {
    var s := x + "," + y;
    var k := FirstIndex(s, ',');
    assert s[|x|] == ',';
  }

  /** The key of a pair does not depend on the order of its members. */
  lemma PairKeySymmetric(a: string, b: string)
    ensures PairKey(a, b) == PairKey(b, a)
  {
    LessTrichotomy(ToLower(a), ToLower(b));
  }

  /** A key lists its pair's lower-cased members, the smaller first. */
  lemma PairKeyParts(a: string, b: string)
    ensures var x, y := ToLower(a), ToLower(b);
      PairKey(a, b) == x + "," + y || PairKey(a, b) == y + "," + x
  {
  }

  /**
   * For comma-free addresses the pool-key check passes exactly when the
   * pool's currencies are BASE and the vault token, in either order and
   * regardless of letter case.
   */
  lemma PoolMatchesIff(chain: ChainView)
    requires ',' !in ToLower(chain.poolCurrency0) && ',' !in ToLower(chain.poolCurrency1)
    requires ',' !in ToLower(chain.baseAddr) && ',' !in ToLower(chain.yTokenAddr)
    ensures PoolMatches(chain) <==>
      var c0, c1 := ToLower(chain.poolCurrency0), ToLower(chain.poolCurrency1);
      var b, t := ToLower(chain.baseAddr), ToLower(chain.yTokenAddr);
      (c0 == b && c1 == t) || (c0 == t && c1 == b)
  {
    var c0, c1 := ToLower(chain.poolCurrency0), ToLower(chain.poolCurrency1);
    var b, t := ToLower(chain.baseAddr), ToLower(chain.yTokenAddr);
    var k1 := PairKey(chain.poolCurrency0, chain.poolCurrency1);
    var k2 := PairKey(chain.baseAddr, chain.yTokenAddr);
    if k1 == k2 {
      var p0, p1 := if Less(c1, c0) then c1 else c0, if Less(c1, c0) then c0 else c1;
      var q0, q1 := if Less(t, b) then t else b, if Less(t, b) then b else t;
      assert k1 == p0 + "," + p1;
      assert k2 == q0 + "," + q1;
      CommaSplit(p0, p1, q0, q1);
    }
    if c0 == t && c1 == b {
      PairKeySymmetric(chain.baseAddr, chain.yTokenAddr);
    }
  }

  /** The list without the redemptions carrying `hash`, order kept. */
  function Without(list: seq<Redemption>, hash: string): (r: seq<Redemption>)
    ensures |r| <= |list|
    ensures forall x :: x in r <==> x in list && x.txHash != hash
    ensures (forall x :: x in list ==> x.txHash != hash) ==> r == list
  {
    if list == [] then []
    else
      var rest := Without(list[1..], hash);
      assert forall x :: x in list[1..] ==> x in list;
      if list[0].txHash == hash then rest else [list[0]] + rest
  }

  /** The record kept for a mined `arbBuyAndQueue`. */
  function RedemptionFor(receipt: Receipt, blockTimestamp: int, delay: nat, expectedOut: nat): (r: Redemption)
    ensures r.canCompleteAt == blockTimestamp + delay
    ensures r.minBaseOut <= r.expectedOut == expectedOut
  {
    Redemption(receipt.hash, receipt.blockNumber, blockTimestamp, blockTimestamp + delay,
               expectedOut, Slippage99(expectedOut))
  }

  /** A completion goes through when both its estimate and its transaction succeed. */
  predicate Completes(attempt: TxAttempt)
  {
    attempt.gasEstimate.Some? && attempt.receipt.Some?
  }

  /**
   * The redemption queue after `callArbContract`: only a mined
   * `arbBuyAndQueue` touches it, appending its record when there is a delay
   * and completing it at once when there is none.  At most one record is
   * added, and any record that is new is the one for the mined trade.
   */
  function QueueAfter(queue: seq<Redemption>, opt: OptAmounts, chain: ChainView,
                      attempt: TxAttempt, completion: TxAttempt, delay: nat): (q: seq<Redemption>)
    ensures |q| <= |queue| + 1
    ensures forall x :: x in q && x !in queue ==>
      && Completes(attempt) && x.txHash == attempt.receipt.value.hash
      && x.canCompleteAt == chain.blockTimestamp + delay
    ensures !(PlanArb(opt, chain).Ok? && Completes(attempt)) ==> q == queue
  {
    var plan := PlanArb(opt, chain);
    if plan.Ok? && plan.value.BuyAndQueue? && Completes(attempt) then
      if delay > 0 then
        queue + [RedemptionFor(attempt.receipt.value, chain.blockTimestamp, delay, opt.amount0Out)]
      else if Completes(completion) then Without(queue, attempt.receipt.value.hash)
      else queue
    else queue
  }

  class Executor {
    /** The queued redemptions, oldest first. */
    var pendingRedemptions: seq<Redemption>
    /** Seconds a queued redemption waits before it can be completed. */
    const redemptionDelay: nat

    constructor (delay: nat)
      ensures pendingRedemptions == [] && redemptionDelay == delay
    {
      pendingRedemptions := [];
      redemptionDelay := delay;
    }

    /**
     * `completeQueuedRedeem`: send the completion with the redemption's
     * minimum and 120% of the estimated gas; on success drop every queued
     * redemption with that hash, on failure keep the list as it was.
     */
    method CompleteQueuedRedeem(redemption: Redemption, attempt: TxAttempt) returns (submitted: Option<(nat, nat)>)
      modifies this
      ensures attempt.gasEstimate.None? <==> submitted.None?
      ensures submitted.Some? ==> submitted.value == (redemption.minBaseOut, GasLimit(attempt.gasEstimate.value))
      ensures pendingRedemptions ==
        if Completes(attempt) then Without(old(pendingRedemptions), redemption.txHash)
        else old(pendingRedemptions)
    {
      submitted := None;
      if attempt.gasEstimate.None? {
        return;
      }
      var gasLimit := (attempt.gasEstimate.value * 120) / 100;
      submitted := Some((redemption.minBaseOut, gasLimit));
      if attempt.receipt.None? {
        return;
      }
      pendingRedemptions := Without(pendingRedemptions, redemption.txHash);
    }

    /**
     * The timer callback: complete the oldest queued redemption.  The queue
     * is never empty when a timer fires, since every timer is set right
     * after a push and each completion removes at most that trade's
     * redemption.  Were it empty, the source would throw reading the
     * missing redemption's hash before its `try`; the model changes nothing.
     */
    method FinalizeHead(attempt: TxAttempt) returns (submitted: Option<(nat, nat)>)
      modifies this
      ensures old(pendingRedemptions) == [] ==> pendingRedemptions == [] && submitted.None?
      ensures old(pendingRedemptions) != [] && Completes(attempt) ==>
        && pendingRedemptions == Without(old(pendingRedemptions), old(pendingRedemptions)[0].txHash)
        && |pendingRedemptions| < |old(pendingRedemptions)|
      ensures !Completes(attempt) ==> pendingRedemptions == old(pendingRedemptions)
    {
      if pendingRedemptions == [] {
        return None;
      }
      var head := pendingRedemptions[0];
      assert head in pendingRedemptions;
      submitted := CompleteQueuedRedeem(head, attempt);
    }

    /**
     * `callArbContract`: the checks of `PlanArb` in order, then the gas
     * estimate and the transaction; a mined `arbBuyAndQueue` is completed
     * at once when the delay is zero and queued otherwise.
     */
    method CallArbContract(opt: OptAmounts, chain: ChainView, attempt: TxAttempt, completion: TxAttempt)
      returns (result: ArbResult, submitted: Option<Submission>)
      modifies this
      ensures PlanArb(opt, chain).Err? ==>
        result == PlanArb(opt, chain).error && submitted.None? && pendingRedemptions == old(pendingRedemptions)
      ensures PlanArb(opt, chain).Ok? ==>
        && (submitted.Some? <==> attempt.gasEstimate.Some?)
        && (submitted.Some? ==> submitted.value == Submission(PlanArb(opt, chain).value, GasLimit(attempt.gasEstimate.value)))
        && (result == Failed <==> !Completes(attempt))
      ensures result.Success? <==> PlanArb(opt, chain).Ok? && Completes(attempt)
      ensures result.Success? ==> result == Success(attempt.receipt.value.hash, attempt.receipt.value.blockNumber)
      ensures !result.Success? || PlanArb(opt, chain).value.MintThenSell? ==> pendingRedemptions == old(pendingRedemptions)
      ensures result.Success? && PlanArb(opt, chain).value.BuyAndQueue? && redemptionDelay > 0 ==>
        pendingRedemptions == old(pendingRedemptions) +
          [RedemptionFor(attempt.receipt.value, chain.blockTimestamp, redemptionDelay, opt.amount0Out)]
      ensures result.Success? && PlanArb(opt, chain).value.BuyAndQueue? && redemptionDelay == 0 ==>
        pendingRedemptions ==
          if Completes(completion) then Without(old(pendingRedemptions), attempt.receipt.value.hash)
          else old(pendingRedemptions)
      ensures pendingRedemptions == QueueAfter(old(pendingRedemptions), opt, chain, attempt, completion, redemptionDelay)
    {
      submitted := None;
      if chain.paused {
        return Paused, None;
      }
      if PairKey(chain.poolCurrency0, chain.poolCurrency1) != PairKey(chain.baseAddr, chain.yTokenAddr) {
        return PoolMismatch, None;
      }

      var amountIn, expectedOut;
      var mint: bool;
      if opt.direction == ZeroForOne {
        amountIn, expectedOut, mint := opt.amount0In, opt.amount1Out, true;
      } else if opt.direction == OneForZero {
        amountIn, expectedOut, mint := opt.amount1In, opt.amount0Out, false;
      } else {
        return UnknownDirection, None;
      }

      if chain.arbBaseBal < amountIn {
        return InsufficientBalance, None;
      }

      var deadline := chain.nowMs / 1000 + 3000;
      if deadline <= chain.blockTimestamp {
        return DeadlinePassed, None;
      }

      var call;
      if mint {
        var expShares := chain.convertToShares(amountIn);
        call := MintThenSell(amountIn, (expShares * 99) / 100, (expectedOut * 99) / 100, deadline);
      } else {
        call := BuyAndQueue(amountIn, (expectedOut * 99) / 100, deadline);
      }
      assert PlanArb(opt, chain) == Ok(call);

      if attempt.gasEstimate.None? {
        return Failed, None;
      }
      submitted := Some(Submission(call, (attempt.gasEstimate.value * 120) / 100));
      if attempt.receipt.None? {
        return Failed, submitted;
      }
      var receipt := attempt.receipt.value;

      if !mint {
        var info := Redemption(receipt.hash, receipt.blockNumber, chain.blockTimestamp,
                               chain.blockTimestamp + redemptionDelay, expectedOut, (expectedOut * 99) / 100);
        assert info == RedemptionFor(receipt, chain.blockTimestamp, redemptionDelay, opt.amount0Out);
        if redemptionDelay == 0 {
          var _ := CompleteQueuedRedeem(info, completion);
        } else {
          pendingRedemptions := pendingRedemptions + [info];
        }
      }
      result := Success(receipt.hash, receipt.blockNumber);
    }
  }
}
