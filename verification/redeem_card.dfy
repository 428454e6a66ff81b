/**
 * The dashboard's redeem card: the vault withdrawal is two-step, so the
 * card has one handler that queues shares (`initiateWithdraw`) and one that
 * completes the withdrawal once the redemption period has passed
 * (`withdraw(shares, account, account)`), and it shows how long is left
 * until the queued shares unlock.
 *
 * What the handlers read from the node and the wallet, and the outcome of
 * the transaction, are parameters (`RedeemEnv`); the clock is a parameter
 * of the countdown.
 */
module RedeemCard {
  import opened Wrappers
  import opened Units
  import opened WalletErrors
  import opened WalletChain

  const ConnectMessage: string := "Please connect your wallet"
  const AmountMessage: string := "Please enter a valid amount"
  const VaultAddressMessage: string := "Invalid VAULT address (env)"
  const NoWalletMessage: string := "No wallet found"
  const RejectedMessage: string := "User rejected the transaction"
  const RateLimitedMessage: string :=
    "RPC rate-limited; set NEXT_PUBLIC_ALCHEMY_API_KEY or NEXT_PUBLIC_RPC_URL."
  const DefaultFailure: string := "Failed to initiate withdrawal"

  const SecondsPerHour: nat := 3600
  const SecondsPerMinute: nat := 60

  /**
   * What a handler finds when it runs:
   *  - `amountNum` is `Number(amount)`, `None` when that is NaN;
   *  - `vaultOk` says whether VAULT is set and is an address;
   *  - `decimals` is what the vault's `decimals()` returns, or what it
   *    threw once the retries were spent;
   *  - `parseFailure` is what `parseUnits` throws on an amount it rejects;
   *  - `wallet` is what the wallet answers to the chain check and `getSigner`;
   *  - `txResult` is the transaction's receipt hash or what it threw.
   */
  datatype RedeemEnv = RedeemEnv(
    account: Option<string>,
    amountNum: Option<real>,
    vaultOk: bool,
    decimals: Result<nat, ErrorInfo>,
    parseFailure: ErrorInfo,
    walletPresent: bool,
    wallet: WalletSession,
    txResult: Result<string, ErrorInfo>)

  /** The vault call a handler sends. */
  datatype VaultCall =
    | InitiateWithdraw(shares: int)
    | Withdraw(shares: int, receiver: string, owner: string)

  /** What a handler asks of the node and the wallet, in order. */
  datatype RedeemAction = ReadVaultDecimals | SendCall(call: VaultCall)

  /**
   * The three checks both handlers make before any read: an account, an
   * amount that is non-empty and not a positive-failing number (a NaN
   * amount passes, as `NaN <= 0` is false), and a vault address.
   */
  function ValidateRedeem(account: Option<string>, amount: string, amountNum: Option<real>, vaultOk: bool)
    : (failure: Option<string>)
    ensures failure.None? <==>
      account.Some? && amount != "" && !(amountNum.Some? && amountNum.value <= 0.0) && vaultOk
    ensures account.None? ==> failure == Some(ConnectMessage)
    ensures account.Some? && (amount == "" || (amountNum.Some? && amountNum.value <= 0.0)) ==>
      failure == Some(AmountMessage)
    ensures failure.Some? ==> failure.value in {ConnectMessage, AmountMessage, VaultAddressMessage}
  {
    if account.None? then Some(ConnectMessage)
    else if amount == "" || (amountNum.Some? && amountNum.value <= 0.0) then Some(AmountMessage)
    else if !vaultOk then Some(VaultAddressMessage)
    else None
  }

  /** The call a handler would send for these shares. */
  function CallFor(finalize: bool, shares: int, account: string): (call: VaultCall)
    ensures call.shares == shares
    ensures call.InitiateWithdraw? <==> !finalize
    ensures call.Withdraw? ==> call.receiver == account && call.owner == account
  {
    if finalize then Withdraw(shares, account, account) else InitiateWithdraw(shares)
  }

  /**
   * Everything a handler decides before the transaction: validation, the
   * amount in share units at the vault's decimals, the wallet check, the
   * chain check and signer, and which call to send.
   */
  function PlanRedeem(env: RedeemEnv, amount: string, finalize: bool): Result<VaultCall, ErrorInfo>
  {
    match ValidateRedeem(env.account, amount, env.amountNum, env.vaultOk)
      case Some(msg) => Err(Thrown(msg))
      case None =>
        match env.decimals
          case Err(e) => Err(e)
          case Ok(decimals) =>
            match ParseUnits(amount, decimals)
              case None => Err(env.parseFailure)
              case Some(shares) =>
                if !env.walletPresent then Err(Thrown(NoWalletMessage))
                else if ConnectSigner(env.wallet).Some? then Err(ConnectSigner(env.wallet).value)
                else Ok(CallFor(finalize, shares, env.account.value))
  }

  /**
   * A call is planned exactly when every check passes, the decimals are
   * read and the wallet is on Arbitrum Sepolia with a signer, and it
   * carries the shares `parseUnits` gives for the amount; any failed check
   * or read plans none, and a failed chain check or signer plans none with
   * that error.
   */
  lemma PlanRedeemProperties(env: RedeemEnv, amount: string, finalize: bool)
    ensures var r := PlanRedeem(env, amount, finalize);
      && (r.Ok? <==>
            && ValidateRedeem(env.account, amount, env.amountNum, env.vaultOk).None?
            && env.decimals.Ok?
            && ParseUnits(amount, env.decimals.value).Some?
            && env.walletPresent
            && ConnectSigner(env.wallet).None?)
      && (r.Ok? ==>
            && env.account.Some?
            && r.value == CallFor(finalize, ParseUnits(amount, env.decimals.value).value, env.account.value))
      && (ValidateRedeem(env.account, amount, env.amountNum, env.vaultOk).None? && env.decimals.Err? ==>
            r == Err(env.decimals.error))
      && (ValidateRedeem(env.account, amount, env.amountNum, env.vaultOk).Some? ==>
            r == Err(Thrown(ValidateRedeem(env.account, amount, env.amountNum, env.vaultOk).value)))
      && (&& ValidateRedeem(env.account, amount, env.amountNum, env.vaultOk).None?
          && env.decimals.Ok? && ParseUnits(amount, env.decimals.value).Some?
          && env.walletPresent && ConnectSigner(env.wallet).Some? ==>
            r == Err(ConnectSigner(env.wallet).value))
  {
  }

  /** Both handlers plan the same checks; they differ only in the call. */
  lemma HandlersAgreeOnChecks(env: RedeemEnv, amount: string)
    ensures PlanRedeem(env, amount, false).Ok? <==> PlanRedeem(env, amount, true).Ok?
    ensures PlanRedeem(env, amount, false).Err? ==>
      PlanRedeem(env, amount, false).error == PlanRedeem(env, amount, true).error
    ensures PlanRedeem(env, amount, false).Ok? ==>
      PlanRedeem(env, amount, false).value.shares == PlanRedeem(env, amount, true).value.shares
  {
    PlanRedeemProperties(env, amount, false);
    PlanRedeemProperties(env, amount, true);
  }

  /**
   * The catch block: a rejection in the wallet, then an RPC rate limit,
   * then `e.reason || e.message || "Failed to initiate withdrawal"` (both
   * handlers share it, default included).
   */
  function RedeemErrorText(e: ErrorInfo): (text: string)
    ensures IsRejection(e) ==> text == RejectedMessage
    ensures !IsRejection(e) && IsRateLimit(e) ==> text == RateLimitedMessage
    ensures !IsRejection(e) && !IsRateLimit(e) ==> text == FallbackText(e, DefaultFailure)
  {
    if IsRejection(e) then RejectedMessage
    else if IsRateLimit(e) then RateLimitedMessage
    else FallbackText(e, DefaultFailure)
  }

  /** Whatever is caught, some non-empty text is shown. */
  lemma ErrorTextNonEmpty(e: ErrorInfo)
    ensures RedeemErrorText(e) != ""
  {
    if !IsRejection(e) && !IsRateLimit(e) && !Truthy(e.reason) && !Truthy(e.message) {
      assert RedeemErrorText(e) == DefaultFailure;
      assert DefaultFailure[0] == 'F';
    }
  }

  /**
   * A message the card throws itself reaches the user unchanged when it
   * lacks the letter q and the digit 4, which every message the handlers
   * throw does: it is neither a rejection nor a rate limit.
   */
  lemma ThrownShownVerbatim(msg: string)
    requires msg != ""
    requires 'q' !in msg && 'Q' !in msg && '4' !in msg
    ensures RedeemErrorText(Thrown(msg)) == msg
  {
    assert MessageText(Thrown(msg)) == msg;
    NotRateLimitWithout(Thrown(msg));
  }

  /**
   * A refused chain switch reaches the user as thrown, naming the chain
   * the wallet is on, when that chain's id has no digit 4.
   */
  lemma SwitchRefusalShown(chainId: nat)
    requires '4' !in NatToDigits(chainId)
    ensures RedeemErrorText(Thrown(SwitchMessage(chainId))) == SwitchMessage(chainId)
  {
    SwitchMessageChars(chainId);
    ThrownShownVerbatim(SwitchMessage(chainId));
  }

  /** `Math.floor(Date.now() / 1000)`. */
  function NowSec(nowMs: nat): (s: nat)
    ensures s * 1000 <= nowMs < s * 1000 + 1000
  {
    nowMs / 1000
  }

  /** `unlockTime > 0 && nowSec >= unlockTime`; an unlock time of 0 means nothing is queued. */
  predicate IsUnlocked(unlockTime: nat, nowSec: nat)
  {
    unlockTime > 0 && nowSec >= unlockTime
  }

  /** `unlockTime > 0 ? Math.max(0, unlockTime - nowSec) : 0`. */
  function TimeUntilUnlock(unlockTime: nat, nowSec: nat): (t: nat)
    ensures t == 0 <==> unlockTime == 0 || nowSec >= unlockTime
    ensures t > 0 ==> nowSec + t == unlockTime
  {
    if unlockTime > 0 && unlockTime > nowSec then unlockTime - nowSec else 0
  }

  /** `Math.floor(t / 3600)`. */
  function HoursOf(t: nat): nat
  {
    t / SecondsPerHour
  }

  /** `Math.floor((t % 3600) / 60)`. */
  function MinutesOf(t: nat): (m: nat)
    ensures m < 60
  {
    (t % SecondsPerHour) / SecondsPerMinute
  }

  /** What the card shows about a queued withdrawal. */
  datatype Countdown = Countdown(unlocked: bool, remaining: nat, hours: nat, minutes: nat)

  /** The derived countdown state at `nowMs`. */
  function CountdownAt(unlockTime: nat, nowMs: nat): (c: Countdown)
    ensures c.unlocked <==> IsUnlocked(unlockTime, NowSec(nowMs))
    ensures c.remaining == TimeUntilUnlock(unlockTime, NowSec(nowMs))
    ensures c.minutes < 60
    ensures c.hours * 3600 + c.minutes * 60 <= c.remaining < c.hours * 3600 + c.minutes * 60 + 60
  {
    var nowSec := NowSec(nowMs);
    var t := TimeUntilUnlock(unlockTime, nowSec);
    HoursMinutesBracket(t);
    Countdown(IsUnlocked(unlockTime, nowSec), t, HoursOf(t), MinutesOf(t))
  }

  /**
   * The hours and minutes shown are the remaining time rounded down to
   * the minute: the displayed h:mm never exceeds it and falls short of it
   * by less than a minute.
   */
  lemma HoursMinutesBracket(t: nat)
    ensures MinutesOf(t) <= 59
    ensures HoursOf(t) * 3600 + MinutesOf(t) * 60 <= t < HoursOf(t) * 3600 + MinutesOf(t) * 60 + 60
  {
    var h, r := t / 3600, t % 3600;
    assert t == h * 3600 + r;
    var m, s := r / 60, r % 60;
    assert r == m * 60 + s;
  }

  /** An unlocked withdrawal has nothing left to wait for. */
  lemma UnlockedMeansNoWait(unlockTime: nat, nowSec: nat)
    ensures IsUnlocked(unlockTime, nowSec) ==> TimeUntilUnlock(unlockTime, nowSec) == 0
    ensures unlockTime > 0 && TimeUntilUnlock(unlockTime, nowSec) == 0 ==> IsUnlocked(unlockTime, nowSec)
  {
  }

  /** As the clock advances the remaining time never grows, and once unlocked it stays unlocked. */
  lemma CountdownMonotone(unlockTime: nat, now1: nat, now2: nat)
    requires now1 <= now2
    ensures TimeUntilUnlock(unlockTime, now2) <= TimeUntilUnlock(unlockTime, now1)
    ensures IsUnlocked(unlockTime, now1) ==> IsUnlocked(unlockTime, now2)
  {
  }

  class RedeemTokenCard {
    var amount: string
    var isLoading: bool
    var error: Option<string>
    var txHash: Option<string>

    /** The card's initial state: nothing entered or shown. */
    constructor ()
      ensures amount == "" && !isLoading && error.None? && txHash.None?
    {
      amount := "";
      isLoading := false;
      error := None;
      txHash := None;
    }

    /**
     * `handleInitiateWithdraw` (`finalize` false) and `finalizeWithdraw`
     * (`finalize` true).  A failed validation reads and sends nothing; the
     * decimals are read before the amount is converted; the chain check
     * and `getSigner` come after the wallet check; a call is sent only
     * when `PlanRedeem` plans it, and exactly one of a transaction
     * hash and an error is shown afterwards.
     */
    method HandleWithdraw(env: RedeemEnv, finalize: bool) returns (trace: seq<RedeemAction>)
      modifies this
      ensures !isLoading
      ensures error.None? <==> txHash.Some?
      ensures ValidateRedeem(env.account, old(amount), env.amountNum, env.vaultOk).Some? <==> trace == []
      ensures var plan := PlanRedeem(env, old(amount), finalize);
        && (plan.Err? ==> forall a :: a in trace ==> a == ReadVaultDecimals)
        && (plan.Err? ==> error == Some(RedeemErrorText(plan.error)) && amount == old(amount))
        && (plan.Ok? ==> trace == [ReadVaultDecimals, SendCall(plan.value)])
        && (plan.Ok? && env.txResult.Ok? ==> txHash == Some(env.txResult.value) && amount == "")
        && (plan.Ok? && env.txResult.Err? ==>
              error == Some(RedeemErrorText(env.txResult.error)) && amount == old(amount))
    {
      isLoading := true;
      error := None;
      txHash := None;
      trace := [];

      var failure := ValidateRedeem(env.account, amount, env.amountNum, env.vaultOk);
      if failure.Some? {
        error := Some(RedeemErrorText(Thrown(failure.value)));
        isLoading := false;
        return;
      }
      trace := [ReadVaultDecimals];
      if env.decimals.Err? {
        error := Some(RedeemErrorText(env.decimals.error));
        isLoading := false;
        return;
      }
      var parsed := ParseUnits(amount, env.decimals.value);
      if parsed.None? {
        error := Some(RedeemErrorText(env.parseFailure));
        isLoading := false;
        return;
      }
      if !env.walletPresent {
        error := Some(RedeemErrorText(Thrown(NoWalletMessage)));
        isLoading := false;
        return;
      }
      var connected := ConnectSigner(env.wallet);
      if connected.Some? {
        error := Some(RedeemErrorText(connected.value));
        isLoading := false;
        return;
      }
      var call := if finalize then Withdraw(parsed.value, env.account.value, env.account.value)
                  else InitiateWithdraw(parsed.value);
      trace := trace + [SendCall(call)];
      match env.txResult {
        case Err(e) =>
          error := Some(RedeemErrorText(e));
        case Ok(hash) =>
          txHash := Some(hash);
          amount := "";
      }
      isLoading := false;
    }
  }
}
