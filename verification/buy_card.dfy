/**
 * The dashboard's "buy" card (`handleBuy`): swap USDC for the vault token
 * yUSDC, or back, through the swap router on the hooked pool.
 *
 * The card validates its input, orders the two currencies of the pool key
 * by address, derives the swap direction and the decimals of each side,
 * checks the caller's balance before approving anything, approves what is
 * needed, submits the swap, and turns whatever was thrown into the message
 * the card shows.  Every value it reads from the wallet, the RPC node or
 * the clock is a field of `BuyEnv`; the card's state is a class whose
 * fields the handler sets.
 */
module BuyCard {
  import opened Wrappers
  import opened JsString
  import opened Units
  import opened PoolState
  import opened WalletErrors
  import opened WalletChain

  /** `LPFeeLibrary.DYNAMIC_FEE_FLAG`: the pool's fee is set by its hook. */
  const DynamicFeeFlag: nat := 0x800000

  const PoolTickSpacing: int := 60

  /** The slippage applied to the estimate, in percent. */
  const SlippagePct: nat := 1

  /** Seconds between the client clock and the swap's deadline (30 minutes). */
  const DeadlineSeconds: nat := 1800

  /** The default decimals assumed for yUSDC when its `decimals()` read fails. */
  const DefaultTokenDecimals: nat := 6

  /**
   * The configured addresses.  Each `...Ok` flag says the address is set
   * and is accepted by `ethers.isAddress`.
   */
  datatype Addresses = Addresses(
    usdc: string, yusdc: string, router: string, hook: string,
    usdcOk: bool, yusdcOk: bool, routerOk: bool)

  /**
   * Everything the handler reads, in the order it reads it.
   *  - `amountNum` is `Number(amountUSD || "0")`, `None` for NaN;
   *  - the `...Deployed` flags say that `getCode` returned more than "0x";
   *  - `tokenDec` is `None` when yUSDC's `decimals()` read throws;
   *  - `parseFailure` is what `parseUnits` throws on an amount it rejects;
   *  - `estTokens` is the floating-point output estimate in base units, or
   *    what `parseUnits` throws on its formatted text ("Infinity" when the
   *    LP price is missing or zero, exponent notation past 1e21);
   *  - `wallet` is what the wallet answers to the chain check and `getSigner`;
   *  - `poolRead` is the hook's sqrt price, or what `currentPrices` threw;
   *  - `swapResult` is the receipt's hash, or what sending or mining the swap threw.
   */
  datatype BuyEnv = BuyEnv(
    account: Option<string>,
    amountNum: Option<real>,
    addrs: Addresses,
    usdcDeployed: bool, yusdcDeployed: bool, routerDeployed: bool,
    usdcDec: nat, tokenDec: Option<nat>,
    parseFailure: ErrorInfo,
    estTokens: Result<nat, ErrorInfo>,
    walletPresent: bool,
    wallet: WalletSession,
    poolRead: Result<nat, ErrorInfo>,
    usdcBalance: nat, yusdcBalance: nat,
    inputAllowance: nat, otherAllowance: nat,
    nowMs: nat,
    swapResult: Result<string, ErrorInfo>)

  datatype PoolKey = PoolKey(currency0: string, currency1: string, fee: nat, tickSpacing: int, hooks: string)

  /** The arguments of `swapExactTokensForTokens`. */
  datatype SwapRequest = SwapRequest(
    amountIn: int, amountOutMin: nat, zeroForOne: bool, key: PoolKey,
    hookData: string, receiver: string, deadline: int)

  /** What the handler asks of the RPC node and the wallet, in order. */
  datatype Action =
    | CheckCode
    | ReadDecimals
    | VerifyPool
    | ReadBalances
    | ReadAllowance
    | ApproveInput(token: string)
    | ApproveOther(token: string)
    | SendSwap(request: SwapRequest)

  // ---------------------------------------------------------------------
  // Validation
  // ---------------------------------------------------------------------

  /** The checks made before anything is read, first failure first. */
  function Validate(env: BuyEnv): (msg: Option<string>)
    ensures msg.None? <==>
      && env.account.Some?
      && env.amountNum.Some? && env.amountNum.value > 0.0
      && env.addrs.usdcOk && env.addrs.yusdcOk && env.addrs.routerOk
    ensures env.account.None? ==> msg == Some(ConnectMessage)
    ensures env.account.Some? && (env.amountNum.None? || env.amountNum.value <= 0.0) ==>
      msg == Some(AmountMessage)
  {
    if env.account.None? then Some(ConnectMessage)
    else if env.amountNum.None? || env.amountNum.value <= 0.0 then Some(AmountMessage)
    else if !env.addrs.usdcOk then Some(UsdcAddressMessage)
    else if !env.addrs.yusdcOk then Some(TokenAddressMessage)
    else if !env.addrs.routerOk then Some(RouterMissingMessage)
    else None
  }

  const ConnectMessage: string := "Please connect your wallet"
  const AmountMessage: string := "Enter a valid $ amount"
  const UsdcAddressMessage: string := "Invalid USDC address (env)"
  const TokenAddressMessage: string := "Invalid token address (yUSDC) (env)"
  const RouterMissingPhrase: string := "router address missing"
  const RouterMissingTail: string := ". Set NEXT_PUBLIC_SWAP_ROUTER_ADDRESS."
  const RouterMissingMessage: string := "Swap " + RouterMissingPhrase + RouterMissingTail

  /** The tail of the three deployment errors, after the contract's name. */
  const NotDeployedPhrase: string := "not deployed"
  const NotDeployedSuffix: string := " " + NotDeployedPhrase + " on this RPC's chain"

  /**
   * Validation looks at the account, the amount and the address flags
   * only: two environments that agree on those validate alike, whatever
   * the chain would answer.
   */
  lemma ValidateIgnoresChain(env1: BuyEnv, env2: BuyEnv)
    requires env1.account == env2.account && env1.amountNum == env2.amountNum
    requires env1.addrs.usdcOk == env2.addrs.usdcOk && env1.addrs.yusdcOk == env2.addrs.yusdcOk
    requires env1.addrs.routerOk == env2.addrs.routerOk
    ensures Validate(env1) == Validate(env2)
  {
  }

  // ---------------------------------------------------------------------
  // Currencies, direction, decimals, amounts
  // ---------------------------------------------------------------------

  /** `isUsdcCurrency0`. */
  function UsdcIsCurrency0(usdc: string, yusdc: string): bool
  {
    Less(ToLower(usdc), ToLower(yusdc))
  }

  /** The pool key's currencies: the pool ordering applied to USDC and yUSDC. */
  function Currencies(usdc: string, yusdc: string): (pair: TokenPair)
    ensures pair.token0 == (if UsdcIsCurrency0(usdc, yusdc) then usdc else yusdc)
    ensures pair.token1 == (if UsdcIsCurrency0(usdc, yusdc) then yusdc else usdc)
    ensures ToLower(usdc) != ToLower(yusdc) ==> pair.token0 != pair.token1
  {
    OrderTokens(usdc, yusdc, 0, 0)
  }

  datatype Side = Side(zeroForOne: bool, inputToken: string, outputToken: string)

  /**
   * The branch on `buyingToken1`: buying yUSDC spends USDC, buying USDC
   * spends yUSDC, and the swap runs currency0 to currency1 exactly when
   * the token spent is currency0.
   */
  function ChooseSide(buyingToken1: bool, usdc: string, yusdc: string): (side: Side)
    ensures buyingToken1 ==> side.inputToken == usdc && side.outputToken == yusdc
    ensures !buyingToken1 ==> side.inputToken == yusdc && side.outputToken == usdc
    ensures ToLower(usdc) != ToLower(yusdc) ==>
      && (side.zeroForOne <==> side.inputToken == Currencies(usdc, yusdc).token0)
      && (side.zeroForOne <==> side.outputToken == Currencies(usdc, yusdc).token1)
  {
    var isUsdcCurrency0 := UsdcIsCurrency0(usdc, yusdc);
    if buyingToken1 then Side(isUsdcCurrency0, usdc, yusdc)
    else Side(!isUsdcCurrency0, yusdc, usdc)
  }

  /** Buying either token from the same pool runs the swap in opposite directions. */
  lemma SidesAreOpposite(usdc: string, yusdc: string)
    ensures ChooseSide(true, usdc, yusdc).zeroForOne == !ChooseSide(false, usdc, yusdc).zeroForOne
    ensures ChooseSide(true, usdc, yusdc).inputToken == ChooseSide(false, usdc, yusdc).outputToken
    ensures ChooseSide(true, usdc, yusdc).outputToken == ChooseSide(false, usdc, yusdc).inputToken
  {
  }

  /** yUSDC's decimals, 6 when the read failed. */
  function TokenDecimals(read: Option<nat>): (d: nat)
    ensures read.Some? ==> d == read.value
    ensures read.None? ==> d == DefaultTokenDecimals
  {
    if read.Some? then read.value else DefaultTokenDecimals
  }

  /** The decimals of a token of the pair. */
  function DecimalsOf(token: string, usdc: string, usdcDec: nat, tokenDec: nat): nat
  {
    if token == usdc then usdcDec else tokenDec
  }

  /** `(inputDec, outputDec)`. */
  function SwapDecimals(buyingToken1: bool, usdcDec: nat, tokenDec: nat): (decs: (nat, nat))
  {
    if buyingToken1 then (usdcDec, tokenDec) else (tokenDec, usdcDec)
  }

  /**
   * The input amount is scaled by the decimals of the token spent and the
   * estimate by those of the token bought, and switching direction swaps
   * the two.
   */
  lemma DecimalsFollowTokens(buyingToken1: bool, usdc: string, yusdc: string, usdcDec: nat, tokenDec: nat)
    requires usdc != yusdc
    ensures var side := ChooseSide(buyingToken1, usdc, yusdc);
      var decs := SwapDecimals(buyingToken1, usdcDec, tokenDec);
      && decs.0 == DecimalsOf(side.inputToken, usdc, usdcDec, tokenDec)
      && decs.1 == DecimalsOf(side.outputToken, usdc, usdcDec, tokenDec)
    ensures SwapDecimals(!buyingToken1, usdcDec, tokenDec)
      == (SwapDecimals(buyingToken1, usdcDec, tokenDec).1, SwapDecimals(buyingToken1, usdcDec, tokenDec).0)
  {
  }

  /** `(est * BigInt(100 - slippagePct)) / 100n`. */
  function MinOut(est: nat, slippagePct: nat): (m: nat)
    requires slippagePct <= 100
    ensures m <= est
    ensures 100 * m <= est * (100 - slippagePct) < 100 * m + 100
  {
    (est * (100 - slippagePct)) / 100
  }

  /** `Math.floor(Date.now() / 1000) + 60 * 30`. */
  function SwapDeadline(nowMs: nat): (d: int)
    ensures 1000 * (d - DeadlineSeconds) <= nowMs < 1000 * (d - DeadlineSeconds) + 1000
  {
    nowMs / 1000 + DeadlineSeconds
  }

  // ---------------------------------------------------------------------
  // The steps before the balance check
  // ---------------------------------------------------------------------

  /** What the handler has derived once the pool is verified. */
  datatype Prepared = Prepared(
    side: Side, key: PoolKey, inputDec: nat, outputDec: nat, amountIn: int, minOut: nat)

  function PoolVerificationMessage(e: ErrorInfo): string
  {
    "Pool verification failed: " + (if Truthy(e.message) then e.message.value else "Unknown error")
  }

  const PoolNotInitializedMessage: string := "Pool is not initialized or has no liquidity"

  /**
   * Validation, the deployment checks, the derived direction and amounts,
   * the wallet check, the chain check and signer, and the pool check,
   * first failure first.
   */
  function Prepare(env: BuyEnv, amountUSD: string, buyingToken1: bool): (p: Result<Prepared, ErrorInfo>)
    ensures Validate(env).Some? ==> p == Err(Thrown(Validate(env).value))
  {
    if Validate(env).Some? then Err(Thrown(Validate(env).value))
    else if !env.usdcDeployed then Err(Thrown("USDC" + NotDeployedSuffix))
    else if !env.yusdcDeployed then Err(Thrown("Token" + NotDeployedSuffix))
    else if !env.routerDeployed then Err(Thrown("Router" + NotDeployedSuffix))
    else
      var pair := Currencies(env.addrs.usdc, env.addrs.yusdc);
      var side := ChooseSide(buyingToken1, env.addrs.usdc, env.addrs.yusdc);
      var decs := SwapDecimals(buyingToken1, env.usdcDec, TokenDecimals(env.tokenDec));
      match ParseUnits(amountUSD, decs.0)
        case None => Err(env.parseFailure)
        case Some(amountIn) =>
          match env.estTokens
            case Err(e) => Err(e)
            case Ok(est) =>
              var minOut := MinOut(est, SlippagePct);
              if !env.walletPresent then Err(Thrown("No wallet found"))
              else if ConnectSigner(env.wallet).Some? then Err(ConnectSigner(env.wallet).value)
              else
                var key := PoolKey(pair.token0, pair.token1, DynamicFeeFlag, PoolTickSpacing, env.addrs.hook);
                match env.poolRead
                  case Err(e) => Err(Thrown(PoolVerificationMessage(e)))
                  case Ok(sqrtP) =>
                    if sqrtP == 0 then Err(Thrown(PoolVerificationMessage(Thrown(PoolNotInitializedMessage))))
                    else Ok(Prepared(side, key, decs.0, decs.1, amountIn, minOut))
  }

  /**
   * A preparation that succeeds passed every check, spends the chosen
   * token with the decimals of that token, parses the entered amount, and
   * keys the pool with the ordered currencies; and one that passes every
   * check succeeds.  An estimate that does not parse stops the card before
   * the wallet is asked for anything; a wallet that stays off Arbitrum
   * Sepolia or gives no signer stops it with that error before the pool
   * is read.
   */
  lemma PrepareProperties(env: BuyEnv, amountUSD: string, buyingToken1: bool)
    ensures var p := Prepare(env, amountUSD, buyingToken1);
      p.Ok? ==>
        && Validate(env).None?
        && env.usdcDeployed && env.yusdcDeployed && env.routerDeployed && env.walletPresent
        && ConnectSigner(env.wallet).None? && env.poolRead.Ok? && env.poolRead.value > 0
        && p.value.side == ChooseSide(buyingToken1, env.addrs.usdc, env.addrs.yusdc)
        && (p.value.inputDec, p.value.outputDec)
           == SwapDecimals(buyingToken1, env.usdcDec, TokenDecimals(env.tokenDec))
        && ParseUnits(amountUSD, p.value.inputDec) == Some(p.value.amountIn)
        && env.estTokens.Ok? && p.value.minOut == MinOut(env.estTokens.value, SlippagePct)
        && p.value.key.currency0 == Currencies(env.addrs.usdc, env.addrs.yusdc).token0
        && p.value.key.currency1 == Currencies(env.addrs.usdc, env.addrs.yusdc).token1
        && p.value.key.fee == DynamicFeeFlag && p.value.key.hooks == env.addrs.hook
    ensures
      (&& Validate(env).None? && env.usdcDeployed && env.yusdcDeployed && env.routerDeployed
       && ParseUnits(amountUSD, SwapDecimals(buyingToken1, env.usdcDec, TokenDecimals(env.tokenDec)).0).Some?
       && env.estTokens.Ok? && env.walletPresent && ConnectSigner(env.wallet).None?
       && env.poolRead.Ok? && env.poolRead.value > 0)
      ==> Prepare(env, amountUSD, buyingToken1).Ok?
    ensures
      (&& Validate(env).None? && env.usdcDeployed && env.yusdcDeployed && env.routerDeployed
       && ParseUnits(amountUSD, SwapDecimals(buyingToken1, env.usdcDec, TokenDecimals(env.tokenDec)).0).Some?
       && env.estTokens.Err?)
      ==> Prepare(env, amountUSD, buyingToken1) == Err(env.estTokens.error)
    ensures
      (&& Validate(env).None? && env.usdcDeployed && env.yusdcDeployed && env.routerDeployed
       && ParseUnits(amountUSD, SwapDecimals(buyingToken1, env.usdcDec, TokenDecimals(env.tokenDec)).0).Some?
       && env.estTokens.Ok? && env.walletPresent && ConnectSigner(env.wallet).Some?)
      ==> Prepare(env, amountUSD, buyingToken1) == Err(ConnectSigner(env.wallet).value)
  {
  }

  /** The balance of the token spent. */
  function InputBalance(env: BuyEnv, buyingToken1: bool): nat
  {
    if buyingToken1 then env.usdcBalance else env.yusdcBalance
  }

  /** The message thrown when the balance of the token spent is short. */
  function InsufficientMessage(env: BuyEnv, buyingToken1: bool, p: Prepared): string
  {
    "Insufficient " + (if buyingToken1 then "USDC" else "yUSDC") + " balance. Have: "
      + EthersFormatUnits(InputBalance(env, buyingToken1), p.inputDec) + ", Need: "
      + EthersFormatUnits(p.amountIn, p.inputDec)
  }

  /** The swap the handler submits once everything is in place. */
  function RequestFor(env: BuyEnv, p: Prepared): SwapRequest
    requires env.account.Some?
  {
    SwapRequest(p.amountIn, 0, p.side.zeroForOne, p.key, "0x", env.account.value, SwapDeadline(env.nowMs))
  }

  /**
   * The submitted swap spends exactly the parsed amount, in the direction
   * that spends the chosen token, to the caller, and accepts any output:
   * its minimum is 0 even though a 1% minimum is computed.
   */
  lemma RequestProperties(env: BuyEnv, amountUSD: string, buyingToken1: bool)
    requires Prepare(env, amountUSD, buyingToken1).Ok?
    requires ToLower(env.addrs.usdc) != ToLower(env.addrs.yusdc)
    ensures var p := Prepare(env, amountUSD, buyingToken1).value;
      var r := RequestFor(env, p);
      && r.amountOutMin == 0 && env.estTokens.Ok? && p.minOut <= env.estTokens.value
      && (r.zeroForOne <==> p.side.inputToken == r.key.currency0)
      && r.key.currency0 != r.key.currency1
      && r.receiver == env.account.value
      && 1000 * (r.deadline - DeadlineSeconds) <= env.nowMs < 1000 * (r.deadline - DeadlineSeconds) + 1000
  {
    PrepareProperties(env, amountUSD, buyingToken1);
  }

  // ---------------------------------------------------------------------
  // Error messages
  // ---------------------------------------------------------------------

  /** The branches of the catch block, in their order. */
  datatype BuyErrorClass = Rejected | NotSettled | RouterMissing | RateLimited | NotDeployed | Insufficient | Other

  function Rank(c: BuyErrorClass): nat
  {
    match c
      case Rejected => 0
      case NotSettled => 1
      case RouterMissing => 2
      case RateLimited => 3
      case NotDeployed => 4
      case Insufficient => 5
      case Other => 6
  }

  /** The revert selector the pool manager raises when a currency is left unsettled. */
  const CurrencyNotSettledData: string := "0x8199f5f3"

  /** The test of each branch on its own. */
  predicate Matches(e: ErrorInfo, c: BuyErrorClass)
  {
    match c
      case Rejected => IsRejection(e)
      case NotSettled => e.data == Some(CurrencyNotSettledData)
      case RouterMissing => ContainsIgnoringCase(MessageText(e), RouterMissingPhrase)
      case RateLimited => IsRateLimit(e)
      case NotDeployed => e.message.Some? && Contains(e.message.value, NotDeployedPhrase)
      case Insufficient => e.message.Some? && Contains(e.message.value, "insufficient")
      case Other => true
  }

  /** The first branch, in source order, whose test the error passes. */
  function Classify(e: ErrorInfo): (c: BuyErrorClass)
    ensures Matches(e, c)
    ensures forall d :: Rank(d) < Rank(c) ==> !Matches(e, d)
  {
    if IsRejection(e) then Rejected
    else if e.data == Some(CurrencyNotSettledData) then NotSettled
    else if ContainsIgnoringCase(MessageText(e), RouterMissingPhrase) then RouterMissing
    else if IsRateLimit(e) then RateLimited
    else if e.message.Some? && Contains(e.message.value, NotDeployedPhrase) then NotDeployed
    else if e.message.Some? && Contains(e.message.value, "insufficient") then Insufficient
    else Other
  }

  /** The text the card shows for a caught error. */
  function BuyErrorText(e: ErrorInfo): string
  {
    match Classify(e)
      case Rejected => "User rejected the transaction"
      case NotSettled =>
        "Currency not settled - your swap router might not be compatible with this pool. "
        + "Verify NEXT_PUBLIC_SWAP_ROUTER_ADDRESS matches your deployed router."
      case RouterMissing => MessageText(e)
      case RateLimited => "RPC rate-limited; set NEXT_PUBLIC_ALCHEMY_API_KEY or NEXT_PUBLIC_RPC_URL."
      case NotDeployed => MessageText(e) + " - Check your .env.local addresses"
      case Insufficient => "Insufficient balance or liquidity"
      case Other => FallbackText(e, "Failed to buy tokens")
  }

  /** A wallet rejection is reported as such whatever else the error carries. */
  lemma RejectionWins(e: ErrorInfo)
    requires IsRejection(e)
    ensures BuyErrorText(e) == "User rejected the transaction"
  {
  }

  /** Free of the letters g, q, p and f and the digit 4, which the message tests all need. */
  predicate Plain(msg: string)
  {
    'g' !in msg && 'G' !in msg && 'q' !in msg && 'Q' !in msg && 'p' !in msg && 'f' !in msg && '4' !in msg
  }


  /**
   * A message missing the letters g, q, p and f and the digit 4 passes
   * none of the message tests, so the card shows it as thrown.
   */
  lemma PlainMessageShownAsThrown(msg: string)
    requires msg != "" && Plain(msg)
    ensures BuyErrorText(Thrown(msg)) == msg
  {
    PlainMessageTests(msg);
  }

  /** A message lacking those characters passes no message test. */
  lemma PlainMessageTests(msg: string)
    requires Plain(msg)
    ensures var e := Thrown(msg);
      !Matches(e, RouterMissing) && !Matches(e, RateLimited) && !Matches(e, NotDeployed) && !Matches(e, Insufficient)
  {
    LetterAbsentAfterLower(msg, 'g');
    MissingCharExcludes(ToLower(msg), RouterMissingPhrase, 'g');
    NotRateLimitWithout(Thrown(msg));
    MissingCharExcludes(msg, NotDeployedPhrase, 'p');
    MissingCharExcludes(msg, "insufficient", 'f');
  }

  /**
   * A refused chain switch reaches the user as thrown, naming the chain
   * the wallet is on, when that chain's id has no digit 4 (Ethereum
   * mainnet's 1, say).
   */
  lemma SwitchRefusalShown(chainId: nat)
    requires '4' !in NatToDigits(chainId)
    ensures BuyErrorText(Thrown(SwitchMessage(chainId))) == SwitchMessage(chainId)
  {
    var msg := SwitchMessage(chainId);
    SwitchMessageChars(chainId);
    LetterAbsentAfterLower(msg, 'g');
    MissingCharExcludes(ToLower(msg), RouterMissingPhrase, 'g');
    NotRateLimitWithout(Thrown(msg));
    MissingCharExcludes(msg, NotDeployedPhrase, 'd');
    MissingCharExcludes(msg, "insufficient", 'f');
  }

  /** The missing-router message goes through the router branch, which shows it as thrown. */
  lemma RouterMessageShownAsThrown()
    ensures BuyErrorText(Thrown(RouterMissingMessage)) == RouterMissingMessage
  {
    LowerFixed(RouterMissingPhrase);
    ContainsIgnoringCaseMiddle("Swap ", RouterMissingPhrase, RouterMissingTail);
    assert Matches(Thrown(RouterMissingMessage), RouterMissing);
  }

  /** The characters a deployment error must lack to pass no test before its own. */
  predicate LacksEarlierPatterns(s: string)
  {
    'g' !in s && 'G' !in s && 'q' !in s && 'Q' !in s && '4' !in s
  }

  /**
   * A missing deployment is shown with a hint to check the configured
   * addresses.  The three deployment errors are a contract name ("USDC",
   * "Token", "Router"), " not deployed" and the tail " on this RPC's
   * chain", none of which holds a g, a q or a 4.
   */
  lemma NotDeployedShownWithHint(name: string, tail: string)
    requires LacksEarlierPatterns(name) && LacksEarlierPatterns(tail)
    ensures var msg := name + " " + NotDeployedPhrase + tail;
      BuyErrorText(Thrown(msg)) == msg + " - Check your .env.local addresses"
  {
    NotDeployedTests(name, tail);
  }

  /** Which message tests a deployment error passes. */
  lemma NotDeployedTests(name: string, tail: string)
    requires LacksEarlierPatterns(name) && LacksEarlierPatterns(tail)
    ensures var e := Thrown(name + " " + NotDeployedPhrase + tail);
      !Matches(e, RouterMissing) && !Matches(e, RateLimited) && Matches(e, NotDeployed)
  {
    var msg := name + " " + NotDeployedPhrase + tail;
    assert LacksEarlierPatterns(" " + NotDeployedPhrase);
    assert msg == name + (" " + NotDeployedPhrase) + tail;
    assert LacksEarlierPatterns(msg);
    LetterAbsentAfterLower(msg, 'g');
    MissingCharExcludes(ToLower(msg), RouterMissingPhrase, 'g');
    NotRateLimitWithout(Thrown(msg));
    OccursMiddle(name + " ", NotDeployedPhrase, tail);
  }

  // ---------------------------------------------------------------------
  // The card
  // ---------------------------------------------------------------------

  /** Every action is a read: nothing was approved or sent. */
  predicate ReadsOnly(trace: seq<Action>)
  {
    forall i :: 0 <= i < |trace| ==> !trace[i].ApproveInput? && !trace[i].ApproveOther? && !trace[i].SendSwap?
  }

  /** The reads that precede a successful pool check. */
  const PreflightTrace: seq<Action> := [CheckCode, ReadDecimals, VerifyPool]

  /** The actions from the balance read on, when the balance suffices. */
  function SubmitTrace(env: BuyEnv, p: Prepared): seq<Action>
    requires env.account.Some?
  {
    [ReadBalances, ReadAllowance]
    + (if env.inputAllowance < p.amountIn then [ApproveInput(p.side.inputToken)] else [])
    + [ReadAllowance]
    + (if env.otherAllowance == 0 then [ApproveOther(p.side.outputToken)] else [])
    + [SendSwap(RequestFor(env, p))]
  }

  /** Every action of a handler that gets as far as the swap. */
  function SwapTrace(env: BuyEnv, p: Prepared): seq<Action>
    requires env.account.Some?
  {
    PreflightTrace + SubmitTrace(env, p)
  }

  /**
   * The token spent is approved exactly when its allowance is below the
   * amount and the other token exactly when its allowance is zero, both
   * after the balances were read, and the swap is the last action.
   */
  lemma ApprovalRules(env: BuyEnv, p: Prepared)
    requires env.account.Some?
    ensures var trace := SwapTrace(env, p);
      && (ApproveInput(p.side.inputToken) in trace <==> env.inputAllowance < p.amountIn)
      && (ApproveOther(p.side.outputToken) in trace <==> env.otherAllowance == 0)
      && trace[3] == ReadBalances
      && (forall i :: 0 <= i < 4 ==> !trace[i].ApproveInput? && !trace[i].ApproveOther?)
      && trace[|trace| - 1] == SendSwap(RequestFor(env, p))
  {
    var steps := SubmitTrace(env, p);
    SubmitApprovals(env, p);
    assert SwapTrace(env, p) == PreflightTrace + steps;
    assert SwapTrace(env, p)[3] == steps[0];
  }

  /** `ApprovalRules` for the steps after the pool check. */
  lemma SubmitApprovals(env: BuyEnv, p: Prepared)
    requires env.account.Some?
    ensures var steps := SubmitTrace(env, p);
      && (ApproveInput(p.side.inputToken) in steps <==> env.inputAllowance < p.amountIn)
      && (ApproveOther(p.side.outputToken) in steps <==> env.otherAllowance == 0)
      && steps[0] == ReadBalances
      && steps[|steps| - 1] == SendSwap(RequestFor(env, p))
  {
    var steps := SubmitTrace(env, p);
    var a := if env.inputAllowance < p.amountIn then [ApproveInput(p.side.inputToken)] else [];
    var o := if env.otherAllowance == 0 then [ApproveOther(p.side.outputToken)] else [];
    var send := [SendSwap(RequestFor(env, p))];
    assert ApproveInput(p.side.inputToken) !in [ReadBalances, ReadAllowance] + [ReadAllowance] + o + send;
    assert ApproveOther(p.side.outputToken) !in [ReadBalances, ReadAllowance] + a + [ReadAllowance] + send;
    if env.inputAllowance < p.amountIn {
      assert steps[2] == ApproveInput(p.side.inputToken);
    }
    if env.otherAllowance == 0 {
      assert steps[|a| + 3] == ApproveOther(p.side.outputToken);
    }
  }

  /**
   * The steps of `handleBuy` up to the pool check, in order: validation,
   * the deployment checks, decimals, ordering, direction, the amounts, the
   * wallet, the chain and signer, and the pool.
   */
  method Preflight(env: BuyEnv, amountUSD: string, buyingToken1: bool)
    returns (r: Result<Prepared, ErrorInfo>, trace: seq<Action>)
    ensures r == Prepare(env, amountUSD, buyingToken1)
    ensures ReadsOnly(trace)
    ensures trace == [] <==> Validate(env).Some?
    ensures r.Ok? ==> trace == PreflightTrace
  {
    trace := [];
    var invalid := Validate(env);
    if invalid.Some? {
      return Err(Thrown(invalid.value)), trace;
    }

    trace := [CheckCode];
    assert ReadsOnly(trace);
    if !env.usdcDeployed {
      return Err(Thrown("USDC" + NotDeployedSuffix)), trace;
    }
    if !env.yusdcDeployed {
      return Err(Thrown("Token" + NotDeployedSuffix)), trace;
    }
    if !env.routerDeployed {
      return Err(Thrown("Router" + NotDeployedSuffix)), trace;
    }

    trace := trace + [ReadDecimals];
    assert ReadsOnly(trace);
    var usdcDec := env.usdcDec;
    var tokenDec := DefaultTokenDecimals;
    if env.tokenDec.Some? {
      tokenDec := env.tokenDec.value;
    }

    var pair := Currencies(env.addrs.usdc, env.addrs.yusdc);
    var isUsdcCurrency0 := UsdcIsCurrency0(env.addrs.usdc, env.addrs.yusdc);
    var zeroForOne: bool;
    var inputToken: string;
    var outputToken: string;
    if buyingToken1 {
      zeroForOne := isUsdcCurrency0;
      inputToken := env.addrs.usdc;
      outputToken := env.addrs.yusdc;
    } else {
      zeroForOne := !isUsdcCurrency0;
      inputToken := env.addrs.yusdc;
      outputToken := env.addrs.usdc;
    }

    var inputDec := if buyingToken1 then usdcDec else tokenDec;
    var outputDec := if buyingToken1 then tokenDec else usdcDec;
    var parsed := ParseUnits(amountUSD, inputDec);
    if parsed.None? {
      return Err(env.parseFailure), trace;
    }
    var amountIn := parsed.value;
    if env.estTokens.Err? {
      return Err(env.estTokens.error), trace;
    }
    var minOut := (env.estTokens.value * (100 - SlippagePct)) / 100;

    if !env.walletPresent {
      return Err(Thrown("No wallet found")), trace;
    }
    var connected := ConnectSigner(env.wallet);
    if connected.Some? {
      return Err(connected.value), trace;
    }

    var key := PoolKey(pair.token0, pair.token1, DynamicFeeFlag, PoolTickSpacing, env.addrs.hook);
    trace := trace + [VerifyPool];
    assert trace == PreflightTrace && ReadsOnly(trace);
    if env.poolRead.Err? {
      return Err(Thrown(PoolVerificationMessage(env.poolRead.error))), trace;
    }
    if env.poolRead.value == 0 {
      return Err(Thrown(PoolVerificationMessage(Thrown(PoolNotInitializedMessage)))), trace;
    }
    r := Ok(Prepared(Side(zeroForOne, inputToken, outputToken), key, inputDec, outputDec, amountIn, minOut));
  }

  class BuyTokenCard {
    var amountUSD: string
    var buyingToken1: bool
    var isLoading: bool
    var error: Option<string>
    var txHash: Option<string>

    /** The card's initial state: buying yUSDC, nothing entered or shown. */
    constructor ()
      ensures amountUSD == "" && buyingToken1 && !isLoading && error.None? && txHash.None?
    {
      amountUSD := "";
      buyingToken1 := true;
      isLoading := false;
      error := None;
      txHash := None;
    }

    /** The catch and finally blocks. */
    method Fail(e: ErrorInfo)
      modifies this
      ensures error == Some(BuyErrorText(e)) && !isLoading
      ensures amountUSD == old(amountUSD) && buyingToken1 == old(buyingToken1) && txHash == old(txHash)
    {
      error := Some(BuyErrorText(e));
      isLoading := false;
    }

    /**
     * The steps of `handleBuy` from the balance check on: a short balance
     * throws before any approval; otherwise the approvals are made as
     * needed and the swap is sent, and its outcome decides what is shown.
     */
    method Submit(env: BuyEnv, p: Prepared) returns (steps: seq<Action>)
      requires env.account.Some?
      modifies this
      ensures !isLoading && buyingToken1 == old(buyingToken1)
      ensures InputBalance(env, buyingToken1) < p.amountIn ==>
        && steps == [ReadBalances]
        && error == Some(BuyErrorText(Thrown(InsufficientMessage(env, buyingToken1, p))))
        && txHash == old(txHash) && amountUSD == old(amountUSD)
      ensures InputBalance(env, buyingToken1) >= p.amountIn ==>
        && steps == SubmitTrace(env, p)
        && (env.swapResult.Ok? ==> txHash == Some(env.swapResult.value) && amountUSD == "" && error == old(error))
        && (env.swapResult.Err? ==>
              error == Some(BuyErrorText(env.swapResult.error)) && txHash == old(txHash) && amountUSD == old(amountUSD))
    {
      steps := [ReadBalances];
      var inputBalance := if buyingToken1 then env.usdcBalance else env.yusdcBalance;
      if inputBalance < p.amountIn {
        Fail(Thrown(InsufficientMessage(env, buyingToken1, p)));
        return;
      }

      var approveInput: seq<Action> := [];
      if env.inputAllowance < p.amountIn {
        approveInput := [ApproveInput(p.side.inputToken)];
      }
      var approveOther: seq<Action> := [];
      if env.otherAllowance == 0 {
        approveOther := [ApproveOther(p.side.outputToken)];
      }

      var deadline := env.nowMs / 1000 + DeadlineSeconds;
      var request := SwapRequest(p.amountIn, 0, p.side.zeroForOne, p.key, "0x", env.account.value, deadline);
      assert request == RequestFor(env, p);
      steps := steps + [ReadAllowance] + approveInput + [ReadAllowance] + approveOther + [SendSwap(request)];
      match env.swapResult {
        case Err(e) =>
          Fail(e);
        case Ok(hash) =>
          txHash := Some(hash);
          amountUSD := "";
          isLoading := false;
      }
    }

    /**
     * `handleBuy`.  Validation failures touch neither the node nor the
     * wallet; any failure before the balance check leaves nothing
     * approved or sent; a short balance stops before any approval; past
     * it, the approvals follow `ApprovalRules` and the swap is sent.
     * Exactly one of a transaction hash and an error is shown.
     */
    method HandleBuy(env: BuyEnv) returns (trace: seq<Action>)
      modifies this
      ensures !isLoading && buyingToken1 == old(buyingToken1)
      ensures error.None? <==> txHash.Some?
      ensures txHash.Some? ==> amountUSD == "" && env.swapResult == Ok(txHash.value)
      ensures error.Some? ==> amountUSD == old(amountUSD)
      ensures trace == [] <==> Validate(env).Some?
      ensures var p := Prepare(env, old(amountUSD), old(buyingToken1));
        && (p.Err? ==> ReadsOnly(trace) && error == Some(BuyErrorText(p.error)))
        && (p.Ok? && InputBalance(env, buyingToken1) < p.value.amountIn ==>
              && trace == PreflightTrace + [ReadBalances]
              && error == Some(BuyErrorText(Thrown(InsufficientMessage(env, buyingToken1, p.value)))))
        && (p.Ok? && InputBalance(env, buyingToken1) >= p.value.amountIn ==>
              && trace == SwapTrace(env, p.value)
              && (env.swapResult.Ok? ==> txHash == Some(env.swapResult.value))
              && (env.swapResult.Err? ==> error == Some(BuyErrorText(env.swapResult.error))))
    {
      isLoading := true;
      error := None;
      txHash := None;

      var prepared;
      prepared, trace := Preflight(env, amountUSD, buyingToken1);
      if prepared.Err? {
        Fail(prepared.error);
        return;
      }
      PrepareProperties(env, amountUSD, buyingToken1);
      var steps := Submit(env, prepared.value);
      trace := trace + steps;
    }
  }
}
