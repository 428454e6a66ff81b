/**
 * The chain check both dashboard cards make before they ask the wallet for
 * a signer (`ensureWalletOnArbSepolia`, then `getSigner`).  A wallet on
 * another chain is asked to switch to Arbitrum Sepolia, and to add it when
 * it answers that it does not know the chain; any other refusal throws an
 * error that names the wallet's current chain.  A wallet already on the
 * chain is asked for nothing.
 *
 * What the wallet answers to each request is a parameter (`WalletSession`).
 */
module WalletChain {
  import opened Wrappers
  import opened Units
  import opened WalletErrors

  /** Arbitrum Sepolia's chain id, the default of the configured chain id. */
  const ArbSepoliaChainId: nat := 421614

  /** The code a wallet answers `wallet_switchEthereumChain` with when it does not know the chain. */
  const UnknownChainCode: int := 4902

  const SwitchPrefix: string := "Please switch to Arbitrum Sepolia (current: "

  /**
   * The wallet's answers, each in the order the card asks:
   *  - `network` is `Number(net.chainId)` from `getNetwork`, or what it threw;
   *  - `switchError` is what `wallet_switchEthereumChain` threw, `None` when it succeeded;
   *  - `addError` is what `wallet_addEthereumChain` threw, `None` when it succeeded;
   *  - `signerError` is what `getSigner` threw, `None` when it returned a signer.
   */
  datatype WalletSession = WalletSession(
    network: Result<nat, ErrorInfo>,
    switchError: Option<ErrorInfo>,
    addError: Option<ErrorInfo>,
    signerError: Option<ErrorInfo>)

  /** The error thrown when the wallet refuses to switch; it names the current chain in decimal. */
  function SwitchMessage(chainId: nat): (msg: string)
    ensures |msg| > |SwitchPrefix| + 1
    ensures msg[..|SwitchPrefix|] == SwitchPrefix && msg[|msg| - 1] == ')'
    ensures AllDigits(msg[|SwitchPrefix|..|msg| - 1]) && Value(msg[|SwitchPrefix|..|msg| - 1]) == chainId
  {
    var digits := NatToDigits(chainId);
    var msg := SwitchPrefix + digits + ")";
    assert msg[|SwitchPrefix|..|msg| - 1] == digits;
    msg
  }

  /** Distinct chains give distinct messages, so the message tells which chain the wallet is on. */
  lemma SwitchMessageNamesChain(a: nat, b: nat)
    ensures SwitchMessage(a) == SwitchMessage(b) <==> a == b
  {
    if SwitchMessage(a) == SwitchMessage(b) {
      var m := SwitchMessage(a);
      assert Value(m[|SwitchPrefix|..|m| - 1]) == a;
    }
  }

  /**
   * `ensureWalletOnArbSepolia`: `None` when it returns, the error it throws
   * otherwise.  It returns when the wallet is on the chain, when the switch
   * succeeds, and when the wallet does not know the chain and adding it
   * succeeds.
   */
  function EnsureArbSepolia(w: WalletSession): (r: Option<ErrorInfo>)
    ensures r.None? <==>
      && w.network.Ok?
      && (|| w.network.value == ArbSepoliaChainId
          || w.switchError.None?
          || (w.switchError.value.code == Some(UnknownChainCode) && w.addError.None?))
    ensures w.network.Err? ==> r == Some(w.network.error)
    ensures w.network.Ok? && w.network.value != ArbSepoliaChainId && w.switchError.Some? ==>
      if w.switchError.value.code == Some(UnknownChainCode) then r == w.addError
      else r == Some(Thrown(SwitchMessage(w.network.value)))
  {
    match w.network
      case Err(e) => Some(e)
      case Ok(cid) =>
        if cid == ArbSepoliaChainId then None
        else
          match w.switchError
            case None => None
            case Some(e) =>
              if e.code == Some(UnknownChainCode) then w.addError
              else Some(Thrown(SwitchMessage(cid)))
  }

  /** The chain check, then `getSigner`: `None` when the card has a signer on the chain. */
  function ConnectSigner(w: WalletSession): (r: Option<ErrorInfo>)
    ensures r.None? <==> EnsureArbSepolia(w).None? && w.signerError.None?
    ensures EnsureArbSepolia(w).Some? ==> r == EnsureArbSepolia(w)
    ensures EnsureArbSepolia(w).None? ==> r == w.signerError
  {
    match EnsureArbSepolia(w)
      case Some(e) => Some(e)
      case None => w.signerError
  }

  /**
   * A wallet already on Arbitrum Sepolia is asked neither to switch nor to
   * add the chain: whatever it would answer to those requests changes
   * nothing.
   */
  lemma OnChainAsksNothing(w1: WalletSession, w2: WalletSession)
    requires w1.network == w2.network == Ok(ArbSepoliaChainId)
    requires w1.signerError == w2.signerError
    ensures ConnectSigner(w1) == ConnectSigner(w2) == w1.signerError
  {
  }

  /** The switch message lacks the characters the cards' message tests look for. */
  lemma SwitchMessageChars(chainId: nat)
    requires '4' !in NatToDigits(chainId)
    ensures var m := SwitchMessage(chainId);
      && '4' !in m && 'q' !in m && 'Q' !in m && 'g' !in m && 'G' !in m && 'd' !in m && 'f' !in m
  {
    var m := SwitchMessage(chainId);
    SwitchMessageUntested(chainId);
    forall c | Tested(c)
      ensures c !in m
    {
    }
    assert Tested('4') && Tested('q') && Tested('Q') && Tested('g') && Tested('G') && Tested('d') && Tested('f');
  }

  /** The characters the cards' message tests need. */
  predicate Tested(c: char)
  {
    c in {'4', 'q', 'Q', 'g', 'G', 'd', 'f'}
  }

  lemma SwitchMessageUntested(chainId: nat)
    requires '4' !in NatToDigits(chainId)
    ensures var m := SwitchMessage(chainId);
      forall i :: 0 <= i < |m| ==> !Tested(m[i])
  {
    var digits := NatToDigits(chainId);
    var m := SwitchMessage(chainId);
    assert m == SwitchPrefix + digits + ")";
    PrefixChars();
    forall i | 0 <= i < |m|
      ensures !Tested(m[i])
    {
      if i < |SwitchPrefix| {
        assert PrefixChar(m[i]);
      } else if i < |SwitchPrefix| + |digits| {
        assert m[i] == digits[i - |SwitchPrefix|];
        assert IsDigit(m[i]);
        assert m[i] != '4';
      }
    }
  }

  /** The characters the switch prefix is written with. */
  predicate PrefixChar(c: char)
  {
    c in {' ', '(', ':', 'A', 'P', 'S', 'a', 'b', 'c', 'e', 'h', 'i', 'l', 'm', 'n', 'o', 'p', 'r', 's', 't', 'u', 'w'}
  }

  lemma PrefixChars()
    ensures forall i :: 0 <= i < |SwitchPrefix| ==> PrefixChar(SwitchPrefix[i])
  {
  }
}
