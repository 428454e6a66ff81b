/**
 * The shape of the errors the dashboard's cards catch, and the tests their
 * catch blocks share: a wallet's "user rejected" code, an RPC rate-limit
 * message, and the `reason || message || default` fallback.
 *
 * An error carries the fields the cards look at; each is absent when the
 * thrown value lacks it.  An `Error` the cards throw themselves carries a
 * message only.
 */
module WalletErrors {
  import opened Wrappers
  import opened JsString

  datatype ErrorInfo = ErrorInfo(
    code: Option<int>,
    data: Option<string>,
    message: Option<string>,
    reason: Option<string>)

  /** `new Error(msg)`. */
  function Thrown(msg: string): (e: ErrorInfo)
    ensures e.code.None? && e.data.None? && e.reason.None? && e.message == Some(msg)
  {
    ErrorInfo(None, None, Some(msg), None)
  }

  /** A string field read for truthiness: present and not empty. */
  predicate Truthy(s: Option<string>)
  {
    s.Some? && s.value != ""
  }

  /** `e?.message || ""`. */
  function MessageText(e: ErrorInfo): (m: string)
    ensures Truthy(e.message) ==> m == e.message.value
    ensures !Truthy(e.message) ==> m == ""
  {
    if e.message.Some? then e.message.value else ""
  }

  /** The code EIP-1193 wallets use when the user declines a request. */
  const UserRejectedCode: int := 4001

  predicate IsRejection(e: ErrorInfo)
  {
    e.code == Some(UserRejectedCode)
  }

  /** `/Too many requests|429/i` (or its mirror `/429|Too many requests/i`) on the message. */
  predicate IsRateLimit(e: ErrorInfo)
  {
    ContainsIgnoringCase(MessageText(e), "too many requests") || ContainsIgnoringCase(MessageText(e), "429")
  }

  /** `e?.reason || e?.message || fallback`. */
  function FallbackText(e: ErrorInfo, fallback: string): (t: string)
    ensures Truthy(e.reason) ==> t == e.reason.value
    ensures !Truthy(e.reason) && Truthy(e.message) ==> t == e.message.value
    ensures !Truthy(e.reason) && !Truthy(e.message) ==> t == fallback
  {
    if Truthy(e.reason) then e.reason.value
    else if Truthy(e.message) then e.message.value
    else fallback
  }

  /** An error with no message is never taken for a rate limit. */
  lemma NoMessageNoRateLimit(e: ErrorInfo)
    requires !Truthy(e.message)
    ensures !IsRateLimit(e)
  {
    assert ToLower(MessageText(e)) == [];
  }

  /**
   * A message lacking both the letter q and the digit 4 cannot read as a
   * rate limit: "too many requests" needs the q and "429" the 4.
   */
  lemma NotRateLimitWithout(e: ErrorInfo)
    requires 'q' !in MessageText(e) && 'Q' !in MessageText(e) && '4' !in MessageText(e)
    ensures !IsRateLimit(e)
  {
    var m := MessageText(e);
    LetterAbsentAfterLower(m, 'q');
    MissingCharExcludes(ToLower(m), "too many requests", 'q');
    assert '4' !in ToLower(m) by {
      forall i | 0 <= i < |m|
        ensures ToLower(m)[i] != '4'
      {
        assert m[i] in m;
      }
    }
    MissingCharExcludes(ToLower(m), "429", '4');
  }
}
