/** `_retry_on_network_error` and the per-chunk fallback of `send_long_message`, as decisions over the outcomes of
    the individual send attempts. */
module Delivery {
  /** How one call of the send coroutine ended. `TimedOut` is the transport's timeout error, `NetworkFailure` any
      other network error, `OtherFailure` any other exception (a rejected HTML message, say). */
  datatype Attempt = Delivered | TimedOut | NetworkFailure | OtherFailure

  /** How `_retry_on_network_error` ended, after how many attempts and how many seconds of back-off. */
  datatype Outcome = Sent(attempts: nat, waited: nat) | Raised(err: Attempt, attempts: nat, waited: nat)

  /** `NETWORK_RETRY_DELAYS`. */
  const DefaultRetries: seq<nat> := [2, 5, 10]

  /** An attempt outcome that is followed by another attempt, if one remains. */
  predicate Retriable(a: Attempt, retryTimeout: bool) {
    a == NetworkFailure || (a == TimedOut && retryTimeout)
  }

  function Sum(s: seq<nat>): nat {
    if |s| == 0 then 0 else s[0] + Sum(s[1..])
  }

  /** The attempts from index `k` on, with the delays still to come; `outcome(k)` is how the `k`-th call ends. */
  function RetryFrom(outcome: nat -> Attempt, delays: seq<nat>, retryTimeout: bool, k: nat): (r: Outcome)
    requires |delays| > 0
    decreases |delays|
  {
    var a := outcome(k);
    if a == Delivered then Sent(k + 1, delays[0])
    else if !Retriable(a, retryTimeout) || |delays| == 1 then Raised(a, k + 1, delays[0])
    else
      var rest := RetryFrom(outcome, delays[1..], retryTimeout, k + 1);
      if rest.Sent? then Sent(rest.attempts, delays[0] + rest.waited)
      else Raised(rest.err, rest.attempts, delays[0] + rest.waited)
  }

  lemma {:induction false} RetryFromSpec(outcome: nat -> Attempt, delays: seq<nat>, retryTimeout: bool, k: nat)
    requires |delays| > 0
    ensures var r := RetryFrom(outcome, delays, retryTimeout, k);
      && k + 1 <= r.attempts <= k + |delays|
      && (forall i :: k <= i < r.attempts - 1 ==> Retriable(outcome(i), retryTimeout))
      && (r.Sent? <==> outcome(r.attempts - 1) == Delivered)
      && (r.Raised? ==> r.err == outcome(r.attempts - 1))
      && (Retriable(outcome(r.attempts - 1), retryTimeout) ==> r.attempts == k + |delays|)
      && r.waited == Sum(delays[..r.attempts - k])
    decreases |delays|
  {
    var a := outcome(k);
    if a != Delivered && Retriable(a, retryTimeout) && |delays| > 1 {
      RetryFromSpec(outcome, delays[1..], retryTimeout, k + 1);
      var r := RetryFrom(outcome, delays, retryTimeout, k);
      var n := r.attempts - k;
      assert delays[..n][1..] == delays[1..][..n - 1];
    }
  }

  /** `_retry_on_network_error(coro_factory, retries, retry_timeout)`: the first attempt goes at once, each later
      one after the next delay of `retries`. A timeout is retried only when `retryTimeout` holds (the server may
      already have acted on the request), other network errors always are, and anything else ends the loop at
      once; when attempts run out the last error is raised. */
  function Retry(outcome: nat -> Attempt, retries: seq<nat>, retryTimeout: bool): (r: Outcome)
    ensures 1 <= r.attempts <= |retries| + 1
    ensures forall i :: 0 <= i < r.attempts - 1 ==> Retriable(outcome(i), retryTimeout)
    ensures r.Sent? <==> outcome(r.attempts - 1) == Delivered
    ensures r.Raised? ==> r.err == outcome(r.attempts - 1)
    ensures Retriable(outcome(r.attempts - 1), retryTimeout) ==> r.attempts == |retries| + 1
    ensures r.waited == Sum(retries[..r.attempts - 1])
  {
    var delays := [0] + retries;
    RetryFromSpec(outcome, delays, retryTimeout, 0);
    var r := RetryFrom(outcome, delays, retryTimeout, 0);
    assert delays[..r.attempts][1..] == retries[..r.attempts - 1];
    r
  }

  /** Sending is not idempotent: by default a timeout is raised after the first attempt, without waiting. */
  lemma TimeoutNotRetried(outcome: nat -> Attempt, retries: seq<nat>)
    requires outcome(0) == TimedOut
    ensures Retry(outcome, retries, false) == Raised(TimedOut, 1, 0)
  {
  }

  /** With the default delays a send gives up after four attempts and at most 17 seconds of back-off. */
  lemma DefaultBudget(outcome: nat -> Attempt, retryTimeout: bool)
    ensures Retry(outcome, DefaultRetries, retryTimeout).attempts <= 4
    ensures Retry(outcome, DefaultRetries, retryTimeout).waited <= 17
  {
    var r := Retry(outcome, DefaultRetries, retryTimeout);
    var n := r.attempts - 1;
    if n == 0 {
      assert DefaultRetries[..n] == [];
    } else if n == 1 {
      assert DefaultRetries[..n] == [2];
      assert Sum([2]) == 2 + Sum([]);
    } else if n == 2 {
      assert DefaultRetries[..n] == [2, 5];
      assert [2, 5][1..] == [5];
      assert Sum([2, 5]) == 2 + Sum([5]);
    } else {
      assert DefaultRetries[..n] == [2, 5, 10];
      assert [2, 5, 10][1..] == [5, 10] && [5, 10][1..] == [10];
      assert Sum([2, 5, 10]) == 2 + Sum([5, 10]);
      assert Sum([5, 10]) == 5 + Sum([10]);
    }
  }

  /** How one chunk of a reply reached the chat, or the error that escaped. */
  datatype ChunkResult = AsHtml | AsPlain | Undeliverable | Escaped(err: Attempt)

  /** A network error in the sense of the transport's exception hierarchy, where a timeout is one kind. */
  predicate IsNetworkError(a: Attempt) {
    a == TimedOut || a == NetworkFailure
  }

  /** One iteration of `send_long_message`'s loop: `html(k)` and `plain(k)` are how the `k`-th attempt to send the
      HTML rendering and the raw chunk end. A network failure of the HTML send falls back to the raw chunk with
      the same retries, and a second network failure becomes the "could not be delivered" error; any other
      failure of the HTML send falls back to a single raw send without retries. */
  function SendChunk(html: nat -> Attempt, plain: nat -> Attempt): (r: ChunkResult)
    ensures r == AsHtml <==> Retry(html, DefaultRetries, false).Sent?
    ensures r == Undeliverable ==> IsNetworkError(Retry(html, DefaultRetries, false).err)
    ensures r.Escaped? ==> r.err != Delivered && (r.err == OtherFailure || !IsNetworkError(Retry(html, DefaultRetries, false).err))
  {
    var first := Retry(html, DefaultRetries, false);
    if first.Sent? then AsHtml
    else if IsNetworkError(first.err) then
      var second := Retry(plain, DefaultRetries, false);
      if second.Sent? then AsPlain
      else if IsNetworkError(second.err) then Undeliverable
      else Escaped(second.err)
    else if plain(0) == Delivered then AsPlain
    else Escaped(plain(0))
  }
}
