/** The strategy of the accrual requests: the delay follows the service's rate limit. */
module Adaptive {
  import opened Repeater

  /** Failures of one attempt; `OtherError` stands for all that are not retriable. */
  datatype AttemptError =
    | NotFound
    | InProcessing
    | TooManyRequests(retryAfter: int)
    | StillProcessing
    | OtherError

  predicate IsRetriable(e: AttemptError) {
    e.NotFound? || e.InProcessing? || e.TooManyRequests? || e.StillProcessing?
  }

  const SECOND: int := 1_000_000_000
  const MAX_DELAY: int := 30 * SECOND

  /** The field `lastDelay` after `Retriable(e)`. */
  function NextDelay(baseDelay: int, maxDelay: int, lastDelay: int, e: AttemptError): int {
    match e
    case TooManyRequests(retryAfter) =>
      var delay := if retryAfter <= 0 then baseDelay else retryAfter;
      if delay > maxDelay then maxDelay else delay
    case OtherError => lastDelay
    case _ => 0
  }

  function CurrentDelay(baseDelay: int, lastDelay: int): int {
    if lastDelay > 0 then lastDelay else baseDelay
  }

  /** The strategy object, whose `Retriable` leaves the delay for `Delay` to find. */
  class AdaptiveStrategy {
    const baseDelay: int
    const maxDelay: int
    const attempts: nat
    var lastDelay: int

    constructor (baseDelay: int, attempts: nat)
      ensures this.baseDelay == baseDelay && this.attempts == attempts && lastDelay == 0
      ensures maxDelay == MAX_DELAY == 30_000_000_000
    {
      this.baseDelay, this.maxDelay, this.attempts, this.lastDelay := baseDelay, MAX_DELAY, attempts, 0;
    }

    method Retriable(e: AttemptError) returns (r: bool)
      modifies this
      ensures r <==> !e.OtherError?
      ensures e.TooManyRequests? ==>
        var asked := if e.retryAfter > 0 then e.retryAfter else baseDelay;
        lastDelay <= asked && lastDelay <= maxDelay && (lastDelay == asked || lastDelay == maxDelay)
      ensures e.NotFound? || e.InProcessing? || e.StillProcessing? ==> lastDelay == 0
      ensures e.OtherError? ==> lastDelay == old(lastDelay)
      ensures r == IsRetriable(e) && lastDelay == NextDelay(baseDelay, maxDelay, old(lastDelay), e)
    {
      if !(e.NotFound? || e.InProcessing? || e.TooManyRequests? || e.StillProcessing?) {
        return false;
      }
      if e.TooManyRequests? {
        var delay := e.retryAfter;
        if delay <= 0 {
          delay := baseDelay;
        }
        if delay > maxDelay {
          delay := maxDelay;
        }
        lastDelay := delay;
        return true;
      }
      lastDelay := 0;
      return true;
    }

    method Delay(iter: pos) returns (d: int)
      ensures lastDelay > 0 ==> d == lastDelay
      ensures lastDelay <= 0 ==> d == baseDelay
      ensures d == CurrentDelay(baseDelay, lastDelay)
    {
      if lastDelay > 0 {
        return lastDelay;
      }
      return baseDelay;
    }
  }

  /** The same strategy as the retry loop sees it. */
  function AdaptiveStrategyOf(baseDelay: int, maxDelay: int, attempts: nat): Strategy<int, AttemptError> {
    Strategy(attempts,
             (e: AttemptError) => IsRetriable(e),
             (lastDelay: int, e: AttemptError) => NextDelay(baseDelay, maxDelay, lastDelay, e),
             (lastDelay: int, iter: pos) => CurrentDelay(baseDelay, lastDelay))
  }

  /** The wait after a retriable failure, in terms of the failure alone: what a rate limit asks
      for, up to the maximum, and the base delay after everything else. */
  function WaitFor(baseDelay: int, maxDelay: int, e: AttemptError): (wait: int)
    ensures e.TooManyRequests? && 0 < e.retryAfter <= maxDelay ==> wait == e.retryAfter
    ensures e.TooManyRequests? && e.retryAfter > maxDelay > 0 ==> wait == maxDelay
    ensures !e.TooManyRequests? || e.retryAfter <= 0 ==> wait == baseDelay
  {
    if e.TooManyRequests? && e.retryAfter > 0 then
      if e.retryAfter < maxDelay then e.retryAfter else maxDelay
    else baseDelay
  }

  /** Over a whole run, every wait depends only on the failure just before it: the rate limit
      up to the maximum, or the base delay. It is positive and at most the maximum. */
  lemma AdaptiveWaits<V>(baseDelay: int, maxDelay: int, attempts: nat, last: int,
                         outcomes: seq<Outcome<V, AttemptError>>, k: nat)
    requires 0 < baseDelay <= maxDelay && k < |outcomes|
    requires outcomes[k].error.Some? && !outcomes[k].error.value.OtherError?
    ensures var wait := DelayAfter(AdaptiveStrategyOf(baseDelay, maxDelay, attempts), last, outcomes, k);
      wait == WaitFor(baseDelay, maxDelay, outcomes[k].error.value) && 0 < wait <= maxDelay
  {
    var st := AdaptiveStrategyOf(baseDelay, maxDelay, attempts);
    assert StateAt(st, last, outcomes, k + 1)
        == NextDelay(baseDelay, maxDelay, StateAt(st, last, outcomes, k), outcomes[k].error.value);
  }

  /** Every possible wait lies in (0, maxDelay] exactly when the base delay does. */
  lemma WaitsBoundedExactly(baseDelay: int, maxDelay: int)
    ensures (forall e: AttemptError, last: int :: !e.OtherError? ==>
               0 < CurrentDelay(baseDelay, NextDelay(baseDelay, maxDelay, last, e)) <= maxDelay)
       <==> 0 < baseDelay <= maxDelay
  {
    assert CurrentDelay(baseDelay, NextDelay(baseDelay, maxDelay, 0, StillProcessing)) == baseDelay;
  }

  /** A cancellation seen in any wait ends even the unbounded loop: the loop retries exactly
      the retriable failures whose wait is not cancelled, and calls nothing after another. */
  lemma CancellationEndsLoop<V>(baseDelay: int, maxDelay: int, attempts: nat, last: int,
                                outcomes: seq<Outcome<V, AttemptError>>, calls: nat, end: End<V, AttemptError>, k: nat)
    requires 0 < baseDelay <= maxDelay
    requires Stops(AdaptiveStrategyOf(baseDelay, maxDelay, attempts), last, outcomes, calls, end)
    requires k < calls && outcomes[k].error.Some? && !outcomes[k].error.value.OtherError? && outcomes[k].cancelled
    ensures calls == k + 1 && end == Cancelled
  {
    AdaptiveWaits(baseDelay, maxDelay, attempts, last, outcomes, k);
    assert !Retried(AdaptiveStrategyOf(baseDelay, maxDelay, attempts), last, outcomes, k);
  }

  /** With the strategy that `processOrder` uses, the loop makes another call after every failure
      but `OtherError` whose wait is not cancelled, and after no other outcome. It waits a second,
      or what a rate limit asks for up to half a minute. Times are in nanoseconds. */
  lemma ProcessOrderRetries<V>(outcomes: seq<Outcome<V, AttemptError>>, k: nat)
    requires k < |outcomes|
    ensures var (st, error) := (AdaptiveStrategyOf(SECOND, MAX_DELAY, 0), outcomes[k].error);
      var wait := DelayAfter(st, 0, outcomes, k);
      && (Retried(st, 0, outcomes, k) <==> error.Some? && !error.value.OtherError? && !outcomes[k].cancelled)
      && (error.Some? && !error.value.OtherError? ==>
            if !error.value.TooManyRequests? || error.value.retryAfter <= 0 then wait == 1_000_000_000
            else if error.value.retryAfter <= 30_000_000_000 then wait == error.value.retryAfter
            else wait == 30_000_000_000)
  {
    if outcomes[k].error.Some? && !outcomes[k].error.value.OtherError? {
      AdaptiveWaits(SECOND, MAX_DELAY, 0, 0, outcomes, k);
    }
  }
}
