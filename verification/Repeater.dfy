/** The retry loop, against an oracle of outcomes, and its strategies. */
module Repeater {
  import opened Wrappers

  /** What one call of the action returns, and whether the context is done during the wait
      that a retriable failure would lead to. */
  datatype Outcome<+V, +E> = Outcome(value: V, error: Option<E>, cancelled: bool)

  type pos = n: nat | 1 <= n witness 1

  /** A strategy with state `S`: `Retriable` answers and moves to the next state, `Delay` only
      reads it. `attempts == 0` means no limit. */
  datatype Strategy<!S, !E> = Strategy(
    attempts: nat,
    retriable: E -> bool,
    next: (S, E) -> S,
    delay: (S, pos) -> int)

  /** How a run of the loop ends; `Running` when the oracle has no more outcomes. */
  datatype End<+V, +E> =
    | Succeeded(value: V)
    | NotRetriable(error: E)
    | Cancelled
    | AttemptsUsed(value: V, error: E)
    | Running

  /** The strategy's state before call `k` of the action. */
  function StateAt<S, V, E>(st: Strategy<S, E>, s0: S, outcomes: seq<Outcome<V, E>>, k: nat): S
    requires k <= |outcomes|
  {
    if k == 0 then s0
    else
      var s := StateAt(st, s0, outcomes, k - 1);
      match outcomes[k - 1].error
      case None => s
      case Some(e) => st.next(s, e)
  }

  /** The delay the strategy asks for after call `k`. */
  function DelayAfter<S, V, E>(st: Strategy<S, E>, s0: S, outcomes: seq<Outcome<V, E>>, k: nat): int
    requires k < |outcomes|
  {
    st.delay(StateAt(st, s0, outcomes, k + 1), k + 1)
  }

  /** Call `k` fails, may be retried, and no cancellation is observed in the wait after it. */
  predicate Retried<S, V, E>(st: Strategy<S, E>, s0: S, outcomes: seq<Outcome<V, E>>, k: nat)
    requires k < |outcomes|
  {
    && outcomes[k].error.Some? && st.retriable(outcomes[k].error.value)
    && !(DelayAfter(st, s0, outcomes, k) > 0 && outcomes[k].cancelled)
  }

  /** What the loop returns when its last call is `k`. */
  function EndAt<S, V, E>(st: Strategy<S, E>, s0: S, outcomes: seq<Outcome<V, E>>, k: nat): End<V, E>
    requires k < |outcomes|
  {
    match outcomes[k].error
    case None => Succeeded(outcomes[k].value)
    case Some(e) =>
      if !st.retriable(e) then NotRetriable(e)
      else if !Retried(st, s0, outcomes, k) then Cancelled
      else AttemptsUsed(outcomes[k].value, e)
  }

  /** The time spent in the waits after the first `n` calls, all of them completed. */
  function Slept<S, V, E>(st: Strategy<S, E>, s0: S, outcomes: seq<Outcome<V, E>>, n: nat): int
    requires n <= |outcomes|
  {
    if n == 0 then 0
    else
      var d := DelayAfter(st, s0, outcomes, n - 1);
      Slept(st, s0, outcomes, n - 1) + (if d > 0 then d else 0)
  }

  /** Every handler, in order, for one error. */
  function HandlersFor<E>(handlers: nat, e: E): (log: seq<(nat, E)>)
    ensures |log| == handlers
    ensures forall j :: 0 <= j < handlers ==> log[j] == (j, e)
  {
    seq(handlers, (j: nat) => (j, e))
  }

  /** Every handler once per failed call, call by call. */
  function HandlerLog<V, E>(handlers: nat, outcomes: seq<Outcome<V, E>>): seq<(nat, E)> {
    if outcomes == [] then []
    else
      var last := outcomes[|outcomes| - 1];
      HandlerLog(handlers, outcomes[..|outcomes| - 1])
      + (if last.error.Some? then HandlersFor(handlers, last.error.value) else [])
  }

  /** Where the loop stops: all calls before the last are retried, and the last one succeeds,
      fails for good, meets a cancellation or uses up the attempts. */
  ghost predicate Stops<S, V, E>(st: Strategy<S, E>, s0: S, outcomes: seq<Outcome<V, E>>, calls: nat, end: End<V, E>) {
    && calls <= |outcomes|
    && (st.attempts > 0 ==> calls <= st.attempts)
    && (forall k :: 0 <= k < calls - 1 ==> Retried(st, s0, outcomes, k))
    && (end.Running? ==>
          && calls == |outcomes| && (st.attempts > 0 ==> calls < st.attempts)
          && (calls > 0 ==> Retried(st, s0, outcomes, calls - 1)))
    && (!end.Running? ==>
          && calls > 0 && end == EndAt(st, s0, outcomes, calls - 1)
          && (end.AttemptsUsed? ==> calls == st.attempts))
  }

  /** Calls every error handler, in order. */
  method CallHandlers<E>(handlers: nat, e: E) returns (log: seq<(nat, E)>)
    ensures log == HandlersFor(handlers, e)
  {
    log := [];
    for h := 0 to handlers
      invariant log == HandlersFor(handlers, e)[..h]
    {
      log := log + [(h, e)];
    }
  }

  /** `Repeat`. It also reports the strategy's final state, the calls of the `handlers` error
      handlers and the time slept. */
  method Repeat<S, V, E>(st: Strategy<S, E>, s0: S, handlers: nat, outcomes: seq<Outcome<V, E>>)
      returns (calls: nat, end: End<V, E>, s: S, handled: seq<(nat, E)>, slept: int)
    ensures Stops(st, s0, outcomes, calls, end)
    ensures s == StateAt(st, s0, outcomes, calls)
    ensures handled == HandlerLog(handlers, outcomes[..calls])
    ensures slept == Slept(st, s0, outcomes,
                           if end.Cancelled? || end.NotRetriable? || end.Succeeded? then calls - 1 else calls)
  {
    calls, end, s, handled, slept := 0, Running, s0, [], 0;
    var infinity := st.attempts == 0;
    while infinity || calls + 1 <= st.attempts
      invariant calls <= |outcomes|
      invariant st.attempts > 0 ==> calls <= st.attempts
      invariant forall k :: 0 <= k < calls ==> Retried(st, s0, outcomes, k)
      invariant s == StateAt(st, s0, outcomes, calls)
      invariant handled == HandlerLog(handlers, outcomes[..calls])
      invariant slept == Slept(st, s0, outcomes, calls)
      invariant calls == 0 ==> end == Running
      invariant calls > 0 ==> end.AttemptsUsed? && end == EndAt(st, s0, outcomes, calls - 1)
      decreases |outcomes| - calls
    {
      if calls == |outcomes| {
        return calls, Running, s, handled, slept;
      }
      var outcome := outcomes[calls];
      assert outcomes[..calls + 1][..calls] == outcomes[..calls];
      calls := calls + 1;
      if outcome.error.None? {
        return calls, Succeeded(outcome.value), s, handled, slept;
      }
      var err := outcome.error.value;
      var log := CallHandlers(handlers, err);
      handled := handled + log;
      s := st.next(s, err);
      if !st.retriable(err) {
        return calls, NotRetriable(err), s, handled, slept;
      }
      var d := st.delay(s, calls);
      assert d == DelayAfter(st, s0, outcomes, calls - 1);
      if d > 0 {
        if outcome.cancelled {
          return calls, Cancelled, s, handled, slept;
        }
        slept := slept + d;
      }
      end := AttemptsUsed(outcome.value, err);
    }
  }

  // ----- what the specification means -----

  /** The loop ended there, outcome by outcome. Every call but the last failed with an error that
      may be retried and whose wait was completed; a wait of no time is never cancelled. The last
      call succeeded, or failed with an error that may not be retried, or was cancelled in its
      wait, or was the last attempt; then its value and error are the result. Only a loop that
      may go on and has no further outcome is still running. */
  lemma StopsMeaning<S, V, E>(st: Strategy<S, E>, s0: S, outcomes: seq<Outcome<V, E>>, calls: nat, end: End<V, E>)
    requires Stops(st, s0, outcomes, calls, end)
    ensures calls <= |outcomes|
    ensures forall k :: 0 <= k < calls && (k < calls - 1 || end.Running? || end.AttemptsUsed?) ==>
              && outcomes[k].error.Some? && st.retriable(outcomes[k].error.value)
              && (outcomes[k].cancelled ==> st.delay(StateAt(st, s0, outcomes, k + 1), k + 1) <= 0)
    ensures end.Running? ==> calls == |outcomes| && (st.attempts == 0 || calls < st.attempts)
    ensures !end.Running? ==> calls > 0
    ensures end.Succeeded? <==> !end.Running? && outcomes[calls - 1].error.None?
    ensures end.Succeeded? ==> end.value == outcomes[calls - 1].value
    ensures end.NotRetriable? <==>
              !end.Running? && outcomes[calls - 1].error.Some? && !st.retriable(outcomes[calls - 1].error.value)
    ensures end.NotRetriable? ==> Some(end.error) == outcomes[calls - 1].error
    ensures end.Cancelled? ==>
              && outcomes[calls - 1].error.Some? && st.retriable(outcomes[calls - 1].error.value)
              && outcomes[calls - 1].cancelled && st.delay(StateAt(st, s0, outcomes, calls), calls) > 0
    ensures end.AttemptsUsed? ==>
              && calls == st.attempts && end.value == outcomes[calls - 1].value
              && Some(end.error) == outcomes[calls - 1].error
  {
    if calls > 0 {
      RetriedIsNoEnd(st, s0, outcomes, calls - 1);
    }
    forall k | 0 <= k < calls && (k < calls - 1 || end.Running? || end.AttemptsUsed?)
      ensures && outcomes[k].error.Some? && st.retriable(outcomes[k].error.value)
              && (outcomes[k].cancelled ==> st.delay(StateAt(st, s0, outcomes, k + 1), k + 1) <= 0)
    {
      assert Retried(st, s0, outcomes, k);
    }
  }

  /** The place where the loop stops is unique, so the specification leaves no choice. */
  lemma StopsUnique<S, V, E>(st: Strategy<S, E>, s0: S, outcomes: seq<Outcome<V, E>>,
                             calls: nat, end: End<V, E>, calls': nat, end': End<V, E>)
    requires Stops(st, s0, outcomes, calls, end) && Stops(st, s0, outcomes, calls', end')
    ensures calls == calls' && end == end'
  {
    if calls < calls' {
      StopsNoEarlier(st, s0, outcomes, calls, end, calls', end');
    } else if calls' < calls {
      StopsNoEarlier(st, s0, outcomes, calls', end', calls, end);
    }
  }

  lemma StopsNoEarlier<S, V, E>(st: Strategy<S, E>, s0: S, outcomes: seq<Outcome<V, E>>,
                                calls: nat, end: End<V, E>, calls': nat, end': End<V, E>)
    requires Stops(st, s0, outcomes, calls, end) && Stops(st, s0, outcomes, calls', end')
    ensures calls >= calls'
  {
    if 0 < calls {
      RetriedIsNoEnd(st, s0, outcomes, calls - 1);
    }
  }

  /** A call that is retried ends the loop only by using up the attempts. */
  lemma RetriedIsNoEnd<S, V, E>(st: Strategy<S, E>, s0: S, outcomes: seq<Outcome<V, E>>, k: nat)
    requires k < |outcomes|
    ensures Retried(st, s0, outcomes, k) <==> EndAt(st, s0, outcomes, k).AttemptsUsed?
  {
  }

  /** The number of calls that failed, where all but perhaps the last one did. */
  function Failures<V, E>(outcomes: seq<Outcome<V, E>>): nat {
    if outcomes != [] && outcomes[|outcomes| - 1].error.None? then |outcomes| - 1 else |outcomes|
  }

  lemma {:induction false} HandlerLogLength<V, E>(handlers: nat, outcomes: seq<Outcome<V, E>>)
    requires forall i :: 0 <= i < |outcomes| - 1 ==> outcomes[i].error.Some?
    ensures |HandlerLog(handlers, outcomes)| == Failures(outcomes) * handlers
  {
    if outcomes != [] {
      var n := |outcomes| - 1;
      HandlerLogLength(handlers, outcomes[..n]);
      assert (n + 1) * handlers == n * handlers + handlers;
    }
  }

  /** Where all calls but perhaps the last one fail, as in every run of the loop, entry
      `k * handlers + j` of the log is handler `j` on the error of call `k`, and the log has no
      other entries: each handler once per failed call, in order, and none for a success. */
  lemma {:induction false} HandlerLogOrder<V, E>(handlers: nat, outcomes: seq<Outcome<V, E>>, k: nat, j: nat)
    requires forall i :: 0 <= i < |outcomes| - 1 ==> outcomes[i].error.Some?
    requires k < |outcomes| && outcomes[k].error.Some? && j < handlers
    ensures |HandlerLog(handlers, outcomes)| == Failures(outcomes) * handlers
    ensures k * handlers + j < |HandlerLog(handlers, outcomes)|
    ensures HandlerLog(handlers, outcomes)[k * handlers + j] == (j, outcomes[k].error.value)
  {
    var n := |outcomes| - 1;
    HandlerLogLength(handlers, outcomes);
    HandlerLogLength(handlers, outcomes[..n]);
    assert (n + 1) * handlers == n * handlers + handlers;
    if k < n {
      HandlerLogOrder(handlers, outcomes[..n], k, j);
    }
  }

  // ----- fixed delays -----

  function FixedDelay(delays: seq<int>, iter: pos): int {
    if iter <= |delays| then delays[iter - 1] else 0
  }

  function FixedDelays<E>(isRetriable: E -> bool, delays: seq<int>): Strategy<(), E> {
    Strategy(|delays|, isRetriable, (s: (), e: E) => s, (s: (), iter: pos) => FixedDelay(delays, iter))
  }

  function SumPositive(delays: seq<int>): int {
    if delays == [] then 0
    else
      var d := delays[|delays| - 1];
      SumPositive(delays[..|delays| - 1]) + (if d > 0 then d else 0)
  }

  /** With fixed delays the slept total is the sum of the delays used. */
  lemma {:induction false} FixedSlept<V, E>(isRetriable: E -> bool, delays: seq<int>, outcomes: seq<Outcome<V, E>>,
                                            n: nat)
    requires n <= |outcomes| && n <= |delays|
    ensures Slept(FixedDelays(isRetriable, delays), (), outcomes, n) == SumPositive(delays[..n])
  {
    if n > 0 {
      FixedSlept(isRetriable, delays, outcomes, n - 1);
      assert delays[..n][..n - 1] == delays[..n - 1];
    }
  }

  /** Without delays there is no limit of attempts: however many outcomes there are, the loop
      is still running after all of them exactly when every one is a retriable failure. */
  lemma NoDelaysNoLimit<V, E>(isRetriable: E -> bool, outcomes: seq<Outcome<V, E>>)
    ensures Stops(FixedDelays(isRetriable, []), (), outcomes, |outcomes|, Running) <==>
      forall k :: 0 <= k < |outcomes| ==> outcomes[k].error.Some? && isRetriable(outcomes[k].error.value)
  {
    var st := FixedDelays(isRetriable, []);
    forall k | 0 <= k < |outcomes|
      ensures Retried(st, (), outcomes, k) <==> outcomes[k].error.Some? && isRetriable(outcomes[k].error.value)
    {
      assert DelayAfter(st, (), outcomes, k) == 0;
    }
  }

  /** A fixed strategy with delays always stops: after at most one call per delay. One without
      delays stops only on success or an error it may not retry. */
  lemma FixedStops<V, E>(isRetriable: E -> bool, delays: seq<int>, outcomes: seq<Outcome<V, E>>,
                         calls: nat, end: End<V, E>)
    requires Stops(FixedDelays(isRetriable, delays), (), outcomes, calls, end)
    ensures delays != [] ==> calls <= |delays| && (|outcomes| >= |delays| ==> !end.Running?)
    ensures end.AttemptsUsed? ==> calls == |delays|
    ensures delays == [] ==> end.Succeeded? || end.NotRetriable? || end.Running?
  {
    if !end.Running? && delays == [] {
      assert DelayAfter(FixedDelays(isRetriable, delays), (), outcomes, calls - 1) == 0;
    }
  }
}
