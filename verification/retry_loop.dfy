/** The escalating retry loop: probe with a linearly growing timeout a fixed
    number of times, then wait once without a bound. */
module RetryLoop {
  import opened Durations
  import opened Attempts

  /** Number of bounded attempts before the unbounded wait. */
  const ATTEMPT_COUNT: nat := 100

  /** The step by which each bounded timeout grows: 10 ms, in nanoseconds. */
  const STEP_NANOS: nat := 10_000_000

  /** Upper bound on every bounded timeout: 100 * 10 ms = 1 s. */
  const BOUNDED_BUDGET_NANOS: nat := ATTEMPT_COUNT * STEP_NANOS

  /** The timeout handed to bounded attempt number `attempt`: the step times
      the attempt index. */
  function BoundedTimeout(attempt: nat): Duration {
    Finite(STEP_NANOS * attempt)
  }

  /** The timeout of probe call number `call` in the full schedule: the
      bounded ramp, then the infinite wait. */
  function ScheduledTimeout(call: nat): Duration {
    if call < ATTEMPT_COUNT then BoundedTimeout(call) else Infinite
  }

  /** When the enclosing task's cancellation reaches the loop: never, or while
      the probe call with the given index is pending (before it starts or
      while it blocks). The result of that call, if any, is discarded. */
  datatype Cancellation = Never | AtCall(index: nat)

  /** Cancellation arrives at call `call` or earlier. */
  predicate CancelledBy(cancel: Cancellation, call: nat) {
    cancel.AtCall? && cancel.index <= call
  }

  /** How one run of the loop ends: with a value, with the task's
      cancellation, or with the failed state check on the final result. */
  datatype LoopOutcome<T> = Returned(value: T) | Cancelled | IllegalState

  /** A run of the loop: its outcome and the timeouts of the probe calls
      whose results the loop received, in call order. */
  datatype Trace<T> = Trace(outcome: LoopOutcome<T>, timeouts: seq<Duration>)

  /** Reference definition of the loop from probe call number `call` on. */
  function Run<T>(action: Duration -> Attempt<T>, cancel: Cancellation, call: nat): (t: Trace<T>)
    requires call <= ATTEMPT_COUNT
    decreases ATTEMPT_COUNT - call
    // at most one call per remaining slot of the schedule
    ensures |t.timeouts| <= ATTEMPT_COUNT + 1 - call
    // cancellation ends the run at the call it reached, with no further calls
    ensures t.outcome.Cancelled? ==> cancel == AtCall(call + |t.timeouts|)
  {
    if cancel == AtCall(call) then Trace(Cancelled, [])
    else
      var timeout := ScheduledTimeout(call);
      var result := action(timeout);
      if result.IsSuccess() then Trace(Returned(result.Get()), [timeout])
      else if call == ATTEMPT_COUNT then Trace(IllegalState, [timeout])
      else
        var rest := Run(action, cancel, call + 1);
        Trace(rest.outcome, [timeout] + rest.timeouts)
  }

  /** The shape of every run from call `call` on: the calls follow the
      schedule, all but the last one were answered "try again", a returned
      value is the last call's value, and the state check fails only on a
      "try again" from the unbounded call. */
  lemma {:induction false} RunShape<T>(action: Duration -> Attempt<T>, cancel: Cancellation, call: nat)
    requires call <= ATTEMPT_COUNT
    decreases ATTEMPT_COUNT - call
    ensures var t := Run(action, cancel, call);
      && (forall k :: 0 <= k < |t.timeouts| ==> t.timeouts[k] == ScheduledTimeout(call + k))
      && (forall k :: 0 <= k < |t.timeouts| - 1 ==> action(t.timeouts[k]).TryAgainMarker?)
      && (t.outcome.Returned? ==>
            |t.timeouts| > 0 && action(t.timeouts[|t.timeouts| - 1]) == Value(t.outcome.value))
      && (t.outcome.IllegalState? ==>
            call + |t.timeouts| == ATTEMPT_COUNT + 1 && action(Infinite).TryAgainMarker?)
  {
    if cancel != AtCall(call) && !action(ScheduledTimeout(call)).IsSuccess() && call < ATTEMPT_COUNT {
      RunShape(action, cancel, call + 1);
    }
  }

  /** The logged timeouts start at zero, bounded call `i` waits `i` steps,
      they grow strictly by the step and stay under the one-second budget,
      and the infinite wait appears only as call number ATTEMPT_COUNT, which
      is then the last call. */
  lemma ScheduleOfRun<T>(action: Duration -> Attempt<T>, cancel: Cancellation)
    ensures var log := Run(action, cancel, 0).timeouts;
      && (|log| > 0 ==> log[0] == Finite(0))
      && (forall i :: 0 <= i < |log| && i < ATTEMPT_COUNT ==> log[i] == Finite(i * STEP_NANOS))
      && (forall i, j :: 0 <= i < j < |log| && log[j].Finite? ==>
            log[i].Finite? && log[i].nanos + STEP_NANOS * (j - i) == log[j].nanos)
      && (forall i :: 0 <= i < |log| && log[i].Finite? ==> log[i].nanos < BOUNDED_BUDGET_NANOS)
      && (forall i :: 0 <= i < |log| ==> (log[i].IsInfinite() <==> i == ATTEMPT_COUNT))
      && (Infinite in log ==> log[|log| - 1] == Infinite)
  {
    RunShape(action, cancel, 0);
  }

  /** From call `call` on: if bounded call `k` is the first to succeed and
      cancellation does not reach it, the run returns that call's value after
      exactly the calls `call` .. `k`. */
  lemma {:induction false} FirstSuccessFrom<T>(action: Duration -> Attempt<T>, cancel: Cancellation,
                                               call: nat, k: nat, v: T)
    requires call <= k < ATTEMPT_COUNT
    requires forall j :: call <= j < k ==> !action(BoundedTimeout(j)).IsSuccess()
    requires action(BoundedTimeout(k)) == Value(v)
    requires !CancelledBy(cancel, k)
    decreases k - call
    ensures Run(action, cancel, call).outcome == Returned(v)
    ensures |Run(action, cancel, call).timeouts| == k + 1 - call
  {
    if call < k {
      FirstSuccessFrom(action, cancel, call + 1, k, v);
    }
  }

  /** Early exit: when bounded call `k` is the first to succeed, the loop
      returns its value, the probe was called exactly k + 1 times, and the
      unbounded wait never happened. */
  lemma EarlyReturn<T>(action: Duration -> Attempt<T>, cancel: Cancellation, k: nat, v: T)
    requires k < ATTEMPT_COUNT
    requires forall j :: 0 <= j < k ==> !action(BoundedTimeout(j)).IsSuccess()
    requires action(BoundedTimeout(k)) == Value(v)
    requires !CancelledBy(cancel, k)
    ensures Run(action, cancel, 0).outcome == Returned(v)
    ensures |Run(action, cancel, 0).timeouts| == k + 1
    ensures Infinite !in Run(action, cancel, 0).timeouts
  {
    FirstSuccessFrom(action, cancel, 0, k, v);
    RunShape(action, cancel, 0);
  }

  /** From call `call` on: when every remaining bounded call says "try again"
      and no cancellation arrives, the run ends with the one unbounded call. */
  lemma {:induction false} ExhaustedFrom<T>(action: Duration -> Attempt<T>, cancel: Cancellation, call: nat)
    requires call <= ATTEMPT_COUNT
    requires forall j :: call <= j < ATTEMPT_COUNT ==> !action(BoundedTimeout(j)).IsSuccess()
    requires !CancelledBy(cancel, ATTEMPT_COUNT)
    decreases ATTEMPT_COUNT - call
    ensures |Run(action, cancel, call).timeouts| == ATTEMPT_COUNT + 1 - call
    ensures Run(action, cancel, call).outcome ==
      if action(Infinite).IsSuccess() then Returned(action(Infinite).Get()) else IllegalState
  {
    if call < ATTEMPT_COUNT {
      ExhaustedFrom(action, cancel, call + 1);
    }
  }

  /** Escalation: when all bounded calls say "try again", exactly one more
      call is made, with the infinite timeout, as call number ATTEMPT_COUNT
      and last; its value is returned, and a "try again" from it fails the
      state check. */
  lemma Escalation<T>(action: Duration -> Attempt<T>, cancel: Cancellation)
    requires forall j :: 0 <= j < ATTEMPT_COUNT ==> !action(BoundedTimeout(j)).IsSuccess()
    requires !CancelledBy(cancel, ATTEMPT_COUNT)
    ensures |Run(action, cancel, 0).timeouts| == ATTEMPT_COUNT + 1
    ensures Run(action, cancel, 0).timeouts[ATTEMPT_COUNT] == Infinite
    ensures Run(action, cancel, 0).outcome ==
      if action(Infinite).IsSuccess() then Returned(action(Infinite).Get()) else IllegalState
  {
    ExhaustedFrom(action, cancel, 0);
    RunShape(action, cancel, 0);
  }

  /** From call `call` on: cancellation at call `c`, with no success before
      it, stops the run after calls `call` .. `c - 1`. */
  lemma {:induction false} CancellationFrom<T>(action: Duration -> Attempt<T>, c: nat, call: nat)
    requires call <= c <= ATTEMPT_COUNT
    requires forall j :: call <= j < c ==> !action(BoundedTimeout(j)).IsSuccess()
    decreases c - call
    ensures Run(action, AtCall(c), call).outcome == Cancelled
    ensures |Run(action, AtCall(c), call).timeouts| == c - call
  {
    if call < c {
      CancellationFrom(action, c, call + 1);
    }
  }

  /** Cancellation: when cancellation reaches call `c` before any call
      succeeded, the loop ends cancelled and made exactly `c` calls; in
      particular the unbounded wait is not issued when `c` <= ATTEMPT_COUNT. */
  lemma CancellationStops<T>(action: Duration -> Attempt<T>, c: nat)
    requires c <= ATTEMPT_COUNT
    requires forall j :: 0 <= j < c ==> !action(BoundedTimeout(j)).IsSuccess()
    ensures Run(action, AtCall(c), 0).outcome == Cancelled
    ensures |Run(action, AtCall(c), 0).timeouts| == c
    ensures Infinite !in Run(action, AtCall(c), 0).timeouts
  {
    CancellationFrom(action, c, 0);
    RunShape(action, AtCall(c), 0);
  }

  /** A log of the run's length that follows the schedule is the run's log. */
  lemma LogOfRun<T>(action: Duration -> Attempt<T>, cancel: Cancellation, log: seq<Duration>)
    requires |log| == |Run(action, cancel, 0).timeouts|
    requires forall k :: 0 <= k < |log| ==> log[k] == ScheduledTimeout(k)
    ensures log == Run(action, cancel, 0).timeouts
  {
    RunShape(action, cancel, 0);
  }

  /** The loop itself. `timeouts` records the timeout of each probe call
      whose result the loop received. */
  method LoopInterruptible<T>(action: Duration -> Attempt<T>, cancel: Cancellation)
    returns (r: LoopOutcome<T>, ghost timeouts: seq<Duration>)
    ensures r == Run(action, cancel, 0).outcome
    ensures timeouts == Run(action, cancel, 0).timeouts
  {
    timeouts := [];
    for attempt := 0 to ATTEMPT_COUNT
      invariant |timeouts| == attempt
      invariant forall k :: 0 <= k < attempt ==> timeouts[k] == ScheduledTimeout(k)
      invariant forall k :: 0 <= k < attempt ==> !action(BoundedTimeout(k)).IsSuccess()
      invariant cancel.AtCall? ==> attempt <= cancel.index
    {
      if cancel == AtCall(attempt) {
        r := Cancelled;
        CancellationFrom(action, attempt, 0);
        LogOfRun(action, cancel, timeouts);
        return;
      }
      var timeout := BoundedTimeout(attempt);
      var result := action(timeout);
      timeouts := timeouts + [timeout];
      if result.IsSuccess() {
        r := Returned(result.Get());
        FirstSuccessFrom(action, cancel, 0, attempt, r.value);
        LogOfRun(action, cancel, timeouts);
        return;
      }
    }
    if cancel == AtCall(ATTEMPT_COUNT) {
      r := Cancelled;
      CancellationFrom(action, ATTEMPT_COUNT, 0);
      LogOfRun(action, cancel, timeouts);
      return;
    }
    var result := action(Infinite);
    timeouts := timeouts + [Infinite];
    ExhaustedFrom(action, cancel, 0);
    LogOfRun(action, cancel, timeouts);
    if result.IsSuccess() {
      r := Returned(result.Get());
    } else {
      r := IllegalState;
    }
  }
}
