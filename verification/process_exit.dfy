/** Waiting for an operating-system process to exit by way of the retry
    loop: bounded waits while the schedule lasts, then one unbounded wait. */
module ProcessExit {
  import opened Durations
  import opened Attempts
  import opened RetryLoop

  /** A process as the adapter observes it: the code it exits with, and
      whether a wait bounded by the given number of nanoseconds sees it exit
      (the answer of the bounded `waitFor`). */
  datatype Process = Process(exitCode: int, exitsWithin: nat -> bool)

  /** The probe handed to the loop: an unbounded wait always yields the exit
      code; a bounded wait yields it when the process exited in time, and
      asks for another try otherwise. */
  function ExitProbe(p: Process, timeout: Duration): (a: Attempt<int>)
    ensures timeout.IsInfinite() ==> a.IsSuccess()
    ensures timeout.Finite? ==> (a.IsSuccess() <==> p.exitsWithin(timeout.nanos))
    ensures a.IsSuccess() ==> a.Get() == p.exitCode
  {
    if timeout.IsInfinite() then Success(p.exitCode)
    else if p.exitsWithin(timeout.nanos) then Success(p.exitCode)
    else TryAgain()
  }

  /** `ExitProbe` for a fixed process, as a function of the timeout. */
  function ExitAction(p: Process): Duration -> Attempt<int> {
    timeout => ExitProbe(p, timeout)
  }

  /** Await the exit of `p`: the result is the process's exit code unless the
      enclosing task is cancelled; the state check on the final result never
      fails. */
  method AwaitExit(p: Process, cancel: Cancellation) returns (r: LoopOutcome<int>, ghost timeouts: seq<Duration>)
    ensures r == Returned(p.exitCode) || (r.Cancelled? && cancel.AtCall?)
    ensures cancel == Never ==> r == Returned(p.exitCode)
    ensures r == Run(ExitAction(p), cancel, 0).outcome
    ensures timeouts == Run(ExitAction(p), cancel, 0).timeouts
  {
    r, timeouts := LoopInterruptible(ExitAction(p), cancel);
    RunShape(ExitAction(p), cancel, 0);
  }

  /** A process that exits within bounded timeout number `k` (and not within
      any earlier one) is reported with its exit code after exactly k + 1
      bounded waits, without the unbounded wait. */
  lemma ExitWithinBoundedBudget(p: Process, cancel: Cancellation, k: nat)
    requires k < ATTEMPT_COUNT
    requires p.exitsWithin(BoundedTimeout(k).nanos)
    requires forall j :: 0 <= j < k ==> !p.exitsWithin(BoundedTimeout(j).nanos)
    requires !CancelledBy(cancel, k)
    ensures Run(ExitAction(p), cancel, 0).outcome == Returned(p.exitCode)
    ensures |Run(ExitAction(p), cancel, 0).timeouts| == k + 1
    ensures Infinite !in Run(ExitAction(p), cancel, 0).timeouts
  {
    EarlyReturn(ExitAction(p), cancel, k, p.exitCode);
  }

  /** A process that outlives every bounded wait is still reported with its
      exit code, by the one unbounded wait that ends the schedule. */
  lemma ExitAfterBoundedBudget(p: Process, cancel: Cancellation)
    requires forall j :: 0 <= j < ATTEMPT_COUNT ==> !p.exitsWithin(BoundedTimeout(j).nanos)
    requires !CancelledBy(cancel, ATTEMPT_COUNT)
    ensures Run(ExitAction(p), cancel, 0).outcome == Returned(p.exitCode)
    ensures |Run(ExitAction(p), cancel, 0).timeouts| == ATTEMPT_COUNT + 1
    ensures Run(ExitAction(p), cancel, 0).timeouts[ATTEMPT_COUNT] == Infinite
  {
    Escalation(ExitAction(p), cancel);
  }
}
