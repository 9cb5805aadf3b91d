# Escalating retry loop for awaiting a process exit

A Dafny model of the process-waiting primitive in
`core/src/main/kotlin/cc/unitmesh/devti/sketch/run/ProcessUtil.kt`:

- `Attempt<T>` (module `Attempts`, `attempts.dfy`): the result of one probe, a
  value or the "try again" marker. The marker is its own variant, so no payload
  can be taken for it.
- `loopInterruptible` (module `RetryLoop`, `retry_loop.dfy`): probe with
  timeout `10 ms * attempt` for attempts 0 to 99 and return the first value;
  if every attempt says "try again", probe once more with the infinite
  timeout and unwrap that result. `Run` is a recursive reference definition of
  one run (its outcome and the log of the timeouts of the probe calls whose
  results the loop received), and
  `LoopInterruptible` is the loop itself, proved equal to `Run`. The lemmas
  about `Run` state the schedule, the early return, the escalation to the
  unbounded wait and cancellation.
- `Process.awaitExit` (module `ProcessExit`, `process_exit.dfy`): the probe that
  waits for the process (unbounded: always the exit code; bounded: the exit
  code if the process exited in time, "try again" otherwise), and the proof
  that awaiting a process yields its exit code on either path.
- Durations (module `Durations`, `durations.dfy`) are whole nanoseconds or
  infinite.

Inputs the code takes from its environment are parameters:

- The probe is a total function from timeout to `Attempt`. Every call of one
  run has a different timeout (0, 10, ..., 990 ms, then infinite), so a
  function of the timeout can describe any sequence of answers the loop can
  observe.
- A process is its exit code plus an oracle `exitsWithin` that answers the
  bounded `waitFor(timeout)`. The unbounded `waitFor()` and `exitValue()` both
  give the exit code.
- Cancellation of the enclosing coroutine is a parameter `Cancellation`: either
  `Never`, or `AtCall(i)`. `AtCall(i)` means the cancellation reaches the loop
  while probe call `i` is pending, before it starts or while it blocks. That
  call's result is discarded and not logged, the run ends `Cancelled` and no further call is
  started.
- The final `result.get()` on a "try again" fails its `check` with an
  `IllegalStateException`. The model gives that path its own outcome,
  `IllegalState`. The doc comment says the last iteration is not allowed to
  return `tryAgain` (ProcessUtil.kt:45); the code checks this at run time with
  `check`, and the model follows the code.

## Model

| member | source | states |
|---|---|---|
| `Attempts.Success` | core/src/main/kotlin/cc/unitmesh/devti/sketch/run/ProcessUtil.kt:66-79 | an attempt made with any value `v` reports success, and `get` on it returns `v` |
| `Attempts.TryAgain` | core/src/main/kotlin/cc/unitmesh/devti/sketch/run/ProcessUtil.kt:81-86 | the try-again attempt never reports success |
| `Attempts.Attempt.IsSuccess` | core/src/main/kotlin/cc/unitmesh/devti/sketch/run/ProcessUtil.kt:66-68 | true exactly for an attempt that carries a value, that is, one that is not the try-again marker |
| `Attempts.Attempt.Get` | core/src/main/kotlin/cc/unitmesh/devti/sketch/run/ProcessUtil.kt:70-73 | `get` may only be called on a successful attempt (the `check`) and returns the value the attempt was made with |
| `RetryLoop.Run` | core/src/main/kotlin/cc/unitmesh/devti/sketch/run/ProcessUtil.kt:47-61 | a run from call `call` makes at most one call per remaining slot of the 101-slot schedule, and ends cancelled only at the call the cancellation reached |
| `RetryLoop.RunShape` | core/src/main/kotlin/cc/unitmesh/devti/sketch/run/ProcessUtil.kt:47-61 | every call follows the schedule, every call but the last was answered "try again", a returned value is the last call's value, and the state check fails only on a "try again" from the unbounded call |
| `RetryLoop.LoopInterruptible` | core/src/main/kotlin/cc/unitmesh/devti/sketch/run/ProcessUtil.kt:47-61 | the loop's result and the timeouts it probed with are exactly those of the reference run |
| `RetryLoop.ScheduleOfRun` | core/src/main/kotlin/cc/unitmesh/devti/sketch/run/ProcessUtil.kt:34-50 | the first timeout is zero, bounded call `i` gets `i * 10 ms`, bounded timeouts grow strictly by the step and stay under 1 s, and the infinite timeout is used only by call 100, which is then the last |
| `RetryLoop.FirstSuccessFrom` | core/src/main/kotlin/cc/unitmesh/devti/sketch/run/ProcessUtil.kt:48-54 | from any starting call, the first bounded success at call `k` ends the run with its value after exactly the calls up to `k` |
| `RetryLoop.EarlyReturn` | core/src/main/kotlin/cc/unitmesh/devti/sketch/run/ProcessUtil.kt:48-54 | if bounded call `k` is the first success and no cancellation reaches call `k`, the loop returns its value after exactly `k + 1` calls and never waits without a bound |
| `RetryLoop.ExhaustedFrom` | core/src/main/kotlin/cc/unitmesh/devti/sketch/run/ProcessUtil.kt:48-60 | from any starting call, when every remaining bounded call says "try again", the run ends with the one unbounded call and its unwrapped result |
| `RetryLoop.Escalation` | core/src/main/kotlin/cc/unitmesh/devti/sketch/run/ProcessUtil.kt:48-60 | if all 100 bounded calls say "try again" and no cancellation reaches call 100, exactly one more call is made, with the infinite timeout, as the last of 101; its value is returned, and a "try again" from it fails the state check |
| `RetryLoop.CancellationFrom` | core/src/main/kotlin/cc/unitmesh/devti/sketch/run/ProcessUtil.kt:48-58 | from any starting call, cancellation reaching call `c` before any success ends the run cancelled: the results of exactly the calls before `c` are received, none from call `c` on, and no call after `c` is started |
| `RetryLoop.CancellationStops` | core/src/main/kotlin/cc/unitmesh/devti/sketch/run/ProcessUtil.kt:48-58 | cancellation reaching call `c` before any success ends the loop cancelled with the results of exactly `c` calls received, none from call `c` on, no call after `c` started, and no unbounded wait completed |
| `ProcessExit.ExitProbe` | core/src/main/kotlin/cc/unitmesh/devti/sketch/run/ProcessUtil.kt:18-29 | the unbounded probe always succeeds; a bounded probe succeeds exactly when the process exited within the timeout; a success carries the exit code |
| `ProcessExit.AwaitExit` | core/src/main/kotlin/cc/unitmesh/devti/sketch/run/ProcessUtil.kt:17-30 | awaiting a process yields its exit code unless cancelled, never fails the state check, and runs the loop with the exit probe |
| `ProcessExit.ExitWithinBoundedBudget` | core/src/main/kotlin/cc/unitmesh/devti/sketch/run/ProcessUtil.kt:17-30 | a process first seen to exit by bounded wait `k`, with no cancellation reaching call `k`, is reported with its exit code after exactly `k + 1` bounded waits, without the unbounded wait |
| `ProcessExit.ExitAfterBoundedBudget` | core/src/main/kotlin/cc/unitmesh/devti/sketch/run/ProcessUtil.kt:17-30 | a process that outlives all 100 bounded waits, with no cancellation reaching call 100, is reported with its exit code by the single unbounded wait, call 100 |

## Left out

- The dispatchers (`Dispatchers.IO`, `blockingDispatcher` and its parallelism limit) and which call runs on which of them. They only isolate thread pools, which is concurrency.
- Interruption of a blocked thread by `runInterruptible` and coroutine cancellation semantics. The model reduces them to the `Cancellation` parameter: the loop stops and starts no further call.
- A probe call interrupted by cancellation while it blocks is not recorded in the log of timeouts: the log holds only the calls whose results the loop received.
- Exceptions raised by the probe itself (for instance a failing `waitFor`). Probes are total functions here. In the code such an exception propagates unchanged and is never turned into a retry.
- The reference-identity sentinel (`ObjectUtils.sentinel` compared with `!==`). It is replaced by a separate datatype variant.
- The `kotlin.time.Duration` API beyond whole nanoseconds: saturation, units and conversion. No timeout of the schedule comes near the range where they matter.
- Real time passing between calls. Whether a bounded wait sees the exit is an oracle per timeout, not a clock.
- `core/src/main/kotlin/cc/unitmesh/devti/actions/chat/ChatWithThisAction.kt`, `core/src/main/kotlin/cc/unitmesh/devti/provider/FrameworkConfigProvider.kt` and `core/src/main/kotlin/cc/unitmesh/devti/sketch/SketchToolchainProvider.kt` are not part of this model. They are IDE glue and registry lookups with no logic of their own.
