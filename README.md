# retry-async-action in Dafny

A model of `retryAsyncAction`, the library's only entry point. It calls an
asynchronous action and retries it with a caller-supplied list of timeouts.
After each call it asks `stopWhen` whether to stop. It returns the value of
the call that stopped the run, or `fallback` after a rejection, or the last
fulfilled value when the timeouts run out.

- `retry_types.dfy` (module `RetryTypes`) holds the options object
  `RetryParams` with its defaults (`Resolve`), and the outcome of one call
  (`Fulfilled` / `Rejected`). It also holds the events a run produces:
  `Invoke(n)` for the n-th action call, `Consult(n)` for a call of
  `stopWhen` with `actionCallNumber == n`, and `Wait(ms)` for a timer wait.
- `retry_generator.dfy` (module `Generator`) models `createRetryGenerator`
  as the class `RetryGenerator`. It keeps the count of yields so far, and its
  `Next` method resumes the generator. `WaitBefore` says which wait happens
  before each yield.
- `retry_executor.dfy` (module `Executor`) has the executor loop as the
  method `RetryAsyncAction`. It keeps the mutable `data` and
  `actionCallNumber` and draws from a `RetryGenerator`. `CallAction` is the
  `try`/`catch` body. `CallAction` is verified against the step functions
  `Attempt`, `Ends` and `EndValue`. `RunFrom` is built from those step
  functions, and `RetryAsyncAction` is verified against `RunFrom`/`Retry`. That
  recursive function takes one step per loop iteration and returns the
  result, the number of calls and the event trace.
- `retry_properties.dfy` (module `RetryProperties`) states what a run
  guarantees. It uses reference definitions that look at the whole run:
  `LastFulfilled` (the most recent fulfilled value, else `fallback`) and
  `Segments` (the events of calls 1..k laid end to end). `Invocations`,
  `Consults`, `Waits` and `NonZero` filter traces and timeout lists. `RetryCharacterized`
  shows that these conditions determine the run completely. The other lemmas
  derive the listed properties from it.

Outside inputs are parameters:
- The action is an oracle from the 1-based call number to its outcome. The
  executor asks for each call number once, so every sequence of outcomes a
  stateful action can produce is one such oracle.
- `stopWhen` is an optional total function of the outcome and the call
  number. The source invokes it as `stopWhen?.(…)`, so an absent policy
  answers `undefined`, which counts as "continue".
- The timer is the `Wait` event.

Running out of timeouts returns `data` (src/lib/index.ts:52), which holds the
last fulfilled value, not `fallback`.

## Model

| member | source | states |
|---|---|---|
| `RetryTypes.Resolve` | src/lib/index.ts:20-35 | Fills in the parameter defaults: omitted `timeouts` become the empty list (the generator's parameter default) and omitted `retryOnReject` becomes true (the destructuring default). `stopWhen` and `fallback` pass through unchanged. |
| `Generator.RetryGenerator.constructor` | src/lib/index.ts:20 | A new generator has yielded nothing yet, over the given timeouts. |
| `Generator.RetryGenerator.Next` | src/lib/index.ts:20-31 | The first resumption yields with no wait. Resumption k (k ≥ 1) waits `timeouts[k-1]`, skips the wait when that timeout is 0, and yields. After \|timeouts\| + 1 yields the generator is done and waits no more. |
| `Executor.CallAction` | src/lib/index.ts:41-48 | One loop body for call k. It emits `Invoke(k)`. It emits `Consult(k)` exactly when `stopWhen` exists and the call fulfilled or `retryOnReject` holds (the `\|\|` short-circuits). It returns exactly when the call ends the loop: the fulfilled value or `fallback`, never an older `data`. Otherwise it continues, and `data` is the new value on fulfilment and unchanged on rejection. |
| `Executor.RetryAsyncAction` | src/lib/index.ts:33-53 | The loop over `data`, `actionCallNumber` and the generator returns `Retry`'s result and produces `Retry`'s event trace for the resolved parameters. |
| `RetryProperties.RetryCharacterized` | src/lib/index.ts:37-52 | A run makes between 1 and \|timeouts\|+1 calls. No call before the last one ends the loop. If the last call is within the timeouts, it ends the loop. The result is that call's end value if it ends the loop, else the last fulfilled value. The trace is the events of calls 1..calls. |
| `RetryProperties.CallNumbersConsecutive` | src/lib/index.ts:38-42 | The action is called at most \|timeouts\| + 1 times. The call numbers are 1, 2, …, calls in order, with no gap. |
| `RetryProperties.AllRejectedNeverStopped` | src/lib/index.ts:20-31 | If every call rejects, `retryOnReject` is true and `stopWhen` never says stop, there are exactly \|timeouts\| + 1 calls and the result is `fallback`. |
| `RetryProperties.EmptyTimeoutsCallOnce` | src/lib/index.ts:20-23 | With no timeouts the action is called exactly once, with no wait, whatever it returns and whatever `stopWhen` answers. The result is its value or `fallback`. |
| `RetryProperties.FulfilledAndStopped` | src/lib/index.ts:43-45 | A reached call that fulfils and that `stopWhen` accepts is the last call, and its value is the result. |
| `RetryProperties.RejectedWithoutRetry` | src/lib/index.ts:47 | A reached call that rejects while `retryOnReject` is false is the last call and the result is `fallback`. `stopWhen` is never called for it. |
| `RetryProperties.RejectedAndStopped` | src/lib/index.ts:47 | A reached call that rejects and that `stopWhen` accepts is the last call. The result is `fallback`, even if an earlier call fulfilled. |
| `RetryProperties.StopsAtCallNumber` | src/lib/index.ts:40-48 | With rejections retried and `stopWhen` true first at call m (whatever it would answer later), the action is called exactly m times and the result is call m's end value. |
| `RetryProperties.Exhausted` | src/lib/index.ts:40-52 | If no call ends the loop, all \|timeouts\| + 1 calls are made and the result is the last fulfilled value. |
| `RetryProperties.LatestFulfilledWins` | src/lib/index.ts:43 | The reference function `LastFulfilled` after calls 1..k is the value of the latest fulfilled call; later rejections do not change it. `RunFromResult` and `RetryCharacterized` tie the executor's `data` to `LastFulfilled`. |
| `RetryProperties.NoFulfilledGivesFallback` | src/lib/index.ts:37 | If no call among 1..k fulfilled, `LastFulfilled` (and so the executor's `data`) is still `fallback`. |
| `RetryProperties.StopWhenCalls` | src/lib/index.ts:45-47 | `stopWhen` is called for call j exactly when the run reaches j and the call fulfilled or `retryOnReject` holds. Each such call directly follows action call j, so it sees `actionCallNumber == j`. |
| `RetryProperties.StopWhenCallNumbers` | src/lib/index.ts:42-47 | The call numbers passed to `stopWhen` over a run are 1, 2, …, m in order, each exactly once. m is 0 without a `stopWhen`. m is the number of calls less one when the last call rejected with `retryOnReject` false. Otherwise m is the number of calls. |
| `RetryProperties.WaitSchedule` | src/lib/index.ts:21-29 | The first event of every run is action call 1, so no wait comes first. The waits of a run are exactly the non-zero timeouts among the first calls − 1, in order. |
| `RetryProperties.WaitBeforeRetry` | src/lib/index.ts:23-29 | Right after the events of call k comes `Wait(timeouts[k-1])` and then call k + 1 when that timeout is non-zero. When the timeout is 0, call k + 1 comes directly. |

## Left out

- Promise, `async`/`await` and `for await` scheduling, and the real
  duration of `setTimeout` (src/lib/index.ts:27-29). A wait is an abstract
  `Wait(ms)` event; wall-clock time and interleaving with other host work
  are not modelled.
- Exceptions thrown by `stopWhen` itself. On the fulfilled branch the
  `catch` would treat one as a rejection; on the rejected branch it would
  propagate. The model treats `stopWhen` as a total pure function.
- Timeouts that are not integers (fractions, `NaN`, `Infinity`). Timeouts
  are `int`. Only the test `time === 0` matters to the core, so a negative
  timeout gives a `Wait` event just as `setTimeout` is still called for it.
- Lazy or unbounded timeout iterables. `timeouts` is typed `number[]`
  (src/lib/index.ts:10), so it is a finite sequence.
- RetryTypes.Resolve, Generator.RetryGenerator: the model takes the value of
  the caller's `timeouts` array once, when the executor is called. The
  source iterates the caller's live array (src/lib/index.ts:23), and an
  array iterator re-reads its length and elements at every step. So an
  action or `stopWhen` that holds the same array and changes it during a run
  changes the number of retries and the waits; one that pushes on every
  call makes the run endless. The model does not capture such aliasing.
- Generator.RetryGenerator.Next: does not return the yielded value, since
  it is always the same action.
- The action's argument list. The library's action takes no argument
  (src/lib/index.ts:34). The call number only indexes the outcome oracle.
- A fulfilled value of `undefined` and an absent `fallback` are both
  `undefined` in JavaScript. The model tells them apart as `Some(…)` and
  `None`.
- src/examples.ts is not part of this model. It is a console demo that
  uses `onResolve`/`onReject` options and a call-number argument, which
  src/lib/index.ts does not implement. src/lib/index.test.ts is used only
  as evidence for the properties.
