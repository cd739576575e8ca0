/** Values that flow through one call of `retryAsyncAction`: the options
    object with its defaults, the outcome of one action call, and the
    observable events of a run (action calls, stop-policy calls, timer waits). */
module RetryTypes {

  /** A value that may be absent: JavaScript's `undefined` is `None`. */
  datatype Option<T> = None | Some(value: T)

  /** What one awaited call of the action produced. */
  datatype Outcome<T, E> = Fulfilled(data: T) | Rejected(error: E)

  /** The action, seen as an oracle from the 1-based call number to what that
      call produces. The executor consults it once per call number, so any
      sequence of outcomes an external, stateful action can produce is one of
      these functions. */
  type Action<T, E> = nat -> Outcome<T, E>

  /** The `stopWhen` callback: the outcome and the current `actionCallNumber`,
      answering "stop retrying now". */
  type Policy<!T, !E> = (Outcome<T, E>, nat) -> bool

  /** The options object as a caller may pass it: `timeouts`,
      `retryOnReject` and `fallback` are optional fields. `stopWhen` is a
      required field of the declared type, but the executor invokes it
      through `?.`, so an untyped caller that omits it is tolerated and the
      call answers `undefined`, which is falsy; `None` covers that case. */
  datatype RetryParams<!T, !E> = RetryParams(
    stopWhen: Option<Policy<T, E>>,
    timeouts: Option<seq<int>>,
    retryOnReject: Option<bool>,
    fallback: Option<T>)

  /** One call of the executor with every default filled in. */
  datatype Config<!T, !E> = Config(
    action: Action<T, E>,
    stopWhen: Option<Policy<T, E>>,
    timeouts: seq<int>,
    retryOnReject: bool,
    fallback: Option<T>)

  /** Observable events of a run, in the order they happen. */
  datatype Event =
    | Wait(ms: int)              // a `setTimeout` of `ms` before the next yield
    | Invoke(callNumber: nat)    // the action is called for the `callNumber`-th time
    | Consult(callNumber: nat)   // `stopWhen` is called with that `actionCallNumber`

  /** The destructuring defaults of the executor's parameter list:
      `timeouts` defaults to the empty array and `retryOnReject` to true. */
  function Resolve<T, E>(action: Action<T, E>, params: RetryParams<T, E>): (c: Config<T, E>)
    ensures c.action == action && c.stopWhen == params.stopWhen && c.fallback == params.fallback
    ensures params.timeouts == None ==> c.timeouts == []
    ensures params.retryOnReject == None ==> c.retryOnReject
    ensures params.timeouts.Some? ==> c.timeouts == params.timeouts.value
    ensures params.retryOnReject.Some? ==> c.retryOnReject == params.retryOnReject.value
  {
    Config(
      action,
      params.stopWhen,
      match params.timeouts case Some(t) => t case None => [],
      match params.retryOnReject case Some(b) => b case None => true,
      params.fallback)
  }
}
