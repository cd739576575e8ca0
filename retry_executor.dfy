/** `retryAsyncAction`: draws the action from the retry generator, calls it,
    and classifies each outcome against `stopWhen` and `retryOnReject`,
    carrying the last fulfilled value in `data`. */
module Executor {
  import opened RetryTypes
  import opened Generator

  /** The result of one run: the returned value, how many times the action
      was called, and everything observable that happened, in order. */
  datatype Run<T> = Run(result: Option<T>, calls: nat, trace: seq<Event>)

  /** Whether `stopWhen` answers true for call number `k`. */
  predicate Stops<T, E>(c: Config<T, E>, k: nat)
  {
    c.stopWhen.Some? && c.stopWhen.value(c.action(k), k)
  }

  /** Whether `stopWhen` is called for call number `k`: after a fulfilment
      always, after a rejection only when `retryOnReject` holds (the `||`
      short-circuits). */
  predicate Consulted<T, E>(c: Config<T, E>, k: nat)
  {
    c.stopWhen.Some? && (c.action(k).Fulfilled? || c.retryOnReject)
  }

  /** Whether call number `k` ends the loop with an explicit `return`. */
  predicate Ends<T, E>(c: Config<T, E>, k: nat)
  {
    match c.action(k)
    case Fulfilled(_) => Stops(c, k)
    case Rejected(_) => !c.retryOnReject || Stops(c, k)
  }

  /** The value returned when call number `k` ends the loop: the value it
      fulfilled with, or `fallback` after a rejection (never an earlier
      fulfilled `data`). */
  function EndValue<T, E>(c: Config<T, E>, k: nat): Option<T>
  {
    match c.action(k)
    case Fulfilled(d) => Some(d)
    case Rejected(_) => c.fallback
  }

  /** The events of call number `k` itself: the action call, then the
      `stopWhen` call if there is one. */
  function Attempt<T, E>(c: Config<T, E>, k: nat): seq<Event>
  {
    [Invoke(k)] + (if Consulted(c, k) then [Consult(k)] else [])
  }

  /** The rest of a run after `n` calls, with `data` holding the executor's
      `data` variable; one recursion step per loop iteration. */
  function RunFrom<T, E>(c: Config<T, E>, n: nat, data: Option<T>): Run<T>
    requires n <= |c.timeouts| + 1
    decreases |c.timeouts| + 1 - n
  {
    if n == |c.timeouts| + 1 then
      Run(data, n, [])
    else
      var k := n + 1;
      var head := WaitBefore(c.timeouts, n) + Attempt(c, k);
      match c.action(k)
      case Fulfilled(d) =>
        if Stops(c, k) then Run(Some(d), k, head)
        else
          var rest := RunFrom(c, k, Some(d));
          Run(rest.result, rest.calls, head + rest.trace)
      case Rejected(_) =>
        if !c.retryOnReject || Stops(c, k) then Run(c.fallback, k, head)
        else
          var rest := RunFrom(c, k, data);
          Run(rest.result, rest.calls, head + rest.trace)
  }

  /** A whole run: no call made yet and `data` starting as `fallback`. */
  function Retry<T, E>(c: Config<T, E>): Run<T>
  {
    RunFrom(c, 0, c.fallback)
  }

  /** One loop iteration that does not return: the run after `n` calls is
      the events of call `n + 1` followed by the run after `n + 1` calls. */
  lemma RunFromContinues<T, E>(c: Config<T, E>, n: nat, data: Option<T>)
    requires n < |c.timeouts| + 1 && !Ends(c, n + 1)
    ensures var next := if c.action(n + 1).Fulfilled? then Some(c.action(n + 1).data) else data;
      && RunFrom(c, n, data).result == RunFrom(c, n + 1, next).result
      && RunFrom(c, n, data).calls == RunFrom(c, n + 1, next).calls
      && RunFrom(c, n, data).trace
         == WaitBefore(c.timeouts, n) + Attempt(c, n + 1) + RunFrom(c, n + 1, next).trace
  {
  }

  /** One loop iteration that returns: call `n + 1` ends the run, with the
      fulfilled value or with `fallback`. */
  lemma RunFromStops<T, E>(c: Config<T, E>, n: nat, data: Option<T>)
    requires n < |c.timeouts| + 1 && Ends(c, n + 1)
    ensures RunFrom(c, n, data).result == EndValue(c, n + 1)
    ensures RunFrom(c, n, data).calls == n + 1
    ensures RunFrom(c, n, data).trace == WaitBefore(c.timeouts, n) + Attempt(c, n + 1)
  {
  }

  /** Regrouping of the trace, kept as a lemma of its own so that the
      executor's proof does not search for it. */
  lemma Regroup(a: seq<Event>, b: seq<Event>, c: seq<Event>, d: seq<Event>)
    ensures a + (b + c + d) == a + b + c + d
  {
  }

  /** What the body of the loop decides after one action call. */
  datatype Step<T> = Return(value: Option<T>) | Continue(data: Option<T>)

  /** The body of the `try`/`catch` for call number `k`: call the action,
      overwrite `data` on fulfilment, and decide whether to return. A
      rejection never touches `data` and, when `retryOnReject` is false,
      returns `fallback` without calling `stopWhen`. */
  method CallAction<T, E>(c: Config<T, E>, k: nat, data: Option<T>)
    returns (step: Step<T>, ghost events: seq<Event>)
    ensures events == Attempt(c, k)
    ensures step.Return? <==> Ends(c, k)
    ensures step.Return? ==> step.value == EndValue(c, k)
    ensures step.Continue? ==> step.data == match c.action(k)
      case Fulfilled(d) => Some(d)
      case Rejected(_) => data
  {
    events := [Invoke(k)];
    var outcome := c.action(k);
    match outcome {
      case Fulfilled(d) =>
        var stop := false;
        if c.stopWhen.Some? {
          events := events + [Consult(k)];
          stop := c.stopWhen.value(outcome, k);
        }
        step := if stop then Return(Some(d)) else Continue(Some(d));
      case Rejected(_) =>
        if !c.retryOnReject {
          return Return(c.fallback), events;
        }
        var stop := false;
        if c.stopWhen.Some? {
          events := events + [Consult(k)];
          stop := c.stopWhen.value(outcome, k);
        }
        step := if stop then Return(c.fallback) else Continue(data);
    }
  }

  /** The executor. Its result and its trace of action calls, `stopWhen`
      calls and timer waits are those of `Retry`, whose properties are
      proved in module RetryProperties. */
  method RetryAsyncAction<T, E>(action: Action<T, E>, params: RetryParams<T, E>)
    returns (r: Option<T>, ghost trace: seq<Event>)
    ensures r == Retry(Resolve(action, params)).result
    ensures trace == Retry(Resolve(action, params)).trace
  {
    var c := Resolve(action, params);
    var data := c.fallback;
    var actionCallNumber := 0;
    var generator := new RetryGenerator(c.timeouts);
    ghost var whole := Retry(c);
    trace := [];
    while true
      invariant fresh(generator) && generator.Valid() && generator.timeouts == c.timeouts
      invariant generator.yielded == actionCallNumber
      invariant RunFrom(c, actionCallNumber, data).result == whole.result
      invariant trace + RunFrom(c, actionCallNumber, data).trace == whole.trace
      decreases |c.timeouts| + 1 - generator.yielded
    {
      var done;
      ghost var waited, events;
      done, waited := generator.Next();
      if done {
        break;
      }
      ghost var n, before, previous := actionCallNumber, data, trace;
      actionCallNumber := actionCallNumber + 1;
      var step;
      step, events := CallAction(c, actionCallNumber, data);
      trace := trace + waited + events;
      match step {
        case Return(value) =>
          RunFromStops(c, n, before);
          assert trace == whole.trace;
          r := value;
          return;
        case Continue(next) =>
          data := next;
          RunFromContinues(c, n, before);
          Regroup(previous, waited, events, RunFrom(c, actionCallNumber, data).trace);
          assert trace + RunFrom(c, actionCallNumber, data).trace == whole.trace;
      }
    }
    assert RunFrom(c, actionCallNumber, data) == Run(data, actionCallNumber, []);
    r := data;
  }
}
