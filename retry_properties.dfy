/** What a run of `retryAsyncAction` guarantees, stated against reference
    definitions that look at the whole run at once (the last fulfilled value,
    the events of every call laid end to end) rather than loop step by loop
    step, and proved about `Executor.Retry`, the function the executor method
    is verified against. */
module RetryProperties {
  import opened RetryTypes
  import opened Generator
  import opened Executor

  /** The value of the most recent fulfilled call among calls 1..k, or
      `fallback` when none of them fulfilled. */
  function LastFulfilled<T, E>(c: Config<T, E>, k: nat): Option<T>
  {
    if k == 0 then c.fallback
    else match c.action(k)
      case Fulfilled(d) => Some(d)
      case Rejected(_) => LastFulfilled(c, k - 1)
  }

  /** The events of calls 1..k laid end to end, each preceded by the wait the
      generator performs before yielding it. */
  function Segments<T, E>(c: Config<T, E>, k: nat): seq<Event>
    requires k <= |c.timeouts| + 1
  {
    if k == 0 then [] else Segments(c, k - 1) + WaitBefore(c.timeouts, k - 1) + Attempt(c, k)
  }

  /** The call numbers of the action calls in a trace, in order. */
  function Invocations(trace: seq<Event>): seq<nat>
  {
    if trace == [] then []
    else
      var last := trace[|trace| - 1];
      Invocations(trace[..|trace| - 1]) + if last.Invoke? then [last.callNumber] else []
  }

  /** The durations of the timer waits in a trace, in order. */
  function Waits(trace: seq<Event>): seq<int>
  {
    if trace == [] then []
    else
      var last := trace[|trace| - 1];
      Waits(trace[..|trace| - 1]) + if last.Wait? then [last.ms] else []
  }

  /** The non-zero elements of `s`, in order. */
  function NonZero(s: seq<int>): seq<int>
  {
    if s == [] then []
    else NonZero(s[..|s| - 1]) + if s[|s| - 1] != 0 then [s[|s| - 1]] else []
  }

  /** The call numbers 1, 2, ..., k. */
  function CallNumbers(k: nat): (r: seq<nat>)
    ensures |r| == k && forall i :: 0 <= i < k ==> r[i] == i + 1
  {
    if k == 0 then [] else CallNumbers(k - 1) + [k]
  }

  /** The call numbers passed to `stopWhen` in a trace, in order. */
  function Consults(trace: seq<Event>): seq<nat>
  {
    if trace == [] then []
    else
      var last := trace[|trace| - 1];
      Consults(trace[..|trace| - 1]) + if last.Consult? then [last.callNumber] else []
  }

  /** Every `stopWhen` call comes right after the action call it judges. */
  ghost predicate ConsultsFollowInvokes(trace: seq<Event>)
  {
    forall i :: 0 <= i < |trace| && trace[i].Consult? ==>
      0 < i && trace[i - 1] == Invoke(trace[i].callNumber)
  }

  // ---------------------------------------------------------------------
  // Trace algebra

  lemma {:induction false} InvocationsAppend(a: seq<Event>, b: seq<Event>)
    ensures Invocations(a + b) == Invocations(a) + Invocations(b)
    decreases |b|
  {
    if b == [] {
      assert a + b == a;
    } else {
      var b' := b[..|b| - 1];
      assert (a + b)[..|a + b| - 1] == a + b';
      InvocationsAppend(a, b');
    }
  }

  lemma {:induction false} WaitsAppend(a: seq<Event>, b: seq<Event>)
    ensures Waits(a + b) == Waits(a) + Waits(b)
    decreases |b|
  {
    if b == [] {
      assert a + b == a;
    } else {
      var b' := b[..|b| - 1];
      assert (a + b)[..|a + b| - 1] == a + b';
      WaitsAppend(a, b');
    }
  }

  lemma {:induction false} ConsultsAppend(a: seq<Event>, b: seq<Event>)
    ensures Consults(a + b) == Consults(a) + Consults(b)
    decreases |b|
  {
    if b == [] {
      assert a + b == a;
    } else {
      var b' := b[..|b| - 1];
      assert (a + b)[..|a + b| - 1] == a + b';
      ConsultsAppend(a, b');
    }
  }

  /** The events of call `k` call `stopWhen` with `k` exactly when it is
      consulted for that call, and the generator's waits never call it. */
  lemma AttemptConsults<T, E>(c: Config<T, E>, k: nat)
    requires k <= |c.timeouts| + 1
    ensures Consults(Attempt(c, k)) == if Consulted(c, k) then [k] else []
    ensures k > 0 ==> Consults(WaitBefore(c.timeouts, k - 1)) == []
  {
    var a := Attempt(c, k);
    var one := [Invoke(k)];
    assert one[..0] == [];
    assert Consults(one) == [];
    if Consulted(c, k) {
      assert a == one + [Consult(k)];
      assert a[..|a| - 1] == one;
    } else {
      assert a == one;
    }
    if k > 0 {
      var w := WaitBefore(c.timeouts, k - 1);
      if w != [] {
        assert w[..0] == [];
      }
    }
  }

  /** The events of call `k` hold exactly one action call, numbered `k`, and
      no wait. */
  lemma AttemptEvents<T, E>(c: Config<T, E>, k: nat)
    ensures Invocations(Attempt(c, k)) == [k]
    ensures Waits(Attempt(c, k)) == []
  {
    var a := Attempt(c, k);
    var one := [Invoke(k)];
    assert one[..0] == [];
    assert Invocations(one) == [k] && Waits(one) == [];
    if Consulted(c, k) {
      assert a == one + [Consult(k)];
      assert a[..|a| - 1] == one;
    } else {
      assert a == one;
    }
  }

  /** The generator's wait before yield `k` holds no action call, and the
      wait itself exactly when the timeout is non-zero. */
  lemma WaitBeforeEvents(timeouts: seq<int>, k: nat)
    requires 0 < k <= |timeouts|
    ensures Invocations(WaitBefore(timeouts, k)) == []
    ensures Waits(WaitBefore(timeouts, k)) == if timeouts[k - 1] != 0 then [timeouts[k - 1]] else []
  {
  }

  // ---------------------------------------------------------------------
  // The run, characterised

  /** From the state after `n` calls, the run goes on up to the first call
      that ends the loop, or through every timeout. */
  lemma {:induction false} RunFromCalls<T, E>(c: Config<T, E>, n: nat, data: Option<T>)
    requires n <= |c.timeouts| + 1
    ensures var calls := RunFrom(c, n, data).calls;
      && n <= calls <= |c.timeouts| + 1
      && (n <= |c.timeouts| ==> n < calls)
      && (forall j :: n < j < calls ==> !Ends(c, j))
      && (calls <= |c.timeouts| ==> Ends(c, calls))
    decreases |c.timeouts| + 1 - n
  {
    if n < |c.timeouts| + 1 {
      if Ends(c, n + 1) {
        RunFromStops(c, n, data);
      } else {
        RunFromContinues(c, n, data);
        var next := if c.action(n + 1).Fulfilled? then Some(c.action(n + 1).data) else data;
        RunFromCalls(c, n + 1, next);
      }
    }
  }

  /** The run from the state after `n` calls, none of which ended the loop and
      with `data` the last fulfilled value, returns the end value of the call
      that ends it or, on exhaustion, the last fulfilled value. */
  lemma {:induction false} RunFromResult<T, E>(c: Config<T, E>, n: nat, data: Option<T>)
    requires n <= |c.timeouts| + 1
    requires data == LastFulfilled(c, n)
    requires forall j :: 1 <= j <= n ==> !Ends(c, j)
    ensures var r := RunFrom(c, n, data);
      r.result == if Ends(c, r.calls) then EndValue(c, r.calls) else LastFulfilled(c, r.calls)
    decreases |c.timeouts| + 1 - n
  {
    if n < |c.timeouts| + 1 {
      var k := n + 1;
      if Ends(c, k) {
        RunFromStops(c, n, data);
      } else {
        RunFromContinues(c, n, data);
        var next := if c.action(k).Fulfilled? then Some(c.action(k).data) else data;
        assert next == LastFulfilled(c, k);
        RunFromResult(c, k, next);
      }
    }
  }

  /** The events of the run from the state after `n` calls are those of the
      calls it makes, after those of calls 1..n. */
  lemma {:induction false} RunFromTrace<T, E>(c: Config<T, E>, n: nat, data: Option<T>)
    requires n <= |c.timeouts| + 1
    ensures RunFrom(c, n, data).calls <= |c.timeouts| + 1
    ensures Segments(c, n) + RunFrom(c, n, data).trace == Segments(c, RunFrom(c, n, data).calls)
    decreases |c.timeouts| + 1 - n
  {
    if n == |c.timeouts| + 1 {
      assert Segments(c, n) + [] == Segments(c, n);
    } else {
      var k := n + 1;
      var head := WaitBefore(c.timeouts, n) + Attempt(c, k);
      assert Segments(c, k) == Segments(c, n) + head;
      if Ends(c, k) {
        RunFromStops(c, n, data);
      } else {
        RunFromContinues(c, n, data);
        var next := if c.action(k).Fulfilled? then Some(c.action(k).data) else data;
        RunFromTrace(c, k, next);
        var rest := RunFrom(c, k, next).trace;
        assert Segments(c, n) + (head + rest) == Segments(c, k) + rest;
      }
    }
  }

  /** A whole run makes 1..|timeouts|+1 calls and stops at the first call
      that ends the loop; it returns that call's fulfilled value, or
      `fallback` if that call rejected, or, when the timeouts ran out without
      an explicit stop, the most recent fulfilled value (`fallback` if none);
      its events are those of calls 1..calls. These conditions determine the
      run completely. */
  lemma RetryCharacterized<T, E>(c: Config<T, E>)
    ensures var r := Retry(c);
      && 1 <= r.calls <= |c.timeouts| + 1
      && (forall j :: 1 <= j < r.calls ==> !Ends(c, j))
      && (r.calls <= |c.timeouts| ==> Ends(c, r.calls))
      && r.result == (if Ends(c, r.calls) then EndValue(c, r.calls) else LastFulfilled(c, r.calls))
      && r.trace == Segments(c, r.calls)
  {
    RunFromCalls(c, 0, c.fallback);
    RunFromResult(c, 0, c.fallback);
    RunFromTrace(c, 0, c.fallback);
  }

  // ---------------------------------------------------------------------
  // Call counting

  /** The action is called at most |timeouts| + 1 times, and the call numbers
      it is called with are 1, 2, ..., calls with no gap. */
  lemma {:induction false} SegmentsInvocations<T, E>(c: Config<T, E>, k: nat)
    requires k <= |c.timeouts| + 1
    ensures Invocations(Segments(c, k)) == CallNumbers(k)
  {
    if k > 0 {
      var earlier, w := Segments(c, k - 1), WaitBefore(c.timeouts, k - 1);
      SegmentsInvocations(c, k - 1);
      InvocationsAppend(earlier + w, Attempt(c, k));
      InvocationsAppend(earlier, w);
      AttemptEvents(c, k);
      if k > 1 {
        WaitBeforeEvents(c.timeouts, k - 1);
      }
      assert Invocations(w) == [];
      assert Invocations(Segments(c, k)) == CallNumbers(k - 1) + [] + [k];
    }
  }

  lemma CallNumbersConsecutive<T, E>(c: Config<T, E>)
    ensures 1 <= Retry(c).calls <= |c.timeouts| + 1
    ensures Invocations(Retry(c).trace) == CallNumbers(Retry(c).calls)
  {
    RetryCharacterized(c);
    SegmentsInvocations(c, Retry(c).calls);
  }

  /** Every rejected call, retries allowed and `stopWhen` never stopping: the
      action is called exactly |timeouts| + 1 times and `fallback` comes
      back. */
  lemma AllRejectedNeverStopped<T, E>(c: Config<T, E>)
    requires c.retryOnReject
    requires forall k :: 1 <= k <= |c.timeouts| + 1 ==> c.action(k).Rejected? && !Stops(c, k)
    ensures Retry(c).calls == |c.timeouts| + 1
    ensures Retry(c).result == c.fallback
  {
    RetryCharacterized(c);
    NoFulfilledGivesFallback(c, |c.timeouts| + 1);
  }

  /** With no timeouts the action is called exactly once, whatever it does
      and whatever `stopWhen` answers; the result is its fulfilled value or
      `fallback`. */
  lemma EmptyTimeoutsCallOnce<T, E>(c: Config<T, E>)
    requires c.timeouts == []
    ensures Retry(c).calls == 1
    ensures Retry(c).result == EndValue(c, 1)
    ensures Invocations(Retry(c).trace) == [1] && Waits(Retry(c).trace) == []
  {
    RetryCharacterized(c);
    assert Retry(c).trace == Attempt(c, 1);
    AttemptEvents(c, 1);
  }

  // ---------------------------------------------------------------------
  // How a run ends

  /** A call that fulfils and that `stopWhen` accepts is the last call, and
      its value is the result. */
  lemma FulfilledAndStopped<T, E>(c: Config<T, E>, k: nat)
    requires 1 <= k <= Retry(c).calls
    requires c.action(k).Fulfilled? && Stops(c, k)
    ensures Retry(c).calls == k
    ensures Retry(c).result == Some(c.action(k).data)
  {
    assert Ends(c, k);
    RetryCharacterized(c);
  }

  /** A call that rejects while `retryOnReject` is false is the last call,
      `fallback` is the result, and `stopWhen` is never called for it. */
  lemma RejectedWithoutRetry<T, E>(c: Config<T, E>, k: nat)
    requires 1 <= k <= Retry(c).calls
    requires c.action(k).Rejected? && !c.retryOnReject
    ensures Retry(c).calls == k
    ensures Retry(c).result == c.fallback
    ensures Consult(k) !in Retry(c).trace
  {
    assert Ends(c, k);
    RetryCharacterized(c);
    SegmentsConsults(c, k, k);
  }

  /** A call that rejects and that `stopWhen` accepts is the last call, and
      `fallback` is the result even when an earlier call fulfilled. */
  lemma RejectedAndStopped<T, E>(c: Config<T, E>, k: nat)
    requires 1 <= k <= Retry(c).calls
    requires c.action(k).Rejected? && Stops(c, k)
    ensures Retry(c).calls == k
    ensures Retry(c).result == c.fallback
  {
    assert Ends(c, k);
    RetryCharacterized(c);
  }

  /** With rejections retried and `stopWhen` answering true first at call
      number m, the action is called exactly m times, whatever it does and
      whatever `stopWhen` would answer for later calls. */
  lemma StopsAtCallNumber<T, E>(c: Config<T, E>, m: nat)
    requires c.retryOnReject && 1 <= m <= |c.timeouts| + 1
    requires Stops(c, m) && forall k :: 1 <= k < m ==> !Stops(c, k)
    ensures Retry(c).calls == m
    ensures Retry(c).result == EndValue(c, m)
  {
    RetryCharacterized(c);
    assert Ends(c, m);
  }

  /** When no call ends the loop, every timeout is used and the result is the
      last fulfilled value, or `fallback` if none fulfilled. */
  lemma Exhausted<T, E>(c: Config<T, E>)
    requires forall k :: 1 <= k <= |c.timeouts| + 1 ==> !Ends(c, k)
    ensures Retry(c).calls == |c.timeouts| + 1
    ensures Retry(c).result == LastFulfilled(c, |c.timeouts| + 1)
  {
    RetryCharacterized(c);
  }

  /** Rejections never overwrite `data`: the last fulfilled value among calls
      1..k is that of the latest call `m` that fulfilled. */
  lemma {:induction false} LatestFulfilledWins<T, E>(c: Config<T, E>, k: nat, m: nat)
    requires 1 <= m <= k
    requires c.action(m).Fulfilled?
    requires forall j :: m < j <= k ==> c.action(j).Rejected?
    ensures LastFulfilled(c, k) == Some(c.action(m).data)
    decreases k
  {
    if k > m {
      LatestFulfilledWins(c, k - 1, m);
    }
  }

  /** With no fulfilled call among calls 1..k, `data` is still `fallback`. */
  lemma {:induction false} NoFulfilledGivesFallback<T, E>(c: Config<T, E>, k: nat)
    requires forall j :: 1 <= j <= k ==> c.action(j).Rejected?
    ensures LastFulfilled(c, k) == c.fallback
    decreases k
  {
    if k > 0 {
      NoFulfilledGivesFallback(c, k - 1);
    }
  }

  // ---------------------------------------------------------------------
  // Calls of `stopWhen`

  /** `stopWhen` is called for call `j` of the first `k` exactly when it is
      present and call `j` fulfilled or rejections are retried. */
  lemma {:induction false} SegmentsConsults<T, E>(c: Config<T, E>, k: nat, j: nat)
    requires k <= |c.timeouts| + 1
    ensures Consult(j) in Segments(c, k) <==> 1 <= j <= k && Consulted(c, j)
  {
    if k > 0 {
      SegmentsConsults(c, k - 1, j);
      assert Consult(j) !in WaitBefore(c.timeouts, k - 1);
      assert Consult(j) in Attempt(c, k) <==> j == k && Consulted(c, k);
    }
  }

  lemma {:induction false} SegmentsConsultsFollowInvokes<T, E>(c: Config<T, E>, k: nat)
    requires k <= |c.timeouts| + 1
    ensures ConsultsFollowInvokes(Segments(c, k))
  {
    if k > 0 {
      SegmentsConsultsFollowInvokes(c, k - 1);
      var before := Segments(c, k - 1) + WaitBefore(c.timeouts, k - 1);
      var s := before + Attempt(c, k);
      forall i | 0 <= i < |s| && s[i].Consult?
        ensures 0 < i && s[i - 1] == Invoke(s[i].callNumber)
      {
        if i < |Segments(c, k - 1)| {
          assert s[i] == Segments(c, k - 1)[i];
        } else if |before| <= i {
          assert s[i] == Attempt(c, k)[i - |before|];
        }
      }
    }
  }

  /** `stopWhen` is called for call `j` exactly when the run reaches call
      `j` and either it fulfilled or rejections are retried; each such call
      comes right after the action call it judges, so the n-th call of the
      action is judged with `actionCallNumber == n`. */
  lemma StopWhenCalls<T, E>(c: Config<T, E>)
    ensures forall j: nat :: Consult(j) in Retry(c).trace <==> 1 <= j <= Retry(c).calls && Consulted(c, j)
    ensures ConsultsFollowInvokes(Retry(c).trace)
  {
    RetryCharacterized(c);
    forall j: nat ensures Consult(j) in Retry(c).trace <==> 1 <= j <= Retry(c).calls && Consulted(c, j) {
      SegmentsConsults(c, Retry(c).calls, j);
    }
    SegmentsConsultsFollowInvokes(c, Retry(c).calls);
  }

  /** When `stopWhen` is consulted for each of calls 1..k, the numbers it is
      called with in their events are 1, 2, ..., k. */
  lemma {:induction false} SegmentsConsultNumbers<T, E>(c: Config<T, E>, k: nat)
    requires k <= |c.timeouts| + 1
    requires forall j :: 1 <= j <= k ==> Consulted(c, j)
    ensures Consults(Segments(c, k)) == CallNumbers(k)
  {
    if k > 0 {
      SegmentsConsultNumbers(c, k - 1);
      var earlier, w := Segments(c, k - 1), WaitBefore(c.timeouts, k - 1);
      ConsultsAppend(earlier + w, Attempt(c, k));
      ConsultsAppend(earlier, w);
      AttemptConsults(c, k);
      assert Consults(Segments(c, k)) == CallNumbers(k - 1) + [] + [k];
    }
  }

  /** When `stopWhen` is consulted for calls 1..k-1 but not for call k, the
      numbers it is called with are 1, 2, ..., k-1. */
  lemma SegmentsConsultNumbersButLast<T, E>(c: Config<T, E>, k: nat)
    requires 1 <= k <= |c.timeouts| + 1
    requires forall j :: 1 <= j < k ==> Consulted(c, j)
    requires !Consulted(c, k)
    ensures Consults(Segments(c, k)) == CallNumbers(k - 1)
  {
    SegmentsConsultNumbers(c, k - 1);
    var earlier, w := Segments(c, k - 1), WaitBefore(c.timeouts, k - 1);
    ConsultsAppend(earlier + w, Attempt(c, k));
    ConsultsAppend(earlier, w);
    AttemptConsults(c, k);
    assert Consults(Segments(c, k)) == CallNumbers(k - 1) + [] + [];
  }

  /** Without a `stopWhen` there are no `stopWhen` calls among calls 1..k. */
  lemma {:induction false} SegmentsWithoutPolicy<T, E>(c: Config<T, E>, k: nat)
    requires k <= |c.timeouts| + 1
    requires c.stopWhen.None?
    ensures Consults(Segments(c, k)) == []
  {
    if k > 0 {
      SegmentsWithoutPolicy(c, k - 1);
      var earlier, w := Segments(c, k - 1), WaitBefore(c.timeouts, k - 1);
      ConsultsAppend(earlier + w, Attempt(c, k));
      ConsultsAppend(earlier, w);
      AttemptConsults(c, k);
    }
  }

  /** The numbers `stopWhen` is called with are 1, 2, ..., m in order, each
      once: m is 0 without a `stopWhen`, one less than the number of calls
      when the last call rejected with `retryOnReject` false, and the number
      of calls otherwise. */
  lemma StopWhenCallNumbers<T, E>(c: Config<T, E>)
    ensures var r := Retry(c);
      1 <= r.calls && Consults(r.trace) == CallNumbers(
        if c.stopWhen.None? then 0
        else if c.action(r.calls).Rejected? && !c.retryOnReject then r.calls - 1
        else r.calls)
  {
    RetryCharacterized(c);
    var n := Retry(c).calls;
    if c.stopWhen.None? {
      SegmentsWithoutPolicy(c, n);
    } else {
      assert forall j :: 1 <= j < n ==> Consulted(c, j) by {
        forall j | 1 <= j < n ensures Consulted(c, j) {
          assert !Ends(c, j);
        }
      }
      if Consulted(c, n) {
        SegmentsConsultNumbers(c, n);
      } else {
        SegmentsConsultNumbersButLast(c, n);
      }
    }
  }

  // ---------------------------------------------------------------------
  // Waits

  lemma {:induction false} SegmentsWaits<T, E>(c: Config<T, E>, k: nat)
    requires 1 <= k <= |c.timeouts| + 1
    ensures Waits(Segments(c, k)) == NonZero(c.timeouts[..k - 1])
  {
    var t := c.timeouts;
    var w := WaitBefore(t, k - 1);
    WaitsAppend(Segments(c, k - 1) + w, Attempt(c, k));
    WaitsAppend(Segments(c, k - 1), w);
    AttemptEvents(c, k);
    if k == 1 {
      assert Segments(c, 0) + w == [];
    } else {
      SegmentsWaits(c, k - 1);
      WaitBeforeEvents(t, k - 1);
      assert t[..k - 1][..k - 2] == t[..k - 2];
      assert Waits(Segments(c, k)) == NonZero(t[..k - 2]) + Waits(w);
    }
  }

  /** The events of calls 1..k are a prefix of those of calls 1..m. */
  lemma {:induction false} SegmentsPrefix<T, E>(c: Config<T, E>, k: nat, m: nat)
    requires k <= m <= |c.timeouts| + 1
    ensures |Segments(c, k)| <= |Segments(c, m)| && Segments(c, m)[..|Segments(c, k)|] == Segments(c, k)
    decreases m
  {
    if k < m {
      SegmentsPrefix(c, k, m - 1);
      var s := Segments(c, m - 1);
      assert Segments(c, m)[..|s|] == s;
    }
  }

  /** The first call is never preceded by a wait; between calls the
      timeouts are consumed in order, one per retry, and a zero timeout
      produces no wait: the waits of a run are exactly the non-zero timeouts
      among the first calls - 1. */
  lemma WaitSchedule<T, E>(c: Config<T, E>)
    ensures var r := Retry(c);
      && 1 <= r.calls <= |c.timeouts| + 1
      && r.trace != [] && r.trace[0] == Invoke(1)
      && Waits(r.trace) == NonZero(c.timeouts[..r.calls - 1])
  {
    RetryCharacterized(c);
    SegmentsWaits(c, Retry(c).calls);
    SegmentsPrefix(c, 1, Retry(c).calls);
    assert Segments(c, 1) == Attempt(c, 1);
  }

  /** Right after the events of call k comes a wait of `timeouts[k - 1]` when
      that timeout is non-zero, and then the call numbered k + 1; a zero
      timeout puts call k + 1 directly after call k. */
  lemma WaitBeforeRetry<T, E>(c: Config<T, E>, k: nat)
    requires 1 <= k <= |c.timeouts| && k < Retry(c).calls
    ensures var tr, p := Retry(c).trace, |Segments(c, k)|;
      && p <= |tr| && tr[..p] == Segments(c, k)
      && if c.timeouts[k - 1] != 0
         then p + 1 < |tr| && tr[p] == Wait(c.timeouts[k - 1]) && tr[p + 1] == Invoke(k + 1)
         else p < |tr| && tr[p] == Invoke(k + 1)
  {
    RetryCharacterized(c);
    var m := Retry(c).calls;
    SegmentsPrefix(c, k, m);
    SegmentsPrefix(c, k + 1, m);
    var tr, s, p := Retry(c).trace, Segments(c, k + 1), |Segments(c, k)|;
    assert tr[..|s|] == s;
    var w := WaitBefore(c.timeouts, k);
    assert s == Segments(c, k) + w + Attempt(c, k + 1);
    assert Attempt(c, k + 1)[0] == Invoke(k + 1);
    assert tr[p + |w|] == s[p + |w|] == Invoke(k + 1);
    if w != [] {
      assert tr[p] == s[p] == Wait(c.timeouts[k - 1]);
    }
  }
}
