/** `createRetryGenerator`: yields the action once straight away, then once
    more per timeout, waiting that long before each later yield unless the
    timeout is 0. */
module Generator {
  import opened RetryTypes

  /** The waits the generator performs before its yield number `k` (0-based):
      none before the first yield; before yield `k >= 1` a wait of
      `timeouts[k - 1]`, skipped when that timeout is 0. */
  function WaitBefore(timeouts: seq<int>, k: nat): seq<Event>
    requires k <= |timeouts|
  {
    if k == 0 || timeouts[k - 1] == 0 then [] else [Wait(timeouts[k - 1])]
  }

  /** The suspended generator: the timeouts it iterates and how many times
      it has yielded the action so far. */
  class RetryGenerator {
    const timeouts: seq<int>
    var yielded: nat

    ghost predicate Valid()
      reads this
    {
      yielded <= |timeouts| + 1
    }

    constructor (timeouts: seq<int>)
      ensures Valid() && this.timeouts == timeouts && yielded == 0
    {
      this.timeouts := timeouts;
      yielded := 0;
    }

    /** Resumes the generator. `done` is the iterator result's `done` flag
        (the yielded value is always the same action); `waited` holds the
        timer wait performed before this yield. */
    method Next() returns (done: bool, ghost waited: seq<Event>)
      requires Valid()
      modifies this
      ensures Valid()
      ensures done <==> old(yielded) == |timeouts| + 1
      ensures done ==> yielded == old(yielded) && waited == []
      ensures !done ==> yielded == old(yielded) + 1 && waited == WaitBefore(timeouts, old(yielded))
    {
      waited := [];
      if yielded == 0 {
        done := false;
      } else if yielded <= |timeouts| {
        var time := timeouts[yielded - 1];
        if time != 0 {
          waited := [Wait(time)];
        }
        done := false;
      } else {
        done := true;
        return;
      }
      yielded := yielded + 1;
    }
  }
}
