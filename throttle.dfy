/** The rate limiter `perf.throttle(fn, limit)` (utils.js:72-81): leading
    edge only, no queuing. The clock reading (Date.now()) of each call is a
    parameter; the calls of `fn` are recorded in a ghost log. */
module Throttle {

  /** One execution of `fn`: the clock reading of the call and its arguments. */
  datatype Execution<A> = Execution(at: int, args: A)

  /** A call at `now` runs `fn` iff at least `limit` has elapsed since the
      last execution. */
  predicate Admits(last: int, limit: int, now: int) {
    now - last >= limit
  }

  /** Reading of the latest execution in `runs`, or `start` if there is none. */
  function LastRun(start: int, runs: seq<int>): int {
    if runs == [] then start else runs[|runs| - 1]
  }

  /** Clock readings at which `fn` runs, for calls at `readings`, when the
      captured `last` starts at `start`. */
  function Executions(start: int, limit: int, readings: seq<int>): (runs: seq<int>)
    ensures |runs| <= |readings|
    ensures forall x :: x in runs ==> x in readings
    decreases |readings|
  {
    if readings == [] then []
    else
      var before := Executions(start, limit, readings[..|readings| - 1]);
      var now := readings[|readings| - 1];
      if Admits(LastRun(start, before), limit, now) then before + [now] else before
  }

  /** Consecutive executions are at least `limit` apart, and the first is at
      least `limit` after `start`. */
  ghost predicate Spaced(start: int, limit: int, runs: seq<int>) {
    (runs != [] ==> runs[0] - start >= limit) &&
    forall i :: 0 < i < |runs| ==> runs[i] - runs[i - 1] >= limit
  }

  /** The spacing rule holds for every sequence of calls, whether or not the
      clock goes back. */
  lemma {:induction false} ExecutionsSpaced(start: int, limit: int, readings: seq<int>)
    ensures Spaced(start, limit, Executions(start, limit, readings))
    decreases |readings|
  {
    if readings != [] {
      ExecutionsSpaced(start, limit, readings[..|readings| - 1]);
    }
  }

  /** A dropped call changes nothing: the execution history right after it is
      the history before it. */
  lemma DroppedCallIsForgotten(start: int, limit: int, readings: seq<int>, now: int)
    requires !Admits(LastRun(start, Executions(start, limit, readings)), limit, now)
    ensures Executions(start, limit, readings + [now]) == Executions(start, limit, readings)
  {
    assert (readings + [now])[..|readings|] == readings;
  }

  /** A dropped call changes nothing later either: the calls after it behave
      as if it had never been made. */
  lemma {:induction false} DroppedCallNeverMatters(start: int, limit: int, readings: seq<int>, now: int, rest: seq<int>)
    requires !Admits(LastRun(start, Executions(start, limit, readings)), limit, now)
    ensures Executions(start, limit, readings + [now] + rest) == Executions(start, limit, readings + rest)
    decreases |rest|
  {
    if rest == [] {
      assert readings + [now] + rest == readings + [now];
      assert readings + rest == readings;
      DroppedCallIsForgotten(start, limit, readings, now);
    } else {
      var init := rest[..|rest| - 1];
      DroppedCallNeverMatters(start, limit, readings, now, init);
      var with, without := readings + [now] + rest, readings + rest;
      assert with[..|with| - 1] == readings + [now] + init;
      assert without[..|without| - 1] == readings + init;
      assert with[|with| - 1] == without[|without| - 1];
    }
  }

  /** Two calls less than `limit` apart run `fn` once (the first, when it is
      admitted); a third call at least `limit` after the first runs again. */
  lemma QuickSecondCallDropped(start: int, limit: int, t1: int, t2: int, t3: int)
    requires Admits(start, limit, t1)
    requires t2 - t1 < limit && t3 - t1 >= limit
    ensures Executions(start, limit, [t1, t2]) == [t1]
    ensures Executions(start, limit, [t1, t2, t3]) == [t1, t3]
  {
    assert [t1, t2][..1] == [t1];
    assert [t1, t2, t3][..2] == [t1, t2];
    assert [t1][..0] == [];
  }

  function Readings<A>(log: seq<Execution<A>>): (r: seq<int>)
    ensures |r| == |log| && forall i :: 0 <= i < |log| ==> r[i] == log[i].at
  {
    seq(|log|, i requires 0 <= i < |log| => log[i].at)
  }

  /** The wrapper returned by `perf.throttle(fn, limit)`, with its captured
      `last`; `calls` and `invoked` record, for the proof, the clock reading
      of every call and every execution of `fn`. */
  class Throttler<A> {
    const limit: int
    var last: int
    ghost var calls: seq<int>
    ghost var invoked: seq<Execution<A>>

    /** `fn` has run exactly at the readings the throttle rule selects from
        the calls so far, and `last` is the reading of the latest run. */
    ghost predicate Valid()
      reads this
    {
      Readings(invoked) == Executions(0, limit, calls) &&
      last == LastRun(0, Readings(invoked))
    }

    constructor (limit: int)
      ensures Valid() && this.limit == limit && last == 0
      ensures calls == [] && invoked == []
    {
      this.limit := limit;
      last := 0;
      calls, invoked := [], [];
    }

    /** One call of the wrapper at clock reading `now` with arguments `args`. */
    method Call(now: int, args: A)
      requires Valid()
      modifies this
      ensures Valid()
      ensures calls == old(calls) + [now]
      ensures Admits(old(last), limit, now) ==>
        last == now && invoked == old(invoked) + [Execution(now, args)]
      ensures !Admits(old(last), limit, now) ==>
        last == old(last) && invoked == old(invoked)
      ensures Spaced(0, limit, Readings(invoked))
    {
      ghost var before := Readings(invoked);
      calls := calls + [now];
      assert calls[..|calls| - 1] == old(calls);
      if Admits(last, limit, now) {
        last := now;
        invoked := invoked + [Execution(now, args)];
        assert Readings(invoked) == before + [now];
      }
      ExecutionsSpaced(0, limit, calls);
    }
  }
}
