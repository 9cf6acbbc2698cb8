/** The rate limiter `perf.debounce(fn, delay)` (utils.js:65-71). The host
    timer facility is explicit: one pending (deadline, arguments) slot that a
    call replaces, and a `Tick` step in which the host runs a due timer. */
module Debounce {
  import opened Wrappers

  /** A scheduled call of `fn`: when it is due and with which arguments. */
  datatype Timer<A> = Timer(deadline: int, args: A)

  /** The delay a browser host waits for `setTimeout(cb, delay)`: the delay
      is converted to a 32-bit signed integer (wrapping modulo 2^32), and a
      negative result is treated as 0. */
  function HostDelay(delay: int): (ms: int)
    ensures 0 <= ms < 0x8000_0000
    ensures 0 <= delay < 0x8000_0000 ==> ms == delay
    ensures -0x8000_0000 <= delay < 0 ==> ms == 0
    ensures (delay - ms) % 0x1_0000_0000 == 0 || (ms == 0 && delay % 0x1_0000_0000 >= 0x8000_0000)
  {
    var wrapped := delay % 0x1_0000_0000;
    var signed := if wrapped >= 0x8000_0000 then wrapped - 0x1_0000_0000 else wrapped;
    if signed < 0 then 0 else signed
  }

  /** A delay of 2^32 + 5 ms wraps to 5 ms. */
  lemma WrappedDelay()
    ensures HostDelay(0x1_0000_0005) == 5
  {
  }

  /** When a timer armed at `now` with `delay` falls due. */
  function Deadline(now: int, delay: int): (d: int)
    ensures now <= d < now + 0x8000_0000
    ensures 0 <= delay < 0x8000_0000 ==> d == now + delay
    ensures -0x8000_0000 <= delay < 0 ==> d == now
  {
    now + HostDelay(delay)
  }

  /** A delay of 2^31 ms wraps to -2^31 and is clamped: the timer is due at once. */
  lemma LongDelayFiresAtOnce(now: int)
    ensures Deadline(now, 0x8000_0000) == now
  {
  }

  /** The timer slot and the calls of `fn` made so far. */
  datatype DebounceState<A> = DebounceState(pending: Option<Timer<A>>, fired: seq<A>)

  /** A call of the wrapper: cancel the pending timer, arm a new one. */
  function Arm<A>(s: DebounceState<A>, delay: int, now: int, args: A): DebounceState<A> {
    DebounceState(Some(Timer(Deadline(now, delay), args)), s.fired)
  }

  /** The host clock reaches `now`: a due timer runs `fn` once and is gone. */
  function Elapse<A>(s: DebounceState<A>, now: int): DebounceState<A> {
    match s.pending
    case Some(t) => if t.deadline <= now then DebounceState(None, s.fired + [t.args]) else s
    case None => s
  }

  /** Calls at (clock reading, arguments) pairs, the host running any due
      timer before each call. */
  function Replay<A>(s: DebounceState<A>, delay: int, calls: seq<(int, A)>): DebounceState<A>
    decreases |calls|
  {
    if calls == [] then s
    else Replay(Arm(Elapse(s, calls[0].0), delay, calls[0].0, calls[0].1), delay, calls[1..])
  }

  /** Each call comes before the timer armed by the previous one is due. */
  ghost predicate Burst<A>(delay: int, calls: seq<(int, A)>) {
    forall i :: 0 < i < |calls| ==> calls[i].0 < Deadline(calls[i - 1].0, delay)
  }

  /** Within a burst nothing fires, and what remains pending is the last
      call's timer. */
  lemma {:induction false} BurstKeepsLast<A>(s: DebounceState<A>, delay: int, calls: seq<(int, A)>)
    requires calls != [] && Burst(delay, calls)
    requires s.pending.Some? ==> calls[0].0 < s.pending.value.deadline
    ensures var last := calls[|calls| - 1];
      Replay(s, delay, calls) == DebounceState(Some(Timer(Deadline(last.0, delay), last.1)), s.fired)
    decreases |calls|
  {
    var s' := Arm(Elapse(s, calls[0].0), delay, calls[0].0, calls[0].1);
    assert Elapse(s, calls[0].0) == s;
    if |calls| > 1 {
      var rest := calls[1..];
      assert Burst(delay, rest) by {
        forall i | 0 < i < |rest| ensures rest[i].0 < Deadline(rest[i - 1].0, delay) {
          assert rest[i] == calls[i + 1] && rest[i - 1] == calls[i];
        }
      }
      assert calls[1].0 < Deadline(calls[0].0, delay);
      BurstKeepsLast(s', delay, rest);
    }
  }

  /** A burst of calls followed by quiet until the last deadline runs `fn`
      exactly once, with the last call's arguments; the cancelled calls never
      run, and nothing is left pending. */
  lemma LastCallWins<A>(s: DebounceState<A>, delay: int, calls: seq<(int, A)>, quiet: int)
    requires calls != [] && Burst(delay, calls)
    requires s.pending.Some? ==> calls[0].0 < s.pending.value.deadline
    requires quiet >= Deadline(calls[|calls| - 1].0, delay)
    ensures Elapse(Replay(s, delay, calls), quiet) == DebounceState(None, s.fired + [calls[|calls| - 1].1])
  {
    BurstKeepsLast(s, delay, calls);
  }

  /** A timer replaced before it is due never fires: arming discards it, and
      once the clock passes its deadline only the new timer's arguments run. */
  lemma CancelledNeverFires<A>(s: DebounceState<A>, delay: int, now: int, args: A, later: int)
    requires s.pending.Some? && now < s.pending.value.deadline
    requires later >= Deadline(now, delay)
    ensures Elapse(Arm(Elapse(s, now), delay, now, args), later).fired == s.fired + [args]
  {
  }

  /** The wrapper returned by `perf.debounce(fn, delay)`: its captured timer
      slot, plus a ghost log of the calls of `fn` the host has made. */
  class Debouncer<A> {
    const delay: int
    var pending: Option<Timer<A>>
    ghost var fired: seq<A>

    ghost function State(): DebounceState<A>
      reads this
    {
      DebounceState(pending, fired)
    }

    constructor (delay: int)
      ensures this.delay == delay && pending == None && fired == []
    {
      this.delay := delay;
      pending := None;
      fired := [];
    }

    /** One call of the wrapper at clock reading `now` with arguments `args`:
        clearTimeout then setTimeout. */
    method Call(now: int, args: A)
      modifies this
      ensures State() == Arm(old(State()), delay, now, args)
      ensures pending == Some(Timer(Deadline(now, delay), args))
      ensures fired == old(fired)
    {
      pending := Some(Timer(Deadline(now, delay), args));
    }

    /** The host clock reaches `now` and runs the pending timer if it is due. */
    method Tick(now: int)
      modifies this
      ensures State() == Elapse(old(State()), now)
      ensures old(pending).Some? && old(pending).value.deadline <= now ==>
        pending == None && fired == old(fired) + [old(pending).value.args]
      ensures old(pending).None? || now < old(pending).value.deadline ==>
        pending == old(pending) && fired == old(fired)
    {
      if pending.Some? && pending.value.deadline <= now {
        fired := fired + [pending.value.args];
        pending := None;
      }
    }
  }
}
