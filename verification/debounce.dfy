/**
 The `debounce(fn, wait)` helper as a discrete-time state machine. Each call clears the
 pending timeout and schedules a new one `wait` time units later with the latest
 arguments. Time is an integer clock, and a timeout runs exactly when the clock reaches
 its deadline.
 */
module Debounce {
  import opened Wrappers

  /** A scheduled run of `fn`: when it is due and the arguments it will get. */
  datatype Job<A> = Job(deadline: int, arg: A)

  /** The variable `t` the debounced closure keeps: the pending timeout, if any. */
  datatype Timer<A> = Timer(pending: Option<Job<A>>)

  /** One invocation of the debounced function, at `time`, with `arg`. */
  datatype Invocation<A> = Invocation(time: int, arg: A)

  /** One run of the wrapped `fn`, at `time`, with `arg`. */
  datatype Run<A> = Run(time: int, arg: A)

  /** A timer with nothing pending, as the closure starts. */
  function Idle<A>(): Timer<A> {
    Timer(None)
  }

  /** `clearTimeout(t); t = setTimeout(..., wait)`: whatever was pending is dropped and
      only the new job remains. */
  function Schedule<A>(t: Timer<A>, now: int, wait: nat, arg: A): (r: Timer<A>)
    ensures r.pending.Some? && r.pending.value.deadline == now + wait && r.pending.value.arg == arg
  {
    Timer(Some(Job(now + wait, arg)))
  }

  /** Lets the clock reach `now`: a job whose deadline has come runs and leaves the timer
      idle; otherwise nothing happens. */
  function Advance<A>(t: Timer<A>, now: int): (r: (Timer<A>, Option<Run<A>>))
    ensures r.1.Some? <==> t.pending.Some? && t.pending.value.deadline <= now
    ensures r.1.Some? ==> r.0.pending.None? && r.1.value == Run(t.pending.value.deadline, t.pending.value.arg)
    ensures r.1.None? ==> r.0 == t
  {
    match t.pending
    case Some(j) => if j.deadline <= now then (Timer(None), Some(Run(j.deadline, j.arg))) else (t, None)
    case None => (t, None)
  }

  /** The runs left once the clock goes on forever with no further calls. */
  function Settle<A>(t: Timer<A>): seq<Run<A>> {
    match t.pending
    case Some(j) => [Run(j.deadline, j.arg)]
    case None => []
  }

  /** The runs of `fn` produced by feeding `calls`, in order, to the timer `t` and then
      letting time run on: before each call the clock reaches the call's time. */
  function Simulate<A>(t: Timer<A>, calls: seq<Invocation<A>>, wait: nat): (r: seq<Run<A>>)
    ensures |r| <= |calls| + (if t.pending.Some? then 1 else 0)
    decreases |calls|
  {
    if |calls| == 0 then
      Settle(t)
    else
      var step := Advance(t, calls[0].time);
      var ran := match step.1 case Some(x) => [x] case None => [];
      ran + Simulate(Schedule(step.0, calls[0].time, wait, calls[0].arg), calls[1..], wait)
  }

  /** Call `i` is the last of its burst: no later call comes before its deadline. */
  predicate EndsBurst<A>(calls: seq<Invocation<A>>, i: nat, wait: nat)
    requires i < |calls|
  {
    i == |calls| - 1 || calls[i + 1].time >= calls[i].time + wait
  }

  /** The reference behaviour from call `i` on: every call that ends a burst runs `fn`
      exactly `wait` after it, with its own arguments; no other call does. */
  function ExpectedFrom<A>(calls: seq<Invocation<A>>, i: nat, wait: nat): (r: seq<Run<A>>)
    requires i <= |calls|
    ensures |r| <= |calls| - i
    decreases |calls| - i
  {
    if i == |calls| then
      []
    else
      (if EndsBurst(calls, i, wait) then [Run(calls[i].time + wait, calls[i].arg)] else [])
      + ExpectedFrom(calls, i + 1, wait)
  }

  /** From the pending job of call `i`, the timer produces exactly the reference runs. */
  lemma {:induction false} SimulateFromPending<A>(calls: seq<Invocation<A>>, i: nat, wait: nat)
    requires i < |calls|
    ensures Simulate(Timer(Some(Job(calls[i].time + wait, calls[i].arg))), calls[i + 1..], wait)
         == ExpectedFrom(calls, i, wait)
    decreases |calls| - i
  {
    var t := Timer(Some(Job(calls[i].time + wait, calls[i].arg)));
    if i == |calls| - 1 {
      assert calls[i + 1..] == [];
      assert ExpectedFrom(calls, i + 1, wait) == [];
    } else {
      var rest := calls[i + 1..];
      assert rest[0] == calls[i + 1];
      assert rest[1..] == calls[i + 2..];
      SimulateFromPending(calls, i + 1, wait);
    }
  }

  /** The debounce state machine, started idle, runs `fn` once per burst: exactly for the
      calls that end a burst, `wait` after each, with that call's arguments, in order. */
  lemma DebounceMatchesReference<A>(calls: seq<Invocation<A>>, wait: nat)
    ensures Simulate(Idle(), calls, wait) == ExpectedFrom(calls, 0, wait)
  {
    if |calls| > 0 {
      SimulateFromPending(calls, 0, wait);
    }
  }

  /** Within a burst only its last call counts. */
  lemma {:induction false} BurstTail<A>(calls: seq<Invocation<A>>, i: nat, wait: nat)
    requires i < |calls|
    requires forall k :: 0 <= k < |calls| - 1 ==> calls[k + 1].time < calls[k].time + wait
    ensures ExpectedFrom(calls, i, wait) == [Run(calls[|calls| - 1].time + wait, calls[|calls| - 1].arg)]
    decreases |calls| - i
  {
    if i < |calls| - 1 {
      BurstTail(calls, i + 1, wait);
    } else {
      assert ExpectedFrom(calls, i + 1, wait) == [];
    }
  }

  /** A burst of calls whose gaps are all shorter than `wait` runs `fn` exactly once,
      `wait` after the last call, with the last call's arguments. */
  lemma BurstRunsOnce<A>(calls: seq<Invocation<A>>, wait: nat)
    requires |calls| > 0
    requires forall k :: 0 <= k < |calls| - 1 ==> calls[k + 1].time < calls[k].time + wait
    ensures Simulate(Idle(), calls, wait) == [Run(calls[|calls| - 1].time + wait, calls[|calls| - 1].arg)]
  {
    DebounceMatchesReference(calls, wait);
    BurstTail(calls, 0, wait);
  }

  /** In the reference, from call `i` on, the last run is the last call's, `wait` after it. */
  lemma {:induction false} LastCallRuns<A>(calls: seq<Invocation<A>>, i: nat, wait: nat)
    requires i < |calls|
    ensures var r := ExpectedFrom(calls, i, wait);
      |r| > 0 && r[|r| - 1] == Run(calls[|calls| - 1].time + wait, calls[|calls| - 1].arg)
    decreases |calls| - i
  {
    if i < |calls| - 1 {
      LastCallRuns(calls, i + 1, wait);
    } else {
      assert ExpectedFrom(calls, i + 1, wait) == [];
    }
  }

  /** The latest call always wins, for the timer itself: started idle, its last run of
      `fn` is the last call's, `wait` after it. */
  lemma TimerLastCallRuns<A>(calls: seq<Invocation<A>>, wait: nat)
    requires |calls| > 0
    ensures var r := Simulate(Idle(), calls, wait);
      |r| > 0 && r[|r| - 1] == Run(calls[|calls| - 1].time + wait, calls[|calls| - 1].arg)
  {
    DebounceMatchesReference(calls, wait);
    LastCallRuns(calls, 0, wait);
  }

  /** A call cancels what was pending: right after it, the timer holds the new job only,
      and advancing the clock to any time before its deadline runs nothing. */
  lemma CallCancelsPending<A>(t: Timer<A>, now: int, wait: nat, arg: A, later: int)
    requires now <= later < now + wait
    ensures Advance(Schedule(t, now, wait, arg), later).1.None?
    ensures Advance(Schedule(t, now, wait, arg), now + wait).1 == Some(Run(now + wait, arg))
  {
  }
}
