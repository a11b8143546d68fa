// The simple machine that the timing wheel refines: a table of deadlines.

module FlatTimers {
  import opened Wrappers
  import opened WheelArithmetic

  type TimerId = nat
  type Timeout = t: nat | t < TICK_LIMIT
  type Table = map<TimerId, int>

  /** What a timeout callback asks of the manager; `lag` is how far the clock is ahead of the manager then. */
  datatype Action = Register(id: TimerId, timeout: Timeout, lag: nat) | Unregister(id: TimerId)

  /** What happens to one timer popped from a slot of wheel `wheel` during a step. */
  datatype Event =
    | Fired(id: TimerId, wheel: nat)
    | Requeued(id: TimerId, wheel: nat, lag: nat)

  /** The actions of the callback run as the i-th event of a step. */
  type Callbacks = (nat, TimerId) -> seq<Action>

  function Act(d: Table, now: nat, horizon: nat, a: Action): Table
  {
    match a
    case Register(id, timeout, lag) => d[id := Deadline(now, horizon, Ticks(timeout, lag))]
    case Unregister(id) => d - {id}
  }

  function Acts(d: Table, now: nat, horizon: nat, acts: seq<Action>): Table
  {
    if acts == [] then d
    else Act(Acts(d, now, horizon, acts[..|acts| - 1]), now, horizon, acts[|acts| - 1])
  }

  /** While a wheel is drained the wheels above it have not been moved on to this tick yet. */
  function HorizonOf(now: nat, e: Event): nat
  {
    Horizon(now, e.wheel + 1)
  }

  /** A step drains wheel `w` only at the ticks at which it turns. */
  predicate Turns(now: nat, w: nat)
  {
    w < WHEELS && now % Base(w) == 0
  }

  /** A timer may fire only at its deadline, and be re-queued only ahead of it and inside the horizon,
      both from a wheel that turns. */
  function Apply(d: Table, now: nat, e: Event, i: nat, cb: Callbacks): Option<Table>
  {
    var horizon := HorizonOf(now, e);
    match e
    case Fired(id, wheel) =>
      if Turns(now, wheel) && id in d && d[id] == now then Some(Acts(d - {id}, now, horizon, cb(i, id))) else None
    case Requeued(id, wheel, lag) =>
      if Turns(now, wheel) && id in d && now < d[id] < now + horizon && d[id] < now + TICK_LIMIT
      then Some(d[id := Deadline(now, horizon, Ticks(d[id] - now, lag))]) else None
  }

  /** The table after the events of one step; None if one of them was not allowed. */
  function Replay(d: Table, now: nat, log: seq<Event>, cb: Callbacks): Option<Table>
  {
    if log == [] then Some(d)
    else
      var i := |log| - 1;
      match Replay(d, now, log[..i], cb)
      case None => None
      case Some(d') => Apply(d', now, log[i], i, cb)
  }

  lemma ReplayNext(d: Table, now: nat, log: seq<Event>, e: Event, cb: Callbacks)
    requires Replay(d, now, log, cb).Some?
    ensures Replay(d, now, log + [e], cb) == Apply(Replay(d, now, log, cb).value, now, e, |log|, cb)
  {
    assert (log + [e])[..|log|] == log;
  }

  lemma ReplayNothing(d: Table, now: nat, cb: Callbacks)
    ensures Replay(d, now, [], cb) == Some(d)
  {
  }
}
