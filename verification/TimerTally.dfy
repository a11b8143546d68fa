// Nothing is lost: where the timers of a run have gone.

module TimerTally {
  import opened WheelArithmetic
  import opened FlatTimers
  import opened TimerRuns

  /** Timers that entered the table, were removed by a caller, and fired. */
  datatype Tally = Tally(joined: nat, quit: nat, fired: nat)

  function Sum(a: Tally, b: Tally): Tally {
    Tally(a.joined + b.joined, a.quit + b.quit, a.fired + b.fired)
  }

  const NOTHING := Tally(0, 0, 0)

  /** Registering a timer again moves it; removing an unregistered one does nothing. */
  function OfAct(d: Table, a: Action): Tally {
    match a
    case Register(id, _, _) => if id in d then NOTHING else Tally(1, 0, 0)
    case Unregister(id) => if id in d then Tally(0, 1, 0) else NOTHING
  }

  function OfActs(d: Table, now: nat, horizon: nat, acts: seq<Action>): Tally {
    if acts == [] then NOTHING
    else
      var before := acts[..|acts| - 1];
      Sum(OfActs(d, now, horizon, before), OfAct(Acts(d, now, horizon, before), acts[|acts| - 1]))
  }

  function OfEvent(d: Table, now: nat, e: Event, i: nat, cb: Callbacks): Tally {
    match e
    case Fired(id, _) => Sum(Tally(0, 0, 1), OfActs(d - {id}, now, HorizonOf(now, e), cb(i, id)))
    case Requeued(_, _, _) => NOTHING
  }

  function OfLog(d: Table, now: nat, log: seq<Event>, cb: Callbacks): Tally
    requires Replay(d, now, log, cb).Some?
  {
    if log == [] then NOTHING
    else
      var i := |log| - 1;
      Sum(OfLog(d, now, log[..i], cb), OfEvent(Replay(d, now, log[..i], cb).value, now, log[i], i, cb))
  }

  function OfRun(d: Table, now: nat, ticks: seq<Tick>): Tally
    requires Run(d, now, ticks).Some?
    decreases |ticks|
  {
    if ticks == [] then NOTHING
    else
      var t, mid := ticks[0], Acts(d, now, TICK_LIMIT, ticks[0].before);
      var d' := Replay(mid, now + 1, t.log, t.cb).value;
      Sum(OfActs(d, now, TICK_LIMIT, t.before), Sum(OfLog(mid, now + 1, t.log, t.cb), OfRun(d', now + 1, ticks[1..])))
  }

  lemma RemovedOne(d: Table, id: TimerId)
    ensures |d - {id}| == |d| - (if id in d then 1 else 0)
  {
    if id in d {
      var d' := d - {id};
      assert d == d'[id := d[id]];
    } else {
      assert d - {id} == d;
    }
  }

  lemma ActBalance(d: Table, now: nat, horizon: nat, a: Action)
    ensures |Act(d, now, horizon, a)| + OfAct(d, a).quit == |d| + OfAct(d, a).joined && OfAct(d, a).fired == 0
  {
    match a
    case Register(id, timeout, lag) =>
      RemovedOne(d, id);
      var x := Deadline(now, horizon, Ticks(timeout, lag));
      assert d[id := x] == (d - {id})[id := x];
    case Unregister(id) =>
      RemovedOne(d, id);
  }

  lemma {:induction false} ActsBalance(d: Table, now: nat, horizon: nat, acts: seq<Action>)
    ensures var n := OfActs(d, now, horizon, acts);
            |Acts(d, now, horizon, acts)| + n.quit == |d| + n.joined && n.fired == 0
  {
    if acts != [] {
      var before := acts[..|acts| - 1];
      ActsBalance(d, now, horizon, before);
      ActBalance(Acts(d, now, horizon, before), now, horizon, acts[|acts| - 1]);
    }
  }

  lemma EventBalance(d: Table, now: nat, e: Event, i: nat, cb: Callbacks)
    requires Apply(d, now, e, i, cb).Some?
    ensures var n := OfEvent(d, now, e, i, cb);
            |Apply(d, now, e, i, cb).value| + n.quit + n.fired == |d| + n.joined
  {
    hide Deadline, Ticks, Acts, OfActs;
    match e
    case Fired(id, _) =>
      RemovedOne(d, id);
      ActsBalance(d - {id}, now, HorizonOf(now, e), cb(i, id));
    case Requeued(id, _, lag) =>
      RemovedOne(d, id);
      var x := Deadline(now, HorizonOf(now, e), Ticks(d[id] - now, lag));
      assert d[id := x] == (d - {id})[id := x];
  }

  lemma {:induction false} LogBalance(d: Table, now: nat, log: seq<Event>, cb: Callbacks)
    requires Replay(d, now, log, cb).Some?
    ensures var n := OfLog(d, now, log, cb);
            |Replay(d, now, log, cb).value| + n.quit + n.fired == |d| + n.joined
  {
    hide Apply, OfEvent;
    if log != [] {
      var i := |log| - 1;
      LogBalance(d, now, log[..i], cb);
      EventBalance(Replay(d, now, log[..i], cb).value, now, log[i], i, cb);
    }
  }

  /** Over any run: what was registered before or joined has fired, was removed, or is still registered. */
  lemma {:induction false} Conservation(d: Table, now: nat, ticks: seq<Tick>)
    requires Run(d, now, ticks).Some?
    ensures var n := OfRun(d, now, ticks);
            |d| + n.joined == n.fired + n.quit + |Run(d, now, ticks).value|
    decreases |ticks|
  {
    if ticks != [] {
      var t, mid := ticks[0], Acts(d, now, TICK_LIMIT, ticks[0].before);
      ActsBalance(d, now, TICK_LIMIT, t.before);
      LogBalance(mid, now + 1, t.log, t.cb);
      Conservation(Replay(mid, now + 1, t.log, t.cb).value, now + 1, ticks[1..]);
    }
  }
}
