// What the timing wheel promises over whole runs, for all callbacks and all readings of the clock.

module TimerRuns {
  import opened Wrappers
  import opened WheelArithmetic
  import opened FlatTimers

  /** `id` fires in one of the events of a step from event `from` on. */
  predicate FiredFrom(log: seq<Event>, from: nat, id: TimerId)
  {
    exists i :: from <= i < |log| && log[i].Fired? && log[i].id == id
  }

  predicate FiredIn(log: seq<Event>, id: TimerId)
  {
    FiredFrom(log, 0, id)
  }

  predicate Mentions(acts: seq<Action>, id: TimerId)
  {
    exists i :: 0 <= i < |acts| && acts[i].id == id
  }

  /** No callback run from event `from` on touches `id`. */
  predicate Undisturbed(log: seq<Event>, cb: Callbacks, from: nat, id: TimerId)
  {
    forall i :: from <= i < |log| && log[i].Fired? ==> !Mentions(cb(i, log[i].id), id)
  }

  /** The clock is not ahead whenever `id` itself is re-queued. */
  predicate NoLead(log: seq<Event>, from: nat, id: TimerId)
  {
    forall i :: from <= i < |log| && log[i].Requeued? && log[i].id == id ==> log[i].lag == 0
  }

  /** One step of the manager: what was registered or removed before it, and what happened during it. */
  datatype Tick = Tick(before: seq<Action>, log: seq<Event>, cb: Callbacks)

  predicate AllAhead(d: Table, now: nat)
  {
    forall id :: id in d ==> d[id] > now
  }

  /** The table after a number of steps from tick `now`; None if it is not a possible history. */
  function Run(d: Table, now: nat, ticks: seq<Tick>): Option<Table>
    decreases |ticks|
  {
    if ticks == [] then Some(d)
    else
      var t := ticks[0];
      match Replay(Acts(d, now, TICK_LIMIT, t.before), now + 1, t.log, t.cb)
      case None => None
      case Some(d') => if AllAhead(d', now + 1) then Run(d', now + 1, ticks[1..]) else None
  }

  /** No call between the steps and no callback touches `id`. */
  predicate Untouched(ticks: seq<Tick>, id: TimerId)
  {
    forall j :: 0 <= j < |ticks| ==> !Mentions(ticks[j].before, id) && Undisturbed(ticks[j].log, ticks[j].cb, 0, id)
  }

  predicate NoLeads(ticks: seq<Tick>, id: TimerId)
  {
    forall j :: 0 <= j < |ticks| ==> NoLead(ticks[j].log, 0, id)
  }

  /** What the cascades of one step make of the deadline `x` of `id`. */
  function DueAfter(x: int, now: nat, log: seq<Event>, from: nat, id: TimerId): int
  {
    if |log| <= from then x
    else
      var y, e := DueAfter(x, now, log[..|log| - 1], from, id), log[|log| - 1];
      if e.Requeued? && e.id == id && y > now then Deadline(now, HorizonOf(now, e), Ticks(y - now, e.lag)) else y
  }

  /** The tick at which `id` fires if the run reaches it, or else what its deadline has become. */
  function DueOver(x: int, now: nat, ticks: seq<Tick>, id: TimerId): int
    decreases |ticks|
  {
    if ticks == [] then x
    else
      var y := DueAfter(x, now + 1, ticks[0].log, 0, id);
      if y <= now + 1 then y else DueOver(y, now + 1, ticks[1..], id)
  }

  lemma {:induction false} ActsElsewhere(d: Table, now: nat, horizon: nat, acts: seq<Action>, id: TimerId)
    requires !Mentions(acts, id)
    ensures id in Acts(d, now, horizon, acts) <==> id in d
    ensures id in d ==> Acts(d, now, horizon, acts)[id] == d[id]
  {
    if acts != [] {
      ActsElsewhere(d, now, horizon, acts[..|acts| - 1], id);
    }
  }

  lemma LogGrows(log: seq<Event>, from: nat, id: TimerId)
    requires from < |log|
    ensures var n := |log| - 1;
            FiredFrom(log, from, id) <==> FiredFrom(log[..n], from, id) || (log[n].Fired? && log[n].id == id)
  {
    var n := |log| - 1;
    assert log == log[..n] + [log[n]];
  }

  /** From any event of a step on, a timer that callbacks leave alone goes by its moving deadline:
      it fires when that is the present tick, and then it is gone; else the deadline is in the table. */
  lemma {:induction false} WithinStep(d: Table, now: nat, log: seq<Event>, cb: Callbacks, from: nat, id: TimerId)
    requires Replay(d, now, log, cb).Some? && Undisturbed(log, cb, from, id) && from <= |log|
    ensures Replay(d, now, log[..from], cb).Some?
    ensures var d0, d' := Replay(d, now, log[..from], cb).value, Replay(d, now, log, cb).value;
      if FiredFrom(log, from, id) then id in d0 && DueAfter(d0[id], now, log, from, id) == now && id !in d'
      else (id in d' <==> id in d0) && (id in d0 ==> d'[id] == DueAfter(d0[id], now, log, from, id))
  {
    hide Deadline, Ticks, Mentions, Apply;
    var n := |log| - 1;
    if from == |log| {
      assert log[..from] == log;
    } else {
      WithinStep(d, now, log[..n], cb, from, id);
      assert log[..n][..from] == log[..from];
      LogGrows(log, from, id);
      hide FiredFrom;
      WithinEvent(Replay(d, now, log[..n], cb).value, now, log[n], n, cb, id);
    }
  }

  lemma WithinEvent(d: Table, now: nat, e: Event, i: nat, cb: Callbacks, id: TimerId)
    requires Apply(d, now, e, i, cb).Some? && (e.Fired? ==> !Mentions(cb(i, e.id), id))
    ensures id in d && e.Fired? && e.id == id ==> d[id] == now && id !in Apply(d, now, e, i, cb).value
    ensures id !in d ==> id !in Apply(d, now, e, i, cb).value && e.id != id
    ensures id in d && !(e.Fired? && e.id == id) ==> id in Apply(d, now, e, i, cb).value
    ensures id in d && e.id != id ==> Apply(d, now, e, i, cb).value[id] == d[id]
    ensures e.Requeued? && e.id == id ==> d[id] > now
    ensures e.Requeued? && e.id == id ==>
              Apply(d, now, e, i, cb).value[id] == Deadline(now, HorizonOf(now, e), Ticks(d[id] - now, e.lag))
  {
    hide Deadline, Ticks, Mentions;
    if e.Fired? {
      ActsElsewhere(d - {e.id}, now, HorizonOf(now, e), cb(i, e.id), id);
    }
  }

  /** Without leads the cascades of a step leave the deadline as it is. */
  lemma {:induction false} KeptInStep(d: Table, now: nat, log: seq<Event>, cb: Callbacks, from: nat, id: TimerId)
    requires Replay(d, now, log, cb).Some? && Undisturbed(log, cb, from, id) && from <= |log| && NoLead(log, from, id)
    requires Replay(d, now, log[..from], cb).Some? && id in Replay(d, now, log[..from], cb).value
    ensures var x := Replay(d, now, log[..from], cb).value[id]; DueAfter(x, now, log, from, id) == x
  {
    hide Mentions, FiredFrom, Apply, Deadline, Ticks;
    var n, x := |log| - 1, Replay(d, now, log[..from], cb).value[id];
    if from < |log| {
      assert log[..n][..from] == log[..from];
      KeptInStep(d, now, log[..n], cb, from, id);
      WithinStep(d, now, log[..n], cb, from, id);
      hide Undisturbed;
      if log[n].Requeued? && log[n].id == id && x > now {
        RequeuedKeeps(Replay(d, now, log[..n], cb).value, now, log[n], n, cb);
      }
    }
  }

  lemma RequeuedKeeps(d: Table, now: nat, e: Event, i: nat, cb: Callbacks)
    requires Apply(d, now, e, i, cb).Some? && e.Requeued? && e.lag == 0
    ensures e.id in d && d[e.id] > now && Deadline(now, HorizonOf(now, e), Ticks(d[e.id] - now, e.lag)) == d[e.id]
  {
    assert Ticks(d[e.id] - now, 0) == d[e.id] - now;
  }

  /** A timer that is not registered does not fire unless something registers it. */
  lemma {:induction false} NeverFires(d: Table, now: nat, ticks: seq<Tick>, id: TimerId)
    requires id !in d && Run(d, now, ticks).Some? && Untouched(ticks, id)
    ensures forall j :: 0 <= j < |ticks| ==> !FiredIn(ticks[j].log, id)
    decreases |ticks|
  {
    if ticks != [] {
      var t, mid := ticks[0], Acts(d, now, TICK_LIMIT, ticks[0].before);
      ActsElsewhere(d, now, TICK_LIMIT, t.before, id);
      WithinStep(mid, now + 1, t.log, t.cb, 0, id);
      var rest := ticks[1..];
      NeverFires(Replay(mid, now + 1, t.log, t.cb).value, now + 1, rest, id);
      forall j | 0 <= j < |ticks|
        ensures !FiredIn(ticks[j].log, id)
      {
        if j > 0 {
          assert ticks[j] == rest[j - 1];
        }
      }
    }
  }

  /** Whatever the clock does meanwhile: a timer left alone fires in the step that reaches its moving deadline,
      once, and in no other. */
  lemma {:induction false} FiresWhenDue(d: Table, now: nat, ticks: seq<Tick>, id: TimerId)
    requires id in d && d[id] > now && Run(d, now, ticks).Some? && Untouched(ticks, id)
    ensures forall j :: 0 <= j < |ticks| ==>
              (FiredIn(ticks[j].log, id) <==> DueOver(d[id], now, ticks, id) == now + j + 1)
    decreases |ticks|
  {
    if ticks != [] {
      var t, mid := ticks[0], Acts(d, now, TICK_LIMIT, ticks[0].before);
      ActsElsewhere(d, now, TICK_LIMIT, t.before, id);
      WithinStep(mid, now + 1, t.log, t.cb, 0, id);
      var d', rest := Replay(mid, now + 1, t.log, t.cb).value, ticks[1..];
      var y := DueAfter(d[id], now + 1, t.log, 0, id);
      if FiredIn(t.log, id) {
        NeverFires(d', now + 1, rest, id);
      } else {
        FiresWhenDue(d', now + 1, rest, id);
        DueLater(y, now + 1, rest, id);
      }
      forall j | 0 <= j < |ticks|
        ensures FiredIn(ticks[j].log, id) <==> DueOver(d[id], now, ticks, id) == now + j + 1
      {
        if j > 0 {
          assert ticks[j] == rest[j - 1];
        }
      }
    }
  }

  lemma {:induction false} NotBefore(x: int, now: nat, log: seq<Event>, from: nat, id: TimerId)
    requires x >= now
    ensures DueAfter(x, now, log, from, id) >= now
  {
    if from < |log| {
      NotBefore(x, now, log[..|log| - 1], from, id);
    }
  }

  lemma {:induction false} DueLater(x: int, now: nat, ticks: seq<Tick>, id: TimerId)
    requires x > now
    ensures DueOver(x, now, ticks, id) > now
    decreases |ticks|
  {
    if ticks != [] {
      NotBefore(x, now + 1, ticks[0].log, 0, id);
      var y := DueAfter(x, now + 1, ticks[0].log, 0, id);
      if y > now + 1 {
        DueLater(y, now + 1, ticks[1..], id);
      }
    }
  }

  /** A timer due at tick D, left alone and never re-queued while the clock is ahead, fires in the step
      that reaches D, once, and in no other. */
  lemma {:induction false} FiresAtDeadline(d: Table, now: nat, ticks: seq<Tick>, id: TimerId)
    requires id in d && d[id] > now && Run(d, now, ticks).Some? && Untouched(ticks, id) && NoLeads(ticks, id)
    ensures forall j :: 0 <= j < |ticks| ==> (FiredIn(ticks[j].log, id) <==> d[id] == now + j + 1)
  {
    FiresWhenDue(d, now, ticks, id);
    KeptOver(d, now, ticks, id);
  }

  lemma {:induction false} KeptOver(d: Table, now: nat, ticks: seq<Tick>, id: TimerId)
    requires id in d && d[id] > now && Run(d, now, ticks).Some? && Untouched(ticks, id) && NoLeads(ticks, id)
    ensures DueOver(d[id], now, ticks, id) == d[id]
    decreases |ticks|
  {
    if ticks != [] {
      var t, mid := ticks[0], Acts(d, now, TICK_LIMIT, ticks[0].before);
      ActsElsewhere(d, now, TICK_LIMIT, t.before, id);
      WithinStep(mid, now + 1, t.log, t.cb, 0, id);
      assert t.log[..0] == [];
      KeptInStep(mid, now + 1, t.log, t.cb, 0, id);
      if d[id] > now + 1 {
        KeptOver(Replay(mid, now + 1, t.log, t.cb).value, now + 1, ticks[1..], id);
      }
    }
  }

  /** A timer registered between steps with timeout `timeout` and clock lead `lag` runs in the (timeout + lag)-th step
      after that and in no other; the sum is taken less a multiple of 2^32, and 0 counts as 1. */
  lemma RegisteredTimerRunsOnTime(d: Table, now: nat, id: TimerId, timeout: Timeout, lag: nat, ticks: seq<Tick>)
    returns (wraps: nat, n: nat)
    requires var d' := Act(d, now, TICK_LIMIT, Register(id, timeout, lag)); Run(d', now, ticks).Some?
    requires Untouched(ticks, id) && NoLeads(ticks, id)
    ensures timeout + lag == wraps * 0x1_0000_0000 + n && n < 0x1_0000_0000
    ensures forall j :: 0 <= j < |ticks| ==> (FiredIn(ticks[j].log, id) <==> j + 1 == if n == 0 then 1 else n)
    ensures timeout + lag < 0x1_0000_0000 ==> forall j :: 0 <= j < |ticks| ==>
              (FiredIn(ticks[j].log, id) <==> j + 1 == if timeout + lag == 0 then 1 else timeout + lag)
  {
    FiresAtDeadline(Act(d, now, TICK_LIMIT, Register(id, timeout, lag)), now, ticks, id);
    wraps, n := TicksCounted(timeout, lag);
  }

  /** A timer that has been unregistered does not fire unless something registers it again. */
  lemma UnregisteredNeverFires(d: Table, now: nat, id: TimerId, ticks: seq<Tick>)
    requires Run(Act(d, now, TICK_LIMIT, Unregister(id)), now, ticks).Some? && Untouched(ticks, id)
    ensures forall j :: 0 <= j < |ticks| ==> !FiredIn(ticks[j].log, id)
  {
    NeverFires(Act(d, now, TICK_LIMIT, Unregister(id)), now, ticks, id);
  }

  /** The steps from a registration by a callback to the firing: exact below the horizon, else `horizon` fewer. */
  function StepsLater(horizon: nat, t: nat): nat {
    if t < horizon then t else t - horizon
  }

  lemma {:induction false} CallbackInFirstStep(d: Table, now: nat, ticks: seq<Tick>, i: nat, pre: seq<Action>,
          id: TimerId, timeout: Timeout, lag: nat, post: seq<Action>)
    requires ticks != [] && Run(d, now, ticks).Some?
    requires var t := ticks[0];
      && i < |t.log| && t.log[i].Fired? && t.cb(i, t.log[i].id) == pre + [Register(id, timeout, lag)] + post
      && !Mentions(post, id) && Undisturbed(t.log, t.cb, i + 1, id) && NoLead(t.log, i + 1, id)
    requires Untouched(ticks[1..], id) && NoLeads(ticks[1..], id)
    ensures var h, n := HorizonOf(now + 1, ticks[0].log[i]), Ticks(timeout, lag);
      && (FiredFrom(ticks[0].log, i + 1, id) <==> StepsLater(h, n) == 0)
      && (forall j :: 1 <= j < |ticks| ==> (FiredIn(ticks[j].log, id) <==> j == StepsLater(h, n)))
      && (n < |ticks| ==> (FiredIn(ticks[n].log, id) <==> n < h))
  {
    var t, mid, rest := ticks[0], Acts(d, now, TICK_LIMIT, ticks[0].before), ticks[1..];
    var h, n := HorizonOf(now + 1, t.log[i]), Ticks(timeout, lag);
    var d', log1 := Replay(mid, now + 1, t.log, t.cb).value, t.log[..i + 1];
    WithinStep(mid, now + 1, t.log, t.cb, i + 1, id);
    WithinStep(mid, now + 1, log1, t.cb, i + 1, id);
    var d1 := Replay(mid, now + 1, log1, t.cb).value;
    RegisteredBy(mid, now + 1, log1, t.cb, pre, id, timeout, lag, post);
    assert d1[id] == now + 1 + StepsLater(h, n);
    KeptInStep(mid, now + 1, t.log, t.cb, i + 1, id);
    if FiredFrom(t.log, i + 1, id) {
      NeverFires(d', now + 1, rest, id);
    } else {
      FiresAtDeadline(d', now + 1, rest, id);
    }
    forall j | 1 <= j < |ticks|
      ensures FiredIn(ticks[j].log, id) <==> j == StepsLater(h, n)
    {
      assert ticks[j] == rest[j - 1];
    }
  }

  /** A timer whose last registration in a step is made by the callback of event `i` for t ticks (timeout and lead
      less a multiple of 2^32, and 1 for 0) runs t steps later below the horizon h of that event and t - h steps
      later above it: in the same step when they are equal. So it runs on time if and only if t < h. */
  lemma CallbackTimerRuns(d: Table, now: nat, ticks: seq<Tick>, k: nat, i: nat, pre: seq<Action>,
          id: TimerId, timeout: Timeout, lag: nat, post: seq<Action>) returns (wraps: nat, n: nat)
    requires k < |ticks| && Run(d, now, ticks).Some?
    requires var t := ticks[k];
      && i < |t.log| && t.log[i].Fired? && t.cb(i, t.log[i].id) == pre + [Register(id, timeout, lag)] + post
      && !Mentions(post, id) && Undisturbed(t.log, t.cb, i + 1, id) && NoLead(t.log, i + 1, id)
    requires Untouched(ticks[k + 1..], id) && NoLeads(ticks[k + 1..], id)
    ensures timeout + lag == wraps * 0x1_0000_0000 + n && n < 0x1_0000_0000
    ensures var h, t := HorizonOf(now + k + 1, ticks[k].log[i]), if n == 0 then 1 else n;
      && (FiredFrom(ticks[k].log, i + 1, id) <==> t == h)
      && (forall j :: k < j < |ticks| ==> (FiredIn(ticks[j].log, id) <==> j - k == if t < h then t else t - h))
      && (k + t < |ticks| ==> (FiredIn(ticks[k + t].log, id) <==> t < h))
  {
    wraps, n := TicksCounted(timeout, lag);
    var d' := Suffix(d, now, ticks, k);
    var rest := ticks[k..];
    assert rest[1..] == ticks[k + 1..];
    CallbackInFirstStep(d', now + k, rest, i, pre, id, timeout, lag, post);
    var h := HorizonOf(now + k + 1, ticks[k].log[i]);
    forall j | k < j < |ticks|
      ensures FiredIn(ticks[j].log, id) <==> j - k == StepsLater(h, Ticks(timeout, lag))
    {
      assert ticks[j] == rest[j - k];
    }
  }

  /** From any step on, a run is a run. */
  lemma {:induction false} Suffix(d: Table, now: nat, ticks: seq<Tick>, k: nat) returns (d': Table)
    requires k <= |ticks| && Run(d, now, ticks).Some?
    ensures Run(d', now + k, ticks[k..]) == Run(d, now, ticks)
    decreases k
  {
    hide Acts, Replay, AllAhead;
    if k == 0 {
      d' := d;
      assert ticks[0..] == ticks;
    } else {
      var t := ticks[0];
      d' := Suffix(Replay(Acts(d, now, TICK_LIMIT, t.before), now + 1, t.log, t.cb).value, now + 1, ticks[1..], k - 1);
      assert ticks[1..][k - 1..] == ticks[k..];
    }
  }

  /** The table right after a callback that registers `id` and then leaves it alone. */
  lemma RegisteredBy(d: Table, now: nat, log: seq<Event>, cb: Callbacks, pre: seq<Action>, id: TimerId,
          timeout: Timeout, lag: nat, post: seq<Action>)
    requires Replay(d, now, log, cb).Some? && log != [] && log[|log| - 1].Fired? && !Mentions(post, id)
    requires cb(|log| - 1, log[|log| - 1].id) == pre + [Register(id, timeout, lag)] + post
    ensures var d', h := Replay(d, now, log, cb).value, HorizonOf(now, log[|log| - 1]);
            id in d' && d'[id] == Deadline(now, h, Ticks(timeout, lag))
  {
    var e := log[|log| - 1];
    var d0 := Replay(d, now, log[..|log| - 1], cb).value - {e.id};
    ActsConcat(d0, now, HorizonOf(now, e), pre + [Register(id, timeout, lag)], post);
    var mid := Acts(d0, now, HorizonOf(now, e), pre + [Register(id, timeout, lag)]);
    assert (pre + [Register(id, timeout, lag)])[..|pre|] == pre;
    ActsElsewhere(mid, now, HorizonOf(now, e), post, id);
  }

  lemma {:induction false} ActsConcat(d: Table, now: nat, horizon: nat, a: seq<Action>, b: seq<Action>)
    ensures Acts(d, now, horizon, a + b) == Acts(Acts(d, now, horizon, a), now, horizon, b)
  {
    if b == [] {
      assert a + b == a;
    } else {
      var n := |b| - 1;
      ActsConcat(d, now, horizon, a, b[..n]);
      assert (a + b)[..|a + b| - 1] == a + b[..n] && (a + b)[|a + b| - 1] == b[n];
    }
  }

  lemma RunNothing(d: Table, now: nat)
    ensures Run(d, now, []) == Some(d)
  {
  }

  lemma RunOne(d: Table, now: nat, t: Tick, d': Table)
    requires Replay(Acts(d, now, TICK_LIMIT, t.before), now + 1, t.log, t.cb) == Some(d') && AllAhead(d', now + 1)
    ensures Run(d, now, [t]) == Some(d')
  {
  }

  lemma {:induction false} RunThen(d: Table, now: nat, ticks: seq<Tick>, t: Tick, d': Table)
    requires Run(d, now, ticks) == Some(d')
    ensures Run(d, now, ticks + [t]) == Run(d', now + |ticks|, [t])
    decreases |ticks|
  {
    if ticks == [] {
      assert ticks + [t] == [t];
    } else {
      var mid := Replay(Acts(d, now, TICK_LIMIT, ticks[0].before), now + 1, ticks[0].log, ticks[0].cb).value;
      RunThen(mid, now + 1, ticks[1..], t, d');
      assert (ticks + [t])[1..] == ticks[1..] + [t];
    }
  }

  /** In position `front` of a step, registration is exact if and only if the timeout is below the horizon. */
  lemma PlaceExactIff(cur: seq<nat>, n: nat, front: nat, t: nat)
    requires InRange(cur) && Shows(cur, n, front) && AtStage(n, front) && 1 <= t < TICK_LIMIT
    ensures var p := Place(cur, t);
      && ValidSlot(p.slot)
      && (Due(cur, n, front, p.slot, p.left) == n + t <==> t < Horizon(n, front))
  {
    PlaceDeadline(cur, n, front, t);
  }

  /** The failing family has members: at tick 256, when wheel 0 has just come round, a callback that
      registers a timeout of 256 gets it in the very same step instead of at tick 512. */
  lemma WrapCallbackRunsEarly()
    ensures var cur := [0, 0, 0, 0, 0];
      && Shows(cur, 256, 1) && AtStage(256, 1)
      && var p := Place(cur, 256);
         && p.slot == Slot(1, 1) && p.left == 0
         && Due(cur, 256, 1, p.slot, p.left) == 256
  {
    assert Place([0, 0, 0, 0, 0], 256).left == 0;
  }
}
