// What re-registration by a step does to a timer: its deadline, and how often it happens.

module TimerCascades {
  import opened Wrappers
  import opened WheelArithmetic
  import opened FlatTimers
  import opened TimerRuns

  // The deadline.

  /** The deadline after a cascade from wheel `wheel` at tick `now`, for every lead of the clock (taken in 32 bits).
      Short of the horizon the timer is late by the lead. From the horizon on it lands in a wheel that is still
      stale, and gains the horizon again. A sum beyond 32 bits starts over. The deadline is kept if and only if
      the lead is 0 or the horizon, or the sum is 2^32 with one tick to go. */
  lemma CascadeDelay(now: nat, wheel: nat, deadline: nat, lag: nat)
    requires now < deadline < now + Horizon(now, wheel + 1)
    ensures var left, l, horizon := deadline - now, lag % TICK_LIMIT, Horizon(now, wheel + 1);
      var x := Deadline(now, horizon, Ticks(left, lag));
      && (left + l < horizon ==> x == deadline + l)
      && (horizon <= left + l < TICK_LIMIT ==> x == deadline + l - horizon)
      && (left + l == TICK_LIMIT ==> x == now + 1)
      && (left + l > TICK_LIMIT ==> x == deadline + l - TICK_LIMIT < deadline)
      && (x == deadline <==> l == 0 || l == horizon || (left == 1 && l == TICK_LIMIT - 1))
  {
    var left, l, horizon := deadline - now, lag % TICK_LIMIT, Horizon(now, wheel + 1);
    LeadWraps(left, lag);
    assert left + l < TICK_LIMIT ==> (l + left) % TICK_LIMIT == l + left;
    assert TICK_LIMIT <= left + l ==> (l + left) % TICK_LIMIT == l + left - TICK_LIMIT;
    assert horizon == TICK_LIMIT || horizon <= Base(4);
  }

  /** The same in the table: of a cascade with whatever lead the timer comes out with this deadline, the others as
      they were. */
  lemma CascadeMoves(d: Table, now: nat, e: Event, i: nat, cb: Callbacks)
    requires e.Requeued? && Apply(d, now, e, i, cb).Some?
    ensures e.id in d && d[e.id] > now
    ensures var d', left, l := Apply(d, now, e, i, cb).value, d[e.id] - now, e.lag % 0x1_0000_0000;
      var horizon := Horizon(now, e.wheel + 1);
      && d' == d[e.id := d'[e.id]]
      && d'[e.id] == if left + l < horizon then d[e.id] + l
                     else if left + l < 0x1_0000_0000 then d[e.id] + l - horizon
                     else if left + l == 0x1_0000_0000 then now + 1
                     else d[e.id] + l - 0x1_0000_0000
  {
    CascadeDelay(now, e.wheel, d[e.id], e.lag);
    hide Deadline, Ticks, Horizon;
  }

  lemma LeadWraps(left: nat, lag: nat)
    ensures Ticks(left, lag) == Ticks(left, lag % TICK_LIMIT)
  {
    var q := lag / TICK_LIMIT;
    assert lag + left == TICK_LIMIT * q + (lag % TICK_LIMIT + left);
  }

  /** At tick 256 wheel 1 reaches slot 1; a timer there with 100 ticks left and a clock 10 ticks ahead
      goes to the slot for 110 ticks, and runs at 366 instead of 356. */
  lemma CascadeRunsLate(cb: Callbacks)
    ensures var cur := [0, 1, 0, 0, 0];
      && Shows(cur, 256, 2) && AtStage(256, 2) && Horizon(256, 2) == TICK_LIMIT
      && Due(cur, 256, 2, Slot(1, 1), 100) == 356
      && Due(cur, 256, 2, Place(cur, Ticks(100, 10)).slot, Place(cur, Ticks(100, 10)).left) == 366
    ensures Replay(map[7 := 356], 256, [Requeued(7, 1, 10)], cb) == Some(map[7 := 366])
  {
    ReplaysLate(cb);
    hide Replay;
  }

  lemma ReplaysLate(cb: Callbacks)
    ensures Replay(map[7 := 356], 256, [Requeued(7, 1, 10)], cb) == Some(map[7 := 366])
  {
    var e := Requeued(7, 1, 10);
    ReplayNothing(map[7 := 356], 256, cb);
    ReplayNext(map[7 := 356], 256, [], e, cb);
    assert [] + [e] == [e];
    assert map[7 := 356][7 := 366] == map[7 := 366];
  }

  /** At tick 16384 wheel 1 has come round and wheel 2 is still to move; a timer in wheel 1 with 200 ticks left and
      a clock 16184 ticks ahead goes to the slot that wheel 2 reaches in the same step, 200 ticks too early. */
  lemma CascadeRunsEarly(cb: Callbacks)
    requires cb(1, 7) == []
    ensures var cur := [0, 0, 0, 0, 0];
      && Shows(cur, 16384, 2) && AtStage(16384, 2) && Horizon(16384, 2) == 16384
      && Due(cur, 16384, 2, Slot(1, 0), 200) == 16584
      && Place(cur, Ticks(200, 16184)) == Placement(Slot(2, 1), 0)
      && Due(cur, 16384, 2, Slot(2, 1), 0) == 16384
    ensures Replay(map[7 := 16584], 16384, [Requeued(7, 1, 16184), Fired(7, 2)], cb) == Some(map[])
  {
    ReplaysEarly(cb);
    hide Replay;
  }

  lemma ReplaysEarly(cb: Callbacks)
    requires cb(1, 7) == []
    ensures Replay(map[7 := 16584], 16384, [Requeued(7, 1, 16184), Fired(7, 2)], cb) == Some(map[])
  {
    var d, e1, e2 := map[7 := 16584], Requeued(7, 1, 16184), Fired(7, 2);
    ReplayNothing(d, 16384, cb);
    ReplayNext(d, 16384, [], e1, cb);
    assert [] + [e1] == [e1] && [e1] + [e2] == [e1, e2];
    hide Replay;
    assert d[7 := 16384] == map[7 := 16384] && map[7 := 16384] - {7} == map[];
    assert Apply(d, 16384, e1, 0, cb) == Some(map[7 := 16384]);
    assert Apply(map[7 := 16384], 16384, e2, 1, cb) == Some(map[]);
    ReplayNext(d, 16384, [e1], e2, cb);
  }

  // How often.

  /** How often a timer in wheel `w` with remainder `left` can still be re-registered before it runs. */
  function Hops(w: nat, left: nat): nat
    requires w < WHEELS
  {
    if w == 0 || left < Base(w) then w else w + 1
  }

  /** Where a timer is linked, and with what remainder; None when it is not registered. */
  ghost function PlaceIn(owner: map<TimerId, Slot>, timeOut: map<TimerId, nat>, id: TimerId): Option<Placement>
  {
    if id in owner && id in timeOut then Some(Placement(owner[id], timeOut[id])) else None
  }

  function Rank(o: Option<Placement>): nat
  {
    if o.Some? && o.value.slot.wheel < WHEELS then Hops(o.value.slot.wheel, o.value.left) else 0
  }

  /** Which wheel and remainder a timer gets that wheel `w` re-registers while the lower wheels are at slot 0:
      it has at least one re-registration less to go. */
  lemma CascadePlacement(cur: seq<nat>, w: nat, left: nat)
    requires InRange(cur) && 1 <= w < WHEELS && 1 <= left < 2 * Base(w)
    requires forall v :: 0 <= v < w ==> cur[v] == 0
    ensures var p, v := Place(cur, left), WheelFor(left);
      p.slot.wheel == v <= w && (v > 0 ==> p.left == left % Base(v) < Base(v))
    ensures Rank(Some(Place(cur, left))) < Hops(w, left)
  {
  }

  /** The re-registrations of `id` in one step. */
  function Requeues(log: seq<Event>, id: TimerId): nat
  {
    if log == [] then 0
    else
      var e := log[|log| - 1];
      Requeues(log[..|log| - 1], id) + if e.Requeued? && e.id == id then 1 else 0
  }

  function RequeuesOver(ticks: seq<Tick>, id: TimerId): nat
  {
    if ticks == [] then 0 else RequeuesOver(ticks[..|ticks| - 1], id) + Requeues(ticks[|ticks| - 1].log, id)
  }

  /** Event `e`, the i-th of its step, leaves `id` alone: no call of its callback names `id`, no lead moves it. */
  predicate Spares(e: Event, cb: Callbacks, i: nat, id: TimerId)
  {
    && (e.Fired? ==> !Mentions(cb(i, e.id), id))
    && (e.Requeued? && e.id == id ==> e.lag == 0)
  }

  /** Every re-registration of a timer in these events has used up part of its rank, unless callbacks or leads
      have moved it; `o0` and `t0` are the lists and remainders before, `o` and `t` after. */
  ghost predicate RanksPay(log: seq<Event>, cb: Callbacks, o0: map<TimerId, Slot>, t0: map<TimerId, nat>,
          o: map<TimerId, Slot>, t: map<TimerId, nat>)
  {
    forall id :: Undisturbed(log, cb, 0, id) && NoLead(log, 0, id) ==>
      Requeues(log, id) + Rank(PlaceIn(o, t, id)) <= Rank(PlaceIn(o0, t0, id))
  }

  ghost predicate RanksPayOnce(e: Event, cb: Callbacks, i: nat, o0: map<TimerId, Slot>, t0: map<TimerId, nat>,
          o: map<TimerId, Slot>, t: map<TimerId, nat>)
  {
    forall id :: Spares(e, cb, i, id) ==>
      (if e.Requeued? && e.id == id then 1 else 0) + Rank(PlaceIn(o, t, id)) <= Rank(PlaceIn(o0, t0, id))
  }

  ghost predicate RanksPayOver(ticks: seq<Tick>, o0: map<TimerId, Slot>, t0: map<TimerId, nat>,
          o: map<TimerId, Slot>, t: map<TimerId, nat>)
  {
    forall id :: Untouched(ticks, id) && NoLeads(ticks, id) ==>
      RequeuesOver(ticks, id) + Rank(PlaceIn(o, t, id)) <= Rank(PlaceIn(o0, t0, id))
  }

  lemma PayNext(log: seq<Event>, e: Event, cb: Callbacks, o0: map<TimerId, Slot>, t0: map<TimerId, nat>,
          o1: map<TimerId, Slot>, t1: map<TimerId, nat>, o: map<TimerId, Slot>, t: map<TimerId, nat>)
    requires RanksPay(log, cb, o0, t0, o1, t1) && RanksPayOnce(e, cb, |log|, o1, t1, o, t)
    ensures RanksPay(log + [e], cb, o0, t0, o, t)
  {
    var log' := log + [e];
    assert log'[..|log|] == log;
    hide Rank, PlaceIn, Mentions;
    forall id | Undisturbed(log', cb, 0, id) && NoLead(log', 0, id)
      ensures Requeues(log', id) + Rank(PlaceIn(o, t, id)) <= Rank(PlaceIn(o0, t0, id))
    {
      assert forall i :: 0 <= i < |log| ==> log'[i] == log[i];
      assert log'[|log|] == e;
      assert Undisturbed(log, cb, 0, id) && NoLead(log, 0, id);
      assert Spares(e, cb, |log|, id);
    }
  }

  /** Calls between two steps change the rank of no timer they do not name. */
  ghost predicate SameUnlessNamed(acts: seq<Action>, o0: map<TimerId, Slot>, t0: map<TimerId, nat>,
          o: map<TimerId, Slot>, t: map<TimerId, nat>)
  {
    forall id :: !Mentions(acts, id) ==> PlaceIn(o, t, id) == PlaceIn(o0, t0, id)
  }

  lemma PayTick(ticks: seq<Tick>, tick: Tick, o0: map<TimerId, Slot>, t0: map<TimerId, nat>,
          o1: map<TimerId, Slot>, t1: map<TimerId, nat>, o2: map<TimerId, Slot>, t2: map<TimerId, nat>,
          o: map<TimerId, Slot>, t: map<TimerId, nat>)
    requires RanksPayOver(ticks, o0, t0, o1, t1) && SameUnlessNamed(tick.before, o1, t1, o2, t2)
    requires RanksPay(tick.log, tick.cb, o2, t2, o, t)
    ensures RanksPayOver(ticks + [tick], o0, t0, o, t)
  {
    var all := ticks + [tick];
    assert all[..|ticks|] == ticks;
    hide Rank, PlaceIn, Mentions, Undisturbed, NoLead;
    forall id | Untouched(all, id) && NoLeads(all, id)
      ensures RequeuesOver(all, id) + Rank(PlaceIn(o, t, id)) <= Rank(PlaceIn(o0, t0, id))
    {
      assert forall j :: 0 <= j < |ticks| ==> all[j] == ticks[j];
      assert all[|ticks|] == tick;
      assert Untouched(ticks, id) && NoLeads(ticks, id);
    }
  }

  ghost predicate SameBut(id: TimerId, o0: map<TimerId, Slot>, t0: map<TimerId, nat>,
          o: map<TimerId, Slot>, t: map<TimerId, nat>)
  {
    forall x :: x != id ==> PlaceIn(o, t, x) == PlaceIn(o0, t0, x)
  }

  lemma SameButTwice(id: TimerId, o0: map<TimerId, Slot>, t0: map<TimerId, nat>,
          o1: map<TimerId, Slot>, t1: map<TimerId, nat>, o: map<TimerId, Slot>, t: map<TimerId, nat>)
    requires SameBut(id, o0, t0, o1, t1) && SameBut(id, o1, t1, o, t)
    ensures SameBut(id, o0, t0, o, t)
  {
    hide PlaceIn;
  }

  lemma NamedNothing(o: map<TimerId, Slot>, t: map<TimerId, nat>)
    ensures SameUnlessNamed([], o, t, o, t)
  {
  }

  lemma NamedThen(acts: seq<Action>, a: Action, o0: map<TimerId, Slot>, t0: map<TimerId, nat>,
          o1: map<TimerId, Slot>, t1: map<TimerId, nat>, o: map<TimerId, Slot>, t: map<TimerId, nat>)
    requires SameUnlessNamed(acts, o0, t0, o1, t1) && SameBut(a.id, o1, t1, o, t)
    ensures SameUnlessNamed(acts + [a], o0, t0, o, t)
  {
    hide PlaceIn;
    var more := acts + [a];
    assert more[|acts|] == a;
    forall x | !Mentions(more, x)
      ensures PlaceIn(o, t, x) == PlaceIn(o0, t0, x)
    {
      assert forall i :: 0 <= i < |acts| ==> acts[i] == more[i];
      assert !Mentions(acts, x);
    }
  }

  lemma PayFired(e: Event, cb: Callbacks, i: nat, o0: map<TimerId, Slot>, t0: map<TimerId, nat>,
          o1: map<TimerId, Slot>, t1: map<TimerId, nat>, o: map<TimerId, Slot>, t: map<TimerId, nat>)
    requires e.Fired? && PlaceIn(o1, t1, e.id) == None && SameUnlessNamed(cb(i, e.id), o1, t1, o, t)
    requires SameBut(e.id, o0, t0, o1, t1)
    ensures RanksPayOnce(e, cb, i, o0, t0, o, t)
  {
    hide PlaceIn, Mentions, Hops;
  }

  lemma PayRequeued(e: Event, cb: Callbacks, i: nat, o0: map<TimerId, Slot>, t0: map<TimerId, nat>,
          o: map<TimerId, Slot>, t: map<TimerId, nat>, cur: seq<nat>, w: nat, s: Slot, left: nat)
    requires InRange(cur) && 1 <= w < WHEELS && 1 <= left < 2 * Base(w) && s.wheel == w
    requires forall v :: 0 <= v < w ==> cur[v] == 0
    requires e.Requeued? && PlaceIn(o0, t0, e.id) == Some(Placement(s, left))
    requires PlaceIn(o, t, e.id) == Some(Place(cur, Ticks(left, e.lag)))
    requires SameBut(e.id, o0, t0, o, t)
    ensures RanksPayOnce(e, cb, i, o0, t0, o, t)
  {
    if e.lag == 0 {
      assert Ticks(left, 0) == left;
      CascadePlacement(cur, w, left);
    }
    hide PlaceIn, Mentions, Hops, Place, Ticks;
  }

  lemma PayNothing(cb: Callbacks, o: map<TimerId, Slot>, t: map<TimerId, nat>)
    ensures RanksPay([], cb, o, t, o, t)
  {
  }

  lemma PayNoTicks(o: map<TimerId, Slot>, t: map<TimerId, nat>)
    ensures RanksPayOver([], o, t, o, t)
  {
  }

  /** The bound that the ranks give at the end of a run. */
  lemma PaidOver(ticks: seq<Tick>, o0: map<TimerId, Slot>, t0: map<TimerId, nat>,
          o: map<TimerId, Slot>, t: map<TimerId, nat>)
    requires RanksPayOver(ticks, o0, t0, o, t)
    ensures forall id :: id in o0 && Untouched(ticks, id) && NoLeads(ticks, id) ==>
              RequeuesOver(ticks, id) <= o0[id].wheel + 1
  {
    hide Untouched, NoLeads;
  }
}
