// dbase::time::TimerMgr: five wheels of slot lists, refining a table of deadlines.

module TimerWheel {
  import opened Wrappers
  import opened WheelArithmetic
  import opened FlatTimers
  import opened TimerRuns
  import opened TimerCascades

  predicate Distinct(s: seq<TimerId>)
  {
    forall i, j :: 0 <= i < j < |s| ==> s[i] != s[j]
  }

  /** A slot list after `id` has been unlinked from it. */
  function Without(s: seq<TimerId>, id: TimerId): (r: seq<TimerId>)
    requires Distinct(s) && id in s
    ensures Distinct(r) && |r| == |s| - 1
    ensures forall x :: x in r <==> x in s && x != id
  {
    var i :| 0 <= i < |s| && s[i] == id;
    assert forall x :: x in s <==> x in s[..i] || x == id || x in s[i + 1..];
    s[..i] + s[i + 1..]
  }

  function With(s: seq<TimerId>, id: TimerId): (r: seq<TimerId>)
    requires Distinct(s) && id !in s
    ensures Distinct(r)
    ensures forall x :: x in r <==> x in s || x == id
  {
    s + [id]
  }

  /** Every registered timer is linked exactly once, in the list it says it is in. */
  ghost predicate LinkedIn(tlist: map<Slot, seq<TimerId>>, owner: map<TimerId, Slot>)
  {
    && (forall s :: s in tlist <==> ValidSlot(s))
    && (forall s :: s in tlist ==> Distinct(tlist[s]))
    && (forall id :: id in owner ==> owner[id] in tlist && id in tlist[owner[id]])
    && (forall s, id :: s in tlist && id in tlist[s] ==> id in owner && owner[id] == s)
  }

  lemma LinkedWithout(tlist: map<Slot, seq<TimerId>>, owner: map<TimerId, Slot>, id: TimerId)
    requires LinkedIn(tlist, owner) && id in owner
    ensures var s := owner[id]; LinkedIn(tlist[s := Without(tlist[s], id)], owner - {id})
  {
    hide Distinct, ValidSlot;
  }

  lemma LinkedWith(tlist: map<Slot, seq<TimerId>>, owner: map<TimerId, Slot>, id: TimerId, s: Slot)
    requires LinkedIn(tlist, owner) && id !in owner && ValidSlot(s)
    ensures LinkedIn(tlist[s := With(tlist[s], id)], owner[id := s])
  {
    hide Distinct, ValidSlot;
  }

  ghost predicate InPosition(cur: seq<nat>, now: nat, front: nat)
  {
    InRange(cur) && Shows(cur, now, front) && AtStage(now, front)
  }

  /** The deadlines of the timers linked as `owner` says, with remainders `timeOut`. */
  ghost function TableOf(owner: map<TimerId, Slot>, timeOut: map<TimerId, nat>, cur: seq<nat>, now: nat,
          front: nat): Table
    requires owner.Keys <= timeOut.Keys && InRange(cur)
    requires forall id :: id in owner ==> ValidSlot(owner[id])
  {
    map id | id in owner :: Due(cur, now, front, owner[id], timeOut[id])
  }

  /** While wheel front - 1 is drained only its current slot may hold timers due now. */
  ghost predicate OnlyCurrent(owner: map<TimerId, Slot>, cur: seq<nat>, front: nat, draining: bool)
    requires InRange(cur) && front <= WHEELS
    requires forall id :: id in owner ==> ValidSlot(owner[id])
  {
    forall id :: id in owner && Distance(cur, owner[id]) == 0 ==>
      draining && front > 0 && owner[id] == Slot(front - 1, cur[front - 1])
  }

  /** What is left after a timer's slot comes up is less than two slots of its wheel. */
  ghost predicate SmallRemainders(owner: map<TimerId, Slot>, timeOut: map<TimerId, nat>)
    requires owner.Keys <= timeOut.Keys
  {
    forall id :: id in owner ==> timeOut[id] < 2 * Base(owner[id].wheel)
  }

  lemma TableWithout(owner: map<TimerId, Slot>, timeOut: map<TimerId, nat>, cur: seq<nat>, now: nat, front: nat,
                     draining: bool, id: TimerId)
    requires owner.Keys <= timeOut.Keys && InRange(cur) && front <= WHEELS
    requires forall x :: x in owner ==> ValidSlot(owner[x])
    ensures TableOf(owner, timeOut, cur, now, front).Keys == owner.Keys
    ensures TableOf(owner - {id}, timeOut, cur, now, front) == TableOf(owner, timeOut, cur, now, front) - {id}
    ensures OnlyCurrent(owner, cur, front, draining) ==> OnlyCurrent(owner - {id}, cur, front, draining)
    ensures SmallRemainders(owner, timeOut) ==> SmallRemainders(owner - {id}, timeOut)
  {
    hide Due, Distance, ValidSlot, InRange, Base;
  }

  lemma TableWith(owner: map<TimerId, Slot>, timeOut: map<TimerId, nat>, cur: seq<nat>, now: nat, front: nat,
                  draining: bool, id: TimerId, s: Slot, left: nat)
    requires owner.Keys <= timeOut.Keys && InRange(cur) && front <= WHEELS
    requires forall x :: x in owner ==> ValidSlot(owner[x])
    requires id !in owner && ValidSlot(s) && Distance(cur, s) > 0
    requires OnlyCurrent(owner, cur, front, draining)
    ensures OnlyCurrent(owner[id := s], cur, front, draining)
    ensures TableOf(owner[id := s], timeOut[id := left], cur, now, front)
         == TableOf(owner, timeOut, cur, now, front)[id := Due(cur, now, front, s, left)]
  {
    hide Due, Distance, ValidSlot, InRange;
  }

  lemma PlacesWith(owner: map<TimerId, Slot>, timeOut: map<TimerId, nat>, id: TimerId, s: Slot, left: nat)
    requires owner.Keys <= timeOut.Keys && SmallRemainders(owner, timeOut) && left < 2 * Base(s.wheel)
    ensures SmallRemainders(owner[id := s], timeOut[id := left])
    ensures PlaceIn(owner[id := s], timeOut[id := left], id) == Some(Placement(s, left))
    ensures SameBut(id, owner, timeOut, owner[id := s], timeOut[id := left])
  {
  }

  lemma SameTable(owner: map<TimerId, Slot>, timeOut: map<TimerId, nat>, cur: seq<nat>, now: nat, front: nat,
          now': nat, front': nat)
    requires owner.Keys <= timeOut.Keys && InRange(cur)
    requires forall x :: x in owner ==> ValidSlot(owner[x])
    requires forall w :: 0 <= w < WHEELS ==> Moved(now, front, w) == Moved(now', front', w)
    ensures TableOf(owner, timeOut, cur, now, front) == TableOf(owner, timeOut, cur, now', front')
  {
    hide Moved, Span, Distance;
  }

  lemma TableMoves(owner: map<TimerId, Slot>, timeOut: map<TimerId, nat>, cur: seq<nat>, n: nat, w: nat, cur': seq<nat>)
    requires owner.Keys <= timeOut.Keys
    requires forall x :: x in owner ==> ValidSlot(owner[x])
    requires w < WHEELS && n >= 1 && n % Base(w) == 0 && InRange(cur) && InRange(cur')
    requires cur' == cur[w := (cur[w] + 1) % Slots(w)]
    requires OnlyCurrent(owner, cur, w, false)
    ensures TableOf(owner, timeOut, cur', n, w + 1) == TableOf(owner, timeOut, cur, n, w)
    ensures OnlyCurrent(owner, cur', w + 1, true)
  {
    hide Due, Distance, Base, Slots;
    forall id | id in owner
      ensures Due(cur', n, w + 1, owner[id], timeOut[id]) == Due(cur, n, w, owner[id], timeOut[id])
      ensures Distance(cur', owner[id]) == 0 ==> owner[id] == Slot(w, cur'[w])
    {
      DueAfterMove(cur, n, w, cur', owner[id], timeOut[id]);
    }
  }

  /** Between steps every deadline is still to come. */
  lemma TableAhead(owner: map<TimerId, Slot>, timeOut: map<TimerId, nat>, cur: seq<nat>, n: nat)
    requires owner.Keys <= timeOut.Keys
    requires forall x :: x in owner ==> ValidSlot(owner[x])
    requires InRange(cur) && Shows(cur, n, WHEELS) && OnlyCurrent(owner, cur, WHEELS, false)
    ensures forall id :: id in TableOf(owner, timeOut, cur, n, WHEELS)
              ==> TableOf(owner, timeOut, cur, n, WHEELS)[id] > n
  {
    hide Due, Distance, Shows;
    forall id | id in owner
      ensures Due(cur, n, WHEELS, owner[id], timeOut[id]) > n
    {
      DueAhead(cur, n, owner[id], timeOut[id]);
    }
  }

  lemma AheadOfCurrent(cur: seq<nat>, s: Slot)
    requires InRange(cur) && ValidSlot(s) && Distance(cur, s) > 0
    ensures forall w :: 0 <= w < WHEELS ==> s != Slot(w, cur[w])
  {
  }

  lemma SmallLeft(n: nat, w: nat, left: nat)
    requires w < WHEELS && left < 2 * Base(w)
    ensures left < TICK_LIMIT && left < Horizon(n, w + 1)
  {
  }

  /** The wheels below the one that is drained have all come round. */
  lemma LowerAtZero(cur: seq<nat>, n: nat, w: nat)
    requires w < WHEELS && Shows(cur, n, w + 1) && n % Base(w) == 0
    ensures forall v :: 0 <= v < w ==> cur[v] == 0
  {
    MixedRadix(n, w);
    LowIsZero(Digits(n), w);
  }

  /** How far a clock reading is ahead of the manager's last tick. */
  function Ahead(reading: nat, lastTick: nat): nat {
    if reading > lastTick then reading - lastTick else 0
  }

  /** One round of use: calls from outside, then a step with these callbacks and readings of the clock. */
  datatype Round = Round(before: seq<Action>, cb: Callbacks, lead: nat -> nat)

  class TimerMgr {
    var curSlot: seq<nat>
    var tlist: map<Slot, seq<TimerId>>
    var owner: map<TimerId, Slot>    // the list each registered timer is linked in
    var timeOut: map<TimerId, nat>   // the remainder kept in each timer
    var lastTick: nat
    ghost var now: nat               // steps taken
    ghost var front: nat             // wheels already moved on to `now`

    ghost predicate Linked()
      reads this
    {
      LinkedIn(tlist, owner) && owner.Keys <= timeOut.Keys
    }

    ghost predicate Valid(draining: bool)
      reads this
    {
      && Linked()
      && SmallRemainders(owner, timeOut)
      && InPosition(curSlot, now, front)
      && OnlyCurrent(owner, curSlot, front, draining)
    }

    predicate Backlogged(s: Slot)
      reads this
    {
      s in tlist && tlist[s] != []
    }

    /** How many timers wait in the current slot of the wheel moved last. */
    ghost function Backlog(): nat
      reads this
    {
      if 1 <= front <= |curSlot| && Slot(front - 1, curSlot[front - 1]) in tlist
      then |tlist[Slot(front - 1, curSlot[front - 1])]| else 0
    }

    /** The deadline of every registered timer: the abstraction function. */
    ghost function Deadlines(): Table
      requires Linked() && InRange(curSlot)
      reads this
    {
      TableOf(owner, timeOut, curSlot, now, front)
    }

    constructor ()
      ensures Valid(false) && now == 0 && front == WHEELS && Deadlines() == map[]
    {
      curSlot := [0, 0, 0, 0, 0];
      tlist := map w, s | 0 <= w < 5 && 0 <= s < Slots(w) :: Slot(w, s) := [];
      owner := map[];
      timeOut := map[];
      lastTick := 0;
      now := 0;
      front := WHEELS;
    }

    /** The loop of registerTimer, in 32-bit unsigned arithmetic: no subtraction from `left` underflows. */
    method Locate(timeout: nat) returns (p: Placement)
      requires InRange(curSlot) && 1 <= timeout < TICK_LIMIT
      ensures p == Place(curSlot, timeout)
    {
      var wheelNo, offset, left: nat := 0, timeout, timeout;
      while wheelNo + 1 < WHEELS && offset >= Slots(wheelNo)
        invariant wheelNo < WHEELS && wheelNo <= WheelFor(timeout)
        invariant offset == Turn(timeout, wheelNo) > 0
        invariant wheelNo == 0 ==> left == timeout
        invariant wheelNo > 0 ==> left == timeout - Base(wheelNo) + Low(curSlot, wheelNo)
      {
        offset := offset / Slots(wheelNo);
        left := left - Span(wheelNo, Slots(wheelNo) - curSlot[wheelNo] - if wheelNo == 0 then 0 else 1);
        wheelNo := wheelNo + 1;
      }
      left := left - Span(wheelNo, offset - 1);
      p := Placement(Slot(wheelNo, (offset + curSlot[wheelNo]) % Slots(wheelNo)), left);
    }

    /** DoubleLink::Remove on a linked timer. */
    method Unlink(id: TimerId)
      requires Linked() && id in owner
      modifies this`tlist, this`owner
      ensures Linked()
      ensures owner == old(owner) - {id}
      ensures Backlog() <= old(Backlog())
      ensures front > 0 && front <= |curSlot| && old(owner)[id] == Slot(front - 1, curSlot[front - 1]) ==>
                Backlog() < old(Backlog())
    {
      LinkedWithout(tlist, owner, id);
      var s := owner[id];
      tlist := tlist[s := Without(tlist[s], id)];
      owner := owner - {id};
    }

    /** DoubleLink::Push of a detached timer. */
    method Link(id: TimerId, s: Slot, left: nat)
      requires Linked() && id !in owner && ValidSlot(s)
      modifies this`tlist, this`owner, this`timeOut
      ensures Linked()
      ensures owner == old(owner)[id := s]
      ensures timeOut == old(timeOut)[id := left]
      ensures !(1 <= front <= |curSlot|) || s != Slot(front - 1, curSlot[front - 1]) ==> Backlog() == old(Backlog())
    {
      LinkedWith(tlist, owner, id, s);
      timeOut := timeOut[id := left];
      tlist := tlist[s := With(tlist[s], id)];
      owner := owner[id := s];
    }

    method UnRegisterTimer(id: TimerId, ghost draining: bool) returns (found: bool)
      requires Valid(draining)
      modifies this`tlist, this`owner
      ensures Valid(draining)
      ensures found == (id in old(Deadlines()))
      ensures id in old(owner) && front > 0 && old(owner)[id] == Slot(front - 1, curSlot[front - 1]) ==>
                Backlog() < old(Backlog())
      ensures owner == old(owner) - {id} && Deadlines() == old(Deadlines()) - {id}
      ensures PlaceIn(owner, timeOut, id) == None && SameBut(id, old(owner), old(timeOut), owner, timeOut)
      ensures Backlog() <= old(Backlog())
    {
      hide TableOf, OnlyCurrent, SmallRemainders, Due, Distance, Shows, Base, Backlog;
      TableWithout(owner, timeOut, curSlot, now, front, draining, id);
      if id !in owner {
        assert owner - {id} == owner;
        return false;
      }
      Unlink(id);
      return true;
    }

    /** `lag` is how far the clock has run ahead of the manager's last tick. */
    method RegisterTimer(id: TimerId, timeout: Timeout, lag: nat, ghost draining: bool)
      requires Valid(draining)
      modifies this`tlist, this`owner, this`timeOut
      ensures Valid(draining)
      ensures Deadlines() == old(Deadlines())[id := Deadline(now, Horizon(now, front), Ticks(timeout, lag))]
      ensures var n, h := (timeout + lag) % 0x1_0000_0000, Horizon(now, front);
              var t := if n == 0 then 1 else n;
              id in Deadlines() && Deadlines()[id] == if t < h then now + t else now + t - h
      ensures PlaceIn(owner, timeOut, id) == Some(Place(curSlot, Ticks(timeout, lag)))
      ensures SameBut(id, old(owner), old(timeOut), owner, timeOut)
      ensures Backlog() <= old(Backlog())
    {
      hide TableOf, OnlyCurrent, Due, Distance, Shows, LinkedIn, SmallRemainders, Horizon, Backlog, Place,
        PlaceIn;
      if id in owner {
        var _ := UnRegisterTimer(id, draining);
      }
      var t := (lag + timeout) % TICK_LIMIT;
      if t == 0 {
        t := 1;
      }
      Insert(id, t, draining);
    }

    /** The second half of registerTimer: a detached timer goes to the slot for `t` ticks. */
    method Insert(id: TimerId, t: nat, ghost draining: bool)
      requires Valid(draining) && id !in owner && 1 <= t < TICK_LIMIT
      modifies this`tlist, this`owner, this`timeOut
      ensures Valid(draining)
      ensures Deadlines() == old(Deadlines())[id := Deadline(now, Horizon(now, front), t)]
      ensures PlaceIn(owner, timeOut, id) == Some(Place(curSlot, t))
      ensures SameBut(id, old(owner), old(timeOut), owner, timeOut)
      ensures Backlog() <= old(Backlog())
    {
      hide TableOf, OnlyCurrent, Due, Distance, Shows, Place, Deadline, Horizon, Base, Backlog, SmallRemainders,
        PlaceIn, SameBut;
      var p := Locate(t);
      PlaceDeadline(curSlot, now, front, t);
      TableWith(owner, timeOut, curSlot, now, front, draining, id, p.slot, p.left);
      PlacesWith(owner, timeOut, id, p.slot, p.left);
      AheadOfCurrent(curSlot, p.slot);
      Link(id, p.slot, p.left);
    }

    method RunCallback(acts: seq<Action>, ghost draining: bool)
      requires Valid(draining)
      modifies this`tlist, this`owner, this`timeOut
      ensures Valid(draining)
      ensures Deadlines() == Acts(old(Deadlines()), now, Horizon(now, front), acts)
      ensures SameUnlessNamed(acts, old(owner), old(timeOut), owner, timeOut)
      ensures Backlog() <= old(Backlog())
    {
      hide TableOf, OnlyCurrent, Deadline, Horizon, Ticks, Shows, Backlog, SmallRemainders, PlaceIn, Place,
        SameUnlessNamed, SameBut;
      var i := 0;
      assert acts[..0] == [];
      NamedNothing(owner, timeOut);
      while i < |acts|
        invariant 0 <= i <= |acts|
        invariant Valid(draining)
        invariant Deadlines() == Acts(old(Deadlines()), now, Horizon(now, front), acts[..i])
        invariant SameUnlessNamed(acts[..i], old(owner), old(timeOut), owner, timeOut)
        invariant Backlog() <= old(Backlog())
      {
        assert acts[..i + 1] == acts[..i] + [acts[i]] && acts[..i + 1][..i] == acts[..i];
        ghost var o1, t1 := owner, timeOut;
        match acts[i] {
          case Register(id, timeout, lag) =>
            RegisterTimer(id, timeout, lag, draining);
          case Unregister(id) =>
            var _ := UnRegisterTimer(id, draining);
        }
        NamedThen(acts[..i], acts[i], old(owner), old(timeOut), o1, t1, owner, timeOut);
        i := i + 1;
      }
      assert acts[..|acts|] == acts;
    }

    /** The top of the loop in step: wheel `w` turns to its next slot. */
    method MoveWheel(w: nat)
      requires w < WHEELS && Valid(false) && front == w && now >= 1 && now % Base(w) == 0
      modifies this`curSlot, this`front
      ensures Valid(true) && front == w + 1 && Deadlines() == old(Deadlines())
      ensures curSlot[w] == 0 <==> now % Base(w + 1) == 0
    {
      hide TableOf, OnlyCurrent, SmallRemainders, Shows, Base;
      ghost var before := curSlot;
      curSlot := curSlot[w := (curSlot[w] + 1) % Slots(w)];
      front := w + 1;
      WheelMoves(before, now, w, curSlot);
      TableMoves(owner, timeOut, before, now, w, curSlot);
    }

    /** The first timer of the current slot of wheel `w` is due now, or after what is left of it. */
    lemma HeadDeadline(w: nat, id: TimerId)
      requires Valid(true) && w < WHEELS && front == w + 1 && now % Base(w) == 0
      requires Slot(w, curSlot[w]) in tlist && id in tlist[Slot(w, curSlot[w])]
      ensures id in owner && id in Deadlines()
      ensures timeOut[id] < 2 * Base(w)
      ensures Deadlines()[id] == if w == 0 then now else now + timeOut[id]
    {
      hide Due, Distance, Shows, Base;
      DueWhenCurrent(curSlot, now, w, timeOut[id]);
    }

    /** One round of the inner loop of step: pops the first timer of slot `s` and runs or re-registers it. */
    method HandleFirst(w: nat, s: Slot, cb: Callbacks, lead: nat -> nat, i: nat) returns (e: Event)
      requires w < WHEELS && Valid(true) && front == w + 1 && now % Base(w) == 0
      requires s == Slot(w, curSlot[w]) && Backlogged(s)
      modifies this`tlist, this`owner, this`timeOut
      ensures Valid(true)
      ensures e.wheel == w && (e.Requeued? ==> e.lag == lead(i))
      ensures Apply(old(Deadlines()), now, e, i, cb) == Some(Deadlines())
      ensures RanksPayOnce(e, cb, i, old(owner), old(timeOut), owner, timeOut)
      ensures Backlog() < old(Backlog())
    {
      hide TableOf, OnlyCurrent, SmallRemainders, Shows, Apply, Backlog, RanksPayOnce, Horizon, Base;
      var id := tlist[s][0];
      var left := timeOut[id];
      HeadDeadline(w, id);
      if w == 0 || left == 0 {
        e := Fired(id, w);
        RunFirst(w, id, e, cb, i);
      } else {
        e := Requeued(id, w, lead(i));
        RequeueFirst(w, id, left, e, cb, i);
      }
    }

    method RunFirst(w: nat, id: TimerId, ghost e: Event, cb: Callbacks, i: nat)
      requires w < WHEELS && Valid(true) && front == w + 1 && now % Base(w) == 0 && e == Fired(id, w)
      requires id in owner && owner[id] == Slot(w, curSlot[w]) && id in Deadlines() && Deadlines()[id] == now
      modifies this`tlist, this`owner, this`timeOut
      ensures Valid(true)
      ensures Apply(old(Deadlines()), now, e, i, cb) == Some(Deadlines())
      ensures RanksPayOnce(e, cb, i, old(owner), old(timeOut), owner, timeOut)
      ensures Backlog() < old(Backlog())
    {
      hide TableOf, OnlyCurrent, SmallRemainders, Shows, Acts, Backlog, LinkedIn, PlaceIn, SameBut, Horizon,
        RanksPayOnce, SameUnlessNamed;
      var _ := UnRegisterTimer(id, true);
      ghost var o1, t1 := owner, timeOut;
      RunCallback(cb(i, id), true);
      PayFired(e, cb, i, old(owner), old(timeOut), o1, t1, owner, timeOut);
    }

    method RequeueFirst(w: nat, id: TimerId, left: nat, e: Event, ghost cb: Callbacks, ghost i: nat)
      requires 0 < w < WHEELS && Valid(true) && front == w + 1 && now % Base(w) == 0
      requires e.Requeued? && e.id == id && e.wheel == w
      requires id in owner && owner[id] == Slot(w, curSlot[w]) && left == timeOut[id] && 0 < left < 2 * Base(w)
      requires id in Deadlines() && Deadlines()[id] == now + left
      modifies this`tlist, this`owner, this`timeOut
      ensures Valid(true)
      ensures Apply(old(Deadlines()), now, e, i, cb) == Some(Deadlines())
      ensures RanksPayOnce(e, cb, i, old(owner), old(timeOut), owner, timeOut)
      ensures Backlog() < old(Backlog())
    {
      hide TableOf, OnlyCurrent, SmallRemainders, Backlog, LinkedIn, PlaceIn, SameBut, Horizon, RanksPayOnce, Deadline,
        Ticks, Place, Base, Shows;
      LowerAtZero(curSlot, now, w);
      PlaceHere(id);
      SmallLeft(now, w, left);
      var _ := UnRegisterTimer(id, true);
      ghost var o1, t1 := owner, timeOut;
      RegisterTimer(id, left, e.lag, true);
      SameButTwice(id, old(owner), old(timeOut), o1, t1, owner, timeOut);
      ghost var d, x := old(Deadlines()), Deadline(now, HorizonOf(now, e), Ticks(left, e.lag));
      assert (d - {id})[id := x] == d[id := x];
      PayRequeued(e, cb, i, old(owner), old(timeOut), owner, timeOut, curSlot, w, Slot(w, curSlot[w]), left);
    }

    lemma PlaceHere(id: TimerId)
      requires Linked() && id in owner
      ensures PlaceIn(owner, timeOut, id) == Some(Placement(owner[id], timeOut[id]))
    {
    }

    lemma CurrentListed(w: nat)
      requires Linked() && InRange(curSlot) && w < WHEELS
      ensures Slot(w, curSlot[w]) in tlist
    {
    }

    lemma DrainedOut(s: Slot)
      requires Valid(true) && s in tlist && tlist[s] == []
      requires front > 0 && s == Slot(front - 1, curSlot[front - 1])
      ensures Valid(false)
    {
      hide Distance, Shows, SmallRemainders;
    }

    /** The inner loop of step: empties the current slot of wheel `w`, running or re-registering its timers. */
    method Drain(w: nat, cb: Callbacks, lead: nat -> nat, log0: seq<Event>, ghost start: Table,
            ghost o0: map<TimerId, Slot>, ghost t0: map<TimerId, nat>)
      returns (log: seq<Event>)
      requires w < WHEELS && Valid(true) && front == w + 1 && now % Base(w) == 0
      requires Replay(start, now, log0, cb) == Some(Deadlines())
      requires RanksPay(log0, cb, o0, t0, owner, timeOut)
      modifies this`tlist, this`owner, this`timeOut
      ensures Valid(false)
      ensures log0 <= log && Replay(start, now, log, cb) == Some(Deadlines())
      ensures RanksPay(log, cb, o0, t0, owner, timeOut)
      ensures forall i :: |log0| <= i < |log| ==> log[i].wheel == w
      ensures forall i :: |log0| <= i < |log| && log[i].Requeued? ==> log[i].lag == lead(i)
    {
      hide TableOf, OnlyCurrent, SmallRemainders, Shows, Apply, Replay, RanksPay, RanksPayOnce, LinkedIn;
      log := log0;
      var s := Slot(w, curSlot[w]);
      while Backlogged(s)
        invariant Valid(true)
        invariant log0 <= log && Replay(start, now, log, cb) == Some(Deadlines())
        invariant RanksPay(log, cb, o0, t0, owner, timeOut)
        invariant forall i :: |log0| <= i < |log| ==> log[i].wheel == w
        invariant forall i :: |log0| <= i < |log| && log[i].Requeued? ==> log[i].lag == lead(i)
        decreases Backlog()
      {
        ghost var o1, t1 := owner, timeOut;
        var e := HandleFirst(w, s, cb, lead, |log|);
        ReplayNext(start, now, log, e, cb);
        PayNext(log, e, cb, o0, t0, o1, t1, owner, timeOut);
        log := log + [e];
      }
      CurrentListed(w);
      DrainedOut(s);
    }

    /** The tick count goes up before any wheel has moved. */
    ghost method BeginTick()
      requires Valid(false) && front == WHEELS
      modifies this`now, this`front
      ensures now == old(now) + 1 && front == 0
      ensures Valid(false) && Deadlines() == old(Deadlines())
    {
      hide TableOf, SmallRemainders, Shows, Distance, Moved;
      TickBegins(curSlot, now);
      SameTable(owner, timeOut, curSlot, now, WHEELS, now + 1, 0);
      now := now + 1;
      front := 0;
    }

    /** The wheels that were not moved show the present tick all the same. */
    ghost method EndTick()
      requires Valid(false) && (front < WHEELS ==> now % Base(front) != 0)
      modifies this`front
      ensures front == WHEELS && Valid(false) && Deadlines() == old(Deadlines())
      ensures forall id :: id in Deadlines() ==> Deadlines()[id] > now
    {
      hide TableOf, SmallRemainders, Shows, Distance, Moved, Base;
      TickEnds(curSlot, now, front);
      SameTable(owner, timeOut, curSlot, now, front, now, WHEELS);
      front := WHEELS;
      TableAhead(owner, timeOut, curSlot, now);
    }

    /** TimerMgr::step, with any callbacks and any readings of the clock during it. */
    method Step(cb: Callbacks, lead: nat -> nat) returns (log: seq<Event>)
      requires Valid(false) && front == WHEELS
      modifies this`curSlot, this`tlist, this`owner, this`timeOut, this`now, this`front
      ensures Valid(false) && front == WHEELS && now == old(now) + 1
      ensures Replay(old(Deadlines()), now, log, cb) == Some(Deadlines())
      ensures forall id :: id in Deadlines() ==> Deadlines()[id] > now
      ensures RanksPay(log, cb, old(owner), old(timeOut), owner, timeOut)
      ensures forall i, j :: 0 <= i < j < |log| ==> log[i].wheel <= log[j].wheel
      ensures forall i :: 0 <= i < |log| && log[i].Requeued? ==> log[i].lag == lead(i)
    {
      hide TableOf, OnlyCurrent, SmallRemainders, LinkedIn, Shows, Apply, Replay, RanksPay;
      ghost var start := Deadlines();
      BeginTick();
      log := [];
      ReplayNothing(start, now, cb);
      PayNothing(cb, owner, timeOut);
      var w := 0;
      while w < WHEELS
        invariant w <= WHEELS && front == w && now == old(now) + 1
        invariant Valid(false) && (w < WHEELS ==> now % Base(w) == 0)
        invariant Replay(start, now, log, cb) == Some(Deadlines())
        invariant RanksPay(log, cb, old(owner), old(timeOut), owner, timeOut)
        invariant forall i, j :: 0 <= i < j < |log| ==> log[i].wheel <= log[j].wheel
        invariant forall i :: 0 <= i < |log| ==> log[i].wheel < w
        invariant forall i :: 0 <= i < |log| && log[i].Requeued? ==> log[i].lag == lead(i)
      {
        MoveWheel(w);
        log := Drain(w, cb, lead, log, start, old(owner), old(timeOut));
        if curSlot[w] != 0 {
          break;
        }
        w := w + 1;
      }
      EndTick();
    }

    /** TimerMgr::tickInternal: one step for each tick missed. The clock goes on meanwhile:
        `clock(j, i)` is what event i of the j-th step reads when it re-registers a timer. */
    method TickInternal(curTick: nat, cbs: nat -> Callbacks, clock: (nat, nat) -> nat) returns (ticks: seq<Tick>)
      requires Valid(false) && front == WHEELS
      modifies this
      ensures Valid(false) && front == WHEELS
      ensures |ticks| == if curTick <= old(lastTick) then 0 else curTick - old(lastTick)
      ensures now == old(now) + |ticks| && lastTick == old(lastTick) + |ticks|
      ensures Run(old(Deadlines()), old(now), ticks) == Some(Deadlines())
      ensures RanksPayOver(ticks, old(owner), old(timeOut), owner, timeOut)
      ensures forall j, i :: 0 <= j < |ticks| && 0 <= i < |ticks[j].log| && ticks[j].log[i].Requeued? ==>
                ticks[j].log[i].lag == Ahead(clock(j, i), old(lastTick) + j + 1)
    {
      hide Run, Replay, Shows, LinkedIn, OnlyCurrent, SmallRemainders, TableOf, RanksPay, RanksPayOver, SameUnlessNamed;
      ticks := [];
      RunNothing(Deadlines(), now);
      PayNoTicks(owner, timeOut);
      ghost var total := if curTick <= lastTick then 0 else curTick - lastTick;
      while lastTick < curTick
        invariant Valid(false) && front == WHEELS
        invariant |ticks| <= total && now == old(now) + |ticks| && lastTick == old(lastTick) + |ticks|
        invariant Run(old(Deadlines()), old(now), ticks) == Some(Deadlines())
        invariant RanksPayOver(ticks, old(owner), old(timeOut), owner, timeOut)
        invariant forall j, i :: 0 <= j < |ticks| && 0 <= i < |ticks[j].log| && ticks[j].log[i].Requeued? ==>
                    ticks[j].log[i].lag == Ahead(clock(j, i), old(lastTick) + j + 1)
      {
        ghost var before, o1, t1 := Deadlines(), owner, timeOut;
        lastTick := lastTick + 1;
        var j, last := |ticks|, lastTick;
        var log := Step(cbs(j), i => Ahead(clock(j, i), last));
        var t := Tick([], log, cbs(j));
        RunOne(before, now - 1, t, Deadlines());
        RunThen(old(Deadlines()), old(now), ticks, t, before);
        NamedNothing(o1, t1);
        PayTick(ticks, t, old(owner), old(timeOut), o1, t1, o1, t1, owner, timeOut);
        ticks := ticks + [t];
      }
    }

    /** Any use of the manager: steps, and before each of them any registrations and removals from outside.
        Every history it can have is a run of the table of deadlines, and a timer that was in wheel w at its
        start, left alone and never re-queued while the clock is ahead, is re-registered at most w + 1 times. */
    method Serve(script: seq<Round>) returns (ticks: seq<Tick>)
      requires Valid(false) && front == WHEELS
      modifies this
      ensures Valid(false) && front == WHEELS && now == old(now) + |script| && |ticks| == |script|
      ensures forall j :: 0 <= j < |ticks| ==> ticks[j].before == script[j].before && ticks[j].cb == script[j].cb
      ensures Run(old(Deadlines()), old(now), ticks) == Some(Deadlines())
      ensures RanksPayOver(ticks, old(owner), old(timeOut), owner, timeOut)
      ensures forall id :: id in old(owner) && Untouched(ticks, id) && NoLeads(ticks, id) ==>
                RequeuesOver(ticks, id) <= old(owner)[id].wheel + 1
    {
      hide Run, Replay, Shows, LinkedIn, OnlyCurrent, SmallRemainders, TableOf, RanksPay, RanksPayOver, SameUnlessNamed,
        Acts, Untouched, NoLeads;
      ticks := [];
      RunNothing(Deadlines(), now);
      PayNoTicks(owner, timeOut);
      while |ticks| < |script|
        invariant Valid(false) && front == WHEELS && |ticks| <= |script| && now == old(now) + |ticks|
        invariant forall j :: 0 <= j < |ticks| ==> ticks[j].before == script[j].before && ticks[j].cb == script[j].cb
        invariant Run(old(Deadlines()), old(now), ticks) == Some(Deadlines())
        invariant RanksPayOver(ticks, old(owner), old(timeOut), owner, timeOut)
      {
        var round := script[|ticks|];
        ghost var before, o1, t1 := Deadlines(), owner, timeOut;
        RunCallback(round.before, false);
        ghost var o2, t2 := owner, timeOut;
        var log := Step(round.cb, round.lead);
        var t := Tick(round.before, log, round.cb);
        RunOne(before, now - 1, t, Deadlines());
        RunThen(old(Deadlines()), old(now), ticks, t, before);
        PayTick(ticks, t, old(owner), old(timeOut), o1, t1, o2, t2, owner, timeOut);
        ticks := ticks + [t];
      }
      PaidOver(ticks, old(owner), old(timeOut), owner, timeOut);
    }
  }
}
