// What each call of dbase::sync::BlockingQueue does to the history of the queue, over whole runs.

module BlockingCalls {
  import opened BlockingQueue
  import opened ThreadCounts

  /** Which thread makes a step, and whether it is a step of a call under way or a call (or a disturbance). */
  datatype Event = Own(thread: nat) | From(thread: nat, call: Call)

  ghost predicate Does(s: State, e: Event, s': State)
  {
    match e
    case Own(t) => Acts(s, t, s')
    case From(t, c) => Calls(s, t, c, s')
  }

  /** A run together with the event of each of its steps. */
  ghost predicate Traced(states: seq<State>, events: seq<Event>)
  {
    && |states| == |events| + 1 && Init(states[0])
    && forall i :: 0 <= i < |events| ==> Does(states[i], events[i], states[i + 1])
  }

  lemma {:induction false} TraceOfRun(states: seq<State>) returns (events: seq<Event>)
    requires Run(states)
    ensures Traced(states, events)
    decreases |states|
  {
    hide Acts, Calls, Init;
    if |states| == 1 {
      events := [];
    } else {
      var n := |states| - 2;
      var before := TraceOfRun(states[..n + 1]);
      var e := EventOf(states[n], states[n + 1]);
      events := before + [e];
      hide Does;
      forall i | 0 <= i < |events|
        ensures Does(states[i], events[i], states[i + 1])
      {
        assert i < n ==> Does(states[..n + 1][i], before[i], states[..n + 1][i + 1]);
      }
    }
  }

  lemma EventOf(s: State, s': State) returns (e: Event)
    requires Next(s, s')
    ensures Does(s, e, s')
  {
    hide Acts, Calls;
    if Internal(s, s') {
      var t :| Acts(s, t, s');
      e := Own(t);
    } else {
      var t, c :| Calls(s, t, c, s');
      e := From(t, c);
    }
  }

  /** What a history has gained. */
  function Gained(before: seq<Item>, after: seq<Item>): seq<Item>
  {
    if |before| <= |after| then after[|before|..] else []
  }

  /** The items that thread `t` itself has added to the queue in the steps from state `i` to state `j`. */
  function PushedBy(states: seq<State>, events: seq<Event>, t: nat, i: nat, j: nat): seq<Item>
    requires |states| == |events| + 1 && i <= j <= |events|
  {
    if i == j then []
    else
      PushedBy(states, events, t, i, j - 1) +
      if events[j - 1].thread == t then Gained(states[j - 1].pushed, states[j].pushed) else []
  }

  /** The items that thread `t` itself has taken from the queue in the steps from state `i` to state `j`. */
  function PoppedBy(states: seq<State>, events: seq<Event>, t: nat, i: nat, j: nat): seq<Item>
    requires |states| == |events| + 1 && i <= j <= |events|
  {
    if i == j then []
    else
      PoppedBy(states, events, t, i, j - 1) +
      if events[j - 1].thread == t then Gained(states[j - 1].popped, states[j].popped) else []
  }

  /** Thread `t` is inside a call in all states between `i` and `j`. */
  predicate UnderWay(states: seq<State>, t: nat, i: nat, j: nat)
    requires j <= |states|
  {
    forall m :: i < m < j ==> t < |states[m].pc| && states[m].pc[t] != Idle
  }

  lemma OthersMove(s: State, e: Event, s': State, t: nat)
    requires Does(s, e, s') && t < |s.pc| && e.thread != t
    ensures t < |s'.pc| && (s'.pc[t] == s.pc[t] || s'.pc[t] == Woken(s.pc[t]))
  {
  }

  // Pushing.

  predicate WantsToPush(pc: Pc, x: Item)
  {
    (pc.Pushing? || pc.PushAsleep? || pc.PushAwake?) && pc.item == x
  }

  lemma PusherMoves(s: State, e: Event, s': State, t: nat, x: Item)
    requires Does(s, e, s') && t < |s.pc| && WantsToPush(s.pc[t], x) && e.thread == t
    ensures t < |s'.pc|
    ensures || (WantsToPush(s'.pc[t], x) && s'.pushed == s.pushed)
            || (s'.pc[t] == Announcing && s'.pushed == s.pushed + [x] && !s.stopped)
            || (s'.pc[t] == Idle && s'.pushed == s.pushed && s.stopped)
  {
    hide NotifiesConsumer, NotifiesProducer;
  }

  lemma AnnouncerMoves(s: State, e: Event, s': State, t: nat)
    requires Does(s, e, s') && t < |s.pc| && s.pc[t] == Announcing && e.thread == t
    ensures t < |s'.pc| && s'.pc[t] == Idle && s'.pushed == s.pushed
  {
    var idle := s.pc[t := Idle];
    ConsumerNotified(idle, s'.pc);
    if s'.pc != idle {
      var v: nat :| Wakes(idle, v, s'.pc) && idle[v].PopAsleep?;
    }
  }

  lemma StopLasts(s: State, e: Event, s': State)
    requires Does(s, e, s') && s.stopped
    ensures s'.stopped && s'.pushed == s.pushed
  {
    hide NotifiesConsumer, NotifiesProducer;
  }

  /** How far a call of emplace is in state `m`. */
  lemma {:induction false} EmplaceSoFar(states: seq<State>, events: seq<Event>, t: nat, x: Item, i: nat, m: nat)
    requires Traced(states, events) && i < m <= |events|
    requires events[i] == From(t, Push(x)) && UnderWay(states, t, i, m + 1)
    ensures var sofar := PushedBy(states, events, t, i, m);
      || (WantsToPush(states[m].pc[t], x) && sofar == [])
      || (states[m].pc[t] == Announcing && sofar == [x] && !states[i].stopped)
    ensures states[i].stopped ==> states[m].stopped
  {
    hide Acts, Calls, Init, Does;
    var s, e, s' := states[m - 1], events[m - 1], states[m];
    assert Does(s, e, s');
    if m == i + 1 {
      CallBegins(s, t, Push(x), s');
    } else {
      EmplaceSoFar(states, events, t, x, i, m - 1);
      if s.stopped {
        StopLasts(s, e, s');
      }
      if e.thread != t {
        OthersMove(s, e, s', t);
      } else if s.pc[t] == Announcing {
        AnnouncerMoves(s, e, s', t);
      } else {
        PusherMoves(s, e, s', t, x);
      }
    }
  }

  lemma CallBegins(s: State, t: nat, c: Call, s': State)
    requires Does(s, From(t, c), s') && (c.Push? || c.Pop?)
    ensures t < |s.pc| == |s'.pc| && s'.pc[t] == if c.Push? then Pushing(c.item) else Popping(c.timed)
    ensures s'.pushed == s.pushed && s'.popped == s.popped && s'.stopped == s.stopped
  {
  }

  /** A call of emplace that has ended has added exactly its own item, once; or it has thrown and added nothing, which
      happens only on a stopped queue and always on one that was stopped before the call. */
  lemma EmplaceCall(states: seq<State>, events: seq<Event>, t: nat, x: Item, i: nat, j: nat)
    requires Traced(states, events) && i < j <= |events| && events[i] == From(t, Push(x))
    requires UnderWay(states, t, i, j) && t < |states[j].pc| && states[j].pc[t] == Idle
    ensures j > i + 1
    ensures states[j - 1].pc[t] == Announcing ==> PushedBy(states, events, t, i, j) == [x] && !states[i].stopped
    ensures states[j - 1].pc[t] != Announcing ==> PushedBy(states, events, t, i, j) == [] && states[j].stopped
    ensures !states[j].stopped ==> PushedBy(states, events, t, i, j) == [x]
  {
    hide Acts, Calls, Init, Does;
    var s, e, s' := states[j - 1], events[j - 1], states[j];
    assert Does(s, e, s');
    if j == i + 1 {
      CallBegins(s, t, Push(x), s');
    }
    EmplaceSoFar(states, events, t, x, i, j - 1);
    if e.thread != t {
      OthersMove(s, e, s', t);
    } else if s.pc[t] == Announcing {
      AnnouncerMoves(s, e, s', t);
    } else {
      PusherMoves(s, e, s', t, x);
      StopLasts(s, e, s');
    }
  }

  /** After stop nothing is added any more, by whomever, and the queue stays stopped. */
  lemma {:induction false} StoppedForGood(states: seq<State>, events: seq<Event>, t: nat, i: nat, j: nat)
    requires Traced(states, events) && i < j <= |events| && events[i] == From(t, Stop)
    ensures states[j].stopped && states[j].pushed == states[i].pushed
  {
    assert Does(states[j - 1], events[j - 1], states[j]);
    if j > i + 1 {
      StoppedForGood(states, events, t, i, j - 1);
      StopLasts(states[j - 1], events[j - 1], states[j]);
    }
  }

  /** tryPush adds its item at once, unless the queue is stopped or full; then it changes nothing. */
  lemma TryPushCall(states: seq<State>, events: seq<Event>, t: nat, x: Item, i: nat)
    requires Traced(states, events) && i < |events| && events[i] == From(t, TryPush(x))
    ensures var s, s' := states[i], states[i + 1];
      if s.stopped || 0 < s.capacity <= |s.queue| then s' == s
      else PushedBy(states, events, t, i, i + 1) == [x] && s'.popped == s.popped && s'.stopped == s.stopped
  {
    hide NotifiesConsumer, Init;
    assert Does(states[i], events[i], states[i + 1]);
    assert PushedBy(states, events, t, i, i) == [];
  }

  // Popping.

  predicate WantsToPop(pc: Pc, timed: bool)
  {
    (pc.Popping? || pc.PopAsleep? || pc.PopAwake?) && pc.timed == timed
  }

  predicate TimedOut(events: seq<Event>, t: nat, i: nat, j: nat)
    requires j <= |events|
  {
    exists m :: i < m < j && events[m] == From(t, TimeOut)
  }

  lemma PopperMoves(s: State, e: Event, s': State, t: nat, timed: bool)
    requires Does(s, e, s') && t < |s.pc| && WantsToPop(s.pc[t], timed) && e.thread == t
    ensures t < |s'.pc|
    ensures || (WantsToPop(s'.pc[t], timed) && s'.popped == s.popped)
            || (s'.pc[t].Releasing? && s'.popped == s.popped + [s'.pc[t].item])
            || (s'.pc[t] == Idle && s'.popped == s.popped && s.queue == s'.queue == [] &&
                (s.stopped || s.pc[t] == PopAwake(timed, true)))
    ensures e == From(t, TimeOut) ==> timed && s'.pc[t] == PopAwake(timed, true)
    ensures e != From(t, TimeOut) ==> s'.pc[t] != PopAwake(timed, true)
    ensures s.pc[t] == PopAwake(timed, true) ==> s'.pc[t].Releasing? || s'.pc[t] == Idle
  {
    hide NotifiesConsumer, NotifiesProducer;
  }

  lemma ReleaserMoves(s: State, e: Event, s': State, t: nat)
    requires Does(s, e, s') && t < |s.pc| && s.pc[t].Releasing? && e.thread == t
    ensures t < |s'.pc| && s'.pc[t] == Idle && s'.popped == s.popped && e.Own?
  {
    var idle := s.pc[t := Idle];
    ProducerNotified(idle, s'.pc);
    if s'.pc != idle {
      var v: nat :| Wakes(idle, v, s'.pc) && idle[v].PushAsleep?;
    }
  }

  /** How far a call of pop or popFor is in state `m`. */
  ghost predicate PopPhase(pc: Pc, timed: bool, expired: bool, sofar: seq<Item>)
  {
    || (WantsToPop(pc, timed) && sofar == [] && (expired <==> pc == PopAwake(timed, true)) && (expired ==> timed))
    || (pc.Releasing? && sofar == [pc.item])
  }

  lemma {:induction false} PopSoFar(states: seq<State>, events: seq<Event>, t: nat, timed: bool, i: nat, m: nat)
    requires Traced(states, events) && i < m <= |events|
    requires events[i] == From(t, Pop(timed)) && UnderWay(states, t, i, m + 1)
    ensures PopPhase(states[m].pc[t], timed, TimedOut(events, t, i, m), PoppedBy(states, events, t, i, m))
  {
    hide Acts, Calls, Init, Does;
    var s, e, s' := states[m - 1], events[m - 1], states[m];
    assert Does(s, e, s');
    if m == i + 1 {
      CallBegins(s, t, Pop(timed), s');
    } else {
      PopSoFar(states, events, t, timed, i, m - 1);
      assert TimedOut(events, t, i, m) <==> TimedOut(events, t, i, m - 1) || e == From(t, TimeOut);
      hide TimedOut;
      if e.thread != t {
        OthersMove(s, e, s', t);
      } else if s.pc[t].Releasing? {
        ReleaserMoves(s, e, s', t);
      } else {
        PopperMoves(s, e, s', t, timed);
      }
    }
  }

  /** A call of pop or popFor that has ended hands out the one item that its own step took from the queue; or it comes
      back without one, having taken nothing, only with the queue empty, and stopped or the time of popFor out. */
  lemma PopCall(states: seq<State>, events: seq<Event>, t: nat, timed: bool, i: nat, j: nat)
    requires Traced(states, events) && i < j <= |events| && events[i] == From(t, Pop(timed))
    requires UnderWay(states, t, i, j) && t < |states[j].pc| && states[j].pc[t] == Idle
    ensures j > i + 1
    ensures var last := states[j - 1];
      if last.pc[t].Releasing? then PoppedBy(states, events, t, i, j) == [last.pc[t].item]
      else
        && PoppedBy(states, events, t, i, j) == [] && last.queue == []
        && (last.stopped || (timed && TimedOut(events, t, i, j)))
  {
    hide Acts, Calls, Init, Does;
    var s, e, s' := states[j - 1], events[j - 1], states[j];
    assert Does(s, e, s');
    if j == i + 1 {
      CallBegins(s, t, Pop(timed), s');
    }
    PopSoFar(states, events, t, timed, i, j - 1);
    assert TimedOut(events, t, i, j - 1) ==> TimedOut(events, t, i, j);
    hide TimedOut;
    if e.thread != t {
      OthersMove(s, e, s', t);
    } else if s.pc[t].Releasing? {
      ReleaserMoves(s, e, s', t);
    } else {
      PopperMoves(s, e, s', t, timed);
    }
  }

  /** Once its time is out, popFor does not go back to sleep. */
  lemma ExpiredStaysUp(states: seq<State>, events: seq<Event>, t: nat, timed: bool, i: nat, m: nat)
    requires Traced(states, events) && i < m <= |events| && events[i] == From(t, Pop(timed))
    requires UnderWay(states, t, i, m + 1) && TimedOut(events, t, i, m)
    ensures timed && !states[m].pc[t].PopAsleep?
  {
    PopSoFar(states, events, t, timed, i, m);
    var k :| i < k < m && events[k] == From(t, TimeOut);
    PopSoFar(states, events, t, timed, i, k);
    assert Does(states[k], events[k], states[k + 1]);
  }

  lemma {:induction false} ReleasingSoFar(states: seq<State>, events: seq<Event>, t: nat, v: Item, i: nat, m: nat)
    requires Traced(states, events) && i < m <= |events| && UnderWay(states, t, i, m + 1)
    requires events[i] == From(t, TryPop) && states[i].queue != [] && v == states[i].queue[0]
    ensures states[m].pc[t] == Releasing(v) && PoppedBy(states, events, t, i, m) == [v]
  {
    hide Acts, Init;
    var s, e, s' := states[m - 1], events[m - 1], states[m];
    assert Does(s, e, s');
    if m == i + 1 {
      assert PoppedBy(states, events, t, i, i) == [];
    } else {
      ReleasingSoFar(states, events, t, v, i, m - 1);
      hide Does;
      if e.thread != t {
        OthersMove(s, e, s', t);
      } else {
        ReleaserMoves(s, e, s', t);
      }
    }
  }

  /** tryPop takes and hands out the first item, and comes back without one only from an empty queue. */
  lemma TryPopCall(states: seq<State>, events: seq<Event>, t: nat, i: nat, j: nat)
    requires Traced(states, events) && i < j <= |events| && events[i] == From(t, TryPop)
    requires UnderWay(states, t, i, j) && t < |states[j].pc| && states[j].pc[t] == Idle
    ensures if states[i].queue == [] then states[i + 1] == states[i]
            else
              && j > i + 1 && states[j - 1].pc[t] == Releasing(states[i].queue[0])
              && PoppedBy(states, events, t, i, j) == [states[i].queue[0]]
  {
    hide Acts, Init;
    var s, e, s' := states[j - 1], events[j - 1], states[j];
    assert Does(states[i], events[i], states[i + 1]) && Does(s, e, s');
    if states[i].queue != [] {
      ReleasingSoFar(states, events, t, states[i].queue[0], i, j - 1);
      hide Does;
      if e.thread != t {
        OthersMove(s, e, s', t);
      } else {
        ReleaserMoves(s, e, s', t);
      }
    }
  }
}
