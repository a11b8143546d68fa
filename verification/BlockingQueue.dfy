// dbase::sync::BlockingQueue as a step system: one mutex, two condition variables that wake
// one waiter at a time, any number of threads, spurious wakeups and time-outs.

module BlockingQueue {
  import opened ThreadCounts

  type Item = int

  datatype Pc =
    | Idle
    | Pushing(item: Item)                   // emplace: about to take the mutex and test whether it may push
    | PushAsleep(item: Item)                // waiting on m_notFull
    | PushAwake(item: Item)                 // woken, about to take the mutex again
    | Announcing                            // has pushed and unlocked; about to notify m_notEmpty
    | Popping(timed: bool)                  // pop or popFor: about to take the mutex and test for an item
    | PopAsleep(timed: bool)                // waiting on m_notEmpty
    | PopAwake(timed: bool, expired: bool)  // woken or timed out, about to take the mutex again
    | Releasing(item: Item)                 // has popped and unlocked; about to notify m_notFull

  datatype State = State(
    capacity: nat,      // 0: unbounded
    queue: seq<Item>,
    stopped: bool,
    pc: seq<Pc>,
    pushed: seq<Item>,  // history of all items pushed
    popped: seq<Item>)  // history of all items popped

  ghost predicate Init(s: State)
  {
    && s.queue == s.pushed == s.popped == [] && !s.stopped
    && forall t :: 0 <= t < |s.pc| ==> s.pc[t] == Idle
  }

  predicate HasRoom(s: State)
  {
    s.capacity == 0 || |s.queue| < s.capacity
  }

  function Put(s: State, item: Item): State
  {
    s.(queue := s.queue + [item], pushed := s.pushed + [item])
  }

  function Take(s: State): State
    requires s.queue != []
  {
    s.(queue := s.queue[1..], popped := s.popped + [s.queue[0]])
  }

  function Woken(pc: Pc): Pc
  {
    match pc
    case PushAsleep(item) => PushAwake(item)
    case PopAsleep(timed) => PopAwake(timed, false)
    case _ => pc
  }

  function WakeAll(pcs: seq<Pc>): (r: seq<Pc>)
    ensures |r| == |pcs|
    ensures forall u :: 0 <= u < |pcs| ==> r[u] == Woken(pcs[u])
  {
    seq(|pcs|, u requires 0 <= u < |pcs| => Woken(pcs[u]))
  }

  function PopSleeper(pc: Pc): nat
  {
    if pc.PopAsleep? then 1 else 0
  }

  function PushSleeper(pc: Pc): nat
  {
    if pc.PushAsleep? then 1 else 0
  }

  predicate Wakes(before: seq<Pc>, v: nat, after: seq<Pc>)
  {
    v < |before| && after == before[v := Woken(before[v])]
  }

  /** notify_one on m_notEmpty: wakes some waiting consumer, if there is one. */
  ghost predicate NotifiesConsumer(before: seq<Pc>, after: seq<Pc>)
  {
    if Sum(before, PopSleeper) == 0 then after == before
    else exists v: nat :: Wakes(before, v, after) && before[v].PopAsleep?
  }

  /** notify_one on m_notFull: wakes some waiting producer, if there is one. */
  ghost predicate NotifiesProducer(before: seq<Pc>, after: seq<Pc>)
  {
    if Sum(before, PushSleeper) == 0 then after == before
    else exists v: nat :: Wakes(before, v, after) && before[v].PushAsleep?
  }

  // The critical sections, each atomic under the mutex.

  predicate WantsMutex(pc: Pc)
  {
    pc.Pushing? || pc.PushAwake? || pc.Popping? || pc.PopAwake?
  }

  /** The predicate test of wait() and what follows while the mutex is held. */
  function Locked(s: State, t: nat): State
    requires t < |s.pc| && WantsMutex(s.pc[t])
  {
    var pc := s.pc[t];
    if pc.Pushing? || pc.PushAwake? then
      if s.stopped then s.(pc := s.pc[t := Idle])  // throws
      else if HasRoom(s) then Put(s, pc.item).(pc := s.pc[t := Announcing])
      else s.(pc := s.pc[t := PushAsleep(pc.item)])
    else
      if s.queue != [] then Take(s).(pc := s.pc[t := Releasing(s.queue[0])])
      else if s.stopped || (pc.PopAwake? && pc.expired) then s.(pc := s.pc[t := Idle])  // throws, or returns nullopt
      else s.(pc := s.pc[t := PopAsleep(pc.timed)])
  }

  /** A step of an operation already under way. */
  ghost predicate Acts(s: State, t: nat, s': State)
  {
    && t < |s.pc|
    && ( || (WantsMutex(s.pc[t]) && s' == Locked(s, t))
         || (s.pc[t].Announcing? && s' == s.(pc := s'.pc) && NotifiesConsumer(s.pc[t := Idle], s'.pc))
         || (s.pc[t].Releasing? && s' == s.(pc := s'.pc) && NotifiesProducer(s.pc[t := Idle], s'.pc)))
  }

  // What comes from outside.

  datatype Call = Push(item: Item) | Pop(timed: bool) | TryPush(item: Item) | TryPop | Stop | TimeOut | Spurious

  ghost predicate Calls(s: State, t: nat, c: Call, s': State)
  {
    t < |s.pc| &&
    match c
    case Push(item) => s.pc[t] == Idle && s' == s.(pc := s.pc[t := Pushing(item)])
    case Pop(timed) => s.pc[t] == Idle && s' == s.(pc := s.pc[t := Popping(timed)])
    case TryPush(item) =>
      s.pc[t] == Idle &&
      if s.stopped || !HasRoom(s) then s' == s
      else s' == Put(s, item).(pc := s'.pc) && NotifiesConsumer(s.pc, s'.pc)
    case TryPop =>
      s.pc[t] == Idle && s' == if s.queue == [] then s else Take(s).(pc := s.pc[t := Releasing(s.queue[0])])
    case Stop =>
      s.pc[t] == Idle &&
      s' == if s.stopped then s else s.(stopped := true, pc := WakeAll(s.pc))
    case TimeOut => s.pc[t] == PopAsleep(true) && s' == s.(pc := s.pc[t := PopAwake(true, true)])
    case Spurious => (s.pc[t].PopAsleep? || s.pc[t].PushAsleep?) && s' == s.(pc := s.pc[t := Woken(s.pc[t])])
  }

  ghost predicate Internal(s: State, s': State)
  {
    exists t :: Acts(s, t, s')
  }

  ghost predicate Next(s: State, s': State)
  {
    Internal(s, s') || exists t, c :: Calls(s, t, c, s')
  }

  /** States reachable from a fresh queue with any number of threads. */
  ghost predicate Run(states: seq<State>)
  {
    && states != [] && Init(states[0])
    && forall i :: 0 <= i < |states| - 1 ==> Next(states[i], states[i + 1])
  }

  // The invariant.

  /** Consumers that are up, and consumers that a pending notification will wake. */
  function TowardsPop(pc: Pc): nat
  {
    if pc.PopAwake? || pc.Announcing? then 1 else 0
  }

  function TowardsPush(pc: Pc): nat
  {
    if pc.PushAwake? || pc.Releasing? then 1 else 0
  }

  /** If a consumer sleeps, every queued item has a woken consumer or a pending notification of its own. */
  ghost predicate NoLostItem(s: State)
  {
    Sum(s.pc, PopSleeper) > 0 ==> |s.queue| <= Sum(s.pc, TowardsPop)
  }

  /** If a producer sleeps, every free place has a woken producer or a pending notification of its own. */
  ghost predicate NoLostRoom(s: State)
  {
    s.capacity > 0 && Sum(s.pc, PushSleeper) > 0 ==> s.capacity - |s.queue| <= Sum(s.pc, TowardsPush)
  }

  ghost predicate Contents(s: State)
  {
    && s.pushed == s.popped + s.queue
    && (s.capacity > 0 ==> |s.queue| <= s.capacity)
    && (Sum(s.pc, PushSleeper) > 0 ==> s.capacity > 0)
    && (s.stopped ==> Sum(s.pc, PopSleeper) == Sum(s.pc, PushSleeper) == 0)
  }

  ghost predicate Inv(s: State)
  {
    Contents(s) && NoLostItem(s) && NoLostRoom(s)
  }

  lemma InitInv(s: State)
    requires Init(s)
    ensures Inv(s)
  {
    SumZero(s.pc, PopSleeper);
    SumZero(s.pc, PushSleeper);
  }

  /** The four counts after one thread moves from its place to `v`. */
  lemma Counts(pcs: seq<Pc>, t: nat, v: Pc)
    requires t < |pcs|
    ensures Sum(pcs[t := v], TowardsPop) == Sum(pcs, TowardsPop) - TowardsPop(pcs[t]) + TowardsPop(v)
    ensures Sum(pcs[t := v], TowardsPush) == Sum(pcs, TowardsPush) - TowardsPush(pcs[t]) + TowardsPush(v)
    ensures Sum(pcs[t := v], PopSleeper) == Sum(pcs, PopSleeper) - PopSleeper(pcs[t]) + PopSleeper(v)
    ensures Sum(pcs[t := v], PushSleeper) == Sum(pcs, PushSleeper) - PushSleeper(pcs[t]) + PushSleeper(v)
  {
    SumUpdate(pcs, t, v, TowardsPop);
    SumUpdate(pcs, t, v, TowardsPush);
    SumUpdate(pcs, t, v, PopSleeper);
    SumUpdate(pcs, t, v, PushSleeper);
  }

  lemma LockedInv(s: State, t: nat)
    requires Inv(s) && t < |s.pc| && WantsMutex(s.pc[t])
    ensures Inv(Locked(s, t))
  {
    hide Sum;
    if s.pc[t].Pushing? || s.pc[t].PushAwake? {
      PushLockedInv(s, t);
    } else {
      PopLockedInv(s, t);
    }
  }

  lemma PushLockedInv(s: State, t: nat)
    requires Inv(s) && t < |s.pc| && (s.pc[t].Pushing? || s.pc[t].PushAwake?)
    ensures Inv(Locked(s, t))
  {
    hide Sum;
    Counts(s.pc, t, Locked(s, t).pc[t]);
  }

  lemma PopLockedInv(s: State, t: nat)
    requires Inv(s) && t < |s.pc| && (s.pc[t].Popping? || s.pc[t].PopAwake?)
    ensures Inv(Locked(s, t))
  {
    hide Sum;
    Counts(s.pc, t, Locked(s, t).pc[t]);
  }

  lemma ConsumerNotified(before: seq<Pc>, after: seq<Pc>)
    requires NotifiesConsumer(before, after)
    ensures |after| == |before|
    ensures Sum(after, PushSleeper) == Sum(before, PushSleeper) && Sum(after, TowardsPush) == Sum(before, TowardsPush)
    ensures Sum(before, PopSleeper) == 0 ==> after == before
    ensures Sum(before, PopSleeper) > 0 ==>
      Sum(after, PopSleeper) == Sum(before, PopSleeper) - 1 && Sum(after, TowardsPop) == Sum(before, TowardsPop) + 1
  {
    if Sum(before, PopSleeper) > 0 {
      var v: nat :| Wakes(before, v, after) && before[v].PopAsleep?;
      Counts(before, v, Woken(before[v]));
    }
  }

  lemma ProducerNotified(before: seq<Pc>, after: seq<Pc>)
    requires NotifiesProducer(before, after)
    ensures |after| == |before|
    ensures Sum(after, PopSleeper) == Sum(before, PopSleeper) && Sum(after, TowardsPop) == Sum(before, TowardsPop)
    ensures Sum(before, PushSleeper) == 0 ==> after == before
    ensures Sum(before, PushSleeper) > 0 ==>
      Sum(after, PushSleeper) == Sum(before, PushSleeper) - 1 && Sum(after, TowardsPush) == Sum(before, TowardsPush) + 1
  {
    if Sum(before, PushSleeper) > 0 {
      var v: nat :| Wakes(before, v, after) && before[v].PushAsleep?;
      Counts(before, v, Woken(before[v]));
    }
  }

  lemma ActsInv(s: State, t: nat, s': State)
    requires Inv(s) && Acts(s, t, s')
    ensures Inv(s')
  {
    hide Locked, NotifiesConsumer, NotifiesProducer, Sum;
    if WantsMutex(s.pc[t]) {
      LockedInv(s, t);
    } else {
      Counts(s.pc, t, Idle);
      if s.pc[t].Announcing? {
        ConsumerNotified(s.pc[t := Idle], s'.pc);
      } else {
        ProducerNotified(s.pc[t := Idle], s'.pc);
      }
    }
  }

  lemma CallsInv(s: State, t: nat, c: Call, s': State)
    requires Inv(s) && Calls(s, t, c, s')
    ensures Inv(s')
  {
    hide NotifiesConsumer, Sum;
    if s' != s {
      match c {
        case TryPush(item) =>
          TryPushInv(s, item, s');
        case Stop =>
          StopInv(s, s');
        case _ =>
          OwnCallInv(s, t, c, s');
      }
    }
  }

  lemma TryPushInv(s: State, item: Item, s': State)
    requires Inv(s) && !s.stopped && HasRoom(s)
    requires s' == Put(s, item).(pc := s'.pc) && NotifiesConsumer(s.pc, s'.pc)
    ensures Inv(s')
  {
    hide NotifiesConsumer, Sum;
    ConsumerNotified(s.pc, s'.pc);
  }

  lemma StopInv(s: State, s': State)
    requires Inv(s) && s' == s.(stopped := true, pc := WakeAll(s.pc))
    ensures Inv(s')
  {
    hide Sum;
    SumZero(WakeAll(s.pc), PopSleeper);
    SumZero(WakeAll(s.pc), PushSleeper);
  }

  /** The calls that move the calling or the waiting thread only. */
  lemma OwnCallInv(s: State, t: nat, c: Call, s': State)
    requires Inv(s) && Calls(s, t, c, s') && !c.TryPush? && !c.Stop? && s' != s
    ensures Inv(s')
  {
    hide Sum;
    Counts(s.pc, t, s'.pc[t]);
  }

  lemma NextInv(s: State, s': State)
    requires Inv(s) && Next(s, s')
    ensures Inv(s')
  {
    hide Inv, Acts, Calls;
    if Internal(s, s') {
      var t :| Acts(s, t, s');
      ActsInv(s, t, s');
    } else {
      var t, c :| Calls(s, t, c, s');
      CallsInv(s, t, c, s');
    }
  }

  /** Every state of every interleaving satisfies the invariant. */
  lemma {:induction false} RunInv(states: seq<State>, i: nat)
    requires Run(states) && i < |states|
    ensures Inv(states[i])
  {
    if i == 0 {
      InitInv(states[0]);
    } else {
      RunInv(states, i - 1);
      NextInv(states[i - 1], states[i]);
    }
  }

  // What the queue promises.

  /** Items leave in the order they came, and a bounded queue never holds more than its capacity. */
  lemma FirstInFirstOut(states: seq<State>, i: nat)
    requires Run(states) && i < |states|
    ensures states[i].popped + states[i].queue == states[i].pushed
    ensures states[i].capacity > 0 ==> |states[i].queue| <= states[i].capacity
  {
    RunInv(states, i);
  }

  /** While thread `t` sleeps in pop, no item is without a consumer that is up or about to be woken. */
  lemma NoLostWakeup(states: seq<State>, i: nat, t: nat)
    requires Run(states) && i < |states| && t < |states[i].pc|
    ensures states[i].pc[t].PopAsleep? ==> |states[i].queue| <= Sum(states[i].pc, TowardsPop)
    ensures states[i].pc[t].PushAsleep? ==> 0 < states[i].capacity <= |states[i].queue| + Sum(states[i].pc, TowardsPush)
    ensures states[i].stopped ==> !states[i].pc[t].PopAsleep? && !states[i].pc[t].PushAsleep?
  {
    RunInv(states, i);
    SumCovers(states[i].pc, t, PopSleeper);
    SumCovers(states[i].pc, t, PushSleeper);
  }

  ghost predicate Settled(s: State)
  {
    forall t :: 0 <= t < |s.pc| ==> s.pc[t].Idle? || s.pc[t].PopAsleep? || s.pc[t].PushAsleep?
  }

  /** In a settled state whoever sleeps has reason to: consumers an empty queue, producers a full one, never both. */
  lemma WaitersHaveReason(s: State, t: nat)
    requires Inv(s) && Settled(s) && t < |s.pc|
    ensures s.pc[t].PopAsleep? ==> s.queue == []
    ensures s.pc[t].PushAsleep? ==> |s.queue| == s.capacity > 0
    ensures s.stopped ==> s.pc[t] == Idle
  {
    SumCovers(s.pc, t, PopSleeper);
    SumCovers(s.pc, t, PushSleeper);
    SumZero(s.pc, TowardsPop);
    SumZero(s.pc, TowardsPush);
  }

  // Liveness: operations under way finish or fall asleep.

  function Work(pc: Pc): nat
  {
    match pc
    case Idle => 0
    case Announcing => 2
    case Releasing(_) => 2
    case PopAsleep(_) => 4
    case PushAsleep(_) => 4
    case _ => 5
  }

  lemma ActsProgress(s: State, t: nat, s': State)
    requires Acts(s, t, s')
    ensures Sum(s'.pc, Work) < Sum(s.pc, Work)
  {
    if WantsMutex(s.pc[t]) {
      SumUpdate(s.pc, t, Locked(s, t).pc[t], Work);
    } else {
      hide Locked, Sum;
      var idle := s.pc[t := Idle];
      SumUpdate(s.pc, t, Idle, Work);
      if s'.pc != idle {
        var v: nat :| Wakes(idle, v, s'.pc) && (idle[v].PopAsleep? || idle[v].PushAsleep?);
        SumUpdate(idle, v, Woken(idle[v]), Work);
      }
    }
  }

  lemma SomeoneCanAct(s: State) returns (t: nat, s': State)
    requires !Settled(s)
    ensures Acts(s, t, s')
  {
    t :| t < |s.pc| && !s.pc[t].Idle? && !s.pc[t].PopAsleep? && !s.pc[t].PushAsleep?;
    var idle := s.pc[t := Idle];
    if WantsMutex(s.pc[t]) {
      s' := Locked(s, t);
    } else if s.pc[t].Announcing? && Sum(idle, PopSleeper) > 0 {
      var v := SumWitness(idle, PopSleeper);
      s' := s.(pc := idle[v := Woken(idle[v])]);
      assert Wakes(idle, v, s'.pc);
    } else if s.pc[t].Releasing? && Sum(idle, PushSleeper) > 0 {
      var v := SumWitness(idle, PushSleeper);
      s' := s.(pc := idle[v := Woken(idle[v])]);
      assert Wakes(idle, v, s'.pc);
    } else {
      s' := s.(pc := idle);
    }
  }

  /** A schedule that goes on while any operation can. */
  ghost predicate Unattended(f: nat -> State)
  {
    forall i: nat :: Internal(f(i), f(i + 1)) || (Settled(f(i)) && f(i + 1) == f(i))
  }

  /** Whoever sleeps has reason to, and after stop nobody is left. */
  ghost predicate HasReasons(s: State)
  {
    forall t :: 0 <= t < |s.pc| ==>
      && (s.pc[t].PopAsleep? ==> s.queue == [])
      && (s.pc[t].PushAsleep? ==> |s.queue| == s.capacity > 0)
      && (s.stopped ==> s.pc[t] == Idle)
  }

  lemma SettledHasReasons(s: State)
    requires Inv(s) && Settled(s)
    ensures HasReasons(s)
  {
    hide Inv, Settled;
    forall t | 0 <= t < |s.pc|
      ensures s.pc[t].PopAsleep? ==> s.queue == []
      ensures s.pc[t].PushAsleep? ==> |s.queue| == s.capacity > 0
      ensures s.stopped ==> s.pc[t] == Idle
    {
      WaitersHaveReason(s, t);
    }
  }

  /** However the threads are scheduled, the operations under way settle; then whoever still sleeps has reason to. */
  lemma {:induction false} SettlesDown(f: nat -> State) returns (n: nat)
    requires Inv(f(0)) && Unattended(f)
    ensures Settled(f(n)) && Inv(f(n)) && HasReasons(f(n))
    decreases Sum(f(0).pc, Work)
  {
    hide Inv, Acts, Sum, Settled, HasReasons;
    if Settled(f(0)) {
      n := 0;
      SettledHasReasons(f(0));
    } else {
      assert Internal(f(0), f(0 + 1));
      var t :| Acts(f(0), t, f(1));
      ActsProgress(f(0), t, f(1));
      ActsInv(f(0), t, f(1));
      var g: nat -> State := (i: nat) => f(i + 1);
      assert Unattended(g) by {
        forall i: nat ensures Internal(g(i), g(i + 1)) || (Settled(g(i)) && g(i + 1) == g(i)) {
          assert Internal(f(i + 1), f(i + 1 + 1)) || (Settled(f(i + 1)) && f(i + 1 + 1) == f(i + 1));
        }
      }
      n := SettlesDown(g);
      n := n + 1;
    }
  }
}
