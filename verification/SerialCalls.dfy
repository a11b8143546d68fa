// What becomes of the tasks that calls submit to dbase::thread::SerialExecutor, over whole runs.

module SerialCalls {
  import opened SerialExecutor

  /** Which thread makes a step: one of the executor's own, or a call or event from outside. */
  datatype Event =
    | Own(thread: nat)
    | ClientSubmits(thread: nat, task: Task)
    | TaskSubmits(thread: nat, task: Task)
    | PoolRefuses(thread: nat)
    | Stops

  ghost predicate Does(s: State, e: Event, s': State)
  {
    match e
    case Own(t) => Acts(s, t, s')
    case ClientSubmits(t, task) => Submit(s, t, task, s')
    case TaskSubmits(t, task) => SubmitInside(s, t, task, s')
    case PoolRefuses(t) => Refuse(s, t, s')
    case Stops => Stop(s, s')
  }

  /** A run together with the event of each of its steps. */
  ghost predicate Traced(states: seq<State>, events: seq<Event>)
  {
    && |states| == |events| + 1 && Init(states[0])
    && forall i :: 0 <= i < |events| ==> Does(states[i], events[i], states[i + 1])
  }

  lemma {:induction false} TraceOfRun(states: seq<State>) returns (events: seq<Event>)
    requires Run(states)
    ensures Traced(states, events)
    decreases |states|
  {
    hide Acts, Calls, Init;
    if |states| == 1 {
      events := [];
    } else {
      var n := |states| - 2;
      var before := TraceOfRun(states[..n + 1]);
      var e := EventOf(states[n], states[n + 1]);
      events := before + [e];
      hide Does;
      forall i | 0 <= i < |events|
        ensures Does(states[i], events[i], states[i + 1])
      {
        assert i < n ==> Does(states[..n + 1][i], before[i], states[..n + 1][i + 1]);
      }
    }
  }

  lemma EventOf(s: State, s': State) returns (e: Event)
    requires Next(s, s')
    ensures Does(s, e, s')
  {
    hide Acts, Submit, SubmitInside, Refuse, Stop;
    if Internal(s, s') {
      var t :| Acts(s, t, s');
      e := Own(t);
    } else {
      var t, task :| Calls(s, t, task, s');
      e := if Submit(s, t, task, s') then ClientSubmits(t, task)
      else if SubmitInside(s, t, task, s') then TaskSubmits(t, task)
      else if Refuse(s, t, s') then PoolRefuses(t) else Stops;
    }
  }

  lemma RunOfTrace(states: seq<State>, events: seq<Event>)
    requires Traced(states, events)
    ensures Run(states)
  {
    forall i | 0 <= i < |states| - 1
      ensures Next(states[i], states[i + 1])
    {
      NextByEvent(states[i], events[i], states[i + 1]);
    }
  }

  lemma NextByEvent(s: State, e: Event, s': State)
    requires Does(s, e, s')
    ensures Next(s, s')
  {
    hide Acts, Submit, SubmitInside, Refuse, Stop;
    match e
    case Own(t) => assert Internal(s, s');
    case ClientSubmits(t, task) => assert Calls(s, t, task, s');
    case TaskSubmits(t, task) => assert Calls(s, t, task, s');
    case PoolRefuses(t) => assert Calls(s, t, Task(0, 0), s');
    case Stops => assert Calls(s, 0, Task(0, 0), s');
  }

  /** The task that a call submits. */
  function Asked(e: Event): multiset<Task>
  {
    if e.ClientSubmits? || e.TaskSubmits? then multiset{e.task} else multiset{}
  }

  /** The tasks that the calls among `events` have submitted, by clients and from inside tasks. */
  function Submitted(events: seq<Event>): multiset<Task>
  {
    if events == [] then multiset{} else Submitted(events[..|events| - 1]) + Asked(events[|events| - 1])
  }

  /** The tasks pushed and those waiting to be pushed. */
  ghost function Account(s: State): multiset<Task>
  {
    multiset(s.pushed) + Pending(s.pc)
  }

  lemma StepAccounts(s: State, e: Event, s': State)
    requires Does(s, e, s') && !s'.closed
    ensures !s.closed
    ensures Account(s') == Account(s) + Asked(e)
  {
    if e.Own? {
      ActsClosed(s, e.thread, s');
      SubmissionsKept(s, e.thread, s');
    } else if e.Stops? {
      assert s'.pc == s.pc;
    } else {
      CallAccounts(s, e, s');
      hide Does, Asked, Pending;
    }
  }

  lemma CallAccounts(s: State, e: Event, s': State)
    requires Does(s, e, s') && !e.Own? && !e.Stops?
    ensures s'.closed == s.closed && s'.pushed == s.pushed && Pending(s'.pc) == Pending(s.pc) + Asked(e)
  {
    CallNames(s, e, s');
    PendingUpdate(s.pc, e.thread, s'.pc[e.thread]);
    hide *;
    var p, p', old', new' := Pending(s.pc), Pending(s'.pc), Named(s.pc[e.thread]), Named(s'.pc[e.thread]);
    assert p' + old' == p + new';
  }

  lemma CallNames(s: State, e: Event, s': State)
    requires Does(s, e, s') && !e.Own? && !e.Stops?
    ensures s'.closed == s.closed && s'.pushed == s.pushed
    ensures e.thread < |s.pc| == |s'.pc| && s'.pc == s.pc[e.thread := s'.pc[e.thread]]
    ensures Named(s.pc[e.thread]) == multiset{} && Named(s'.pc[e.thread]) == Asked(e)
  {
  }

  lemma SubmittedNext(events: seq<Event>, m: nat)
    requires m < |events|
    ensures Submitted(events[..m + 1]) == Submitted(events[..m]) + Asked(events[m])
  {
    hide Asked;
    assert events[..m + 1][..m] == events[..m];
  }

  lemma Length(states: seq<State>, events: seq<Event>)
    requires Traced(states, events)
    ensures |states| == |events| + 1
  {
  }

  lemma TracedStep(states: seq<State>, events: seq<Event>, m: nat)
    requires Traced(states, events) && m < |events|
    ensures m + 1 < |states| && Does(states[m], events[m], states[m + 1])
  {
  }

  lemma NothingSubmitted(states: seq<State>, events: seq<Event>)
    requires Traced(states, events)
    ensures Account(states[0]) == Submitted([])
  {
    NonePending(states[0].pc);
  }

  lemma {:induction false} AccountIs(states: seq<State>, events: seq<Event>, m: nat)
    requires Traced(states, events) && m <= |events| && !states[m].closed
    ensures Account(states[m]) == Submitted(events[..m])
  {
    hide *;
    Length(states, events);
    if m == 0 {
      NothingSubmitted(states, events);
      assert events[..0] == [];
    } else {
      TracedStep(states, events, m - 1);
      StepAccounts(states[m - 1], events[m - 1], states[m]);
      AccountIs(states, events, m - 1);
      SubmittedNext(events, m - 1);
    }
  }

  /** As long as the queue is open, the tasks pushed and those still waiting to be pushed are together exactly the
      tasks that calls have submitted. */
  lemma PushedIsSubmitted(states: seq<State>, events: seq<Event>, m: nat)
    requires Traced(states, events) && m <= |events| && !states[m].closed
    ensures multiset(states[m].pushed) + Pending(states[m].pc) == Submitted(events[..m])
  {
    AccountIs(states, events, m);
  }

  lemma ClosedStep(s: State, e: Event, s': State)
    requires Does(s, e, s') && s.closed
    ensures s'.closed && s'.pushed == s.pushed
  {
    if e.Own? {
      ActsClosed(s, e.thread, s');
      hide Do;
    }
  }

  /** Once the queue has been stopped no submission goes through any more. */
  lemma {:induction false} ClosedForGood(states: seq<State>, events: seq<Event>, i: nat, j: nat)
    requires Traced(states, events) && i <= j <= |events| && states[i].closed
    ensures states[j].closed && states[j].pushed == states[i].pushed
  {
    hide *;
    Length(states, events);
    if i < j {
      ClosedForGood(states, events, i, j - 1);
      TracedStep(states, events, j - 1);
      ClosedStep(states[j - 1], events[j - 1], states[j]);
    }
  }

  lemma StoppedStep(s: State, e: Event, s': State)
    requires Does(s, e, s') && (s.stopped || e.Stops?)
    ensures s'.stopped
  {
    if e.Own? {
      ActsClosed(s, e.thread, s');
      hide Do;
    }
  }

  /** A stopped executor stays stopped. */
  lemma {:induction false} StoppedForGood(states: seq<State>, events: seq<Event>, i: nat, j: nat)
    requires Traced(states, events) && i < j <= |events| && events[i] == Stops
    ensures states[j].stopped
  {
    hide *;
    Length(states, events);
    TracedStep(states, events, j - 1);
    if i < j - 1 {
      StoppedForGood(states, events, i, j - 1);
    }
    StoppedStep(states[j - 1], events[j - 1], states[j]);
  }

  /** Whatever has happened before: an executor that is neither stopped nor refused and shows no warning of a jam
      runs, once no more calls come, exactly the tasks that calls have submitted, in the order of their push. */
  lemma EverySubmissionRuns(states: seq<State>, events: seq<Event>, f: nat -> State) returns (n: nat)
    requires Traced(states, events) && f(0) == states[|events|] && Unattended(f)
    requires 0 < f(0).workers <= |f(0).pc| && !f(0).stopped && !f(0).refused && !MayJam(f(0))
    ensures Dry(f(n)) && f(n).ended == f(n).pushed && multiset(f(n).ended) == Submitted(events)
  {
    RunOfTrace(states, events);
    RunInv(states, |events|);
    PushedIsSubmitted(states, events, |events|);
    assert events[..|events|] == events;
    n := RunsDry(f);
  }
}
