// The protocol of dbase::thread::SerialExecutor as a step system: any number of threads,
// one shared queue, and one flag that is set by compare-and-swap.

module SerialExecutor {
  import opened ThreadCounts

  datatype Task = Task(key: nat, id: nat)

  /** How far a running task is inside a submit of its own to the same executor. */
  datatype Inner = Quiet | InnerSubmitting(next: Task) | InnerScheduling | InnerPosting

  /** What a thread is about to do. */
  datatype Pc =
    | Idle                                 // outside the executor; may submit or take a job from the pool
    | Submitting(next: Task)               // submit(): pushes the task as soon as the queue has room
    | Scheduling                           // schedule(): the compare-and-swap on m_running
    | Posting                              // schedule(): hands a drain to the pool
    | Draining                             // drain(): tryPop at the top of the loop
    | Executing(task: Task, inner: Inner)  // drain(): inside a task
    | Leaving                              // drain(): saw an empty queue, will store m_running = false
    | Rechecking                           // drain(): will read the queue again
    | SawWork                              // drain(): will read m_stopped

  datatype State = State(
    capacity: nat,        // 0: unbounded
    workers: nat,         // threads 0 to workers - 1 belong to the pool, the others are clients
    queue: seq<Task>,
    running: bool,
    stopped: bool,        // m_stopped
    closed: bool,         // the queue has been stopped too
    refused: bool,        // the pool has refused a drain at some time
    pool: nat,            // drains accepted by the pool and not yet started
    pc: seq<Pc>,
    pushed: seq<Task>,    // history: tasks in the order of their push
    begun: seq<Task>,     // history: tasks in the order they were popped and started
    ended: seq<Task>)     // history: tasks in the order they finished

  ghost predicate Init(s: State)
  {
    && s.queue == s.pushed == s.begun == s.ended == []
    && !s.running && !s.stopped && !s.closed && !s.refused && s.pool == 0
    && forall t :: 0 <= t < |s.pc| ==> s.pc[t] == Idle
  }

  predicate HasRoom(s: State)
  {
    s.capacity == 0 || |s.queue| < s.capacity
  }

  predicate Waits(pc: Pc)
  {
    pc.Submitting? || (pc.Executing? && pc.inner.InnerSubmitting?)
  }

  /** The wait of a push in a full queue. */
  predicate Blocked(s: State, pc: Pc)
  {
    Waits(pc) && !s.closed && !HasRoom(s)
  }

  /** A push that goes through; a closed queue makes it throw instead. */
  predicate Pushes(s: State, pc: Pc)
  {
    Waits(pc) && !s.closed && HasRoom(s)
  }

  function Pushed(pc: Pc): Task
    requires Waits(pc)
  {
    if pc.Submitting? then pc.next else pc.inner.next
  }

  // The calls that come from outside.

  predicate Submit(s: State, t: nat, task: Task, s': State)
  {
    s.workers <= t < |s.pc| && s.pc[t] == Idle && s' == s.(pc := s.pc[t := Submitting(task)])
  }

  predicate SubmitInside(s: State, t: nat, task: Task, s': State)
  {
    && t < |s.pc| && s.pc[t].Executing? && s.pc[t].inner == Quiet
    && s' == s.(pc := s.pc[t := Executing(s.pc[t].task, InnerSubmitting(task))])
  }

  predicate Stop(s: State, s': State)
  {
    s' == s.(stopped := true) || (s.stopped && s' == s.(closed := true))
  }

  // The steps the executor makes on its own, one atomic action each.

  /** A pool worker picks up a drain. */
  predicate Start(s: State, t: nat, s': State)
  {
    && t < s.workers && t < |s.pc| && s.pc[t] == Idle && s.pool > 0
    && s' == s.(pool := s.pool - 1, pc := s.pc[t := Draining])
  }

  predicate Refuse(s: State, t: nat, s': State)
  {
    t < |s.pc| && s.pc[t] == Posting && s' == s.(running := false, refused := true, pc := s.pc[t := Idle])
  }

  /** What a thread at `pc` does to the flag and the pool, and where it goes next. */
  datatype Effect = Effect(pc: Pc, running: bool, pool: nat)

  function Do(s: State, pc: Pc): Effect
  {
    match pc
    case Idle => Effect(Idle, s.running, s.pool)
    case Submitting(_) => Effect(if s.closed then Idle else Scheduling, s.running, s.pool)
    case Scheduling => if s.running then Effect(Idle, true, s.pool) else Effect(Posting, true, s.pool)
    case Posting => Effect(Idle, s.running, s.pool + 1)
    case Draining => Effect(if s.queue == [] then Leaving else Executing(s.queue[0], Quiet), s.running, s.pool)
    case Executing(task, Quiet) => Effect(Draining, s.running, s.pool)
    case Executing(task, InnerSubmitting(_)) =>
      Effect(Executing(task, if s.closed then Quiet else InnerScheduling), s.running, s.pool)
    case Executing(task, InnerScheduling) =>
      Effect(Executing(task, if s.running then Quiet else InnerPosting), true, s.pool)
    case Executing(task, InnerPosting) => Effect(Executing(task, Quiet), s.running, s.pool + 1)
    case Leaving => Effect(Rechecking, false, s.pool)
    case Rechecking => Effect(if s.queue != [] then SawWork else Idle, s.running, s.pool)
    case SawWork => Effect(if s.stopped then Idle else Scheduling, s.running, s.pool)
  }

  predicate Pops(s: State, pc: Pc)
  {
    pc == Draining && s.queue != []
  }

  predicate Finishes(pc: Pc)
  {
    pc.Executing? && pc.inner == Quiet
  }

  function After(s: State, t: nat): State
    requires t < |s.pc|
  {
    var pc, e := s.pc[t], Do(s, s.pc[t]);
    s.(running := e.running, pool := e.pool, pc := s.pc[t := e.pc],
       queue := if Pops(s, pc) then s.queue[1..] else if Pushes(s, pc) then s.queue + [Pushed(pc)] else s.queue,
       pushed := if Pushes(s, pc) then s.pushed + [Pushed(pc)] else s.pushed,
       begun := if Pops(s, pc) then s.begun + [s.queue[0]] else s.begun,
       ended := if Finishes(pc) then s.ended + [pc.task] else s.ended)
  }

  /** Thread `t` makes a step of the executor's own. */
  ghost predicate Acts(s: State, t: nat, s': State)
  {
    Start(s, t, s') || (t < |s.pc| && s.pc[t] != Idle && !Blocked(s, s.pc[t]) && s' == After(s, t))
  }

  ghost predicate Internal(s: State, s': State)
  {
    exists t :: Acts(s, t, s')
  }

  ghost predicate Calls(s: State, t: nat, task: Task, s': State)
  {
    Submit(s, t, task, s') || SubmitInside(s, t, task, s') || Refuse(s, t, s') || Stop(s, s')
  }

  ghost predicate Next(s: State, s': State)
  {
    Internal(s, s') || exists t, task :: Calls(s, t, task, s')
  }

  /** States reachable from a fresh executor with any number of threads. */
  ghost predicate Run(states: seq<State>)
  {
    && states != [] && Init(states[0])
    && forall i :: 0 <= i < |states| - 1 ==> Next(states[i], states[i + 1])
  }

  // The invariant.

  /** The right to run drain(): held by a thread, or waiting in the pool. */
  function Token(pc: Pc): nat
  {
    match pc
    case Posting => 1
    case Draining => 1
    case Leaving => 1
    case Executing(_, inner) => if inner == InnerPosting then 2 else 1
    case _ => 0
  }

  /** A thread that still has to reach the compare-and-swap or the recheck before it. */
  predicate Due(pc: Pc)
  {
    pc == Scheduling || pc == Rechecking || pc == SawWork
  }

  ghost predicate OneToken(s: State)
  {
    Sum(s.pc, Token) + s.pool == if s.running then 1 else 0
  }

  /** Tasks start in the order of their push, and each one ends before the next starts. */
  ghost predicate InOrder(s: State)
  {
    && s.pushed == s.begun + s.queue
    && (s.begun == s.ended || exists t :: OnlyBusy(s, t))
    && forall t :: 0 <= t < |s.pc| && s.pc[t].Executing? ==> s.begun == s.ended + [s.pc[t].task]
  }

  predicate OnlyBusy(s: State, t: nat)
  {
    t < |s.pc| && s.pc[t].Executing?
  }

  /** Work that is queued has a drain in flight or a thread due to start one. */
  ghost predicate NotForgotten(s: State)
  {
    s.queue != [] && !s.stopped && !s.refused ==>
      s.running || exists t :: 0 <= t < |s.pc| && Due(s.pc[t])
  }

  /** The threads of the pool run drains; what they submit they submit from inside a task. */
  ghost predicate PoolFree(s: State)
  {
    forall t :: 0 <= t < s.workers && t < |s.pc| ==> !s.pc[t].Submitting?
  }

  ghost predicate Inv(s: State)
  {
    OneToken(s) && InOrder(s) && NotForgotten(s) && PoolFree(s) && (s.closed ==> s.stopped)
  }

  lemma InitInv(s: State)
    requires Init(s)
    ensures Inv(s)
  {
    SumZero(s.pc, Token);
  }

  lemma TokenStep(s: State, t: nat, v: Pc)
    requires t < |s.pc|
    ensures Sum(s.pc[t := v], Token) == Sum(s.pc, Token) - Token(s.pc[t]) + Token(v)
    ensures Sum(s.pc, Token) >= Token(s.pc[t])
  {
    SumUpdate(s.pc, t, v, Token);
    SumCovers(s.pc, t, Token);
  }

  lemma AloneWithToken(s: State, t: nat)
    requires OneToken(s) && t < |s.pc| && Token(s.pc[t]) > 0
    ensures s.running && s.pool == 0 && Token(s.pc[t]) == 1
    ensures forall u :: 0 <= u < |s.pc| && u != t ==> Token(s.pc[u]) == 0
  {
    SumCovers(s.pc, t, Token);
    forall u | 0 <= u < |s.pc| && u != t
      ensures Token(s.pc[u]) == 0
    {
      if u < t { SumCoversTwo(s.pc, u, t, Token); } else { SumCoversTwo(s.pc, t, u, Token); }
    }
  }

  lemma StillBusy(s: State, t: nat, s': State)
    requires InOrder(s) && t < |s.pc| == |s'.pc| && s'.pc == s.pc[t := s'.pc[t]]
    ensures s.begun != s.ended ==> OnlyBusy(s, t) || exists u :: OnlyBusy(s', u)
    ensures OnlyBusy(s', t) ==> exists u :: OnlyBusy(s', u)
  {
    if s.begun != s.ended {
      var u :| OnlyBusy(s, u);
      assert u == t || OnlyBusy(s', u);
    }
  }

  lemma ActsToken(s: State, t: nat, s': State)
    requires OneToken(s) && Acts(s, t, s')
    ensures OneToken(s')
  {
    hide Do, Token, Blocked, Pushes, Pops, Finishes;
    TokenStep(s, t, s'.pc[t]);
    if Start(s, t, s') {
      StartToken(s.pc[t]);
    } else {
      if Token(s.pc[t]) > 0 {
        AloneWithToken(s, t);
      }
      DoToken(s, s.pc[t]);
    }
  }

  lemma StartToken(pc: Pc)
    ensures Token(Draining) == 1 && Token(Idle) == 0
  {
  }

  /** A thread takes a token when it sets the flag and gives it back when it clears the flag. */
  lemma DoToken(s: State, pc: Pc)
    requires pc != Idle && (Token(pc) > 0 ==> s.running && s.pool == 0 && Token(pc) == 1)
    ensures Token(Do(s, pc).pc) + Do(s, pc).pool + (if s.running then 1 else 0)
         == Token(pc) + s.pool + (if Do(s, pc).running then 1 else 0)
  {
  }

  lemma ActsOrder(s: State, t: nat, s': State)
    requires OneToken(s) && InOrder(s) && Acts(s, t, s')
    ensures InOrder(s')
  {
    hide Do, OneToken;
    var pc := s.pc[t];
    if Start(s, t, s') {
      StartOrder(s, t, s');
    } else if Pops(s, pc) {
      AloneWithToken(s, t);
      PopOrder(s, t, s');
    } else if Finishes(pc) {
      AloneWithToken(s, t);
      FinishOrder(s, t, s');
    } else {
      OtherOrder(s, t, s');
    }
  }

  lemma StartOrder(s: State, t: nat, s': State)
    requires InOrder(s) && Start(s, t, s')
    ensures InOrder(s')
  {
    StillBusy(s, t, s');
  }

  lemma PopOrder(s: State, t: nat, s': State)
    requires InOrder(s) && t < |s.pc| && Pops(s, s.pc[t]) && s' == After(s, t)
    requires forall u :: 0 <= u < |s.pc| && u != t ==> Token(s.pc[u]) == 0
    ensures InOrder(s')
  {
    assert s.begun == s.ended;
    assert OnlyBusy(s', t);
    assert s.queue == [s.queue[0]] + s.queue[1..];
  }

  lemma FinishOrder(s: State, t: nat, s': State)
    requires InOrder(s) && t < |s.pc| && Finishes(s.pc[t]) && s' == After(s, t)
    requires forall u :: 0 <= u < |s.pc| && u != t ==> Token(s.pc[u]) == 0
    ensures InOrder(s')
  {
    assert forall u :: 0 <= u < |s'.pc| ==> !s'.pc[u].Executing?;
  }

  lemma OtherOrder(s: State, t: nat, s': State)
    requires InOrder(s) && t < |s.pc| && !Pops(s, s.pc[t]) && !Finishes(s.pc[t]) && s' == After(s, t)
    requires !Blocked(s, s.pc[t])
    ensures InOrder(s')
  {
    StillBusy(s, t, s');
  }

  lemma ActsNotForgotten(s: State, t: nat, s': State)
    requires OneToken(s) && NotForgotten(s) && Acts(s, t, s')
    ensures NotForgotten(s')
  {
    if s'.queue != [] && !s'.running && !s'.stopped && !s'.refused {
      hide OneToken, Token;
      if s.running {
        NoLongerRunning(s, t, s');
      } else if s.queue == [] {
        assert Pushes(s, s.pc[t]);
        hide Pushes, Pops;
        PusherIsDue(s, t);
        assert Due(s'.pc[t]);
      } else {
        var u :| 0 <= u < |s.pc| && Due(s.pc[u]);
        assert Due(s'.pc[if u == t then t else u]);
      }
    }
  }

  lemma NoLongerRunning(s: State, t: nat, s': State)
    requires Acts(s, t, s') && s.running && !s'.running
    ensures Due(s'.pc[t])
  {
  }

  lemma PusherIsDue(s: State, t: nat)
    requires OneToken(s) && !s.running && t < |s.pc| && Pushes(s, s.pc[t])
    ensures Due(Do(s, s.pc[t]).pc)
  {
    if s.pc[t].Executing? {
      AloneWithToken(s, t);
    }
  }

  lemma CallsInv(s: State, t: nat, task: Task, s': State)
    requires Inv(s) && Calls(s, t, task, s')
    ensures Inv(s')
  {
    if Stop(s, s') {
      StopInv(s, s');
    } else {
      CallToken(s, t, task, s');
      CallOrder(s, t, task, s');
      CallNotForgotten(s, t, task, s');
      assert PoolFree(s') by { hide OneToken, InOrder, NotForgotten; }
    }
  }

  lemma StopInv(s: State, s': State)
    requires Inv(s) && Stop(s, s')
    ensures Inv(s')
  {
    if s.begun != s.ended {
      var u :| OnlyBusy(s, u);
      assert OnlyBusy(s', u);
    }
  }

  lemma CallToken(s: State, t: nat, task: Task, s': State)
    requires OneToken(s) && Calls(s, t, task, s') && !Stop(s, s')
    ensures OneToken(s')
  {
    hide Sum, Run, InOrder;
    TokenStep(s, t, s'.pc[t]);
    if Refuse(s, t, s') {
      assert Token(s.pc[t]) == 1 && Token(s'.pc[t]) == 0;
    } else {
      assert Token(s.pc[t]) == Token(s'.pc[t]);
    }
  }

  lemma CallOrder(s: State, t: nat, task: Task, s': State)
    requires InOrder(s) && Calls(s, t, task, s') && !Stop(s, s')
    ensures InOrder(s')
  {
    StillBusy(s, t, s');
  }

  lemma CallNotForgotten(s: State, t: nat, task: Task, s': State)
    requires NotForgotten(s) && Calls(s, t, task, s') && !Stop(s, s')
    ensures NotForgotten(s')
  {
    if s'.queue != [] && !s'.running && !s'.stopped && !s'.refused {
      var u :| 0 <= u < |s.pc| && Due(s.pc[u]);
      assert Due(s'.pc[u]);
    }
  }

  lemma NextInv(s: State, s': State)
    requires Inv(s) && Next(s, s')
    ensures Inv(s')
  {
    hide Calls, Acts, OneToken, InOrder, NotForgotten;
    if Internal(s, s') {
      var t :| Acts(s, t, s');
      ActsToken(s, t, s');
      ActsOrder(s, t, s');
      ActsNotForgotten(s, t, s');
      ActsClosed(s, t, s');
    } else {
      var t, task :| Calls(s, t, task, s');
      CallsInv(s, t, task, s');
    }
  }

  lemma ActsClosed(s: State, t: nat, s': State)
    requires Acts(s, t, s')
    ensures s'.closed == s.closed && s'.stopped == s.stopped && s'.refused == s.refused && s'.capacity == s.capacity
    ensures |s'.pc| == |s.pc| && s'.workers == s.workers
    ensures PoolFree(s) ==> PoolFree(s')
  {
  }

  /** Every state of every interleaving satisfies the invariant. */
  lemma {:induction false} RunInv(states: seq<State>, i: nat)
    requires Run(states) && i < |states|
    ensures Inv(states[i])
  {
    if i == 0 {
      InitInv(states[0]);
    } else {
      RunInv(states, i - 1);
      NextInv(states[i - 1], states[i]);
    }
  }

  // What the protocol promises.

  predicate InDrain(pc: Pc)
  {
    pc == Draining || pc == Leaving || pc.Executing?
  }

  /** At most one drain is ever running, and none besides it is waiting in the pool. */
  lemma OneDrain(states: seq<State>, i: nat, t: nat, u: nat)
    requires Run(states) && i < |states| && t < |states[i].pc| && u < |states[i].pc|
    requires InDrain(states[i].pc[t])
    ensures InDrain(states[i].pc[u]) ==> t == u
    ensures states[i].pool == 0
  {
    RunInv(states, i);
    AloneWithToken(states[i], t);
  }

  /** The i-th pushed task starts i-th, and only after every task pushed before it has ended. */
  lemma SerialOrder(states: seq<State>, i: nat, k: nat)
    requires Run(states) && i < |states| && k < |states[i].begun|
    ensures var s := states[i];
      && s.begun <= s.pushed
      && k <= |s.ended|
      && s.ended <= s.pushed
  {
    RunInv(states, i);
    var s := states[i];
    if s.begun != s.ended {
      var t :| OnlyBusy(s, t);
    }
  }

  ghost predicate Quiescent(s: State)
  {
    s.pool == 0 && forall t :: 0 <= t < |s.pc| ==> s.pc[t] == Idle
  }

  /** Unless it was stopped or the pool refused a drain, an executor at rest has run everything. */
  lemma NothingLeftBehind(states: seq<State>, i: nat)
    requires Run(states) && i < |states| && Quiescent(states[i])
    requires !states[i].stopped && !states[i].refused
    ensures states[i].queue == [] && states[i].ended == states[i].pushed
  {
    RunInv(states, i);
    SumZero(states[i].pc, Token);
  }

  // Liveness: left to itself, the executor runs dry, unless a task waits for room that only its own end could make.

  /** Submissions begun and not yet pushed, by clients and in all. */
  function Outside(pc: Pc): nat
  {
    if pc.Submitting? then 1 else 0
  }

  function Waiting(pc: Pc): nat
  {
    if Waits(pc) then 1 else 0
  }

  function WorkWhenFull(pc: Pc): nat
  {
    match pc
    case Idle => 0
    case Submitting(_) => 0
    case Draining => 1
    case Posting => 3
    case Scheduling => 4
    case SawWork => 5
    case Rechecking => 6
    case Leaving => 7
    case Executing(_, inner) => if inner == InnerPosting then 5 else if inner == InnerScheduling then 6 else 2
  }

  function WorkWhenDry(pc: Pc): nat
  {
    match pc
    case Idle => 0
    case Submitting(_) => 0
    case Rechecking => 1
    case Leaving => 2
    case Draining => 3
    case Posting => 5
    case Scheduling => 6
    case SawWork => 7
    case Executing(_, inner) => if inner == InnerPosting then 9 else if inner == InnerScheduling then 10 else 4
  }

  function Work(s: State): nat
  {
    if s.queue == [] then Sum(s.pc, WorkWhenDry) + 4 * s.pool else Sum(s.pc, WorkWhenFull) + 2 * s.pool
  }

  lemma DoProgress(s: State, pc: Pc)
    requires pc != Idle && !Pops(s, pc) && !Waits(pc)
    ensures s.queue == [] ==> WorkWhenDry(Do(s, pc).pc) + 4 * Do(s, pc).pool < WorkWhenDry(pc) + 4 * s.pool
    ensures s.queue != [] ==> WorkWhenFull(Do(s, pc).pc) + 2 * Do(s, pc).pool < WorkWhenFull(pc) + 2 * s.pool
  {
  }

  lemma DoWaiting(s: State, pc: Pc)
    requires pc != Idle
    ensures Waiting(Do(s, pc).pc) == 0
  {
  }

  /** Each step of the executor's own settles a submission, or else shortens the queue, or else leaves both
      and brings the threads closer to rest. */
  lemma ActsProgress(s: State, t: nat, s': State)
    requires Acts(s, t, s')
    ensures var p, p' := Sum(s.pc, Waiting), Sum(s'.pc, Waiting);
      p' < p || (p' == p && (|s'.queue| < |s.queue| || (s'.queue == s.queue && Work(s') < Work(s))))
  {
    if Start(s, t, s') {
      SumUpdate(s.pc, t, Draining, Waiting);
      SumUpdate(s.pc, t, Draining, WorkWhenDry);
      SumUpdate(s.pc, t, Draining, WorkWhenFull);
    } else {
      hide Do, WorkWhenDry, WorkWhenFull;
      DoWaiting(s, s.pc[t]);
      SumUpdate(s.pc, t, Do(s, s.pc[t]).pc, Waiting);
      if !Waits(s.pc[t]) && !Pops(s, s.pc[t]) {
        DoProgress(s, s.pc[t]);
        SumUpdate(s.pc, t, Do(s, s.pc[t]).pc, WorkWhenDry);
        SumUpdate(s.pc, t, Do(s, s.pc[t]).pc, WorkWhenFull);
      }
    }
  }

  /** The drain waits inside thread `t` for room in the queue that only the drain could make. */
  predicate Stuck(s: State, t: nat)
  {
    t < |s.pc| && s.pc[t].Executing? && s.pc[t].inner.InnerSubmitting? && !s.closed && !HasRoom(s)
  }

  /** As soon as some task is stuck nothing short of closing the queue changes the queue or frees the task:
      neither steps of the executor nor calls from outside. */
  lemma StuckForGood(s: State, t: nat, s': State)
    requires Inv(s) && Stuck(s, t) && Next(s, s') && !s'.closed
    ensures Stuck(s', t) && s'.pc[t] == s.pc[t] && s'.queue == s.queue
  {
    hide InOrder, NotForgotten, PoolFree;
    AloneWithToken(s, t);
    if Internal(s, s') {
      var u :| Acts(s, u, s');
      StuckStep(s, t, u, s');
    } else {
      hide OneToken;
      var u, task :| Calls(s, u, task, s');
      assert Token(s.pc[t]) > 0 && s.pc[t] != Idle && s.pc[t] != Posting;
    }
  }

  lemma StuckStep(s: State, t: nat, u: nat, s': State)
    requires Stuck(s, t) && Acts(s, u, s')
    requires forall v :: 0 <= v < |s.pc| && v != t ==> Token(s.pc[v]) == 0
    ensures Stuck(s', t) && s'.pc[t] == s.pc[t] && s'.queue == s.queue
  {
    assert u != t;
    assert !Start(s, u, s') ==> !Pops(s, s.pc[u]) && !Pushes(s, s.pc[u]);
  }

  /** With no drain in the pool, an executor that is not at rest and not stuck has a thread that need not wait. */
  lemma FreeThread(s: State) returns (t: nat)
    requires Inv(s) && !s.stopped && !s.refused && s.pool == 0 && !Quiescent(s) && forall u :: !Stuck(s, u)
    ensures t < |s.pc| && s.pc[t] != Idle && !Blocked(s, s.pc[t])
  {
    var u :| 0 <= u < |s.pc| && s.pc[u] != Idle;
    if !Blocked(s, s.pc[u]) {
      t := u;
    } else if s.running {
      t := SumWitness(s.pc, Token);
      assert !Stuck(s, t);
    } else {
      assert s.queue != [];
      t :| 0 <= t < |s.pc| && Due(s.pc[t]);
    }
  }

  /** An executor with a thread in its pool, neither stopped nor refused, that is not at rest and not stuck can act. */
  lemma SomeoneCanAct(s: State) returns (t: nat, s': State)
    requires Inv(s) && 0 < s.workers <= |s.pc| && !s.stopped && !s.refused && !Quiescent(s)
    requires forall u :: !Stuck(s, u)
    ensures Acts(s, t, s')
  {
    if s.pool == 0 {
      t := FreeThread(s);
      s' := After(s, t);
    } else if s.pc[0] == Idle {
      t, s' := 0, s.(pool := s.pool - 1, pc := s.pc[0 := Draining]);
    } else {
      assert !Stuck(s, 0);
      t, s' := 0, After(s, 0);
    }
  }

  /** Some task has begun a submission to its own executor, and the clients that are submitting can fill the queue
      before it: the exact warning of a jam. An unbounded queue never gives it. */
  ghost predicate MayJam(s: State)
  {
    0 < s.capacity <= |s.queue| + Sum(s.pc, Outside) && !s.closed && exists t :: InnerWaits(s, t)
  }

  predicate InnerWaits(s: State, t: nat)
  {
    t < |s.pc| && s.pc[t].Executing? && s.pc[t].inner.InnerSubmitting?
  }

  lemma StuckMayJam(s: State, t: nat)
    requires Stuck(s, t)
    ensures MayJam(s)
  {
    assert InnerWaits(s, t);
  }

  /** Without the warning there will be none, whatever the threads do. */
  lemma NoJamStep(s: State, t: nat, s': State)
    requires Inv(s) && Acts(s, t, s') && !MayJam(s)
    ensures !MayJam(s')
  {
    if MayJam(s') {
      var u :| InnerWaits(s', u);
      assert InnerWaits(s, u) by { NoNewWait(s, t, u, s'); }
      AloneWithToken(s, u);
      RoomLeft(s, t, s');
    }
  }

  lemma NoNewWait(s: State, t: nat, u: nat, s': State)
    requires Acts(s, t, s') && InnerWaits(s', u)
    ensures InnerWaits(s, u) && u != t
  {
  }

  /** A step of a thread without a token fills the queue only by a submission of its own. */
  lemma RoomLeft(s: State, t: nat, s': State)
    requires Acts(s, t, s') && !s.closed && (Start(s, t, s') || Token(s.pc[t]) == 0)
    ensures |s'.queue| + Sum(s'.pc, Outside) <= |s.queue| + Sum(s.pc, Outside)
  {
    SumUpdate(s.pc, t, s'.pc[t], Outside);
  }

  // Schedules.

  ghost predicate Halted(s: State)
  {
    forall s' :: !Internal(s, s')
  }

  /** A schedule that never stops short: from state to state by steps of the executor's own, while there are any. */
  ghost predicate Unattended(f: nat -> State)
  {
    forall i: nat :: Internal(f(i), f(i + 1)) || (Halted(f(i)) && f(i + 1) == f(i))
  }

  /** At rest, and every task pushed has been run, in order. */
  ghost predicate Dry(s: State)
  {
    Quiescent(s) && s.queue == [] && s.ended == s.pushed
  }

  /** The task that a thread has begun to submit and not yet pushed. */
  function Named(pc: Pc): multiset<Task>
  {
    match pc
    case Submitting(next) => multiset{next}
    case Executing(_, InnerSubmitting(next)) => multiset{next}
    case _ => multiset{}
  }

  /** All the tasks that threads have begun to submit and not yet pushed. */
  function Pending(pcs: seq<Pc>): multiset<Task>
  {
    if pcs == [] then multiset{} else Named(pcs[0]) + Pending(pcs[1..])
  }

  lemma {:induction false} PendingUpdate(pcs: seq<Pc>, t: nat, v: Pc)
    requires t < |pcs|
    ensures Pending(pcs[t := v]) + Named(pcs[t]) == Pending(pcs) + Named(v)
  {
    hide Named;
    if t == 0 {
      assert pcs[0 := v][1..] == pcs[1..];
    } else {
      assert pcs[t := v][1..] == pcs[1..][t - 1 := v];
      PendingUpdate(pcs[1..], t - 1, v);
      var first, rest := Named(pcs[0]), Pending(pcs[1..]);
      assert first + Pending(pcs[1..][t - 1 := v]) + Named(pcs[t]) == first + (rest + Named(v));
    }
  }

  lemma {:induction false} NonePending(pcs: seq<Pc>)
    requires forall t :: 0 <= t < |pcs| ==> pcs[t] == Idle
    ensures Pending(pcs) == multiset{}
  {
    if pcs != [] {
      NonePending(pcs[1..]);
    }
  }

  /** While the queue is open no submission is lost: what a step takes from the pending tasks it pushes. */
  lemma SubmissionsKept(s: State, t: nat, s': State)
    requires Acts(s, t, s') && !s.closed
    ensures s.pushed <= s'.pushed
    ensures multiset(s'.pushed) + Pending(s'.pc) == multiset(s.pushed) + Pending(s.pc)
  {
    PendingUpdate(s.pc, t, s'.pc[t]);
    NamedStep(s, t, s');
    hide *;
    var p, q, named := Pending(s.pc), Pending(s'.pc), Named(s.pc[t]);
    assert q + named == p;
    assert multiset(s'.pushed) == multiset(s.pushed) + named;
  }

  lemma NamedStep(s: State, t: nat, s': State)
    requires Acts(s, t, s') && !s.closed
    ensures |s'.pc| == |s.pc| && s'.pc == s.pc[t := s'.pc[t]] && Named(s'.pc[t]) == multiset{}
    ensures s.pushed <= s'.pushed && multiset(s'.pushed) == multiset(s.pushed) + Named(s.pc[t])
  {
    if Start(s, t, s') {
    } else {
      NamedPushed(s, s.pc[t]);
      NamesNone(s, s.pc[t]);
      hide Do, Named, Pushed, Pushes, Pops, Waits, Blocked;
    }
  }

  lemma NamedPushed(s: State, pc: Pc)
    requires !s.closed && !Blocked(s, pc)
    ensures Named(pc) == if Pushes(s, pc) then multiset{Pushed(pc)} else multiset{}
  {
  }

  lemma NamesNone(s: State, pc: Pc)
    requires pc != Idle
    ensures Named(Do(s, pc).pc) == multiset{}
  {
  }

  lemma HaltedIsDry(s: State)
    requires Inv(s) && Halted(s) && 0 < s.workers <= |s.pc| && !s.stopped && !s.refused && !MayJam(s)
    ensures Dry(s) && Pending(s.pc) == multiset{}
  {
    if !Quiescent(s) {
      forall u
        ensures !Stuck(s, u)
      {
        if Stuck(s, u) {
          StuckMayJam(s, u);
        }
      }
      var t, s' := SomeoneCanAct(s);
      assert Internal(s, s');
    }
    SumZero(s.pc, Token);
    NonePending(s.pc);
  }

  /** However its threads are scheduled from there on: an executor that is neither stopped nor refused, and that shows
      no warning of a jam, comes to rest; by then exactly the tasks being submitted at first have joined those
      pushed before, and every task pushed has been run, in order. */
  lemma {:induction false} RunsDry(f: nat -> State) returns (n: nat)
    requires Inv(f(0)) && 0 < f(0).workers <= |f(0).pc| && !f(0).stopped && !f(0).refused && Unattended(f)
    requires !MayJam(f(0))
    ensures Dry(f(n)) && f(0).pushed <= f(n).pushed
    ensures multiset(f(n).pushed) == multiset(f(0).pushed) + Pending(f(0).pc)
    decreases Sum(f(0).pc, Waiting), |f(0).queue|, Work(f(0))
  {
    hide OneToken, InOrder, NotForgotten, PoolFree, Work, Acts, MayJam, Pending, Sum, Dry, Halted;
    if Halted(f(0)) {
      HaltedIsDry(f(0));
      n := 0;
    } else {
      assert Internal(f(0), f(0 + 1));
      var t :| Acts(f(0), t, f(1));
      ActsProgress(f(0), t, f(1));
      ActsClosed(f(0), t, f(1));
      SubmissionsKept(f(0), t, f(1));
      NoJamStep(f(0), t, f(1));
      assert Next(f(0), f(1));
      NextInv(f(0), f(1));
      var g: nat -> State := (i: nat) => f(i + 1);
      assert Unattended(g) by {
        forall i: nat
          ensures Internal(g(i), g(i + 1)) || (Halted(g(i)) && g(i + 1) == g(i))
        {
          assert Internal(f(i + 1), f(i + 1 + 1)) || (Halted(f(i + 1)) && f(i + 1 + 1) == f(i + 1));
        }
      }
      n := RunsDry(g);
      n := n + 1;
    }
  }

  ghost function Forth(s: State): State
  {
    if s' :| Internal(s, s') then s' else s
  }

  ghost function Onward(s: State, i: nat): State
  {
    if i == 0 then s else Forth(Onward(s, i - 1))
  }

  lemma {:induction false} StuckOnward(s: State, t: nat, i: nat)
    requires Inv(s) && Stuck(s, t)
    ensures Inv(Onward(s, i)) && Stuck(Onward(s, i), t)
  {
    hide Inv, Stuck, Acts;
    if i > 0 {
      StuckOnward(s, t, i - 1);
      var p, q := Onward(s, i - 1), Onward(s, i);
      if Internal(p, q) {
        assert Next(p, q);
        NextInv(p, q);
        var u :| Acts(p, u, q);
        ActsClosed(p, u, q);
        assert !p.closed by { StuckMayJam(p, t); }
        StuckForGood(p, t, q);
      }
    }
  }

  /** One client after the other fills the queue before the task gets its turn: from then on it is stuck. */
  lemma {:induction false} JamSchedule(s: State) returns (f: nat -> State)
    requires Inv(s) && MayJam(s)
    ensures f(0) == s && Unattended(f) && forall n :: !Dry(f(n))
    decreases s.capacity - |s.queue|
  {
    hide Inv, Acts;
    var t :| InnerWaits(s, t);
    if !HasRoom(s) {
      f := (i: nat) => Onward(s, i);
      forall n
        ensures !Dry(f(n))
      {
        StuckOnward(s, t, n);
      }
    } else {
      var s' := ClientPushes(s, t);
      assert Internal(s, s');
      assert Next(s, s');
      NextInv(s, s');
      var g := JamSchedule(s');
      f := Then(s, g);
      forall i: nat
        ensures Internal(f(i), f(i + 1)) || (Halted(f(i)) && f(i + 1) == f(i))
      {
        if i > 0 {
          assert Internal(g(i - 1), g(i - 1 + 1)) || (Halted(g(i - 1)) && g(i - 1 + 1) == g(i - 1));
        }
      }
      assert !Dry(s);
    }
  }

  ghost function Then(s: State, g: nat -> State): nat -> State
  {
    (i: nat) => if i == 0 then s else g(i - 1)
  }

  lemma ClientPushes(s: State, t: nat) returns (s': State)
    requires MayJam(s) && HasRoom(s) && InnerWaits(s, t)
    ensures Internal(s, s') && MayJam(s') && s'.capacity == s.capacity && |s'.queue| == |s.queue| + 1
  {
    var u := SumWitness(s.pc, Outside);
    s' := After(s, u);
    assert Acts(s, u, s');
    assert InnerWaits(s', t);
    SumUpdate(s.pc, u, Scheduling, Outside);
  }

  ghost predicate RunsDryBy(f: nat -> State)
  {
    exists n :: Dry(f(n))
  }

  /** The exact condition: an executor in use runs dry in every schedule if and only if it shows no warning of a jam. */
  lemma DriesIff(s: State)
    requires Inv(s) && 0 < s.workers <= |s.pc| && !s.stopped && !s.refused
    ensures (forall f: nat -> State :: Unattended(f) && f(0) == s ==> RunsDryBy(f)) <==> !MayJam(s)
  {
    hide Inv, MayJam, Unattended, Dry;
    if MayJam(s) {
      var f := JamSchedule(s);
      assert Unattended(f) && f(0) == s && !RunsDryBy(f);
    } else {
      forall f: nat -> State | Unattended(f) && f(0) == s
        ensures RunsDryBy(f)
      {
        var n := RunsDry(f);
        assert Dry(f(n));
      }
    }
  }

  /** No warning ever with an unbounded queue, nor while no task submits to its own executor. */
  lemma UnboundedNeverJams(s: State)
    requires s.capacity == 0 || forall t :: !InnerWaits(s, t)
    ensures !MayJam(s)
  {
  }

  lemma Acted(states: seq<State>, t: nat, s': State)
    requires Run(states) && Acts(states[|states| - 1], t, s')
    ensures Run(states + [s'])
  {
    hide Acts, Calls, Init;
    assert Internal(states[|states| - 1], s');
  }

  lemma Called(states: seq<State>, t: nat, task: Task, s': State)
    requires Run(states) && Calls(states[|states| - 1], t, task, s')
    ensures Run(states + [s'])
  {
    hide Internal, Calls, Init;
  }

  /** A client submits `a` to a fresh executor of capacity 1. */
  lemma TaskIsPosted(a: Task) returns (states: seq<State>)
    ensures Run(states)
    ensures states[|states| - 1] == State(1, 1, [a], true, false, false, false, 1, [Idle, Idle], [a], [], [])
  {
    var s0 := State(1, 1, [], false, false, false, false, 0, [Idle, Idle], [], [], []);
    var s1 := s0.(pc := [Idle, Submitting(a)]);
    var s2 := s1.(pc := [Idle, Scheduling], queue := [a], pushed := [a]);
    var s3 := s2.(pc := [Idle, Posting], running := true);
    var s4 := s3.(pc := [Idle, Idle], pool := 1);
    states := [s0];
    hide Run, Next, Internal;
    RunBegins(s0);
    assert Calls(s0, 1, a, s1) && Acts(s1, 1, s2) && Acts(s2, 1, s3) && Acts(s3, 1, s4);
    hide Acts, Calls;
    Called(states, 1, a, s1);
    Acted(states + [s1], 1, s2);
    Acted(states + [s1] + [s2], 1, s3);
    Acted(states + [s1] + [s2] + [s3], 1, s4);
    states := states + [s1] + [s2] + [s3] + [s4];
  }

  /** Then a thread of the pool starts it. */
  lemma TaskStarts(a: Task) returns (states: seq<State>)
    ensures Run(states)
    ensures states[|states| - 1]
         == State(1, 1, [], true, false, false, false, 0, [Executing(a, Quiet), Idle], [a], [a], [])
  {
    states := TaskIsPosted(a);
    var s4 := states[|states| - 1];
    var s5 := s4.(pc := [Draining, Idle], pool := 0);
    var s6 := s5.(pc := [Executing(a, Quiet), Idle], queue := [], begun := [a]);
    hide Run, Next, Internal;
    assert Acts(s4, 0, s5) && Acts(s5, 0, s6);
    hide Acts;
    Acted(states, 0, s5);
    Acted(states + [s5], 0, s6);
    states := states + [s5] + [s6];
  }

  lemma RunBegins(s: State)
    requires Init(s)
    ensures Run([s])
  {
  }

  /** A jam can be reached: on an executor of capacity 1, a task that submits two tasks to it hangs in the second
      submit. */
  lemma TaskJamsItself(a: Task, b: Task, c: Task) returns (states: seq<State>)
    ensures Run(states) && Stuck(states[|states| - 1], 0)
  {
    states := TaskStarts(a);
    var s6 := states[|states| - 1];
    var s7 := s6.(pc := [Executing(a, InnerSubmitting(b)), Idle]);
    var s8 := s7.(pc := [Executing(a, InnerScheduling), Idle], queue := [b], pushed := [a, b]);
    var s9 := s8.(pc := [Executing(a, Quiet), Idle]);
    var s10 := s9.(pc := [Executing(a, InnerSubmitting(c)), Idle]);
    hide Run, Next, Internal;
    assert Calls(s6, 0, b, s7) && Acts(s7, 0, s8) && Acts(s8, 0, s9) && Calls(s9, 0, c, s10);
    hide Acts, Calls;
    Called(states, 0, b, s7);
    Acted(states + [s7], 0, s8);
    Acted(states + [s7] + [s8], 0, s9);
    Called(states + [s7] + [s8] + [s9], 0, c, s10);
    states := states + [s7] + [s8] + [s9] + [s10];
  }
}
