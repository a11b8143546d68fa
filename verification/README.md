# dbase: verified models

`dbase` is a C++20 foundation library: timers, executors and queues for threads, a
standard-library-like set of containers and algorithms, exact fractions, caches. This
project models the parts of it in which a fast or concurrent mechanism has to agree with
something simple, and proves that it does.

| Area | Files here | The simple thing it is proved against |
|---|---|---|
| Timing wheel (256/64/64/64/64 slots) | WheelArithmetic, FlatTimers, TimerRuns, TimerCascades, TimerTally, TimerWheel, SlotList, SlotTable | a table of deadlines |
| SerialExecutor, ShardedExecutor | ThreadCounts, SerialExecutor, SerialCalls, ShardedExecutor | exactly the submitted tasks, one by one in push order |
| BlockingQueue | ThreadCounts, BlockingQueue, BlockingCalls | a sequence; waiting only with a reason; what each call adds and takes |
| Red-black tree with parent pointers | RbShape, RbHeight, RbNodes, RbInsert, RbUnlink, RbErase, RbIterate, RbTree | a sorted sequence of nodes |
| rotate, three versions | NumberTheory, Rotate, RotateCycles | `a[l..] + a[..l]` |
| inplace_merge | StableOrder, Copies, BufferMerge, EmptyBuffer, InplaceMerge | the one stable merge |
| list sort by relinking | ListNodes, ListSort | the one stable sorted rearrangement |
| Fraction on int64 | NumberTheory, LowestTerms, Int64, Fraction, FractionOrder | rational arithmetic over unbounded integers |
| next and prev permutation | Permutations | lexicographic order of all arrangements |
| partial_sort by heaps | Heaps, PartialSort | the sorted n smallest |
| LRUCache | LruLists, LruOrder, LruCache | the keys by the place of their last use in the trace |
| hashtable, equal keys allowed | HashChains, HashTable | a multiset of pairs, equal keys together |
| deque | DequeStore, Deque | a plain sequence |

How it is modelled:

- Code that changes objects or arrays is a class or a method over the heap, with the
  branches and loops of the C++ code; its contract states the new state through an
  abstraction function. Mirror-image branches of the tree share one body with a `Side`
  parameter, and the two permutation functions one body with a direction.
- The concurrent parts are step systems: one program counter per thread, any number of
  threads, every interleaving of the atomic actions, with spurious wakeups and time-outs
  for the queue. Safety is proved for every reachable state; progress as a measure that
  every step lowers together with an enabled step in every state that is not at rest.
- 64-bit and 32-bit limits are written out; array positions, counters of steps and
  memory are unbounded. Elements that only need moving are of any type; elements that
  are compared are integers, or items with an integer key where stability matters.

What the proofs found about the code:

- A timer is exact only below a horizon. While wheel w has just come round inside
  `step`, the wheels above it still show the tick before, so a callback that then
  registers a timeout of at least one slot of the next wheel gets it too early, by
  exactly that slot width. `TimerRuns.PlaceExactIff` and, over whole runs,
  `TimerRuns.CallbackTimerRuns` are the exact condition, `TimerRuns.WrapCallbackRunsEarly`
  is an input. Registrations between steps are always exact, with the sum of timeout and
  clock lead taken modulo 2^32.
- `registerTimer` adds the clock lead also when `step` uses it to cascade a timer. A small
  lead makes the timer late by the lead; one that reaches past the horizon moves it by the
  lead less the horizon, mostly early; and a sum beyond 32 bits starts over.
  `TimerCascades.CascadeDelay` says what happens for every lead and exactly when the
  deadline is kept; `CascadeRunsLate` and `CascadeRunsEarly` are inputs.
- A task that submits to its own SerialExecutor while its bounded queue is full waits for
  ever, since only the drain it runs in could make room. `SerialExecutor.DriesIff` is the
  exact condition for running dry, `TaskJamsItself` an input: capacity 1, two submissions.
- `Fraction` refuses -2^63 over -2^63 although its value is 1, since the gcd does not fit
  64 bits. `+=` and `-=` refuse some results that fit, because an intermediate over the
  least common denominator does not, nor over any other; `-=` and `/=` also where they
  negate -2^63.
  `Normalizable`, `SumFits`, `DifferenceFits` and `QuotientFits` are the exact conditions,
  `Fractions.RefusedThoughFitting` has inputs. `*=` fails only when its result does not fit.
- `emplace_unique` returns for a rejected key an iterator to the insertion parent. That is
  the node with the key if and only if this node has no right child; otherwise it is the
  next node, with another key. `RbTree.EmplaceUnique` states it, and
  `RbTree.SomeKeyMisanswered` finds such a key in every tree of three or more nodes.
- `merge_adaptive` with an empty buffer repeats the same call for ever on some runs, [2] and
  [1] for one; `EmptyBuffer.EndsIff` says on exactly which. `inplace_merge` never calls it
  so, it takes `merge_without_buffer` then.

Run `dafny verify dfyconfig.toml` here to verify everything.

## Model

| member | source | states |
|---|---|---|
| `TimerRuns.RegisteredTimerRunsOnTime` | src/dbase/time/timer_wheel.cpp:35-79 | In every run, a timer registered between steps with timeout t and clock lead d, that no later call touches and that no cascade re-registers while the clock is ahead, fires in step n after that and in no other: n is t + d below 2^32, 1 when t + d is 0, and in general t + d less a multiple of 2^32, 1 when that leaves 0 |
| `TimerRuns.CallbackTimerRuns` | src/dbase/time/timer_wheel.cpp:154-185 | In every run, a timer last registered by a callback in step k, run from wheel w, with t being timeout and lead less a multiple of 2^32, or 1 when that leaves 0: it fires t steps later if t is below the horizon (the slot width of wheel w + 1 if that wheel is about to turn at this tick, else 2^32), else horizon fewer (in the same step when equal), once and in no other step: on time if and only if t is below the horizon |
| `TimerRuns.FiresWhenDue` | src/dbase/time/timer_wheel.cpp:154-185 | Whatever the clock reads: a timer left alone fires in exactly the step that reaches its deadline as the cascades move it, and in no other |
| `TimerRuns.FiresAtDeadline` | src/dbase/time/timer_wheel.cpp:154-185 | Without leads at its cascades that is the deadline it had: it fires in the step that reaches it and in no step before or after |
| `TimerRuns.NeverFires` | src/dbase/time/timer_wheel.cpp:154-185 | An unregistered timer fires in no step of a run that does not register it |
| `TimerRuns.UnregisteredNeverFires` | src/dbase/time/timer_wheel.cpp:81-90 | Nor does a timer that has just been unregistered, whatever it was registered for |
| `TimerRuns.WithinStep` | src/dbase/time/timer_wheel.cpp:161-178 | From any event of a step on, whatever the other callbacks do: a timer left alone either keeps its deadline as moved by its cascades, or that is the present tick and it fires and is gone |
| `TimerRuns.PlaceExactIff` | src/dbase/time/timer_wheel.cpp:56-79 | At any stage of any step, the placement is exact if and only if the timeout is below the horizon (the slot width of the first wheel that is still stale, or 2^32) |
| `TimerRuns.WrapCallbackRunsEarly` | src/dbase/time/timer_wheel.cpp:154-185 | Concrete failing input: at tick 256 a callback that registers timeout 256 gets it in the same step |
| `TimerCascades.CascadeDelay` | src/dbase/time/timer_wheel.cpp:47-54 | For every lead of the clock at a cascade: the new deadline is late by the lead short of the horizon, gains the horizon again from there on, and starts over beyond 32 bits; it is kept if and only if the lead (modulo 2^32) is 0 or the horizon, or one tick remains and the sum is 2^32 |
| `TimerCascades.CascadeMoves` | src/dbase/time/timer_wheel.cpp:47-54 | A re-queueing event gives exactly this deadline to its timer, for every lead, and leaves all other deadlines as they were |
| `TimerCascades.CascadeRunsLate` | src/dbase/time/timer_wheel.cpp:47-54 | Concrete input: tick 256, 100 ticks left, lead 10: due at 366 instead of 356 |
| `TimerCascades.CascadeRunsEarly` | src/dbase/time/timer_wheel.cpp:47-54 | Concrete input: tick 16384, 200 ticks left, lead 16184: fires in the same step instead of at 16584 |
| `TimerCascades.CascadePlacement` | src/dbase/time/timer_wheel.cpp:56-79 | Which wheel and remainder a cascaded timer gets once the lower wheels are at slot 0, and that its rank (how often it can still cascade) falls |
| `TimerCascades.PayRequeued` | src/dbase/time/timer_wheel.cpp:174-177 | Re-registering a timer without lead uses up part of its rank and changes no other |
| `TimerCascades.PayTick` | src/dbase/time/timer_wheel.cpp:154-185 | Over any number of steps: re-registrations so far + rank left <= rank at the start, for every timer left alone |
| `TimerWheel.TimerMgr.Serve` | src/dbase/time/timer_wheel.cpp:35-185 | Any history of outside calls, steps, callbacks and clock readings is a run of the deadline table, and a timer that was in wheel w, left alone and never re-queued while the clock is ahead, is re-registered at most w + 1 times in it |
| `TimerTally.LogBalance` | src/dbase/time/timer_wheel.cpp:154-185 | Across the events of one step: before + joined = after + removed + fired |
| `TimerTally.Conservation` | src/dbase/time/timer_wheel.cpp:35-185 | Over any run: registered at the start + joined = fired + removed + still registered |
| `TimerWheel.TimerMgr.Step` | src/dbase/time/timer_wheel.cpp:154-185 | step refines the flat table: its log replays on the old deadlines to give the new ones (each firing at its deadline, each re-queueing ahead of it, each from a wheel that turns at this tick, with the horizon that goes with it), every remaining deadline is in the future, the five wheels show the next tick; it ends for all callbacks and clock readings |
| `TimerWheel.TimerMgr.TickInternal` | src/dbase/time/timer_wheel.cpp:125-139 | Exactly one step for each tick missed, as one run of the flat machine, for every course of the clock meanwhile; the lead at each cascade is how far its reading is ahead of the tick being made up |
| `TimerWheel.TimerMgr.RegisterTimer` | src/dbase/time/timer_wheel.cpp:35-79 | Replaces or adds exactly the deadline of this timer: now plus timeout and lead modulo 2^32 (1 for 0), less the horizon from there on; never lengthens the slot being drained |
| `TimerWheel.TimerMgr.Insert` | src/dbase/time/timer_wheel.cpp:56-79 | Linking at the computed slot adds exactly the specified deadline and keeps every list well formed |
| `TimerWheel.TimerMgr.Locate` | src/dbase/time/timer_wheel.cpp:56-75 | The shifting and subtracting loop computes the specified wheel, slot and remainder, without underflow |
| `TimerWheel.TimerMgr.UnRegisterTimer` | src/dbase/time/timer_wheel.cpp:81-90 | Removes exactly this timer; reports whether it was registered |
| `TimerWheel.TimerMgr.RunCallback` | src/dbase/time/timer_wheel.cpp:170-173 | Any sequence of calls made by a callback acts on the flat table as specified |
| `TimerWheel.TimerMgr.MoveWheel` | src/dbase/time/timer_wheel.cpp:156-159 | Moving a wheel on keeps every deadline; the wheel comes round exactly when the next one is due |
| `TimerWheel.TimerMgr.HandleFirst` | src/dbase/time/timer_wheel.cpp:162-178 | The popped timer fires at its deadline or is re-registered by its remainder, which costs it rank; the slot gets strictly shorter |
| `TimerWheel.TimerMgr.Drain` | src/dbase/time/timer_wheel.cpp:161-178 | Empties the current slot, every event allowed by the flat machine |
| `TimerWheel.LinkedWith` | src/dbase/time/timer_wheel.h:96-114 | Linking an unlinked timer keeps: each timer in exactly one list, that of its owner |
| `TimerWheel.LinkedWithout` | src/dbase/time/timer_wheel.h:148-166 | Unlinking keeps the same invariant |
| `TimerWheel.TableMoves` | src/dbase/time/timer_wheel.cpp:156-159 | All deadlines read off the slots are unchanged when a wheel moves, and only its new current slot holds due timers |
| `TimerWheel.TableAhead` | src/dbase/time/timer_wheel.cpp:154-185 | Between steps every deadline read off the slots is later than the clock |
| `WheelArithmetic.MixedRadix` | src/dbase/time/timer_wheel.h:264-272 | The slots of the wheels are the mixed-radix digits of the tick, and the digits below wheel w give the tick modulo its slot width |
| `WheelArithmetic.TicksCounted` | src/dbase/time/timer_wheel.cpp:49-57 | The timeout worked with is timeout plus lead less a multiple of 2^32, and 1 when that leaves 0 |
| `WheelArithmetic.PlaceDistance` | src/dbase/time/timer_wheel.cpp:56-79 | The chosen slot is ahead of the current one by the leading digit of the timeout |
| `WheelArithmetic.PlaceDeadline` | src/dbase/time/timer_wheel.cpp:56-79 | The deadline of a placement is n + t, less the horizon if t reaches it |
| `WheelArithmetic.DueAfterMove` | src/dbase/time/timer_wheel.cpp:156-159 | Moving a wheel changes the due tick of no slot |
| `WheelArithmetic.DueAhead` | src/dbase/time/timer_wheel.cpp:154-185 | A slot that is not current is due later than now |
| `SlotList.DoubleLink.Push` | src/dbase/time/timer_wheel.h:96-114 | Appends a detached node and nothing else; a linked or null node changes nothing |
| `SlotList.DoubleLink.PushFront` | src/dbase/time/timer_wheel.h:116-134 | The same at the front |
| `SlotList.DoubleLink.Pop` | src/dbase/time/timer_wheel.h:136-146 | Returns and detaches the first node, or null when empty |
| `SlotList.Remove` | src/dbase/time/timer_wheel.h:148-166 | Takes a linked node out of the middle of its owner's chain, counts and links staying mutually consistent; ignores null and detached nodes |
| `SlotList.TakeOut` | src/dbase/time/timer_wheel.h:148-166 | The relinking and the count for a linked node |
| `SlotTable.PushIn` | src/dbase/time/timer_wheel.h:96-114 | Push on one list of a table: its nodes grow by this one, every other list stays well formed with the same nodes, and none come to share a node |
| `SlotTable.RemoveIn` | src/dbase/time/timer_wheel.h:148-166 | The same for Remove from any place of any list |
| `SlotTable.NamesWith` | src/dbase/time/timer_wheel.h:96-114 | What registration does to the lists of timers, each timer in exactly one, is what Push does to the nodes they name |
| `SlotTable.NamesWithout` | src/dbase/time/timer_wheel.h:148-166 | What removal does to them is what Remove does |
| `SerialExecutor.NextInv` | src/dbase/thread/serial_executor.cpp:60-99 | Every step of any thread, call, stop or refusal, pushes that wait for room included, keeps the protocol invariant: one right to drain, order of the histories, no forgotten task |
| `SerialExecutor.RunInv` | src/dbase/thread/serial_executor.cpp:60-99 | The invariant holds in every reachable state, for any number of threads |
| `SerialExecutor.OneDrain` | src/dbase/thread/serial_executor.cpp:80-99 | Never two threads in drain, nor one there and another drain waiting in the pool |
| `SerialExecutor.SerialOrder` | src/dbase/thread/serial_executor.h:42-65 | Tasks start in push order, and when task k starts all before it have finished |
| `SerialExecutor.NothingLeftBehind` | src/dbase/thread/serial_executor.cpp:80-99 | Every reachable quiescent state (no stop, no refusal) has an empty queue and every pushed task finished |
| `SerialExecutor.ActsProgress` | src/dbase/thread/serial_executor.cpp:60-99 | Each own step settles a submission, or else shortens the queue, or else lowers a measure: threads cannot spin for ever |
| `SerialExecutor.SomeoneCanAct` | src/dbase/thread/serial_executor.cpp:60-99 | A state neither quiescent nor stuck (a task waiting inside its own drain for room) has an enabled step |
| `SerialExecutor.StuckForGood` | src/dbase/thread/serial_executor.h:42-65 | A task that submits to its own full executor waits for ever: no step and no call but closing the queue changes that |
| `SerialExecutor.TaskJamsItself` | src/dbase/thread/serial_executor.h:42-65 | A run that gets there: capacity 1 and a task that submits two tasks to its own executor |
| `SerialExecutor.NoJamStep` | src/dbase/thread/serial_executor.cpp:60-99 | Without the warning (an inner submission begun, and queue plus submitting clients reaching a non-zero capacity) no step brings it about |
| `SerialExecutor.JamSchedule` | src/dbase/thread/serial_executor.cpp:60-99 | With the warning some schedule of the threads never comes to rest with all tasks run |
| `SerialExecutor.RunsDry` | src/dbase/thread/serial_executor.cpp:60-99 | Without the warning, in every schedule: the executor comes to quiescence, the multiset of pushed tasks has grown by exactly the tasks that were being submitted, and everything pushed has been run in order |
| `SerialExecutor.DriesIff` | src/dbase/thread/serial_executor.cpp:60-99 | An executor in use runs dry in every schedule if and only if it shows no such warning |
| `SerialExecutor.UnboundedNeverJams` | src/dbase/thread/serial_executor.h:42-65 | No warning with an unbounded queue, nor while no task is submitting to its own executor |
| `SerialExecutor.SubmissionsKept` | src/dbase/thread/serial_executor.h:60-64 | While the queue is open each own step moves tasks from the pending submissions, of clients and of tasks, to the pushed ones: their sum is kept |
| `SerialCalls.PushedIsSubmitted` | src/dbase/thread/serial_executor.h:42-65 | Over every run, while the queue is open: the tasks pushed and those still waiting in a submit are together, as a multiset, exactly the tasks that calls have submitted |
| `SerialCalls.EverySubmissionRuns` | src/dbase/thread/serial_executor.cpp:60-99 | Whatever has happened before, an executor neither stopped nor refused and without the warning runs exactly the multiset of tasks that calls have submitted, in push order |
| `SerialCalls.ClosedForGood` | src/dbase/thread/serial_executor.cpp:29-38 | Once the queue has been stopped, no run pushes anything any more |
| `SerialCalls.StoppedForGood` | src/dbase/thread/serial_executor.cpp:29-38 | After a stop every state of the run is stopped |
| `SerialCalls.TraceOfRun` | src/dbase/thread/serial_executor.cpp:60-99 | Every run has a trace that names the call or own step of each of its transitions |
| `ShardedExecutor.StepInvAll` | src/dbase/thread/sharded_executor.h:44-49 | A step of one shard, with the log of routed submissions, keeps the invariant of all |
| `ShardedExecutor.RunInvAll` | src/dbase/thread/sharded_executor.h:44-61 | It holds in every reachable state of the sharded executor |
| `ShardedExecutor.RankFindsTask` | src/dbase/thread/sharded_executor.h:51-55 | Where a submission stands in the queue history of its shard |
| `ShardedExecutor.RoutedByHash` | src/dbase/thread/sharded_executor.h:51-55 | Every key goes to a shard k below the shard count, with hash(key) less k a multiple of that count |
| `ShardedExecutor.EqualKeysRunInOrder` | src/dbase/thread/sharded_executor.h:44-61 | Of two submissions with equal keys the later starts only after the earlier has finished, in every run |
| `BlockingQueue.NextInv` | src/dbase/sync/blocking_queue.h:38-185 | Every critical section, notification, time-out, spurious wakeup and stop keeps the invariant |
| `BlockingQueue.RunInv` | src/dbase/sync/blocking_queue.h:38-185 | It holds in every reachable state, for any number of producers and consumers |
| `BlockingQueue.FirstInFirstOut` | src/dbase/sync/blocking_queue.h:38-69 | Popped items followed by the queue are the pushed items in order; a non-zero capacity is never exceeded |
| `BlockingQueue.NoLostWakeup` | src/dbase/sync/blocking_queue.h:38-135 | While a consumer sleeps, each queued item has a woken consumer or pending notification of its own; the dual for producers and free places; after stop nobody sleeps |
| `BlockingQueue.WaitersHaveReason` | src/dbase/sync/blocking_queue.h:161-185 | In a settled state a sleeping consumer faces an empty queue, a sleeping producer a full one, and after stop all are idle |
| `BlockingQueue.ActsProgress` | src/dbase/sync/blocking_queue.h:38-97 | Each step of a pending operation lowers a measure |
| `BlockingQueue.SomeoneCanAct` | src/dbase/sync/blocking_queue.h:38-97 | An unsettled state has an enabled step: no deadlock under the mutex |
| `BlockingQueue.SettlesDown` | src/dbase/sync/blocking_queue.h:38-135 | Left alone, every state of the invariant reaches a settled one in which all waiting has its reason |
| `BlockingCalls.EmplaceCall` | src/dbase/sync/blocking_queue.h:37-51 | Over every run: a call of emplace that has ended has itself added exactly its own item, once; or it has thrown, has added nothing, and the queue is stopped. On a queue still open it has added it, on one stopped before the call it has not |
| `BlockingCalls.PopCall` | src/dbase/sync/blocking_queue.h:53-97 | Over every run: a call of pop or popFor that has ended hands out exactly the one item its own step took; or it took nothing, the queue was empty then, and stopped or, for popFor, its time out |
| `BlockingCalls.ExpiredStaysUp` | src/dbase/sync/blocking_queue.h:71-85 | Once its time is out popFor never goes back to sleep |
| `BlockingCalls.TryPushCall` | src/dbase/sync/blocking_queue.h:167-185 | tryPush adds exactly its item, and refuses, changing nothing, only on a stopped or full queue |
| `BlockingCalls.TryPopCall` | src/dbase/sync/blocking_queue.h:109-122 | Over every run: tryPop takes and hands out the first item, and comes back without one only from an empty queue |
| `BlockingCalls.StoppedForGood` | src/dbase/sync/blocking_queue.h:124-135 | After stop the queue stays stopped and nobody adds anything to it in any run |
| `BlockingCalls.TraceOfRun` | src/dbase/sync/blocking_queue.h:38-185 | Every run has a trace that names the thread and the call or step of each of its transitions |
| `RbShape.InOrderPlug` | src/dbase/stl/rb_tree.h:418-477 | In-order sequence of a tree split at a focus |
| `RbShape.PlugFits` | src/dbase/stl/rb_tree.h:480-549 | A tree is red-black if and only if the subtree in focus is sound and its surroundings accept its height and colour |
| `RbShape.RaiseRed` | src/dbase/stl/rb_tree.h:501-507 | Red uncle: recolouring moves the only defect two levels up |
| `RbShape.TurnOutward` | src/dbase/stl/rb_tree.h:508-514 | Inner grandchild: the rotation keeps the only defect, now outside |
| `RbShape.TurnOver` | src/dbase/stl/rb_tree.h:515-519 | Outer grandchild: recolouring and rotating repairs the tree |
| `RbShape.InsertionDone` | src/dbase/stl/rb_tree.h:496-549 | When the loop ends, a black root repairs the tree |
| `RbShape.TurnRedBrother` | src/dbase/stl/rb_tree.h:635-642 | Red brother: rotation leaves a black brother and the same shortage |
| `RbShape.PassUp` | src/dbase/stl/rb_tree.h:643-649 | Black brother with black children: the shortage moves one level up |
| `RbShape.TurnBrother` | src/dbase/stl/rb_tree.h:650-659 | Near nephew red: rotation brings the red to the far side, same shortage |
| `RbShape.TurnParent` | src/dbase/stl/rb_tree.h:660-667 | Far nephew red: the last rotation repairs the tree |
| `RbShape.RemovalDone` | src/dbase/stl/rb_tree.h:629-707 | When the loop ends, blackening the focus repairs the tree |
| `RbNodes.Rotate` | src/dbase/stl/rb_tree.h:418-477 | Both rotations on nodes with parent pointers: exactly the rotated shape, all links consistent, the root pointer updated |
| `RbNodes.Extreme` | src/dbase/stl/rb_tree.h:358-371 | Minimum and maximum are the first and last node in order |
| `RbInsert.RaiseRedStep` | src/dbase/stl/rb_tree.h:501-507 | That case on the nodes, in-order sequence unchanged |
| `RbInsert.TurnOutwardStep` | src/dbase/stl/rb_tree.h:508-514 | That case on the nodes, in-order sequence unchanged |
| `RbInsert.TurnOverStep` | src/dbase/stl/rb_tree.h:515-519 | That case on the nodes: a red-black tree, in-order sequence unchanged |
| `RbInsert.InsertRebalance` | src/dbase/stl/rb_tree.h:493-549 | From a freshly hung leaf: a linked red-black tree with the same in-order sequence |
| `RbUnlink.EndWithout` | src/dbase/stl/rb_tree.h:614-618 | What the extreme nodes become when a node with at most one child goes |
| `RbUnlink.UnlinkSingle` | src/dbase/stl/rb_tree.h:599-619 | Unlinking a node with at most one child: sequence less that node, cached ends right, header when empty |
| `RbUnlink.UnlinkInner` | src/dbase/stl/rb_tree.h:565-598 | Unlinking a node with two children: its successor takes its place, links and colour; sequence less that node |
| `RbUnlink.SingleShort` | src/dbase/stl/rb_tree.h:621-631 | Either the tree is red-black already or the focus is one black short |
| `RbUnlink.InnerShort` | src/dbase/stl/rb_tree.h:621-631 | The same at the place the successor left |
| `RbErase.RedBrotherStep` | src/dbase/stl/rb_tree.h:635-642 | That case on the nodes, sequence unchanged |
| `RbErase.PassUpStep` | src/dbase/stl/rb_tree.h:643-649 | That case on the nodes, sequence unchanged |
| `RbErase.TurnBrotherStep` | src/dbase/stl/rb_tree.h:650-659 | That case on the nodes, sequence unchanged |
| `RbErase.TurnParentStep` | src/dbase/stl/rb_tree.h:660-667 | That case on the nodes: red-black, sequence unchanged |
| `RbErase.Repair` | src/dbase/stl/rb_tree.h:629-707 | From any shortage: a linked red-black tree with the same sequence, and the loop ends |
| `RbErase.UnlinkOne` | src/dbase/stl/rb_tree.h:599-619 | The first half for a node with at most one child: sequence less the node, ends right, red-black or one black short |
| `RbErase.UnlinkTwo` | src/dbase/stl/rb_tree.h:565-598 | The first half for a node with two children, likewise |
| `RbErase.EraseRebalance` | src/dbase/stl/rb_tree.h:556-709 | Erasing any node: red-black, parent pointers consistent, sequence exactly the old one less the node, leftmost and rightmost the extremes or the header |
| `RbHeight.AlternateColours` | src/dbase/stl/rb_tree.h:1301-1320 | In a sound shape no way down has more than twice the black height of nodes, and one more below a red root |
| `RbHeight.FullOfBlack` | src/dbase/stl/rb_tree.h:1301-1320 | A sound shape of black height h has at least 2^h - 1 nodes |
| `RbHeight.RedBlackIsLogarithmic` | src/dbase/stl/rb_tree.h:1301-1320 | So the ways down a red-black tree of n nodes have at most 2 * log2(n + 1) nodes |
| `RbIterate.Inc` | src/dbase/stl/rb_tree.h:205-222 | ++ goes to the next node in order, and from the last to the header |
| `RbIterate.Dec` | src/dbase/stl/rb_tree.h:225-245 | -- goes to the previous node in order, and from the header to the last; of two neighbours exactly one lacks the child towards the other |
| `RbIterate.HoleBeside` | src/dbase/stl/rb_tree.h:1556-1584 | A missing child of the i-th node is the gap just before or behind it in order |
| `RbTree.RbTree.constructor` | src/dbase/stl/rb_tree.h:1449-1459 | An empty valid tree whose header is its own leftmost and rightmost |
| `RbTree.RbTree.InsertNodeAt` | src/dbase/stl/rb_tree.h:1556-1584 | Inserting at a gap gives exactly the old sequence with the node at that gap, all structure and cached ends kept |
| `RbTree.RbTree.GetInsertMultiPos` | src/dbase/stl/rb_tree.h:1469-1484 | A gap with all smaller or equal keys before it and all greater keys behind |
| `RbTree.RbTree.GetInsertUniquePos` | src/dbase/stl/rb_tree.h:1486-1519 | Such a gap, and the flag says exactly whether the key is absent; if it is not, the insertion parent is the node with the key if that has no right child, else the next node |
| `RbTree.RbTree.LowerBound` | src/dbase/stl/rb_tree.h:1301-1320 | The first node whose key is not smaller; the header exactly when all keys are smaller; after a logarithmic number of rounds |
| `RbTree.RbTree.FindKey` | src/dbase/stl/rb_tree.h:1256-1276 | The header if and only if the key is absent, else a node with it; after a logarithmic number of rounds |
| `RbTree.RbTree.EmplaceMulti` | src/dbase/stl/rb_tree.h:1033-1044 | Inserts behind all equal keys and keeps every invariant |
| `RbTree.RbTree.EmplaceUnique` | src/dbase/stl/rb_tree.h:1046-1062 | Inserts if and only if the key is absent and returns the new node; else changes nothing and returns the node with the key if and only if that has no right child, otherwise the node after it |
| `RbTree.RbTree.SomeKeyMisanswered` | src/dbase/stl/rb_tree.h:1046-1062 | In every tree of three or more nodes there is a key for which the rejected insertion returns an iterator to a node with another key |
| `RbTree.RbTree.Erase` | src/dbase/stl/rb_tree.h:1182-1196 | Removes exactly the i-th node and returns its successor |
| `RbTree.RbTree.EmplaceMultiUseHint` | src/dbase/stl/rb_tree.h:1064-1103 | For any hint: a valid sorted tree with exactly this node added, right before the hint whenever its neighbours there admit the key (before the first node only a smaller key counts), and otherwise behind all equal keys |
| `RbTree.RbTree.EmplaceUniqueUseHint` | src/dbase/stl/rb_tree.h:1105-1154 | For any hint at all: inserted if and only if the key was absent, else contents unchanged; the iterator returned is as without a hint |
| `RbTree.SameKeys` | src/dbase/stl/rb_tree.h:1586-1641 | Hinted and unhinted insertion give the same key sequence |
| `Rotate.RotateForward` | src/dbase/stl/algo.h:1550-1578 | The forward-iterator swapping loop gives a[l..] + a[..l] and the new position |
| `Rotate.RotateRest` | src/dbase/stl/algo.h:1564-1576 | The second loop, from any state the first can leave |
| `Rotate.Reverse` | src/dbase/stl/algo.h:1467-1478 | Mirrors the range and nothing else |
| `Rotate.ThreeReversals` | src/dbase/stl/algo.h:1580-1600 | Reversing both parts and then the whole is the rotation |
| `Rotate.ReverseAround` | src/dbase/stl/algo.h:1586-1599 | The last reversal, done from both ends until one meets the middle, finishes the mirror and finds the new position |
| `Rotate.RotateBidirectional` | src/dbase/stl/algo.h:1580-1600 | The triple reversal gives a[l..] + a[..l] and the new position |
| `NumberTheory.ComputeGcd` | src/dbase/stl/algo.h:1602-1613 | The division loop computes the greatest common divisor |
| `NumberTheory.Bezout` | src/dbase/stl/algo.h:1602-1613 | Integer coefficients for the divisor |
| `NumberTheory.GcdDivides` | src/dbase/stl/algo.h:1602-1613 | It divides both arguments |
| `NumberTheory.ReducedCoprime` | src/dbase/stl/algo.h:1602-1613 | Both arguments divided by it are coprime, with coefficients |
| `NumberTheory.CoprimeDivides` | src/dbase/stl/algo.h:1602-1613 | A coprime factor can be cancelled from a divisibility |
| `CycleArithmetic.PosResidue` | src/dbase/stl/algo.h:1615-1666 | Cycle i stays in residue class i modulo the gcd |
| `CycleArithmetic.PosDistinct` | src/dbase/stl/algo.h:1615-1666 | A cycle visits no position twice |
| `CycleArithmetic.PosCovers` | src/dbase/stl/algo.h:1615-1666 | The cycles together visit every position |
| `RotateCycles.CarryStep` | src/dbase/stl/algo.h:1638-1662 | One element moved to its final place, the others as before |
| `RotateCycles.CycleDone` | src/dbase/stl/algo.h:1632-1664 | A finished cycle leaves the next one untouched |
| `RotateCycles.AllDone` | src/dbase/stl/algo.h:1615-1666 | After all cycles the array is the rotation |
| `RotateCycles.ShortRound` | src/dbase/stl/algo.h:1636-1648 | Bounds and positions of a round when the left part is shorter |
| `RotateCycles.LongRound` | src/dbase/stl/algo.h:1649-1661 | Bounds and positions of a round when it is longer |
| `RotateCycles.FollowShort` | src/dbase/stl/algo.h:1636-1648 | The inner loop stays in bounds and moves all but the last element of the cycle |
| `RotateCycles.FollowLong` | src/dbase/stl/algo.h:1649-1661 | The same for the other branch |
| `RotateCycles.OneCycle` | src/dbase/stl/algo.h:1632-1664 | One cycle puts its whole residue class in place |
| `RotateCycles.RotateRandom` | src/dbase/stl/algo.h:1615-1666 | The gcd-cycle rotation gives a[l..] + a[..l] and the new position for every n and 0 < l < n |
| `RotateCycles.SwapRanges` | src/dbase/stl/algo.h:1296-1306 | Exchanges two stretches and nothing else |
| `RotateCycles.RotateRange` | src/dbase/stl/algo.h:1668-1677 | All three algorithms: the same array, the same position, empty parts included |
| `StableOrder.StableUnique` | src/dbase/stl/algo.h:1905-1926 | There is only one sorted sequence with given items of each key in order |
| `StableOrder.AlikePermutation` | src/dbase/stl/algo.h:1905-1926 | Equal items of every key means equal multisets |
| `StableOrder.MergeSorted` | src/dbase/stl/algo.h:1905-1926 | The merge of sorted runs is sorted |
| `StableOrder.MergeStable` | src/dbase/stl/algo.h:1905-1926 | For every key: the items of the first run, then those of the second |
| `StableOrder.MergeUnique` | src/dbase/stl/algo.h:1905-1926 | A result is sorted and stable if and only if it is the merge |
| `StableOrder.MergeSplit` | src/dbase/stl/algo.h:1957-1990 | Cut at a bound, the merge is the merge of the fronts and then of the rests |
| `StableOrder.MergeBack` | src/dbase/stl/algo.h:1992-2021 | Which run supplies the last item |
| `Copies.Copy` | src/dbase/stl/algobase.h:84-94 | Copies a stretch, overlapping to the front allowed, nothing else written |
| `Copies.CopyBackward` | src/dbase/stl/algobase.h:123-143 | The same from the back |
| `BufferMerge.MergeForward` | src/dbase/stl/algo.h:1905-1926 | Merging a buffer with the end of the output range, though the output overlaps the second input, writes the stable merge and nothing else |
| `BufferMerge.MergeBackward` | src/dbase/stl/algo.h:1992-2021 | Merging from the back writes the stable merge and nothing else |
| `BufferMerge.BackwardLoop` | src/dbase/stl/algo.h:1992-2021 | The loop of the backward merge from any reachable state |
| `BufferMerge.BackingStep` | src/dbase/stl/algo.h:2004-2020 | One item taken from the back leaves a smaller merge |
| `InplaceMerge.LowerBound` | src/dbase/stl/algo.h:645-668 | Halving finds the first key not below the value |
| `InplaceMerge.UpperBound` | src/dbase/stl/algo.h:772-795 | Halving finds the first key above the value |
| `InplaceMerge.FindCut` | src/dbase/stl/algo.h:1969-1986 | The two cuts split both runs consistently and, beyond two items, properly |
| `InplaceMerge.RotateAdaptive` | src/dbase/stl/algo.h:2023-2046 | Exchanges the parts through the buffer or in place, for every buffer size |
| `InplaceMerge.Recombine` | src/dbase/stl/algo.h:1957-1990 | Cutting, rotating and merging both sides is the merge of the whole |
| `InplaceMerge.MergeWithoutBuffer` | src/dbase/stl/algo.h:1957-1990 | Ends, and gives the stable merge of the two runs |
| `InplaceMerge.MergeAdaptive` | src/dbase/stl/algo.h:2048-2091 | For every buffer, and an empty one exactly when the calls end with it: ends, and gives the stable merge of the two runs |
| `InplaceMerge.EmptyBufferRepeats` | src/dbase/stl/algo.h:2048-2091 | With an empty buffer the cut and the rotation of two items in the wrong order leave the array as it is and the same two items as second part |
| `EmptyBuffer.EndsIff` | src/dbase/stl/algo.h:2048-2091 | With an empty buffer the nested calls end if and only if halving the longer run each time never leaves two single items in the wrong order |
| `EmptyBuffer.OrderedApart` | src/dbase/stl/algo.h:2048-2091 | They end on runs that need no merging |
| `EmptyBuffer.ApartAndNot` | src/dbase/stl/algo.h:2048-2091 | Inputs of both kinds: [1, 5] with [3] ends, [2] with [1] does not |
| `InplaceMerge.Merged` | src/dbase/stl/algo.h:2093-2117 | inplace_merge for every buffer it may get, none included: sorted, stable, nothing outside changed |
| `ListNodes.UnlinkNodes` | src/dbase/stl/list.h:951-955 | Cuts a stretch out; both paths stay doubly linked |
| `ListNodes.LinkNodes` | src/dbase/stl/list.h:921-927 | Puts a stretch in before a node; the path stays doubly linked |
| `ListNodes.MoveBefore` | src/dbase/stl/list.h:1134-1149 | Both together move the stretch and write only the six links at its borders |
| `ListNodes.MovedRearranged` | src/dbase/stl/list.h:1134-1149 | Moving a stretch keeps exactly the same nodes and both ends |
| `ListSort.MergeRun` | src/dbase/stl/list.h:1109-1125 | Moving a whole run of smaller items is one step of the stable merge |
| `ListSort.MoveRun` | src/dbase/stl/list.h:1134-1149 | The run found is maximal, and it is moved in front |
| `ListSort.MergeRuns` | src/dbase/stl/list.h:1109-1156 | The relinking loop gives the stable merge of the two halves, no other node touched |
| `ListSort.SortTwo` | src/dbase/stl/list.h:1091-1102 | The two-node case |
| `ListSort.SortHalves` | src/dbase/stl/list.h:1103-1107 | Both halves sorted where they stand |
| `ListSort.Sort` | src/dbase/stl/list.h:1082-1157 | A stable sorted rearrangement of exactly the same nodes, next and prev inverse, nodes outside the range unchanged but for the border links; returns the first node |
| `ListSort.SortRing` | src/dbase/stl/list.h:535-538 | The whole circular list with its sentinel |
| `Int64.SafeNegate` | src/dbase/math/fraction.cpp:279-286 | None exactly when -x does not fit 64 bits |
| `Int64.SafeAdd` | src/dbase/math/fraction.cpp:288-301 | None exactly when the sum does not fit |
| `Int64.SafeSub` | src/dbase/math/fraction.cpp:303-310 | The difference; none when it does not fit, and also whenever the subtrahend is -2^63 |
| `Int64.SafeMul` | src/dbase/math/fraction.cpp:312-375 | None exactly when the product does not fit |
| `Int64.MulTest` | src/dbase/math/fraction.cpp:312-375 | Each of the four division tests decides overflow exactly |
| `Int64.AbsToUint64` | src/dbase/math/fraction.cpp:270-277 | The absolute value, -2^63 included |
| `LowestTerms.LowestRepresents` | src/dbase/math/fraction.cpp:239-268 | Dividing by the gcd gives a coprime pair of the same value with positive denominator |
| `LowestTerms.RepresentsUnique` | src/dbase/math/fraction.cpp:180-183 | Lowest terms are unique |
| `LowestTerms.LowestUnique` | src/dbase/math/fraction.cpp:239-268 | A pair is in lowest terms for a value if and only if it is the computed one |
| `LowestTerms.CoprimeProducts` | src/dbase/math/fraction.cpp:96-122 | Products of crosswise coprime numbers are coprime |
| `Fractions.HugeGcd` | src/dbase/math/fraction.cpp:239-268 | The gcd fits 64 bits, and its cast succeeds, except for -2^63 over -2^63 |
| `Fractions.CrossLowest` | src/dbase/math/fraction.cpp:96-122 | A cross-cancelled product is already in lowest terms |
| `Fractions.Product` | src/dbase/math/fraction.cpp:96-122 | The cross-cancelled factors fit, and their product is the reduced product |
| `Fractions.Fraction.Make` | src/dbase/math/fraction.cpp:20-23 | Succeeds exactly when normalization does, with the lowest terms; else the right error |
| `Fractions.Fraction.Normalize` | src/dbase/math/fraction.cpp:239-268 | Throws exactly for a zero denominator, lowest terms that do not fit, and -2^63 over itself; else lowest terms, positive denominator |
| `Fractions.Fraction.Add` | src/dbase/math/fraction.cpp:62-77 | Exact sum in lowest terms; succeeds if and only if some common multiple m of the denominators fits 64 bits together with n1 * (m / d1), n2 * (m / d2) and their sum; unchanged if it throws |
| `Fractions.Fraction.Subtract` | src/dbase/math/fraction.cpp:79-94 | Exact difference in lowest terms; succeeds if and only if some common multiple m fits with n1 * (m / d1), n2 * (m / d2) other than -2^63, and their difference; unchanged if it throws |
| `Fractions.LeastServes` | src/dbase/math/fraction.cpp:62-94 | The least common denominator serves if any common denominator does: what is computed with the quotients by the gcd fits exactly then |
| `Fractions.Fraction.Multiply` | src/dbase/math/fraction.cpp:96-122 | Throws exactly when the reduced product does not fit; else it is that product |
| `Fractions.Fraction.Divide` | src/dbase/math/fraction.cpp:124-154 | Division by zero fails and changes nothing; else the exact condition for throwing, and the exact quotient |
| `Fractions.RefusedThoughFitting` | src/dbase/math/fraction.cpp:62-154 | Concrete inputs for each refusal stricter than the result: -2^63 over itself, a sum, a difference and two quotients that fit and still overflow |
| `FractionOrder.WholePartsDecide` | src/dbase/math/fraction.cpp:403-449 | Different whole parts decide the comparison |
| `FractionOrder.RemaindersDecide` | src/dbase/math/fraction.cpp:403-449 | Equal whole parts: the reciprocals of the remainders decide, reversed |
| `FractionOrder.CompareUnsigned` | src/dbase/math/fraction.cpp:403-449 | The continued-fraction loop ends with the sign of a*d - c*b over unbounded integers |
| `FractionOrder.Compare` | src/dbase/math/fraction.cpp:185-224 | The sign of the exact difference for all signs, -2^63 included |
| `FractionOrder.TotalOrder` | src/dbase/math/fraction.cpp:180-224 | Antisymmetric, and equal if and only if == holds |
| `FractionOrder.Transitive` | src/dbase/math/fraction.cpp:185-224 | Transitive, strictly if one side is strict |
| `LexOrder.BackAgain` | src/dbase/stl/algo.h:1795-1873 | The predecessor of the successor is the input |
| `LexOrder.BackPossible` | src/dbase/stl/algo.h:1795-1873 | After a successful step the opposite step is possible |
| `LexOrder.OppositeIsLast` | src/dbase/stl/algo.h:1812-1816 | Nothing comes after the fully descending arrangement |
| `LexOrder.OrderedIsFirst` | src/dbase/stl/algo.h:1812-1816 | Nothing comes before the ascending one |
| `Permutations.FindPartner` | src/dbase/stl/algo.h:1804-1807 | The last element beyond the pivot |
| `Permutations.StepIsNext` | src/dbase/stl/algo.h:1801-1811 | Swapping and reversing gives the next permutation |
| `Permutations.NothingBetween` | src/dbase/stl/algo.h:1801-1811 | Every later permutation is at least that one |
| `Permutations.NoneLeft` | src/dbase/stl/algo.h:1812-1816 | Without a pivot the input is the last, its reversal the first |
| `Permutations.Permute` | src/dbase/stl/algo.h:1795-1873 | Both functions: true gives the least permutation above (greatest below), none between; false means there was none, and the range is now the first (last); the same multiset, nothing outside changed |
| `Heaps.RootIsGreatest` | src/dbase/stl/heap_algo.h:82-88 | The root of a heap is its maximum |
| `Heaps.SiftStep` | src/dbase/stl/heap_algo.h:13-39 | One sift step moves the only defect down or repairs the heap |
| `Heaps.Sink` | src/dbase/stl/heap_algo.h:13-39 | The sifting loop ends in a heap of the same elements |
| `Heaps.AdjustHeap` | src/dbase/stl/heap_algo.h:13-39 | A heap from the hole on, with the value in place of what the hole held, the empty range included |
| `Heaps.MakeHeap` | src/dbase/stl/heap_algo.h:114-133 | A heap of the same elements |
| `Heaps.PopHeapAux` | src/dbase/stl/heap_algo.h:82-88 | The old root goes to the result place, the value into the heap |
| `Heaps.PopHeap` | src/dbase/stl/heap_algo.h:90-95 | The heap shrinks by its maximum, which joins the sorted end |
| `Heaps.PopStep` | src/dbase/stl/heap_algo.h:101-108 | Popping keeps: heap in front, ascending end, none before above any behind |
| `Heaps.SortHeap` | src/dbase/stl/heap_algo.h:101-108 | An ascending permutation of the heap |
| `PartialSort.SelectKeep` | src/dbase/stl/algo.h:2269-2275 | An element not below the root may stay |
| `PartialSort.SelectReplace` | src/dbase/stl/algo.h:2269-2275 | Exchanging a smaller element with the root keeps the n smallest so far in the heap |
| `PartialSort.Displace` | src/dbase/stl/algo.h:2269-2275 | That exchange on the array |
| `PartialSort.PartiallySort` | src/dbase/stl/algo.h:2264-2277 | A permutation whose front is ascending and not above anything behind it |
| `LruLists.SubLookup` | src/dbase/cache/lru_cache.h:131-142 | A hit in a sublist is the same hit in the list |
| `LruLists.NestedPut` | src/dbase/cache/lru_cache.h:216-255 | Putting keeps the smaller cache inside the larger, evictions included |
| `LruLists.NestedGet` | src/dbase/cache/lru_cache.h:106-118 | So does getting, hit or miss on either side |
| `LruLists.Inclusion` | src/dbase/cache/lru_cache.h:106-255 | On any trace with capacities c <= c' the smaller recency list is a sublist of the larger with equal values, and sizes stay in bounds |
| `LruLists.HitInLarger` | src/dbase/cache/lru_cache.h:106-142 | A hit in the smaller cache is a hit with the same value in the larger |
| `LruOrder.OrderedByLastUse` | src/dbase/cache/lru_cache.h:106-255 | After any trace the listed keys stand in the order of their last put or hitting get, latest first |
| `LruOrder.UnlistedIsOlder` | src/dbase/cache/lru_cache.h:241-255 | A key used and no longer listed was last used before every listed key, and the list is full |
| `LruOrder.ListedIffRecent` | src/dbase/cache/lru_cache.h:106-255 | A key is listed if and only if it has been used and fewer than capacity other keys have been used since |
| `LruOrder.EvictsLeastRecentlyUsed` | src/dbase/cache/lru_cache.h:241-255 | An eviction happens only when a new key meets a full list, and takes the key whose last use is the oldest |
| `LruOrder.HoldsLastPut` | src/dbase/cache/lru_cache.h:216-231 | What is listed under a key is the value its last put has stored |
| `LruOrder.LastUseIs` | src/dbase/cache/lru_cache.h:106-118 | The last use is the last operation of the trace that puts the key, or gets it while it is listed |
| `LruCache.LRUCache.Make` | src/dbase/cache/lru_cache.h:31-38 | Fails exactly for capacity 0; else an empty valid cache |
| `LruCache.LRUCache.Touch` | src/dbase/cache/lru_cache.h:233-239 | The splice moves the node to the front; the index still maps every key to its node |
| `LruCache.LRUCache.GetValue` | src/dbase/cache/lru_cache.h:106-118 | On a hit its value, and the list is that entry in front of the others in their old order; on a miss the key is not listed and nothing changes |
| `LruCache.LRUCache.Peek` | src/dbase/cache/lru_cache.h:131-142 | The value if present, nothing changed |
| `LruCache.LRUCache.Put` | src/dbase/cache/lru_cache.h:216-231 | Contents as specified; what was there is kept or reported evicted, in order, and size <= capacity |
| `LruCache.LRUCache.EvictIfNeeded` | src/dbase/cache/lru_cache.h:241-255 | Drops least recently used entries only, until the capacity holds |
| `LruCache.SplicedIndexed` | src/dbase/cache/lru_cache.h:233-239 | Splicing keeps the list and the index in agreement |
| `LruCache.DropIndexed` | src/dbase/cache/lru_cache.h:241-255 | So does dropping the last node with its key |
| `HashChains.PlacedGrouped` | src/dbase/stl/hashtable.h:1464-1491 | Placing a node behind the first equal key keeps equal keys together |
| `HashChains.TableWith` | src/dbase/stl/hashtable.h:1464-1491 | Insertion keeps every node in its home bucket, grouped, none twice |
| `HashChains.TableWithout` | src/dbase/stl/hashtable.h:964-999 | Removal keeps the same |
| `HashChains.BagWith` | src/dbase/stl/hashtable.h:938-961 | Insertion adds exactly one pair to the multiset |
| `HashChains.BagOfFlat` | src/dbase/stl/hashtable.h:201-213 | The walk over all buckets holds exactly the multiset |
| `HashChains.FlatAt` | src/dbase/stl/hashtable.h:201-213 | Where the i-th node of bucket b stands in the walk |
| `HashChains.FlatInverse` | src/dbase/stl/hashtable.h:201-213 | Every place of the walk is such a node |
| `HashTable.LinkIn` | src/dbase/stl/hashtable.h:1464-1491 | Pointer splicing inserts at exactly that place of the chain |
| `HashTable.Unlink` | src/dbase/stl/hashtable.h:964-999 | Pointer splicing removes exactly that node |
| `HashTable.CopyChain` | src/dbase/stl/hashtable.h:1521-1556 | Re-inserting one old chain adds exactly its pairs to the new table |
| `HashTable.CopyAll` | src/dbase/stl/hashtable.h:1521-1556 | All old chains: the same multiset in a valid new table |
| `HashTable.FirstFrom` | src/dbase/stl/hashtable.h:201-213 | The scan for the next non-empty bucket finds the next node of the walk |
| `HashTable.EndOfGroup` | src/dbase/stl/hashtable.h:1179-1204 | The first node behind a group of equal keys, in the chain or a later bucket |
| `HashTable.OnlyInBucket` | src/dbase/stl/hashtable.h:1163-1176 | All nodes with a key are in its home bucket |
| `HashTable.RangeInFlat` | src/dbase/stl/hashtable.h:1179-1204 | A group of a chain is all the occurrences of its key in the walk |
| `HashTable.RangeCount` | src/dbase/stl/hashtable.h:1163-1204 | The length of the range of a key in the walk is its number of occurrences |
| `HashTable.HashTable.constructor` | src/dbase/stl/hashtable.h:592-598 | An empty valid table |
| `HashTable.HashTable.InsertNode` | src/dbase/stl/hashtable.h:1464-1491 | Validity kept, exactly one pair and one node more: right behind the first node with an equal key in its chain, or in front of the chain if there is none |
| `HashTable.HashTable.ReplaceBucket` | src/dbase/stl/hashtable.h:1521-1556 | For any new bucket count: valid, the same multiset and size, all nodes in their new home buckets |
| `HashTable.HashTable.Erase` | src/dbase/stl/hashtable.h:964-999 | Removes exactly that pair; a past-the-end iterator changes nothing |
| `HashTable.HashTable.EraseNode` | src/dbase/stl/hashtable.h:964-999 | The removal of a node in its chain |
| `HashTable.HashTable.Next` | src/dbase/stl/hashtable.h:201-213 | ++ goes to the next place of the walk, so every node is visited once |
| `HashTable.HashTable.Count` | src/dbase/stl/hashtable.h:1163-1176 | The number of occurrences of the key in the whole table |
| `HashTable.HashTable.EqualRange` | src/dbase/stl/hashtable.h:1179-1204 | Exactly the occurrences of the key, contiguous in the walk; past the end exactly when there is none |
| `HashTable.HashTable.WalkRange` | src/dbase/stl/hashtable.h:1179-1204 | Going by ++ from the first iterator of equal_range_multi to the second ends after count steps, and visits every node with the key exactly once |
| `DequeStore.IdxUnique` | src/dbase/stl/deque.h:122-126 | A cell has one iterator, and indexes order iterators |
| `DequeStore.Steps` | src/dbase/stl/deque.h:128-154 | ++ and -- move by one cell across buffer borders |
| `DequeStore.MinusIdx` | src/dbase/stl/deque.h:122-126 | Iterator difference is index difference |
| `DequeStore.PlusIdx` | src/dbase/stl/deque.h:162-178 | += n moves by n cells and lands inside a buffer, negative n (floor division) included |
| `DequeStore.PlusInverse` | src/dbase/stl/deque.h:122-178 | += n and += -n are inverse, and - recovers n |
| `DequeStore.FlatUpdate` | src/dbase/stl/deque.h:119 | Writing a cell of a buffer writes one place of the flat view |
| `Deques.CoreContents` | src/dbase/stl/deque.h:1326-1375 | Moving the used buffers inside a larger map keeps the contents |
| `Deques.Deque.constructor` | src/dbase/stl/deque.h:246-247 | An empty valid deque with begin and end in an allocated buffer |
| `Deques.Deque.Get` | src/dbase/stl/deque.h:119 | Dereferencing reads the cell of that index |
| `Deques.Deque.Put` | src/dbase/stl/deque.h:119 | Writing changes that cell only |
| `Deques.Deque.GrowFront` | src/dbase/stl/deque.h:1300-1323 | New buffers in front, contents unchanged |
| `Deques.Deque.GrowBack` | src/dbase/stl/deque.h:1300-1323 | New buffers behind, contents unchanged |
| `Deques.Deque.ReallocateFront` | src/dbase/stl/deque.h:1326-1349 | A larger map with room in front, contents and offsets unchanged |
| `Deques.Deque.ReallocateBack` | src/dbase/stl/deque.h:1352-1375 | A larger map with room behind, contents and offsets unchanged |
| `Deques.Deque.RequireCapacity` | src/dbase/stl/deque.h:1300-1323 | Contents unchanged, and n cells free at the asked side |
| `Deques.Deque.PushBack` | src/dbase/stl/deque.h:638-652 | Contents + [v] |
| `Deques.Deque.PushFront` | src/dbase/stl/deque.h:613-635 | [v] + contents |
| `Deques.Deque.PopFront` | src/dbase/stl/deque.h:655-670 | All but the first; freed buffers are behind no live cell |
| `Deques.Deque.PopBack` | src/dbase/stl/deque.h:673-688 | All but the last |
| `Deques.Deque.CopyCells` | src/dbase/stl/deque.h:1095-1097 | Overlapping copy over segmented cells |
| `Deques.Deque.CopyCellsBackward` | src/dbase/stl/deque.h:1129-1131 | The same from the back |
| `Deques.Deque.FillCells` | src/dbase/stl/deque.h:1098-1105 | Fills a stretch of segmented cells only |
| `Deques.FilledFrontLong` | src/dbase/stl/deque.h:1092-1099 | Opening the gap at the front, n not above the elements before it |
| `Deques.FilledFrontShort` | src/dbase/stl/deque.h:1100-1106 | The same with n above them |
| `Deques.FilledBackLong` | src/dbase/stl/deque.h:1125-1132 | Opening the gap at the back, n below the elements behind it |
| `Deques.FilledBackShort` | src/dbase/stl/deque.h:1133-1139 | The same otherwise |
| `Deques.Deque.InsertInside` | src/dbase/stl/deque.h:1041-1073 | Inserts one value inside, shifting the shorter side; the iterator returned points at it |
| `Deques.Deque.Insert` | src/dbase/stl/deque.h:691-711 | Inserts at any position, both ends included |
| `Deques.Deque.FillInsert` | src/dbase/stl/deque.h:1076-1148 | Inserts n copies inside, by all four strategies |
| `Deques.FilledOutside` | src/dbase/stl/deque.h:739-752 | Filling the gap made before or behind all elements |
| `Deques.Deque.InsertCopies` | src/dbase/stl/deque.h:735-757 | Inserts n copies at any position, both ends included |

## Left out

- Logging, sinks, files, processes, applications, random numbers, wall-clock formatting, and third-party headers: input and output, or code that is not in the repository.
- Allocation failure, exceptions thrown by element constructors and the rollback after them, freeing, moves, template and iterator-category dispatch on types: elements are plain values and memory is unbounded.
- User-supplied comparators: the overloads repeat the code that uses `<`.
- `sort` above 128 elements and `nth_element`: both pass a reference into the range they overwrite, so the result need not be a permutation.
- Further tree operations (copy, clear, swap, erasing ranges or keys, upper_bound): they repeat the modelled ones or rebuild the tree.
- TimerWheel.TimerMgr.RegisterTimer: works on the identity of timers and on slot lists held as sequences (SlotTable ties them to the pointers of SlotList); a null timer and its return code are not modelled. The clock lead is a parameter.
- TimerRuns.RegisteredTimerRunsOnTime: assumes that the clock is not ahead at the moments when this timer is cascaded, since otherwise it may be late or early (FiresWhenDue and CascadeDelay cover every lead).
- TimerWheel.LinkedWith: is about lists of identities; SlotTable.NamesWith and PushIn tie it to the pointers.
- TimerWheel.LinkedWithout: likewise, with SlotTable.NamesWithout and RemoveIn.
- Re-initialising a TimerMgr with timers linked, and registering from a destructor.
- TimerQueue, ThreadPool and Thread: real clocks and joins; the pool is an environment that accepts or refuses drains and starts each accepted one once, on threads of its own; other jobs of the pool that submit count as clients, so a pool whose every thread waits in a submit is outside the model.
- SerialExecutor.NothingLeftBehind: says nothing about tasks left after `stop` or after a refused drain, where the code leaves them queued by design.
- Memory orders weaker than sequential consistency in the executor's flags.
- BlockingQueue.SettlesDown: leaves time-outs and spurious wakeups aside, as steps from outside.
- Fractions.Fraction.Multiply: does not state the object after it throws, because the code may have overwritten the numerator already.
- Fractions.Fraction.Divide: does not state the object after an overflow, for the same reason.
- Fraction's conversion to double, printing and parsing, and the binary operators that copy and then call the compound ones.
- HashTable.HashTable.ReplaceBucket: is proved for any bucket count; when to rehash is a decision over floating-point load factors and is not modelled, nor is freeing the old nodes.
- Unique-key insertion, range erasure, the returned count of `erase_multi` and the range constructor of the hashtable.
- The deque's other constructors, range insertion, erase, copying, assign, clear and shrink_to_fit.
- `remove`, `popLru`, `popMru` and `clear` of the LRUCache, its mutex, and keys whose hash or equality call back into the cache.
- `map::at`, comparator `binary_search`, in-place `basic_string::insert` and `alloc.h`: they do not do what their names say, or are marked abandoned.
