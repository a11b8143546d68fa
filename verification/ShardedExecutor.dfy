// dbase::thread::ShardedExecutor: tasks are routed by key onto serial executors that share one pool.

module ShardedExecutor {
  import opened SerialExecutor

  /** shardIndexFor: the hash of the key modulo the number of shards. */
  function ShardFor(hash: nat -> nat, shardCount: nat, key: nat): (k: nat)
    requires shardCount > 0
    ensures k < shardCount
  {
    hash(key) % shardCount
  }

  /** Every hash is routed, and to the shard that is left when full rounds over all shards are taken off. */
  lemma RoutedByHash(hash: nat -> nat, shardCount: nat, key: nat) returns (rounds: nat)
    requires shardCount > 0
    ensures var k := ShardFor(hash, shardCount, key); k < shardCount && hash(key) == rounds * shardCount + k
  {
    rounds := hash(key) / shardCount;
  }

  /** `log` lists all submissions in the order of their pushes, over all shards. */
  datatype Shards = Shards(shard: seq<State>, log: seq<Task>)

  /** The tasks of `log` that go to shard `k`. */
  function Routed(hash: nat -> nat, shardCount: nat, log: seq<Task>, k: nat): seq<Task>
    requires shardCount > 0
  {
    if log == [] then []
    else
      var last, before := log[|log| - 1], Routed(hash, shardCount, log[..|log| - 1], k);
      if ShardFor(hash, shardCount, last.key) == k then before + [last] else before
  }

  ghost predicate InitAll(s: Shards)
  {
    |s.shard| > 0 && s.log == [] && forall k :: 0 <= k < |s.shard| ==> Init(s.shard[k])
  }

  /** Shard `k` makes a step; a task pushed by it must have been routed there. */
  ghost predicate StepOf(hash: nat -> nat, s: Shards, k: nat, s': Shards)
  {
    && k < |s.shard| == |s'.shard|
    && s'.shard == s.shard[k := s'.shard[k]]
    && Next(s.shard[k], s'.shard[k])
    && if s'.shard[k].pushed == s.shard[k].pushed then s'.log == s.log
       else exists task :: Submitted(hash, s, k, task, s')
  }

  ghost predicate Submitted(hash: nat -> nat, s: Shards, k: nat, task: Task, s': Shards)
    requires k < |s.shard| == |s'.shard|
  {
    && s'.shard[k].pushed == s.shard[k].pushed + [task]
    && s'.log == s.log + [task]
    && ShardFor(hash, |s.shard|, task.key) == k
  }

  ghost predicate RunAll(hash: nat -> nat, states: seq<Shards>)
  {
    && states != [] && InitAll(states[0])
    && forall i :: 0 <= i < |states| - 1 ==> NextAll(hash, states[i], states[i + 1])
  }

  ghost predicate NextAll(hash: nat -> nat, s: Shards, s': Shards)
  {
    exists k :: StepOf(hash, s, k, s')
  }

  ghost predicate InvAll(hash: nat -> nat, s: Shards)
  {
    && |s.shard| > 0
    && forall k :: 0 <= k < |s.shard| ==> Inv(s.shard[k]) && s.shard[k].pushed == Routed(hash, |s.shard|, s.log, k)
  }

  lemma InitInvAll(hash: nat -> nat, s: Shards)
    requires InitAll(s)
    ensures InvAll(hash, s)
  {
    hide Inv;
    forall k | 0 <= k < |s.shard|
      ensures Inv(s.shard[k])
    {
      InitInv(s.shard[k]);
    }
  }

  lemma StepInvAll(hash: nat -> nat, s: Shards, k: nat, s': Shards)
    requires InvAll(hash, s) && StepOf(hash, s, k, s')
    ensures InvAll(hash, s')
  {
    hide Inv, Next;
    NextInv(s.shard[k], s'.shard[k]);
    if s'.shard[k].pushed != s.shard[k].pushed {
      var task :| Submitted(hash, s, k, task, s');
      assert s'.log[..|s'.log| - 1] == s.log;
      assert s.shard[k].pushed != s.shard[k].pushed + [task];
    }
    forall j | 0 <= j < |s'.shard|
      ensures Inv(s'.shard[j]) && s'.shard[j].pushed == Routed(hash, |s'.shard|, s'.log, j)
    {
      assert j != k ==> s'.shard[j] == s.shard[j];
    }
  }

  lemma {:induction false} RunInvAll(hash: nat -> nat, states: seq<Shards>, i: nat)
    requires RunAll(hash, states) && i < |states|
    ensures InvAll(hash, states[i])
  {
    hide Inv, StepOf, Init;
    if i == 0 {
      InitInvAll(hash, states[0]);
    } else {
      RunInvAll(hash, states, i - 1);
      assert NextAll(hash, states[i - 1], states[i - 1 + 1]);
      var k :| StepOf(hash, states[i - 1], k, states[i]);
      StepInvAll(hash, states[i - 1], k, states[i]);
    }
  }

  /** Where the i-th submission stands in the queue order of its own shard. */
  function Rank(hash: nat -> nat, shardCount: nat, log: seq<Task>, i: nat): nat
    requires shardCount > 0 && i < |log|
  {
    |Routed(hash, shardCount, log[..i], ShardFor(hash, shardCount, log[i].key))|
  }

  lemma {:induction false} RoutedPrefix(hash: nat -> nat, shardCount: nat, log: seq<Task>, k: nat, i: nat)
    requires shardCount > 0 && i <= |log|
    ensures Routed(hash, shardCount, log[..i], k) <= Routed(hash, shardCount, log, k)
    decreases |log|
  {
    if i < |log| {
      var shorter := log[..|log| - 1];
      RoutedPrefix(hash, shardCount, shorter, k, i);
      assert shorter[..i] == log[..i];
    } else {
      assert log[..i] == log;
    }
  }

  lemma RankFindsTask(hash: nat -> nat, shardCount: nat, log: seq<Task>, i: nat)
    requires shardCount > 0 && i < |log|
    ensures var k := ShardFor(hash, shardCount, log[i].key);
      var r := Rank(hash, shardCount, log, i);
      r < |Routed(hash, shardCount, log, k)| && Routed(hash, shardCount, log, k)[r] == log[i]
  {
    var k := ShardFor(hash, shardCount, log[i].key);
    RoutedPrefix(hash, shardCount, log, k, i + 1);
    assert log[..i + 1][..i] == log[..i];
  }

  /** Of two tasks with equal keys the one submitted first has ended before the other one starts,
      in every interleaving of all threads and shards. */
  lemma EqualKeysRunInOrder(hash: nat -> nat, states: seq<Shards>, m: nat, i: nat, j: nat)
    requires RunAll(hash, states) && m < |states|
    requires i < j < |states[m].log| && states[m].log[i].key == states[m].log[j].key
    ensures var s := states[m];
      && |s.shard| > 0
      && var k := ShardFor(hash, |s.shard|, s.log[j].key);
      var ri, rj := Rank(hash, |s.shard|, s.log, i), Rank(hash, |s.shard|, s.log, j);
      && ri < rj < |s.shard[k].pushed|
      && s.shard[k].pushed[ri] == s.log[i] && s.shard[k].pushed[rj] == s.log[j]
      && (rj < |s.shard[k].begun| ==>
                s.shard[k].begun[rj] == s.log[j] && ri < |s.shard[k].ended| && s.shard[k].ended[ri] == s.log[i])
  {
    RunInvAll(hash, states, m);
    var s := states[m];
    var n, k := |s.shard|, ShardFor(hash, |s.shard|, s.log[j].key);
    RankFindsTask(hash, n, s.log, i);
    RankFindsTask(hash, n, s.log, j);
    RankFindsTask(hash, n, s.log[..j], i);
    assert s.log[..j][..i] == s.log[..i];
    var c := s.shard[k];
    if c.begun != c.ended {
      var t :| OnlyBusy(c, t);
    }
  }
}
