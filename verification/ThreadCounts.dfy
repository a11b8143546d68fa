// Sums over the threads of a step system, used to count tokens, waiters and work still to do.

module ThreadCounts {
  function Sum<T>(threads: seq<T>, weight: T -> nat): nat
  {
    if threads == [] then 0 else weight(threads[0]) + Sum(threads[1..], weight)
  }

  lemma {:induction false} SumUpdate<T>(threads: seq<T>, t: nat, v: T, weight: T -> nat)
    requires t < |threads|
    ensures Sum(threads[t := v], weight) + weight(threads[t]) == Sum(threads, weight) + weight(v)
  {
    if t == 0 {
      assert threads[0 := v][1..] == threads[1..];
    } else {
      assert threads[t := v][1..] == threads[1..][t - 1 := v];
      SumUpdate(threads[1..], t - 1, v, weight);
    }
  }

  lemma {:induction false} SumCovers<T>(threads: seq<T>, t: nat, weight: T -> nat)
    requires t < |threads|
    ensures Sum(threads, weight) >= weight(threads[t])
  {
    if t > 0 {
      SumCovers(threads[1..], t - 1, weight);
    }
  }

  lemma {:induction false} SumCoversTwo<T>(threads: seq<T>, t: nat, u: nat, weight: T -> nat)
    requires t < u < |threads|
    ensures Sum(threads, weight) >= weight(threads[t]) + weight(threads[u])
  {
    if t == 0 {
      SumCovers(threads[1..], u - 1, weight);
    } else {
      SumCoversTwo(threads[1..], t - 1, u - 1, weight);
    }
  }

  lemma {:induction false} SumZero<T>(threads: seq<T>, weight: T -> nat)
    requires forall t :: 0 <= t < |threads| ==> weight(threads[t]) == 0
    ensures Sum(threads, weight) == 0
  {
    if threads != [] {
      assert forall t :: 0 <= t < |threads[1..]| ==> threads[1..][t] == threads[t + 1];
      SumZero(threads[1..], weight);
    }
  }

  /** A positive sum names a thread that contributes to it. */
  lemma {:induction false} SumWitness<T>(threads: seq<T>, weight: T -> nat) returns (t: nat)
    requires Sum(threads, weight) > 0
    ensures t < |threads| && weight(threads[t]) > 0
  {
    if weight(threads[0]) > 0 {
      t := 0;
    } else {
      t := SumWitness(threads[1..], weight);
      t := t + 1;
    }
  }
}
