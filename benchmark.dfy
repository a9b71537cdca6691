/**
 * The counting in `main`: the single-threaded loop that calls `is_prime` on
 * every number of [PrimeStart, PrimeEnd), and the pooled version that enqueues
 * one task per number, keeps the futures in submission order and counts those
 * that hold true. Both counts equal `PrimeCount` over the range.
 *
 * The pool is driven by one worker here, run after all submissions; the futures
 * are the values `results` that the worker produces. Timing and output are not
 * modelled.
 */
module Benchmark {
  import opened Primes
  import opened Pool

  const PrimeStart: nat := 100 * 1000 * 1000
  const PrimeEnd: nat := 200 * 1000 * 1000
  const ThreadCount: nat := 4

  /** How many n in [lo, hi) `is_prime` reports as prime. */
  function PrimeCount(lo: nat, hi: nat): (count: nat)
    decreases hi
  {
    if hi <= lo then 0
    else PrimeCount(lo, hi - 1) + (if PrimeOrOne(hi - 1) then 1 else 0)
  }

  /** How many of the futures' values are true. */
  function CountTrue(values: seq<bool>): (count: nat)
  {
    if values == [] then 0
    else CountTrue(values[..|values| - 1]) + (if values[|values| - 1] then 1 else 0)
  }

  /** The values `is_prime` gives for lo, lo + 1, ..., hi - 1. */
  function Verdicts(lo: nat, hi: nat): (v: seq<bool>)
    ensures |v| == if hi <= lo then 0 else hi - lo
  {
    if hi <= lo then [] else seq(hi - lo, k requires 0 <= k < hi - lo => PrimeOrOne(lo + k))
  }

  /** Counting the futures of the range in order gives the range's prime count. */
  lemma {:induction false} CountTrueOfVerdicts(lo: nat, hi: nat)
    ensures CountTrue(Verdicts(lo, hi)) == PrimeCount(lo, hi)
    decreases hi
  {
    if hi > lo {
      CountTrueOfVerdicts(lo, hi - 1);
      var v := Verdicts(lo, hi);
      assert v[..|v| - 1] == Verdicts(lo, hi - 1);
      assert v[|v| - 1] == PrimeOrOne(hi - 1);
    } else {
      assert Verdicts(lo, hi) == [];
    }
  }

  /** The single-threaded loop: `if (is_prime(i)) ++primeCountSingle`. */
  method CountSingle(lo: nat, hi: nat) returns (count: nat)
    ensures count == PrimeCount(lo, hi)
  {
    count := 0;
    var i := lo;
    while i < hi
      invariant lo <= i <= if hi < lo then lo else hi
      invariant count == PrimeCount(lo, i)
    {
      var p := IsPrime(i);
      if p {
        count := count + 1;
      }
      i := i + 1;
    }
  }

  /** The loop over the futures: `if (future.get()) ++primeCountPool`. */
  method CountFutures(values: seq<bool>) returns (count: nat)
    ensures count == CountTrue(values)
  {
    count := 0;
    var k := 0;
    while k < |values|
      invariant 0 <= k <= |values|
      invariant count == CountTrue(values[..k])
    {
      assert values[..k + 1][..k] == values[..k];
      if values[k] {
        count := count + 1;
      }
      k := k + 1;
    }
    assert values[..|values|] == values;
  }

  /** The pooled count: one task of `is_prime(i)` per i in [lo, hi), all
      submitted to a fresh pool of `threadCount` workers, every future read in
      submission order, then the pool destroyed. Without a worker the first
      `future.get()` would wait forever, so there is at least one. */
  method CountWithPool(lo: nat, hi: nat, threadCount: nat) returns (count: nat)
    requires threadCount >= 1
    ensures count == PrimeCount(lo, hi)
  {
    var pool := new ThreadPool(threadCount);
    var i := lo;
    while i < hi
      invariant lo <= i <= if hi < lo then lo else hi
      invariant pool.Valid() && !pool.stopFlag
      invariant |pool.tasks| == i - lo && forall k :: 0 <= k < i - lo ==> pool.tasks[k] == lo + k
      invariant pool.enqueued == pool.tasks && pool.taken == []
    {
      var r := pool.Enqueue(i);
      assert r == Queued;
      i := i + 1;
    }
    var executed, futures, exit := pool.WorkerThread(PrimeOrOne);
    assert exit == Blocked;
    assert |futures| == |Verdicts(lo, hi)|;
    forall k | 0 <= k < |futures|
      ensures futures[k] == Verdicts(lo, hi)[k]
    {
      assert executed[k] == lo + k;
    }
    assert futures == Verdicts(lo, hi);
    count := CountFutures(futures);
    CountTrueOfVerdicts(lo, hi);
    var _, _, exits := pool.Destroy(PrimeOrOne);
    assert forall k :: 0 <= k < threadCount ==> exits[k] == Terminate;
  }

  /** `main`: both counts over the benchmark range, with a pool of four workers. */
  method RunBenchmark() returns (primeCountSingle: nat, primeCountPool: nat)
    ensures primeCountSingle == primeCountPool == PrimeCount(PrimeStart, PrimeEnd)
  {
    primeCountSingle := CountSingle(PrimeStart, PrimeEnd);
    primeCountPool := CountWithPool(PrimeStart, PrimeEnd, ThreadCount);
  }
}
