# ThreadPool and is_prime, modelled in Dafny

The repository is one C++ file, `Cpp_Assignment07.cpp`. It holds a fixed-size
`ThreadPool` and a prime-counting benchmark that uses it. The pool has a FIFO
`tasks` of pending work and a `stopFlag`. Both are guarded by `queueMutex`:

- `enqueue` throws `runtime_error` on a stopped pool, else appends a task;
- each worker's `workerThread` loop waits until it is stopped or has work,
  returns when it is stopped with no work, else pops the front task and runs it;
- the destructor sets `stopFlag`, wakes the workers and joins them.

The benchmark function `is_prime` is trial division. `main` counts the primes
in [100000000, 200000000) twice: once in a single thread, and once through
the pool's futures.

Files:

- `thread_pool.dfy`, module `Pool`. First, each critical section as a function
  on a `PoolState` value (`EnqueueStep`, `TakeStep`, `StopStep`), with `Run`
  executing any sequence of them. A sequence of critical sections is any
  interleaving of producers and workers. On those sequences the lemmas prove
  conservation, FIFO hand-off and shutdown monotonicity. They also prove graceful
  drain: a worker terminates only once the pool is stopped and every accepted
  task has been handed out.
  Second, class `ThreadPool`: the fields `tasks` and `stopFlag` plus a ghost log
  (`enqueued`, `taken`). Its methods are tied to the step functions, and its
  `Valid()` invariant is conservation (`taken + tasks == enqueued`).
- `primes.dfy`, module `Primes`: `IsPrime` keeps the source's loop. It is proved
  to equal the literal trial-division predicate and also `PrimeOrOne`, which is
  primality except that 1 counts as prime.
- `benchmark.dfy`, module `Benchmark`: the two counting loops of `main`. Both
  are proved equal to `PrimeCount` over the range.

Modelling choices:

- A task is an opaque `TaskId`, a `nat`. Running a task is `work(id)`, a
  function parameter that gives the task's result value. The future of the
  k-th executed task is `results[k]`.
- Waiting on `condition` is the `Blocked` outcome. In that case the state is
  unchanged. The single-worker `WorkerThread` loop returns `Blocked` where the
  real thread would sleep.
- `sqrt(static_cast<double>(n))` becomes the exact integer square root `Isqrt`.
  This agrees with the truncated double result for n < 2^52, which covers the
  benchmark range.
- `std::size_t` is `nat`. On the benchmark range no value overflows: the loop
  variable stays at most `Isqrt(n) + 2`.
- `is_prime(1)` is true. The model states this directly (`PrimeOrOne`). The
  benchmark range never contains 1.
- The constructor accepts `numThreads == 0`; `main` always uses four workers.
  The model follows the code: such a pool never runs a task, and its destructor
  returns with the tasks still queued (`Destroy`).

## Model

| member | source | states |
|---|---|---|
| `Pool.EnqueueStep` | Cpp_Assignment07.cpp:68-77 | fails exactly when `stopFlag` is set, and then leaves the state unchanged; otherwise the queue grows by one, keeps every earlier task in place and in order, and has `t` at the tail; the flag never changes |
| `Pool.TakeStep` | Cpp_Assignment07.cpp:91-104 | Blocked iff not stopped and empty; Terminate iff stopped and empty; a task iff the queue is non-empty (never pops an empty queue), and then it is the front and the rest stays queued; no other state change |
| `Pool.StopStep` | Cpp_Assignment07.cpp:50-53 | sets the flag and leaves the queue as it is |
| `Pool.StopIdempotent` | Cpp_Assignment07.cpp:50-53 | stopping a stopped pool changes nothing |
| `Pool.Conservation` | Cpp_Assignment07.cpp:74-76 | over any interleaving of critical sections, the handed-out ids followed by the final queue equal the initial queue followed by the accepted ids |
| `Pool.HandedIsPrefixOfAccepted` | Cpp_Assignment07.cpp:103-104 | from a fresh pool, the ids handed to workers are a prefix of the accepted ids (FIFO), and as multisets handed plus queued equals accepted (none lost, none handed twice) |
| `Pool.StoppedRejectsAll` | Cpp_Assignment07.cpp:68-72 | from a stopped state the flag stays set, no enqueue is accepted, and each enqueue reports `PoolStopped` |
| `Pool.ShutdownSetsFlag` | Cpp_Assignment07.cpp:50-53 | any sequence containing the destructor's critical section ends stopped |
| `Pool.SubmitAfterShutdownFails` | Cpp_Assignment07.cpp:68-72 | after the destructor's critical section, no later enqueue adds to the accepted ids |
| `Pool.Drain` | Cpp_Assignment07.cpp:94-104 | on a queue of n tasks, n takes hand out the tasks in order and empty it; the next take is Terminate if stopped and Blocked if not, so queued work is drained before termination |
| `Pool.TerminateOnlyWhenDrained` | Cpp_Assignment07.cpp:94-104 | in any interleaving, a take that returns Terminate finds the pool stopped and its queue empty, and by then every initially queued or accepted task has been handed out, in order |
| `Pool.ThreadPool.constructor` | Cpp_Assignment07.cpp:38-47 | empty queue, clear flag, empty log, the given worker count |
| `Pool.ThreadPool.Enqueue` | Cpp_Assignment07.cpp:68-77 | matches `EnqueueStep`: on a stopped pool reports `PoolStopped` with queue and log unchanged; otherwise appends `t` to the queue and the log; keeps `Valid()` |
| `Pool.ThreadPool.WorkerTake` | Cpp_Assignment07.cpp:91-104 | matches `TakeStep`: Terminate iff stopped and empty; a task is the old front, and it is removed from the queue and appended to the taken log; keeps `Valid()` |
| `Pool.ThreadPool.WorkerThread` | Cpp_Assignment07.cpp:85-109 | runs the queued tasks exactly once each, in queue order; result k is the work of task k; the queue ends empty; exits with Terminate if stopped and Blocked if not |
| `Pool.ThreadPool.Stop` | Cpp_Assignment07.cpp:50-53 | matches `StopStep`: flag set, queue and log unchanged |
| `Pool.ThreadPool.Destroy` | Cpp_Assignment07.cpp:49-60 | sets the flag, then runs each of the `numThreads` workers until it exits; every worker exits with Terminate; with at least one worker all queued tasks run in order and the queue ends empty; with none, nothing runs |
| `Primes.Isqrt` | Cpp_Assignment07.cpp:124 | the bound `u` satisfies `u*u <= n < (u+1)*(u+1)` |
| `Primes.IsPrime` | Cpp_Assignment07.cpp:119-133 | the result is the trial-division predicate (odd or 2, no odd divisor in [3, Isqrt n]) and is `PrimeOrOne(n)`: true exactly for the primes and for 1 |
| `Primes.TrialDivisionIsPrimeOrOne` | Cpp_Assignment07.cpp:120-132 | trial division up to the square root decides primality for n >= 2, accepts 1 and rejects 0 |
| `Primes.NoSmallOddDivisorIsPrime` | Cpp_Assignment07.cpp:126-132 | an odd n >= 3 with no odd divisor in [3, Isqrt n] has no divisor in [2, n) |
| `Primes.IsPrimeEdgeCases` | Cpp_Assignment07.cpp:120-122 | 1 and 2 are reported prime, 0 is not, and no even number other than 2 is |
| `Benchmark.CountSingle` | Cpp_Assignment07.cpp:139-143 | the single-threaded count is `PrimeCount(lo, hi)` |
| `Benchmark.CountFutures` | Cpp_Assignment07.cpp:162-166 | the count of futures holding true is `CountTrue` of their values |
| `Benchmark.CountTrueOfVerdicts` | Cpp_Assignment07.cpp:158-166 | counting the per-number results of [lo, hi) in submission order gives `PrimeCount(lo, hi)` |
| `Benchmark.CountWithPool` | Cpp_Assignment07.cpp:154-166 | submitting one task per number to a fresh pool, reading every future and destroying the pool gives `PrimeCount(lo, hi)`, the same as the single-threaded count |
| `Benchmark.RunBenchmark` | Cpp_Assignment07.cpp:135-170 | over [100000000, 200000000) with four workers, the single-threaded and pooled counts are equal |

## Left out

- Threads, `std::mutex` and `std::condition_variable` are not modelled:
  spawning, `join`, `wait`, `notify_one` and `notify_all`. Each locked region is
  one atomic step, and a wait is the `Blocked` outcome. The trace lemmas cover
  every interleaving of those steps. The class methods run them in one thread.
- `std::bind`, `std::packaged_task`, `std::function` and `std::future` are not
  modelled. A task is an id, and its future's value is `work(id)`.
- Running a task is not modelled: `task()` calls foreign code outside the lock.
  Its result is the value given by the `work` parameter.
- Benchmark.CountWithPool: it runs the pool with one worker after all
  submissions, not four concurrent workers. Because results are per task, the
  count does not depend on the schedule. The general schedule is covered only
  by the `Pool` trace lemmas.
- Primes.Isqrt: it is the exact integer square root, not the rounded
  double-precision `sqrt`. The two agree for n < 2^52. Larger `std::size_t`
  values are not modelled.
- Timing (`std::chrono`), console output (`std::cout`) and the final `fgetc(stdin)`
  are I/O and are not modelled.
- Pool.ThreadPool.WorkerThread: it returns `Blocked` where the real thread would
  wait forever for a notify. It requires at least one worker because it is a
  worker's loop.
