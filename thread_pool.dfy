/**
 * The shared state of `ThreadPool`: a FIFO `tasks` of pending work and the
 * `stopFlag`. Every change to them happens inside one critical section under
 * `queueMutex`, so each critical section is one atomic transition here:
 *
 *   - enqueue:       fail when stopped, otherwise append at the tail;
 *   - worker take:   the `condition.wait` predicate, the exit check and the pop;
 *   - stop:          the destructor's `stopFlag = true`.
 *
 * A task is an opaque id. Waiting on the condition variable is the outcome
 * `Blocked`: the transition leaves the state alone and the worker would sleep
 * until another transition changes the state.
 *
 * The first half of the module gives the transitions as functions on a
 * `PoolState` value and proves what holds of every interleaving of them (any
 * number of producers and workers, each critical section atomic). The second
 * half is the object itself, class `ThreadPool`, whose methods are tied to those
 * functions and carry a ghost log of the ids enqueued and taken.
 */
module Pool {

  type TaskId = nat

  /** The fields `tasks` (front at index 0) and `stopFlag`. */
  datatype PoolState = PoolState(tasks: seq<TaskId>, stopFlag: bool)

  /** Result of `enqueue`: the task is queued, or the `runtime_error`
      "enqueue on stopped ThreadPool" is thrown. */
  datatype Submitted = Queued | PoolStopped

  /** Result of one critical section of `workerThread`. */
  datatype Taken =
    | Blocked            // `condition.wait` would sleep: not stopped and nothing queued
    | Terminate          // `return`: stopped and nothing queued
    | Task(id: TaskId)   // the front task, moved out and popped

  /** One critical section, by whichever thread runs it. */
  datatype Event = Submit(t: TaskId) | Take | Shutdown

  datatype Outcome = SubmitOutcome(t: TaskId, s: Submitted) | TakeOutcome(k: Taken) | ShutdownDone

  const Empty := PoolState([], false)

  /** The critical section of `enqueue`. */
  function EnqueueStep(s: PoolState, t: TaskId): (r: (PoolState, Submitted))
    ensures r.1 == PoolStopped <==> s.stopFlag
    ensures r.1 == PoolStopped ==> r.0 == s
    ensures r.1 == Queued ==>
      |r.0.tasks| == |s.tasks| + 1 && r.0.tasks[..|s.tasks|] == s.tasks && r.0.tasks[|s.tasks|] == t
    ensures r.0.stopFlag == s.stopFlag
  {
    if s.stopFlag then (s, PoolStopped)
    else (s.(tasks := s.tasks + [t]), Queued)
  }

  /** One critical section of `workerThread`: the wait predicate, the exit
      check, then front-and-pop. */
  function TakeStep(s: PoolState): (r: (PoolState, Taken))
    ensures r.1 == Blocked <==> !s.stopFlag && |s.tasks| == 0
    ensures r.1 == Terminate <==> s.stopFlag && |s.tasks| == 0
    ensures r.1.Task? <==> |s.tasks| > 0
    ensures r.1.Task? ==> r.1.id == s.tasks[0] && r.0.tasks == s.tasks[1..]
    ensures !r.1.Task? ==> r.0 == s
    ensures r.0.stopFlag == s.stopFlag
  {
    if !s.stopFlag && s.tasks == [] then (s, Blocked)
    else if s.stopFlag && s.tasks == [] then (s, Terminate)
    else (s.(tasks := s.tasks[1..]), Task(s.tasks[0]))
  }

  /** The critical section of `~ThreadPool`. */
  function StopStep(s: PoolState): (r: PoolState)
    ensures r.stopFlag && r.tasks == s.tasks
  {
    s.(stopFlag := true)
  }

  function Apply(s: PoolState, e: Event): (r: (PoolState, Outcome))
  {
    match e
    case Submit(t) => var (s', o) := EnqueueStep(s, t); (s', SubmitOutcome(t, o))
    case Take => var (s', k) := TakeStep(s); (s', TakeOutcome(k))
    case Shutdown => (StopStep(s), ShutdownDone)
  }

  /** Runs the critical sections `evs` one after another from `s`. */
  function Run(s: PoolState, evs: seq<Event>): (r: (PoolState, seq<Outcome>))
    ensures |r.1| == |evs|
    decreases |evs|
  {
    if evs == [] then (s, [])
    else
      var step := Apply(s, evs[0]);
      var rest := Run(step.0, evs[1..]);
      (rest.0, [step.1] + rest.1)
  }

  /** The id an outcome adds to the accepted log: the task of a successful `enqueue`. */
  function AcceptedBy(o: Outcome): (ids: seq<TaskId>)
  {
    if o.SubmitOutcome? && o.s == Queued then [o.t] else []
  }

  /** The id an outcome hands to a worker: the task of a successful take. */
  function HandedBy(o: Outcome): (ids: seq<TaskId>)
  {
    if o.TakeOutcome? && o.k.Task? then [o.k.id] else []
  }

  /** The ids whose `enqueue` succeeded, in order. */
  function Accepted(os: seq<Outcome>): (ids: seq<TaskId>)
  {
    if os == [] then [] else AcceptedBy(os[0]) + Accepted(os[1..])
  }

  /** The ids handed to workers, in order. */
  function Handed(os: seq<Outcome>): (ids: seq<TaskId>)
  {
    if os == [] then [] else HandedBy(os[0]) + Handed(os[1..])
  }

  lemma ConcatAssoc(a: seq<TaskId>, b: seq<TaskId>, c: seq<TaskId>)
    ensures (a + b) + c == a + (b + c)
  {
  }

  lemma LogsCons(o: Outcome, os: seq<Outcome>)
    ensures Accepted([o] + os) == AcceptedBy(o) + Accepted(os)
    ensures Handed([o] + os) == HandedBy(o) + Handed(os)
  {
    assert ([o] + os)[0] == o;
    assert ([o] + os)[1..] == os;
  }

  /** One critical section moves at most one id: the one it accepts to the tail
      of the queue, or the one it hands out from the front. */
  lemma StepConserves(s: PoolState, e: Event)
    ensures HandedBy(Apply(s, e).1) + Apply(s, e).0.tasks == s.tasks + AcceptedBy(Apply(s, e).1)
  {
    if e.Take? && s.tasks != [] {
      assert s.tasks == [s.tasks[0]] + s.tasks[1..];
    }
  }

  /** Conservation: what was queued at the start followed by every accepted id
      is exactly what was handed out followed by what is still queued. */
  lemma {:induction false} Conservation(s: PoolState, evs: seq<Event>)
    ensures Handed(Run(s, evs).1) + Run(s, evs).0.tasks == s.tasks + Accepted(Run(s, evs).1)
    decreases |evs|
  {
    if evs != [] {
      var step := Apply(s, evs[0]);
      var rest := Run(step.0, evs[1..]);
      var s1, o, s2, os := step.0, step.1, rest.0, rest.1;
      Conservation(s1, evs[1..]);
      StepConserves(s, evs[0]);
      LogsCons(o, os);
      assert Run(s, evs) == (s2, [o] + os);
      calc {
        Handed([o] + os) + s2.tasks;
        (HandedBy(o) + Handed(os)) + s2.tasks;
        { ConcatAssoc(HandedBy(o), Handed(os), s2.tasks); }
        HandedBy(o) + (Handed(os) + s2.tasks);
        HandedBy(o) + (s1.tasks + Accepted(os));
        { ConcatAssoc(HandedBy(o), s1.tasks, Accepted(os)); }
        (HandedBy(o) + s1.tasks) + Accepted(os);
        (s.tasks + AcceptedBy(o)) + Accepted(os);
        { ConcatAssoc(s.tasks, AcceptedBy(o), Accepted(os)); }
        s.tasks + (AcceptedBy(o) + Accepted(os));
        s.tasks + Accepted([o] + os);
      }
    }
  }

  /** FIFO and exclusive hand-off: from a fresh pool, the ids handed to workers
      are a prefix of the accepted ids, and every accepted id that was not handed
      out is still queued, in order. */
  lemma HandedIsPrefixOfAccepted(evs: seq<Event>)
    ensures Handed(Run(Empty, evs).1) <= Accepted(Run(Empty, evs).1)
    ensures Accepted(Run(Empty, evs).1) == Handed(Run(Empty, evs).1) + Run(Empty, evs).0.tasks
    ensures multiset(Handed(Run(Empty, evs).1)) + multiset(Run(Empty, evs).0.tasks)
         == multiset(Accepted(Run(Empty, evs).1))
  {
    Conservation(Empty, evs);
    assert Empty.tasks + Accepted(Run(Empty, evs).1) == Accepted(Run(Empty, evs).1);
  }

  /** Once stopped, always stopped, and no `enqueue` is accepted: each one
      reports `PoolStopped`. */
  lemma {:induction false} StoppedRejectsAll(s: PoolState, evs: seq<Event>)
    requires s.stopFlag
    ensures Run(s, evs).0.stopFlag
    ensures Accepted(Run(s, evs).1) == []
    ensures forall k :: 0 <= k < |evs| && evs[k].Submit? ==>
              Run(s, evs).1[k] == SubmitOutcome(evs[k].t, PoolStopped)
    decreases |evs|
  {
    if evs != [] {
      var (s1, o) := Apply(s, evs[0]);
      var (s2, os) := Run(s1, evs[1..]);
      StoppedRejectsAll(s1, evs[1..]);
      assert Run(s, evs) == (s2, [o] + os);
      assert ([o] + os)[1..] == os;
      forall k | 0 <= k < |evs| && evs[k].Submit?
        ensures Run(s, evs).1[k] == SubmitOutcome(evs[k].t, PoolStopped)
      {
        if k > 0 {
          assert evs[1..][k - 1] == evs[k];
        }
      }
    }
  }

  /** Running two batches of critical sections is running their concatenation. */
  lemma {:induction false} RunAppend(s: PoolState, a: seq<Event>, b: seq<Event>)
    ensures Run(s, a + b).0 == Run(Run(s, a).0, b).0
    ensures Run(s, a + b).1 == Run(s, a).1 + Run(Run(s, a).0, b).1
    decreases |a|
  {
    if a == [] {
      assert a + b == b;
    } else {
      var (s1, o) := Apply(s, a[0]);
      RunAppend(s1, a[1..], b);
      assert (a + b)[0] == a[0];
      assert (a + b)[1..] == a[1..] + b;
    }
  }

  /** After a `Shutdown` the flag is set whatever else runs. */
  lemma {:induction false} ShutdownSetsFlag(s: PoolState, evs: seq<Event>)
    requires Shutdown in evs
    ensures Run(s, evs).0.stopFlag
    decreases |evs|
  {
    var (s1, o) := Apply(s, evs[0]);
    if evs[0] == Shutdown {
      StoppedRejectsAll(s1, evs[1..]);
    } else {
      assert Shutdown in evs[1..];
      ShutdownSetsFlag(s1, evs[1..]);
    }
  }

  lemma {:induction false} AcceptedAppend(a: seq<Outcome>, b: seq<Outcome>)
    ensures Accepted(a + b) == Accepted(a) + Accepted(b)
    decreases |a|
  {
    if a == [] {
      assert a + b == b;
    } else {
      assert a + b == [a[0]] + (a[1..] + b);
      assert a == [a[0]] + a[1..];
      LogsCons(a[0], a[1..] + b);
      LogsCons(a[0], a[1..]);
      AcceptedAppend(a[1..], b);
    }
  }

  /** Every `enqueue` after the destructor's critical section fails: the tasks
      accepted over `a + b` are only those accepted over `a`. */
  lemma SubmitAfterShutdownFails(s: PoolState, a: seq<Event>, b: seq<Event>)
    requires Shutdown in a
    ensures Accepted(Run(s, a + b).1) == Accepted(Run(s, a).1)
  {
    RunAppend(s, a, b);
    ShutdownSetsFlag(s, a);
    StoppedRejectsAll(Run(s, a).0, b);
    AcceptedAppend(Run(s, a).1, Run(Run(s, a).0, b).1);
  }

  /** Stopping twice is stopping once. */
  lemma StopIdempotent(s: PoolState)
    ensures StopStep(StopStep(s)) == StopStep(s)
  {
  }

  function Takes(n: nat): (evs: seq<Event>)
    ensures |evs| == n && forall k :: 0 <= k < n ==> evs[k] == Take
  {
    seq(n, _ => Take)
  }

  /** Graceful drain: `|q|` worker takes hand out the queued tasks in order
      and empty the queue; one more take then terminates if the pool is stopped
      and blocks if it is not. */
  lemma {:induction false} Drain(q: seq<TaskId>, stopped: bool)
    ensures Run(PoolState(q, stopped), Takes(|q| + 1)).0 == PoolState([], stopped)
    ensures forall k :: 0 <= k < |q| ==>
              Run(PoolState(q, stopped), Takes(|q| + 1)).1[k] == TakeOutcome(Task(q[k]))
    ensures Run(PoolState(q, stopped), Takes(|q| + 1)).1[|q|]
         == TakeOutcome(if stopped then Terminate else Blocked)
    decreases |q|
  {
    var s := PoolState(q, stopped);
    var evs := Takes(|q| + 1);
    if q == [] {
      assert evs[1..] == [];
    } else {
      var s1 := PoolState(q[1..], stopped);
      Drain(q[1..], stopped);
      assert evs[1..] == Takes(|q[1..]| + 1);
      assert Apply(s, evs[0]) == (s1, TakeOutcome(Task(q[0])));
      var os := Run(s1, evs[1..]).1;
      assert Run(s, evs).1 == [TakeOutcome(Task(q[0]))] + os;
      forall k | 0 <= k < |q|
        ensures Run(s, evs).1[k] == TakeOutcome(Task(q[k]))
      {
        if k > 0 {
          assert q[1..][k - 1] == q[k];
        }
      }
    }
  }

  /** A worker terminates only on a drained, stopped pool: in any interleaving,
      when the critical section at position k returns Terminate, the pool was
      stopped with nothing queued, and every task queued at the start or
      accepted before k had already been handed to a worker, in order. */
  lemma TerminateOnlyWhenDrained(s: PoolState, evs: seq<Event>, k: nat)
    requires k < |evs| && Run(s, evs).1[k] == TakeOutcome(Terminate)
    ensures Run(s, evs[..k]).0.tasks == [] && Run(s, evs[..k]).0.stopFlag
    ensures Handed(Run(s, evs[..k]).1) == s.tasks + Accepted(Run(s, evs[..k]).1)
  {
    var a, b := evs[..k], evs[k..];
    assert evs == a + b;
    RunAppend(s, a, b);
    var mid := Run(s, a).0;
    assert |Run(s, a).1| == k;
    assert Run(s, evs).1[k] == Run(mid, b).1[0];
    assert Run(mid, b).1[0] == Apply(mid, b[0]).1;
    assert b[0] == Take;
    assert TakeStep(mid).1 == Terminate;
    Conservation(s, a);
    assert Handed(Run(s, a).1) + [] == Handed(Run(s, a).1);
  }

  /** The object `ThreadPool`: its two shared fields, a ghost log of every id
      accepted by `enqueue` and every id taken by a worker, and the worker count
      fixed at construction. */
  class ThreadPool {
    const numThreads: nat
    var tasks: seq<TaskId>
    var stopFlag: bool
    ghost var enqueued: seq<TaskId>
    ghost var taken: seq<TaskId>

    /** No task lost, none handed out twice, FIFO: taken ids followed by the
        queue are all accepted ids. */
    ghost predicate Valid()
      reads this
    {
      taken + tasks == enqueued
    }

    function Snapshot(): (s: PoolState)
      reads this
    {
      PoolState(tasks, stopFlag)
    }

    /** `ThreadPool(numThreads)`: an empty queue and a clear flag; spawning the
        workers is not part of the state. */
    constructor (numThreads: nat)
      ensures Valid() && this.numThreads == numThreads
      ensures tasks == [] && !stopFlag && enqueued == [] && taken == []
    {
      this.numThreads := numThreads;
      tasks := [];
      stopFlag := false;
      enqueued := [];
      taken := [];
    }

    /** The critical section of `enqueue(t)`. */
    method Enqueue(t: TaskId) returns (r: Submitted)
      requires Valid()
      modifies this
      ensures Valid()
      ensures (Snapshot(), r) == EnqueueStep(old(Snapshot()), t)
      ensures r == PoolStopped <==> old(stopFlag)
      ensures r == PoolStopped ==> tasks == old(tasks) && enqueued == old(enqueued)
      ensures r == Queued ==> tasks == old(tasks) + [t] && enqueued == old(enqueued) + [t]
      ensures stopFlag == old(stopFlag) && taken == old(taken)
    {
      if stopFlag {
        return PoolStopped;
      }
      tasks := tasks + [t];
      enqueued := enqueued + [t];
      assert taken + tasks == (taken + old(tasks)) + [t];
      return Queued;
    }

    /** One critical section of `workerThread`. */
    method WorkerTake() returns (r: Taken)
      requires Valid()
      modifies this
      ensures Valid()
      ensures (Snapshot(), r) == TakeStep(old(Snapshot()))
      ensures r == Terminate <==> stopFlag && old(tasks) == []
      ensures r.Task? ==> old(tasks) != [] && r.id == old(tasks)[0] && tasks == old(tasks)[1..]
      ensures r.Task? ==> taken == old(taken) + [r.id]
      ensures !r.Task? ==> tasks == old(tasks) && taken == old(taken)
      ensures stopFlag == old(stopFlag) && enqueued == old(enqueued)
    {
      if !stopFlag && tasks == [] {
        return Blocked;
      }
      if stopFlag && tasks == [] {
        return Terminate;
      }
      var t := tasks[0];
      tasks := tasks[1..];
      taken := taken + [t];
      assert old(tasks) == [t] + tasks;
      assert taken + tasks == old(taken) + old(tasks);
      return Task(t);
    }

    /** `workerThread`: take tasks one at a time and run each, until the take
        terminates or would block. Running task `id` produces `work(id)`, the
        value its future receives; `results[k]` is the value of `executed[k]`.
        It runs on one of the pool's workers, so there is at least one. */
    method WorkerThread<R>(work: TaskId -> R) returns (executed: seq<TaskId>, results: seq<R>, exit: Taken)
      requires Valid() && numThreads >= 1
      modifies this
      ensures Valid()
      ensures executed == old(tasks) && tasks == []
      ensures |results| == |executed| && forall k :: 0 <= k < |executed| ==> results[k] == work(executed[k])
      ensures exit == if stopFlag then Terminate else Blocked
      ensures stopFlag == old(stopFlag) && enqueued == old(enqueued) && taken == old(taken) + executed
    {
      executed, results := [], [];
      while true
        invariant Valid()
        invariant stopFlag == old(stopFlag) && enqueued == old(enqueued)
        invariant old(tasks) == executed + tasks
        invariant taken == old(taken) + executed
        invariant |results| == |executed| && forall k :: 0 <= k < |executed| ==> results[k] == work(executed[k])
        decreases |tasks|
      {
        var r := WorkerTake();
        if !r.Task? {
          exit := r;
          return;
        }
        executed, results := executed + [r.id], results + [work(r.id)];
      }
    }

    /** The critical section of `~ThreadPool`. */
    method Stop()
      requires Valid()
      modifies this
      ensures Valid()
      ensures Snapshot() == StopStep(old(Snapshot()))
      ensures stopFlag && tasks == old(tasks) && enqueued == old(enqueued) && taken == old(taken)
    {
      stopFlag := true;
    }

    /** `~ThreadPool`: set the flag, then join each of the `numThreads` workers,
        which drain the queue and exit. With no workers nothing is drained. */
    method Destroy<R>(work: TaskId -> R) returns (executed: seq<TaskId>, results: seq<R>, exits: seq<Taken>)
      requires Valid()
      modifies this
      ensures Valid() && stopFlag
      ensures executed == (if numThreads == 0 then [] else old(tasks))
      ensures tasks == (if numThreads == 0 then old(tasks) else [])
      ensures |results| == |executed| && forall k :: 0 <= k < |executed| ==> results[k] == work(executed[k])
      ensures |exits| == numThreads && forall k :: 0 <= k < numThreads ==> exits[k] == Terminate
      ensures enqueued == old(enqueued) && taken == old(taken) + executed
    {
      Stop();
      executed, results, exits := [], [], [];
      var i := 0;
      while i < numThreads
        invariant 0 <= i <= numThreads
        invariant Valid() && stopFlag && enqueued == old(enqueued)
        invariant executed == (if i == 0 then [] else old(tasks))
        invariant tasks == (if i == 0 then old(tasks) else [])
        invariant taken == old(taken) + executed
        invariant |results| == |executed| && forall k :: 0 <= k < |executed| ==> results[k] == work(executed[k])
        invariant |exits| == i && forall k :: 0 <= k < i ==> exits[k] == Terminate
      {
        var ran, values, exit := WorkerThread(work);
        executed, results, exits := executed + ran, results + values, exits + [exit];
        i := i + 1;
      }
    }
  }
}
