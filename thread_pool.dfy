/**
 * The job bookkeeping of the general thread pool in src/util/thread_pool.rs.
 *
 * The pool shares one `SharedState` between the caller and its worker
 * threads: three `usize` counters (jobs queued, jobs running, jobs that
 * panicked) that `&mut self` methods change one step at a time. The class
 * `SharedState` holds those fields; each of its methods is proved against
 * the transition function on `Counters` it names.
 *
 * Threads, the `mpsc` channel and the mutex are replaced by a transition
 * system (`Sys`, `Event`, `Next`): every statement of `send_job` and of the
 * worker loop that touches shared data is one event, and a schedule is any
 * sequence of enabled events. An explicit count of the jobs sitting in the
 * channel shows why `send_job` must count a job before sending it.
 */
module ThreadPools {
  /** The three fields of `SharedState`, as a value. */
  datatype Counters = Counters(queued: nat, running: nat, paniced: nat)

  /** `SharedState::new`: nothing queued, running or panicked. */
  function NewCounters(): (c: Counters)
    ensures c.queued == 0 && c.running == 0 && c.paniced == 0
    ensures IsFinished(c) && !HasPaniced(c)
  {
    Counters(0, 0, 0)
  }

  /** `job_starting`: one job moves from queued to running. Its debug assertion is the precondition. */
  function StartJob(c: Counters): (r: Counters)
    requires c.queued > 0
    ensures r.queued + 1 == c.queued && r.running == c.running + 1
    ensures r.paniced == c.paniced
  {
    c.(queued := c.queued - 1, running := c.running + 1)
  }

  /** `job_finished`: one job fewer running; nothing else changes. */
  function FinishJob(c: Counters): (r: Counters)
    requires c.running > 0
    ensures r.running + 1 == c.running
    ensures r.queued == c.queued && r.paniced == c.paniced
  {
    c.(running := c.running - 1)
  }

  /** `job_queued`: one job more queued; nothing else changes. */
  function QueueJob(c: Counters): (r: Counters)
    ensures r.queued == c.queued + 1
    ensures r.running == c.running && r.paniced == c.paniced
  {
    c.(queued := c.queued + 1)
  }

  /** `job_paniced`: one panic more; nothing else changes. */
  function CountPanic(c: Counters): (r: Counters)
    ensures r.paniced == c.paniced + 1
    ensures r.queued == c.queued && r.running == c.running
  {
    c.(paniced := c.paniced + 1)
  }

  /** `is_finished`: nothing running and nothing queued. */
  predicate IsFinished(c: Counters) {
    c.running == 0 && c.queued == 0
  }

  /** `has_paniced`: at least one job panicked. */
  predicate HasPaniced(c: Counters) {
    c.paniced != 0
  }

  /**
   * What one worker does with one job it received: `job_starting`, the job
   * under `catch_unwind`, `job_finished`, and `job_paniced` when the job
   * returned `Err` (`ok` is false).
   */
  function WorkerJob(c: Counters, ok: bool): (r: Counters)
    requires c.queued > 0
    ensures r.running == c.running
    ensures r.queued + 1 == c.queued
    ensures r.paniced == if ok then c.paniced else c.paniced + 1
  {
    var finished := FinishJob(StartJob(c));
    if ok then finished else CountPanic(finished)
  }

  /** The number of jobs among `outcomes` that panicked. */
  function Failures(outcomes: seq<bool>): nat
    decreases |outcomes|
  {
    if |outcomes| == 0 then 0
    else Failures(outcomes[..|outcomes| - 1]) + if outcomes[|outcomes| - 1] then 0 else 1
  }

  /**
   * One worker handling the jobs with the given outcomes, one after the
   * other: the running count is back where it was even when jobs panic,
   * every job has left the queue, and every failure was counted.
   */
  function WorkerJobs(c: Counters, outcomes: seq<bool>): (r: Counters)
    requires c.queued >= |outcomes|
    ensures r.running == c.running
    ensures r.queued + |outcomes| == c.queued
    ensures r.paniced == c.paniced + Failures(outcomes)
    decreases |outcomes|
  {
    if |outcomes| == 0 then c
    else WorkerJob(WorkerJobs(c, outcomes[..|outcomes| - 1]), outcomes[|outcomes| - 1])
  }

  /** `SharedState`: the counters, updated in place behind the pool's mutex. */
  class SharedState {
    var jobsQueued: nat
    var jobsRunning: nat
    var jobPaniced: nat

    function Snapshot(): Counters
      reads this
    {
      Counters(jobsQueued, jobsRunning, jobPaniced)
    }

    /** `SharedState::new`. */
    constructor ()
      ensures Snapshot() == NewCounters()
    {
      jobsRunning := 0;
      jobsQueued := 0;
      jobPaniced := 0;
    }

    method JobStarting()
      requires jobsQueued > 0
      modifies this
      ensures Snapshot() == StartJob(old(Snapshot()))
    {
      jobsQueued := jobsQueued - 1;
      jobsRunning := jobsRunning + 1;
    }

    method JobFinished()
      requires jobsRunning > 0
      modifies this
      ensures Snapshot() == FinishJob(old(Snapshot()))
    {
      jobsRunning := jobsRunning - 1;
    }

    method JobQueued()
      modifies this
      ensures Snapshot() == QueueJob(old(Snapshot()))
    {
      jobsQueued := jobsQueued + 1;
    }

    method JobPaniced()
      modifies this
      ensures Snapshot() == CountPanic(old(Snapshot()))
    {
      jobPaniced := jobPaniced + 1;
    }
  }

  /**
   * The loop of `thread_function` run by one worker that receives, one after
   * the other, jobs with the given outcomes (`true` for `Ok`, `false` for a
   * caught panic), with no other thread touching the state in between.
   */
  method WorkerLoop(shared: SharedState, outcomes: seq<bool>)
    requires shared.jobsQueued >= |outcomes|
    modifies shared
    ensures shared.Snapshot() == WorkerJobs(old(shared.Snapshot()), outcomes)
  {
    var i := 0;
    while i < |outcomes|
      invariant 0 <= i <= |outcomes|
      invariant old(shared.Snapshot()).queued >= i
      invariant shared.Snapshot() == WorkerJobs(old(shared.Snapshot()), outcomes[..i])
    {
      assert outcomes[..i + 1][..i] == outcomes[..i];
      shared.JobStarting();
      shared.JobFinished();
      if !outcomes[i] {
        shared.JobPaniced();
      }
      i := i + 1;
    }
    assert outcomes[..i] == outcomes;
  }

  /** `ThreadPool`: the thread count given to `new` and the shared counters. */
  class ThreadPool {
    const maxThreads: nat
    const shared: SharedState

    /** `ThreadPool::new(thread_amount)`: the state is fresh, so the pool is finished. */
    constructor (threadAmount: nat)
      requires threadAmount > 0
      ensures maxThreads == threadAmount
      ensures fresh(shared) && shared.Snapshot() == NewCounters()
    {
      maxThreads := threadAmount;
      shared := new SharedState();
    }

    /** `threads()`. */
    function Threads(): nat {
      maxThreads
    }

    /** `is_finished()`. */
    predicate Finished()
      reads shared
    {
      IsFinished(shared.Snapshot())
    }

    /** `has_paniced()`. */
    predicate Paniced()
      reads shared
    {
      HasPaniced(shared.Snapshot())
    }
  }

  /**
   * The pool as a transition system. Besides the counters it records where
   * the caller and the workers are:
   * `sending` — the caller is inside `send_job`, between `job_queued` and
   * the channel send; `channel` — jobs sent and not yet received;
   * `received` — workers holding a job before `job_starting`;
   * `executing` — workers inside the job; `panicking` — workers whose job
   * returned `Err` and that have not yet called `job_paniced`.
   */
  datatype Sys = Sys(counters: Counters, threads: nat, sending: bool, channel: nat,
                     received: nat, executing: nat, panicking: nat)

  /** One statement that touches shared data, by the caller or by some worker. */
  datatype Event =
    | SendQueue         // `send_job`: `job_queued()`
    | SendTransmit      // `send_job`: `job_transmitter.send`
    | Receive           // a free worker takes a job out of the channel
    | Start             // that worker calls `job_starting()`
    | Finish(ok: bool)  // the job returns; the worker calls `job_finished()`
    | Panic             // after an `Err`, the worker calls `job_paniced()`

  /** The pool right after `new(threads)`: nothing sent, every worker waiting. */
  function Init(threads: nat): Sys {
    Sys(NewCounters(), threads, false, 0, 0, 0, 0)
  }

  /** Workers that hold a job. */
  function Busy(s: Sys): nat {
    s.received + s.executing + s.panicking
  }

  /** Whether the scheduler can run `e` next: the thread that would run it is at that statement. */
  predicate Enabled(s: Sys, e: Event) {
    match e
    case SendQueue => !s.sending
    case SendTransmit => s.sending
    case Receive => s.channel > 0 && Busy(s) < s.threads
    case Start => s.received > 0
    case Finish(_) => s.executing > 0
    case Panic => s.panicking > 0
  }

  /** The debug assertion the event's counter method makes: `job_starting` and `job_finished` never go below zero. */
  predicate AssertionHolds(s: Sys, e: Event) {
    match e
    case Start => s.counters.queued > 0
    case Finish(_) => s.counters.running > 0
    case _ => true
  }

  /** The state after event `e`. */
  function Next(s: Sys, e: Event): Sys
    requires Enabled(s, e) && AssertionHolds(s, e)
  {
    match e
    case SendQueue => s.(counters := QueueJob(s.counters), sending := true)
    case SendTransmit => s.(sending := false, channel := s.channel + 1)
    case Receive => s.(channel := s.channel - 1, received := s.received + 1)
    case Start => s.(counters := StartJob(s.counters), received := s.received - 1, executing := s.executing + 1)
    case Finish(ok) =>
      s.(counters := FinishJob(s.counters), executing := s.executing - 1,
         panicking := if ok then s.panicking else s.panicking + 1)
    case Panic => s.(counters := CountPanic(s.counters), panicking := s.panicking - 1)
  }

  /** How a schedule ends: in a state, at an event that cannot run, or at a failed debug assertion. */
  datatype Outcome = Reached(state: Sys) | Blocked | Violated

  /** Runs a schedule from `s`. */
  function Run(s: Sys, es: seq<Event>): Outcome
    decreases |es|
  {
    if |es| == 0 then Reached(s)
    else if !Enabled(s, es[0]) then Blocked
    else if !AssertionHolds(s, es[0]) then Violated
    else Run(Next(s, es[0]), es[1..])
  }

  /**
   * The bookkeeping invariant: every job that has been counted as queued is
   * about to be sent, in the channel, or held by a worker that has not yet
   * started it; every running job is being executed.
   */
  predicate Inv(s: Sys) {
    && s.counters.queued == (if s.sending then 1 else 0) + s.channel + s.received
    && s.counters.running == s.executing
    && Busy(s) <= s.threads
  }

  /** A fresh pool satisfies the invariant and is finished. */
  lemma InitInv(threads: nat)
    ensures Inv(Init(threads))
    ensures IsFinished(Init(threads).counters) && !HasPaniced(Init(threads).counters)
  {
  }

  /** Every enabled event keeps its debug assertion and the invariant. */
  lemma StepPreserves(s: Sys, e: Event)
    requires Inv(s) && Enabled(s, e)
    ensures AssertionHolds(s, e)
    ensures Inv(Next(s, e))
  {
  }

  /**
   * No schedule from an invariant state fails a debug assertion, and every
   * state reached satisfies the invariant, so the queued count always covers
   * the jobs in the channel.
   */
  lemma {:induction false} NeverViolated(s: Sys, es: seq<Event>)
    requires Inv(s)
    ensures Run(s, es) != Violated
    ensures Run(s, es).Reached? ==> Inv(Run(s, es).state)
    ensures Run(s, es).Reached? ==> Run(s, es).state.counters.queued >= Run(s, es).state.channel
    decreases |es|
  {
    if |es| > 0 && Enabled(s, es[0]) {
      StepPreserves(s, es[0]);
      NeverViolated(Next(s, es[0]), es[1..]);
    }
  }

  /**
   * In a state satisfying the invariant, `is_finished` holds exactly when no
   * job is anywhere: not being sent, not in the channel, not held by a worker.
   */
  lemma FinishedIffIdle(s: Sys)
    requires Inv(s)
    ensures IsFinished(s.counters) <==> !s.sending && s.channel == 0 && s.received == 0 && s.executing == 0
  {
  }

  /** A schedule whose first event can run continues from the state that event leaves. */
  lemma RunStep(s: Sys, e: Event, rest: seq<Event>)
    requires Enabled(s, e) && AssertionHolds(s, e)
    ensures Run(s, [e] + rest) == Run(Next(s, e), rest)
  {
    assert ([e] + rest)[1..] == rest;
  }

  /** Events in the order they happen for the job of one `send_job` handled to completion by one worker. */
  function JobLifecycle(ok: bool): seq<Event> {
    [SendQueue, SendTransmit, Receive, Start, Finish(ok)] + if ok then [] else [Panic]
  }

  /**
   * From a finished pool with a free worker, one job sent and handled
   * completely leaves the pool finished again, with one more panic exactly
   * when the job failed.
   */
  lemma LifecycleReturnsToFinished(s: Sys, ok: bool)
    requires Inv(s) && IsFinished(s.counters) && s.panicking == 0 && s.threads > 0
    ensures Run(s, JobLifecycle(ok)).Reached?
    ensures IsFinished(Run(s, JobLifecycle(ok)).state.counters)
    ensures Run(s, JobLifecycle(ok)).state.counters.paniced == s.counters.paniced + if ok then 0 else 1
  {
    FinishedIffIdle(s);
    var s1 := Next(s, SendQueue);
    var s2 := Next(s1, SendTransmit);
    var s3 := Next(s2, Receive);
    var s4 := Next(s3, Start);
    var s5 := Next(s4, Finish(ok));
    var tail: seq<Event> := if ok then [] else [Panic];
    var last := if ok then s5 else Next(s5, Panic);
    assert Run(s5, tail) == Reached(last) by {
      if !ok {
        assert Run(s5, [Panic]) == Run(Next(s5, Panic), []);
      }
    }
    RunStep(s4, Finish(ok), tail);
    RunStep(s3, Start, [Finish(ok)] + tail);
    RunStep(s2, Receive, [Start, Finish(ok)] + tail);
    RunStep(s1, SendTransmit, [Receive, Start, Finish(ok)] + tail);
    RunStep(s, SendQueue, [SendTransmit, Receive, Start, Finish(ok)] + tail);
    assert JobLifecycle(ok) == [SendQueue] + ([SendTransmit] + ([Receive] + ([Start] + ([Finish(ok)] + tail))));
    assert [Start, Finish(ok)] + tail == [Start] + ([Finish(ok)] + tail);
    assert [Receive, Start, Finish(ok)] + tail == [Receive] + ([Start, Finish(ok)] + tail);
    assert [SendTransmit, Receive, Start, Finish(ok)] + tail == [SendTransmit] + ([Receive, Start, Finish(ok)] + tail);
    assert Run(s, JobLifecycle(ok)) == Reached(last);
  }
}
