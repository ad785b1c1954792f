/**
 * The job bookkeeping of the render pool in src/raytracing/render_pool.rs.
 *
 * Like the general pool it shares a `SharedState` of `usize` counters (jobs
 * queued and jobs running, no panic count) between the caller and the
 * workers. It differs in two places, both of which the model exposes:
 * `send_job` sends the job first and counts it afterwards, and a worker runs
 * its job without `catch_unwind`, so a panicking job ends the worker thread
 * before `job_finished` is called.
 */
module RenderPools {
  /** The two fields of this pool's `SharedState`, as a value. */
  datatype Counters = Counters(queued: nat, running: nat)

  /** `SharedState::new`: both counters 0. */
  function NewCounters(): (c: Counters)
    ensures c.queued == 0 && c.running == 0
    ensures IsFinished(c)
  {
    Counters(0, 0)
  }

  /** `job_starting`: one job moves from queued to running. Its debug assertion is the precondition. */
  function StartJob(c: Counters): (r: Counters)
    requires c.queued > 0
    ensures r.queued + 1 == c.queued && r.running == c.running + 1
  {
    c.(queued := c.queued - 1, running := c.running + 1)
  }

  /** `job_finished`: one job fewer running; the queue is untouched. */
  function FinishJob(c: Counters): (r: Counters)
    requires c.running > 0
    ensures r.running + 1 == c.running && r.queued == c.queued
  {
    c.(running := c.running - 1)
  }

  /** `job_queued`: one job more queued; the running count is untouched. */
  function QueueJob(c: Counters): (r: Counters)
    ensures r.queued == c.queued + 1 && r.running == c.running
  {
    c.(queued := c.queued + 1)
  }

  /** `is_finished`: nothing running and nothing queued. */
  predicate IsFinished(c: Counters) {
    c.running == 0 && c.queued == 0
  }

  /** `SharedState`: the counters, updated in place behind the pool's mutex. */
  class SharedState {
    var jobsQueued: nat
    var jobsRunning: nat

    function Snapshot(): Counters
      reads this
    {
      Counters(jobsQueued, jobsRunning)
    }

    /** `SharedState::new`. */
    constructor ()
      ensures Snapshot() == NewCounters()
    {
      jobsRunning := 0;
      jobsQueued := 0;
    }

    method JobStarting()
      requires jobsQueued > 0
      modifies this
      ensures Snapshot() == StartJob(old(Snapshot()))
    {
      jobsQueued := jobsQueued - 1;
      jobsRunning := jobsRunning + 1;
    }

    method JobFinished()
      requires jobsRunning > 0
      modifies this
      ensures Snapshot() == FinishJob(old(Snapshot()))
    {
      jobsRunning := jobsRunning - 1;
    }

    method JobQueued()
      modifies this
      ensures Snapshot() == QueueJob(old(Snapshot()))
    {
      jobsQueued := jobsQueued + 1;
    }
  }

  /** The position of the first job among `outcomes` that panics (`false`), or `|outcomes|` if none does. */
  function FirstFailure(outcomes: seq<bool>): (n: nat)
    ensures n <= |outcomes|
    decreases |outcomes|
  {
    if |outcomes| == 0 then 0
    else if !outcomes[0] then 0
    else 1 + FirstFailure(outcomes[1..])
  }

  /** Below the first failure every job succeeds; at it the job fails. */
  lemma {:induction false} FirstFailureAt(outcomes: seq<bool>, i: nat)
    requires i < |outcomes| && i <= FirstFailure(outcomes)
    ensures outcomes[i] <==> i < FirstFailure(outcomes)
    decreases i
  {
    if i > 0 {
      FirstFailureAt(outcomes[1..], i - 1);
    }
  }

  /**
   * The loop of a worker thread spawned by `RenderPool::new`, receiving one
   * after the other jobs with the given outcomes (`true` when the job
   * returns, `false` when it panics) with no other thread touching the state
   * in between. A panicking job unwinds the thread after `job_starting`: the
   * loop ends and that job is never counted as finished.
   */
  method WorkerLoop(shared: SharedState, outcomes: seq<bool>) returns (died: bool)
    requires shared.jobsQueued >= |outcomes|
    modifies shared
    ensures died <==> FirstFailure(outcomes) < |outcomes|
    ensures shared.jobsRunning == old(shared.jobsRunning) + if died then 1 else 0
    ensures shared.jobsQueued + FirstFailure(outcomes) + (if died then 1 else 0) == old(shared.jobsQueued)
  {
    var i := 0;
    died := false;
    while i < |outcomes| && !died
      invariant 0 <= i <= |outcomes|
      invariant !died ==> i <= FirstFailure(outcomes)
      invariant died ==> i > 0 && i - 1 == FirstFailure(outcomes)
      invariant shared.jobsRunning == old(shared.jobsRunning) + if died then 1 else 0
      invariant shared.jobsQueued + i == old(shared.jobsQueued)
    {
      FirstFailureAt(outcomes, i);
      shared.JobStarting();
      if outcomes[i] {
        shared.JobFinished();
      } else {
        died := true;
      }
      i := i + 1;
    }
  }

  /** `RenderPool`: the thread count given to `new` and the shared counters. */
  class RenderPool {
    const maxThreads: nat
    const shared: SharedState

    /** `RenderPool::new(thread_amount)`: `threads()` gives back `thread_amount`, and the pool is finished. */
    constructor (threadAmount: nat)
      requires threadAmount > 0
      ensures Threads() == threadAmount
      ensures fresh(shared) && shared.Snapshot() == NewCounters()
    {
      maxThreads := threadAmount;
      shared := new SharedState();
    }

    /** `threads()`. */
    function Threads(): nat {
      maxThreads
    }

    /** `is_finished()`. */
    predicate Finished()
      reads shared
    {
      IsFinished(shared.Snapshot())
    }
  }

  /**
   * The pool as a transition system. Besides the counters it records where
   * the caller and the workers are:
   * `sending` — the caller is inside `send_job`, between the channel send
   * and `job_queued`; `channel` — jobs sent and not yet received;
   * `received` — workers holding a job before `job_starting`;
   * `executing` — workers inside the job; `dead` — workers whose job
   * panicked, so that their thread has ended.
   */
  datatype Sys = Sys(counters: Counters, threads: nat, sending: bool, channel: nat,
                     received: nat, executing: nat, dead: nat)

  /** One statement that touches shared data, by the caller or by some worker. */
  datatype Event =
    | SendTransmit      // `send_job`: `job_transmitter.send`
    | SendQueue         // `send_job`: `job_queued()`
    | Receive           // a free worker takes a job out of the channel
    | Start             // that worker calls `job_starting()`
    | Finish(ok: bool)  // the job returns and the worker calls `job_finished()`, or it panics

  /** The pool right after `new(threads)`: nothing sent, every worker waiting. */
  function Init(threads: nat): Sys {
    Sys(NewCounters(), threads, false, 0, 0, 0, 0)
  }

  /** Workers that hold a job or no longer exist. */
  function Busy(s: Sys): nat {
    s.received + s.executing + s.dead
  }

  /** Whether the scheduler can run `e` next: the thread that would run it is at that statement. */
  predicate Enabled(s: Sys, e: Event) {
    match e
    case SendTransmit => !s.sending
    case SendQueue => s.sending
    case Receive => s.channel > 0 && Busy(s) < s.threads
    case Start => s.received > 0
    case Finish(_) => s.executing > 0
  }

  /** The debug assertion the event's counter method makes. */
  predicate AssertionHolds(s: Sys, e: Event) {
    match e
    case Start => s.counters.queued > 0
    case Finish(ok) => ok ==> s.counters.running > 0
    case _ => true
  }

  /** The state after event `e`. */
  function Next(s: Sys, e: Event): Sys
    requires Enabled(s, e) && AssertionHolds(s, e)
  {
    match e
    case SendTransmit => s.(sending := true, channel := s.channel + 1)
    case SendQueue => s.(counters := QueueJob(s.counters), sending := false)
    case Receive => s.(channel := s.channel - 1, received := s.received + 1)
    case Start => s.(counters := StartJob(s.counters), received := s.received - 1, executing := s.executing + 1)
    case Finish(ok) =>
      if ok then s.(counters := FinishJob(s.counters), executing := s.executing - 1)
      else s.(executing := s.executing - 1, dead := s.dead + 1)
  }

  /** How a schedule ends: in a state, at an event that cannot run, or at a failed debug assertion. */
  datatype Outcome = Reached(state: Sys) | Blocked | Violated

  /** Runs a schedule from `s`. */
  function Run(s: Sys, es: seq<Event>): Outcome
    decreases |es|
  {
    if |es| == 0 then Reached(s)
    else if !Enabled(s, es[0]) then Blocked
    else if !AssertionHolds(s, es[0]) then Violated
    else Run(Next(s, es[0]), es[1..])
  }

  /**
   * The bookkeeping invariant: the jobs sent but not yet started are the
   * queued ones plus, while the caller is between the send and
   * `job_queued`, the one it has not counted yet; every running job is
   * being executed or belongs to a worker that died.
   */
  predicate Inv(s: Sys) {
    && s.counters.queued + (if s.sending then 1 else 0) == s.channel + s.received
    && s.counters.running == s.executing + s.dead
    && Busy(s) <= s.threads
  }

  /** A fresh pool satisfies the invariant and is finished. */
  lemma InitInv(threads: nat)
    ensures Inv(Init(threads)) && IsFinished(Init(threads).counters)
  {
  }

  /** Every event that can run and passes its assertion keeps the invariant; `job_finished` never fails its assertion. */
  lemma StepPreserves(s: Sys, e: Event)
    requires Inv(s) && Enabled(s, e) && AssertionHolds(s, e)
    ensures Inv(Next(s, e))
  {
  }

  /**
   * The only way `job_starting`'s assertion fails: the caller has sent a
   * job and not yet counted it, and a worker has already received it while
   * nothing else was sent.
   */
  lemma StartFailsOnlyInRace(s: Sys)
    requires Inv(s) && Enabled(s, Start)
    ensures !AssertionHolds(s, Start) <==> s.sending && s.counters.queued == 0
    ensures !AssertionHolds(s, Start) ==> s.channel == 0 && s.received == 1
  {
  }

  /** A schedule that crosses the race: `send`, a worker receives and starts the job, and only then would the caller count it. */
  function RaceSchedule(): seq<Event> {
    [SendTransmit, Receive, Start]
  }

  /**
   * With any number of workers, the schedule send → receive → `job_starting` is
   * possible and reaches `job_starting` with `jobs_queued == 0`: the debug
   * assertion fails (and without it the `usize` would drop below zero).
   */
  lemma RaceViolatesAssertion(threads: nat)
    requires threads > 0
    ensures Run(Init(threads), RaceSchedule()) == Violated
  {
    var s0 := Init(threads);
    var s1 := Next(s0, SendTransmit);
    var s2 := Next(s1, Receive);
    assert Enabled(s2, Start) && !AssertionHolds(s2, Start);
    assert Run(s2, [Start]) == Violated;
    RunStep(s1, Receive, [Start]);
    RunStep(s0, SendTransmit, [Receive, Start]);
    assert [SendTransmit] + [Receive, Start] == RaceSchedule();
    assert [Receive] + [Start] == [Receive, Start];
  }

  /**
   * Once a job has panicked, no schedule ever brings the pool back to
   * `is_finished`: its running count stays above zero.
   */
  lemma {:induction false} PanicBlocksFinish(s: Sys, es: seq<Event>)
    requires Inv(s) && s.dead > 0
    ensures Run(s, es).Reached? ==> !IsFinished(Run(s, es).state.counters)
    decreases |es|
  {
    if |es| > 0 && Enabled(s, es[0]) && AssertionHolds(s, es[0]) {
      StepPreserves(s, es[0]);
      PanicBlocksFinish(Next(s, es[0]), es[1..]);
    }
  }

  /**
   * Every schedule keeps the invariant up to its end or its first failed
   * assertion, and a failed assertion is always `job_starting` in the race
   * window.
   */
  lemma {:induction false} ViolationIsRace(s: Sys, es: seq<Event>)
    requires Inv(s)
    ensures Run(s, es).Reached? ==> Inv(Run(s, es).state)
    ensures Run(s, es) == Violated ==>
      exists k :: 0 <= k < |es| && es[k] == Start && RaceAt(s, es[..k])
    decreases |es|
  {
    if |es| > 0 && Enabled(s, es[0]) {
      if !AssertionHolds(s, es[0]) {
        StartFailsOnlyInRace(s);
        assert es[..0] == [];
        assert RaceAt(s, es[..0]);
      } else {
        StepPreserves(s, es[0]);
        var t := Next(s, es[0]);
        ViolationIsRace(t, es[1..]);
        if Run(s, es) == Violated {
          var k :| 0 <= k < |es[1..]| && es[1..][k] == Start && RaceAt(t, es[1..][..k]);
          assert es[..k + 1] == [es[0]] + es[1..][..k];
          RunStep(s, es[0], es[1..][..k]);
          assert RaceAt(s, es[..k + 1]);
        }
      }
    }
  }

  /** Running `prefix` from `s` reaches a state inside the race window. */
  predicate RaceAt(s: Sys, prefix: seq<Event>) {
    Run(s, prefix).Reached? && Run(s, prefix).state.sending && Run(s, prefix).state.counters.queued == 0
  }

  /** A schedule whose first event can run continues from the state that event leaves. */
  lemma RunStep(s: Sys, e: Event, rest: seq<Event>)
    requires Enabled(s, e) && AssertionHolds(s, e)
    ensures Run(s, [e] + rest) == Run(Next(s, e), rest)
  {
    assert ([e] + rest)[1..] == rest;
  }
}
