/** When `max_attempts` limits the claims of a job: finalising statements match on the row id
    alone, so that a worker whose claim is long over can put a job back. */
module JobLimits {
  import opened JobProtocol
  import opened Jobs
  import opened Wrappers

  // ---- jobs of one attempt ----

  lemma KeepsLimit(s: System, step: Step, id: int)
    requires Enabled(s, step) && id in s.jobs
    ensures id in Apply(s, step).jobs && Apply(s, step).jobs[id].maxAttempts == s.jobs[id].maxAttempts
  {
  }

  /** Reports on a job of one attempt are never retryable. */
  lemma {:induction false} OneAttemptStep(s: System, step: Step, id: int)
    requires Invariant(s) && Enabled(s, step) && id in s.jobs && s.jobs[id].maxAttempts <= 1
    ensures CountOf(Apply(s, step).stale, id) == CountOf(s.stale, id)
    ensures IsFinal(s.jobs[id]) && !step.RetryJob? ==> id in Apply(s, step).jobs && IsFinal(Apply(s, step).jobs[id])
  {
    if step.FinishTask? {
      assert TaskOk(s.jobs, step.task);
    }
  }

  lemma {:induction false} OneAttemptRun(ss: seq<System>, steps: seq<Step>, i: nat, id: int)
    requires IsRun(ss, steps) && i < |ss| && id in ss[i].jobs && ss[i].jobs[id].maxAttempts <= 1
    ensures CountOf(ss[i].stale, id) == 0
  {
    var s, step := ss[i - 1], steps[i - 1];
    assert Follows(ss, steps, i - 1);
    RunKeepsInvariant(ss, steps, i - 1);
    if id in s.jobs {
      KeepsLimit(s, step, id);
      OneAttemptRun(ss, steps, i - 1, id);
      OneAttemptStep(s, step, id);
    } else {
      assert Unheard(s, id);
    }
  }

  // ---- a stale report ----

  /** The other rows that could be claimed; another statement may have locked them. */
  function Others(s: System, id: int): set<int> {
    Eligible(s.jobs, s.now, {}) - {id}
  }

  function ClaimOnly(s: System, id: int, worker: Worker, leaseMs: int): Step {
    ClaimJobs(worker, 1, leaseMs, Others(s, id), {id})
  }

  lemma ClaimOnlyEnabled(s: System, id: int, worker: Worker, leaseMs: int)
    requires Invariant(s) && id in s.jobs && Due(s.jobs[id], s.now)
    ensures Enabled(s, ClaimOnly(s, id, worker, leaseMs))
    ensures var s' := Apply(s, ClaimOnly(s, id, worker, leaseMs));
            CountOf(s'.claims, id) == s.jobs[id].attempt + 1
  {
    assert Eligible(s.jobs, s.now, Others(s, id)) == {id};
    assert AttemptsOk(s, id);
  }

  ghost function AfterReport(s: System, task: Task, backoff: int, workerNow: int): System {
    Apply(s, FinishTask(task, Retryable(backoff), workerNow))
  }

  /** ...and time has passed and the waiting jobs were promoted. */
  ghost function AfterPromotion(s: System, id: int): System
    requires id in s.jobs
  {
    var later := if s.jobs[id].runAfter > s.now then s.jobs[id].runAfter else s.now;
    Apply(Apply(s, Tick(later)), PromoteReady)
  }

  /** Whatever became of a job whose attempts are used up, a report on an earlier claim makes
      it due again. */
  lemma StaleReportRevives(s: System, task: Task, backoff: int, workerNow: int)
    requires Invariant(s) && task in s.tasks && task.attempt < task.maxAttempts
    ensures task.jobId in AfterReport(s, task, backoff, workerNow).jobs
    ensures var s' := AfterPromotion(AfterReport(s, task, backoff, workerNow), task.jobId);
            && task.jobId in s'.jobs && Due(s'.jobs[task.jobId], s'.now)
            && s'.jobs[task.jobId].attempt == s.jobs[task.jobId].attempt
            && s'.jobs[task.jobId].maxAttempts == task.maxAttempts
  {
    assert TaskOk(s.jobs, task);
  }

  // ---- runs without administrators ----

  ghost predicate NoRetry(steps: seq<Step>) {
    forall i | 0 <= i < |steps| :: !steps[i].RetryJob?
  }

  ghost predicate EndsIn(ss: seq<System>, steps: seq<Step>, s: System) {
    IsRun(ss, steps) && NoRetry(steps) && ss[|steps|] == s
  }

  ghost predicate Reachable(s: System) {
    exists ss, steps :: EndsIn(ss, steps, s)
  }

  lemma RunExtends(ss: seq<System>, steps: seq<Step>, s: System, step: Step)
    requires EndsIn(ss, steps, s) && Enabled(s, step) && !step.RetryJob?
    ensures EndsIn(ss + [Apply(s, step)], steps + [step], Apply(s, step))
  {
    var ss', steps' := ss + [Apply(s, step)], steps + [step];
    forall i: nat | i < |steps'|
      ensures Follows(ss', steps', i)
    {
      assert i < |steps| ==> Follows(ss, steps, i);
    }
  }

  lemma ReachableStep(s: System, step: Step)
    requires Reachable(s) && Enabled(s, step) && !step.RetryJob?
    ensures Reachable(Apply(s, step))
  {
    var ss, steps :| EndsIn(ss, steps, s);
    RunExtends(ss, steps, s, step);
  }

  lemma {:induction false} NoRetriesCounted(ss: seq<System>, steps: seq<Step>, i: nat, id: int)
    requires IsRun(ss, steps) && NoRetry(steps) && i < |ss|
    ensures CountOf(ss[i].retries, id) == 0
  {
    if i > 0 {
      NoRetriesCounted(ss, steps, i - 1, id);
      assert Follows(ss, steps, i - 1) && !steps[i - 1].RetryJob?;
    }
  }

  lemma ReachableInvariant(s: System)
    requires Reachable(s)
    ensures Invariant(s)
  {
    var ss, steps :| EndsIn(ss, steps, s);
    RunKeepsInvariant(ss, steps, |steps|);
  }

  /** A job of one attempt is claimed once at most. */
  lemma OneAttemptHolds(s: System, id: int)
    requires Reachable(s) && id in s.jobs && s.jobs[id].maxAttempts <= 1
    ensures CountOf(s.claims, id) <= 1
  {
    var ss, steps :| EndsIn(ss, steps, s);
    ClaimsAreBounded(ss, steps, |steps|, id);
    NoRetriesCounted(ss, steps, |steps|, id);
    OneAttemptRun(ss, steps, |steps|, id);
  }

  // ---- a run that uses up all attempts ----

  function First(): Worker {
    Worker("first")
  }

  /** The only job is running its attempt `n` of `k`; the worker of the first attempt and the
      one of the current attempt still work on it. */
  ghost predicate AtWork(s: System, k: int, n: nat, current: Worker) {
    && Reachable(s) && Invariant(s) && s.jobs.Keys == {1} && s.jobs[1].state == Running
    && s.jobs[1].attempt == n && s.jobs[1].maxAttempts == k && s.jobs[1].runAfter <= s.now
    && Task(1, First(), 1, k) in s.tasks && Task(1, current, n, k) in s.tasks
  }

  ghost function Empty(): System {
    System(0, map[], {}, map[], map[], map[])
  }

  lemma EmptyReachable()
    ensures Reachable(Empty())
  {
    assert EndsIn([Empty()], [], Empty());
  }

  lemma ClaimStep(s: System, k: int, n: nat, worker: Worker)
    requires Reachable(s) && s.jobs.Keys == {1} && Due(s.jobs[1], s.now)
    requires s.jobs[1].attempt == n && s.jobs[1].maxAttempts == k
    requires n == 0 ==> worker == First()
    requires n > 0 ==> Task(1, First(), 1, k) in s.tasks
    ensures AtWork(Apply(s, ClaimOnly(s, 1, worker, 60)), k, n + 1, worker)
  {
    var claim := ClaimOnly(s, 1, worker, 60);
    ReachableInvariant(s);
    ClaimOnlyEnabled(s, 1, worker, 60);
    ReachableStep(s, claim);
    StepKeepsInvariant(s, claim);
    assert Task(1, worker, n + 1, k) in ClaimTasks(s.jobs, {1}, worker);
  }

  lemma StartWork(k: int) returns (s: System)
    ensures AtWork(s, k, 1, First())
  {
    var enqueue := Enqueue(1, Enqueueing(0, 0, Some(k), None));
    EmptyReachable();
    ReachableStep(Empty(), enqueue);
    var s1 := Apply(Empty(), enqueue);
    ClaimStep(s1, k, 0, First());
    s := Apply(s1, ClaimOnly(s1, 1, First(), 60));
  }

  /** The lease runs out. */
  ghost function Requeued(s: System): System
    requires 1 in s.jobs && s.jobs[1].leaseUntil.Some?
  {
    var lease := s.jobs[1].leaseUntil.value;
    Apply(Apply(s, Tick(if lease >= s.now then lease + 1 else s.now)), RequeueStuck)
  }

  lemma RequeueSteps(s: System, k: int, n: nat, current: Worker)
    requires AtWork(s, k, n, current) && n < k
    ensures s.jobs[1].leaseUntil.Some?
    ensures var s' := Requeued(s);
            && Reachable(s') && s'.jobs.Keys == {1} && Due(s'.jobs[1], s'.now) && s'.tasks == s.tasks
            && s'.jobs[1].attempt == n && s'.jobs[1].maxAttempts == k
  {
    assert LeaseOk(s.jobs[1]);
    var lease := s.jobs[1].leaseUntil.value;
    var tick := Tick(if lease >= s.now then lease + 1 else s.now);
    ReachableStep(s, tick);
    ReachableStep(Apply(s, tick), RequeueStuck);
  }

  lemma NextWork(s: System, k: int, n: nat, current: Worker, next: Worker) returns (s': System)
    requires AtWork(s, k, n, current) && n < k
    ensures AtWork(s', k, n + 1, next)
  {
    RequeueSteps(s, k, n, current);
    var requeued := Requeued(s);
    ClaimStep(requeued, k, n, next);
    s' := Apply(requeued, ClaimOnly(requeued, 1, next, 60));
  }

  lemma {:induction false} WorkUp(k: int, n: nat) returns (s: System, current: Worker)
    requires 1 <= n && (n <= k || n == 1)
    ensures AtWork(s, k, n, current)
  {
    if n == 1 {
      current := First();
      s := StartWork(k);
    } else {
      var s1, w := WorkUp(k, n - 1);
      current := Worker("next");
      s := NextWork(s1, k, n - 1, w, current);
    }
  }

  // ---- exactly one attempt ----

  /** The stale report and the claim that follows it. */
  lemma StaleReportExceeds(s: System, k: int, current: Worker) returns (s': System)
    requires k >= 2 && AtWork(s, k, k, current)
    ensures Reachable(s') && 1 in s'.jobs && s'.jobs[1].maxAttempts == k && CountOf(s'.claims, 1) == k + 1
  {
    var task := Task(1, First(), 1, k);
    StaleReportRevives(s, task, 1, 0);
    var s1 := AfterReport(s, task, 1, 0);
    ReachableStep(s, FinishTask(task, Retryable(1), 0));
    var tick := Tick(if s1.jobs[1].runAfter > s1.now then s1.jobs[1].runAfter else s1.now);
    ReachableStep(s1, tick);
    ReachableStep(Apply(s1, tick), PromoteReady);
    var s3 := AfterPromotion(s1, 1);
    ReachableInvariant(s3);
    ClaimOnlyEnabled(s3, 1, current, 60);
    ReachableStep(s3, ClaimOnly(s3, 1, current, 60));
    s' := Apply(s3, ClaimOnly(s3, 1, current, 60));
    KeepsLimit(s3, ClaimOnly(s3, 1, current, 60), 1);
  }

  /** Without administrators' retries, no job enqueued with `k` attempts is ever claimed more
      than `k` times. */
  ghost predicate LimitHolds(k: int) {
    forall s, id | Reachable(s) && id in s.jobs && s.jobs[id].maxAttempts == k :: CountOf(s.claims, id) <= k
  }

  lemma LimitHoldsExactly(k: int)
    ensures LimitHolds(k) <==> k == 1
  {
    if k == 1 {
      forall s, id | Reachable(s) && id in s.jobs && s.jobs[id].maxAttempts == k
        ensures CountOf(s.claims, id) <= k
      {
        OneAttemptHolds(s, id);
      }
    } else if k < 1 {
      var s := StartWork(k);
      assert AttemptsOk(s, 1);
    } else {
      var s, current := WorkUp(k, k);
      var s' := StaleReportExceeds(s, k, current);
    }
  }

  /** Without administrators' retries, a finished job with `k` attempts stays finished. */
  ghost predicate FinishedStays(k: int) {
    forall s, step, id | Reachable(s) && Enabled(s, step) && !step.RetryJob? && id in s.jobs
      && s.jobs[id].maxAttempts == k && IsFinal(s.jobs[id]) ::
      id in Apply(s, step).jobs && IsFinal(Apply(s, step).jobs[id])
  }

  /** The last worker completes the job, and the first one then reports a retryable failure. */
  lemma CompletedIsRevived(k: int) returns (s: System, step: Step)
    requires k >= 2
    ensures Reachable(s) && 1 in s.jobs && s.jobs[1].maxAttempts == k && s.jobs[1].state == Succeeded
    ensures Enabled(s, step) && !step.RetryJob?
    ensures 1 in Apply(s, step).jobs && Apply(s, step).jobs[1].state == FailedRetryable
  {
    var s1, current := WorkUp(k, k);
    var success := FinishTask(Task(1, current, k, k), Outcome.Success, 0);
    ReachableStep(s1, success);
    s := Apply(s1, success);
    step := FinishTask(Task(1, First(), 1, k), Retryable(1), 0);
  }

  lemma FinishedStaysExactly(k: int)
    ensures FinishedStays(k) <==> k <= 1
  {
    if k <= 1 {
      forall s, step, id | Reachable(s) && Enabled(s, step) && !step.RetryJob? && id in s.jobs
        && s.jobs[id].maxAttempts == k && IsFinal(s.jobs[id])
        ensures id in Apply(s, step).jobs && IsFinal(Apply(s, step).jobs[id])
      {
        ReachableInvariant(s);
        OneAttemptStep(s, step, id);
      }
    } else {
      var s, step := CompletedIsRevived(k);
    }
  }
}
