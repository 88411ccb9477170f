/** The leased queue as a protocol: workers, sweeps and administrators act on the job table
    in any order, and workers whose claim is long over may still report. */
module JobProtocol {
  import opened Jobs

  /** The table with the claims that workers still work on. The counters are not stored
      anywhere; they record the history of a run. */
  datatype System = System(
    now: int, jobs: Table, tasks: set<Task>,
    claims: map<int, nat>, retries: map<int, nat>, stale: map<int, nat>)

  datatype Step =
    | Tick(later: int)
    | Enqueue(id: int, params: Enqueueing)
    | ClaimJobs(worker: Worker, limit: nat, leaseMs: int, locked: set<int>, picked: set<int>)
    | Heartbeat(id: int, beating: Worker, extendMs: int)
    | PromoteReady
    | RequeueStuck
    | RequestCancel(id: int)
    | RetryJob(id: int, runAfter: int)
    | FinishTask(task: Task, outcome: Outcome, workerNow: int)
    | Crash(lost: Task)

  function CountOf(m: map<int, nat>, id: int): nat {
    if id in m then m[id] else 0
  }

  function Increment(m: map<int, nat>, id: int): map<int, nat> {
    m[id := CountOf(m, id) + 1]
  }

  /** What the environment has to provide for a step. */
  ghost predicate Enabled(s: System, step: Step) {
    match step
    case Tick(later) => later >= s.now
    case Enqueue(id, _) => id !in s.jobs
    case ClaimJobs(_, limit, _, locked, picked) => Picks(s.jobs, s.now, locked, limit, picked)
    case FinishTask(task, _, _) => task in s.tasks
    case Crash(task) => task in s.tasks
    case _ => true
  }

  function ClaimTasks(t: Table, picked: set<int>, worker: Worker): set<Task> {
    set id | id in picked && id in t :: Task(id, worker, t[id].attempt + 1, t[id].maxAttempts)
  }

  function CountClaims(t: Table, claims: map<int, nat>, picked: set<int>): map<int, nat> {
    map id | id in t.Keys + claims.Keys :: CountOf(claims, id) + if id in picked then 1 else 0
  }

  /** A worker reports a retryable failure for a claim that is not the latest one. */
  predicate IsStale(t: Table, task: Task, o: Outcome) {
    task.jobId in t && FinalState(task, o) == FailedRetryable && task.attempt != t[task.jobId].attempt
  }

  ghost function Apply(s: System, step: Step): System {
    match step
    case Tick(later) => s.(now := later)
    case Enqueue(id, params) =>
      if Taken(s.jobs, params.dedupe) then s else s.(jobs := s.jobs[id := NewJob(params, s.now)])
    case ClaimJobs(worker, _, leaseMs, _, picked) =>
      s.(jobs := ClaimAll(s.jobs, picked, worker, s.now + leaseMs),
         tasks := s.tasks + ClaimTasks(s.jobs, picked, worker),
         claims := CountClaims(s.jobs, s.claims, picked))
    case Heartbeat(id, worker, extendMs) =>
      if id in s.jobs && HeldBy(s.jobs[id], worker)
        then s.(jobs := Put(s.jobs, id, Extend(s.jobs[id], s.now + extendMs)))
      else s
    case PromoteReady => s.(jobs := PromoteAll(s.jobs, s.now))
    case RequeueStuck => s.(jobs := UnstickAll(s.jobs, s.now))
    case RequestCancel(id) => if id in s.jobs then s.(jobs := Put(s.jobs, id, Cancel(s.jobs[id]))) else s
    case RetryJob(id, runAfter) =>
      if id in s.jobs && s.jobs[id].state != Running then
        s.(jobs := Put(s.jobs, id, Retry(s.jobs[id], runAfter, s.now)), retries := Increment(s.retries, id))
      else s
    case FinishTask(task, o, workerNow) =>
      if task.jobId !in s.jobs then s.(tasks := s.tasks - {task})
      else
        s.(jobs := Put(s.jobs, task.jobId, Finalize(s.jobs[task.jobId], task, o, workerNow)),
           tasks := s.tasks - {task},
           stale := if IsStale(s.jobs, task, o) then Increment(s.stale, task.jobId) else s.stale)
    case Crash(task) => s.(tasks := s.tasks - {task})
  }

  // ---- what every step keeps ----

  /** A job is running exactly when it has a claimant and a lease. */
  predicate LeaseOk(j: Job) {
    && (j.state == Running <==> j.claimedBy.Some?)
    && (j.state == Running <==> j.leaseUntil.Some?)
  }

  predicate Waiting(j: Job) {
    j.state == Queued || j.state == Scheduled || j.state == FailedRetryable
  }

  /** Every job can be claimed once, even if `max_attempts` is not positive. */
  function Limit(j: Job): int {
    if j.maxAttempts < 1 then 1 else j.maxAttempts
  }

  function Allowance(s: System, id: int): int
    requires id in s.jobs
  {
    Limit(s.jobs[id]) + CountOf(s.retries, id) + CountOf(s.stale, id)
  }

  /** Attempts are claims; a job that can still be claimed has an attempt left. */
  predicate AttemptsOk(s: System, id: int)
    requires id in s.jobs
  {
    var j := s.jobs[id];
    && j.attempt == CountOf(s.claims, id)
    && j.attempt <= Allowance(s, id)
    && (Waiting(j) ==> j.attempt < Allowance(s, id))
  }

  predicate TaskOk(t: Table, task: Task) {
    && task.jobId in t && 1 <= task.attempt <= t[task.jobId].attempt
    && task.maxAttempts == t[task.jobId].maxAttempts
  }

  /** A job that was never enqueued has no history. */
  predicate Unheard(s: System, id: int) {
    CountOf(s.claims, id) == 0 && CountOf(s.retries, id) == 0 && CountOf(s.stale, id) == 0
  }

  ghost predicate Invariant(s: System) {
    && (forall id | id in s.jobs :: LeaseOk(s.jobs[id]) && AttemptsOk(s, id))
    && (forall id | id !in s.jobs :: Unheard(s, id))
    && (forall task | task in s.tasks :: TaskOk(s.jobs, task))
    && (forall a, b | a in s.tasks && b in s.tasks && a.jobId == b.jobId && a.attempt == b.attempt :: a == b)
  }

  /** Jobs other than those a step concerns keep their row. */
  lemma JobKept(s: System, s': System, id: int)
    requires Invariant(s) && id in s.jobs && id in s'.jobs && s'.jobs[id] == s.jobs[id]
    requires CountOf(s'.claims, id) == CountOf(s.claims, id)
    requires CountOf(s'.retries, id) >= CountOf(s.retries, id) && CountOf(s'.stale, id) >= CountOf(s.stale, id)
    ensures LeaseOk(s'.jobs[id]) && AttemptsOk(s', id)
  {
  }

  ghost predicate JobsOk(s: System) {
    forall id | id in s.jobs :: LeaseOk(s.jobs[id]) && AttemptsOk(s, id)
  }

  lemma FinishKeepsJobs(s: System, task: Task, o: Outcome, workerNow: int)
    requires Invariant(s) && task in s.tasks
    ensures JobsOk(Apply(s, FinishTask(task, o, workerNow)))
  {
    var s' := Apply(s, FinishTask(task, o, workerNow));
    assert TaskOk(s.jobs, task);
    forall id | id in s'.jobs
      ensures LeaseOk(s'.jobs[id]) && AttemptsOk(s', id)
    {
      if id != task.jobId {
        JobKept(s, s', id);
      } else {
        assert LeaseOk(s.jobs[id]) && AttemptsOk(s, id);
      }
    }
  }

  lemma ClaimKeepsJobs(s: System, step: Step)
    requires Invariant(s) && step.ClaimJobs? && Enabled(s, step)
    ensures JobsOk(Apply(s, step))
  {
    var s' := Apply(s, step);
    forall id | id in s'.jobs
      ensures LeaseOk(s'.jobs[id]) && AttemptsOk(s', id)
    {
      assert LeaseOk(s.jobs[id]) && AttemptsOk(s, id);
    }
  }

  lemma ClaimKeepsTasks(s: System, step: Step)
    requires Invariant(s) && step.ClaimJobs? && Enabled(s, step)
    ensures var s' := Apply(s, step);
            && (forall task | task in s'.tasks :: TaskOk(s'.jobs, task))
            && (forall a, b | a in s'.tasks && b in s'.tasks && a.jobId == b.jobId && a.attempt == b.attempt :: a == b)
  {
    var s' := Apply(s, step);
    forall task | task in s'.tasks
      ensures TaskOk(s'.jobs, task)
      ensures task in s.tasks <==> task !in ClaimTasks(s.jobs, step.picked, step.worker)
    {
      assert task in s.tasks ==> TaskOk(s.jobs, task);
    }
  }

  lemma {:induction false} OthersKeepJob(s: System, step: Step, id: int)
    requires Invariant(s) && Enabled(s, step) && !step.ClaimJobs? && !step.FinishTask?
    requires id in Apply(s, step).jobs
    ensures LeaseOk(Apply(s, step).jobs[id]) && AttemptsOk(Apply(s, step), id)
  {
    if id in s.jobs {
      assert LeaseOk(s.jobs[id]) && AttemptsOk(s, id);
    }
  }

  lemma OthersKeepJobs(s: System, step: Step)
    requires Invariant(s) && Enabled(s, step) && !step.ClaimJobs? && !step.FinishTask?
    ensures JobsOk(Apply(s, step))
  {
    forall id | id in Apply(s, step).jobs
      ensures LeaseOk(Apply(s, step).jobs[id]) && AttemptsOk(Apply(s, step), id)
    {
      OthersKeepJob(s, step, id);
    }
  }

  lemma OthersKeepTasks(s: System, step: Step)
    requires Invariant(s) && Enabled(s, step) && !step.ClaimJobs?
    ensures var s' := Apply(s, step);
            s'.tasks <= s.tasks && forall t | t in s'.tasks :: TaskOk(s'.jobs, t)
  {
    forall t | t in Apply(s, step).tasks
      ensures TaskOk(Apply(s, step).jobs, t)
    {
      assert TaskOk(s.jobs, t);
    }
  }

  lemma StaysUnheard(s: System, step: Step, id: int)
    requires Invariant(s) && Enabled(s, step) && id !in Apply(s, step).jobs
    ensures Unheard(Apply(s, step), id)
  {
  }

  lemma StepKeepsInvariant(s: System, step: Step)
    requires Invariant(s) && Enabled(s, step)
    ensures Invariant(Apply(s, step))
  {
    var s' := Apply(s, step);
    forall id | id !in s'.jobs
      ensures Unheard(s', id)
    {
      StaysUnheard(s, step, id);
    }
    if step.ClaimJobs? {
      ClaimKeepsJobs(s, step);
      ClaimKeepsTasks(s, step);
    } else {
      OthersKeepTasks(s, step);
      if step.FinishTask? {
        FinishKeepsJobs(s, step.task, step.outcome, step.workerNow);
      } else {
        OthersKeepJobs(s, step);
      }
    }
  }

  // ---- whole runs ----

  ghost predicate Follows(ss: seq<System>, steps: seq<Step>, i: nat)
    requires |ss| == |steps| + 1 && i < |steps|
  {
    Enabled(ss[i], steps[i]) && ss[i + 1] == Apply(ss[i], steps[i])
  }

  ghost predicate IsRun(ss: seq<System>, steps: seq<Step>) {
    && |ss| == |steps| + 1
    && ss[0] == System(ss[0].now, map[], {}, map[], map[], map[])
    && forall i | 0 <= i < |steps| :: Follows(ss, steps, i)
  }

  lemma {:induction false} RunKeepsInvariant(ss: seq<System>, steps: seq<Step>, i: nat)
    requires IsRun(ss, steps) && i < |ss|
    ensures Invariant(ss[i])
  {
    if i > 0 {
      RunKeepsInvariant(ss, steps, i - 1);
      assert Follows(ss, steps, i - 1);
      StepKeepsInvariant(ss[i - 1], steps[i - 1]);
    }
  }

  /** In every run a job is claimed at most `max_attempts` times more than it was retried by
      an administrator or revived by a stale report. */
  lemma ClaimsAreBounded(ss: seq<System>, steps: seq<Step>, i: nat, id: int)
    requires IsRun(ss, steps) && i < |ss| && id in ss[i].jobs
    ensures ss[i].jobs[id].attempt == CountOf(ss[i].claims, id)
    ensures CountOf(ss[i].claims, id)
            <= Limit(ss[i].jobs[id]) + CountOf(ss[i].retries, id) + CountOf(ss[i].stale, id)
  {
    RunKeepsInvariant(ss, steps, i);
    assert AttemptsOk(ss[i], id);
  }

  /** The claim that the table knows of. */
  predicate IsCurrent(t: Table, task: Task) {
    task.jobId in t && HeldBy(t[task.jobId], task.worker) && t[task.jobId].attempt == task.attempt
  }

  /** Of all claims on a job that workers work on, at most one is current. */
  lemma OneCurrentTask(s: System, a: Task, b: Task)
    requires Invariant(s) && a in s.tasks && b in s.tasks && a.jobId == b.jobId
    requires IsCurrent(s.jobs, a) && IsCurrent(s.jobs, b)
    ensures a == b
  {
  }

  /** As long as its lease lasts, a running job stays with its claimant through every step
      but a worker's report on it and the passing of time. */
  lemma LeaseProtects(s: System, step: Step, id: int)
    requires Invariant(s) && Enabled(s, step) && id in s.jobs
    requires s.jobs[id].state == Running && s.jobs[id].leaseUntil.value >= s.now
    requires !step.Tick? && !(step.FinishTask? && step.task.jobId == id)
    ensures var j, j' := s.jobs[id], Apply(s, step).jobs;
            && id in j' && j'[id].state == Running
            && j'[id].claimedBy == j.claimedBy && j'[id].attempt == j.attempt
  {
  }

  predicate IsFinal(j: Job) {
    j.state == Succeeded || j.state == FailedTerminal || j.state == Cancelled
  }

  /** A final state is left only by an administrator's retry or by a worker that still
      reports on the job, whose claim is then not current. */
  lemma FinalStateLeft(s: System, step: Step, id: int)
    requires Invariant(s) && Enabled(s, step) && id in s.jobs && IsFinal(s.jobs[id])
    ensures id in Apply(s, step).jobs
    ensures Apply(s, step).jobs[id].state != s.jobs[id].state ==>
              || (step.RetryJob? && step.id == id)
              || (step.FinishTask? && step.task.jobId == id && !IsCurrent(s.jobs, step.task))
  {
  }

  /** No step but an enqueueing touches the rows' dedupe keys. */
  lemma KeepsDedupe(s: System, step: Step, id: int)
    requires Enabled(s, step) && id in Apply(s, step).jobs && !step.Enqueue?
    ensures id in s.jobs && Apply(s, step).jobs[id].dedupe == s.jobs[id].dedupe
  {
  }

  /** No step gives two jobs the same dedupe key. */
  lemma DedupeStaysUnique(s: System, step: Step)
    requires DedupeUnique(s.jobs) && Enabled(s, step)
    ensures DedupeUnique(Apply(s, step).jobs)
  {
    var t' := Apply(s, step).jobs;
    if step.Enqueue? {
      forall i, j | i in t' && j in t' && t'[i].dedupe.Some? && t'[i].dedupe == t'[j].dedupe
        ensures i == j
      {
        assert i in s.jobs ==> Holds(s.jobs, i, t'[i].dedupe.value);
        assert j in s.jobs ==> Holds(s.jobs, j, t'[i].dedupe.value);
      }
    } else {
      forall i | i in t'
        ensures i in s.jobs && t'[i].dedupe == s.jobs[i].dedupe
      {
        KeepsDedupe(s, step, i);
      }
    }
  }

  /** No two jobs of a run ever have the same dedupe key. */
  lemma {:induction false} DedupeUniqueInRuns(ss: seq<System>, steps: seq<Step>, i: nat)
    requires IsRun(ss, steps) && i < |ss|
    ensures DedupeUnique(ss[i].jobs)
  {
    if i > 0 {
      DedupeUniqueInRuns(ss, steps, i - 1);
      assert Follows(ss, steps, i - 1);
      DedupeStaysUnique(ss[i - 1], steps[i - 1]);
    }
  }
}
