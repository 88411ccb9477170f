/** How long a claim lasts in a run of the queue. */
module JobLeases {
  import opened JobProtocol
  import opened Jobs
  import opened Wrappers

  /** The worker has the job, in its given attempt, at least until a time. */
  ghost predicate HeldUntil(t: Table, id: int, worker: Worker, attempt: nat, until: int) {
    && id in t && t[id].state == Running && t[id].claimedBy == Some(worker) && t[id].attempt == attempt
    && t[id].leaseUntil.Some? && t[id].leaseUntil.value >= until
  }

  /** No worker reports on the job, and no heartbeat for it shortens the lease. */
  ghost predicate Undisturbed(s: System, step: Step, id: int, until: int) {
    && !(step.FinishTask? && step.task.jobId == id)
    && (step.Heartbeat? && step.id == id ==> s.now + step.extendMs >= until)
  }

  lemma StaysHeld(s: System, step: Step, id: int, worker: Worker, attempt: nat, until: int)
    requires Enabled(s, step) && Undisturbed(s, step, id, until) && s.now <= until
    requires HeldUntil(s.jobs, id, worker, attempt, until)
    ensures HeldUntil(Apply(s, step).jobs, id, worker, attempt, until)
  {
  }

  lemma ClaimHolds(s: System, step: Step, id: int)
    requires Enabled(s, step) && step.ClaimJobs? && id in step.picked
    ensures id in s.jobs
    ensures HeldUntil(Apply(s, step).jobs, id, step.worker, s.jobs[id].attempt + 1, s.now + step.leaseMs)
  {
  }

  lemma {:induction false} TimePasses(ss: seq<System>, steps: seq<Step>, i: nat, j: nat)
    requires IsRun(ss, steps) && i <= j < |ss|
    ensures ss[i].now <= ss[j].now
    decreases j
  {
    if i < j {
      TimePasses(ss, steps, i, j - 1);
      assert Follows(ss, steps, j - 1);
    }
  }

  ghost predicate ClaimsAt(steps: seq<Step>, i: nat, id: int) {
    i < |steps| && steps[i].ClaimJobs? && id in steps[i].picked
  }

  /** In every run, a worker that claims a job at some time for some lease has it until that
      time plus the lease, unless a report or a shorter heartbeat on the job comes before. */
  lemma {:induction false} ClaimLasts(ss: seq<System>, steps: seq<Step>, i: nat, j: nat, id: int)
    requires IsRun(ss, steps) && ClaimsAt(steps, i, id) && i < j < |ss|
    requires ss[j].now <= ss[i].now + steps[i].leaseMs
    requires forall k | i < k < j :: Undisturbed(ss[k], steps[k], id, ss[i].now + steps[i].leaseMs)
    ensures id in ss[i].jobs
    ensures HeldUntil(ss[j].jobs, id, steps[i].worker, ss[i].jobs[id].attempt + 1, ss[i].now + steps[i].leaseMs)
    decreases j
  {
    assert Follows(ss, steps, i) && Follows(ss, steps, j - 1);
    ClaimHolds(ss[i], steps[i], id);
    if i < j - 1 {
      TimePasses(ss, steps, j - 1, j);
      ClaimLasts(ss, steps, i, j - 1, id);
      StaysHeld(ss[j - 1], steps[j - 1], id, steps[i].worker, ss[i].jobs[id].attempt + 1,
                ss[i].now + steps[i].leaseMs);
    }
  }
}
