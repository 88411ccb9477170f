/** The job table as the store updates it in place; each method is a step of the protocol. */
module JobStore {
  import opened JobProtocol
  import opened Jobs
  import opened Sorting
  import opened Wrappers

  datatype RetryResult = Updated(job: Job) | RunningConflict | NotFound

  /** The eligible row that is claimed before all other ones. */
  method FirstInLine(t: Table, ids: set<int>) returns (first: int)
    requires ids != {} && ids <= t.Keys
    ensures first in ids && forall id | id in ids :: ClaimedBefore(t, first, id)
  {
    ghost var any := AnyOf(ids);
    first :| first in ids;
    var rest := ids;
    while rest != {}
      invariant rest <= ids && first in ids
      invariant forall id | id in ids && id !in rest :: ClaimedBefore(t, first, id)
      decreases rest
    {
      ghost var other := AnyOf(rest);
      var id :| id in rest;
      if ClaimedBefore(t, id, first) {
        first := id;
      }
      rest := rest - {id};
    }
  }

  /** All rows but that of `id` are those before. */
  ghost predicate OthersKept(before: Table, after: Table, id: int) {
    after.Keys == before.Keys && forall i | i in before && i != id :: after[i] == before[i]
  }

  // ---- what the statements write, row by row ----

  /** A job that nobody has claimed. */
  ghost predicate IsNew(j: Job, p: Enqueueing, now: int) {
    && j.state == (if p.runAfter <= now then Queued else Scheduled)
    && j.priority == p.priority && j.runAfter == p.runAfter && j.dedupe == p.dedupe
    && j.maxAttempts == (if p.maxAttempts.Some? then p.maxAttempts.value else 8)
    && j.attempt == 0 && j.claimedBy == None && j.leaseUntil == None && !j.cancelRequested
  }

  ghost predicate Promoted(j: Job, j': Job, now: int) {
    if j.state in {Scheduled, FailedRetryable} && j.runAfter <= now then j' == j.(state := Queued) else j' == j
  }

  /** A job whose lease has run out is queued again while it has attempts left. */
  ghost predicate Unstuck(j: Job, j': Job, now: int) {
    if j.state == Running && j.leaseUntil.Some? && j.leaseUntil.value < now then
      j' == j.(state := if j.attempt < j.maxAttempts then Queued else FailedTerminal, claimedBy := None,
               leaseUntil := None)
    else j' == j
  }

  ghost predicate Claimed(j: Job, j': Job, worker: Worker, until: int) {
    && j.state == Queued
    && j' == j.(state := Running, claimedBy := Some(worker), leaseUntil := Some(until), attempt := j.attempt + 1)
  }

  ghost predicate AllPromoted(t: Table, t': Table, now: int) {
    t'.Keys == t.Keys && forall id | id in t :: Promoted(t[id], t'[id], now)
  }

  ghost predicate AllUnstuck(t: Table, t': Table, now: int) {
    t'.Keys == t.Keys && forall id | id in t :: Unstuck(t[id], t'[id], now)
  }

  ghost predicate AllClaimed(t: Table, t': Table, claimed: set<int>, worker: Worker, until: int) {
    && t'.Keys == t.Keys
    && forall id | id in t :: if id in claimed then Claimed(t[id], t'[id], worker, until) else t'[id] == t[id]
  }

  /** The rows that a statement has moved to a state. */
  ghost function Changed(t: Table, t': Table, state: JobState): set<int> {
    set id | id in t && id in t' && t'[id] != t[id] && t'[id].state == state
  }

  lemma PromoteMeans(t: Table, now: int)
    ensures AllPromoted(t, PromoteAll(t, now), now) && Changed(t, PromoteAll(t, now), Queued) == ReadyRows(t, now)
  {
    var t' := PromoteAll(t, now);
    forall id | id in t
      ensures id in Changed(t, t', Queued) <==> id in ReadyRows(t, now)
    {
      assert t'[id] == Promote(t[id], now);
    }
    assert Changed(t, t', Queued) <= t.Keys && ReadyRows(t, now) <= t.Keys;
  }

  lemma UnstickMeans(t: Table, now: int)
    ensures AllUnstuck(t, UnstickAll(t, now), now)
    ensures Changed(t, UnstickAll(t, now), Queued) == RequeueRows(t, now)
    ensures Changed(t, UnstickAll(t, now), FailedTerminal) == ExhaustedRows(t, now)
  {
    var t' := UnstickAll(t, now);
    forall id | id in t
      ensures id in Changed(t, t', Queued) <==> id in RequeueRows(t, now)
      ensures id in Changed(t, t', FailedTerminal) <==> id in ExhaustedRows(t, now)
    {
      assert t'[id] == Unstick(t[id], now);
    }
    assert Changed(t, t', Queued) <= t.Keys && Changed(t, t', FailedTerminal) <= t.Keys;
    assert RequeueRows(t, now) <= t.Keys && ExhaustedRows(t, now) <= t.Keys;
  }

  lemma ClaimMeans(t: Table, now: int, locked: set<int>, limit: nat, claimed: set<int>, worker: Worker, until: int)
    requires Picks(t, now, locked, limit, claimed)
    ensures FirstDue(t, now, locked, limit, claimed)
    ensures AllClaimed(t, ClaimAll(t, claimed, worker, until), claimed, worker, until)
  {
    PicksAreFirst(t, now, locked, limit, claimed);
  }

  ghost predicate IsDue(t: Table, now: int, locked: set<int>, id: int) {
    id in t && id !in locked && t[id].state == Queued && t[id].runAfter <= now
  }

  /** As many due and unlocked jobs as the limit allows: of higher priority, or else due earlier,
      or else enqueued earlier than those left. */
  ghost predicate FirstDue(t: Table, now: int, locked: set<int>, limit: nat, claimed: set<int>) {
    && (forall id | id in claimed :: IsDue(t, now, locked, id))
    && |claimed| <= limit
    && (forall b | IsDue(t, now, locked, b) && b !in claimed ::
          && |claimed| == limit
          && forall a | a in claimed ::
               || t[a].priority > t[b].priority
               || (t[a].priority == t[b].priority && t[a].runAfter < t[b].runAfter)
               || (t[a].priority == t[b].priority && t[a].runAfter == t[b].runAfter && a < b))
  }

  lemma PicksAreFirst(t: Table, now: int, locked: set<int>, limit: nat, claimed: set<int>)
    requires Picks(t, now, locked, limit, claimed)
    ensures FirstDue(t, now, locked, limit, claimed)
  {
    var eligible := Eligible(t, now, locked);
    forall b | IsDue(t, now, locked, b) && b !in claimed
      ensures |claimed| == limit
    {
      assert b in eligible && claimed <= eligible - {b};
      SubsetSize(claimed, eligible - {b});
    }
  }

  lemma SubsetSize(a: set<int>, b: set<int>)
    requires a <= b
    ensures |a| <= |b|
  {
    assert b == a + (b - a);
  }

  /** What a report makes of the row, by the worker's copy of its claim. */
  ghost predicate Finished(j: Job, j': Job, task: Task, outcome: Outcome, workerNow: int) {
    var again := outcome.Retryable? && task.attempt < task.maxAttempts;
    && j'.state == (if outcome.Success? then Succeeded
                    else if outcome.WasCancelled? then Cancelled
                    else if again then FailedRetryable
                    else FailedTerminal)
    && j'.claimedBy == None && j'.leaseUntil == None
    && (again ==> j'.runAfter == workerNow + if outcome.backoff > 1 then outcome.backoff else 1)
    && j' == j.(state := j'.state, claimedBy := None, leaseUntil := None,
                runAfter := if again then j'.runAfter else j.runAfter,
                cancelRequested := j.cancelRequested && !outcome.Success?)
  }

  class Store {
    var now: int
    var nextId: int
    var jobs: Table
    /** The table, the claims that workers work on and the history. */
    ghost var sys: System

    ghost predicate Valid()
      reads this
    {
      && sys.jobs == jobs && sys.now == now && Invariant(sys)
      && DedupeUnique(jobs) && forall id | id in jobs :: id < nextId
    }

    constructor (clock: int)
      ensures Valid() && jobs == map[] && now == clock
      ensures sys == System(clock, map[], {}, map[], map[], map[])
    {
      now, nextId, jobs := clock, 1, map[];
      sys := System(clock, map[], {}, map[], map[], map[]);
    }

    /** Makes a step of the protocol whose table is the one already stored. */
    ghost method Take(step: Step)
      requires Invariant(sys) && DedupeUnique(sys.jobs) && Enabled(sys, step)
      requires jobs == Apply(sys, step).jobs && now == Apply(sys, step).now
      requires forall id | id in jobs :: id < nextId
      modifies this`sys
      ensures Valid() && sys == Apply(old(sys), step)
    {
      StepKeepsInvariant(sys, step);
      DedupeStaysUnique(sys, step);
      sys := Apply(sys, step);
    }

    /** The clock of the database. */
    method PassTime(later: int)
      requires Valid() && later >= now
      modifies this`now, this`sys
      ensures Valid() && sys == Apply(old(sys), Tick(later))
    {
      now := later;
      Take(Tick(later));
    }

    /** A job with a known dedupe key is not inserted again. */
    method Enqueue(p: Enqueueing) returns (id: int)
      requires Valid()
      modifies this`jobs, this`nextId, this`sys
      ensures Valid() && id in jobs && sys == Apply(old(sys), Step.Enqueue(old(nextId), p))
      ensures Taken(old(jobs), p.dedupe) ==> jobs == old(jobs) && jobs[id].dedupe == p.dedupe
      ensures !Taken(old(jobs), p.dedupe) ==>
                && id !in old(jobs) && id == old(nextId)
                && OthersKept(old(jobs), jobs - {id}, id) && IsNew(jobs[id], p, now)
    {
      if p.dedupe.Some? {
        var same := set id | id in jobs && jobs[id].dedupe == p.dedupe;
        if same != {} {
          ghost var any := AnyOf(same);
          id :| id in same;
          assert Holds(jobs, id, p.dedupe.value);
          return;
        }
        assert forall id :: Holds(jobs, id, p.dedupe.value) ==> id in same;
      }
      id := nextId;
      jobs, nextId := jobs[id := NewJob(p, now)], nextId + 1;
      Take(Step.Enqueue(id, p));
    }

    /** A waiting job is cancelled at once and no longer claimed; a running one keeps its
        claimant and lease and is only asked to stop; a final one stays as it is. */
    method RequestCancel(id: int) returns (job: Option<Job>)
      requires Valid()
      modifies this`jobs, this`sys
      ensures Valid() && sys == Apply(old(sys), Step.RequestCancel(id))
      ensures job == (if id in jobs then Some(jobs[id]) else None) && OthersKept(old(jobs), jobs, id)
      ensures id in jobs && old(jobs)[id].state in {Queued, Scheduled, FailedRetryable} ==>
                jobs[id] == old(jobs)[id].(state := Cancelled)
      ensures id in jobs && old(jobs)[id].state == Running ==> jobs[id] == old(jobs)[id].(cancelRequested := true)
      ensures id in jobs && old(jobs)[id].state in {Succeeded, FailedTerminal, Cancelled} ==> jobs == old(jobs)
    {
      if id !in jobs {
        return None;
      }
      var row := jobs[id];
      if row.state == Queued || row.state == Scheduled || row.state == FailedRetryable {
        jobs := jobs[id := row.(state := Cancelled)];
      } else if row.state == Running {
        jobs := jobs[id := row.(cancelRequested := true)];
      }
      Take(Step.RequestCancel(id));
      return Some(jobs[id]);
    }

    /** A running job is never taken from its claimant; any other one waits again, without
        claimant or request to stop, and can be claimed at once exactly if `runAfter` has
        come. */
    method RetryJob(id: int, runAfter: int) returns (r: RetryResult)
      requires Valid()
      modifies this`jobs, this`sys
      ensures Valid() && sys == Apply(old(sys), Step.RetryJob(id, runAfter)) && OthersKept(old(jobs), jobs, id)
      ensures r.NotFound? <==> id !in jobs
      ensures r.RunningConflict? <==> id in jobs && old(jobs)[id].state == Running
      ensures !r.Updated? ==> jobs == old(jobs)
      ensures r.Updated? ==>
                && r.job == jobs[id] && r.job.state == (if runAfter <= now then Queued else Scheduled)
                && r.job == old(jobs)[id].(
                  state := r.job.state, runAfter := runAfter, claimedBy := None, leaseUntil := None,
                  cancelRequested := false)
    {
      if id !in jobs {
        return NotFound;
      }
      var row := jobs[id];
      if row.state == Running {
        return RunningConflict;
      }
      jobs := jobs[id := row.(
        state := if runAfter > now then Scheduled else Queued, runAfter := runAfter, claimedBy := None,
        leaseUntil := None, cancelRequested := false)];
      Take(Step.RetryJob(id, runAfter));
      return Updated(jobs[id]);
    }

    method PromoteReadyJobs() returns (promoted: nat)
      requires Valid()
      modifies this`jobs, this`sys
      ensures Valid() && sys == Apply(old(sys), PromoteReady)
      ensures AllPromoted(old(jobs), jobs, now) && promoted == |Changed(old(jobs), jobs, Queued)|
    {
      PromoteMeans(jobs, now);
      var ready := ReadyRows(jobs, now);
      jobs := map id | id in jobs :: if id in ready then jobs[id].(state := Queued) else jobs[id];
      forall id | id in jobs
        ensures jobs[id] == PromoteAll(sys.jobs, now)[id]
      {
      }
      Take(PromoteReady);
      return |ready|;
    }

    /** The second statement sees the table that the first one left; together they treat
        every expired lease once. */
    method RequeueStuckJobs() returns (requeued: nat, terminal: nat)
      requires Valid()
      modifies this`jobs, this`sys
      ensures Valid() && sys == Apply(old(sys), RequeueStuck)
      ensures AllUnstuck(old(jobs), jobs, now)
      ensures requeued == |Changed(old(jobs), jobs, Queued)| && terminal == |Changed(old(jobs), jobs, FailedTerminal)|
    {
      hide AllUnstuck, Changed;
      UnstickMeans(jobs, now);
      ghost var before := jobs;
      var again := RequeueRows(jobs, now);
      jobs := map id | id in jobs ::
        if id in again then jobs[id].(state := Queued, claimedBy := None, leaseUntil := None) else jobs[id];
      var over := ExhaustedRows(jobs, now);
      assert over == ExhaustedRows(before, now);
      jobs := map id | id in jobs ::
        if id in over then jobs[id].(state := FailedTerminal, claimedBy := None, leaseUntil := None) else jobs[id];
      forall id | id in jobs
        ensures jobs[id] == UnstickAll(before, now)[id]
      {
      }
      Take(RequeueStuck);
      return |again|, |over|;
    }

    method ClaimJobs(limit: nat, worker: Worker, leaseMs: int, locked: set<int>) returns (claimed: set<int>)
      requires Valid()
      modifies this`jobs, this`sys
      ensures Valid() && Picks(old(jobs), now, locked, limit, claimed)
      ensures sys == Apply(old(sys), Step.ClaimJobs(worker, limit, leaseMs, locked, claimed))
      ensures FirstDue(old(jobs), now, locked, limit, claimed)
      ensures AllClaimed(old(jobs), jobs, claimed, worker, now + leaseMs)
    {
      hide AllClaimed, FirstDue, TakesFirst, ClaimAll, Eligible;
      var eligible := Eligible(jobs, now, locked);
      claimed := PickFirst(jobs, eligible, limit);
      ClaimMeans(jobs, now, locked, limit, claimed, worker, now + leaseMs);
      jobs := ClaimAll(jobs, claimed, worker, now + leaseMs);
      Take(Step.ClaimJobs(worker, limit, leaseMs, locked, claimed));
    }

    method Heartbeat(id: int, worker: Worker, leaseMs: int) returns (alive: bool)
      requires Valid()
      modifies this`jobs, this`sys
      ensures Valid() && sys == Apply(old(sys), Step.Heartbeat(id, worker, leaseMs))
      ensures alive <==> id in old(jobs) && old(jobs)[id].state == Running && old(jobs)[id].claimedBy == Some(worker)
      ensures alive ==> id in jobs && jobs[id] == old(jobs)[id].(leaseUntil := Some(now + leaseMs))
      ensures OthersKept(old(jobs), jobs, id) && (!alive ==> jobs == old(jobs))
    {
      alive := id in jobs && jobs[id].state == Running && jobs[id].claimedBy == Some(worker);
      if alive {
        jobs := jobs[id := jobs[id].(leaseUntil := Some(now + leaseMs))];
      }
      Take(Step.Heartbeat(id, worker, leaseMs));
    }

    // ---- finishing, by row id alone ----

    method SetFinished(id: int, state: JobState, runAfter: int)
      modifies this`jobs
      ensures jobs == if id in old(jobs) then Put(old(jobs), id, Finish(old(jobs)[id], state, runAfter)) else old(jobs)
    {
      if id in jobs {
        jobs := jobs[id := Finish(jobs[id], state, runAfter)];
      }
    }

    method FinalizeRow(task: Task, outcome: Outcome, workerNow: int)
      requires task.jobId in jobs
      modifies this`jobs
      ensures jobs
              == Put(old(jobs), task.jobId, Finalize(old(jobs)[task.jobId], task, outcome, workerNow))
    {
      match outcome
      case Success => SetFinished(task.jobId, Succeeded, 0);
      case WasCancelled => SetFinished(task.jobId, Cancelled, 0);
      case Terminal => SetFinished(task.jobId, FailedTerminal, 0);
      case Retryable(backoff) =>
        if task.attempt >= task.maxAttempts {
          SetFinished(task.jobId, FailedTerminal, 0);
        } else {
          var wait := if backoff > 1 then backoff else 1;
          SetFinished(task.jobId, FailedRetryable, workerNow + wait);
        }
    }

    /** `finalize_job`: only the worker's own copy of a claim that it got is consulted. */
    method FinalizeJob(task: Task, outcome: Outcome, workerNow: int)
      requires Valid() && task in sys.tasks
      modifies this`jobs, this`sys
      ensures Valid() && sys == Apply(old(sys), FinishTask(task, outcome, workerNow))
      ensures OthersKept(old(jobs), jobs, task.jobId) && task.jobId in jobs
      ensures Finished(old(jobs)[task.jobId], jobs[task.jobId], task, outcome, workerNow)
    {
      assert TaskOk(jobs, task);
      FinalizeLeaves(jobs, task, outcome, workerNow);
      FinalizeRow(task, outcome, workerNow);
      Take(FinishTask(task, outcome, workerNow));
    }
  }

  lemma FinalizeLeaves(t: Table, task: Task, outcome: Outcome, workerNow: int)
    requires task.jobId in t
    ensures var t' := Put(t, task.jobId, Finalize(t[task.jobId], task, outcome, workerNow));
            && OthersKept(t, t', task.jobId)
            && Finished(t[task.jobId], t'[task.jobId], task, outcome, workerNow)
  {
  }

  /** Takes the first `limit` rows in claiming order. */
  method PickFirst(t: Table, eligible: set<int>, limit: nat) returns (picked: set<int>)
    requires eligible <= t.Keys
    ensures TakesFirst(t, eligible, limit, picked)
  {
    picked := {};
    var rest := eligible;
    while rest != {} && |picked| < limit
      invariant picked !! rest && picked + rest == eligible
      invariant |picked| <= limit
      invariant forall a, b | a in picked && b in rest :: ClaimedBefore(t, a, b)
      decreases rest
    {
      var first := FirstInLine(t, rest);
      picked, rest := picked + {first}, rest - {first};
    }
    assert |eligible| == |picked| + |rest|;
    assert rest == {} || |picked| == limit;
  }
}
