/** The job table and the statements that change it, `JobStore`. */
module Jobs {
  import opened Wrappers

  datatype JobState = Scheduled | Queued | Running | Succeeded | FailedRetryable | FailedTerminal | Cancelled

  datatype Worker = Worker(name: string)

  datatype DedupeKey = DedupeKey(jobType: string, scope: string, key: string)

  datatype Job = Job(
    state: JobState, priority: int, runAfter: int, claimedBy: Option<Worker>, leaseUntil: Option<int>,
    attempt: nat, maxAttempts: int, cancelRequested: bool, dedupe: Option<DedupeKey>)

  type Table = map<int, Job>

  /** A change of one row; other rows stay. */
  function Put(t: Table, id: int, j: Job): Table {
    if id in t then t[id := j] else t
  }

  // ---- enqueueing ----

  datatype Enqueueing = Enqueueing(priority: int, runAfter: int, maxAttempts: Option<int>, dedupe: Option<DedupeKey>)

  function NewJob(p: Enqueueing, now: int): Job {
    Job(if p.runAfter > now then Scheduled else Queued, p.priority, p.runAfter, None, None,
        0, p.maxAttempts.GetOr(8), false, p.dedupe)
  }

  ghost predicate Holds(t: Table, id: int, key: DedupeKey) {
    id in t && t[id].dedupe == Some(key)
  }

  ghost predicate Taken(t: Table, key: Option<DedupeKey>) {
    key.Some? && exists id :: Holds(t, id, key.value)
  }

  /** The unique constraint on dedupe keys. */
  ghost predicate DedupeUnique(t: Table) {
    forall i, j | i in t && j in t && t[i].dedupe.Some? && t[i].dedupe == t[j].dedupe :: i == j
  }

  // ---- admin ----

  function Cancel(j: Job): Job {
    if j.state == Queued || j.state == Scheduled || j.state == FailedRetryable then j.(state := Cancelled)
    else if j.state == Running then j.(cancelRequested := true)
    else j
  }

  function Retry(j: Job, runAfter: int, now: int): Job {
    j.(state := if runAfter > now then Scheduled else Queued, runAfter := runAfter, claimedBy := None,
       leaseUntil := None, cancelRequested := false)
  }

  // ---- sweeps ----

  function Promote(j: Job, now: int): Job {
    if (j.state == Scheduled || j.state == FailedRetryable) && j.runAfter <= now then j.(state := Queued) else j
  }

  predicate Expired(j: Job, now: int) {
    j.state == Running && j.leaseUntil.Some? && j.leaseUntil.value < now
  }

  /** What `requeue_stuck_jobs` makes of a row with its two statements. */
  function Unstick(j: Job, now: int): Job {
    if !Expired(j, now) then j
    else if j.attempt < j.maxAttempts then j.(state := Queued, claimedBy := None, leaseUntil := None)
    else j.(state := FailedTerminal, claimedBy := None, leaseUntil := None)
  }

  /** The rows that the statements of the sweeps select. */
  function ReadyRows(t: Table, now: int): set<int> {
    set id | id in t && (t[id].state == Scheduled || t[id].state == FailedRetryable) && t[id].runAfter <= now
  }

  function RequeueRows(t: Table, now: int): set<int> {
    set id | id in t && Expired(t[id], now) && t[id].attempt < t[id].maxAttempts
  }

  function ExhaustedRows(t: Table, now: int): set<int> {
    set id | id in t && Expired(t[id], now) && t[id].attempt >= t[id].maxAttempts
  }

  function PromoteAll(t: Table, now: int): Table {
    map id | id in t :: Promote(t[id], now)
  }

  function UnstickAll(t: Table, now: int): Table {
    map id | id in t :: Unstick(t[id], now)
  }

  // ---- claiming ----

  predicate Due(j: Job, now: int) {
    j.state == Queued && j.runAfter <= now
  }

  /** Rows that are due and that no other statement has locked. */
  function Eligible(t: Table, now: int, locked: set<int>): (rows: set<int>)
    ensures rows <= t.Keys
  {
    set id | id in t && id !in locked && Due(t[id], now)
  }

  /** `ORDER BY priority DESC, run_after ASC, id ASC` */
  predicate ClaimedBefore(t: Table, a: int, b: int)
    requires a in t && b in t
  {
    if t[a].priority != t[b].priority then t[a].priority > t[b].priority
    else if t[a].runAfter != t[b].runAfter then t[a].runAfter < t[b].runAfter
    else a <= b
  }

  /** The first `limit` rows of `ids` in claiming order. */
  ghost predicate TakesFirst(t: Table, ids: set<int>, limit: nat, picked: set<int>)
    requires ids <= t.Keys
  {
    && picked <= ids && |picked| == (if |ids| < limit then |ids| else limit)
    && forall a, b | a in picked && b in ids && b !in picked :: ClaimedBefore(t, a, b)
  }

  ghost predicate Picks(t: Table, now: int, locked: set<int>, limit: nat, picked: set<int>) {
    TakesFirst(t, Eligible(t, now, locked), limit, picked)
  }

  function Claim(j: Job, worker: Worker, leaseUntil: int): Job {
    j.(state := Running, claimedBy := Some(worker), leaseUntil := Some(leaseUntil), attempt := j.attempt + 1)
  }

  function ClaimAll(t: Table, picked: set<int>, worker: Worker, leaseUntil: int): Table {
    map id | id in t :: if id in picked then Claim(t[id], worker, leaseUntil) else t[id]
  }

  predicate HeldBy(j: Job, worker: Worker) {
    j.state == Running && j.claimedBy == Some(worker)
  }

  function Extend(j: Job, leaseUntil: int): Job {
    j.(leaseUntil := Some(leaseUntil))
  }

  // ---- finishing ----

  datatype Outcome = Success | WasCancelled | Terminal | Retryable(backoff: int)

  /** The row of a claim as its worker keeps it. */
  datatype Task = Task(jobId: int, worker: Worker, attempt: nat, maxAttempts: int)

  /** What the finalising statements do; they match on the row id alone. */
  function Finish(j: Job, state: JobState, runAfter: int): Job {
    var done := j.(state := state, claimedBy := None, leaseUntil := None);
    match state
    case Succeeded => done.(cancelRequested := false)
    case FailedRetryable => done.(runAfter := runAfter)
    case _ => done
  }

  /** `finalize_job` and `finalize_job_without_attempt` decide by the worker's copy. */
  function FinalState(task: Task, o: Outcome): JobState {
    match o
    case Success => Succeeded
    case WasCancelled => Cancelled
    case Terminal => FailedTerminal
    case Retryable(_) => if task.attempt >= task.maxAttempts then FailedTerminal else FailedRetryable
  }

  function Finalize(j: Job, task: Task, o: Outcome, workerNow: int): Job {
    var backoff := if o.Retryable? && o.backoff > 1 then o.backoff else 1;
    Finish(j, FinalState(task, o), workerNow + backoff)
  }

  // ---- backoff ----

  const U64_MAX: nat := 0xFFFF_FFFF_FFFF_FFFF

  const I64_MAX: nat := 0x7FFF_FFFF_FFFF_FFFF

  function Min(a: nat, b: nat): nat {
    if a < b then a else b
  }

  function Power2(e: nat): nat {
    if e == 0 then 1 else 2 * Power2(e - 1)
  }

  function SaturatingPower2(e: nat): nat {
    Min(Power2(e), U64_MAX)
  }

  function SaturatingMul(a: nat, b: nat): nat {
    Min(a * b, U64_MAX)
  }

  function Exponent(attempt: int): nat {
    if attempt < 1 then 0 else attempt - 1
  }

  /** `compute_backoff`, with the saturating arithmetic of 64 bits. */
  function ComputeBackoff(baseMs: nat, maxMs: nat, attempt: int): nat {
    Min(Min(SaturatingMul(baseMs, SaturatingPower2(Exponent(attempt))), maxMs), I64_MAX)
  }

  lemma ScalesUp(base: nat, a: nat)
    requires base >= 1
    ensures base * a >= a
  {
  }

  /** Saturation never shows: the result is that of exact arithmetic, cut off at the limits. */
  lemma BackoffIsExact(baseMs: nat, maxMs: nat, attempt: int)
    ensures ComputeBackoff(baseMs, maxMs, attempt)
            == Min(Min(baseMs * Power2(Exponent(attempt)), maxMs), I64_MAX)
  {
    var p := Power2(Exponent(attempt));
    if p > U64_MAX && baseMs >= 1 {
      ScalesUp(baseMs, p);
      ScalesUp(baseMs, U64_MAX);
    }
  }

  lemma {:induction false} PowerGrows(a: nat, b: nat)
    requires a <= b
    ensures 1 <= Power2(a) <= Power2(b)
    decreases b
  {
    if b > 0 {
      PowerGrows(if a == b then a - 1 else a, b - 1);
    }
  }

  lemma MulGrows(base: nat, a: nat, b: nat)
    requires a <= b
    ensures base * a <= base * b
  {
  }

  /** Later attempts never wait less. */
  lemma BackoffGrows(baseMs: nat, maxMs: nat, a: int, b: int)
    requires a <= b
    ensures ComputeBackoff(baseMs, maxMs, a) <= ComputeBackoff(baseMs, maxMs, b) <= maxMs
  {
    BackoffIsExact(baseMs, maxMs, a);
    BackoffIsExact(baseMs, maxMs, b);
    PowerGrows(Exponent(a), Exponent(b));
    MulGrows(baseMs, Power2(Exponent(a)), Power2(Exponent(b)));
  }

  lemma ProductDoubles(base: nat, attempt: int)
    requires attempt > 1
    ensures base * Power2(Exponent(attempt)) == 2 * (base * Power2(Exponent(attempt - 1)))
  {
    var p := Power2(Exponent(attempt - 1));
    assert Power2(Exponent(attempt)) == 2 * p;
    assert base * (2 * p) == 2 * (base * p);
  }

  /** The first attempt waits for the base, and every later one twice as long as the one
      before, up to the limit and to what 64 bits hold. */
  lemma BackoffDoubles(baseMs: nat, maxMs: nat, attempt: int)
    ensures var limit := if maxMs < 0x7FFF_FFFF_FFFF_FFFF then maxMs else 0x7FFF_FFFF_FFFF_FFFF;
            var wait := ComputeBackoff(baseMs, maxMs, attempt);
            if attempt <= 1 then wait == if baseMs < limit then baseMs else limit
            else
              var twice := 2 * ComputeBackoff(baseMs, maxMs, attempt - 1);
              wait == if twice < limit then twice else limit
  {
    BackoffIsExact(baseMs, maxMs, attempt);
    if attempt > 1 {
      hide ComputeBackoff, Power2, Exponent;
      BackoffIsExact(baseMs, maxMs, attempt - 1);
      ProductDoubles(baseMs, attempt);
    } else {
      assert Power2(Exponent(attempt)) == 1;
    }
  }
}
