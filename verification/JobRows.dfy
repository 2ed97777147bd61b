/**
 The rows of `jobs` (migration 0003) and the statements that `job_queue.py` runs on them, each as
 a function of the table. The table is one user's: the policies of 0032 hide the others' rows.
 */
module JobRows {
  import opened Options

  /** A job's UUID, and a worker's host, pid and random suffix. */
  type JobId = string
  type WorkerId = string

  datatype Status = Pending | Running | Succeeded | Failed | Cancelled

  datatype Job = Job(
    jobType: string,
    dedupeKey: Option<string>,
    status: Status,
    priority: int,
    attempts: nat,
    maxAttempts: int,
    runAfter: int,
    lockedBy: Option<WorkerId>,
    lockedAt: Option<int>,
    leaseExpiresAt: Option<int>,
    lastError: Option<string>,
    completedAt: Option<int>)

  type Jobs = map<JobId, Job>

  datatype Spec = Spec(
    jobType: string,
    dedupeKey: Option<string>,
    priority: int,
    maxAttempts: int,
    runAfter: Option<int>)

  /** What `JobSpec.__post_init__` lets exist. */
  type JobSpec = s: Spec | s.maxAttempts >= 1 && s.dedupeKey != Some("") witness Spec("noop", None, 0, 5, None)

  /** The CHECK constraints of 0003. */
  predicate RowChecks(j: Job) {
    && j.maxAttempts >= 1
    && (j.status == Running ==> j.lockedBy.Some? && j.leaseExpiresAt.Some?)
  }

  predicate InFlight(j: Job) {
    j.status == Pending || j.status == Running
  }

  predicate Settled(j: Job) {
    !InFlight(j)
  }

  /** Two rows that the partial unique index `uq_jobs_dedupe` does not let stand together. */
  predicate Clash(j: Job, k: Job) {
    InFlight(j) && InFlight(k) && j.dedupeKey.Some? && j.dedupeKey == k.dedupeKey && j.jobType == k.jobType
  }

  predicate Deduped(jobs: Jobs) {
    forall i, j :: i in jobs && j in jobs && i != j ==> !Clash(jobs[i], jobs[j])
  }

  // ---------------------------------------------------------------------------------------
  // Statements
  // ---------------------------------------------------------------------------------------

  function NewRow(spec: JobSpec, now: int): Job {
    Job(spec.jobType, spec.dedupeKey, Pending, spec.priority, 0, spec.maxAttempts,
        if spec.runAfter.Some? then spec.runAfter.value else now, None, None, None, None, None)
  }

  predicate IsRefused(jobs: Jobs, spec: JobSpec, now: int) {
    exists i :: i in jobs && Clash(jobs[i], NewRow(spec, now))
  }

  /** INSERT .. ON CONFLICT DO NOTHING. */
  function Enqueued(jobs: Jobs, id: JobId, spec: JobSpec, now: int): Jobs {
    if IsRefused(jobs, spec, now) then jobs else jobs[id := NewRow(spec, now)]
  }

  predicate IsReady(j: Job, now: int, only: Option<set<string>>) {
    j.status == Pending && j.runAfter <= now && (only.Some? ==> j.jobType in only.value)
  }

  /** `ORDER BY priority DESC, run_after`: `j` may come first when `k` could have. */
  predicate NoLater(j: Job, k: Job) {
    j.priority > k.priority || (j.priority == k.priority && j.runAfter <= k.runAfter)
  }

  function Ready(jobs: Jobs, now: int, only: Option<set<string>>, locked: set<JobId>): set<JobId> {
    set i | i in jobs && i !in locked && IsReady(jobs[i], now, only)
  }

  /** What the locked SELECT of `claim` may return, stepping over the rows that others have locked. */
  predicate Selects(jobs: Jobs, now: int, only: Option<set<string>>, locked: set<JobId>, pick: Option<JobId>) {
    var ready := Ready(jobs, now, only, locked);
    match pick
    case None => ready == {}
    case Some(id) => id in ready && forall k :: k in ready ==> NoLater(jobs[id], jobs[k])
  }

  function Claimed(j: Job, worker: WorkerId, now: int, lease: int): Job {
    j.(status := Running, lockedBy := Some(worker), lockedAt := Some(now),
       leaseExpiresAt := Some(now + lease), attempts := j.attempts + 1)
  }

  /** The fencing predicate that every mutating call carries. */
  predicate OwnedBy(jobs: Jobs, id: JobId, worker: WorkerId) {
    id in jobs && jobs[id].status == Running && jobs[id].lockedBy == Some(worker)
  }

  function Released(j: Job): Job {
    j.(lockedBy := None, lockedAt := None, leaseExpiresAt := None)
  }

  /** The four calls a worker makes on a job it holds. */
  datatype Call =
    | Heartbeat(lease: int)
    | Complete
    | Reschedule(runAfter: int, error: string)
    | DeadLetter(error: string)

  function Applied(j: Job, call: Call, now: int): Job {
    match call
    case Heartbeat(lease) => j.(leaseExpiresAt := Some(now + lease))
    case Complete => Released(j).(status := Succeeded, completedAt := Some(now))
    case Reschedule(runAfter, error) => Released(j).(status := Pending, runAfter := runAfter, lastError := Some(error))
    case DeadLetter(error) => Released(j).(status := Failed, lastError := Some(error), completedAt := Some(now))
  }

  /** `_fenced_update`: a call by a worker that does not hold the job finds no row. */
  function Fenced(jobs: Jobs, id: JobId, worker: WorkerId, call: Call, now: int): Jobs {
    if OwnedBy(jobs, id, worker) then jobs[id := Applied(jobs[id], call, now)] else jobs
  }

  predicate IsExpired(j: Job, now: int) {
    j.status == Running && j.leaseExpiresAt.Some? && j.leaseExpiresAt.value < now
  }

  function Expired(jobs: Jobs, now: int): set<JobId> {
    set i | i in jobs && IsExpired(jobs[i], now)
  }

  predicate ExpiresNoLater(j: Job, k: Job) {
    j.leaseExpiresAt.Some? && k.leaseExpiresAt.Some? && j.leaseExpiresAt.value <= k.leaseExpiresAt.value
  }

  /** What `reclaim_expired` may read first: at most `limit` expired rows, the longest expired ones. */
  predicate Sweeps(jobs: Jobs, now: int, limit: nat, ids: set<JobId>) {
    && ids <= Expired(jobs, now) && |ids| <= limit
    && (|ids| < limit ==> ids == Expired(jobs, now))
    && (forall i, k :: i in ids && k in Expired(jobs, now) - ids ==> ExpiresNoLater(jobs[i], jobs[k]))
  }

  function Reclaimed(j: Job, now: int): Job {
    var exhausted := j.attempts >= j.maxAttempts;
    Released(j).(status := if exhausted then Failed else Pending,
                 lastError := if j.lastError.Some? then j.lastError else Some("lease expired"),
                 completedAt := if exhausted then Some(now) else None)
  }

  function Swept(jobs: Jobs, ids: set<JobId>, now: int): Jobs {
    map i | i in jobs :: if i in ids then Reclaimed(jobs[i], now) else jobs[i]
  }

  // ---------------------------------------------------------------------------------------
  // Dedupe
  // ---------------------------------------------------------------------------------------

  /** A job keeps its type and key, and is never in flight again once it settled. */
  predicate KeepsClaimOn(j: Job, j': Job) {
    j'.jobType == j.jobType && j'.dedupeKey == j.dedupeKey && (InFlight(j') ==> InFlight(j))
  }

  /** No change of existing rows that keeps their claims can be refused by the index. */
  lemma ChangesAreNotRefused(jobs: Jobs, jobs': Jobs)
    requires Deduped(jobs) && jobs'.Keys == jobs.Keys
    requires forall i :: i in jobs ==> KeepsClaimOn(jobs[i], jobs'[i])
    ensures Deduped(jobs')
  {
    forall i, j | i in jobs' && j in jobs' && i != j ensures !Clash(jobs'[i], jobs'[j]) {
      assert KeepsClaimOn(jobs[i], jobs'[i]) && KeepsClaimOn(jobs[j], jobs'[j]) && !Clash(jobs[i], jobs[j]);
    }
  }

  /** The index refuses an enqueue exactly when accepting it would put two such rows side by side. */
  lemma EnqueueIsRefusedIff(jobs: Jobs, id: JobId, spec: JobSpec, now: int)
    requires Deduped(jobs) && id !in jobs
    ensures Deduped(Enqueued(jobs, id, spec, now))
    ensures IsRefused(jobs, spec, now) <==> !Deduped(jobs[id := NewRow(spec, now)])
  {
    var inserted := jobs[id := NewRow(spec, now)];
    if IsRefused(jobs, spec, now) {
      var i :| i in jobs && Clash(jobs[i], NewRow(spec, now));
      assert i in inserted && Clash(inserted[i], inserted[id]);
    } else {
      forall i, j | i in inserted && j in inserted && i != j ensures !Clash(inserted[i], inserted[j]) {
        if i == id {
          assert !Clash(jobs[j], NewRow(spec, now));
        } else if j == id {
          assert !Clash(jobs[i], NewRow(spec, now));
        } else {
          assert !Clash(jobs[i], jobs[j]);
        }
      }
    }
  }
}
