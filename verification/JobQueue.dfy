/**
 `PostgresJobQueue`: each method is one transaction on the table, proved to be the statement of
 `JobRows` that the protocol is made of.
 */
module JobQueue {
  import opened Options
  import opened JobRows
  import opened JobProtocol
  import opened JobEffects

  class PostgresJobQueue {
    var jobs: Jobs

    constructor ()
      ensures jobs == map[]
    {
      jobs := map[];
    }

    /** `enqueue`. None when a job with the same type and key is already pending or running. */
    method Enqueue(id: JobId, spec: JobSpec, now: int) returns (r: Option<JobId>)
      requires id !in jobs
      modifies this
      ensures jobs == Enqueued(old(jobs), id, spec, now)
      ensures r == if IsRefused(old(jobs), spec, now) then None else Some(id)
      ensures r == if IsInFlight(old(jobs), spec) then None else Some(id)
      ensures r.Some? ==> jobs == old(jobs)[id := FreshRow(spec, now)]
    {
      EnqueuedIff(jobs, id, spec, now);
      var row := Job(spec.jobType, spec.dedupeKey, Pending, spec.priority, 0, spec.maxAttempts, now, None, None, None,
        None, None);
      if spec.runAfter.Some? {
        row := row.(runAfter := spec.runAfter.value);
      }
      var todo := jobs.Keys;
      while todo != {}
        invariant todo <= jobs.Keys && row == NewRow(spec, now)
        invariant forall i :: i in jobs && i !in todo ==> !Clash(jobs[i], row)
        decreases |todo|
      {
        var i :| i in todo;
        if Clash(jobs[i], row) {
          return None;
        }
        todo := todo - {i};
      }
      jobs := jobs[id := row];
      r := Some(id);
    }

    /** The locked SELECT: one pass that keeps the row to come first. */
    method SelectCandidate(now: int, only: Option<set<string>>, locked: set<JobId>) returns (pick: Option<JobId>)
      ensures Selects(jobs, now, only, locked, pick)
      ensures pick.Some? ==> pick.value in jobs && pick.value !in locked && CouldBeTaken(jobs[pick.value], now, only)
      ensures forall k :: k in jobs && k !in locked && CouldBeTaken(jobs[k], now, only) ==>
                pick.Some? && jobs[k].priority <= jobs[pick.value].priority
                && (jobs[k].priority == jobs[pick.value].priority ==> jobs[pick.value].runAfter <= jobs[k].runAfter)
    {
      pick := None;
      var todo := Ready(jobs, now, only, locked);
      while todo != {}
        invariant todo <= Ready(jobs, now, only, locked)
        invariant pick.None? ==> todo == Ready(jobs, now, only, locked)
        invariant pick.Some? ==> pick.value in Ready(jobs, now, only, locked)
        invariant pick.Some? ==>
                    forall k :: k in Ready(jobs, now, only, locked) && k !in todo ==> NoLater(jobs[pick.value], jobs[k])
        decreases |todo|
      {
        var i :| i in todo;
        if pick.None? || !NoLater(jobs[pick.value], jobs[i]) {
          pick := Some(i);
        }
        todo := todo - {i};
      }
      SelectsIff(jobs, now, only, locked, pick);
    }

    /** `claim`, stepping over what other transactions have locked. */
    method Claim(worker: WorkerId, lease: int, now: int, only: Option<set<string>>, locked: set<JobId>)
      returns (r: Option<(JobId, Job)>)
      modifies this
      ensures Selects(old(jobs), now, only, locked, if r.Some? then Some(r.value.0) else None)
      ensures r.None? ==> jobs == old(jobs)
      ensures r.Some? ==> r.value.0 !in locked && jobs == old(jobs)[r.value.0 := r.value.1]
      ensures r.Some? ==> r.value.1 == Claimed(old(jobs)[r.value.0], worker, now, lease)
      ensures r.Some? ==>
                var j := old(jobs)[r.value.0];
                && CouldBeTaken(j, now, only)
                && r.value.1 == j.(status := Running, lockedBy := Some(worker), lockedAt := Some(now),
                                   leaseExpiresAt := Some(now + lease), attempts := j.attempts + 1)
      ensures forall k :: k in old(jobs) && k !in locked && CouldBeTaken(old(jobs)[k], now, only) ==>
                && r.Some? && old(jobs)[k].priority <= old(jobs)[r.value.0].priority
                && (old(jobs)[k].priority == old(jobs)[r.value.0].priority ==>
                      old(jobs)[r.value.0].runAfter <= old(jobs)[k].runAfter)
    {
      var pick := SelectCandidate(now, only, locked);
      if pick.None? {
        return None;
      }
      var row := jobs[pick.value];
      row := row.(status := Running, lockedBy := Some(worker), lockedAt := Some(now),
                  leaseExpiresAt := Some(now + lease), attempts := row.attempts + 1);
      jobs := jobs[pick.value := row];
      r := Some((pick.value, row));
    }

    /** `_fenced_update`. False, and no change, for a worker that does not hold the job. */
    method FencedUpdate(id: JobId, worker: WorkerId, call: Call, now: int) returns (ok: bool)
      modifies this
      ensures jobs == Fenced(old(jobs), id, worker, call, now)
      ensures ok <==> OwnedBy(old(jobs), id, worker)
      ensures !ok ==> jobs == old(jobs)
      ensures ok ==> id in old(jobs) && jobs.Keys == old(jobs).Keys && jobs == old(jobs)[id := jobs[id]]
      ensures ok ==>
                var j := old(jobs)[id];
                var free := j.(lockedBy := None, lockedAt := None, leaseExpiresAt := None);
                jobs[id] == match call
                            case Heartbeat(lease) => j.(leaseExpiresAt := Some(now + lease))
                            case Complete => free.(status := Succeeded, completedAt := Some(now))
                            case Reschedule(runAfter, error) =>
                              free.(status := Pending, runAfter := runAfter, lastError := Some(error))
                            case DeadLetter(error) =>
                              free.(status := Failed, lastError := Some(error), completedAt := Some(now))
    {
      ok := id in jobs && jobs[id].lockedBy == Some(worker) && jobs[id].status == Running;
      if ok {
        var row := jobs[id];
        match call {
          case Heartbeat(lease) =>
            row := row.(leaseExpiresAt := Some(now + lease));
          case Complete =>
            row := row.(status := Succeeded, lockedBy := None, lockedAt := None, leaseExpiresAt := None,
                        completedAt := Some(now));
          case Reschedule(runAfter, error) =>
            row := row.(status := Pending, runAfter := runAfter, lockedBy := None, lockedAt := None,
                        leaseExpiresAt := None, lastError := Some(error));
          case DeadLetter(error) =>
            row := row.(status := Failed, lockedBy := None, lockedAt := None, leaseExpiresAt := None,
                        lastError := Some(error), completedAt := Some(now));
        }
        jobs := jobs[id := row];
      }
    }

    /** The worker's `_retry_or_dead_letter`, on the copy of the job that its claim returned. */
    method RetryOrDeadLetter(id: JobId, worker: WorkerId, copy: Job, error: string, runAfter: int, now: int)
      returns (ok: bool)
      modifies this
      ensures jobs == Fenced(old(jobs), id, worker,
                             AfterFailure(Working(id, copy.attempts, copy.maxAttempts, false), error, runAfter), now)
      ensures ok <==> OwnedBy(old(jobs), id, worker)
      ensures ok ==> id in jobs && jobs[id].lockedBy.None? && jobs[id].lastError == Some(error)
      ensures ok ==> jobs[id].status == if copy.attempts < copy.maxAttempts then Pending else Failed
      ensures ok && copy.attempts < copy.maxAttempts ==> jobs[id].runAfter == runAfter
    {
      if copy.attempts >= copy.maxAttempts {
        ok := FencedUpdate(id, worker, DeadLetter(error), now);
      } else {
        ok := FencedUpdate(id, worker, Reschedule(runAfter, error), now);
      }
    }

    /** The row to sweep next: the longest expired of those not read yet. */
    method NextExpired(now: int, among: set<JobId>) returns (id: JobId)
      requires among != {} && among <= Expired(jobs, now)
      ensures id in among && forall k :: k in among ==> ExpiresNoLater(jobs[id], jobs[k])
    {
      id :| id in among;
      var todo := among - {id};
      while todo != {}
        invariant todo <= among && id in among
        invariant forall k :: k in among - todo ==> ExpiresNoLater(jobs[id], jobs[k])
        decreases |todo|
      {
        var i :| i in todo;
        if !ExpiresNoLater(jobs[id], jobs[i]) {
          id := i;
        }
        todo := todo - {i};
      }
    }

    /** The first statement of `reclaim_expired`: at most `limit` ids, the longest expired first. */
    method ReadExpired(now: int, limit: nat) returns (ids: set<JobId>)
      ensures Sweeps(jobs, now, limit, ids)
    {
      ids := {};
      var left := Expired(jobs, now);
      while left != {} && |ids| < limit
        invariant ids <= Expired(jobs, now) && left == Expired(jobs, now) - ids && |ids| <= limit
        invariant forall i, k :: i in ids && k in left ==> ExpiresNoLater(jobs[i], jobs[k])
        decreases |left|
      {
        var next := NextExpired(now, left);
        ids, left := ids + {next}, left - {next};
      }
      assert left == {} ==> ids == Expired(jobs, now);
    }

    /** `reclaim_expired`: the second statement updates exactly the rows that the first one read. */
    method ReclaimExpired(now: int, limit: nat) returns (count: nat, ids: set<JobId>)
      modifies this
      ensures Sweeps(old(jobs), now, limit, ids) && count == |ids|
      ensures jobs == Swept(old(jobs), ids, now)
      ensures AreLongestLapsed(old(jobs), now, limit, ids)
      ensures jobs == map i | i in old(jobs) :: if i in ids then TakenBack(old(jobs)[i], now) else old(jobs)[i]
    {
      ids := ReadExpired(now, limit);
      var rows, todo := jobs, ids;
      while todo != {}
        invariant todo <= ids && rows.Keys == jobs.Keys
        invariant forall i :: i in rows ==> rows[i] == if i in ids - todo then Reclaimed(jobs[i], now) else jobs[i]
        decreases |todo|
      {
        var i :| i in todo;
        rows := rows[i := Reclaimed(rows[i], now)];
        todo := todo - {i};
      }
      assert rows == Swept(jobs, ids, now);
      SweepsTheLongestLapsed(jobs, now, limit, ids);
      jobs, count := rows, |ids|;
    }
  }
}
