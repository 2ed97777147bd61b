/**
 What the queue's statements do to the rows, field by field: which job a claim takes, over any run, and
 what each call, each sweep and each enqueue leaves in the table.
 */
module JobEffects {
  import opened Options
  import opened JobRows
  import opened JobProtocol

  // ---------------------------------------------------------------------------------------
  // Which job a claim takes
  // ---------------------------------------------------------------------------------------

  /** Pending, due, and of a type the worker takes. */
  predicate CouldBeTaken(j: Job, now: int, only: Option<set<string>>) {
    j.status == Pending && j.runAfter <= now && (only.None? || j.jobType in only.value)
  }

  /** The most urgent, and among equals the one that has been due longest. */
  predicate ComesFirst(j: Job, k: Job) {
    k.priority <= j.priority && (k.priority == j.priority ==> j.runAfter <= k.runAfter)
  }

  /** A locked SELECT finds a row that comes first among those it could take, or none if there are none. */
  lemma SelectsIff(jobs: Jobs, now: int, only: Option<set<string>>, locked: set<JobId>, pick: Option<JobId>)
    ensures Selects(jobs, now, only, locked, pick) <==>
              match pick
              case None => forall k :: k in jobs && k !in locked ==> !CouldBeTaken(jobs[k], now, only)
              case Some(id) =>
                && id in jobs && id !in locked && CouldBeTaken(jobs[id], now, only)
                && forall k :: k in jobs && k !in locked && CouldBeTaken(jobs[k], now, only) ==>
                     ComesFirst(jobs[id], jobs[k])
  {
    var ready := Ready(jobs, now, only, locked);
    assert forall k :: k in ready <==> k in jobs && k !in locked && CouldBeTaken(jobs[k], now, only);
  }

  /** A worker other than `w` has the row locked. */
  predicate IsTakenBy(s: System, k: JobId, v: WorkerId) {
    Of(s, v) == Claiming(k)
  }

  /** The job `id` comes first among the rows that `w` could take when it selects. */
  ghost predicate CameFirst(s: System, id: JobId, only: Option<set<string>>) {
    && id in s.jobs && CouldBeTaken(s.jobs[id], s.now, only)
    && forall k :: k in s.jobs && CouldBeTaken(s.jobs[k], s.now, only) && (forall v :: !IsTakenBy(s, k, v)) ==>
         ComesFirst(s.jobs[id], s.jobs[k])
  }

  lemma PickCameFirst(s: System, e: Event)
    requires Enabled(s, e) && e.BeginClaim? && e.pick.Some?
    ensures CameFirst(s, e.pick.value, e.only)
  {
    SelectsIff(s.jobs, s.now, e.only, Locked(s), e.pick);
    forall k | forall v :: !IsTakenBy(s, k, v) ensures k !in Locked(s) {
      if k in Locked(s) {
        var v :| v in s.workers && s.workers[v].Claiming? && s.workers[v].job == k;
        assert IsTakenBy(s, k, v);
      }
    }
  }

  lemma RowIsLocked(s: System, e: Event, w: WorkerId)
    requires Inv(s) && Enabled(s, e) && Of(s, w).Claiming? && Of(Step(s, e), w) == Of(s, w)
    ensures Of(s, w).job in s.jobs && Of(s, w).job in Step(s, e).jobs
    ensures Step(s, e).jobs[Of(s, w).job] == s.jobs[Of(s, w).job]
  {
    assert DutyFits(s, w);
    if e.CommitClaim? {
      assert DutyFits(s, e.worker);
      assert OneClaimEach(s, e.worker, w);
    }
  }

  /** From its selection on, a job stays locked and as it was, until the claim commits. */
  lemma {:induction false} Selected(states: seq<System>, events: seq<Event>, j: nat, w: WorkerId) returns (i: nat)
    requires Run(states, events) && j < |states| && Of(states[j], w).Claiming?
    ensures i < j && events[i].BeginClaim? && events[i].worker == w && events[i].pick == Some(Of(states[j], w).job)
    ensures CameFirst(states[i], Of(states[j], w).job, events[i].only)
    ensures Of(states[j], w).job in states[j].jobs
    ensures states[j].jobs[Of(states[j], w).job] == states[i].jobs[Of(states[j], w).job]
  {
    assert Takes(states[j - 1], events[j - 1], states[j]);
    Reachable(states, events, j - 1);
    if Of(states[j - 1], w) == Of(states[j], w) {
      i := Selected(states, events, j - 1, w);
      RowIsLocked(states[j - 1], events[j - 1], w);
    } else {
      i := j - 1;
      PickCameFirst(states[i], events[i]);
    }
  }

  /**
   A claim that commits takes the row that came first, when it was selected, among those that were pending,
   due, wanted and not locked by another claim; that row is as it was, and is then run by this worker.
   */
  lemma ClaimTakesTheFirst(states: seq<System>, events: seq<Event>, j: nat) returns (i: nat)
    requires Run(states, events) && j < |events| && events[j].CommitClaim?
    ensures i < j && events[i].BeginClaim? && events[i].worker == events[j].worker && events[i].pick.Some?
    ensures var id, s, only := events[i].pick.value, states[i], events[i].only;
            && id in s.jobs && s.jobs[id].status == Pending && s.jobs[id].runAfter <= s.now
            && (only.Some? ==> s.jobs[id].jobType in only.value)
            && forall k :: k in s.jobs && CouldBeTaken(s.jobs[k], s.now, only) && (forall v :: !IsTakenBy(s, k, v)) ==>
                 || s.jobs[k].priority < s.jobs[id].priority
                 || (s.jobs[k].priority == s.jobs[id].priority && s.jobs[id].runAfter <= s.jobs[k].runAfter)
    ensures var id, row := events[i].pick.value, states[i].jobs[events[i].pick.value];
            && states[j + 1].workers
            == states[j].workers[events[j].worker := Working(id, row.attempts + 1, row.maxAttempts, false)]
            && states[j + 1].jobs == states[j].jobs[id := row.(status := Running, attempts := row.attempts + 1,
                                                               lockedBy := Some(events[j].worker),
                                                               lockedAt := Some(states[j].now),
                                                               leaseExpiresAt := Some(states[j].now + events[j].lease))]
  {
    assert Takes(states[j], events[j], states[j + 1]);
    Reachable(states, events, j);
    i := Selected(states, events, j, events[j].worker);
    assert RowFitsAt(states[j], events[i].pick.value);
  }

  // ---------------------------------------------------------------------------------------
  // Calls
  // ---------------------------------------------------------------------------------------

  /** The row is running, under this worker's name. */
  predicate IsRunBy(s: System, id: JobId, w: WorkerId) {
    id in s.jobs && s.jobs[id].status == Running && s.jobs[id].lockedBy == Some(w)
  }

  /** What is left of the row of a job that its worker ends. */
  function Ended(j: Job, e: Event, now: int): Job
    requires e.Succeed? || e.FailForGood? || e.FailForNow?
  {
    if e.Succeed? then
      j.(status := Succeeded, lockedBy := None, lockedAt := None, leaseExpiresAt := None, completedAt := Some(now))
    else if e.FailForGood? || j.attempts == j.maxAttempts then
      j.(status := Failed, lockedBy := None, lockedAt := None, leaseExpiresAt := None, lastError := Some(e.error),
         completedAt := Some(now))
    else
      j.(status := Pending, lockedBy := None, lockedAt := None, leaseExpiresAt := None, lastError := Some(e.error),
         runAfter := e.runAfter)
  }

  /** An ending call ends the job if the worker still runs it, changes no row otherwise, and frees the worker. */
  lemma EndingTakesEffect(states: seq<System>, events: seq<Event>, i: nat)
    requires Run(states, events) && i < |events|
    requires events[i].Succeed? || events[i].FailForGood? || events[i].FailForNow?
    ensures Of(states[i], events[i].worker).Working?
    ensures var s, id := states[i], Of(states[i], events[i].worker).job;
            states[i + 1].jobs ==
            if IsRunBy(s, id, events[i].worker) then s.jobs[id := Ended(s.jobs[id], events[i], s.now)] else s.jobs
    ensures states[i + 1].workers == states[i].workers[events[i].worker := Idle]
  {
    Reachable(states, events, i);
    assert Takes(states[i], events[i], states[i + 1]);
    var s, id := states[i], Of(states[i], events[i].worker).job;
    if IsRunBy(s, id, events[i].worker) {
      HoldsOnlyItsJob(s, id, events[i].worker);
      assert RowFitsAt(s, id);
    }
  }

  /** A heartbeat extends the lease if the worker still runs the job; if not, the worker learns it. */
  lemma BeatTakesEffect(states: seq<System>, events: seq<Event>, i: nat)
    requires Run(states, events) && i < |events| && events[i].Beat?
    ensures Of(states[i], events[i].worker).Working?
    ensures var s, d := states[i], Of(states[i], events[i].worker);
            && states[i + 1].jobs ==
            (if IsRunBy(s, d.job, events[i].worker)
             then s.jobs[d.job := s.jobs[d.job].(leaseExpiresAt := Some(s.now + events[i].lease))] else s.jobs)
            && Of(states[i + 1], events[i].worker) ==
            if IsRunBy(s, d.job, events[i].worker) then d else Working(d.job, d.attempts, d.maxAttempts, true)
  {
    Reachable(states, events, i);
    assert Takes(states[i], events[i], states[i + 1]);
    if IsRunBy(states[i], Of(states[i], events[i].worker).job, events[i].worker) {
      HoldsOnlyItsJob(states[i], Of(states[i], events[i].worker).job, events[i].worker);
    }
  }

  // ---------------------------------------------------------------------------------------
  // Sweeps
  // ---------------------------------------------------------------------------------------

  /** Running, under a lease that has passed. */
  predicate HasLapsed(j: Job, now: int) {
    j.status == Running && j.leaseExpiresAt.Some? && j.leaseExpiresAt.value < now
  }

  /** What is left of a row that is taken from its worker: it goes back, or fails on the last attempt. */
  function TakenBack(j: Job, now: int): Job {
    j.(status := if j.attempts < j.maxAttempts then Pending else Failed,
       lockedBy := None, lockedAt := None, leaseExpiresAt := None,
       lastError := if j.lastError == None then Some("lease expired") else j.lastError,
       completedAt := if j.attempts < j.maxAttempts then None else Some(now))
  }

  /** At most so many lapsed rows: all of them, or as many as allowed with none lapsed before them left out. */
  predicate AreLongestLapsed(jobs: Jobs, now: int, limit: nat, ids: set<JobId>) {
    && |ids| <= limit && (forall i :: i in ids ==> i in jobs && HasLapsed(jobs[i], now))
    && forall k :: k in jobs && HasLapsed(jobs[k], now) && k !in ids ==>
         && |ids| == limit
         && forall i :: i in ids ==> jobs[i].leaseExpiresAt.value <= jobs[k].leaseExpiresAt.value
  }

  lemma SweepsTheLongestLapsed(jobs: Jobs, now: int, limit: nat, ids: set<JobId>)
    ensures Sweeps(jobs, now, limit, ids) <==> AreLongestLapsed(jobs, now, limit, ids)
  {
    assert forall k :: k in Expired(jobs, now) <==> k in jobs && HasLapsed(jobs[k], now);
    if AreLongestLapsed(jobs, now, limit, ids) && |ids| < limit {
      assert ids == Expired(jobs, now);
    }
  }

  /** A sweep takes back the longest lapsed rows and leaves every other one. */
  lemma SweepTakesEffect(states: seq<System>, events: seq<Event>, i: nat)
    requires Run(states, events) && i < |events| && events[i].Sweep?
    ensures AreLongestLapsed(states[i].jobs, states[i].now, events[i].limit, events[i].ids)
    ensures states[i + 1].jobs == map k | k in states[i].jobs ::
              if k in events[i].ids then TakenBack(states[i].jobs[k], states[i].now) else states[i].jobs[k]
    ensures states[i + 1].workers == states[i].workers
  {
    assert Takes(states[i], events[i], states[i + 1]);
    SweepsTheLongestLapsed(states[i].jobs, states[i].now, events[i].limit, events[i].ids);
  }

  // ---------------------------------------------------------------------------------------
  // Enqueues
  // ---------------------------------------------------------------------------------------

  /** A job of that type and key is pending or running. */
  predicate IsInFlight(jobs: Jobs, spec: JobSpec) {
    exists k :: k in jobs && jobs[k].status in {Pending, Running} && jobs[k].jobType == spec.jobType
                && spec.dedupeKey.Some? && jobs[k].dedupeKey == spec.dedupeKey
  }

  /** The columns an enqueue sets, and the defaults of the others. */
  function FreshRow(spec: JobSpec, now: int): Job {
    Job(jobType := spec.jobType, dedupeKey := spec.dedupeKey, status := Pending, priority := spec.priority,
        attempts := 0, maxAttempts := spec.maxAttempts,
        runAfter := if spec.runAfter == None then now else spec.runAfter.value,
        lockedBy := None, lockedAt := None, leaseExpiresAt := None, lastError := None, completedAt := None)
  }

  lemma EnqueuedIff(jobs: Jobs, id: JobId, spec: JobSpec, now: int)
    ensures IsRefused(jobs, spec, now) <==> IsInFlight(jobs, spec)
    ensures Enqueued(jobs, id, spec, now) == if IsInFlight(jobs, spec) then jobs else jobs[id := FreshRow(spec, now)]
  {
    if k :| k in jobs && jobs[k].status in {Pending, Running} && jobs[k].jobType == spec.jobType
            && spec.dedupeKey.Some? && jobs[k].dedupeKey == spec.dedupeKey {
      assert Clash(jobs[k], NewRow(spec, now));
    }
  }

  lemma EnqueueTakesEffect(states: seq<System>, events: seq<Event>, i: nat)
    requires Run(states, events) && i < |events| && events[i].Enqueue?
    ensures var jobs, id, spec := states[i].jobs, events[i].id, events[i].spec;
            && id !in jobs
            && states[i + 1].jobs ==
            if IsInFlight(jobs, spec) then jobs else jobs[id := FreshRow(spec, states[i].now)]
    ensures states[i + 1].workers == states[i].workers
  {
    assert Takes(states[i], events[i], states[i + 1]);
    EnqueuedIff(states[i].jobs, events[i].id, events[i].spec, states[i].now);
  }

  /** No other event changes a row. */
  lemma OthersLeaveTheTable(states: seq<System>, events: seq<Event>, i: nat)
    requires Run(states, events) && i < |events|
    requires var e := events[i]; e.BeginClaim? || e.Abandon? || e.Die? || e.Tick?
    ensures states[i + 1].jobs == states[i].jobs
    ensures var e, s, s' := events[i], states[i], states[i + 1];
            match e
            case BeginClaim(w, only, None) =>
              && s' == s
              && forall k :: k in s.jobs && CouldBeTaken(s.jobs[k], s.now, only) ==> exists v :: IsTakenBy(s, k, v)
            case BeginClaim(w, only, Some(id)) => s'.workers == s.workers[w := Claiming(id)]
            case Abandon(w) => Of(s, w).Working? && Of(s, w).lost && s'.workers == s.workers[w := Idle]
            case Die(w) => s'.workers == s.workers[w := Dead]
            case Tick(until) => s' == s.(now := until) && s.now <= until
            case _ => true
  {
    assert Takes(states[i], events[i], states[i + 1]);
    var s, e := states[i], events[i];
    if e.BeginClaim? && e.pick.None? {
      SelectsIff(s.jobs, s.now, e.only, Locked(s), e.pick);
      forall k | k in s.jobs && CouldBeTaken(s.jobs[k], s.now, e.only) ensures exists v :: IsTakenBy(s, k, v) {
        var v :| v in s.workers && s.workers[v].Claiming? && s.workers[v].job == k;
        assert IsTakenBy(s, k, v);
      }
    }
  }
}
