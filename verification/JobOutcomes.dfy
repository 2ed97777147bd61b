/**
 What becomes of a job that was claimed: a lease keeps it for its holder, and it ends in one of the
 ways the worker promises and in no other.
 */
module JobOutcomes {
  import opened Options
  import opened JobRows
  import opened JobProtocol
  import opened JobRuns

  /** A call by the worker that holds the job. */
  predicate ByHolder(s: System, e: Event, id: JobId)
    requires Enabled(s, e) && (e.Beat? || IsEnding(s, e))
  {
    OwnedBy(s.jobs, id, e.worker) && Of(s, e.worker).job == id
  }

  predicate IsExhausted(j: Job) {
    j.attempts == j.maxAttempts
  }

  /** What a step does to a running job, read off the event alone. */
  function Fate(s: System, e: Event, id: JobId): Status
    requires Enabled(s, e) && id in s.jobs
  {
    if e.Succeed? && ByHolder(s, e, id) then Succeeded
    else if e.FailForGood? && ByHolder(s, e, id) then Failed
    else if e.FailForNow? && ByHolder(s, e, id) then (if IsExhausted(s.jobs[id]) then Failed else Pending)
    else if e.Sweep? && id in e.ids then (if IsExhausted(s.jobs[id]) then Failed else Pending)
    else Running
  }

  lemma CallDecides(s: System, e: Event, id: JobId)
    requires Inv(s) && Enabled(s, e) && id in s.jobs && s.jobs[id].status == Running && (e.Beat? || IsEnding(s, e))
    ensures id in Step(s, e).jobs && Step(s, e).jobs[id].status == Fate(s, e, id)
    ensures Fate(s, e, id) == Running ==> Step(s, e).jobs[id].lockedBy == s.jobs[id].lockedBy
  {
    if OwnedBy(s.jobs, id, e.worker) {
      HolderDecides(s, e, id);
    } else {
      OtherCallersLeaveIt(s, e, id);
    }
  }

  lemma OtherCallersLeaveIt(s: System, e: Event, id: JobId)
    requires Enabled(s, e) && id in s.jobs && s.jobs[id].status == Running && (e.Beat? || IsEnding(s, e))
    requires !OwnedBy(s.jobs, id, e.worker)
    ensures id in Step(s, e).jobs && Step(s, e).jobs[id] == s.jobs[id] && Fate(s, e, id) == Running
  {
  }

  lemma HolderDecides(s: System, e: Event, id: JobId)
    requires Inv(s) && Enabled(s, e) && id in s.jobs && s.jobs[id].status == Running && (e.Beat? || IsEnding(s, e))
    requires OwnedBy(s.jobs, id, e.worker)
    ensures id in Step(s, e).jobs && Step(s, e).jobs[id].status == Fate(s, e, id)
    ensures Fate(s, e, id) == Running ==> Step(s, e).jobs[id].lockedBy == s.jobs[id].lockedBy
  {
    HoldsOnlyItsJob(s, id, e.worker);
    assert RowFitsAt(s, id);
  }

  lemma SweepDecides(s: System, e: Event, id: JobId)
    requires RowFitsAt(s, id) && Enabled(s, e) && id in s.jobs && s.jobs[id].status == Running && e.Sweep?
    ensures id in Step(s, e).jobs && Step(s, e).jobs[id].status == Fate(s, e, id)
    ensures Fate(s, e, id) == Running ==> Step(s, e).jobs[id].lockedBy == s.jobs[id].lockedBy
  {
  }

  lemma OthersLeaveIt(s: System, e: Event, id: JobId)
    requires Inv(s) && Enabled(s, e) && id in s.jobs && s.jobs[id].status == Running
    requires !e.Beat? && !IsEnding(s, e) && !e.Sweep?
    ensures id in Step(s, e).jobs && Step(s, e).jobs[id] == s.jobs[id]
  {
    if e.CommitClaim? {
      assert DutyFits(s, e.worker);
    }
  }

  /**
   No fourth outcome. A running job succeeds when its holder completes it, is dead-lettered when its
   holder fails for good or fails on the last attempt, goes back when its holder fails before that,
   goes back or fails when its lease is swept, and otherwise runs on under the same holder.
   */
  lemma {:induction false} NoFourthOutcome(s: System, e: Event, id: JobId)
    requires Inv(s) && Enabled(s, e) && id in s.jobs && s.jobs[id].status == Running
    ensures id in Step(s, e).jobs && Step(s, e).jobs[id].status == Fate(s, e, id)
    ensures Fate(s, e, id) == Running ==> Step(s, e).jobs[id].lockedBy == s.jobs[id].lockedBy
  {
    if e.Beat? || IsEnding(s, e) {
      CallDecides(s, e, id);
    } else if e.Sweep? {
      assert RowFitsAt(s, id);
      SweepDecides(s, e, id);
    } else {
      OthersLeaveIt(s, e, id);
    }
  }

  /** A job starts to run by a claim that committed, after its time had come, and in no other way. */
  lemma RunsOnlyWhenClaimed(s: System, e: Event, id: JobId)
    requires Inv(s) && Enabled(s, e) && id in s.jobs && s.jobs[id].status != Running
    ensures id in Step(s, e).jobs
    ensures Step(s, e).jobs[id].status == Running <==> ClaimsJob(s, e, id)
    ensures ClaimsJob(s, e, id) ==> s.jobs[id].status == Pending && s.jobs[id].runAfter <= s.now
    ensures ClaimsJob(s, e, id) ==>
              var j := Step(s, e).jobs[id];
              && j.lockedBy == Some(e.worker) && j.leaseExpiresAt == Some(s.now + e.lease)
              && j.attempts == s.jobs[id].attempts + 1
  {
    assert RowFitsAt(s, id);
    if e.CommitClaim? {
      assert DutyFits(s, e.worker);
    }
  }

  /** The worker holds the job under a lease that lasts at least until `until`. */
  predicate Holds(s: System, id: JobId, w: WorkerId, until: int) {
    OwnedBy(s.jobs, id, w) && s.jobs[id].leaseExpiresAt.Some? && s.jobs[id].leaseExpiresAt.value >= until
  }

  /** A step by which the worker itself lets go of a job, or shortens its lease. */
  predicate LetsGo(s: System, e: Event, w: WorkerId, until: int) {
    || (IsEnding(s, e) && e.worker == w)
    || (e.Beat? && e.worker == w && s.now + e.lease < until)
  }

  /** A step before the lease runs out in which the worker does not let go. */
  predicate IsQuiet(s: System, e: Event, w: WorkerId, until: int) {
    s.now <= until && !LetsGo(s, e, w, until)
  }

  lemma CallKeepsHold(s: System, e: Event, id: JobId, w: WorkerId, until: int)
    requires Inv(s) && Enabled(s, e) && Holds(s, id, w, until) && IsQuiet(s, e, w, until) && (e.Beat? || IsEnding(s, e))
    ensures Holds(Step(s, e), id, w, until)
  {
  }

  lemma StepKeepsHold(s: System, e: Event, id: JobId, w: WorkerId, until: int)
    requires Inv(s) && Enabled(s, e) && Holds(s, id, w, until) && IsQuiet(s, e, w, until)
    ensures Holds(Step(s, e), id, w, until)
  {
    if e.Beat? || IsEnding(s, e) {
      CallKeepsHold(s, e, id, w, until);
    } else if e.Sweep? {
      assert id !in e.ids by { assert !IsExpired(s.jobs[id], s.now); }
    } else {
      OthersLeaveIt(s, e, id);
    }
  }

  lemma RunKeepsHold(states: seq<System>, events: seq<Event>, k: nat, id: JobId, w: WorkerId, until: int)
    requires Run(states, events) && k < |events| && Holds(states[k], id, w, until)
    requires IsQuiet(states[k], events[k], w, until)
    ensures Holds(states[k + 1], id, w, until)
  {
    Reachable(states, events, k);
    assert Takes(states[k], events[k], states[k + 1]);
    StepKeepsHold(states[k], events[k], id, w, until);
  }

  /**
   A lease is kept. Until it runs out, whatever the other workers, the sweeper and the clock do, the
   job stays with its holder, who is heard, unless the holder itself lets go.
   */
  lemma {:induction false} LeaseKeepsTheJob(states: seq<System>, events: seq<Event>, i: nat, j: nat, id: JobId,
        w: WorkerId, until: int)
    requires Run(states, events) && i <= j < |states| && Holds(states[i], id, w, until)
    requires forall k :: i <= k < j ==> IsQuiet(states[k], events[k], w, until)
    ensures Holds(states[j], id, w, until)
  {
    if i < j {
      LeaseKeepsTheJob(states, events, i, j - 1, id, w, until);
      RunKeepsHold(states, events, j - 1, id, w, until);
    }
  }
}
