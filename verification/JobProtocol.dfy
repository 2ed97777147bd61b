/**
 Workers and the queue, over any run. A worker claims in two steps, as its transaction does: a
 locked SELECT, then the UPDATE that commits. Any number of workers interleave, die, lose their
 leases and are swept, in any order.
 */
module JobProtocol {
  import opened Options
  import opened JobRows

  /** What a worker is doing. It works from the copy of the row that its claim returned. */
  datatype Duty =
    | Idle
    | Claiming(job: JobId)
    | Working(job: JobId, attempts: nat, maxAttempts: int, lost: bool)
    | Dead

  /** `claims` lists, for each job, the workers that claimed it; nothing reads it. */
  datatype System = System(now: int, jobs: Jobs, workers: map<WorkerId, Duty>, claims: map<JobId, seq<WorkerId>>)

  datatype Event =
    | Enqueue(id: JobId, spec: JobSpec)
    | BeginClaim(worker: WorkerId, only: Option<set<string>>, pick: Option<JobId>)
    | CommitClaim(worker: WorkerId, lease: int)
    | Beat(worker: WorkerId, lease: int)
    | Abandon(worker: WorkerId)
    | Succeed(worker: WorkerId)
    | FailForGood(worker: WorkerId, error: string)
    | FailForNow(worker: WorkerId, error: string, runAfter: int)
    | Die(worker: WorkerId)
    | Sweep(limit: nat, ids: set<JobId>)
    | Tick(until: int)

  function Of(s: System, w: WorkerId): Duty {
    if w in s.workers then s.workers[w] else Idle
  }

  /** The rows that a transaction in flight holds locked. */
  function Locked(s: System): set<JobId> {
    set w | w in s.workers && s.workers[w].Claiming? :: s.workers[w].job
  }

  predicate Enabled(s: System, e: Event) {
    match e
    case Enqueue(id, _) => id !in s.jobs
    case BeginClaim(w, only, pick) => Of(s, w).Idle? && Selects(s.jobs, s.now, only, Locked(s), pick)
    case CommitClaim(w, _) => Of(s, w).Claiming?
    case Abandon(w) => Of(s, w).Working? && Of(s, w).lost
    case Beat(w, _) => Of(s, w).Working?
    case Succeed(w) => Of(s, w).Working?
    case FailForGood(w, _) => Of(s, w).Working?
    case FailForNow(w, _, _) => Of(s, w).Working?
    case Die(_) => true
    case Sweep(limit, ids) => Sweeps(s.jobs, s.now, limit, ids)
    case Tick(until) => s.now <= until
  }

  /** `_retry_or_dead_letter` decides on the worker's copy of the job. */
  function AfterFailure(d: Duty, error: string, runAfter: int): Call
    requires d.Working?
  {
    if d.attempts >= d.maxAttempts then DeadLetter(error) else Reschedule(runAfter, error)
  }

  /** A call that ends the worker's handling of its job, whatever the call returns. */
  function Ending(s: System, w: WorkerId, call: Call): System
    requires Of(s, w).Working?
  {
    s.(jobs := Fenced(s.jobs, Of(s, w).job, w, call, s.now), workers := s.workers[w := Idle])
  }

  function Step(s: System, e: Event): System
    requires Enabled(s, e)
  {
    match e
    case Enqueue(id, spec) =>
      var jobs := Enqueued(s.jobs, id, spec, s.now);
      s.(jobs := jobs, claims := if id in jobs then s.claims[id := []] else s.claims)
    case BeginClaim(w, _, pick) => if pick.None? then s else s.(workers := s.workers[w := Claiming(pick.value)])
    case CommitClaim(w, lease) =>
      var id := Of(s, w).job;
      if id !in s.jobs || id !in s.claims then s
      else
        var row := Claimed(s.jobs[id], w, s.now, lease);
        System(s.now, s.jobs[id := row], s.workers[w := Working(id, row.attempts, row.maxAttempts, false)],
               s.claims[id := s.claims[id] + [w]])
    case Beat(w, lease) =>
      var d := Of(s, w);
      s.(jobs := Fenced(s.jobs, d.job, w, Heartbeat(lease), s.now),
         workers := s.workers[w := d.(lost := d.lost || !OwnedBy(s.jobs, d.job, w))])
    case Abandon(w) => s.(workers := s.workers[w := Idle])
    case Succeed(w) => Ending(s, w, Complete)
    case FailForGood(w, error) => Ending(s, w, DeadLetter(error))
    case FailForNow(w, error, runAfter) => Ending(s, w, AfterFailure(Of(s, w), error, runAfter))
    case Die(w) => s.(workers := s.workers[w := Dead])
    case Sweep(_, ids) => s.(jobs := Swept(s.jobs, ids, s.now))
    case Tick(until) => s.(now := until)
  }

  // ---------------------------------------------------------------------------------------
  // Invariant
  // ---------------------------------------------------------------------------------------

  /** The CHECKs, the attempt budget, and locks exactly on running rows. */
  predicate RowFits(j: Job, claims: seq<WorkerId>) {
    && RowChecks(j)
    && j.attempts == |claims| <= j.maxAttempts
    && (j.status == Pending ==> j.attempts < j.maxAttempts)
    && (j.status == Running <==> j.lockedBy.Some?) && (j.status == Running <==> j.leaseExpiresAt.Some?)
    && (j.status == Running <==> j.lockedAt.Some?)
    && (j.lockedBy.Some? ==> claims != [] && j.lockedBy == Some(claims[|claims| - 1]))
  }

  predicate RowFitsAt(s: System, id: JobId) {
    id in s.jobs && id in s.claims && RowFits(s.jobs[id], s.claims[id])
  }

  /** A worker that holds a job is dead or is working on it from an accurate copy. */
  predicate HeldBy(s: System, id: JobId, w: WorkerId)
    requires id in s.jobs
  {
    Of(s, w) == Dead || Of(s, w) == Working(id, s.jobs[id].attempts, s.jobs[id].maxAttempts, false)
  }

  predicate HolderKnows(s: System, id: JobId)
    requires id in s.jobs
  {
    s.jobs[id].lockedBy.Some? ==> HeldBy(s, id, s.jobs[id].lockedBy.value)
  }

  predicate DutyFits(s: System, w: WorkerId) {
    match Of(s, w)
    case Claiming(id) => id in s.jobs && s.jobs[id].status == Pending && s.jobs[id].runAfter <= s.now
    case _ => true
  }

  predicate OneClaimEach(s: System, v: WorkerId, w: WorkerId) {
    Of(s, v).Claiming? && Of(s, w).Claiming? && v != w ==> Of(s, v).job != Of(s, w).job
  }

  ghost predicate Inv(s: System) {
    && s.jobs.Keys == s.claims.Keys
    && (forall id :: id in s.jobs ==> RowFitsAt(s, id))
    && (forall id :: id in s.jobs ==> HolderKnows(s, id))
    && (forall w :: DutyFits(s, w))
    && (forall v, w :: OneClaimEach(s, v, w))
    && Deduped(s.jobs)
  }

  predicate Initial(s: System) {
    s.jobs == map[] && s.workers == map[] && s.claims == map[]
  }

  /** A worker that is alive holds at most the job it is working on. */
  lemma HoldsOnlyItsJob(s: System, id: JobId, w: WorkerId)
    requires Inv(s) && id in s.jobs && s.jobs[id].lockedBy == Some(w) && Of(s, w) != Dead
    ensures Of(s, w) == Working(id, s.jobs[id].attempts, s.jobs[id].maxAttempts, false) && s.jobs[id].status == Running
  {
    assert HolderKnows(s, id) && RowFitsAt(s, id);
  }

  /** A change of what one worker is doing, when it holds nothing or has died. */
  lemma DutyKeeps(s: System, w: WorkerId, d: Duty)
    requires Inv(s) && !d.Claiming?
    requires d == Dead || forall id :: id in s.jobs ==> s.jobs[id].lockedBy != Some(w)
    ensures Inv(s.(workers := s.workers[w := d]))
  {
    var s' := s.(workers := s.workers[w := d]);
    forall id | id in s'.jobs ensures RowFitsAt(s', id) && HolderKnows(s', id) {
      assert RowFitsAt(s, id) && HolderKnows(s, id);
    }
    forall v ensures DutyFits(s', v) {
      assert DutyFits(s, v);
    }
    forall u, v ensures OneClaimEach(s', u, v) {
      assert OneClaimEach(s, u, v);
    }
  }

  /** What a step on one row by one worker must leave for the invariant to stand. */
  lemma OneRowKeeps(s: System, s': System, id: JobId, w: WorkerId)
    requires Inv(s) && id in s.jobs && id in s'.jobs && id in s'.claims && s'.now == s.now
    requires s'.jobs == s.jobs[id := s'.jobs[id]] && s'.claims == s.claims[id := s'.claims[id]]
    requires s'.workers == s.workers[w := Of(s', w)] && !Of(s', w).Claiming?
    requires Of(s, w) == Claiming(id) || (Of(s, w).Working? && Of(s, w).job == id && OwnedBy(s.jobs, id, w))
    requires RowFits(s'.jobs[id], s'.claims[id]) && HolderKnows(s', id) && KeepsClaimOn(s.jobs[id], s'.jobs[id])
    ensures Inv(s')
  {
    forall i | i in s'.jobs ensures RowFitsAt(s', i) && HolderKnows(s', i) {
      assert RowFitsAt(s, i) && HolderKnows(s, i);
      if i != id && s.jobs[i].lockedBy == Some(w) {
        HoldsOnlyItsJob(s, i, w);
      }
    }
    forall v ensures DutyFits(s', v) {
      assert DutyFits(s, v) && OneClaimEach(s, v, w);
    }
    forall u, v ensures OneClaimEach(s', u, v) {
      assert OneClaimEach(s, u, v);
    }
    ChangesAreNotRefused(s.jobs, s'.jobs);
  }

  lemma EnqueueKeeps(s: System, id: JobId, spec: JobSpec)
    requires Inv(s) && id !in s.jobs
    ensures Inv(Step(s, Enqueue(id, spec)))
  {
    var s' := Step(s, Enqueue(id, spec));
    EnqueueIsRefusedIff(s.jobs, id, spec, s.now);
    forall i | i in s'.jobs ensures RowFitsAt(s', i) && HolderKnows(s', i) {
      assert i != id ==> RowFitsAt(s, i) && HolderKnows(s, i);
    }
    forall v ensures DutyFits(s', v) {
      assert DutyFits(s, v);
    }
    forall u, v ensures OneClaimEach(s', u, v) {
      assert OneClaimEach(s, u, v);
    }
  }

  lemma BeginClaimKeeps(s: System, e: Event)
    requires Inv(s) && Enabled(s, e) && e.BeginClaim?
    ensures Inv(Step(s, e))
  {
    var s' := Step(s, e);
    forall i | i in s'.jobs ensures RowFitsAt(s', i) && HolderKnows(s', i) {
      assert RowFitsAt(s, i) && HolderKnows(s, i);
      if s.jobs[i].lockedBy == Some(e.worker) {
        HoldsOnlyItsJob(s, i, e.worker);
      }
    }
    forall v ensures DutyFits(s', v) {
      assert DutyFits(s, v);
    }
    forall u, v ensures OneClaimEach(s', u, v) {
      assert OneClaimEach(s, u, v);
      assert forall x :: Of(s, x).Claiming? ==> Of(s, x).job in Locked(s);
    }
  }

  lemma CommitClaimKeeps(s: System, w: WorkerId, lease: int)
    requires Inv(s) && Of(s, w).Claiming?
    ensures Inv(Step(s, CommitClaim(w, lease)))
  {
    var id := Of(s, w).job;
    assert DutyFits(s, w) && RowFitsAt(s, id);
    OneRowKeeps(s, Step(s, CommitClaim(w, lease)), id, w);
  }

  predicate IsEnding(s: System, e: Event) {
    e.Succeed? || e.FailForGood? || e.FailForNow?
  }

  /** A call by a live worker: on its job when it holds it, on nothing when it does not. */
  lemma CallKeeps(s: System, e: Event)
    requires Inv(s) && Enabled(s, e) && (e.Beat? || IsEnding(s, e))
    ensures Inv(Step(s, e))
  {
    var w := e.worker;
    var id, s' := Of(s, w).job, Step(s, e);
    if OwnedBy(s.jobs, id, w) {
      HoldsOnlyItsJob(s, id, w);
      assert RowFitsAt(s, id);
      OneRowKeeps(s, s', id, w);
    } else {
      forall i | i in s.jobs ensures s.jobs[i].lockedBy != Some(w) {
        if s.jobs[i].lockedBy == Some(w) {
          HoldsOnlyItsJob(s, i, w);
        }
      }
      DutyKeeps(s, w, Of(s', w));
    }
  }

  lemma AbandonKeeps(s: System, w: WorkerId)
    requires Inv(s) && Enabled(s, Abandon(w))
    ensures Inv(Step(s, Abandon(w)))
  {
    forall i | i in s.jobs ensures s.jobs[i].lockedBy != Some(w) {
      if s.jobs[i].lockedBy == Some(w) {
        HoldsOnlyItsJob(s, i, w);
      }
    }
    DutyKeeps(s, w, Idle);
  }

  lemma SweepKeeps(s: System, limit: nat, ids: set<JobId>)
    requires Inv(s) && Sweeps(s.jobs, s.now, limit, ids)
    ensures Inv(Step(s, Sweep(limit, ids)))
  {
    var s' := Step(s, Sweep(limit, ids));
    forall i | i in s'.jobs ensures RowFitsAt(s', i) && HolderKnows(s', i) && KeepsClaimOn(s.jobs[i], s'.jobs[i]) {
      assert RowFitsAt(s, i) && HolderKnows(s, i);
      assert i in ids ==> IsExpired(s.jobs[i], s.now);
    }
    forall v ensures DutyFits(s', v) {
      assert DutyFits(s, v);
    }
    forall u, v ensures OneClaimEach(s', u, v) {
      assert OneClaimEach(s, u, v);
    }
    assert s'.jobs.Keys == s.jobs.Keys;
    ChangesAreNotRefused(s.jobs, s'.jobs);
  }

  /** Every event keeps the invariant: in particular only an enqueue is ever refused by the index. */
  lemma StepKeepsInv(s: System, e: Event)
    requires Inv(s) && Enabled(s, e)
    ensures Inv(Step(s, e))
  {
    match e
    case Enqueue(id, spec) => EnqueueKeeps(s, id, spec);
    case BeginClaim(_, _, _) => BeginClaimKeeps(s, e);
    case CommitClaim(w, lease) => CommitClaimKeeps(s, w, lease);
    case Abandon(w) => AbandonKeeps(s, w);
    case Die(w) => DutyKeeps(s, w, Dead);
    case Sweep(limit, ids) => SweepKeeps(s, limit, ids);
    case Tick(until) => TickKeeps(s, until);
    case _ => CallKeeps(s, e);
  }

  lemma TickKeeps(s: System, until: int)
    requires Inv(s) && s.now <= until
    ensures Inv(s.(now := until))
  {
    var s' := s.(now := until);
    forall i | i in s'.jobs ensures RowFitsAt(s', i) && HolderKnows(s', i) {
      assert RowFitsAt(s, i) && HolderKnows(s, i);
    }
    forall v ensures DutyFits(s', v) {
      assert DutyFits(s, v);
    }
    forall u, v ensures OneClaimEach(s', u, v) {
      assert OneClaimEach(s, u, v);
    }
  }

  // ---------------------------------------------------------------------------------------
  // Runs
  // ---------------------------------------------------------------------------------------

  predicate Takes(s: System, e: Event, s': System) {
    Enabled(s, e) && s' == Step(s, e)
  }

  ghost predicate Run(states: seq<System>, events: seq<Event>) {
    && |states| == |events| + 1 && Initial(states[0])
    && forall i :: 0 <= i < |events| ==> Takes(states[i], events[i], states[i + 1])
  }

  lemma {:induction false} Reachable(states: seq<System>, events: seq<Event>, i: nat)
    requires Run(states, events) && i < |states|
    ensures Inv(states[i])
  {
    if i > 0 {
      Reachable(states, events, i - 1);
      assert Takes(states[i - 1], events[i - 1], states[i]);
      StepKeepsInv(states[i - 1], events[i - 1]);
    }
  }

  predicate HasRow(s: System, id: JobId) {
    id in s.jobs && id in s.claims
  }

  /**
   Attempts. In every reachable state a job has been claimed exactly `attempts` times, never more
   than `max_attempts`, however its workers died; a running job has an owner and a lease.
   */
  lemma AttemptsAreClaims(states: seq<System>, events: seq<Event>, i: nat, id: JobId)
    requires Run(states, events) && i < |states| && id in states[i].jobs
    ensures HasRow(states[i], id)
    ensures var j := states[i].jobs[id];
            && j.attempts == |states[i].claims[id]| <= j.maxAttempts
            && (j.status == Running <==> j.lockedBy.Some? && j.leaseExpiresAt.Some?)
  {
    Reachable(states, events, i);
    assert RowFitsAt(states[i], id);
  }

  /**
   Fencing. In every reachable state a call on a job is accepted only from the worker that claimed
   it last, and then only while the job still runs; from anyone else, whatever it last knew, the
   call changes nothing.
   */
  lemma OnlyTheLastClaimantIsHeard(states: seq<System>, events: seq<Event>, i: nat, id: JobId, w: WorkerId, call: Call)
    requires Run(states, events) && i < |states|
    ensures OwnedBy(states[i].jobs, id, w) ==>
              && HasRow(states[i], id) && |states[i].claims[id]| > 0
              && states[i].claims[id][|states[i].claims[id]| - 1] == w
    ensures !OwnedBy(states[i].jobs, id, w) ==> Fenced(states[i].jobs, id, w, call, states[i].now) == states[i].jobs
  {
    Reachable(states, events, i);
    if id in states[i].jobs {
      assert RowFitsAt(states[i], id);
    }
  }
}
