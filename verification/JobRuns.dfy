/**
 What holds over whole runs of the queue: no two claims at once on one job, calls heard only for the
 attempt they belong to, and a measure that every transition of a job pays into until it settles.
 */
module JobRuns {
  import opened Options
  import opened JobRows
  import opened JobProtocol

  // ---------------------------------------------------------------------------------------
  // Claims
  // ---------------------------------------------------------------------------------------

  /** Claims in flight at the same moment are on different jobs, all still pending. */
  lemma ConcurrentClaimsDiffer(states: seq<System>, events: seq<Event>, i: nat, v: WorkerId, w: WorkerId)
    requires Run(states, events) && i < |states| && v != w
    requires Of(states[i], v).Claiming? && Of(states[i], w).Claiming?
    ensures Of(states[i], v).job != Of(states[i], w).job
    ensures Of(states[i], v).job in states[i].jobs && states[i].jobs[Of(states[i], v).job].status == Pending
  {
    Reachable(states, events, i);
    assert OneClaimEach(states[i], v, w) && DutyFits(states[i], v);
  }

  /** The step at which a running job went back to the queue. */
  predicate WentBack(states: seq<System>, id: JobId, k: nat)
    requires k + 1 < |states|
  {
    && id in states[k].jobs && states[k].jobs[id].status == Running
    && id in states[k + 1].jobs && states[k + 1].jobs[id].status == Pending
  }

  lemma {:induction false} RunningGoesBack(states: seq<System>, events: seq<Event>, a: nat, b: nat, id: JobId)
    returns (k: nat)
    requires Run(states, events) && a < b < |states|
    requires id in states[a].jobs && states[a].jobs[id].status == Running
    requires id in states[b].jobs && states[b].jobs[id].status == Pending
    ensures a <= k < b && WentBack(states, id, k)
  {
    assert id in states[b - 1].jobs by { JobsStay(states, events, id, a, b - 1); }
    assert InFlight(states[b - 1].jobs[id]) by { RunPays(states, events, id, b - 1); }
    if states[b - 1].jobs[id].status == Running {
      k := b - 1;
    } else {
      k := RunningGoesBack(states, events, a, b - 1, id);
    }
  }

  predicate ClaimsJob(s: System, e: Event, id: JobId) {
    e.CommitClaim? && Of(s, e.worker).Claiming? && Of(s, e.worker).job == id
  }

  /** Between two claims of one job, whoever made them, it was rescheduled or reclaimed. */
  lemma ClaimedOnceAtATime(states: seq<System>, events: seq<Event>, i: nat, j: nat, id: JobId)
    requires Run(states, events) && i < j < |events|
    requires ClaimsJob(states[i], events[i], id) && ClaimsJob(states[j], events[j], id)
    ensures exists k :: i < k < j && WentBack(states, id, k)
  {
    Reachable(states, events, i);
    assert Takes(states[i], events[i], states[i + 1]) && DutyFits(states[i], events[i].worker);
    Reachable(states, events, j);
    assert DutyFits(states[j], events[j].worker);
    var k := RunningGoesBack(states, events, i + 1, j, id);
  }

  /** A job comes into a worker's hands only by that worker's claim. */
  lemma StaysOutOfHand(s: System, e: Event, id: JobId, w: WorkerId)
    requires Enabled(s, e) && !OwnedBy(s.jobs, id, w) && !(ClaimsJob(s, e, id) && e.worker == w)
    ensures !OwnedBy(Step(s, e).jobs, id, w)
  {
  }

  /**
   Fencing over a run. Once another worker has claimed a job, every call by `w` on it is refused and
   changes nothing, whatever happens to the job meanwhile, until `w` itself claims it again.
   */
  lemma {:induction false} RefusedUntilItClaimsAgain(states: seq<System>, events: seq<Event>, k: nat, j: nat,
        id: JobId, w: WorkerId, call: Call)
    requires Run(states, events) && k < j < |states|
    requires ClaimsJob(states[k], events[k], id) && events[k].worker != w
    requires forall m :: k < m < j && ClaimsJob(states[m], events[m], id) ==> events[m].worker != w
    ensures !OwnedBy(states[j].jobs, id, w)
    ensures Fenced(states[j].jobs, id, w, call, states[j].now) == states[j].jobs
  {
    assert Takes(states[j - 1], events[j - 1], states[j]);
    if j == k + 1 {
      Reachable(states, events, k);
      assert DutyFits(states[k], events[k].worker);
    } else {
      RefusedUntilItClaimsAgain(states, events, k, j - 1, id, w, call);
    }
    StaysOutOfHand(states[j - 1], events[j - 1], id, w);
  }

  /** An accepted call ends, or extends, the very attempt the worker was given, never a later one. */
  lemma AcceptedCallsAreCurrent(states: seq<System>, events: seq<Event>, i: nat, w: WorkerId)
    requires Run(states, events) && i < |states| && Of(states[i], w).Working?
    requires OwnedBy(states[i].jobs, Of(states[i], w).job, w)
    ensures !Of(states[i], w).lost
    ensures var d, s := Of(states[i], w), states[i];
            && HasRow(s, d.job) && d.attempts == s.jobs[d.job].attempts == |s.claims[d.job]|
            && d.maxAttempts == s.jobs[d.job].maxAttempts
  {
    Reachable(states, events, i);
    HoldsOnlyItsJob(states[i], Of(states[i], w).job, w);
    assert RowFitsAt(states[i], Of(states[i], w).job);
  }

  // ---------------------------------------------------------------------------------------
  // Settling
  // ---------------------------------------------------------------------------------------

  predicate Moved(j: Job, j': Job) {
    j.status != j'.status || j.attempts != j'.attempts
  }

  /** How many more times a job can move. */
  function Potential(j: Job): int {
    if j.status == Pending then 2 * (j.maxAttempts - j.attempts)
    else if j.status == Running then 2 * (j.maxAttempts - j.attempts) + 1
    else 0
  }

  /** One step in the life of a job. */
  predicate Pays(j: Job, j': Job) {
    && 0 <= Potential(j') && Potential(j') + (if Moved(j, j') then 1 else 0) <= Potential(j)
    && j'.maxAttempts == j.maxAttempts && KeepsClaimOn(j, j')
  }

  lemma CallPays(j: Job, call: Call, now: int)
    requires j.status == Running && j.attempts <= j.maxAttempts
    requires call.Reschedule? ==> j.attempts < j.maxAttempts
    ensures Pays(j, Applied(j, call, now))
  {
  }

  lemma FencedPays(s: System, w: WorkerId, call: Call, id: JobId)
    requires Inv(s) && id in s.jobs && Of(s, w).Working?
    requires call.Reschedule? ==> Of(s, w).attempts < Of(s, w).maxAttempts
    ensures id in Fenced(s.jobs, Of(s, w).job, w, call, s.now)
    ensures Pays(s.jobs[id], Fenced(s.jobs, Of(s, w).job, w, call, s.now)[id])
  {
    assert RowFitsAt(s, id);
    if id == Of(s, w).job && OwnedBy(s.jobs, id, w) {
      HoldsOnlyItsJob(s, id, w);
      CallPays(s.jobs[id], call, s.now);
    }
  }

  lemma ClaimPays(s: System, w: WorkerId, lease: int, id: JobId)
    requires Inv(s) && Enabled(s, CommitClaim(w, lease)) && id in s.jobs
    ensures id in Step(s, CommitClaim(w, lease)).jobs && Pays(s.jobs[id], Step(s, CommitClaim(w, lease)).jobs[id])
  {
    assert RowFitsAt(s, id) && DutyFits(s, w);
  }

  lemma SweepPays(s: System, ids: set<JobId>, id: JobId)
    requires RowFitsAt(s, id) && ids <= Expired(s.jobs, s.now)
    ensures id in Swept(s.jobs, ids, s.now) && Pays(s.jobs[id], Swept(s.jobs, ids, s.now)[id])
  {
    assert id in ids ==> IsExpired(s.jobs[id], s.now);
  }

  /** Every step that moves a job lowers its potential; no step raises it. */
  lemma StepPays(s: System, e: Event, id: JobId)
    requires Inv(s) && Enabled(s, e) && id in s.jobs
    ensures id in Step(s, e).jobs && Pays(s.jobs[id], Step(s, e).jobs[id])
  {
    assert RowFitsAt(s, id);
    match e
    case CommitClaim(w, lease) => ClaimPays(s, w, lease, id);
    case Beat(w, lease) => FencedPays(s, w, Heartbeat(lease), id);
    case Succeed(w) => FencedPays(s, w, Complete, id);
    case FailForGood(w, error) => FencedPays(s, w, DeadLetter(error), id);
    case FailForNow(w, error, runAfter) => FencedPays(s, w, AfterFailure(Of(s, w), error, runAfter), id);
    case Sweep(_, ids) => SweepPays(s, ids, id);
    case _ =>
  }

  lemma RunPays(states: seq<System>, events: seq<Event>, id: JobId, k: nat)
    requires Run(states, events) && k < |events| && id in states[k].jobs
    ensures id in states[k + 1].jobs && Pays(states[k].jobs[id], states[k + 1].jobs[id])
  {
    Reachable(states, events, k);
    assert Takes(states[k], events[k], states[k + 1]);
    StepPays(states[k], events[k], id);
  }

  lemma {:induction false} JobsStay(states: seq<System>, events: seq<Event>, id: JobId, i: nat, j: nat)
    requires Run(states, events) && i <= j < |states| && id in states[i].jobs
    ensures id in states[j].jobs && states[j].jobs[id].maxAttempts == states[i].jobs[id].maxAttempts
  {
    if i < j {
      JobsStay(states, events, id, i, j - 1);
      RunPays(states, events, id, j - 1);
    }
  }

  predicate MovedAt(states: seq<System>, id: JobId, k: nat)
    requires k + 1 < |states|
  {
    id in states[k].jobs && id in states[k + 1].jobs && Moved(states[k].jobs[id], states[k + 1].jobs[id])
  }

  function Moves(states: seq<System>, id: JobId, i: nat, j: nat): nat
    requires i <= j < |states|
  {
    if i == j then 0 else Moves(states, id, i, j - 1) + if MovedAt(states, id, j - 1) then 1 else 0
  }

  lemma {:induction false} MovesAreBounded(states: seq<System>, events: seq<Event>, id: JobId, i: nat, j: nat)
    requires Run(states, events) && i <= j < |states| && id in states[i].jobs
    ensures id in states[j].jobs
    ensures Moves(states, id, i, j) + Potential(states[j].jobs[id]) <= Potential(states[i].jobs[id])
    ensures 0 <= Potential(states[j].jobs[id])
  {
    Reachable(states, events, i);
    assert RowFitsAt(states[i], id);
    if i < j {
      MovesAreBounded(states, events, id, i, j - 1);
      RunPays(states, events, id, j - 1);
    }
  }

  predicate EnqueuesAt(states: seq<System>, events: seq<Event>, i: nat)
    requires i < |events| && |states| == |events| + 1
  {
    events[i].Enqueue? && events[i].id in states[i + 1].jobs && events[i].id !in states[i].jobs
  }

  /**
   From the moment it is enqueued a job moves at most 2 * max_attempts times in any run, and once it
   has moved that often it is settled.
   */
  lemma {:induction false} JobsSettle(states: seq<System>, events: seq<Event>, i: nat, j: nat)
    requires Run(states, events) && i < j < |states| && EnqueuesAt(states, events, i)
    ensures var id := events[i].id;
            && id in states[j].jobs
            && Moves(states, id, i + 1, j) <= 2 * events[i].spec.maxAttempts
            && (Moves(states, id, i + 1, j) == 2 * events[i].spec.maxAttempts ==> Settled(states[j].jobs[id]))
  {
    assert Takes(states[i], events[i], states[i + 1]);
    var id := events[i].id;
    MovesAreBounded(states, events, id, i + 1, j);
    Reachable(states, events, j);
    assert RowFitsAt(states[j], id);
  }

  lemma {:induction false} SettledStays(states: seq<System>, events: seq<Event>, id: JobId, i: nat, j: nat)
    requires Run(states, events) && i <= j < |states| && id in states[i].jobs && Settled(states[i].jobs[id])
    ensures id in states[j].jobs && states[j].jobs[id].status == states[i].jobs[id].status
    ensures Moves(states, id, i, j) == 0
  {
    if i < j {
      SettledStays(states, events, id, i, j - 1);
      RunPays(states, events, id, j - 1);
    }
  }

  // ---------------------------------------------------------------------------------------
  // Dedupe
  // ---------------------------------------------------------------------------------------

  /** At most one job per type and key is in flight, in every reachable state. */
  lemma OneInFlightPerKey(states: seq<System>, events: seq<Event>, n: nat, i: JobId, j: JobId)
    requires Run(states, events) && n < |states| && i in states[n].jobs && j in states[n].jobs
    requires InFlight(states[n].jobs[i]) && InFlight(states[n].jobs[j])
    requires states[n].jobs[i].jobType == states[n].jobs[j].jobType
    requires states[n].jobs[i].dedupeKey.Some? && states[n].jobs[i].dedupeKey == states[n].jobs[j].dedupeKey
    ensures i == j
  {
    Reachable(states, events, n);
    assert i == j || !Clash(states[n].jobs[i], states[n].jobs[j]);
  }
}
