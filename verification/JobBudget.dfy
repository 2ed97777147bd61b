/**
 The queue's own calls without the worker in front of them: any caller, any order. `reschedule` does
 not look at the attempt budget, so the budget is the callers' to keep; this says exactly when they do.
 */
module JobBudget {
  import opened Options
  import opened JobRows

  /** One call of `PostgresJobQueue`, at some time. */
  datatype Op =
    | Enqueue(id: JobId, spec: JobSpec, now: int)
    | Claim(id: JobId, worker: WorkerId, lease: int, now: int)
    | Fence(id: JobId, worker: WorkerId, call: Call, now: int)
    | Sweep(ids: set<JobId>, now: int)

  predicate CanCall(jobs: Jobs, op: Op) {
    match op
    case Enqueue(id, _, _) => id !in jobs
    case Claim(id, _, _, now) => id in jobs && IsReady(jobs[id], now, None)
    case Fence(_, _, _, _) => true
    case Sweep(ids, now) => ids <= Expired(jobs, now)
  }

  function After(jobs: Jobs, op: Op): Jobs
    requires CanCall(jobs, op)
  {
    match op
    case Enqueue(id, spec, now) => Enqueued(jobs, id, spec, now)
    case Claim(id, worker, lease, now) => jobs[id := Claimed(jobs[id], worker, now, lease)]
    case Fence(id, worker, call, now) => Fenced(jobs, id, worker, call, now)
    case Sweep(ids, now) => Swept(jobs, ids, now)
  }

  predicate Leads(jobs: Jobs, op: Op, jobs': Jobs) {
    CanCall(jobs, op) && jobs' == After(jobs, op)
  }

  ghost predicate Calls(tables: seq<Jobs>, ops: seq<Op>) {
    && |tables| == |ops| + 1 && tables[0] == map[]
    && forall i :: 0 <= i < |ops| ==> Leads(tables[i], ops[i], tables[i + 1])
  }

  // ---------------------------------------------------------------------------------------
  // Budgets
  // ---------------------------------------------------------------------------------------

  predicate IsOverdrawn(jobs: Jobs, id: JobId) {
    id in jobs && jobs[id].attempts > jobs[id].maxAttempts
  }

  /** A holder puts a job back that has no attempt left, and the queue lets it. */
  predicate OverdrawsAt(jobs: Jobs, op: Op, id: JobId) {
    && op.Fence? && op.id == id && op.call.Reschedule?
    && OwnedBy(jobs, id, op.worker) && jobs[id].attempts >= jobs[id].maxAttempts
  }

  predicate ClaimsAgain(op: Op, id: JobId) {
    op.Claim? && op.id == id
  }

  predicate WithinBudget(jobs: Jobs, id: JobId) {
    id in jobs ==>
      && jobs[id].attempts <= jobs[id].maxAttempts
      && (jobs[id].status == Pending ==> jobs[id].attempts < jobs[id].maxAttempts)
  }

  lemma OpKeepsBudget(jobs: Jobs, op: Op, id: JobId)
    requires CanCall(jobs, op) && WithinBudget(jobs, id) && !OverdrawsAt(jobs, op, id)
    ensures WithinBudget(After(jobs, op), id)
  {
  }

  /** Without an overdrawing reschedule of the job so far, it is within its budget. */
  lemma {:induction false} BudgetHolds(tables: seq<Jobs>, ops: seq<Op>, n: nat, id: JobId)
    requires Calls(tables, ops) && n < |tables|
    requires forall k :: 0 <= k < n ==> !OverdrawsAt(tables[k], ops[k], id)
    ensures WithinBudget(tables[n], id)
  {
    if n > 0 {
      BudgetHolds(tables, ops, n - 1, id);
      assert Leads(tables[n - 1], ops[n - 1], tables[n]);
      OpKeepsBudget(tables[n - 1], ops[n - 1], id);
    }
  }

  /** Rows stay, keep their budget and never lose an attempt; only a claim adds one. */
  lemma AttemptsGrow(jobs: Jobs, op: Op, id: JobId)
    requires CanCall(jobs, op) && id in jobs
    ensures id in After(jobs, op) && After(jobs, op)[id].maxAttempts == jobs[id].maxAttempts
    ensures After(jobs, op)[id].attempts == jobs[id].attempts + if ClaimsAgain(op, id) then 1 else 0
    ensures ClaimsAgain(op, id) ==> jobs[id].status == Pending
  {
  }

  lemma {:induction false} AttemptsNeverShrink(tables: seq<Jobs>, ops: seq<Op>, i: nat, j: nat, id: JobId)
    requires Calls(tables, ops) && i <= j < |tables| && id in tables[i]
    ensures id in tables[j] && tables[j][id].maxAttempts == tables[i][id].maxAttempts
    ensures tables[j][id].attempts >= tables[i][id].attempts
  {
    if i < j {
      AttemptsNeverShrink(tables, ops, i, j - 1, id);
      assert Leads(tables[j - 1], ops[j - 1], tables[j]);
      AttemptsGrow(tables[j - 1], ops[j - 1], id);
    }
  }

  /** The claim that takes a job over its budget. */
  lemma {:induction false} OverdrawingClaim(tables: seq<Jobs>, ops: seq<Op>, j: nat, id: JobId) returns (m: nat)
    requires Calls(tables, ops) && j < |tables| && IsOverdrawn(tables[j], id)
    ensures m < j && ClaimsAgain(ops[m], id) && !WithinBudget(tables[m], id)
  {
    assert Leads(tables[j - 1], ops[j - 1], tables[j]);
    if IsOverdrawn(tables[j - 1], id) {
      m := OverdrawingClaim(tables, ops, j - 1, id);
    } else {
      m := j - 1;
      if id in tables[j - 1] {
        AttemptsGrow(tables[j - 1], ops[j - 1], id);
      }
    }
  }

  ghost predicate OverdrawnAt(tables: seq<Jobs>, id: JobId, j: nat) {
    j < |tables| && IsOverdrawn(tables[j], id)
  }

  ghost predicate PutBackAndClaimed(tables: seq<Jobs>, ops: seq<Op>, id: JobId, k: nat, m: nat) {
    && k < m < |ops| < |tables|
    && OverdrawsAt(tables[k], ops[k], id) && ClaimsAgain(ops[m], id)
  }

  /**
   Over any run of the queue's calls, a job is at some moment claimed more often than it may be if and
   only if its holder once rescheduled it with no attempt left and it was claimed again after that.
   */
  lemma OverdrawnIff(tables: seq<Jobs>, ops: seq<Op>, id: JobId)
    requires Calls(tables, ops)
    ensures (exists j :: OverdrawnAt(tables, id, j))
       <==> exists k: nat, m: nat :: PutBackAndClaimed(tables, ops, id, k, m)
  {
    if j :| OverdrawnAt(tables, id, j) {
      var m := OverdrawingClaim(tables, ops, j, id);
      if forall k :: 0 <= k < m ==> !OverdrawsAt(tables[k], ops[k], id) {
        BudgetHolds(tables, ops, m, id);
        assert false;
      }
      var k :| 0 <= k < m && OverdrawsAt(tables[k], ops[k], id);
      assert PutBackAndClaimed(tables, ops, id, k, m);
    }
    if k: nat, m: nat :| PutBackAndClaimed(tables, ops, id, k, m) {
      AttemptsNeverShrink(tables, ops, k, m, id);
      assert Leads(tables[m], ops[m], tables[m + 1]);
      AttemptsGrow(tables[m], ops[m], id);
      assert OverdrawnAt(tables, id, m + 1);
    }
  }

  /** It can happen: one attempt allowed, one reschedule too many, and a second attempt is made. */
  lemma BudgetCanBeOverdrawn(id: JobId, w: WorkerId) returns (tables: seq<Jobs>, ops: seq<Op>)
    ensures Calls(tables, ops) && OverdrawnAt(tables, id, |tables| - 1)
  {
    var spec: JobSpec := Spec("noop", None, 0, 1, None);
    ops := [Enqueue(id, spec, 0), Claim(id, w, 30, 0), Fence(id, w, Reschedule(0, "failed"), 1), Claim(id, w, 30, 2)];
    assert !IsRefused(map[], spec, 0);
    var t1 := After(map[], ops[0]);
    var t2 := After(t1, ops[1]);
    var t3 := After(t2, ops[2]);
    tables := [map[], t1, t2, t3, After(t3, ops[3])];
  }
}
