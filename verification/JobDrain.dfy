/**
 Every job settles, however its workers die: from any reachable state the clock, claims and the sweep
 alone can take every job to its end, and no run moves a job more often than its attempts allow.
 */
module JobDrain {
  import opened Options
  import opened JobRows
  import opened JobProtocol
  import opened JobRuns

  // ---------------------------------------------------------------------------------------
  // The SELECTs always have an answer
  // ---------------------------------------------------------------------------------------

  /** `claim` always has an answer: some ready row that may come first, or none at all. */
  lemma {:induction false} FirstOf(jobs: Jobs, among: set<JobId>) returns (id: JobId)
    requires among != {} && forall k :: k in among ==> k in jobs
    ensures id in among && forall k :: k in among ==> NoLater(jobs[id], jobs[k])
    decreases |among|
  {
    var one :| one in among;
    id := one;
    var rest := among - {one};
    if rest != {} {
      var other := FirstOf(jobs, rest);
      id := if NoLater(jobs[one], jobs[other]) then one else other;
    }
    forall k | k in among ensures NoLater(jobs[id], jobs[k]) {
      assert k in rest || k == one;
    }
  }

  lemma SelectAnswers(jobs: Jobs, now: int, only: Option<set<string>>, locked: set<JobId>) returns (pick: Option<JobId>)
    ensures Selects(jobs, now, only, locked, pick)
  {
    var ready := Ready(jobs, now, only, locked);
    if ready == {} {
      pick := None;
    } else {
      var id := FirstOf(jobs, ready);
      pick := Some(id);
    }
  }

  lemma {:induction false} LongestExpired(jobs: Jobs, now: int, among: set<JobId>) returns (id: JobId)
    requires among != {} && among <= Expired(jobs, now)
    ensures id in among && forall k :: k in among ==> ExpiresNoLater(jobs[id], jobs[k])
    decreases |among|
  {
    var one :| one in among;
    id := one;
    var rest := among - {one};
    if rest != {} {
      var other := LongestExpired(jobs, now, rest);
      assert IsExpired(jobs[one], now) && IsExpired(jobs[other], now);
      id := if ExpiresNoLater(jobs[one], jobs[other]) then one else other;
    }
    forall k | k in among ensures ExpiresNoLater(jobs[id], jobs[k]) {
      assert k in rest || k == one;
      assert IsExpired(jobs[k], now);
    }
  }

  /** A sweep always has an answer too, and takes something when anything has expired. */
  lemma {:induction false} SweepAnswers(jobs: Jobs, now: int, limit: nat) returns (ids: set<JobId>)
    ensures Sweeps(jobs, now, limit, ids)
    ensures limit > 0 && Expired(jobs, now) != {} ==> ids != {}
  {
    ids := {};
    if limit > 0 {
      ids := SweepAnswers(jobs, now, limit - 1);
      var rest := Expired(jobs, now) - ids;
      if rest != {} {
        var next := LongestExpired(jobs, now, rest);
        ids := ids + {next};
      } else {
        assert ids == Expired(jobs, now);
      }
    }
  }

  // ---------------------------------------------------------------------------------------
  // Scripts
  // ---------------------------------------------------------------------------------------

  predicate Legal(s: System, script: seq<Event>)
    decreases |script|
  {
    script == [] || (Enabled(s, script[0]) && Legal(Step(s, script[0]), script[1..]))
  }

  function Exec(s: System, script: seq<Event>): System
    requires Legal(s, script)
    decreases |script|
  {
    if script == [] then s else Exec(Step(s, script[0]), script[1..])
  }

  /** No handler ever returns: workers claim and die, time passes, the sweeper sweeps. */
  predicate NothingReturns(e: Event) {
    e.Tick? || e.BeginClaim? || e.CommitClaim? || e.Die? || e.Sweep?
  }

  predicate OnlyDeaths(script: seq<Event>) {
    forall k :: 0 <= k < |script| ==> NothingReturns(script[k])
  }

  lemma OneThen(s: System, e: Event, script: seq<Event>)
    requires Enabled(s, e) && Legal(Step(s, e), script) && NothingReturns(e) && OnlyDeaths(script)
    ensures Legal(s, [e] + script) && Exec(s, [e] + script) == Exec(Step(s, e), script) && OnlyDeaths([e] + script)
  {
    assert ([e] + script)[1..] == script;
  }

  lemma {:induction false} ScriptThen(s: System, first: seq<Event>, script: seq<Event>)
    requires Legal(s, first) && Legal(Exec(s, first), script) && OnlyDeaths(first) && OnlyDeaths(script)
    ensures Legal(s, first + script) && Exec(s, first + script) == Exec(Exec(s, first), script)
    ensures OnlyDeaths(first + script)
    decreases |first|
  {
    if first == [] {
      assert [] + script == script;
    } else {
      assert (first + script)[1..] == first[1..] + script;
      ScriptThen(Step(s, first[0]), first[1..], script);
    }
  }

  lemma EventPays(s: System, e: Event)
    requires Inv(s) && Enabled(s, e) && NothingReturns(e)
    ensures Inv(Step(s, e)) && Step(s, e).jobs.Keys == s.jobs.Keys
    ensures forall id :: id in s.jobs ==> Pays(s.jobs[id], Step(s, e).jobs[id])
  {
    StepKeepsInv(s, e);
    if e.CommitClaim? {
      assert DutyFits(s, e.worker);
    }
    forall id | id in s.jobs ensures Pays(s.jobs[id], Step(s, e).jobs[id]) {
      StepPays(s, e, id);
    }
  }

  /** A script of deaths keeps the invariant and the jobs, and raises no potential. */
  lemma {:induction false} ScriptPays(s: System, script: seq<Event>)
    requires Inv(s) && Legal(s, script) && OnlyDeaths(script)
    ensures Inv(Exec(s, script)) && Exec(s, script).jobs.Keys == s.jobs.Keys
    ensures forall id :: id in s.jobs ==> 0 <= Potential(Exec(s, script).jobs[id]) <= Potential(s.jobs[id])
    decreases |script|
  {
    if script == [] {
      forall id | id in s.jobs ensures 0 <= Potential(s.jobs[id]) {
        assert RowFitsAt(s, id);
      }
    } else {
      EventPays(s, script[0]);
      ScriptPays(Step(s, script[0]), script[1..]);
    }
  }

  // ---------------------------------------------------------------------------------------
  // One move, by a worker that dies
  // ---------------------------------------------------------------------------------------

  /** There is always a worker that never ran. */
  lemma {:induction false} LongestName(ids: set<WorkerId>) returns (n: nat)
    ensures forall w :: w in ids ==> |w| <= n
    decreases |ids|
  {
    n := 0;
    if ids != {} {
      var one :| one in ids;
      n := LongestName(ids - {one});
      n := if n < |one| then |one| else n;
    }
  }

  lemma FreshWorker(s: System) returns (w: WorkerId)
    ensures w !in s.workers && Of(s, w).Idle?
  {
    var n := LongestName(s.workers.Keys);
    w := seq(n + 1, k => 'w');
    assert w !in s.workers.Keys;
  }

  /** A script after which some job has moved for good. */
  ghost predicate Lowers(s: System, script: seq<Event>, id: JobId) {
    && Legal(s, script) && OnlyDeaths(script) && id in s.jobs && id in Exec(s, script).jobs
    && Potential(Exec(s, script).jobs[id]) < Potential(s.jobs[id])
  }

  lemma OneEvent(s: System, e: Event)
    requires Enabled(s, e) && NothingReturns(e)
    ensures Legal(s, [e]) && Exec(s, [e]) == Step(s, e) && OnlyDeaths([e])
  {
    assert [e][1..] == [] && Legal(Step(s, e), []) && Exec(s, [e]) == Exec(Step(s, e), []);
  }

  lemma MovesNow(s: System, e: Event, id: JobId)
    requires Inv(s) && Enabled(s, e) && NothingReturns(e) && id in s.jobs
    requires id in Step(s, e).jobs && Moved(s.jobs[id], Step(s, e).jobs[id])
    ensures Lowers(s, [e], id)
  {
    EventPays(s, e);
    OneEvent(s, e);
  }

  lemma LowersLater(s: System, e: Event, script: seq<Event>, id: JobId)
    requires Inv(s) && Enabled(s, e) && NothingReturns(e) && Lowers(Step(s, e), script, id)
    ensures Lowers(s, [e] + script, id)
  {
    OneThen(s, e, script);
    EventPays(s, e);
  }

  lemma RunningIsSwept(s: System, id: JobId, limit: nat) returns (script: seq<Event>, moved: JobId)
    requires Inv(s) && id in s.jobs && s.jobs[id].status == Running && limit > 0
    ensures Lowers(s, script, moved)
  {
    assert RowFitsAt(s, id);
    var lease := s.jobs[id].leaseExpiresAt.value;
    var until := if s.now <= lease then lease + 1 else s.now;
    var s1 := s.(now := until);
    assert id in Expired(s1.jobs, s1.now);
    var ids := SweepAnswers(s1.jobs, s1.now, limit);
    moved :| moved in ids;
    assert IsExpired(s1.jobs[moved], s1.now);
    TickKeeps(s, until);
    MovesNow(s1, Sweep(limit, ids), moved);
    LowersLater(s, Tick(until), [Sweep(limit, ids)], moved);
    script := [Tick(until)] + [Sweep(limit, ids)];
  }

  /** A job that a transaction in flight has locked moves when that transaction commits. */
  lemma LockedIsClaimed(s: System, v: WorkerId, lease: int) returns (script: seq<Event>)
    requires Inv(s) && Of(s, v).Claiming?
    ensures Lowers(s, script, Of(s, v).job)
  {
    assert DutyFits(s, v) && RowFitsAt(s, Of(s, v).job);
    MovesNow(s, CommitClaim(v, lease), Of(s, v).job);
    script := [CommitClaim(v, lease)];
  }

  /** A claim by a worker that dies holding the job. */
  lemma ReadyIsClaimed(s: System, w: WorkerId, pick: JobId, lease: int) returns (script: seq<Event>)
    requires Inv(s) && Of(s, w).Idle? && Selects(s.jobs, s.now, None, Locked(s), Some(pick))
    ensures Lowers(s, script, pick)
  {
    var begin := BeginClaim(w, None, Some(pick));
    var s1 := Step(s, begin);
    StepKeepsInv(s, begin);
    assert DutyFits(s1, w) && RowFitsAt(s1, pick);
    var s2 := Step(s1, CommitClaim(w, lease));
    StepKeepsInv(s1, CommitClaim(w, lease));
    var dies := [Die(w)];
    assert dies[1..] == [] && Legal(Step(s2, Die(w)), []) && Legal(s2, dies) && Exec(s2, dies).jobs == s2.jobs;
    OneThen(s1, CommitClaim(w, lease), dies);
    assert RowFitsAt(s2, pick);
    assert Lowers(s1, [CommitClaim(w, lease)] + dies, pick);
    LowersLater(s, begin, [CommitClaim(w, lease)] + dies, pick);
    script := [begin] + ([CommitClaim(w, lease)] + dies);
  }

  lemma PendingIsClaimed(s: System, id: JobId, lease: int) returns (script: seq<Event>, moved: JobId)
    requires Inv(s) && id in s.jobs && s.jobs[id].status == Pending
    ensures Lowers(s, script, moved)
  {
    if id in Locked(s) {
      var v :| v in s.workers && s.workers[v].Claiming? && s.workers[v].job == id;
      script := LockedIsClaimed(s, v, lease);
      moved := id;
    } else {
      var until := if s.now <= s.jobs[id].runAfter then s.jobs[id].runAfter else s.now;
      var s1 := s.(now := until);
      TickKeeps(s, until);
      assert id in Ready(s1.jobs, s1.now, None, Locked(s1));
      var pick := SelectAnswers(s1.jobs, s1.now, None, Locked(s1));
      var w := FreshWorker(s1);
      moved := pick.value;
      script := ReadyIsClaimed(s1, w, moved, lease);
      LowersLater(s, Tick(until), script, moved);
      script := [Tick(until)] + script;
    }
  }

  // ---------------------------------------------------------------------------------------
  // All the moves
  // ---------------------------------------------------------------------------------------

  ghost predicate NoDebt(jobs: Jobs, ids: set<JobId>) {
    ids <= jobs.Keys && forall id :: id in ids ==> 0 <= Potential(jobs[id])
  }

  /** How many moves the jobs have left between them. */
  ghost function Total(jobs: Jobs, ids: set<JobId>): nat
    requires NoDebt(jobs, ids)
  {
    if ids == {} then 0
    else
      var id :| id in ids;
      Potential(jobs[id]) + Total(jobs, ids - {id})
  }

  lemma {:induction false} TotalDrops(jobs: Jobs, jobs': Jobs, ids: set<JobId>, moved: JobId)
    requires NoDebt(jobs, ids) && NoDebt(jobs', ids)
    requires forall id :: id in ids ==> Potential(jobs'[id]) <= Potential(jobs[id])
    ensures Total(jobs', ids) <= Total(jobs, ids)
    ensures moved in ids && Potential(jobs'[moved]) < Potential(jobs[moved]) ==> Total(jobs', ids) < Total(jobs, ids)
  {
    if ids != {} {
      var id :| id in ids && Total(jobs, ids) == Potential(jobs[id]) + Total(jobs, ids - {id})
                && Total(jobs', ids) == Potential(jobs'[id]) + Total(jobs', ids - {id});
      TotalDrops(jobs, jobs', ids - {id}, moved);
    }
  }

  ghost predicate AllSettled(s: System) {
    forall id :: id in s.jobs ==> Settled(s.jobs[id])
  }

  lemma InvHasNoDebt(s: System)
    requires Inv(s)
    ensures NoDebt(s.jobs, s.jobs.Keys)
  {
    forall id | id in s.jobs ensures 0 <= Potential(s.jobs[id]) {
      assert RowFitsAt(s, id);
    }
  }

  /**
   Every job settles though every worker dies. From any state that can be reached there is a script of
   claims, deaths, passing time and sweeps, with no handler ever returning, that settles every job.
   */
  lemma {:induction false} JobsDrainThoughWorkersDie(s: System, lease: int, limit: nat) returns (script: seq<Event>)
    requires Inv(s) && limit > 0 && NoDebt(s.jobs, s.jobs.Keys)
    ensures Legal(s, script) && OnlyDeaths(script)
    ensures Exec(s, script).jobs.Keys == s.jobs.Keys && AllSettled(Exec(s, script))
    decreases Total(s.jobs, s.jobs.Keys)
  {
    if AllSettled(s) {
      script := [];
    } else {
      var first, s' := OneMoreMove(s, lease, limit);
      var rest := JobsDrainThoughWorkersDie(s', lease, limit);
      ScriptThen(s, first, rest);
      script := first + rest;
    }
  }

  lemma {:induction false} OneMoreMove(s: System, lease: int, limit: nat) returns (script: seq<Event>, s': System)
    requires Inv(s) && limit > 0 && !AllSettled(s) && NoDebt(s.jobs, s.jobs.Keys)
    ensures Legal(s, script) && OnlyDeaths(script) && s' == Exec(s, script) && Inv(s')
    ensures s'.jobs.Keys == s.jobs.Keys && NoDebt(s'.jobs, s'.jobs.Keys)
    ensures Total(s'.jobs, s'.jobs.Keys) < Total(s.jobs, s.jobs.Keys)
  {
    var id :| id in s.jobs && InFlight(s.jobs[id]);
    var moved;
    if s.jobs[id].status == Running {
      script, moved := RunningIsSwept(s, id, limit);
    } else {
      script, moved := PendingIsClaimed(s, id, lease);
    }
    s' := Exec(s, script);
    ScriptPays(s, script);
    InvHasNoDebt(s');
    TotalDrops(s.jobs, s'.jobs, s.jobs.Keys, moved);
  }

  /** In every run, from every state, every job that is there can still be settled that way. */
  lemma EveryJobCanSettle(states: seq<System>, events: seq<Event>, i: nat, lease: int, limit: nat)
    returns (script: seq<Event>)
    requires Run(states, events) && i < |states| && limit > 0
    ensures Legal(states[i], script) && OnlyDeaths(script)
    ensures Exec(states[i], script).jobs.Keys == states[i].jobs.Keys && AllSettled(Exec(states[i], script))
  {
    Reachable(states, events, i);
    InvHasNoDebt(states[i]);
    script := JobsDrainThoughWorkersDie(states[i], lease, limit);
  }

  // ---------------------------------------------------------------------------------------
  // Any run that keeps serving
  // ---------------------------------------------------------------------------------------

  /** The queue deals with a job: its pending row is claimed, or its expired one is swept. */
  predicate Serves(s: System, e: Event, id: JobId) {
    || (e.CommitClaim? && Of(s, e.worker).Claiming? && Of(s, e.worker).job == id)
    || (e.Sweep? && id in e.ids)
  }

  lemma ServingMoves(s: System, e: Event, id: JobId)
    requires Inv(s) && Enabled(s, e) && Serves(s, e, id)
    ensures id in s.jobs && id in Step(s, e).jobs && Moved(s.jobs[id], Step(s, e).jobs[id])
  {
    if e.CommitClaim? {
      assert DutyFits(s, e.worker) && RowFitsAt(s, id);
    } else {
      assert IsExpired(s.jobs[id], s.now) && RowFitsAt(s, id);
    }
  }

  /** Every job in flight at the start of the stretch is served in it, or settled by its end. */
  ghost predicate IsRound(states: seq<System>, events: seq<Event>, a: nat, b: nat) {
    && a <= b < |states| == |events| + 1
    && forall id :: id in states[a].jobs && InFlight(states[a].jobs[id]) ==> IsServed(states, events, a, b, id)
  }

  ghost predicate IsServed(states: seq<System>, events: seq<Event>, a: nat, b: nat, id: JobId)
    requires a <= b < |states| == |events| + 1
  {
    || (id in states[b].jobs && Settled(states[b].jobs[id]))
    || exists k :: a <= k < b && Serves(states[k], events[k], id)
  }

  lemma {:induction false} MovesOnce(states: seq<System>, id: JobId, a: nat, k: nat, b: nat)
    requires a <= k < b < |states| && MovedAt(states, id, k)
    ensures Moves(states, id, a, b) >= 1
  {
    if k < b - 1 {
      MovesOnce(states, id, a, k, b - 1);
    }
  }

  lemma RoundPays(states: seq<System>, events: seq<Event>, a: nat, b: nat, id: JobId)
    requires Run(states, events) && IsRound(states, events, a, b) && id in states[a].jobs
    ensures id in states[b].jobs && states[b].jobs[id].maxAttempts == states[a].jobs[id].maxAttempts
    ensures 0 <= Potential(states[b].jobs[id]) <= Potential(states[a].jobs[id])
    ensures Settled(states[b].jobs[id]) || Potential(states[b].jobs[id]) < Potential(states[a].jobs[id])
  {
    JobsStay(states, events, id, a, b);
    MovesAreBounded(states, events, id, a, b);
    if Settled(states[a].jobs[id]) {
      SettledStays(states, events, id, a, b);
    } else {
      assert IsServed(states, events, a, b, id);
      if k :| a <= k < b && Serves(states[k], events[k], id) {
        Reachable(states, events, k);
        assert Takes(states[k], events[k], states[k + 1]);
        ServingMoves(states[k], events[k], id);
        MovesOnce(states, id, a, k, b);
      }
    }
  }

  lemma {:induction false} RoundsPay(states: seq<System>, events: seq<Event>, cuts: seq<nat>, n: nat, id: JobId)
    requires Run(states, events) && n < |cuts| && cuts[0] < |states| && id in states[cuts[0]].jobs
    requires forall k :: 0 <= k < n ==> IsRound(states, events, cuts[k], cuts[k + 1])
    ensures cuts[n] < |states| && id in states[cuts[n]].jobs
    ensures states[cuts[n]].jobs[id].maxAttempts == states[cuts[0]].jobs[id].maxAttempts
    ensures || Settled(states[cuts[n]].jobs[id])
            || Potential(states[cuts[n]].jobs[id]) + n <= Potential(states[cuts[0]].jobs[id])
  {
    if n > 0 {
      RoundsPay(states, events, cuts, n - 1, id);
      assert IsRound(states, events, cuts[n - 1], cuts[n]);
      RoundPays(states, events, cuts[n - 1], cuts[n], id);
      if Settled(states[cuts[n - 1]].jobs[id]) {
        SettledStays(states, events, id, cuts[n - 1], cuts[n]);
      }
    }
  }

  /**
   Whatever else happens, and however the rounds are cut, a job is settled after 2 * max_attempts rounds in
   each of which every job in flight was claimed or swept once.
   */
  lemma RoundsSettle(states: seq<System>, events: seq<Event>, cuts: seq<nat>, id: JobId)
    requires Run(states, events) && |cuts| > 0 && cuts[0] < |states| && id in states[cuts[0]].jobs
    requires forall k :: 0 <= k < |cuts| - 1 ==> IsRound(states, events, cuts[k], cuts[k + 1])
    requires |cuts| > 2 * states[cuts[0]].jobs[id].maxAttempts
    ensures cuts[|cuts| - 1] < |states| && id in states[cuts[|cuts| - 1]].jobs
    ensures Settled(states[cuts[|cuts| - 1]].jobs[id])
  {
    RoundsPay(states, events, cuts, |cuts| - 1, id);
    Reachable(states, events, cuts[0]);
    assert RowFitsAt(states[cuts[0]], id);
    Reachable(states, events, cuts[|cuts| - 1]);
    assert RowFitsAt(states[cuts[|cuts| - 1]], id);
  }

  // ---------------------------------------------------------------------------------------
  // The bound on moves is attained
  // ---------------------------------------------------------------------------------------

  /** The only job, back in the queue after `n` attempts, with the worker idle. */
  predicate IsBack(s: System, id: JobId, w: WorkerId, spec: JobSpec, n: nat) {
    && s.jobs.Keys == {id} && s.claims.Keys == {id} && s.now == 0 && s.workers.Keys <= {w} && Of(s, w).Idle?
    && s.jobs[id].status == Pending && s.jobs[id].attempts == n && s.jobs[id].maxAttempts == spec.maxAttempts
    && s.jobs[id].runAfter == 0
  }

  /** The only job, running its `n`-th attempt. */
  predicate IsTaken(s: System, id: JobId, w: WorkerId, spec: JobSpec, n: nat) {
    && s.jobs.Keys == {id} && s.claims.Keys == {id} && s.now == 0 && s.workers.Keys <= {w}
    && Of(s, w) == Working(id, n, spec.maxAttempts, false)
    && s.jobs[id].status == Running && s.jobs[id].lockedBy == Some(w) && s.jobs[id].attempts == n
    && s.jobs[id].maxAttempts == spec.maxAttempts
  }

  predicate IsOver(s: System, id: JobId) {
    id in s.jobs && s.jobs[id].status == Failed
  }

  lemma Extend(states: seq<System>, events: seq<Event>, e: Event)
    returns (states': seq<System>, events': seq<Event>)
    requires Run(states, events) && Enabled(states[|events|], e)
    ensures states' == states + [Step(states[|events|], e)] && events' == events + [e] && Run(states', events')
  {
    states', events' := states + [Step(states[|events|], e)], events + [e];
    forall i | 0 <= i < |events'| ensures Takes(states'[i], events'[i], states'[i + 1]) {
      assert i < |events| ==> Takes(states[i], events[i], states[i + 1]);
    }
  }

  lemma {:induction false} MovesOfPrefix(states: seq<System>, more: seq<System>, id: JobId, i: nat, j: nat)
    requires i <= j < |states| && states <= more
    ensures Moves(more, id, i, j) == Moves(states, id, i, j)
  {
    if i < j {
      MovesOfPrefix(states, more, id, i, j - 1);
    }
  }

  lemma ClaimAlone(s: System, id: JobId, w: WorkerId, spec: JobSpec, n: nat) returns (s1: System, s2: System)
    requires n < spec.maxAttempts && IsBack(s, id, w, spec, n)
    ensures Takes(s, BeginClaim(w, None, Some(id)), s1) && Takes(s1, CommitClaim(w, 0), s2)
    ensures s1.jobs == s.jobs && IsTaken(s2, id, w, spec, n + 1)
  {
    assert Ready(s.jobs, s.now, None, Locked(s)) == {id};
    s1 := Step(s, BeginClaim(w, None, Some(id)));
    s2 := Step(s1, CommitClaim(w, 0));
    assert s2.jobs.Keys == {id} && s2.claims.Keys == {id};
  }

  lemma FailAlone(s: System, id: JobId, w: WorkerId, spec: JobSpec, n: nat) returns (s': System)
    requires n <= spec.maxAttempts && IsTaken(s, id, w, spec, n)
    ensures Takes(s, FailForNow(w, "failed", 0), s')
    ensures if n < spec.maxAttempts then IsBack(s', id, w, spec, n) else IsOver(s', id)
  {
    s' := Step(s, FailForNow(w, "failed", 0));
    assert s'.jobs.Keys == {id};
  }

  lemma TwoOfThree(states: seq<System>, id: JobId, k: nat)
    requires 1 <= k && k + 3 < |states| && !MovedAt(states, id, k) && MovedAt(states, id, k + 1)
    requires MovedAt(states, id, k + 2)
    ensures Moves(states, id, 1, k + 3) == Moves(states, id, 1, k) + 2
  {
    assert Moves(states, id, 1, k + 1) == Moves(states, id, 1, k);
    assert Moves(states, id, 1, k + 2) == Moves(states, id, 1, k) + 1;
  }

  /** One more attempt that fails: a claim and what the worker makes of the failure. */
  lemma {:induction false} FailOnce(states: seq<System>, events: seq<Event>, id: JobId, w: WorkerId, spec: JobSpec,
        n: nat)
    returns (states': seq<System>, events': seq<Event>)
    requires Run(states, events) && |events| > 0 && n < spec.maxAttempts && IsBack(states[|events|], id, w, spec, n)
    ensures Run(states', events') && states <= states' && events <= events' && |events'| == |events| + 3
    ensures if n + 1 < spec.maxAttempts then IsBack(states'[|events'|], id, w, spec, n + 1)
            else IsOver(states'[|events'|], id)
    ensures Moves(states', id, 1, |events'|) == Moves(states', id, 1, |events|) + 2
    ensures Moves(states', id, 1, |events|) == Moves(states, id, 1, |events|)
  {
    var s1, s2 := ClaimAlone(states[|events|], id, w, spec, n);
    var s3 := FailAlone(s2, id, w, spec, n + 1);
    states', events' := Extend(states, events, BeginClaim(w, None, Some(id)));
    states', events' := Extend(states', events', CommitClaim(w, 0));
    states', events' := Extend(states', events', FailForNow(w, "failed", 0));
    MovesOfPrefix(states, states', id, 1, |events|);
    assert states' == states + [s1, s2, s3];
    TwoOfThree(states', id, |events|);
  }

  lemma {:induction false} FailTimes(id: JobId, w: WorkerId, spec: JobSpec, n: nat)
    returns (states: seq<System>, events: seq<Event>)
    requires n <= spec.maxAttempts && spec.runAfter.None?
    ensures Run(states, events) && |events| > 0 && events[0] == Enqueue(id, spec) && EnqueuesAt(states, events, 0)
    ensures if n < spec.maxAttempts then IsBack(states[|events|], id, w, spec, n) else IsOver(states[|events|], id)
    ensures Moves(states, id, 1, |events|) == 2 * n
  {
    if n == 0 {
      var start := System(0, map[], map[], map[]);
      assert Initial(start) && !IsRefused(map[], spec, 0);
      states, events := Extend([start], [], Enqueue(id, spec));
      assert states[1].jobs.Keys == {id} && states[1].claims.Keys == {id};
    } else {
      var states0, events0 := FailTimes(id, w, spec, n - 1);
      states, events := FailOnce(states0, events0, id, w, spec, n - 1);
    }
  }

  /** A job that fails every time moves 2 * max_attempts times: the bound is the least one. */
  lemma BoundIsReached(id: JobId, w: WorkerId, spec: JobSpec) returns (states: seq<System>, events: seq<Event>)
    requires spec.runAfter.None?
    ensures Run(states, events) && |events| > 0 && EnqueuesAt(states, events, 0) && events[0] == Enqueue(id, spec)
    ensures Moves(states, id, 1, |events|) == 2 * spec.maxAttempts && IsOver(states[|events|], id)
  {
    states, events := FailTimes(id, w, spec, spec.maxAttempts);
  }
}
