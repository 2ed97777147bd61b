/**
 The client under the panel: one request with every failure turned into a value, and the polling
 loop over it. The server is a sequence of replies, one for each request that is made; a client
 has one caller at a time.
 */
module ContextClient {
  const TIMEOUT_MS: nat := 4000
  const POLL_ATTEMPTS: nat := 4
  const POLL_INTERVAL_MS: nat := 700

  /** A body that parses, reduced to whether `body?.ready` holds; or one that does not. */
  datatype Body = NotJson | Json(ready: bool)

  /** What comes back and when: the status line, then `bodyMs` later the end of the body. */
  datatype Reply =
    | Unreachable(afterMs: nat)
    | Response(headersMs: nat, bodyMs: nat, status: nat, body: Body)

  datatype Outcome = Failed | Building | Ready

  predicate Ok(status: nat) {
    200 <= status <= 299
  }

  /** Counted in `failures`: no response in time, or a status that is not a success. */
  predicate CountsAsFailure(r: Reply) {
    r.Unreachable? || r.headersMs > TIMEOUT_MS || !Ok(r.status)
  }

  /** The body is cut off or is not JSON: an error to the caller, but not a failure counted. */
  predicate Unreadable(r: Reply)
    requires !CountsAsFailure(r)
  {
    r.status != 204 && (r.headersMs + r.bodyMs > TIMEOUT_MS || r.body.NotJson?)
  }

  function OutcomeOf(r: Reply): Outcome {
    if CountsAsFailure(r) || Unreadable(r) then Failed
    else if r.status != 204 && r.body.ready then Ready
    else Building
  }

  function Min(a: nat, b: nat): nat {
    if a <= b then a else b
  }

  /** How long the request itself takes; the abort signal cuts it off at the timeout. */
  function Took(r: Reply): nat {
    if r.Unreachable? then Min(r.afterMs, TIMEOUT_MS)
    else if CountsAsFailure(r) || r.status == 204 then Min(r.headersMs, TIMEOUT_MS)
    else Min(r.headersMs + r.bodyMs, TIMEOUT_MS)
  }

  /** The wait before a request, after this many failures in a row. */
  function Pause(failures: nat): nat {
    if failures > 0 then Min(failures, 5) * 400 else 0
  }

  // ---------------------------------------------------------------------------------------
  // What one fetch amounts to
  // ---------------------------------------------------------------------------------------

  /** The first of the replies that ends the polling, or the number of attempts when none does. */
  function FirstDecisive(replies: seq<Reply>, i: nat): (first: nat)
    requires i <= POLL_ATTEMPTS <= |replies|
    ensures i <= first <= POLL_ATTEMPTS
    ensures forall j :: i <= j < first ==> OutcomeOf(replies[j]) == Building
    ensures first < POLL_ATTEMPTS ==> OutcomeOf(replies[first]) != Building
    decreases POLL_ATTEMPTS - i
  {
    if i == POLL_ATTEMPTS || OutcomeOf(replies[i]) != Building then i else FirstDecisive(replies, i + 1)
  }

  function TookInAll(replies: seq<Reply>, n: nat): nat
    requires n <= |replies|
  {
    if n == 0 then 0 else TookInAll(replies, n - 1) + Took(replies[n - 1])
  }

  /** The result, the requests made, the time slept between them, and the failures counted after. */
  datatype Fetch = Fetch(outcome: Outcome, requests: nat, slept: nat, elapsed: nat, failures: nat)

  function FetchOf(failures: nat, replies: seq<Reply>): Fetch
    requires POLL_ATTEMPTS <= |replies|
  {
    var first := FirstDecisive(replies, 0);
    var requests := Min(first + 1, POLL_ATTEMPTS);
    var slept := Pause(failures) + POLL_INTERVAL_MS * Min(first, POLL_ATTEMPTS - 1);
    Fetch(
      if first < POLL_ATTEMPTS then OutcomeOf(replies[first]) else Building,
      requests, slept, slept + TookInAll(replies, requests),
      if first < POLL_ATTEMPTS && CountsAsFailure(replies[first]) then (if first == 0 then failures + 1 else 1) else 0)
  }

  class Client {
    var failures: nat

    constructor ()
      ensures failures == 0
    {
      failures := 0;
    }

    /** One request, with every failure turned into a value. */
    method Send(r: Reply) returns (outcome: Outcome, slept: nat, took: nat)
      modifies this
      ensures outcome == OutcomeOf(r) && slept == Pause(old(failures)) && took == Took(r)
      ensures failures == if CountsAsFailure(r) then old(failures) + 1 else 0
    {
      slept := 0;
      if failures > 0 {
        slept := Min(failures, 5) * 400;
      }
      if r.Unreachable? {
        failures := failures + 1;
        return Failed, slept, Min(r.afterMs, TIMEOUT_MS);
      }
      if r.headersMs > TIMEOUT_MS {
        failures := failures + 1;
        return Failed, slept, TIMEOUT_MS;
      }
      if !Ok(r.status) && r.status != 202 {
        failures := failures + 1;
        return Failed, slept, r.headersMs;
      }
      failures := 0;
      if r.status == 204 {
        return Building, slept, r.headersMs;
      }
      if r.headersMs + r.bodyMs > TIMEOUT_MS {
        return Failed, slept, TIMEOUT_MS;
      }
      took := r.headersMs + r.bodyMs;
      match r.body
      case NotJson => outcome := Failed;
      case Json(ready) => outcome := if ready then Ready else Building;
    }

    /** Context for a focus, polling briefly while the server builds it. */
    method FetchContext(replies: seq<Reply>) returns (outcome: Outcome, requests: nat, slept: nat, elapsed: nat)
      requires POLL_ATTEMPTS <= |replies|
      modifies this
      ensures Fetch(outcome, requests, slept, elapsed, failures) == FetchOf(old(failures), replies)
    {
      requests, slept, elapsed := 0, 0, 0;
      var attempt := 0;
      while attempt < POLL_ATTEMPTS
        invariant attempt <= POLL_ATTEMPTS && requests == attempt
        invariant FirstDecisive(replies, 0) == FirstDecisive(replies, attempt)
        invariant attempt == 0 ==> failures == old(failures) && slept == 0
        invariant attempt > 0 ==>
                    && failures == 0
                    && slept == Pause(old(failures)) + POLL_INTERVAL_MS * Min(attempt, POLL_ATTEMPTS - 1)
        invariant elapsed == slept + TookInAll(replies, attempt)
      {
        var paused, took;
        outcome, paused, took := Send(replies[attempt]);
        requests := requests + 1;
        slept := slept + paused;
        elapsed := elapsed + paused + took;
        if outcome != Building {
          return;
        }
        if attempt < POLL_ATTEMPTS - 1 {
          slept := slept + POLL_INTERVAL_MS;
          elapsed := elapsed + POLL_INTERVAL_MS;
        }
        attempt := attempt + 1;
      }
      outcome := Building;
    }
  }

  // ---------------------------------------------------------------------------------------
  // The bound
  // ---------------------------------------------------------------------------------------

  lemma {:induction false} TookIsBounded(replies: seq<Reply>, n: nat)
    requires n <= |replies|
    ensures TookInAll(replies, n) <= n * TIMEOUT_MS
  {
    if n > 0 {
      TookIsBounded(replies, n - 1);
    }
  }

  /** From any number of failures: at most four requests, 4.1 seconds of waiting, 20.1 in all. */
  lemma FetchIsBounded(failures: nat, replies: seq<Reply>)
    requires POLL_ATTEMPTS <= |replies|
    ensures 1 <= FetchOf(failures, replies).requests <= 4
    ensures FetchOf(failures, replies).slept <= 2000 + 3 * 700
    ensures FetchOf(failures, replies).elapsed <= 20100
  {
    TookIsBounded(replies, FetchOf(failures, replies).requests);
  }

  /** The bound is the least one: a server that answers 202 just in time reaches it. */
  lemma BoundIsReached(failures: nat)
    requires failures >= 5
    ensures var slow := Response(1000, 3000, 202, Json(false));
            FetchOf(failures, [slow, slow, slow, slow]) == Fetch(Building, 4, 4100, 20100, 0)
  {
    var slow := Response(1000, 3000, 202, Json(false));
    var replies := [slow, slow, slow, slow];
    assert OutcomeOf(slow) == Building;
    assert FirstDecisive(replies, 3) == 4;
    assert FirstDecisive(replies, 1) == 4;
    assert TookInAll(replies, 1) == 4000;
    assert TookInAll(replies, 3) == 12000;
  }

  // ---------------------------------------------------------------------------------------
  // What a reply says
  // ---------------------------------------------------------------------------------------

  /** The headers of a success arrive within the four seconds. */
  predicate Succeeds(r: Reply) {
    r.Response? && r.headersMs <= 4000 && 200 <= r.status && r.status < 300
  }

  /** A success with a body that arrives in time, parses and says `ready`. */
  predicate SaysReady(r: Reply) {
    Succeeds(r) && r.status != 204 && r.headersMs + r.bodyMs <= 4000 && r.body == Json(true)
  }

  /** A success that has no body, or whose body arrives in time, parses and does not say `ready`. */
  predicate SaysNotYet(r: Reply) {
    Succeeds(r) && (r.status == 204 || (r.headersMs + r.bodyMs <= 4000 && r.body == Json(false)))
  }

  /** How a reply is taken, what it counts as and how long it holds the caller up. */
  lemma ReplyIs(r: Reply)
    ensures OutcomeOf(r) == (if SaysReady(r) then Ready else if SaysNotYet(r) then Building else Failed)
    ensures CountsAsFailure(r) <==> !Succeeds(r)
    ensures Took(r) <= 4000
    ensures r.Unreachable? && r.afterMs <= 4000 ==> Took(r) == r.afterMs
    ensures r.Response? && r.headersMs <= 4000 && (!Succeeds(r) || r.status == 204) ==> Took(r) == r.headersMs
    ensures Succeeds(r) && r.status != 204 && r.headersMs + r.bodyMs <= 4000 ==> Took(r) == r.headersMs + r.bodyMs
    ensures Took(r) < 4000 ==>
              || (r.Unreachable? && r.afterMs < 4000)
              || (r.Response? && r.headersMs < 4000
                  && (SaysReady(r) || SaysNotYet(r) || !Succeeds(r) || r.body.NotJson?))
  {
  }

  /** The wait a client begins with: 400 ms for each failure in a row, and no more than two seconds. */
  function Wait(failures: nat): nat {
    if failures < 5 then 400 * failures else 2000
  }

  /**
   A fetch in full: it ends with the `n`-th reply, the first that does not say to come back, or after four;
   it waits for earlier failures once and 700 ms after each reply but a last; it counts that reply.
   */
  lemma FetchIs(failures: nat, replies: seq<Reply>) returns (n: nat)
    requires 4 <= |replies|
    ensures n <= 4 && (forall j :: 0 <= j < n ==> SaysNotYet(replies[j])) && (n < 4 ==> !SaysNotYet(replies[n]))
    ensures var f := FetchOf(failures, replies);
            && f.outcome == (if n == 4 then Building else if SaysReady(replies[n]) then Ready else Failed)
            && f.requests == (if n < 4 then n + 1 else 4)
            && f.slept == Wait(failures) + 700 * (if n < 4 then n else 3)
            && f.elapsed == f.slept + TookInAll(replies, f.requests)
            && f.failures ==
               if n == 4 || Succeeds(replies[n]) then 0 else if n == 0 then failures + 1 else 1
  {
    n := FirstDecisive(replies, 0);
    forall r ensures OutcomeOf(r) == Building <==> SaysNotYet(r) {
      ReplyIs(r);
    }
    if n < 4 {
      ReplyIs(replies[n]);
    }
  }

  /** Ready exactly when, within four, the first response that is an error or ready is a ready one. */
  lemma ReadyIff(failures: nat, replies: seq<Reply>)
    requires POLL_ATTEMPTS <= |replies|
    ensures FetchOf(failures, replies).outcome == Ready <==>
              exists i :: 0 <= i < 4 && SaysReady(replies[i]) && forall j :: 0 <= j < i ==> SaysNotYet(replies[j])
  {
    var n := FetchIs(failures, replies);
    if i :| 0 <= i < 4 && SaysReady(replies[i]) && forall j :: 0 <= j < i ==> SaysNotYet(replies[j]) {
      assert i == n;
    }
  }

  /** A caller's wait never grows past the cap however long the server has been down. */
  lemma FailuresNeverLockOut(replies: seq<Reply>, failures: nat)
    requires POLL_ATTEMPTS <= |replies| && SaysReady(replies[0])
    ensures FetchOf(failures, replies).outcome == Ready && FetchOf(failures, replies).failures == 0
    ensures FetchOf(failures, replies).slept == Wait(failures) <= 2000
  {
    var n := FetchIs(failures, replies);
  }
}
