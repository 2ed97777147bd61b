/**
 Downgrading tables that have been written to since the upgrade: which rows come back, when the
 constraints of 0027 can be added again, and when a later upgrade would find the same sessions.
 */
module ChatDowngrade {
  import opened Options
  import opened SessionGrouping
  import opened Transcript
  import opened ChatMigration
  import opened ChatMigrationProofs

  /** The join takes the turn at `q` for the answer to the question at `p`. */
  predicate IsAnswerAt(turns: seq<Turn>, p: nat, q: nat)
    requires p < |turns| && q < |turns|
  {
    turns[p].role == User && Answers(turns[q], turns[p])
  }

  /** The row a question comes back as: with its answer, or with none when no turn answers it. */
  ghost predicate ComesBack(turns: seq<Turn>, p: nat, r: Exchange)
    requires p < |turns|
  {
    && turns[p].role == User && turns[p].intent.Some?
    && ((exists q: nat :: q < |turns| && IsAnswerAt(turns, p, q) && r == Rejoined(turns[p], Some(turns[q])))
        || ((forall q: nat :: q < |turns| ==> !IsAnswerAt(turns, p, q)) && r == Rejoined(turns[p], None)))
  }

  /** With unique ordinals the join finds at most one answer to a question. */
  lemma JoinIsSingle(turns: seq<Turn>, p: nat)
    requires UniqueOrdinals(turns) && p < |turns| && turns[p].role == User && turns[p].intent.Some?
    ensures |JoinRow(turns, turns[p])| == 1
    ensures forall r :: r in JoinRow(turns, turns[p]) <==> ComesBack(turns, p, r)
  {
    var u := turns[p];
    assert turns[..|turns|] == turns;
    if q: nat :| q < |turns| && IsAnswerAt(turns, p, q) {
      OneMatch(turns, u, q, |turns|);
      assert JoinRow(turns, u) == [Rejoined(u, Some(turns[q]))];
      forall q': nat | q' < |turns| && IsAnswerAt(turns, p, q') ensures q' == q {
      }
    } else {
      forall q | 0 <= q < |turns| ensures !Answers(turns[q], u) {
        assert !IsAnswerAt(turns, p, q);
      }
      NoMatch(turns, u, |turns|);
    }
  }

  ghost predicate SomeComesBack(turns: seq<Turn>, n: nat, r: Exchange)
    requires n <= |turns|
  {
    exists p: nat :: p < n && ComesBack(turns, p, r)
  }

  lemma OneMoreComesBack(turns: seq<Turn>, n: nat, r: Exchange)
    requires 0 < n <= |turns|
    ensures SomeComesBack(turns, n, r) <==> SomeComesBack(turns, n - 1, r) || ComesBack(turns, n - 1, r)
  {
  }

  /** The downgraded table holds one row a question, and nothing else. */
  lemma {:induction false} DowngradedRows(turns: seq<Turn>, n: nat, r: Exchange)
    requires UniqueOrdinals(turns) && UsersHaveIntent(turns) && n <= |turns|
    ensures r in Downgraded(turns, n) <==> SomeComesBack(turns, n, r)
  {
    if n > 0 {
      DowngradedRows(turns, n - 1, r);
      if turns[n - 1].role == User {
        JoinIsSingle(turns, n - 1);
      }
      OneMoreComesBack(turns, n, r);
    }
  }

  /** The id of one of the first `n` turns. */
  predicate IsIdOf(turns: seq<Turn>, n: nat, id: Uuid)
    requires n <= |turns|
  {
    exists p :: 0 <= p < n && turns[p].id == id
  }

  ghost predicate IdsFrom(rows: seq<Exchange>, turns: seq<Turn>, n: nat)
    requires n <= |turns|
  {
    DistinctIds(rows) && forall i :: 0 <= i < |rows| ==> IsIdOf(turns, n, rows[i].id)
  }

  lemma OneMoreId(rows: seq<Exchange>, r: Exchange, turns: seq<Turn>, n: nat)
    requires n < |turns| && IdsFrom(rows, turns, n) && r.id == turns[n].id
    requires forall p, q :: 0 <= p < q < |turns| ==> turns[p].id != turns[q].id
    ensures IdsFrom(rows + [r], turns, n + 1)
  {
    var all := rows + [r];
    forall i | 0 <= i < |all| ensures IsIdOf(turns, n + 1, all[i].id) {
      assert i < |rows| ==> IsIdOf(turns, n, rows[i].id);
    }
    forall i, j | 0 <= i < j < |all| ensures all[i].id != all[j].id {
      assert IsIdOf(turns, n, rows[i].id);
    }
  }

  lemma NoMoreIds(rows: seq<Exchange>, turns: seq<Turn>, n: nat)
    requires n < |turns| && IdsFrom(rows, turns, n)
    ensures IdsFrom(rows, turns, n + 1)
  {
    forall i | 0 <= i < |rows| ensures IsIdOf(turns, n + 1, rows[i].id) {
      assert IsIdOf(turns, n, rows[i].id);
    }
  }

  /** The downgraded rows have distinct ids, each that of a turn. */
  lemma {:induction false} DowngradedIdsDiffer(turns: seq<Turn>, n: nat)
    requires UniqueOrdinals(turns) && UsersHaveIntent(turns) && n <= |turns|
    requires forall p, q :: 0 <= p < q < |turns| ==> turns[p].id != turns[q].id
    ensures IdsFrom(Downgraded(turns, n), turns, n)
  {
    if n > 0 {
      DowngradedIdsDiffer(turns, n - 1);
      var before := Downgraded(turns, n - 1);
      if turns[n - 1].role == User {
        JoinIsSingle(turns, n - 1);
        var joined := JoinRow(turns, turns[n - 1]);
        assert joined[0] in joined && joined == [joined[0]];
        OneMoreId(before, joined[0], turns, n - 1);
      } else {
        NoMoreIds(before, turns, n - 1);
        assert Downgraded(turns, n) == before;
      }
    }
  }

  // ---------------------------------------------------------------------------------------
  // How many answers come back
  // ---------------------------------------------------------------------------------------

  function CountAnswered(rows: seq<Exchange>): nat {
    if rows == [] then 0 else CountAnswered(rows[..|rows| - 1]) + if rows[|rows| - 1].answer.Some? then 1 else 0
  }

  lemma CountOneMore(rows: seq<Exchange>, r: Exchange)
    ensures CountAnswered(rows + [r]) == CountAnswered(rows) + if r.answer.Some? then 1 else 0
  {
    assert (rows + [r])[..|rows|] == rows;
  }

  /** The turn at `q` stands right after one of the first `n` turns, a question of its session. */
  ghost predicate AnswersOneOf(turns: seq<Turn>, n: nat, q: nat) {
    n <= |turns| && q < |turns| && exists p: nat :: p < n && IsAnswerAt(turns, p, q)
  }

  ghost function AnswersTo(turns: seq<Turn>, n: nat): set<nat>
    requires n <= |turns|
  {
    set q: nat | q < |turns| && AnswersOneOf(turns, n, q)
  }

  /** How many answers come back on the row of one turn. */
  function Rejoins(turns: seq<Turn>, n: nat): nat
    requires UsersHaveIntent(turns) && n < |turns|
  {
    if turns[n].role == User then CountAnswered(JoinRow(turns, turns[n])) else 0
  }

  lemma OneMoreQuestion(turns: seq<Turn>, n: nat)
    requires UniqueOrdinals(turns) && UsersHaveIntent(turns) && n < |turns|
    ensures |AnswersTo(turns, n + 1)| == |AnswersTo(turns, n)| + Rejoins(turns, n)
  {
    forall q: nat | q < |turns| && !(turns[n].role == User && Answers(turns[q], turns[n]))
      ensures AnswersOneOf(turns, n + 1, q) <==> AnswersOneOf(turns, n, q)
    {
      if AnswersOneOf(turns, n + 1, q) {
        var p: nat :| p < n + 1 && IsAnswerAt(turns, p, q);
        assert p != n;
      }
      if AnswersOneOf(turns, n, q) {
        var p: nat :| p < n && IsAnswerAt(turns, p, q);
        assert p < n + 1;
      }
    }
    if turns[n].role == User {
      JoinIsSingle(turns, n);
      var joined := JoinRow(turns, turns[n]);
      assert joined[0] in joined && joined == [] + [joined[0]];
      CountOneMore([], joined[0]);
      if q: nat :| q < |turns| && IsAnswerAt(turns, n, q) {
        NewAnswer(turns, n, q);
      } else {
        assert AnswersTo(turns, n + 1) == AnswersTo(turns, n);
      }
    } else {
      assert AnswersTo(turns, n + 1) == AnswersTo(turns, n);
    }
  }

  lemma NewAnswer(turns: seq<Turn>, n: nat, q: nat)
    requires UniqueOrdinals(turns) && n < |turns| && q < |turns| && IsAnswerAt(turns, n, q)
    requires forall r: nat :: r < |turns| && !(turns[n].role == User && Answers(turns[r], turns[n])) ==>
               (AnswersOneOf(turns, n + 1, r) <==> AnswersOneOf(turns, n, r))
    ensures |AnswersTo(turns, n + 1)| == |AnswersTo(turns, n)| + 1
  {
    assert !AnswersOneOf(turns, n, q);
    assert AnswersOneOf(turns, n + 1, q);
    forall r: nat | r < |turns| ensures r in AnswersTo(turns, n + 1) <==> r in AnswersTo(turns, n) + {q} {
      if r != q && Answers(turns[r], turns[n]) {
        assert false;
      }
    }
    assert AnswersTo(turns, n + 1) == AnswersTo(turns, n) + {q};
  }

  lemma OneMoreDowngraded(turns: seq<Turn>, n: nat)
    requires UniqueOrdinals(turns) && UsersHaveIntent(turns) && n < |turns|
    ensures CountAnswered(Downgraded(turns, n + 1))
         == CountAnswered(Downgraded(turns, n)) + Rejoins(turns, n)
  {
    if turns[n].role == User {
      JoinIsSingle(turns, n);
      var joined := JoinRow(turns, turns[n]);
      var r := joined[0];
      assert joined == [] + [r];
      CountOneMore([], r);
      CountOneMore(Downgraded(turns, n), r);
      assert CountAnswered([]) == 0;
    } else {
      assert Downgraded(turns, n + 1) == Downgraded(turns, n);
    }
  }

  /** As many answers come back as there are turns right after a question of their session. */
  lemma {:induction false} AnswersKept(turns: seq<Turn>, n: nat)
    requires UniqueOrdinals(turns) && UsersHaveIntent(turns) && n <= |turns|
    ensures CountAnswered(Downgraded(turns, n)) == |AnswersTo(turns, n)|
  {
    if n == 0 {
      NoQuestions(turns);
    } else {
      AnswersKept(turns, n - 1);
      OneMoreAnswered(turns, n);
    }
  }

  lemma NoQuestions(turns: seq<Turn>)
    requires UsersHaveIntent(turns)
    ensures CountAnswered(Downgraded(turns, 0)) == |AnswersTo(turns, 0)|
  {
    assert AnswersTo(turns, 0) == {};
  }

  lemma OneMoreAnswered(turns: seq<Turn>, n: nat)
    requires UniqueOrdinals(turns) && UsersHaveIntent(turns) && 0 < n <= |turns|
    requires CountAnswered(Downgraded(turns, n - 1)) == |AnswersTo(turns, n - 1)|
    ensures CountAnswered(Downgraded(turns, n)) == |AnswersTo(turns, n)|
  {
    OneMoreQuestion(turns, n - 1);
    OneMoreDowngraded(turns, n - 1);
  }

  function Assistants(turns: seq<Turn>): set<nat> {
    set q: nat | q < |turns| && turns[q].role == Assistant
  }

  /** No answer is lost if and only if every assistant turn is right after a question of its session. */
  lemma NoAnswerIsLostIff(turns: seq<Turn>)
    requires UniqueOrdinals(turns) && UsersHaveIntent(turns)
    ensures CountAnswered(Downgrade(turns)) <= |Assistants(turns)|
    ensures CountAnswered(Downgrade(turns)) == |Assistants(turns)|
       <==> forall q: nat :: q in Assistants(turns) ==> AnswersOneOf(turns, |turns|, q)
  {
    AnswersKept(turns, |turns|);
    var kept, all := AnswersTo(turns, |turns|), Assistants(turns);
    forall q: nat ensures q in kept <==> q in all && AnswersOneOf(turns, |turns|, q) {
    }
    PartIsAllIff(kept, all);
  }

  lemma PartIsAllIff(part: set<nat>, all: set<nat>)
    requires part <= all
    ensures |part| <= |all| && (|part| == |all| <==> forall q :: q in all ==> q in part)
  {
    assert all == (all - part) + part;
    assert |all| == |all - part| + |part|;
    if |part| == |all| {
      assert all - part == {};
    }
    if forall q :: q in all ==> q in part {
      assert part == all;
    }
  }

  // ---------------------------------------------------------------------------------------
  // When the old constraints can be added again
  // ---------------------------------------------------------------------------------------

  /** Every answered question may be answered, and every answer to one says whether it refused. */
  ghost predicate AnswersAreVerdicts(turns: seq<Turn>) {
    forall p: nat, q: nat :: p < |turns| && q < |turns| && IsAnswerAt(turns, p, q) ==>
      turns[q].answerRefused.Some? && turns[p].intent != Some(Statement)
  }

  /**
   0028 asks less of an answer than 0027 did. The downgrade can put the old constraints back if
   and only if no statement is followed by an answer and no such answer lacks its verdict.
   */
  lemma DowngradeChecksIff(turns: seq<Turn>)
    requires UniqueOrdinals(turns) && forall p :: 0 <= p < |turns| ==> TurnChecks(turns[p])
    ensures UsersHaveIntent(turns)
    ensures (forall i :: 0 <= i < |Downgrade(turns)| ==> ExchangeChecks(Downgrade(turns)[i]))
       <==> AnswersAreVerdicts(turns)
  {
    var back := Downgrade(turns);
    if AnswersAreVerdicts(turns) {
      forall i | 0 <= i < |back| ensures ExchangeChecks(back[i]) {
        DowngradedRows(turns, |turns|, back[i]);
        var p: nat :| p < |turns| && ComesBack(turns, p, back[i]);
        assert TurnChecks(turns[p]);
      }
    }
    if forall i :: 0 <= i < |back| ==> ExchangeChecks(back[i]) {
      forall p: nat, q: nat | p < |turns| && q < |turns| && IsAnswerAt(turns, p, q)
        ensures turns[q].answerRefused.Some? && turns[p].intent != Some(Statement)
      {
        var r := Rejoined(turns[p], Some(turns[q]));
        assert ComesBack(turns, p, r);
        DowngradedRows(turns, |turns|, r);
      }
    }
  }

  // ---------------------------------------------------------------------------------------
  // Sessions that were not made by the clock
  // ---------------------------------------------------------------------------------------

  /** No boundary was drawn inside the window, none missing at a gap, and no session was left and resumed. */
  predicate FollowsTheClock(ats: seq<Micros>, labels: seq<Uuid>)
    requires |ats| == |labels|
  {
    && (forall i {:trigger CutAtGaps(ats, labels, i)} :: 0 < i < |ats| ==> CutAtGaps(ats, labels, i))
    && (forall i, p, j {:trigger StayedIn(labels, i, p, j)} :: 0 <= i < p < j < |ats| ==> StayedIn(labels, i, p, j))
  }

  predicate CutAtGaps(ats: seq<Micros>, labels: seq<Uuid>, i: nat)
    requires 0 < i < |ats| == |labels|
  {
    labels[i - 1] == labels[i] <==> ats[i] - ats[i - 1] < GAP
  }

  predicate StayedIn(labels: seq<Uuid>, i: nat, p: nat, j: nat)
    requires i < p < j < |labels|
  {
    labels[i] == labels[j] ==> labels[p] == labels[i]
  }

  lemma {:induction false} RunOfOneLabel(ats: seq<Micros>, labels: seq<Uuid>, i: nat, j: nat)
    requires |ats| == |labels| && FollowsTheClock(ats, labels) && i <= j < |ats|
    ensures Number(ats, i) == Number(ats, j) <==> labels[i] == labels[j]
  {
    NumberGrows(ats, i, j);
    if i < j {
      RunOfOneLabel(ats, labels, i, j - 1);
      NumberGrows(ats, i, j - 1);
      assert CutAtGaps(ats, labels, j);
      assert i < j - 1 ==> StayedIn(labels, i, j - 1, j);
    }
  }

  /**
   Regrouping by the clock recovers the sessions the rows were in (`labels`) if and only if those
   sessions follow the clock: besides boundaries drawn by hand inside the window, sessions resumed
   after thirty minutes of silence are not recovered.
   */
  lemma RegroupingRecoversIff(ats: seq<Micros>, labels: seq<Uuid>)
    requires Nondecreasing(ats) && |ats| == |labels|
    ensures (forall i: nat, j: nat :: i < |ats| && j < |ats| ==>
              (Number(ats, i) == Number(ats, j) <==> labels[i] == labels[j]))
       <==> FollowsTheClock(ats, labels)
  {
    if FollowsTheClock(ats, labels) {
      forall i: nat, j: nat | i < |ats| && j < |ats|
        ensures Number(ats, i) == Number(ats, j) <==> labels[i] == labels[j]
      {
        RunOfOneLabel(ats, labels, if i <= j then i else j, if i <= j then j else i);
      }
    }
    if forall i: nat, j: nat :: i < |ats| && j < |ats| ==>
         (Number(ats, i) == Number(ats, j) <==> labels[i] == labels[j]) {
      forall i | 0 < i < |ats| ensures CutAtGaps(ats, labels, i) {
        assert Number(ats, i) == Number(ats, i - 1) <==> !Opens(ats, i);
      }
      forall i, p, j | 0 <= i < p < j < |ats| ensures StayedIn(labels, i, p, j) {
        if labels[i] == labels[j] {
          SessionsAreContiguous(ats, i, p, j);
        }
      }
    }
  }
}
