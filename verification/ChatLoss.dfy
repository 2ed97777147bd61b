/**
 What a downgrade and a second upgrade lose of tables that have been written to since the first: the
 exact condition under which every turn and every session comes back, and tables that do not meet it.
 */
module ChatLoss {
  import opened Options
  import opened SessionGrouping
  import opened Transcript
  import opened ChatMigration
  import opened ChatMigrationProofs
  import opened ChatDowngrade

  // ---------------------------------------------------------------------------------------
  // Coming back
  // ---------------------------------------------------------------------------------------

  /** The rows that the second upgrade reads: the downgraded ones, in the order of its window query. */
  function RowsAgain(turns: seq<Turn>): seq<Exchange>
    requires UsersHaveIntent(turns)
  {
    Sort(Downgrade(turns))
  }

  /** The same turn, under a new id and in the session that takes its session's place. */
  predicate ReturnsAs(t: Turn, t': Turn, names: map<Uuid, Uuid>) {
    t.session in names && t' == t.(id := t'.id, session := names[t.session])
  }

  predicate SessionReturnsAs(s: ChatSession, s': ChatSession, names: map<Uuid, Uuid>) {
    s.id in names && s' == s.(id := names[s.id])
  }

  ghost predicate Injective(names: map<Uuid, Uuid>) {
    forall s, t :: s in names && t in names && names[s] == names[t] ==> s == t
  }

  ghost predicate Somewhere(t: Turn, turns: seq<Turn>, names: map<Uuid, Uuid>) {
    exists p :: 0 <= p < |turns| && ReturnsAs(t, turns[p], names)
  }

  ghost predicate FromSomewhere(t': Turn, turns: seq<Turn>, names: map<Uuid, Uuid>) {
    exists p :: 0 <= p < |turns| && ReturnsAs(turns[p], t', names)
  }

  ghost predicate SessionSomewhere(s: ChatSession, sessions: seq<ChatSession>, names: map<Uuid, Uuid>) {
    exists k :: 0 <= k < |sessions| && SessionReturnsAs(s, sessions[k], names)
  }

  ghost predicate SessionFromSomewhere(s': ChatSession, sessions: seq<ChatSession>, names: map<Uuid, Uuid>) {
    exists k :: 0 <= k < |sessions| && SessionReturnsAs(sessions[k], s', names)
  }

  /**
   The second upgrade gives the tables back, up to the ids it draws: every turn and every session, and no
   other turn or session.
   */
  ghost predicate Restores(sessions: seq<ChatSession>, turns: seq<Turn>, sids: seq<Uuid>, tids: seq<Uuid>,
        names: map<Uuid, Uuid>)
    requires UsersHaveIntent(turns) && Draws(RowsAgain(turns), sids, tids)
  {
    var rows := RowsAgain(turns);
    var turns' := LoadedTurns(rows, sids, tids);
    var sessions' := LoadedSessions(rows, sids, turns');
    && Injective(names)
    && (forall p {:trigger Somewhere(turns[p], turns', names)} ::
          0 <= p < |turns| ==> Somewhere(turns[p], turns', names))
    && (forall p {:trigger FromSomewhere(turns'[p], turns, names)} ::
          0 <= p < |turns'| ==> FromSomewhere(turns'[p], turns, names))
    && (forall k {:trigger SessionSomewhere(sessions[k], sessions', names)} ::
          0 <= k < |sessions| ==> SessionSomewhere(sessions[k], sessions', names))
    && (forall k {:trigger SessionFromSomewhere(sessions'[k], sessions, names)} ::
          0 <= k < |sessions'| ==> SessionFromSomewhere(sessions'[k], sessions, names))
  }

  // ---------------------------------------------------------------------------------------
  // The condition
  // ---------------------------------------------------------------------------------------

  /** The position of the turn with an id, or the number of turns. */
  function IndexOfId(turns: seq<Turn>, id: Uuid): (p: nat)
    ensures p <= |turns| && (p < |turns| ==> turns[p].id == id)
    ensures p == |turns| ==> forall q :: 0 <= q < |turns| ==> turns[q].id != id
  {
    if turns == [] then 0 else if turns[0].id == id then 0 else 1 + IndexOfId(turns[1..], id)
  }

  function SessionOfId(turns: seq<Turn>, id: Uuid): Uuid {
    var p := IndexOfId(turns, id);
    if p < |turns| then turns[p].session else 0
  }

  /** The sessions that the questions are in, in the order of the window query. */
  function Labels(turns: seq<Turn>, rows: seq<Exchange>): (labels: seq<Uuid>)
    ensures |labels| == |rows|
  {
    seq(|rows|, i requires 0 <= i < |rows| => SessionOfId(turns, rows[i].id))
  }

  /** (a) Every answer is right after a question of its session, and was written with it. */
  ghost predicate AnswersFollow(turns: seq<Turn>) {
    forall q: nat {:trigger FollowsItsQuestion(turns, q)} ::
      q < |turns| && turns[q].role == Assistant ==> FollowsItsQuestion(turns, q)
  }

  ghost predicate FollowsItsQuestion(turns: seq<Turn>, q: nat)
    requires q < |turns|
  {
    exists p: nat :: p < |turns| && IsAnswerAt(turns, p, q) && turns[p].at == turns[q].at
  }

  /** (b) Ordinals start at 0 and leave no hole in a session. */
  ghost predicate NoHoles(turns: seq<Turn>) {
    forall p, o {:trigger Taken(turns, turns[p].session, o)} ::
      0 <= p < |turns| && 0 <= o < turns[p].ordinal ==> Taken(turns, turns[p].session, o)
  }

  /** The ordinal that counting gives in a session after the first `n` rows: one a row, two with an answer. */
  function Standing(rows: seq<Exchange>, labels: seq<Uuid>, s: Uuid, n: nat): nat
    requires n <= |rows| == |labels|
  {
    if n == 0 then 0 else Standing(rows, labels, s, n - 1) + if labels[n - 1] == s then Halves(rows[n - 1]) else 0
  }

  /** Some turn is `t`, at that ordinal and under some id. */
  ghost predicate Holds(turns: seq<Turn>, t: Turn, ordinal: int) {
    exists q :: 0 <= q < |turns| && turns[q].(id := 0) == t.(id := 0, ordinal := ordinal)
  }

  /** Where counting puts a row's question, its session has a turn like that, and next its answer. */
  ghost predicate InPlaceAt(turns: seq<Turn>, rows: seq<Exchange>, labels: seq<Uuid>, i: nat)
    requires i < |rows| == |labels|
  {
    var place := Standing(rows, labels, labels[i], i);
    && Holds(turns, UserTurn(rows[i], labels[i]), place)
    && (HasAnswer(rows[i]) ==> Holds(turns, AssistantTurn(rows[i], labels[i]), place + 1))
  }

  /** (b) and counting the questions by time and id puts each of them where one like it stands. */
  ghost predicate FallInPlace(turns: seq<Turn>)
    requires UsersHaveIntent(turns)
  {
    forall i: nat {:trigger InPlaceAt(turns, RowsAgain(turns), Labels(turns, RowsAgain(turns)), i)} ::
      i < |RowsAgain(turns)| ==> InPlaceAt(turns, RowsAgain(turns), Labels(turns, RowsAgain(turns)), i)
  }

  /** One question before another of the same session, by time and then by id. */
  predicate AskedBefore(t: Turn, u: Turn) {
    && t.role == User && u.role == User && t.session == u.session
    && (t.at < u.at || (t.at == u.at && t.id < u.id))
  }

  /** In particular, the questions of a session may be numbered in the order of their times and ids. */
  ghost predicate NumberedByTime(turns: seq<Turn>) {
    forall p, q {:trigger AskedBefore(turns[p], turns[q])} ::
      0 <= p < |turns| && 0 <= q < |turns| && AskedBefore(turns[p], turns[q]) ==>
      turns[p].ordinal < turns[q].ordinal
  }

  ghost predicate QuestionAt(turns: seq<Turn>, session: Uuid, at: Micros) {
    exists p :: 0 <= p < |turns| && turns[p].role == User && turns[p].session == session && turns[p].at == at
  }

  ghost predicate AskedBetween(turns: seq<Turn>, session: Uuid, lo: Micros, hi: Micros) {
    forall p :: 0 <= p < |turns| && turns[p].role == User && turns[p].session == session ==> lo <= turns[p].at <= hi
  }

  /** (d) A session's row says when its first and last question were asked and how many turns it has. */
  ghost predicate RowAgrees(s: ChatSession, turns: seq<Turn>) {
    && QuestionAt(turns, s.id, s.startedAt) && QuestionAt(turns, s.id, s.lastActivity)
    && AskedBetween(turns, s.id, s.startedAt, s.lastActivity)
    && s.messageCount == CountIn(turns, s.id)
  }

  /** (c) The sessions of the questions follow the clock. */
  predicate SessionsFollowTheClock(turns: seq<Turn>)
    requires UsersHaveIntent(turns)
  {
    FollowsTheClock(Ats(RowsAgain(turns)), Labels(turns, RowsAgain(turns)))
  }

  ghost predicate RowsAgree(sessions: seq<ChatSession>, turns: seq<Turn>) {
    forall k {:trigger RowAgrees(sessions[k], turns)} :: 0 <= k < |sessions| ==> RowAgrees(sessions[k], turns)
  }

  ghost predicate NothingToLose(sessions: seq<ChatSession>, turns: seq<Turn>)
    requires UsersHaveIntent(turns)
  {
    && AnswersFollow(turns) && NoHoles(turns) && FallInPlace(turns) && SessionsFollowTheClock(turns)
    && RowsAgree(sessions, turns)
  }

  /** The same with the questions in the order of their times and ids. */
  ghost predicate KeptInOrder(sessions: seq<ChatSession>, turns: seq<Turn>)
    requires UsersHaveIntent(turns)
  {
    && AnswersFollow(turns) && NoHoles(turns) && NumberedByTime(turns) && SessionsFollowTheClock(turns)
    && RowsAgree(sessions, turns)
  }

  /** No two questions of a session were asked in the same microsecond. */
  predicate IsUntied(turns: seq<Turn>) {
    forall p, q {:trigger AskedTogether(turns[p], turns[q])} ::
      0 <= p < q < |turns| ==> !AskedTogether(turns[p], turns[q])
  }

  predicate AskedTogether(t: Turn, u: Turn) {
    t.role == User && u.role == User && t.session == u.session && t.at == u.at
  }

  // ---------------------------------------------------------------------------------------
  // Rows and the questions they come from
  // ---------------------------------------------------------------------------------------

  /** Row `i` of the downgraded table is the question at `p`. */
  ghost predicate Source(turns: seq<Turn>, i: nat, p: nat)
    requires UsersHaveIntent(turns)
  {
    && i < |RowsAgain(turns)| && p < |turns| && turns[p].id == RowsAgain(turns)[i].id
    && ComesBack(turns, p, RowsAgain(turns)[i])
  }

  ghost predicate Turns28(turns: seq<Turn>) {
    && (forall p, q :: 0 <= p < q < |turns| ==> turns[p].id != turns[q].id)
    && (forall p :: 0 <= p < |turns| ==> TurnChecks(turns[p]))
    && UniqueOrdinals(turns)
  }

  lemma RowIsQuestion(turns: seq<Turn>, i: nat) returns (p: nat)
    requires Turns28(turns) && UsersHaveIntent(turns) && i < |RowsAgain(turns)|
    ensures Source(turns, i, p)
  {
    var r := RowsAgain(turns)[i];
    SortedRowIsRow(Downgrade(turns), i);
    DowngradedRows(turns, |turns|, r);
    p :| p < |turns| && ComesBack(turns, p, r);
  }

  lemma QuestionIsRow(turns: seq<Turn>, p: nat) returns (i: nat)
    requires Turns28(turns) && UsersHaveIntent(turns) && p < |turns| && turns[p].role == User
    ensures Source(turns, i, p)
  {
    JoinIsSingle(turns, p);
    var r := JoinRow(turns, turns[p])[0];
    assert r in JoinRow(turns, turns[p]);
    DowngradedRows(turns, |turns|, r);
    SortKeeps(Downgrade(turns));
    assert r in multiset(RowsAgain(turns));
    i :| 0 <= i < |RowsAgain(turns)| && RowsAgain(turns)[i] == r;
  }

  lemma RowsDiffer(turns: seq<Turn>)
    requires Turns28(turns) && UsersHaveIntent(turns)
    ensures DistinctIds(RowsAgain(turns)) && Ordered(RowsAgain(turns)) && Nondecreasing(Ats(RowsAgain(turns)))
  {
    DowngradedIdsDiffer(turns, |turns|);
    SortedIdsDiffer(Downgrade(turns));
    SortKeeps(Downgrade(turns));
  }

  /** A row has the fields of its question, and an answer exactly when a turn is taken for one. */
  lemma RowOfQuestion(turns: seq<Turn>, i: nat, p: nat)
    requires Turns28(turns) && UsersHaveIntent(turns) && Source(turns, i, p)
    ensures var r := RowsAgain(turns)[i];
            && UserTurn(r, turns[p].session) == turns[p].(id := 0, ordinal := 0)
            && SessionOfId(turns, r.id) == turns[p].session
            && (HasAnswer(r) <==> exists q: nat :: q < |turns| && IsAnswerAt(turns, p, q))
  {
    assert TurnChecks(turns[p]);
    var r := RowsAgain(turns)[i];
    var x := IndexOfId(turns, r.id);
    assert x == p;
    if q: nat :| q < |turns| && IsAnswerAt(turns, p, q) {
      RowOfAnswer(turns, i, p, q);
    }
  }

  lemma RowOfAnswer(turns: seq<Turn>, i: nat, p: nat, q: nat)
    requires Turns28(turns) && UsersHaveIntent(turns) && Source(turns, i, p) && q < |turns| && IsAnswerAt(turns, p, q)
    ensures var r := RowsAgain(turns)[i];
            && HasAnswer(r)
            && AssistantTurn(r, turns[q].session).(at := turns[q].at) == turns[q].(id := 0, ordinal := 0)
  {
    var r := RowsAgain(turns)[i];
    assert TurnChecks(turns[q]);
    var q': nat :| q' < |turns| && IsAnswerAt(turns, p, q') && r == Rejoined(turns[p], Some(turns[q']));
    assert q' == q;
  }

  /** Rows stand in the order in which their questions were asked. */
  lemma RowsFollowQuestions(turns: seq<Turn>, i: nat, p: nat, j: nat, q: nat)
    requires Turns28(turns) && UsersHaveIntent(turns) && Source(turns, i, p) && Source(turns, j, q)
    requires turns[p].session == turns[q].session
    ensures i < j <==> AskedBefore(turns[p], turns[q])
    ensures i == j <==> p == q
  {
    RowsDiffer(turns);
    var rows := RowsAgain(turns);
    assert i < j ==> Before(rows[i], rows[j]) && rows[i].id != rows[j].id;
    assert j < i ==> Before(rows[j], rows[i]) && rows[i].id != rows[j].id;
  }

  // ---------------------------------------------------------------------------------------
  // What the second upgrade loads
  // ---------------------------------------------------------------------------------------

  lemma NewPair(rows: seq<Exchange>, sids: seq<Uuid>, tids: seq<Uuid>, i: nat)
    requires Draws(rows, sids, tids) && i < |rows|
    ensures var turns, x, s := LoadedTurns(rows, sids, tids), Pos(rows, i), SessionOf(rows, sids, i);
            && x < |turns| && turns[x] == UserTurn(rows[i], s).(id := tids[x], ordinal := turns[x].ordinal)
            && (HasAnswer(rows[i]) ==>
                  && x + 1 < |turns|
                  && turns[x + 1] == AssistantTurn(rows[i], s).(id := tids[x + 1], ordinal := turns[x].ordinal + 1))
  {
    SplitAt(rows, sids, i);
    if HasAnswer(rows[i]) {
      CountStep(Split(rows, sids, |rows|), SessionOf(rows, sids, i), Pos(rows, i));
    }
  }

  /** A loaded turn is a row's question, or right after it the row's answer. */
  lemma NewTurnIsOfRow(rows: seq<Exchange>, sids: seq<Uuid>, tids: seq<Uuid>, x: nat) returns (i: nat)
    requires Draws(rows, sids, tids) && x < |LoadedTurns(rows, sids, tids)|
    ensures i < |rows| && (x == Pos(rows, i) || (x == Pos(rows, i) + 1 && HasAnswer(rows[i])))
    ensures LoadedTurns(rows, sids, tids)[x].role == User <==> x == Pos(rows, i)
    ensures LoadedTurns(rows, sids, tids)[x].session == SessionOf(rows, sids, i)
  {
    i := TurnIsHalfOfRow(rows, sids, x);
  }

  lemma SessionsAreNumbers(rows: seq<Exchange>, sids: seq<Uuid>, i: nat, j: nat)
    requires Drawn(sids, SessionCount(Ats(rows))) && i < |rows| && j < |rows|
    ensures SessionOf(rows, sids, i) == SessionOf(rows, sids, j) <==> Number(Ats(rows), i) == Number(Ats(rows), j)
  {
    NumberGrows(Ats(rows), i, |rows| - 1);
    NumberGrows(Ats(rows), j, |rows| - 1);
  }

  lemma NumberOfRow(rows: seq<Exchange>, sids: seq<Uuid>, i: nat, k: nat)
    requires Drawn(sids, SessionCount(Ats(rows))) && i < |rows| && k < |sids|
    ensures SessionOf(rows, sids, i) == sids[k] <==> Number(Ats(rows), i) == k + 1
  {
    NumberGrows(Ats(rows), i, |rows| - 1);
  }

  // ---------------------------------------------------------------------------------------
  // Counting by ordinals
  // ---------------------------------------------------------------------------------------

  function Ords(turns: seq<Turn>, s: Uuid): set<int> {
    set p | 0 <= p < |turns| && turns[p].session == s :: turns[p].ordinal
  }

  lemma {:induction false} CountIsOrds(turns: seq<Turn>, s: Uuid)
    requires UniqueOrdinals(turns)
    ensures CountIn(turns, s) == |Ords(turns, s)|
  {
    if turns != [] {
      var n := |turns| - 1;
      CountIsOrds(turns[..n], s);
      OneMoreOrd(turns, s, n);
    }
  }

  lemma OneMoreOrd(turns: seq<Turn>, s: Uuid, n: nat)
    requires UniqueOrdinals(turns) && |turns| == n + 1
    ensures |Ords(turns, s)| == |Ords(turns[..n], s)| + if turns[n].session == s then 1 else 0
  {
    var before, last := Ords(turns[..n], s), if turns[n].session == s then {turns[n].ordinal} else {};
    OrdsOfPrefix(turns, s, n);
    assert Ords(turns, s) == before + last && before * last == {};
  }

  lemma OrdsOfPrefix(turns: seq<Turn>, s: Uuid, n: nat)
    requires |turns| == n + 1
    ensures forall o :: o in Ords(turns, s) <==>
              o in Ords(turns[..n], s) || (turns[n].session == s && o == turns[n].ordinal)
  {
    forall o | o in Ords(turns[..n], s) ensures o in Ords(turns, s) {
      var p :| 0 <= p < n && turns[..n][p].session == s && turns[..n][p].ordinal == o;
      assert turns[p] == turns[..n][p];
    }
    forall o | o in Ords(turns, s) && !(turns[n].session == s && o == turns[n].ordinal)
      ensures o in Ords(turns[..n], s)
    {
      var p :| 0 <= p <= n && turns[p].session == s && turns[p].ordinal == o;
      assert turns[p] == turns[..n][p];
    }
  }

  function Below(n: nat): (s: set<int>)
    ensures forall o :: o in s <==> 0 <= o < n
    ensures |s| == n
  {
    if n == 0 then {} else Below(n - 1) + {n - 1}
  }
}
