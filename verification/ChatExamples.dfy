/**
 Tables that the schemas allow and that migration 0028 does not bring back as they were, and one that it
 brings back although two of its questions change places.
 */
module ChatExamples {
  import opened Options
  import opened SessionGrouping
  import opened Transcript
  import opened ChatMigration
  import opened ChatMigrationProofs
  import opened ChatDowngrade
  import opened ChatLoss
  import opened ChatRestoring

  const MINUTE: Micros := 60 * 1_000_000

  function Asked(id: Uuid, ordinal: int, intent: Intent, at: Micros): Turn {
    var externalKey := if intent == Question then None else Some("key");
    Turn(id, 7, User, "hello", ordinal, externalKey, Some(intent), None, None, NO_CITATIONS, at)
  }

  function Answered(id: Uuid, ordinal: int, content: string, at: Micros): Turn {
    Turn(id, 7, Assistant, content, ordinal, None, None, None, Some(false), NO_CITATIONS, at)
  }

  lemma JoinsNothing(turns: seq<Turn>, p: nat)
    requires p < |turns| && turns[p].intent.Some? && forall q :: 0 <= q < |turns| ==> !Answers(turns[q], turns[p])
    ensures JoinRow(turns, turns[p]) == [Rejoined(turns[p], None)]
  {
    assert turns[..|turns|] == turns;
    NoMatch(turns, turns[p], |turns|);
  }

  lemma JoinsOne(turns: seq<Turn>, p: nat, q: nat)
    requires UniqueOrdinals(turns) && p < |turns| && turns[p].intent.Some? && q < |turns| && Answers(turns[q], turns[p])
    ensures JoinRow(turns, turns[p]) == [Rejoined(turns[p], Some(turns[q]))]
  {
    assert turns[..|turns|] == turns;
    OneMatch(turns, turns[p], q, |turns|);
  }

  // ---------------------------------------------------------------------------------------
  // Two questions, then their answers
  // ---------------------------------------------------------------------------------------

  const TWO_SESSION := [ChatSession(7, 0, 4, 4)]

  const TWO_DEFERRED := [Asked(1, 0, Question, 0), Asked(2, 1, Question, 1), Answered(3, 2, "to 1", 3),
        Answered(4, 3, "to 2", 4)]

  /** Answers recorded when their streams end may follow both questions. */
  lemma DeferredAnswersAreTables()
    ensures Tables28(TWO_SESSION, TWO_DEFERRED) && UsersHaveIntent(TWO_DEFERRED)
  {
    TurnsCheck();
    TurnsDiffer();
    forall p | 0 <= p < |TWO_DEFERRED| ensures HasSession(TWO_SESSION, TWO_DEFERRED[p]) {
      assert TWO_SESSION[0].id == 7 && TWO_DEFERRED[p].session == 7;
    }
  }

  lemma TurnsDiffer()
    ensures forall p, q :: 0 <= p < q < |TWO_DEFERRED| ==> TWO_DEFERRED[p].id != TWO_DEFERRED[q].id
    ensures UniqueOrdinals(TWO_DEFERRED)
  {
    assert forall p :: 0 <= p < |TWO_DEFERRED| ==> TWO_DEFERRED[p].ordinal == p && TWO_DEFERRED[p].id == p + 1;
  }

  lemma TurnsCheck()
    ensures forall p :: 0 <= p < |TWO_DEFERRED| ==> TurnChecks(TWO_DEFERRED[p])
    ensures UsersHaveIntent(TWO_DEFERRED)
  {
  }

  /** The downgrade then gives the first answer to the second question, and drops the second. */
  lemma DeferredAnswersAreMisplaced()
    ensures UsersHaveIntent(TWO_DEFERRED)
    ensures Downgrade(TWO_DEFERRED)
         == [Rejoined(TWO_DEFERRED[0], None), Rejoined(TWO_DEFERRED[1], Some(TWO_DEFERRED[2]))]
    ensures !NothingToLose(TWO_SESSION, TWO_DEFERRED)
  {
    DeferredAnswersAreTables();
    var turns := TWO_DEFERRED;
    JoinsNothing(turns, 0);
    JoinsOne(turns, 1, 2);
    assert Downgraded(turns, 1) == [Rejoined(turns[0], None)];
    assert Downgraded(turns, 2) == [Rejoined(turns[0], None), Rejoined(turns[1], Some(turns[2]))];
    assert Downgraded(turns, 3) == Downgraded(turns, 2);
    assert !FollowsItsQuestion(turns, 3);
  }

  // ---------------------------------------------------------------------------------------
  // A session resumed after forty minutes
  // ---------------------------------------------------------------------------------------

  const RESUMED_SESSION := [ChatSession(7, 0, 40 * MINUTE, 2)]

  const RESUMED := [Asked(1, 0, Question, 0), Asked(2, 1, Question, 40 * MINUTE)]

  lemma ResumedComesBack()
    ensures UsersHaveIntent(RESUMED)
    ensures Downgrade(RESUMED) == [Rejoined(RESUMED[0], None)] + [Rejoined(RESUMED[1], None)]
  {
    JoinsNothing(RESUMED, 0);
    JoinsNothing(RESUMED, 1);
    assert Downgraded(RESUMED, 1) == Downgraded(RESUMED, 0) + JoinRow(RESUMED, RESUMED[0]);
    assert Downgraded(RESUMED, 2) == Downgraded(RESUMED, 1) + JoinRow(RESUMED, RESUMED[1]);
  }

  /** One session goes in and the second upgrade makes two of it, whatever ids it draws. */
  lemma ResumedSessionSplits()
    ensures Tables28(RESUMED_SESSION, RESUMED) && UsersHaveIntent(RESUMED)
    ensures SessionCount(Ats(RowsAgain(RESUMED))) == 2
    ensures !NothingToLose(RESUMED_SESSION, RESUMED)
  {
    var turns := RESUMED;
    assert RESUMED_SESSION[0].id == 7;
    forall p | 0 <= p < |turns| ensures TurnChecks(turns[p]) && HasSession(RESUMED_SESSION, turns[p]) {
      assert turns[p].session == 7;
    }
    var r, s := Rejoined(turns[0], None), Rejoined(turns[1], None);
    ResumedComesBack();
    assert Sort([s]) == [s] && ([r] + [s])[1..] == [s];
    assert Sort([r] + [s]) == [r] + [s];
    var rows := RowsAgain(turns);
    assert rows == [r] + [s] && Ats(rows) == [0, 40 * MINUTE];
    assert Opens(Ats(rows), 0) && Opens(Ats(rows), 1);
    assert Number(Ats(rows), 0) == 1 && Number(Ats(rows), 1) == 2;
    assert !CutAtGaps(Ats(rows), Labels(turns, rows), 1);
  }

  // ---------------------------------------------------------------------------------------
  // Two questions alike in one microsecond
  // ---------------------------------------------------------------------------------------

  const TIED_SESSION := [ChatSession(7, 0, 0, 2)]

  const TIED := [Asked(2, 0, Question, 0), Asked(1, 1, Question, 0)]

  lemma TiedRows()
    ensures UsersHaveIntent(TIED)
    ensures RowsAgain(TIED) == [Rejoined(TIED[1], None), Rejoined(TIED[0], None)]
  {
    JoinsNothing(TIED, 0);
    JoinsNothing(TIED, 1);
    assert Downgraded(TIED, 1) == Downgraded(TIED, 0) + JoinRow(TIED, TIED[0]);
    assert Downgraded(TIED, 2) == Downgraded(TIED, 1) + JoinRow(TIED, TIED[1]);
    var r, s := Rejoined(TIED[0], None), Rejoined(TIED[1], None);
    assert Downgrade(TIED) == [r] + [s];
    TwoAreSwapped(r, s);
  }

  lemma TwoAreSwapped(r: Exchange, s: Exchange)
    requires !Before(r, s)
    ensures Sort([r] + [s]) == [s, r]
  {
    var both := [r] + [s];
    assert both[0] == r && both[1..] == [s] && [s][1..] == [];
    assert Sort(both[1..]) == [s];
    assert Insert(r, [s]) == [s] + Insert(r, [s][1..]);
  }

  lemma TiedFallInPlace()
    ensures UsersHaveIntent(TIED) && FallInPlace(TIED) && SessionsFollowTheClock(TIED)
  {
    TiedRows();
    var rows, labels := RowsAgain(TIED), Labels(TIED, RowsAgain(TIED));
    assert labels == [7, 7];
    assert Standing(rows, labels, 7, 0) == 0 && Standing(rows, labels, 7, 1) == 1;
    assert TIED[0].(id := 0) == UserTurn(rows[0], 7).(id := 0, ordinal := 0);
    assert TIED[1].(id := 0) == UserTurn(rows[1], 7).(id := 0, ordinal := 1);
    assert InPlaceAt(TIED, rows, labels, 0) && InPlaceAt(TIED, rows, labels, 1);
    assert CutAtGaps(Ats(rows), labels, 1);
  }

  lemma TiedIsTable()
    ensures Tables28(TIED_SESSION, TIED)
    ensures AnswersFollow(TIED) && NoHoles(TIED) && RowsAgree(TIED_SESSION, TIED) && !NumberedByTime(TIED)
  {
    assert TIED_SESSION[0].id == 7;
    forall p | 0 <= p < |TIED| ensures TurnChecks(TIED[p]) && HasSession(TIED_SESSION, TIED[p]) {
      assert TIED[p].session == 7;
    }
    assert TIED[0].ordinal == 0 && TIED[0].session == 7;
    assert AskedBefore(TIED[1], TIED[0]);
    TiedCount();
    assert QuestionAt(TIED, 7, 0) && RowAgrees(TIED_SESSION[0], TIED);
  }

  lemma TiedCount()
    ensures CountIn(TIED, 7) == 2
  {
    assert TIED[..1] == [TIED[0]] && [TIED[0]][..0] == [];
    assert CountIn([TIED[0]], 7) == 1;
  }

  lemma TiedIdsAreDrawn()
    ensures UsersHaveIntent(TIED) && Draws(RowsAgain(TIED), [5], [6, 8])
  {
    TiedRows();
    var rows := RowsAgain(TIED);
    assert Ats(rows) == [0, 0] && Number(Ats(rows), 0) == 1 && Number(Ats(rows), 1) == 1;
    assert Split(rows, [5], 1) == Split(rows, [5], 0) + TurnsOf(rows[0], 5);
    assert Split(rows, [5], 2) == Split(rows, [5], 1) + TurnsOf(rows[1], 5);
  }

  /** They change places and the tables still come back, though the order of ids was not kept. */
  lemma TiedComesBack()
    ensures Tables28(TIED_SESSION, TIED) && UsersHaveIntent(TIED) && !KeptInOrder(TIED_SESSION, TIED)
    ensures Draws(RowsAgain(TIED), [5], [6, 8])
    ensures exists names :: Restores(TIED_SESSION, TIED, [5], [6, 8], names)
  {
    TiedFallInPlace();
    TiedIsTable();
    TiedIdsAreDrawn();
    SecondUpgradeRestoresIff(TIED_SESSION, TIED, [5], [6, 8]);
  }

  // ---------------------------------------------------------------------------------------
  // A statement with an answer
  // ---------------------------------------------------------------------------------------

  const STATED_SESSION := [ChatSession(7, 0, 1, 2)]

  const STATED := [Asked(1, 0, Statement, 0), Answered(2, 1, "noted", 1)]

  /** 0028 allows it, and the downgrade cannot put 0027's CHECK back. */
  lemma AnsweredStatementBlocksDowngrade()
    ensures Tables28(STATED_SESSION, STATED) && UsersHaveIntent(STATED)
    ensures !AnswersAreVerdicts(STATED)
    ensures exists i :: 0 <= i < |Downgrade(STATED)| && !ExchangeChecks(Downgrade(STATED)[i])
  {
    assert STATED_SESSION[0].id == 7;
    forall p | 0 <= p < |STATED| ensures TurnChecks(STATED[p]) && HasSession(STATED_SESSION, STATED[p]) {
      assert STATED[p].session == 7;
    }
    assert IsAnswerAt(STATED, 0, 1);
    DowngradeChecksIff(STATED);
  }

  // ---------------------------------------------------------------------------------------
  // A blank answer
  // ---------------------------------------------------------------------------------------

  const BLANK := [Exchange(1, "hello", Question, None, Some(" "), Some("model"), Some(true), NO_CITATIONS, 0)]

  /** 0027 allows it, and its model and verdict do not come back, whatever ids are drawn. */
  lemma BlankAnswerIsLost(sids: seq<Uuid>, tids: seq<Uuid>)
    requires Draws(Sort(BLANK), sids, tids)
    ensures Table27(BLANK) && UsersHaveIntent(LoadedTurns(Sort(BLANK), sids, tids))
    ensures multiset(Map(Stripped, Downgrade(LoadedTurns(Sort(BLANK), sids, tids)))) != multiset(Map(Stripped, BLANK))
  {
    assert Btrim(" ") == Btrim("") == "" && " "[1..] == "";
    assert !IsNormal(BLANK[0]);
    RoundTripIsExactIff(BLANK, sids, tids);
  }

  /** And some ids can be drawn. */
  lemma BlankAnswerUpgrades()
    ensures Draws(Sort(BLANK), [5], [6])
  {
    var rows := Sort(BLANK);
    assert BLANK[1..] == [] && Sort(BLANK[1..]) == [];
    assert rows == Insert(BLANK[0], []) == BLANK;
    assert Btrim(" ") == Btrim("") == "" && " "[1..] == "";
    assert Split(rows, [5], 1) == Split(rows, [5], 0) + TurnsOf(rows[0], 5);
  }
}
