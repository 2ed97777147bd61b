/**
 Tables whose questions are numbered in the order of their times and ids: the second upgrade numbers every
 question as it was numbered. Without ties that order is the only one that comes back.
 */
module ChatOrder {
  import opened Options
  import opened SessionGrouping
  import opened Transcript
  import opened ChatMigration
  import opened ChatMigrationProofs
  import opened ChatDowngrade
  import opened ChatLoss
  import opened ChatPlaces
  import opened ChatRestored
  import opened ChatRestoring

  ghost predicate TurnsAreRegular(turns: seq<Turn>)
    requires UsersHaveIntent(turns)
  {
    AnswersFollow(turns) && NoHoles(turns) && NumberedByTime(turns) && SessionsFollowTheClock(turns)
  }

  // ---------------------------------------------------------------------------------------
  // Ordinals
  // ---------------------------------------------------------------------------------------

  ghost predicate Renumbered(turns: seq<Turn>, sids: seq<Uuid>, tids: seq<Uuid>, j: nat)
    requires Again(turns, sids, tids)
  {
    forall q: nat :: Source(turns, j, q) ==> RenumberedAs(turns, sids, tids, j, turns[q].ordinal)
  }

  predicate RenumberedAs(turns: seq<Turn>, sids: seq<Uuid>, tids: seq<Uuid>, j: nat, o: int)
    requires Again(turns, sids, tids)
  {
    && j < |RowsAgain(turns)| && Pos(RowsAgain(turns), j) < |NewTurns(turns, sids, tids)|
    && NewTurns(turns, sids, tids)[Pos(RowsAgain(turns), j)].ordinal == o
  }

  /** A turn loaded before a question, in its session, has a smaller ordinal than the question had. */
  lemma LoadedBefore(turns: seq<Turn>, sids: seq<Uuid>, tids: seq<Uuid>, i: nat, p: nat, y: nat)
    requires Again(turns, sids, tids) && TurnsAreRegular(turns) && Source(turns, i, p)
    requires forall j: nat :: j < i ==> Renumbered(turns, sids, tids, j)
    requires y < Pos(RowsAgain(turns), i) && y < |NewTurns(turns, sids, tids)|
    requires NewTurns(turns, sids, tids)[y].session == SessionOf(RowsAgain(turns), sids, i)
    ensures 0 <= NewTurns(turns, sids, tids)[y].ordinal < turns[p].ordinal
  {
    var rows := RowsAgain(turns);
    var j := NewTurnIsOfRow(rows, sids, tids, y);
    if j >= i {
      PosGrows(rows, i, j);
      assert false;
    }
    var q := RowIsQuestion(turns, j);
    assert Renumbered(turns, sids, tids, j) && RenumberedAs(turns, sids, tids, j, turns[q].ordinal);
    LabelsDecide(turns, sids, tids, i, p, j, q);
    RowsFollowQuestions(turns, j, q, i, p);
    assert TurnChecks(turns[q]);
    NewPair(rows, sids, tids, j);
    if y == Pos(rows, j) + 1 {
      RowOfQuestion(turns, j, q);
      var a: nat :| a < |turns| && IsAnswerAt(turns, q, a);
      NotItsAnswer(turns, a, p);
    }
  }

  /** A question is never at an answer's place. */
  lemma NotItsAnswer(turns: seq<Turn>, a: nat, p: nat)
    requires UniqueOrdinals(turns) && a < |turns| && p < |turns| && turns[a].role != turns[p].role
    ensures turns[a].session == turns[p].session ==> turns[a].ordinal != turns[p].ordinal
  {
  }

  /** A question with a smaller ordinal in the session was loaded, whole, before, at that ordinal. */
  lemma {:induction false} LoadedEarlier(turns: seq<Turn>, sids: seq<Uuid>, tids: seq<Uuid>, i: nat, p: nat,
        q: nat) returns (j: nat)
    requires Again(turns, sids, tids) && TurnsAreRegular(turns) && Source(turns, i, p)
    requires forall j: nat :: j < i ==> Renumbered(turns, sids, tids, j)
    requires q < |turns| && turns[q].role == User && turns[q].session == turns[p].session
    requires turns[q].ordinal < turns[p].ordinal
    ensures j < |RowsAgain(turns)| && Pos(RowsAgain(turns), j) < |NewTurns(turns, sids, tids)|
    ensures NewTurns(turns, sids, tids)[Pos(RowsAgain(turns), j)].ordinal == turns[q].ordinal
    ensures SessionOf(RowsAgain(turns), sids, j) == SessionOf(RowsAgain(turns), sids, i)
    ensures j < i && Source(turns, j, q) && RenumberedAs(turns, sids, tids, j, turns[q].ordinal)
    ensures Pos(RowsAgain(turns), j) + Halves(RowsAgain(turns)[j]) <= Pos(RowsAgain(turns), i)
    ensures NewTurns(turns, sids, tids)[Pos(RowsAgain(turns), j)].session == SessionOf(RowsAgain(turns), sids, i)
  {
    j := QuestionIsRow(turns, q);
    RowsFollowQuestions(turns, i, p, j, q);
    assert j < i;
    assert Renumbered(turns, sids, tids, j);
    PosGrows(RowsAgain(turns), j + 1, i);
    LabelsDecide(turns, sids, tids, i, p, j, q);
    NewPair(RowsAgain(turns), sids, tids, j);
  }

  lemma AnswerIsLoaded(turns: seq<Turn>, sids: seq<Uuid>, tids: seq<Uuid>, j: nat, q: nat, t: nat) returns (y: nat)
    requires Again(turns, sids, tids) && Source(turns, j, q) && RenumberedAs(turns, sids, tids, j, turns[q].ordinal)
    requires t < |turns| && IsAnswerAt(turns, q, t)
    ensures HasAnswer(RowsAgain(turns)[j]) && y == Pos(RowsAgain(turns), j) + 1 == Pos(RowsAgain(turns), j + 1) - 1
    ensures y < |NewTurns(turns, sids, tids)|
    ensures NewTurns(turns, sids, tids)[y].session == SessionOf(RowsAgain(turns), sids, j)
    ensures NewTurns(turns, sids, tids)[y].ordinal == turns[t].ordinal
  {
    RowOfAnswer(turns, j, q, t);
    NewPair(RowsAgain(turns), sids, tids, j);
    y := Pos(RowsAgain(turns), j) + 1;
  }

  /** Every ordinal below a question's was loaded before it. */
  lemma OrdinalIsLoaded(turns: seq<Turn>, sids: seq<Uuid>, tids: seq<Uuid>, i: nat, p: nat, o: int) returns (y: nat)
    requires Again(turns, sids, tids) && TurnsAreRegular(turns) && Source(turns, i, p)
    requires forall j: nat :: j < i ==> Renumbered(turns, sids, tids, j)
    requires 0 <= o < turns[p].ordinal
    ensures y < Pos(RowsAgain(turns), i) && y < |NewTurns(turns, sids, tids)|
    ensures NewTurns(turns, sids, tids)[y].session == SessionOf(RowsAgain(turns), sids, i)
    ensures NewTurns(turns, sids, tids)[y].ordinal == o
  {
    assert Taken(turns, turns[p].session, o);
    var t :| 0 <= t < |turns| && turns[t].session == turns[p].session && turns[t].ordinal == o;
    var q := QuestionOf(turns, t);
    var j := LoadedEarlier(turns, sids, tids, i, p, q);
    if t == q {
      y := Pos(RowsAgain(turns), j);
    } else {
      y := AnswerIsLoaded(turns, sids, tids, j, q, t);
    }
  }

  lemma {:induction false} OrdsBefore(turns: seq<Turn>, sids: seq<Uuid>, tids: seq<Uuid>, i: nat, p: nat)
    requires Again(turns, sids, tids) && TurnsAreRegular(turns) && Source(turns, i, p)
    requires forall j: nat :: j < i ==> Renumbered(turns, sids, tids, j)
    requires Pos(RowsAgain(turns), i) <= |NewTurns(turns, sids, tids)| && turns[p].ordinal >= 0
    ensures Ords(NewTurns(turns, sids, tids)[..Pos(RowsAgain(turns), i)], SessionOf(RowsAgain(turns), sids, i))
         == Below(turns[p].ordinal)
  {
    var before, s := NewTurns(turns, sids, tids)[..Pos(RowsAgain(turns), i)], SessionOf(RowsAgain(turns), sids, i);
    forall o | o in Ords(before, s) ensures 0 <= o < turns[p].ordinal {
      var y :| 0 <= y < |before| && before[y].session == s && before[y].ordinal == o;
      LoadedBefore(turns, sids, tids, i, p, y);
    }
    forall o | 0 <= o < turns[p].ordinal ensures o in Ords(before, s) {
      var y := OrdinalIsLoaded(turns, sids, tids, i, p, o);
      assert before[y].session == s && before[y].ordinal == o;
    }
  }

  /** A question is loaded at the ordinal it had. */
  lemma QuestionIsRenumbered(turns: seq<Turn>, sids: seq<Uuid>, tids: seq<Uuid>, i: nat, p: nat)
    requires Again(turns, sids, tids) && TurnsAreRegular(turns) && Source(turns, i, p)
    requires forall j: nat :: j < i ==> Renumbered(turns, sids, tids, j)
    ensures RenumberedAs(turns, sids, tids, i, turns[p].ordinal)
  {
    NewPair(RowsAgain(turns), sids, tids, i);
    assert TurnChecks(turns[p]);
    OrdsBefore(turns, sids, tids, i, p);
    OrdinalIsCount(RowsAgain(turns), sids, tids, Pos(RowsAgain(turns), i));
  }

  lemma OrdinalIsCount(rows: seq<Exchange>, sids: seq<Uuid>, tids: seq<Uuid>, x: nat)
    requires Draws(rows, sids, tids) && x < |LoadedTurns(rows, sids, tids)|
    ensures var turns := LoadedTurns(rows, sids, tids); turns[x].ordinal == |Ords(turns[..x], turns[x].session)|
  {
    var split, turns := Split(rows, sids, |rows|), LoadedTurns(rows, sids, tids);
    OrdinalsAreExact(split, tids);
    CountIsOrds(turns[..x], turns[x].session);
    CountSurvivesNumbering(split, tids, turns[x].session, x);
  }

  lemma RowIsRenumbered(turns: seq<Turn>, sids: seq<Uuid>, tids: seq<Uuid>, i: nat)
    requires Again(turns, sids, tids) && TurnsAreRegular(turns)
    requires forall j: nat :: j < i ==> Renumbered(turns, sids, tids, j)
    ensures Renumbered(turns, sids, tids, i)
  {
    forall q: nat | Source(turns, i, q) ensures RenumberedAs(turns, sids, tids, i, turns[q].ordinal) {
      QuestionIsRenumbered(turns, sids, tids, i, q);
    }
  }

  lemma {:induction false} EveryRowIsRenumbered(turns: seq<Turn>, sids: seq<Uuid>, tids: seq<Uuid>, i: nat)
    requires Again(turns, sids, tids) && TurnsAreRegular(turns)
    ensures Renumbered(turns, sids, tids, i)
  {
    forall j: nat | j < i ensures Renumbered(turns, sids, tids, j) {
      EveryRowIsRenumbered(turns, sids, tids, j);
    }
    RowIsRenumbered(turns, sids, tids, i);
  }

  // ---------------------------------------------------------------------------------------
  // The order by time puts every question in place
  // ---------------------------------------------------------------------------------------

  lemma HeldByItself(turns: seq<Turn>, q: nat, t: Turn)
    requires q < |turns| && turns[q].(id := 0, ordinal := 0) == t.(id := 0, ordinal := 0)
    ensures Holds(turns, t, turns[q].ordinal)
  {
    assert turns[q].(id := 0) == t.(id := 0, ordinal := turns[q].ordinal);
  }

  lemma RegularIsInPlace(turns: seq<Turn>, sids: seq<Uuid>, tids: seq<Uuid>, i: nat)
    requires Again(turns, sids, tids) && TurnsAreRegular(turns) && i < |RowsAgain(turns)|
    ensures InPlaceAt(turns, RowsAgain(turns), Labels(turns, RowsAgain(turns)), i)
  {
    var rows := RowsAgain(turns);
    var p := RowIsQuestion(turns, i);
    EveryRowIsRenumbered(turns, sids, tids, i);
    assert Renumbered(turns, sids, tids, i) && RenumberedAs(turns, sids, tids, i, turns[p].ordinal);
    NewOrdinal(rows, sids, tids, i);
    PlacesAgreeByClock(turns, sids, tids, i);
    RowOfQuestion(turns, i, p);
    HeldByItself(turns, p, UserTurn(rows[i], turns[p].session));
    if HasAnswer(rows[i]) {
      AnswerIsHeld(turns, i, p);
    }
  }

  lemma AnswerIsHeld(turns: seq<Turn>, i: nat, p: nat)
    requires Turns28(turns) && UsersHaveIntent(turns) && AnswersFollow(turns) && Source(turns, i, p)
    requires HasAnswer(RowsAgain(turns)[i])
    ensures Holds(turns, AssistantTurn(RowsAgain(turns)[i], turns[p].session), turns[p].ordinal + 1)
  {
    RowOfQuestion(turns, i, p);
    var a: nat :| a < |turns| && IsAnswerAt(turns, p, a);
    RowOfAnswer(turns, i, p, a);
    var q := QuestionOf(turns, a);
    assert turns[q].ordinal == turns[p].ordinal;
    HeldByItself(turns, a, AssistantTurn(RowsAgain(turns)[i], turns[a].session));
  }

  /** Numbered by time and id, tables have nothing to lose, ties or not. */
  lemma OrderIsEnough(sessions: seq<ChatSession>, turns: seq<Turn>, sids: seq<Uuid>, tids: seq<Uuid>)
    requires Again(turns, sids, tids) && KeptInOrder(sessions, turns)
    ensures NothingToLose(sessions, turns)
  {
    forall i: nat | i < |RowsAgain(turns)|
      ensures InPlaceAt(turns, RowsAgain(turns), Labels(turns, RowsAgain(turns)), i)
    {
      RegularIsInPlace(turns, sids, tids, i);
    }
  }

  // ---------------------------------------------------------------------------------------
  // Without ties
  // ---------------------------------------------------------------------------------------

  lemma {:induction false} StandingGrows(rows: seq<Exchange>, labels: seq<Uuid>, s: Uuid, i: nat, n: nat)
    requires i < n <= |rows| == |labels| && labels[i] == s
    ensures Standing(rows, labels, s, i) < Standing(rows, labels, s, n)
  {
    if i + 1 < n {
      StandingGrows(rows, labels, s, i, n - 1);
    }
  }

  /** Without ties only the question itself stands where one like it does. */
  lemma UntiedStandsThere(turns: seq<Turn>, i: nat, p: nat)
    requires Turns28(turns) && UsersHaveIntent(turns) && FallInPlace(turns) && IsUntied(turns) && Source(turns, i, p)
    ensures Labels(turns, RowsAgain(turns))[i] == turns[p].session
    ensures turns[p].ordinal == Standing(RowsAgain(turns), Labels(turns, RowsAgain(turns)), turns[p].session, i)
  {
    var rows, labels := RowsAgain(turns), Labels(turns, RowsAgain(turns));
    RowOfQuestion(turns, i, p);
    assert InPlaceAt(turns, rows, labels, i);
    var place := Standing(rows, labels, labels[i], i);
    var q :| 0 <= q < |turns| && turns[q].(id := 0) == UserTurn(rows[i], labels[i]).(id := 0, ordinal := place);
    TwinIsItself(turns, p, q, UserTurn(rows[i], labels[i]), place);
  }

  lemma TwinIsItself(turns: seq<Turn>, p: nat, q: nat, t: Turn, place: int)
    requires IsUntied(turns) && p < |turns| && q < |turns| && t.role == User
    requires t.(id := 0) == turns[p].(id := 0, ordinal := t.ordinal)
    requires turns[q].(id := 0) == t.(id := 0, ordinal := place)
    ensures p == q
  {
    assert AskedTogether(turns[p], turns[q]) && AskedTogether(turns[q], turns[p]);
  }

  lemma UntiedIsNumberedByTime(turns: seq<Turn>, p: nat, q: nat)
    requires Turns28(turns) && UsersHaveIntent(turns) && FallInPlace(turns) && IsUntied(turns)
    requires p < |turns| && q < |turns| && AskedBefore(turns[p], turns[q])
    ensures turns[p].ordinal < turns[q].ordinal
  {
    var i := QuestionIsRow(turns, p);
    var j := QuestionIsRow(turns, q);
    RowsFollowQuestions(turns, i, p, j, q);
    UntiedStandsThere(turns, i, p);
    UntiedStandsThere(turns, j, q);
    StandingGrows(RowsAgain(turns), Labels(turns, RowsAgain(turns)), turns[p].session, i, j);
  }

  /**
   If no two questions of a session were asked in the same microsecond, the tables come back exactly when
   questions are numbered in the order they were asked, beside the other conditions.
   */
  lemma {:induction false} UntiedRestoresIff(sessions: seq<ChatSession>, turns: seq<Turn>, sids: seq<Uuid>,
        tids: seq<Uuid>)
    requires Tables28(sessions, turns) && UsersHaveIntent(turns) && Draws(RowsAgain(turns), sids, tids)
    requires IsUntied(turns)
    ensures (exists names :: Restores(sessions, turns, sids, tids, names)) <==> KeptInOrder(sessions, turns)
  {
    SecondUpgradeRestoresIff(sessions, turns, sids, tids);
    if NothingToLose(sessions, turns) {
      forall p, q | 0 <= p < |turns| && 0 <= q < |turns| && AskedBefore(turns[p], turns[q])
        ensures turns[p].ordinal < turns[q].ordinal
      {
        UntiedIsNumberedByTime(turns, p, q);
      }
    }
    if KeptInOrder(sessions, turns) {
      OrderIsEnough(sessions, turns, sids, tids);
    }
  }
}
