/**
 Tables with nothing to lose come back, whatever ids the second upgrade draws: every row is loaded where
 counting puts it, so every turn returns at its ordinal and every session with its times and count.
 */
module ChatRestoring {
  import opened Options
  import opened SessionGrouping
  import opened Transcript
  import opened ChatMigration
  import opened ChatMigrationProofs
  import opened ChatDowngrade
  import opened ChatLoss
  import opened ChatPlaces
  import opened ChatRestored

  // ---------------------------------------------------------------------------------------
  // Sessions by number
  // ---------------------------------------------------------------------------------------

  lemma {:induction false} LabelsDecide(turns: seq<Turn>, sids: seq<Uuid>, tids: seq<Uuid>, i: nat, p: nat, j: nat,
        q: nat)
    requires Again(turns, sids, tids) && SessionsFollowTheClock(turns) && Source(turns, i, p) && Source(turns, j, q)
    ensures turns[p].session == turns[q].session
       <==> SessionOf(RowsAgain(turns), sids, i) == SessionOf(RowsAgain(turns), sids, j)
  {
    var rows := RowsAgain(turns);
    RowsDiffer(turns);
    RegroupingRecoversIff(Ats(rows), Labels(turns, rows));
    SessionsAreNumbers(rows, sids, i, j);
    RowOfQuestion(turns, i, p);
    RowOfQuestion(turns, j, q);
    assert Number(Ats(rows), i) == Number(Ats(rows), j) <==> Labels(turns, rows)[i] == Labels(turns, rows)[j];
  }

  // ---------------------------------------------------------------------------------------
  // Names
  // ---------------------------------------------------------------------------------------

  ghost predicate LabelledAt(turns: seq<Turn>, s: Uuid, i: nat)
    requires UsersHaveIntent(turns)
  {
    i < |RowsAgain(turns)| && Labels(turns, RowsAgain(turns))[i] == s
  }

  /** The session that takes a session's place: that of any of its questions' rows. */
  ghost function NameOf(turns: seq<Turn>, sids: seq<Uuid>, tids: seq<Uuid>, s: Uuid): Uuid
    requires Again(turns, sids, tids)
  {
    if exists i: nat :: LabelledAt(turns, s, i) then
      var i: nat :| LabelledAt(turns, s, i);
      SessionOf(RowsAgain(turns), sids, i)
    else 0
  }

  function SessionIds(sessions: seq<ChatSession>): set<Uuid> {
    set k | 0 <= k < |sessions| :: sessions[k].id
  }

  ghost function Names(sessions: seq<ChatSession>, turns: seq<Turn>, sids: seq<Uuid>, tids: seq<Uuid>): map<Uuid, Uuid>
    requires Again(turns, sids, tids)
  {
    map s | s in SessionIds(sessions) :: NameOf(turns, sids, tids, s)
  }

  lemma NameOfLabel(turns: seq<Turn>, sids: seq<Uuid>, tids: seq<Uuid>, s: Uuid, i: nat) returns (j: nat)
    requires Again(turns, sids, tids) && LabelledAt(turns, s, i)
    ensures LabelledAt(turns, s, j) && NameOf(turns, sids, tids, s) == SessionOf(RowsAgain(turns), sids, j)
  {
    j :| LabelledAt(turns, s, j) && NameOf(turns, sids, tids, s) == SessionOf(RowsAgain(turns), sids, j);
  }

  lemma {:induction false} NameOfQuestion(turns: seq<Turn>, sids: seq<Uuid>, tids: seq<Uuid>, i: nat, p: nat)
    requires Again(turns, sids, tids) && SessionsFollowTheClock(turns) && Source(turns, i, p)
    ensures NameOf(turns, sids, tids, turns[p].session) == SessionOf(RowsAgain(turns), sids, i)
  {
    RowOfQuestion(turns, i, p);
    var j := NameOfLabel(turns, sids, tids, turns[p].session, i);
    var q := RowIsQuestion(turns, j);
    RowOfQuestion(turns, j, q);
    LabelsDecide(turns, sids, tids, i, p, j, q);
  }

  /** The tables and the ids of an upgrade of their downgrade. */
  ghost predicate Tables(sessions: seq<ChatSession>, turns: seq<Turn>, sids: seq<Uuid>, tids: seq<Uuid>) {
    Tables28(sessions, turns) && Again(turns, sids, tids)
  }

  lemma {:induction false} IsNamed(sessions: seq<ChatSession>, turns: seq<Turn>, sids: seq<Uuid>, tids: seq<Uuid>,
        i: nat, p: nat)
    requires Tables(sessions, turns, sids, tids) && SessionsFollowTheClock(turns) && Source(turns, i, p)
    ensures turns[p].session in Names(sessions, turns, sids, tids)
    ensures Names(sessions, turns, sids, tids)[turns[p].session] == SessionOf(RowsAgain(turns), sids, i)
  {
    assert HasSession(sessions, turns[p]);
    NameOfQuestion(turns, sids, tids, i, p);
  }

  lemma {:induction false} NamesAreInjective(sessions: seq<ChatSession>, turns: seq<Turn>, sids: seq<Uuid>,
        tids: seq<Uuid>)
    requires Tables(sessions, turns, sids, tids) && SessionsFollowTheClock(turns) && RowsAgree(sessions, turns)
    ensures Injective(Names(sessions, turns, sids, tids))
  {
    var names := Names(sessions, turns, sids, tids);
    forall s, t | s in names && t in names && names[s] == names[t] ensures s == t {
      var i, p := RowOfSession(sessions, turns, s);
      var j, q := RowOfSession(sessions, turns, t);
      NameOfQuestion(turns, sids, tids, i, p);
      NameOfQuestion(turns, sids, tids, j, q);
      LabelsDecide(turns, sids, tids, i, p, j, q);
    }
  }

  /** Every session has a question, and so a row. */
  lemma RowOfSession(sessions: seq<ChatSession>, turns: seq<Turn>, s: Uuid) returns (i: nat, p: nat)
    requires Turns28(turns) && UsersHaveIntent(turns) && RowsAgree(sessions, turns) && s in SessionIds(sessions)
    ensures Source(turns, i, p) && turns[p].session == s
  {
    var k :| 0 <= k < |sessions| && sessions[k].id == s;
    assert RowAgrees(sessions[k], turns);
    p :| 0 <= p < |turns| && turns[p].role == User && turns[p].session == s && turns[p].at == sessions[k].startedAt;
    i := QuestionIsRow(turns, p);
  }

  // ---------------------------------------------------------------------------------------
  // Loaded turns come from turns
  // ---------------------------------------------------------------------------------------

  lemma PlacesAgreeByClock(turns: seq<Turn>, sids: seq<Uuid>, tids: seq<Uuid>, i: nat)
    requires Again(turns, sids, tids) && SessionsFollowTheClock(turns) && i < |RowsAgain(turns)|
    ensures var rows := RowsAgain(turns);
            Standing(rows, NewLabels(rows, sids), SessionOf(rows, sids, i), i)
            == Standing(rows, Labels(turns, rows), Labels(turns, rows)[i], i)
  {
    var rows := RowsAgain(turns);
    var labels, labels' := Labels(turns, rows), NewLabels(rows, sids);
    var p := RowIsQuestion(turns, i);
    RowOfQuestion(turns, i, p);
    forall j: nat | j < i ensures SameSession(labels, labels', labels[i], SessionOf(rows, sids, i), j) {
      var q := RowIsQuestion(turns, j);
      RowOfQuestion(turns, j, q);
      LabelsDecide(turns, sids, tids, i, p, j, q);
    }
    SameStanding(rows, labels, labels', labels[i], SessionOf(rows, sids, i), i);
  }

  lemma LabelIsNamed(sessions: seq<ChatSession>, turns: seq<Turn>, sids: seq<Uuid>, tids: seq<Uuid>, i: nat)
    requires Tables(sessions, turns, sids, tids) && SessionsFollowTheClock(turns) && i < |RowsAgain(turns)|
    ensures var names, s := Names(sessions, turns, sids, tids), Labels(turns, RowsAgain(turns))[i];
            s in names && names[s] == SessionOf(RowsAgain(turns), sids, i)
  {
    var p := RowIsQuestion(turns, i);
    RowOfQuestion(turns, i, p);
    IsNamed(sessions, turns, sids, tids, i, p);
  }

  lemma FromHeld(turns: seq<Turn>, t: Turn, ordinal: int, t': Turn, names: map<Uuid, Uuid>)
    requires Holds(turns, t, ordinal) && t.session in names
    requires t' == t.(id := t'.id, session := names[t.session], ordinal := ordinal)
    ensures FromSomewhere(t', turns, names)
  {
    var q :| 0 <= q < |turns| && turns[q].(id := 0) == t.(id := 0, ordinal := ordinal);
    assert turns[q] == t.(id := turns[q].id, ordinal := ordinal);
    assert ReturnsAs(turns[q], t', names);
  }

  lemma NewTurnCameFrom(sessions: seq<ChatSession>, turns: seq<Turn>, sids: seq<Uuid>, tids: seq<Uuid>, x: nat)
    requires Tables(sessions, turns, sids, tids) && SessionsFollowTheClock(turns) && FallInPlace(turns)
    requires x < |NewTurns(turns, sids, tids)|
    ensures FromSomewhere(NewTurns(turns, sids, tids)[x], turns, Names(sessions, turns, sids, tids))
  {
    var rows := RowsAgain(turns);
    var labels, turns', names := Labels(turns, rows), NewTurns(turns, sids, tids), Names(sessions, turns, sids, tids);
    var i := NewTurnIsOfRow(rows, sids, tids, x);
    NewPair(rows, sids, tids, i);
    NewOrdinal(rows, sids, tids, i);
    PlacesAgreeByClock(turns, sids, tids, i);
    LabelIsNamed(sessions, turns, sids, tids, i);
    assert InPlaceAt(turns, rows, labels, i);
    var place := Standing(rows, labels, labels[i], i);
    if x == Pos(rows, i) {
      FromHeld(turns, UserTurn(rows[i], labels[i]), place, turns'[x], names);
    } else {
      FromHeld(turns, AssistantTurn(rows[i], labels[i]), place + 1, turns'[x], names);
    }
  }

  // ---------------------------------------------------------------------------------------
  // Every turn is loaded
  // ---------------------------------------------------------------------------------------

  /** The question that a turn is, or answers. */
  lemma QuestionOf(turns: seq<Turn>, t: nat) returns (q: nat)
    requires AnswersFollow(turns) && t < |turns|
    ensures q < |turns| && turns[q].role == User && turns[q].session == turns[t].session
    ensures turns[q].ordinal <= turns[t].ordinal
    ensures t == q || (IsAnswerAt(turns, q, t) && turns[q].at == turns[t].at)
  {
    if turns[t].role == User {
      q := t;
    } else {
      assert FollowsItsQuestion(turns, t);
      q :| q < |turns| && IsAnswerAt(turns, q, t) && turns[q].at == turns[t].at;
    }
  }

  /** The turn at `t` is loaded at `x`: a question from its row, an answer right after its question. */
  ghost predicate IsLoadedAt(turns: seq<Turn>, t: nat, x: nat)
    requires UsersHaveIntent(turns)
  {
    exists i: nat, p: nat, h: nat :: IsHalf(turns, i, p, t, h) && x == Pos(RowsAgain(turns), i) + h
  }

  predicate IsHalf(turns: seq<Turn>, i: nat, p: nat, t: nat, h: nat)
    requires UsersHaveIntent(turns)
  {
    && i < |RowsAgain(turns)| && p < |turns| && t < |turns| && turns[p].id == RowsAgain(turns)[i].id
    && ((h == 0 && t == p) || (h == 1 && IsAnswerAt(turns, p, t) && HasAnswer(RowsAgain(turns)[i])))
  }

  lemma LoadedOnce(turns: seq<Turn>, t: nat, t': nat, x: nat)
    requires Turns28(turns) && UsersHaveIntent(turns) && IsLoadedAt(turns, t, x) && IsLoadedAt(turns, t', x)
    ensures t == t'
  {
    var rows := RowsAgain(turns);
    var i: nat, p: nat, h: nat :| IsHalf(turns, i, p, t, h) && x == Pos(rows, i) + h;
    var j: nat, q: nat, h': nat :| IsHalf(turns, j, q, t', h') && x == Pos(rows, j) + h';
    HalvesApart(turns, i, p, t, h, j, q, t', h');
  }

  lemma HalvesApart(turns: seq<Turn>, i: nat, p: nat, t: nat, h: nat, j: nat, q: nat, t': nat, h': nat)
    requires Turns28(turns) && UsersHaveIntent(turns)
    requires IsHalf(turns, i, p, t, h) && IsHalf(turns, j, q, t', h')
    requires Pos(RowsAgain(turns), i) + h == Pos(RowsAgain(turns), j) + h'
    ensures t == t'
  {
    PositionsApart(RowsAgain(turns), i, j, h, h');
    assert turns[p].id == turns[q].id;
    if h == 1 {
      OneAnswer(turns, p, t, t');
    }
  }

  lemma PositionsApart(rows: seq<Exchange>, i: nat, j: nat, h: nat, h': nat)
    requires i < |rows| && j < |rows| && h < Halves(rows[i]) && h' < Halves(rows[j])
    requires Pos(rows, i) + h == Pos(rows, j) + h'
    ensures i == j && h == h'
  {
    if i < j {
      PosGrows(rows, i + 1, j);
    } else if j < i {
      PosGrows(rows, j + 1, i);
    }
  }

  lemma OneAnswer(turns: seq<Turn>, p: nat, q: nat, q': nat)
    requires UniqueOrdinals(turns) && p < |turns| && q < |turns| && q' < |turns|
    requires IsAnswerAt(turns, p, q) && IsAnswerAt(turns, p, q')
    ensures q == q'
  {
  }

  lemma TurnIsLoaded(turns: seq<Turn>, t: nat) returns (i: nat, x: nat)
    requires Turns28(turns) && UsersHaveIntent(turns) && AnswersFollow(turns) && t < |turns|
    ensures i < |RowsAgain(turns)| && IsLoadedAt(turns, t, x)
    ensures x == Pos(RowsAgain(turns), i) || (HasAnswer(RowsAgain(turns)[i]) && x == Pos(RowsAgain(turns), i) + 1)
    ensures Labels(turns, RowsAgain(turns))[i] == turns[t].session
  {
    var p := QuestionOf(turns, t);
    i := QuestionIsRow(turns, p);
    RowOfQuestion(turns, i, p);
    var h := if t == p then 0 else 1;
    x := Pos(RowsAgain(turns), i) + h;
    assert IsHalf(turns, i, p, t, h);
  }

  ghost function PlaceLoaded(turns: seq<Turn>, t: nat): nat
    requires UsersHaveIntent(turns)
  {
    if exists x: nat :: IsLoadedAt(turns, t, x) then
      var x: nat :| IsLoadedAt(turns, t, x);
      x
    else 0
  }

  lemma LoadedInSession(sessions: seq<ChatSession>, turns: seq<Turn>, sids: seq<Uuid>, tids: seq<Uuid>, t: nat, x: nat)
    requires Tables(sessions, turns, sids, tids) && SessionsFollowTheClock(turns)
    requires t < |turns| && IsLoadedAt(turns, t, x)
    ensures turns[t].session in Names(sessions, turns, sids, tids)
    ensures x in InSession(NewTurns(turns, sids, tids), Names(sessions, turns, sids, tids)[turns[t].session])
  {
    var i: nat, p: nat, h: nat :|
      IsHalf(turns, i, p, t, h) && x == Pos(RowsAgain(turns), i) + h;
    HalfInSession(sessions, turns, sids, tids, i, p, t, h);
  }

  lemma HalfInSession(sessions: seq<ChatSession>, turns: seq<Turn>, sids: seq<Uuid>, tids: seq<Uuid>, i: nat, p: nat,
        t: nat, h: nat)
    requires Tables(sessions, turns, sids, tids) && SessionsFollowTheClock(turns)
    requires IsHalf(turns, i, p, t, h)
    ensures turns[t].session in Names(sessions, turns, sids, tids)
    ensures Pos(RowsAgain(turns), i) + h
         in InSession(NewTurns(turns, sids, tids), Names(sessions, turns, sids, tids)[turns[t].session])
  {
    HalfHasSource(turns, i, p, t, h);
    IsNamed(sessions, turns, sids, tids, i, p);
    HalfIsLoaded(RowsAgain(turns), sids, tids, i, h);
  }

  lemma HalfHasSource(turns: seq<Turn>, i: nat, p: nat, t: nat, h: nat)
    requires Turns28(turns) && UsersHaveIntent(turns) && IsHalf(turns, i, p, t, h)
    ensures Source(turns, i, p) && turns[t].session == turns[p].session && h < Halves(RowsAgain(turns)[i])
  {
    var q := RowIsQuestion(turns, i);
    assert turns[q].id == turns[p].id;
  }

  lemma HalfIsLoaded(rows: seq<Exchange>, sids: seq<Uuid>, tids: seq<Uuid>, i: nat, h: nat)
    requires Draws(rows, sids, tids) && i < |rows| && h < Halves(rows[i])
    ensures Pos(rows, i) + h < |LoadedTurns(rows, sids, tids)|
    ensures LoadedTurns(rows, sids, tids)[Pos(rows, i) + h].session == SessionOf(rows, sids, i)
  {
    NewPair(rows, sids, tids, i);
  }

  /** A session gets at least as many turns as it had. */
  lemma NoFewerTurns(sessions: seq<ChatSession>, turns: seq<Turn>, sids: seq<Uuid>, tids: seq<Uuid>, s: Uuid)
    requires Tables(sessions, turns, sids, tids) && SessionsFollowTheClock(turns) && AnswersFollow(turns)
    requires s in Names(sessions, turns, sids, tids)
    ensures CountIn(turns, s) <= CountIn(NewTurns(turns, sids, tids), Names(sessions, turns, sids, tids)[s])
  {
    var turns', s' := NewTurns(turns, sids, tids), Names(sessions, turns, sids, tids)[s];
    var m: map<nat, nat> := map t | t in InSession(turns, s) :: PlaceLoaded(turns, t);
    forall t | t in m ensures IsLoadedAt(turns, t, m[t]) && m[t] in InSession(turns', s') {
      var i, x := TurnIsLoaded(turns, t);
      assert IsLoadedAt(turns, t, PlaceLoaded(turns, t));
      LoadedInSession(sessions, turns, sids, tids, t, m[t]);
    }
    forall t, u | t in m && u in m && m[t] == m[u] ensures t == u {
      LoadedOnce(turns, t, u, m[t]);
    }
    InjectionGrows(m, InSession(turns', s'));
    assert m.Keys == InSession(turns, s);
    CountIsPositions(turns, s);
    CountIsPositions(turns', s');
  }

  /** Without a hole below it, an ordinal is less than the number of turns. */
  lemma OrdinalIsBelowCount(turns: seq<Turn>, t: nat)
    requires Turns28(turns) && NoHoles(turns) && t < |turns|
    ensures 0 <= turns[t].ordinal < CountIn(turns, turns[t].session)
  {
    assert TurnChecks(turns[t]);
    var o, ords := turns[t].ordinal, Ords(turns, turns[t].session);
    CountIsOrds(turns, turns[t].session);
    forall k | 0 <= k <= o ensures k in ords {
      if k < o {
        assert Taken(turns, turns[t].session, k);
      }
    }
    FewerBelow(o + 1, ords);
  }

  lemma {:induction false} FewerBelow(n: nat, ords: set<int>)
    requires forall k :: 0 <= k < n ==> k in ords
    ensures n <= |ords|
  {
    if n > 0 {
      FewerBelow(n - 1, ords - {n - 1});
    }
  }

  lemma TurnComesBack(sessions: seq<ChatSession>, turns: seq<Turn>, sids: seq<Uuid>, tids: seq<Uuid>, t: nat)
    requires Tables(sessions, turns, sids, tids) && NothingToLose(sessions, turns) && t < |turns|
    ensures Somewhere(turns[t], NewTurns(turns, sids, tids), Names(sessions, turns, sids, tids))
  {
    var turns', names := NewTurns(turns, sids, tids), Names(sessions, turns, sids, tids);
    var i, x := TurnIsLoaded(turns, t);
    LoadedInSession(sessions, turns, sids, tids, t, x);
    OrdinalIsBelowCount(turns, t);
    NoFewerTurns(sessions, turns, sids, tids, turns[t].session);
    var y := TurnAtOrdinal(turns, sids, tids, names[turns[t].session], turns[t].ordinal);
    NewTurnCameFrom(sessions, turns, sids, tids, y);
    var q :| 0 <= q < |turns| && ReturnsAs(turns[q], turns'[y], names);
    NamesAreInjective(sessions, turns, sids, tids);
    SameTurn(turns, t, q, turns'[y], names);
  }

  lemma SameTurn(turns: seq<Turn>, t: nat, q: nat, t': Turn, names: map<Uuid, Uuid>)
    requires UniqueOrdinals(turns) && t < |turns| && q < |turns| && Injective(names) && turns[t].session in names
    requires ReturnsAs(turns[q], t', names) && t'.session == names[turns[t].session] && t'.ordinal == turns[t].ordinal
    ensures t == q
  {
    assert turns[t].session == turns[q].session && turns[t].ordinal == turns[q].ordinal;
  }

  lemma TurnAtOrdinal(turns: seq<Turn>, sids: seq<Uuid>, tids: seq<Uuid>, s: Uuid, o: int) returns (y: nat)
    requires Again(turns, sids, tids) && 0 <= o < CountIn(NewTurns(turns, sids, tids), s)
    ensures y < |NewTurns(turns, sids, tids)|
    ensures NewTurns(turns, sids, tids)[y].session == s && NewTurns(turns, sids, tids)[y].ordinal == o
  {
    var split, turns' := Split(RowsAgain(turns), sids, |RowsAgain(turns)|), NewTurns(turns, sids, tids);
    OrdinalsAreExact(split, tids);
    CountSurvivesNumbering(split, tids, s, |split|);
    assert split[..|split|] == split && turns'[..|turns'|] == turns';
    assert Taken(turns', s, o);
    y :| 0 <= y < |turns'| && turns'[y].session == s && turns'[y].ordinal == o;
  }

  lemma {:induction false} RegularTurnsReturn(sessions: seq<ChatSession>, turns: seq<Turn>, sids: seq<Uuid>,
        tids: seq<Uuid>)
    requires Tables(sessions, turns, sids, tids) && NothingToLose(sessions, turns)
    ensures TurnsReturn(turns, sids, tids, Names(sessions, turns, sids, tids))
  {
    var turns', names := NewTurns(turns, sids, tids), Names(sessions, turns, sids, tids);
    NamesAreInjective(sessions, turns, sids, tids);
    forall p | 0 <= p < |turns| ensures Somewhere(turns[p], turns', names) {
      TurnComesBack(sessions, turns, sids, tids, p);
    }
    forall x | 0 <= x < |turns'| ensures FromSomewhere(turns'[x], turns, names) {
      NewTurnCameFrom(sessions, turns, sids, tids, x);
    }
  }

  // ---------------------------------------------------------------------------------------
  // Sessions come back
  // ---------------------------------------------------------------------------------------

  lemma FirstAndLast(s: ChatSession, turns: seq<Turn>) returns (first: nat, last: nat)
    requires RowAgrees(s, turns)
    ensures first < |turns| && turns[first].role == User && turns[first].session == s.id
    ensures turns[first].at == s.startedAt
    ensures last < |turns| && turns[last].role == User && turns[last].session == s.id
    ensures turns[last].at == s.lastActivity
  {
    first :| 0 <= first < |turns| && turns[first].role == User
             && turns[first].session == s.id && turns[first].at == s.startedAt;
    last :| 0 <= last < |turns| && turns[last].role == User
            && turns[last].session == s.id && turns[last].at == s.lastActivity;
  }

  lemma {:induction false} RowsAreInside(turns: seq<Turn>, sids: seq<Uuid>, tids: seq<Uuid>, names: map<Uuid, Uuid>,
        s: ChatSession, k: nat, i: nat, j: nat)
    requires Again(turns, sids, tids) && TurnsReturn(turns, sids, tids, names)
    requires AskedBetween(turns, s.id, s.startedAt, s.lastActivity)
    requires s.id in names && k < |sids| && names[s.id] == sids[k]
    requires i < |RowsAgain(turns)| && Number(Ats(RowsAgain(turns)), i) == k + 1
    requires j < |RowsAgain(turns)| && Number(Ats(RowsAgain(turns)), j) == k + 1
    ensures s.startedAt <= Ats(RowsAgain(turns))[i] && Ats(RowsAgain(turns))[j] <= s.lastActivity
  {
    var p := RowIsQuestion(turns, i);
    var q := RowIsQuestion(turns, j);
    NumberOfQuestion(turns, sids, tids, names, s.id, k, i, p);
    NumberOfQuestion(turns, sids, tids, names, s.id, k, j, q);
  }

  lemma {:induction false} RegularSessionReturns(turns: seq<Turn>, sids: seq<Uuid>, tids: seq<Uuid>,
        names: map<Uuid, Uuid>, s: ChatSession, k: nat)
    requires Again(turns, sids, tids) && TurnsReturn(turns, sids, tids, names)
    requires RowAgrees(s, turns) && s.id in names && k < |sids| && names[s.id] == sids[k]
    ensures SessionReturnsAs(s, LoadedSessions(RowsAgain(turns), sids, NewTurns(turns, sids, tids))[k], names)
  {
    var p, q := FirstAndLast(s, turns);
    var _, _ := SessionHasItsExtent(turns, sids, tids, names, s, k, p, q);
    SameOrds(turns, sids, tids, names, s.id);
    RowOfExtent(RowsAgain(turns), sids, NewTurns(turns, sids, tids), s, k, names);
  }

  lemma {:induction false} QuestionsAreInside(turns: seq<Turn>, sids: seq<Uuid>, tids: seq<Uuid>,
        names: map<Uuid, Uuid>, s: Uuid, k: nat, p: nat, q: nat, lo: Micros, hi: Micros)
    requires Again(turns, sids, tids) && TurnsReturn(turns, sids, tids, names)
    requires s in names && k < |sids| && names[s] == sids[k] && Extent(Ats(RowsAgain(turns)), k + 1, lo, hi)
    requires p < |turns| && turns[p].role == User && turns[p].session == s
    requires q < |turns| && turns[q].role == User && turns[q].session == s
    ensures lo <= turns[p].at && turns[q].at <= hi
  {
    AskedWithin(turns, sids, tids, names, s, k, p, lo, hi);
    AskedWithin(turns, sids, tids, names, s, k, q, lo, hi);
  }

  /** The rows of a session's number run from its first question, at `p`, to its last, at `q`. */
  lemma {:induction false} SessionHasItsExtent(turns: seq<Turn>, sids: seq<Uuid>, tids: seq<Uuid>,
        names: map<Uuid, Uuid>, s: ChatSession, k: nat, p: nat, q: nat)
    returns (lo: Micros, hi: Micros)
    requires Again(turns, sids, tids) && TurnsReturn(turns, sids, tids, names)
    requires s.id in names && k < |sids| && names[s.id] == sids[k]
    requires AskedBetween(turns, s.id, s.startedAt, s.lastActivity)
    requires p < |turns| && turns[p].role == User && turns[p].session == s.id && turns[p].at == s.startedAt
    requires q < |turns| && turns[q].role == User && turns[q].session == s.id && turns[q].at == s.lastActivity
    ensures Extent(Ats(RowsAgain(turns)), k + 1, lo, hi) && s.startedAt == lo && s.lastActivity == hi
  {
    var first, last;
    lo, hi, first, last := SessionHasExtent(Ats(RowsAgain(turns)), k + 1);
    assert TurnsReturn(turns, sids, tids, names) && Extent(Ats(RowsAgain(turns)), k + 1, lo, hi);
    QuestionsAreInside(turns, sids, tids, names, s.id, k, p, q, lo, hi);
    RowsAreInside(turns, sids, tids, names, s, k, first, last);
  }

  lemma RowOfExtent(rows: seq<Exchange>, sids: seq<Uuid>, turns': seq<Turn>, s: ChatSession, k: nat, names: map<Uuid,
        Uuid>)
    requires k < |sids| == SessionCount(Ats(rows)) && s.id in names && names[s.id] == sids[k]
    requires Extent(Ats(rows), k + 1, s.startedAt, s.lastActivity) && s.messageCount == CountIn(turns', sids[k])
    ensures SessionReturnsAs(s, LoadedSessions(rows, sids, turns')[k], names)
  {
  }

  lemma {:induction false} PlaceOfSession(sessions: seq<ChatSession>, turns: seq<Turn>, sids: seq<Uuid>,
        tids: seq<Uuid>, s: Uuid)
    returns (k: nat)
    requires Tables(sessions, turns, sids, tids) && NothingToLose(sessions, turns) && s in SessionIds(sessions)
    ensures k < |sids| && s in Names(sessions, turns, sids, tids) && Names(sessions, turns, sids, tids)[s] == sids[k]
  {
    var i, p := RowOfSession(sessions, turns, s);
    IsNamed(sessions, turns, sids, tids, i, p);
    k := PlaceOfRow(RowsAgain(turns), sids, i);
  }

  lemma PlaceOfRow(rows: seq<Exchange>, sids: seq<Uuid>, i: nat) returns (k: nat)
    requires i < |rows| && |sids| == SessionCount(Ats(rows))
    ensures k < |sids| && SessionOf(rows, sids, i) == sids[k]
  {
    NumberGrows(Ats(rows), i, |rows| - 1);
    k := Number(Ats(rows), i) - 1;
  }

  lemma RowOfPlace(rows: seq<Exchange>, sids: seq<Uuid>, k: nat) returns (i: nat)
    requires Drawn(sids, SessionCount(Ats(rows))) && k < |sids|
    ensures i < |rows| && SessionOf(rows, sids, i) == sids[k]
  {
    i := EveryNumberIsUsed(Ats(rows), k + 1, |rows| - 1);
    NumberOfRow(rows, sids, i, k);
  }

  lemma {:induction false} SessionOfPlace(sessions: seq<ChatSession>, turns: seq<Turn>, sids: seq<Uuid>,
        tids: seq<Uuid>, k: nat)
    returns (l: nat)
    requires Tables(sessions, turns, sids, tids) && NothingToLose(sessions, turns) && k < |sids|
    ensures l < |sessions| && sessions[l].id in Names(sessions, turns, sids, tids)
    ensures Names(sessions, turns, sids, tids)[sessions[l].id] == sids[k]
  {
    var i := RowOfPlace(RowsAgain(turns), sids, k);
    var p := RowIsQuestion(turns, i);
    IsNamed(sessions, turns, sids, tids, i, p);
    assert HasSession(sessions, turns[p]);
    l :| 0 <= l < |sessions| && sessions[l].id == turns[p].session;
  }

  lemma {:induction false} NothingToLoseRestores(sessions: seq<ChatSession>, turns: seq<Turn>, sids: seq<Uuid>,
        tids: seq<Uuid>)
    requires Tables(sessions, turns, sids, tids) && NothingToLose(sessions, turns)
    ensures Restores(sessions, turns, sids, tids, Names(sessions, turns, sids, tids))
  {
    var names := Names(sessions, turns, sids, tids);
    var sessions' := LoadedSessions(RowsAgain(turns), sids, NewTurns(turns, sids, tids));
    RegularTurnsReturn(sessions, turns, sids, tids);
    forall k | 0 <= k < |sessions| ensures SessionSomewhere(sessions[k], sessions', names) {
      var l := PlaceOfSession(sessions, turns, sids, tids, sessions[k].id);
      RegularSessionReturns(turns, sids, tids, names, sessions[k], l);
    }
    forall k | 0 <= k < |sessions'| ensures SessionFromSomewhere(sessions'[k], sessions, names) {
      var l := SessionOfPlace(sessions, turns, sids, tids, k);
      RegularSessionReturns(turns, sids, tids, names, sessions[l], k);
    }
  }

  /**
   The exact loss. A downgrade and a second upgrade give 0028's tables back up to ids, whatever ids are
   drawn, if and only if every answer is right after its question and was written with it, ordinals have
   no hole, counting the questions by time and id puts each of them and its answer where the like
   stand, sessions follow the clock, and each session's row says what its turns say.
   */
  lemma {:induction false} SecondUpgradeRestoresIff(sessions: seq<ChatSession>, turns: seq<Turn>, sids: seq<Uuid>,
        tids: seq<Uuid>)
    requires Tables28(sessions, turns) && UsersHaveIntent(turns) && Draws(RowsAgain(turns), sids, tids)
    ensures (exists names :: Restores(sessions, turns, sids, tids, names)) <==> NothingToLose(sessions, turns)
  {
    if names :| Restores(sessions, turns, sids, tids, names) {
      RestoredHadNothingToLose(sessions, turns, sids, tids, names);
    }
    if NothingToLose(sessions, turns) {
      NothingToLoseRestores(sessions, turns, sids, tids);
    }
  }
}
