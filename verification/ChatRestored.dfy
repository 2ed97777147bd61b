/**
 Tables that come back had nothing to lose, whatever ids the second upgrade draws.
 */
module ChatRestored {
  import opened Options
  import opened SessionGrouping
  import opened Transcript
  import opened ChatMigration
  import opened ChatMigrationProofs
  import opened ChatDowngrade
  import opened ChatLoss
  import opened ChatPlaces

  /** 0028's turns, and the ids of a second upgrade. */
  ghost predicate Again(turns: seq<Turn>, sids: seq<Uuid>, tids: seq<Uuid>) {
    Turns28(turns) && UsersHaveIntent(turns) && Draws(RowsAgain(turns), sids, tids)
  }

  function NewTurns(turns: seq<Turn>, sids: seq<Uuid>, tids: seq<Uuid>): seq<Turn>
    requires Again(turns, sids, tids)
  {
    LoadedTurns(RowsAgain(turns), sids, tids)
  }

  /** Every turn comes back, and no other turn does. */
  ghost predicate TurnsReturn(turns: seq<Turn>, sids: seq<Uuid>, tids: seq<Uuid>, names: map<Uuid, Uuid>)
    requires Again(turns, sids, tids)
  {
    var turns' := NewTurns(turns, sids, tids);
    && Injective(names)
    && (forall p {:trigger Somewhere(turns[p], turns', names)} ::
          0 <= p < |turns| ==> Somewhere(turns[p], turns', names))
    && (forall p {:trigger FromSomewhere(turns'[p], turns, names)} ::
          0 <= p < |turns'| ==> FromSomewhere(turns'[p], turns, names))
  }

  lemma {:induction false} ComesBackAt(turns: seq<Turn>, sids: seq<Uuid>, tids: seq<Uuid>, names: map<Uuid, Uuid>,
        p: nat) returns (x: nat)
    requires Again(turns, sids, tids) && TurnsReturn(turns, sids, tids, names) && p < |turns|
    ensures x < |NewTurns(turns, sids, tids)| && ReturnsAs(turns[p], NewTurns(turns, sids, tids)[x], names)
  {
    assert Somewhere(turns[p], NewTurns(turns, sids, tids), names);
    x :| 0 <= x < |NewTurns(turns, sids, tids)| && ReturnsAs(turns[p], NewTurns(turns, sids, tids)[x], names);
  }

  lemma {:induction false} CameFrom(turns: seq<Turn>, sids: seq<Uuid>, tids: seq<Uuid>, names: map<Uuid, Uuid>,
        x: nat) returns (p: nat)
    requires Again(turns, sids, tids) && TurnsReturn(turns, sids, tids, names) && x < |NewTurns(turns, sids, tids)|
    ensures p < |turns| && ReturnsAs(turns[p], NewTurns(turns, sids, tids)[x], names)
  {
    assert FromSomewhere(NewTurns(turns, sids, tids)[x], turns, names);
    p :| 0 <= p < |turns| && ReturnsAs(turns[p], NewTurns(turns, sids, tids)[x], names);
  }

  /** Two turns are in one session exactly when they come back in one. */
  lemma SessionsCorrespond(t: Turn, t': Turn, u: Turn, u': Turn, names: map<Uuid, Uuid>)
    requires Injective(names) && ReturnsAs(t, t', names) && ReturnsAs(u, u', names)
    ensures t.session == u.session <==> t'.session == u'.session
  {
  }

  // ---------------------------------------------------------------------------------------
  // Tables that come back meet the condition
  // ---------------------------------------------------------------------------------------

  /** A loaded answer was loaded from a row, right after the row's question and with its time. */
  lemma NewAnswerFollows(turns: seq<Turn>, sids: seq<Uuid>, tids: seq<Uuid>, x: nat) returns (i: nat)
    requires Again(turns, sids, tids) && x < |NewTurns(turns, sids, tids)|
    requires NewTurns(turns, sids, tids)[x].role == Assistant
    ensures i < |RowsAgain(turns)| && Pos(RowsAgain(turns), i) < |NewTurns(turns, sids, tids)|
    ensures var a, u := NewTurns(turns, sids, tids)[x], NewTurns(turns, sids, tids)[Pos(RowsAgain(turns), i)];
            u.role == User && a.session == u.session && a.ordinal == u.ordinal + 1 && a.at == u.at
  {
    i := NewTurnIsOfRow(RowsAgain(turns), sids, tids, x);
    NewPair(RowsAgain(turns), sids, tids, i);
  }

  lemma FollowsFrom(turns: seq<Turn>, p: nat, q: nat, u': Turn, a': Turn, names: map<Uuid, Uuid>)
    requires p < |turns| && q < |turns| && Injective(names)
    requires ReturnsAs(turns[p], u', names) && ReturnsAs(turns[q], a', names)
    requires u'.role == User && a'.role == Assistant && a'.session == u'.session && a'.ordinal == u'.ordinal + 1
    requires a'.at == u'.at
    ensures FollowsItsQuestion(turns, q)
  {
    SessionsCorrespond(turns[p], u', turns[q], a', names);
    assert IsAnswerAt(turns, p, q);
  }

  lemma ReturnedAnswerFollows(turns: seq<Turn>, sids: seq<Uuid>, tids: seq<Uuid>, names: map<Uuid, Uuid>, q: nat)
    requires Again(turns, sids, tids) && TurnsReturn(turns, sids, tids, names)
    requires q < |turns| && turns[q].role == Assistant
    ensures FollowsItsQuestion(turns, q)
  {
    var x := ComesBackAt(turns, sids, tids, names, q);
    var i := NewAnswerFollows(turns, sids, tids, x);
    var p := CameFrom(turns, sids, tids, names, Pos(RowsAgain(turns), i));
    FollowsFrom(turns, p, q, NewTurns(turns, sids, tids)[Pos(RowsAgain(turns), i)], NewTurns(turns, sids, tids)[x],
      names);
  }

  lemma TakenFrom(turns: seq<Turn>, p: nat, r: nat, t': Turn, u': Turn, names: map<Uuid, Uuid>, o: int)
    requires p < |turns| && r < |turns| && Injective(names)
    requires ReturnsAs(turns[p], t', names) && ReturnsAs(turns[r], u', names)
    requires u'.session == t'.session && u'.ordinal == o
    ensures Taken(turns, turns[p].session, o)
  {
    SessionsCorrespond(turns[p], t', turns[r], u', names);
  }

  lemma NewTurnsHaveNoHole(turns: seq<Turn>, sids: seq<Uuid>, tids: seq<Uuid>, x: nat, o: int) returns (y: nat)
    requires Again(turns, sids, tids) && x < |NewTurns(turns, sids, tids)|
    requires 0 <= o < NewTurns(turns, sids, tids)[x].ordinal
    ensures y < |NewTurns(turns, sids, tids)|
    ensures NewTurns(turns, sids, tids)[y].session == NewTurns(turns, sids, tids)[x].session
    ensures NewTurns(turns, sids, tids)[y].ordinal == o
  {
    var turns', rows := NewTurns(turns, sids, tids), RowsAgain(turns);
    OrdinalsAreExact(Split(rows, sids, |rows|), tids);
    assert Taken(turns', turns'[x].session, o);
    y :| 0 <= y < |turns'| && turns'[y].session == turns'[x].session && turns'[y].ordinal == o;
  }

  lemma ReturnedHasNoHole(turns: seq<Turn>, sids: seq<Uuid>, tids: seq<Uuid>, names: map<Uuid, Uuid>, p: nat, o: int)
    requires Again(turns, sids, tids) && TurnsReturn(turns, sids, tids, names)
    requires p < |turns| && 0 <= o < turns[p].ordinal
    ensures Taken(turns, turns[p].session, o)
  {
    var x := ComesBackAt(turns, sids, tids, names, p);
    var y := NewTurnsHaveNoHole(turns, sids, tids, x, o);
    var r := CameFrom(turns, sids, tids, names, y);
    TakenFrom(turns, p, r, NewTurns(turns, sids, tids)[x], NewTurns(turns, sids, tids)[y], names, o);
  }

  /** Rows of one moment are loaded into one session. */
  lemma SameTimeSameSession(rows: seq<Exchange>, sids: seq<Uuid>, i: nat, j: nat)
    requires |sids| == SessionCount(Ats(rows)) && Nondecreasing(Ats(rows))
    requires i < |rows| && j < |rows| && rows[i].at == rows[j].at
    ensures SessionOf(rows, sids, i) == SessionOf(rows, sids, j)
  {
    assert Near(Ats(rows), i, j);
    NearSharesNumber(Ats(rows), i, j);
    NumberGrows(Ats(rows), i, |rows| - 1);
    NumberGrows(Ats(rows), j, |rows| - 1);
  }

  /** A turn that is loaded from a question has a row of that question's moment. */
  lemma NewQuestionIsOfRow(rows: seq<Exchange>, sids: seq<Uuid>, tids: seq<Uuid>, x: nat) returns (j: nat)
    requires Draws(rows, sids, tids) && x < |LoadedTurns(rows, sids, tids)|
    requires LoadedTurns(rows, sids, tids)[x].role == User
    ensures j < |rows| && LoadedTurns(rows, sids, tids)[x].at == rows[j].at
    ensures LoadedTurns(rows, sids, tids)[x].session == SessionOf(rows, sids, j)
  {
    j := NewTurnIsOfRow(rows, sids, tids, x);
    NewPair(rows, sids, tids, j);
  }

  /** The name of a question's session is the session of its row. */
  lemma ReturnedName(turns: seq<Turn>, sids: seq<Uuid>, tids: seq<Uuid>, names: map<Uuid, Uuid>, i: nat, p: nat)
    requires Again(turns, sids, tids) && TurnsReturn(turns, sids, tids, names) && Source(turns, i, p)
    ensures turns[p].session in names && names[turns[p].session] == SessionOf(RowsAgain(turns), sids, i)
    ensures Labels(turns, RowsAgain(turns))[i] == turns[p].session
  {
    var x := ComesBackAt(turns, sids, tids, names, p);
    var j := NewQuestionIsOfRow(RowsAgain(turns), sids, tids, x);
    RowsDiffer(turns);
    SourceIsAsked(turns, i, p);
    SameTimeSameSession(RowsAgain(turns), sids, i, j);
    RowOfQuestion(turns, i, p);
  }

  /** What is loaded from a row at a place came from a turn like that at the same place. */
  lemma HeldFrom(turns: seq<Turn>, t': Turn, q: nat, names: map<Uuid, Uuid>, s: Uuid, t: Turn, ordinal: int)
    requires q < |turns| && ReturnsAs(turns[q], t', names) && Injective(names)
    requires s in names && t.session == s && t' == t.(id := t'.id, session := names[s], ordinal := ordinal)
    ensures Holds(turns, t, ordinal)
  {
    assert turns[q].session == s;
    assert turns[q].(id := 0) == t.(id := 0, ordinal := ordinal);
  }

  lemma {:induction false} PlacesAgree(turns: seq<Turn>, sids: seq<Uuid>, tids: seq<Uuid>, names: map<Uuid, Uuid>,
        i: nat)
    requires Again(turns, sids, tids) && TurnsReturn(turns, sids, tids, names) && i < |RowsAgain(turns)|
    ensures var rows := RowsAgain(turns);
            Standing(rows, NewLabels(rows, sids), SessionOf(rows, sids, i), i)
            == Standing(rows, Labels(turns, rows), Labels(turns, rows)[i], i)
    ensures Labels(turns, RowsAgain(turns))[i] in names
    ensures names[Labels(turns, RowsAgain(turns))[i]] == SessionOf(RowsAgain(turns), sids, i)
  {
    var rows := RowsAgain(turns);
    var labels, labels' := Labels(turns, rows), NewLabels(rows, sids);
    var p := RowIsQuestion(turns, i);
    ReturnedName(turns, sids, tids, names, i, p);
    forall j: nat | j < i ensures SameSession(labels, labels', labels[i], SessionOf(rows, sids, i), j) {
      var q := RowIsQuestion(turns, j);
      ReturnedName(turns, sids, tids, names, j, q);
      NamesDiffer(names, labels[i], labels[j]);
    }
    SameStanding(rows, labels, labels', labels[i], SessionOf(rows, sids, i), i);
  }

  lemma ReturnedFallsInPlace(turns: seq<Turn>, sids: seq<Uuid>, tids: seq<Uuid>, names: map<Uuid, Uuid>, i: nat)
    requires Again(turns, sids, tids) && TurnsReturn(turns, sids, tids, names) && i < |RowsAgain(turns)|
    ensures InPlaceAt(turns, RowsAgain(turns), Labels(turns, RowsAgain(turns)), i)
  {
    var rows, labels, turns' := RowsAgain(turns), Labels(turns, RowsAgain(turns)), NewTurns(turns, sids, tids);
    PlacesAgree(turns, sids, tids, names, i);
    NewOrdinal(rows, sids, tids, i);
    NewPair(rows, sids, tids, i);
    var q := CameFrom(turns, sids, tids, names, Pos(rows, i));
    HeldFrom(turns, turns'[Pos(rows, i)], q, names, labels[i], UserTurn(rows[i], labels[i]),
      turns'[Pos(rows, i)].ordinal);
    if HasAnswer(rows[i]) {
      var a := CameFrom(turns, sids, tids, names, Pos(rows, i) + 1);
      HeldFrom(turns, turns'[Pos(rows, i) + 1], a, names, labels[i], AssistantTurn(rows[i], labels[i]),
        turns'[Pos(rows, i)].ordinal + 1);
    }
  }

  lemma {:induction false} ReturnedFollowsTheClock(turns: seq<Turn>, sids: seq<Uuid>, tids: seq<Uuid>,
        names: map<Uuid, Uuid>)
    requires Again(turns, sids, tids) && TurnsReturn(turns, sids, tids, names)
    ensures SessionsFollowTheClock(turns)
  {
    var rows := RowsAgain(turns);
    var ats, labels := Ats(rows), Labels(turns, rows);
    RowsDiffer(turns);
    forall i: nat, j: nat | i < |ats| && j < |ats|
      ensures Number(ats, i) == Number(ats, j) <==> labels[i] == labels[j]
    {
      var p := RowIsQuestion(turns, i);
      var q := RowIsQuestion(turns, j);
      ReturnedName(turns, sids, tids, names, i, p);
      ReturnedName(turns, sids, tids, names, j, q);
      SessionsAreNumbers(rows, sids, i, j);
    }
    RegroupingRecoversIff(ats, labels);
  }

  lemma ReturnedOrds(turns: seq<Turn>, turns': seq<Turn>, names: map<Uuid, Uuid>, s: Uuid)
    requires Injective(names) && s in names
    requires forall p {:trigger Somewhere(turns[p], turns', names)} ::
          0 <= p < |turns| ==> Somewhere(turns[p], turns', names)
    requires forall p {:trigger FromSomewhere(turns'[p], turns, names)} ::
          0 <= p < |turns'| ==> FromSomewhere(turns'[p], turns, names)
    ensures Ords(turns, s) == Ords(turns', names[s])
  {
    forall o | o in Ords(turns, s) ensures o in Ords(turns', names[s]) {
      var p :| 0 <= p < |turns| && turns[p].session == s && turns[p].ordinal == o;
      assert Somewhere(turns[p], turns', names);
    }
    forall o | o in Ords(turns', names[s]) ensures o in Ords(turns, s) {
      var x :| 0 <= x < |turns'| && turns'[x].session == names[s] && turns'[x].ordinal == o;
      assert FromSomewhere(turns'[x], turns, names);
    }
  }

  lemma {:induction false} SameOrds(turns: seq<Turn>, sids: seq<Uuid>, tids: seq<Uuid>, names: map<Uuid, Uuid>, s: Uuid)
    requires Again(turns, sids, tids) && TurnsReturn(turns, sids, tids, names) && s in names
    ensures CountIn(NewTurns(turns, sids, tids), names[s]) == CountIn(turns, s)
  {
    var turns' := NewTurns(turns, sids, tids);
    ReturnedOrds(turns, turns', names, s);
    OrdinalsAreExact(Split(RowsAgain(turns), sids, |RowsAgain(turns)|), tids);
    CountIsOrds(turns, s);
    CountIsOrds(turns', names[s]);
  }

  /** The questions of a session are the rows of the number that takes its place. */
  lemma NumberOfQuestion(turns: seq<Turn>, sids: seq<Uuid>, tids: seq<Uuid>, names: map<Uuid, Uuid>, s: Uuid, k: nat,
        i: nat, p: nat)
    requires Again(turns, sids, tids) && TurnsReturn(turns, sids, tids, names) && Source(turns, i, p)
    requires s in names && k < |sids| && names[s] == sids[k]
    ensures turns[p].session == s <==> Number(Ats(RowsAgain(turns)), i) == k + 1
    ensures turns[p].at == Ats(RowsAgain(turns))[i] && turns[p].role == User
  {
    SourceIsAsked(turns, i, p);
    ReturnedName(turns, sids, tids, names, i, p);
    NumberOfRow(RowsAgain(turns), sids, i, k);
    NamesDiffer(names, turns[p].session, s);
  }

  lemma SourceIsAsked(turns: seq<Turn>, i: nat, p: nat)
    requires UsersHaveIntent(turns) && Source(turns, i, p)
    ensures turns[p].at == Ats(RowsAgain(turns))[i] && turns[p].role == User
  {
  }

  lemma NamesDiffer(names: map<Uuid, Uuid>, s: Uuid, t: Uuid)
    requires Injective(names) && s in names && t in names
    ensures names[s] == names[t] <==> s == t
  {
  }

  lemma {:induction false} AskedInSession(turns: seq<Turn>, sids: seq<Uuid>, tids: seq<Uuid>, names: map<Uuid, Uuid>,
        s: Uuid, k: nat, i: nat)
    requires Again(turns, sids, tids) && TurnsReturn(turns, sids, tids, names)
    requires s in names && k < |sids| && names[s] == sids[k] && i < |RowsAgain(turns)|
    requires Number(Ats(RowsAgain(turns)), i) == k + 1
    ensures QuestionAt(turns, s, Ats(RowsAgain(turns))[i])
  {
    var p := RowIsQuestion(turns, i);
    NumberOfQuestion(turns, sids, tids, names, s, k, i, p);
  }

  lemma AskedWithin(turns: seq<Turn>, sids: seq<Uuid>, tids: seq<Uuid>, names: map<Uuid, Uuid>, s: Uuid, k: nat,
        p: nat, lo: Micros, hi: Micros)
    requires Again(turns, sids, tids) && TurnsReturn(turns, sids, tids, names)
    requires s in names && k < |sids| && names[s] == sids[k] && Extent(Ats(RowsAgain(turns)), k + 1, lo, hi)
    requires p < |turns| && turns[p].role == User && turns[p].session == s
    ensures lo <= turns[p].at <= hi
  {
    var i := QuestionIsRow(turns, p);
    NumberOfQuestion(turns, sids, tids, names, s, k, i, p);
    RowsDiffer(turns);
    ExtentDecidesMembership(Ats(RowsAgain(turns)), k + 1, lo, hi, i);
  }

  lemma {:induction false} AllAskedWithin(turns: seq<Turn>, sids: seq<Uuid>, tids: seq<Uuid>, names: map<Uuid, Uuid>,
        s: Uuid, k: nat, lo: Micros, hi: Micros)
    requires Again(turns, sids, tids) && TurnsReturn(turns, sids, tids, names)
    requires s in names && k < |sids| && names[s] == sids[k] && Extent(Ats(RowsAgain(turns)), k + 1, lo, hi)
    ensures AskedBetween(turns, s, lo, hi)
  {
    forall p | 0 <= p < |turns| && turns[p].role == User && turns[p].session == s ensures lo <= turns[p].at <= hi {
      AskedWithin(turns, sids, tids, names, s, k, p, lo, hi);
    }
  }

  /** The row that takes a session's place has its times from the first and last rows of its number. */
  lemma {:induction false} SessionRowIsExtent(rows: seq<Exchange>, sids: seq<Uuid>, turns': seq<Turn>, s: ChatSession,
        k: nat, names: map<Uuid, Uuid>)
    returns (first: nat, last: nat)
    requires k < |sids| == SessionCount(Ats(rows))
    requires SessionReturnsAs(s, LoadedSessions(rows, sids, turns')[k], names)
    ensures s.id in names && names[s.id] == sids[k] && s.messageCount == CountIn(turns', sids[k])
    ensures Extent(Ats(rows), k + 1, s.startedAt, s.lastActivity)
    ensures first < |rows| && Number(Ats(rows), first) == k + 1 && Ats(rows)[first] == s.startedAt
    ensures last < |rows| && Number(Ats(rows), last) == k + 1 && Ats(rows)[last] == s.lastActivity
  {
    var lo, hi;
    lo, hi, first, last := SessionHasExtent(Ats(rows), k + 1);
  }

  lemma {:induction false} ReturnedRowAgrees(turns: seq<Turn>, sids: seq<Uuid>, tids: seq<Uuid>,
        names: map<Uuid, Uuid>, s: ChatSession, k: nat)
    requires Again(turns, sids, tids) && TurnsReturn(turns, sids, tids, names)
    requires k < |sids|
    requires SessionReturnsAs(s, LoadedSessions(RowsAgain(turns), sids, NewTurns(turns, sids, tids))[k], names)
    ensures RowAgrees(s, turns)
  {
    var first, last := SessionRowIsExtent(RowsAgain(turns), sids, NewTurns(turns, sids, tids), s, k, names);
    AskedInSession(turns, sids, tids, names, s.id, k, first);
    AskedInSession(turns, sids, tids, names, s.id, k, last);
    AllAskedWithin(turns, sids, tids, names, s.id, k, s.startedAt, s.lastActivity);
    SameOrds(turns, sids, tids, names, s.id);
  }

  lemma {:induction false} RestoredHadNothingToLose(sessions: seq<ChatSession>, turns: seq<Turn>, sids: seq<Uuid>,
        tids: seq<Uuid>, names: map<Uuid, Uuid>)
    requires Again(turns, sids, tids) && Restores(sessions, turns, sids, tids, names)
    ensures NothingToLose(sessions, turns)
  {
    assert TurnsReturn(turns, sids, tids, names);
    forall q: nat | q < |turns| && turns[q].role == Assistant ensures FollowsItsQuestion(turns, q) {
      ReturnedAnswerFollows(turns, sids, tids, names, q);
    }
    forall p, o | 0 <= p < |turns| && 0 <= o < turns[p].ordinal ensures Taken(turns, turns[p].session, o) {
      ReturnedHasNoHole(turns, sids, tids, names, p, o);
    }
    forall i: nat | i < |RowsAgain(turns)|
      ensures InPlaceAt(turns, RowsAgain(turns), Labels(turns, RowsAgain(turns)), i)
    {
      ReturnedFallsInPlace(turns, sids, tids, names, i);
    }
    ReturnedFollowsTheClock(turns, sids, tids, names);
    var sessions' := LoadedSessions(RowsAgain(turns), sids, NewTurns(turns, sids, tids));
    forall k | 0 <= k < |sessions| ensures RowAgrees(sessions[k], turns) {
      assert SessionSomewhere(sessions[k], sessions', names);
      var l :| 0 <= l < |sessions'| && SessionReturnsAs(sessions[k], sessions'[l], names);
      ReturnedRowAgrees(turns, sids, tids, names, sessions[k], l);
    }
  }
}
