/**
 What migration 0028 does to a table, in the table's own terms: which turns each exchange becomes, in what
 order and in which session, what the sessions record, and which exchanges come back.
 */
module ChatEffects {
  import opened Options
  import opened SessionGrouping
  import opened Transcript
  import opened ChatMigration
  import opened ChatMigrationProofs
  import opened ChatDowngrade
  import opened ChatLoss
  import opened ChatPlaces

  // ---------------------------------------------------------------------------------------
  // Every exchange becomes its turns
  // ---------------------------------------------------------------------------------------

  /** The answer has some character other than a space. */
  predicate SaysSomething(e: Exchange) {
    e.answer.Some? && exists k :: 0 <= k < |e.answer.value| && e.answer.value[k] != ' '
  }

  predicate IsNextTo(t: Turn, u: Turn) {
    t.session == u.session && t.ordinal == u.ordinal + 1
  }

  /**
   The turn at `p` is the exchange's question with everything that was on the row about it, and the turn
   after it is its answer, unless that said nothing: then no answer comes next.
   */
  ghost predicate IsLoadedAt(turns: seq<Turn>, p: nat, e: Exchange) {
    && p < |turns|
    && turns[p] == Turn(turns[p].id, turns[p].session, User, e.text, turns[p].ordinal, e.externalKey, Some(e.intent),
                        None, None, JList([]), e.at)
    && if SaysSomething(e) then
         && p + 1 < |turns|
         && turns[p + 1] == Turn(turns[p + 1].id, turns[p].session, Assistant, e.answer.value, turns[p].ordinal + 1,
                                 None, None, e.answerModel, e.answerRefused, e.citations, e.at)
       else
         forall q :: 0 <= q < |turns| && IsNextTo(turns[q], turns[p]) ==> turns[q].role == User
  }

  /** The turn at `x` is what an exchange asked, or what it was answered. */
  predicate IsHalfOf(t: Turn, e: Exchange) {
    && t.at == e.at
    && if t.role == User then t.content == e.text && t.intent == Some(e.intent) && t.externalKey == e.externalKey
       else
         && SaysSomething(e) && Some(t.content) == e.answer && t.answerModel == e.answerModel
         && t.answerRefused == e.answerRefused && t.citations == e.citations
  }

  lemma HasAnswerIff(e: Exchange)
    ensures HasAnswer(e) <==> SaysSomething(e)
  {
    if e.answer.Some? {
      BlankIff(e.answer.value);
    }
  }

  lemma NoAnswerAfter(rows: seq<Exchange>, sids: seq<Uuid>, tids: seq<Uuid>, i: nat, q: nat)
    requires Draws(rows, sids, tids) && i < |rows| && !HasAnswer(rows[i]) && q < |LoadedTurns(rows, sids, tids)|
    requires Pos(rows, i) < |LoadedTurns(rows, sids, tids)|
    requires IsNextTo(LoadedTurns(rows, sids, tids)[q], LoadedTurns(rows, sids, tids)[Pos(rows, i)])
    ensures LoadedTurns(rows, sids, tids)[q].role == User
  {
    var turns := LoadedTurns(rows, sids, tids);
    if turns[q].role == Assistant {
      LoadedIsPaired(rows, sids, tids);
      assert HasItsQuestion(turns, q);
      QuestionIsJustBefore(turns, Pos(rows, i), q);
      NextIsOfNextRow(rows, sids, i);
    }
  }

  lemma QuestionIsJustBefore(turns: seq<Turn>, p: nat, q: nat)
    requires UniqueOrdinals(turns) && p < |turns| && q < |turns| && HasItsQuestion(turns, q)
    requires turns[q].role == Assistant && IsNextTo(turns[q], turns[p])
    ensures q == p + 1
  {
    assert IsNextTo(turns[q], turns[q - 1]);
  }

  lemma NextIsOfNextRow(rows: seq<Exchange>, sids: seq<Uuid>, i: nat)
    requires |sids| == SessionCount(Ats(rows)) && i < |rows| && !HasAnswer(rows[i])
    requires Pos(rows, i) + 1 < |Split(rows, sids, |rows|)|
    ensures Split(rows, sids, |rows|)[Pos(rows, i) + 1].role == User
  {
    var j := TurnIsHalfOfRow(rows, sids, Pos(rows, i) + 1);
    if i < j {
      PosGrows(rows, i + 1, j);
    } else if j < i {
      PosGrows(rows, j + 1, i);
    }
  }

  lemma RowIsLoaded(rows: seq<Exchange>, sids: seq<Uuid>, tids: seq<Uuid>, i: nat)
    requires Draws(rows, sids, tids) && i < |rows|
    ensures IsLoadedAt(LoadedTurns(rows, sids, tids), Pos(rows, i), rows[i])
  {
    var turns, p := LoadedTurns(rows, sids, tids), Pos(rows, i);
    HasAnswerIff(rows[i]);
    SplitAt(rows, sids, i);
    AnswerFollowsQuestion(rows, sids, tids, i);
    if !HasAnswer(rows[i]) {
      forall q | 0 <= q < |turns| && IsNextTo(turns[q], turns[p]) ensures turns[q].role == User
      {
        NoAnswerAfter(rows, sids, tids, i, q);
      }
    }
  }

  lemma RowOf(table: seq<Exchange>, e: Exchange) returns (i: nat)
    requires e in table
    ensures i < |Sort(table)| && Sort(table)[i] == e
  {
    SortKeeps(table);
    assert e in multiset(Sort(table));
    i :| 0 <= i < |Sort(table)| && Sort(table)[i] == e;
  }

  /** No exchange loses anything it had: not its question and, if it says anything, not its answer. */
  lemma EveryExchangeIsLoaded(table: seq<Exchange>, sids: seq<Uuid>, tids: seq<Uuid>, e: Exchange) returns (p: nat)
    requires e in table && Draws(Sort(table), sids, tids)
    ensures IsLoadedAt(LoadedTurns(Sort(table), sids, tids), p, e)
  {
    var i := RowOf(table, e);
    RowIsLoaded(Sort(table), sids, tids, i);
    p := Pos(Sort(table), i);
  }

  /** And no turn comes from anywhere else. */
  lemma EveryTurnIsOfAnExchange(table: seq<Exchange>, sids: seq<Uuid>, tids: seq<Uuid>, x: nat) returns (e: Exchange)
    requires Draws(Sort(table), sids, tids) && x < |LoadedTurns(Sort(table), sids, tids)|
    ensures e in table && IsHalfOf(LoadedTurns(Sort(table), sids, tids)[x], e)
  {
    var i := TurnIsHalfOfRow(Sort(table), sids, x);
    e := Sort(table)[i];
    HasAnswerIff(e);
    SortKeeps(table);
    assert e in multiset(Sort(table));
  }

  function Questions(turns: seq<Turn>): set<nat> {
    set p: nat | p < |turns| && turns[p].role == User
  }

  lemma OneMoreQuestion(turns: seq<Turn>, r: Exchange, session: Uuid)
    ensures |Questions(turns + TurnsOf(r, session))| == |Questions(turns)| + 1
  {
    var more := turns + TurnsOf(r, session);
    forall p: nat ensures p in Questions(more) <==> p in Questions(turns) || p == |turns| {
      if |turns| < p < |more| {
        assert more[p].role == Assistant;
      }
    }
    assert Questions(more) == Questions(turns) + {|turns|};
  }

  lemma {:induction false} AsManyQuestions(rows: seq<Exchange>, sids: seq<Uuid>, n: nat)
    requires |sids| == SessionCount(Ats(rows)) && n <= |rows|
    ensures |Questions(Split(rows, sids, n))| == n
  {
    if n > 0 {
      AsManyQuestions(rows, sids, n - 1);
      OneMoreQuestion(Split(rows, sids, n - 1), rows[n - 1], SessionOf(rows, sids, n - 1));
    }
  }

  /** One question for each exchange, however alike they are. */
  lemma NoExchangeIsLoadedTwice(table: seq<Exchange>, sids: seq<Uuid>, tids: seq<Uuid>)
    requires Draws(Sort(table), sids, tids)
    ensures |set p: nat | p < |LoadedTurns(Sort(table), sids, tids)|
              && LoadedTurns(Sort(table), sids, tids)[p].role == User| == |table|
  {
    var rows := Sort(table);
    SortKeeps(table);
    AsManyQuestions(rows, sids, |rows|);
    assert Questions(Split(rows, sids, |rows|)) == Questions(LoadedTurns(rows, sids, tids));
    assert Questions(LoadedTurns(rows, sids, tids))
        == set p: nat | p < |LoadedTurns(rows, sids, tids)| && LoadedTurns(rows, sids, tids)[p].role == User;
  }

  // ---------------------------------------------------------------------------------------
  // In order, and in sessions
  // ---------------------------------------------------------------------------------------

  /** Exchanges are loaded in the order of their times, and of their ids where times are equal. */
  lemma LoadedInOrder(table: seq<Exchange>, sids: seq<Uuid>, tids: seq<Uuid>, e: Exchange, f: Exchange)
    returns (p: nat, q: nat)
    requires e in table && f in table && (e.at < f.at || (e.at == f.at && e.id < f.id))
    requires Draws(Sort(table), sids, tids)
    ensures p < q && IsLoadedAt(LoadedTurns(Sort(table), sids, tids), p, e)
    ensures IsLoadedAt(LoadedTurns(Sort(table), sids, tids), q, f)
  {
    var rows := Sort(table);
    SortKeeps(table);
    var i := RowOf(table, e);
    var j := RowOf(table, f);
    assert j < i ==> Before(rows[j], rows[i]);
    RowIsLoaded(rows, sids, tids, i);
    RowIsLoaded(rows, sids, tids, j);
    PosGrows(rows, i + 1, j);
    p, q := Pos(rows, i), Pos(rows, j);
  }

  /** The row that a turn is from. */
  predicate IsFrom(rows: seq<Exchange>, sids: seq<Uuid>, x: nat, i: nat)
    requires |sids| == SessionCount(Ats(rows)) && x < |Split(rows, sids, |rows|)|
  {
    && i < |rows| && Pos(rows, i) <= x < Pos(rows, i + 1)
    && Split(rows, sids, |rows|)[x].at == rows[i].at
    && Split(rows, sids, |rows|)[x].session == SessionOf(rows, sids, i)
  }

  lemma TurnIsFrom(rows: seq<Exchange>, sids: seq<Uuid>, x: nat) returns (i: nat)
    requires |sids| == SessionCount(Ats(rows)) && x < |Split(rows, sids, |rows|)|
    ensures IsFrom(rows, sids, x, i)
  {
    i := TurnIsHalfOfRow(rows, sids, x);
  }

  lemma RowsFollowTurns(rows: seq<Exchange>, sids: seq<Uuid>, x: nat, i: nat, y: nat, j: nat)
    requires |sids| == SessionCount(Ats(rows)) && x <= y < |Split(rows, sids, |rows|)|
    requires IsFrom(rows, sids, x, i) && IsFrom(rows, sids, y, j)
    ensures i <= j && (y == x + 1 ==> j <= i + 1)
  {
    if j < i {
      PosGrows(rows, j + 1, i);
    } else if i + 1 < j {
      PosGrows(rows, i + 1, j);
      assert Pos(rows, i + 2) == Pos(rows, i + 1) + Halves(rows[i + 1]);
      PosGrows(rows, i + 2, j);
    }
  }

  predicate SameSession(turns: seq<Turn>, x: nat, y: nat)
    requires x < |turns| && y < |turns|
  {
    turns[x].session == turns[y].session
  }

  /** Next to each other, two turns are in one session exactly when less than thirty minutes lie between. */
  lemma NeighboursShareIff(rows: seq<Exchange>, sids: seq<Uuid>, x: nat)
    requires Drawn(sids, SessionCount(Ats(rows))) && x + 1 < |Split(rows, sids, |rows|)|
    ensures var split := Split(rows, sids, |rows|);
            SameSession(split, x, x + 1) <==> split[x + 1].at - split[x].at < 30 * 60 * 1_000_000
  {
    var i := TurnIsFrom(rows, sids, x);
    var j := TurnIsFrom(rows, sids, x + 1);
    RowsFollowTurns(rows, sids, x, i, x + 1, j);
    SessionsAreNumbers(rows, sids, i, j);
    if j == i + 1 {
      assert Opens(Ats(rows), j) <==> Ats(rows)[j] - Ats(rows)[i] >= GAP;
    }
  }

  /** A session that was left is not entered again. */
  lemma SessionsAreStretches(rows: seq<Exchange>, sids: seq<Uuid>, x: nat, z: nat, y: nat)
    requires Drawn(sids, SessionCount(Ats(rows))) && x <= z <= y < |Split(rows, sids, |rows|)|
    requires SameSession(Split(rows, sids, |rows|), x, y)
    ensures SameSession(Split(rows, sids, |rows|), x, z)
  {
    var i := TurnIsFrom(rows, sids, x);
    var k := TurnIsFrom(rows, sids, z);
    var j := TurnIsFrom(rows, sids, y);
    RowsFollowTurns(rows, sids, x, i, z, k);
    RowsFollowTurns(rows, sids, z, k, y, j);
    SessionsAreNumbers(rows, sids, i, j);
    SessionsAreNumbers(rows, sids, i, k);
    SessionsAreContiguous(Ats(rows), i, k, j);
  }

  predicate IsSilence(turns: seq<Turn>, z: nat)
    requires 0 < z < |turns|
  {
    turns[z].at - turns[z - 1].at >= 30 * 60 * 1_000_000
  }

  lemma {:induction false} SharedUnlessSilence(rows: seq<Exchange>, sids: seq<Uuid>, x: nat, y: nat)
    requires Drawn(sids, SessionCount(Ats(rows))) && x <= y < |Split(rows, sids, |rows|)|
    ensures SameSession(Split(rows, sids, |rows|), x, y)
       <==> forall z: nat {:trigger IsSilence(Split(rows, sids, |rows|), z)} ::
              x < z <= y ==> !IsSilence(Split(rows, sids, |rows|), z)
  {
    var split := Split(rows, sids, |rows|);
    if x < y {
      SharedUnlessSilence(rows, sids, x, y - 1);
      NeighboursShareIff(rows, sids, y - 1);
      assert IsSilence(split, y) <==> !SameSession(split, y - 1, y);
      if SameSession(split, x, y) {
        SessionsAreStretches(rows, sids, x, y - 1, y);
      }
    }
  }

  /** Two turns are in one session exactly when no thirty minutes of silence lie between them. */
  lemma SessionsAreCutAtSilences(table: seq<Exchange>, sids: seq<Uuid>, tids: seq<Uuid>, x: nat, y: nat)
    requires Draws(Sort(table), sids, tids) && x <= y < |LoadedTurns(Sort(table), sids, tids)|
    ensures var turns := LoadedTurns(Sort(table), sids, tids);
            && turns[x].at <= turns[y].at
            && (turns[x].session == turns[y].session <==>
                  forall z :: x < z <= y ==> turns[z].at - turns[z - 1].at < 30 * 60 * 1_000_000)
  {
    var rows := Sort(table);
    var split, turns := Split(rows, sids, |rows|), LoadedTurns(rows, sids, tids);
    TimesGrow(table, sids, x, y);
    SharedUnlessSilence(rows, sids, x, y);
    SameSilences(split, turns, x, y);
  }

  lemma SameSilences(split: seq<Turn>, turns: seq<Turn>, x: nat, y: nat)
    requires |split| == |turns| && x <= y < |turns| && forall z :: 0 <= z < |turns| ==> split[z].at == turns[z].at
    ensures (forall z: nat {:trigger IsSilence(split, z)} :: x < z <= y ==> !IsSilence(split, z))
       <==> forall z :: x < z <= y ==> turns[z].at - turns[z - 1].at < 30 * 60 * 1_000_000
  {
    forall z: nat | x < z <= y ensures IsSilence(split, z) <==> turns[z].at - turns[z - 1].at >= 30 * 60 * 1_000_000 {
    }
  }

  lemma TimesGrow(table: seq<Exchange>, sids: seq<Uuid>, x: nat, y: nat)
    requires |sids| == SessionCount(Ats(Sort(table))) && x <= y < |Split(Sort(table), sids, |Sort(table)|)|
    ensures var split := Split(Sort(table), sids, |Sort(table)|); split[x].at <= split[y].at
  {
    var rows := Sort(table);
    SortKeeps(table);
    var i := TurnIsFrom(rows, sids, x);
    var j := TurnIsFrom(rows, sids, y);
    RowsFollowTurns(rows, sids, x, i, y, j);
    if i < j {
      assert Before(rows[i], rows[j]);
    }
  }

  /** In its session each turn has the ordinal after that of the turn before it, and the first has zero. */
  lemma OrdinalsCount(table: seq<Exchange>, sids: seq<Uuid>, tids: seq<Uuid>, x: nat)
    requires Draws(Sort(table), sids, tids) && x < |LoadedTurns(Sort(table), sids, tids)|
    ensures var turns := LoadedTurns(Sort(table), sids, tids);
            turns[x].ordinal == |set y: nat | y < x && turns[y].session == turns[x].session|
  {
    var rows := Sort(table);
    var split, turns := Split(rows, sids, |rows|), LoadedTurns(rows, sids, tids);
    CountIsPositions(split[..x], split[x].session);
    assert InSession(split[..x], split[x].session) == set y: nat | y < x && turns[y].session == turns[x].session;
  }

  /** What a session's row records: the times of its first and last turn, and how many it has. */
  lemma SessionsRecordTheirTurns(table: seq<Exchange>, sids: seq<Uuid>, tids: seq<Uuid>, k: nat)
    returns (x: nat, y: nat)
    requires Draws(Sort(table), sids, tids) && k < |sids|
    ensures var turns := LoadedTurns(Sort(table), sids, tids);
            var s := LoadedSessions(Sort(table), sids, turns)[k];
            && s.id == sids[k]
            && x < |turns| && turns[x].session == s.id && turns[x].at == s.startedAt
            && y < |turns| && turns[y].session == s.id && turns[y].at == s.lastActivity
            && (forall z :: 0 <= z < |turns| && turns[z].session == s.id ==>
                  s.startedAt <= turns[z].at <= s.lastActivity)
            && s.messageCount == |set z: nat | z < |turns| && turns[z].session == s.id|
  {
    SortKeeps(table);
    x, y := RowRecordsTimes(Sort(table), sids, tids, k);
    RowRecordsCount(Sort(table), sids, LoadedTurns(Sort(table), sids, tids), k);
  }

  lemma RowRecordsCount(rows: seq<Exchange>, sids: seq<Uuid>, turns: seq<Turn>, k: nat)
    requires k < |sids| == SessionCount(Ats(rows))
    ensures var s := LoadedSessions(rows, sids, turns)[k];
            s.id == sids[k] && s.messageCount == |set z: nat | z < |turns| && turns[z].session == s.id|
  {
    CountIsPositions(turns, sids[k]);
    assert InSession(turns, sids[k]) == set z: nat | z < |turns| && turns[z].session == sids[k];
  }

  lemma RowRecordsTimes(rows: seq<Exchange>, sids: seq<Uuid>, tids: seq<Uuid>, k: nat) returns (x: nat, y: nat)
    requires Draws(rows, sids, tids) && Nondecreasing(Ats(rows)) && k < |sids|
    ensures var turns := LoadedTurns(rows, sids, tids);
            var s := LoadedSessions(rows, sids, turns)[k];
            && x < |turns| && turns[x].session == sids[k] && turns[x].at == s.startedAt
            && y < |turns| && turns[y].session == sids[k] && turns[y].at == s.lastActivity
            && forall z :: 0 <= z < |turns| && turns[z].session == sids[k] ==>
                 s.startedAt <= turns[z].at <= s.lastActivity
  {
    var lo, hi, first, last := SessionHasExtent(Ats(rows), k + 1);
    QuestionOfRow(rows, sids, tids, first, k);
    QuestionOfRow(rows, sids, tids, last, k);
    x, y := Pos(rows, first), Pos(rows, last);
    var turns := LoadedTurns(rows, sids, tids);
    forall z | 0 <= z < |turns| && turns[z].session == sids[k] ensures lo <= turns[z].at <= hi {
      TurnIsWithin(rows, sids, tids, k, lo, hi, z);
    }
  }

  lemma TurnIsWithin(rows: seq<Exchange>, sids: seq<Uuid>, tids: seq<Uuid>, k: nat, lo: Micros, hi: Micros, z: nat)
    requires Draws(rows, sids, tids) && Nondecreasing(Ats(rows)) && k < |sids| && Extent(Ats(rows), k + 1, lo, hi)
    requires z < |LoadedTurns(rows, sids, tids)| && LoadedTurns(rows, sids, tids)[z].session == sids[k]
    ensures lo <= LoadedTurns(rows, sids, tids)[z].at <= hi
  {
    var i := TurnIsFrom(rows, sids, z);
    NumberOfRow(rows, sids, i, k);
    ExtentDecidesMembership(Ats(rows), k + 1, lo, hi, i);
  }

  lemma QuestionOfRow(rows: seq<Exchange>, sids: seq<Uuid>, tids: seq<Uuid>, i: nat, k: nat)
    requires Draws(rows, sids, tids) && i < |rows| && k < |sids| && Number(Ats(rows), i) == k + 1
    ensures Pos(rows, i) < |LoadedTurns(rows, sids, tids)|
    ensures var t := LoadedTurns(rows, sids, tids)[Pos(rows, i)]; t.session == sids[k] && t.at == Ats(rows)[i]
  {
    SplitAt(rows, sids, i);
    NumberOfRow(rows, sids, i, k);
  }

  // ---------------------------------------------------------------------------------------
  // Every question comes back
  // ---------------------------------------------------------------------------------------

  predicate IsNext(turns: seq<Turn>, p: nat, q: nat)
    requires p < |turns| && q < |turns|
  {
    turns[q].session == turns[p].session && turns[q].ordinal == turns[p].ordinal + 1 && turns[q].role == Assistant
  }

  /** The row is the question at `p` with the answer that is next in its session, or with nothing of one. */
  ghost predicate IsReturned(turns: seq<Turn>, p: nat, r: Exchange) {
    && p < |turns| && turns[p].role == User && turns[p].intent == Some(r.intent)
    && r.id == turns[p].id && r.text == turns[p].content && r.externalKey == turns[p].externalKey && r.at == turns[p].at
    && if q: nat :| q < |turns| && IsNext(turns, p, q) then
         && r.answer == Some(turns[q].content) && r.answerModel == turns[q].answerModel
         && r.answerRefused == turns[q].answerRefused && r.citations == turns[q].citations
       else r.answer == None && r.answerModel == None && r.answerRefused == None && r.citations == JList([])
  }

  lemma IsReturnedIff(turns: seq<Turn>, p: nat, r: Exchange)
    requires UniqueOrdinals(turns) && p < |turns|
    ensures ComesBack(turns, p, r) <==> IsReturned(turns, p, r)
  {
    forall q: nat | q < |turns| ensures turns[p].role == User ==> (IsAnswerAt(turns, p, q) <==> IsNext(turns, p, q)) {
    }
    if q: nat :| q < |turns| && IsNext(turns, p, q) {
      forall q': nat | q' < |turns| && IsNext(turns, p, q') ensures q' == q {
      }
    }
  }

  /** The downgraded table is each question with its answer, or alone, and nothing else. */
  lemma DowngradeReturnsIff(turns: seq<Turn>, r: Exchange)
    requires UniqueOrdinals(turns) && UsersHaveIntent(turns)
    ensures r in Downgrade(turns) <==> exists p: nat :: IsReturned(turns, p, r)
  {
    DowngradedRows(turns, |turns|, r);
    if p: nat :| p < |turns| && ComesBack(turns, p, r) {
      IsReturnedIff(turns, p, r);
    }
    if p: nat :| IsReturned(turns, p, r) {
      IsReturnedIff(turns, p, r);
    }
  }

  lemma OneMoreReturns(turns: seq<Turn>, n: nat)
    requires UniqueOrdinals(turns) && UsersHaveIntent(turns) && n < |turns|
    ensures |Downgraded(turns, n + 1)| == |Downgraded(turns, n)| + if turns[n].role == User then 1 else 0
  {
    if turns[n].role == User {
      JoinIsSingle(turns, n);
    }
  }

  lemma {:induction false} AsManyRowsAs(turns: seq<Turn>, n: nat)
    requires UniqueOrdinals(turns) && UsersHaveIntent(turns) && n <= |turns|
    ensures |Downgraded(turns, n)| == |Questions(turns[..n])|
  {
    if n > 0 {
      AsManyRowsAs(turns, n - 1);
      OneMoreReturns(turns, n - 1);
      OneMoreAsked(turns, n - 1);
    }
  }

  lemma OneMoreAsked(turns: seq<Turn>, n: nat)
    requires n < |turns|
    ensures |Questions(turns[..n + 1])| == |Questions(turns[..n])| + if turns[n].role == User then 1 else 0
  {
    assert Questions(turns[..n + 1]) == if turns[n].role == User then Questions(turns[..n]) + {n}
                                        else Questions(turns[..n]);
  }

  /** One row for each question. */
  lemma AsManyRows(turns: seq<Turn>)
    requires UniqueOrdinals(turns) && UsersHaveIntent(turns)
    ensures |Downgrade(turns)| == |set p: nat | p < |turns| && turns[p].role == User|
  {
    AsManyRowsAs(turns, |turns|);
    assert turns[..|turns|] == turns;
  }
}
