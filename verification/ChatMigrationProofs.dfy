/**
 What migration 0028 keeps: the upgraded tables meet every constraint of the new schema, the
 downgrade gives back the normalised transcript, and upgrading again rebuilds the same sessions.
 */
module ChatMigrationProofs {
  import opened Options
  import opened SessionGrouping
  import opened Transcript
  import opened ChatMigration

  // ---------------------------------------------------------------------------------------
  // Sorting
  // ---------------------------------------------------------------------------------------

  ghost predicate Ordered(rows: seq<Exchange>) {
    forall i, j :: 0 <= i < j < |rows| ==> Before(rows[i], rows[j])
  }

  lemma {:induction false} InsertAdds(r: Exchange, rows: seq<Exchange>)
    ensures multiset(Insert(r, rows)) == multiset(rows) + multiset{r}
  {
    if rows != [] && !Before(r, rows[0]) {
      InsertAdds(r, rows[1..]);
      assert rows == [rows[0]] + rows[1..];
    }
  }

  lemma {:induction false} InsertOrders(r: Exchange, rows: seq<Exchange>)
    requires Ordered(rows)
    ensures Ordered(Insert(r, rows))
    ensures forall j :: 0 <= j < |Insert(r, rows)| ==> Insert(r, rows)[j] == r || Insert(r, rows)[j] in rows
  {
    if rows != [] && !Before(r, rows[0]) {
      InsertOrders(r, rows[1..]);
    }
  }

  lemma {:induction false} SortPermutes(rows: seq<Exchange>)
    ensures multiset(Sort(rows)) == multiset(rows)
  {
    if rows != [] {
      SortPermutes(rows[1..]);
      InsertAdds(rows[0], Sort(rows[1..]));
      assert rows == [rows[0]] + rows[1..];
    }
  }

  lemma {:induction false} SortOrders(rows: seq<Exchange>)
    ensures Ordered(Sort(rows))
  {
    if rows != [] {
      SortOrders(rows[1..]);
      InsertOrders(rows[0], Sort(rows[1..]));
    }
  }

  lemma SortKeeps(rows: seq<Exchange>)
    ensures multiset(Sort(rows)) == multiset(rows) && |Sort(rows)| == |rows|
    ensures Ordered(Sort(rows)) && Nondecreasing(Ats(Sort(rows)))
  {
    SortPermutes(rows);
    SortOrders(rows);
    assert |multiset(Sort(rows))| == |multiset(rows)|;
    var sorted := Sort(rows);
    forall i, j | 0 <= i < j < |sorted| ensures Ats(sorted)[i] <= Ats(sorted)[j] {
      assert Before(sorted[i], sorted[j]);
    }
  }

  lemma SortedRowIsRow(rows: seq<Exchange>, i: nat)
    requires i < |Sort(rows)|
    ensures Sort(rows)[i] in rows
  {
    SortKeeps(rows);
    assert Sort(rows)[i] in multiset(rows);
  }

  // ---------------------------------------------------------------------------------------
  // Where a row's turns stand in the split
  // ---------------------------------------------------------------------------------------

  function Halves(r: Exchange): nat {
    if HasAnswer(r) then 2 else 1
  }

  function Pos(rows: seq<Exchange>, n: nat): nat
    requires n <= |rows|
  {
    if n == 0 then 0 else Pos(rows, n - 1) + Halves(rows[n - 1])
  }

  lemma {:induction false} SplitPrefix(rows: seq<Exchange>, sids: seq<Uuid>, i: nat, n: nat)
    requires i <= n <= |rows| && |sids| == SessionCount(Ats(rows))
    ensures |Split(rows, sids, n)| == Pos(rows, n)
    ensures Pos(rows, i) <= Pos(rows, n)
    ensures Split(rows, sids, n)[..Pos(rows, i)] == Split(rows, sids, i)
    decreases n
  {
    if i < n {
      SplitPrefix(rows, sids, i, n - 1);
    } else if n > 0 {
      SplitPrefix(rows, sids, n - 1, n - 1);
    }
  }

  lemma SplitAt(rows: seq<Exchange>, sids: seq<Uuid>, i: nat)
    requires i < |rows| && |sids| == SessionCount(Ats(rows))
    ensures |Split(rows, sids, |rows|)| == Pos(rows, |rows|)
    ensures Pos(rows, i) + Halves(rows[i]) == Pos(rows, i + 1) <= Pos(rows, |rows|)
    ensures Split(rows, sids, |rows|)[Pos(rows, i)] == UserTurn(rows[i], SessionOf(rows, sids, i))
    ensures HasAnswer(rows[i]) ==>
              Split(rows, sids, |rows|)[Pos(rows, i) + 1] == AssistantTurn(rows[i], SessionOf(rows, sids, i))
  {
    SplitPrefix(rows, sids, i + 1, |rows|);
    SplitPrefix(rows, sids, i, i);
    var all, upTo := Split(rows, sids, |rows|), Split(rows, sids, i + 1);
    assert upTo == Split(rows, sids, i) + TurnsOf(rows[i], SessionOf(rows, sids, i));
    assert all[Pos(rows, i)] == all[..Pos(rows, i + 1)][Pos(rows, i)];
    if HasAnswer(rows[i]) {
      assert all[Pos(rows, i) + 1] == all[..Pos(rows, i + 1)][Pos(rows, i) + 1];
    }
  }

  lemma {:induction false} RowAt(rows: seq<Exchange>, n: nat, p: nat) returns (i: nat)
    requires n <= |rows| && p < Pos(rows, n)
    ensures i < n && Pos(rows, i) <= p < Pos(rows, i) + Halves(rows[i])
  {
    if p >= Pos(rows, n - 1) {
      i := n - 1;
    } else {
      i := RowAt(rows, n - 1, p);
    }
  }

  // ---------------------------------------------------------------------------------------
  // Ordinals
  // ---------------------------------------------------------------------------------------

  lemma {:induction false} CountGrows(turns: seq<Turn>, session: Uuid, p: nat, q: nat)
    requires p <= q <= |turns|
    ensures CountIn(turns[..p], session) <= CountIn(turns[..q], session)
    ensures p < q && turns[p].session == session ==> CountIn(turns[..p], session) < CountIn(turns[..q], session)
    decreases q
  {
    if p < q {
      assert turns[..q][..q - 1] == turns[..q - 1];
      CountGrows(turns, session, p, q - 1);
    }
  }

  lemma CountStep(turns: seq<Turn>, session: Uuid, p: nat)
    requires p < |turns|
    ensures CountIn(turns[..p + 1], session)
         == CountIn(turns[..p], session) + (if turns[p].session == session then 1 else 0)
  {
    assert turns[..p + 1][..p] == turns[..p];
  }

  ghost predicate Taken(turns: seq<Turn>, session: Uuid, ordinal: int) {
    exists p :: 0 <= p < |turns| && turns[p].session == session && turns[p].ordinal == ordinal
  }

  lemma {:induction false} OneOfEach(table: seq<Exchange>, r: Exchange)
    requires DistinctIds(table)
    ensures multiset(table)[r] <= 1
  {
    if table != [] {
      OneOfEach(table[1..], r);
      assert table == [table[0]] + table[1..];
    }
  }

  lemma {:induction false} SortedIdsDiffer(table: seq<Exchange>)
    requires DistinctIds(table)
    ensures DistinctIds(Sort(table))
  {
    SortKeeps(table);
    var rows := Sort(table);
    forall i, j | 0 <= i < j < |rows| ensures rows[i].id != rows[j].id {
      if rows[i].id == rows[j].id {
        SortedRowIsRow(table, i);
        SortedRowIsRow(table, j);
        assert rows[i] == rows[j];
        assert rows == rows[..i] + [rows[i]] + rows[i + 1..j] + [rows[j]] + rows[j + 1..];
        assert multiset(table)[rows[i]] >= 2;
        OneOfEach(table, rows[i]);
      }
    }
  }

  /** Ordinals are unique in a session, and run over exactly 0..count-1 of it. */
  lemma OrdinalsAreExact(turns: seq<Turn>, tids: seq<Uuid>)
    requires |tids| == |turns|
    ensures UniqueOrdinals(Numbered(turns, tids))
    ensures forall p :: 0 <= p < |turns| ==>
              0 <= Numbered(turns, tids)[p].ordinal < CountIn(turns, turns[p].session)
    ensures forall s, o :: 0 <= o < CountIn(turns, s) ==> Taken(Numbered(turns, tids), s, o)
  {
    var numbered := Numbered(turns, tids);
    forall p, q | 0 <= p < q < |turns| && turns[p].session == turns[q].session
      ensures numbered[p].ordinal < numbered[q].ordinal
    {
      CountGrows(turns, turns[p].session, p, q);
    }
    forall p | 0 <= p < |turns| ensures numbered[p].ordinal < CountIn(turns, turns[p].session) {
      CountGrows(turns, turns[p].session, p, |turns|);
      assert turns[..|turns|] == turns;
    }
    forall s, o | 0 <= o < CountIn(turns, s) ensures Taken(numbered, s, o) {
      assert turns[..|turns|] == turns;
      var p := OrdinalIsTaken(turns, s, o, |turns|);
      assert numbered[p].session == s && numbered[p].ordinal == o;
    }
  }

  lemma {:induction false} OrdinalIsTaken(turns: seq<Turn>, s: Uuid, o: nat, n: nat) returns (p: nat)
    requires n <= |turns| && o < CountIn(turns[..n], s)
    ensures p < n && turns[p].session == s && CountIn(turns[..p], s) == o
  {
    CountStep(turns, s, n - 1);
    if o < CountIn(turns[..n - 1], s) {
      p := OrdinalIsTaken(turns, s, o, n - 1);
    } else {
      p := n - 1;
    }
  }

  lemma {:induction false} CountSurvivesNumbering(turns: seq<Turn>, tids: seq<Uuid>, s: Uuid, n: nat)
    requires |tids| == |turns| && n <= |turns|
    ensures CountIn(Numbered(turns, tids)[..n], s) == CountIn(turns[..n], s)
  {
    if n > 0 {
      CountSurvivesNumbering(turns, tids, s, n - 1);
      CountStep(turns, s, n - 1);
      CountStep(Numbered(turns, tids), s, n - 1);
    }
  }

  // ---------------------------------------------------------------------------------------
  // The upgraded tables meet the new schema
  // ---------------------------------------------------------------------------------------

  lemma TurnIsHalfOfRow(rows: seq<Exchange>, sids: seq<Uuid>, p: nat) returns (i: nat)
    requires |sids| == SessionCount(Ats(rows)) && p < |Split(rows, sids, |rows|)|
    ensures i < |rows| && (p == Pos(rows, i) || (HasAnswer(rows[i]) && p == Pos(rows, i) + 1))
    ensures Split(rows, sids, |rows|)[p] ==
              if p == Pos(rows, i) then UserTurn(rows[i], SessionOf(rows, sids, i))
              else AssistantTurn(rows[i], SessionOf(rows, sids, i))
  {
    SplitPrefix(rows, sids, |rows|, |rows|);
    i := RowAt(rows, |rows|, p);
    SplitAt(rows, sids, i);
  }

  lemma TurnMeetsChecks(rows: seq<Exchange>, sids: seq<Uuid>, tids: seq<Uuid>, p: nat) returns (k: nat)
    requires Draws(rows, sids, tids) && p < |tids|
    requires forall i :: 0 <= i < |rows| ==> ExchangeChecks(rows[i])
    ensures TurnChecks(LoadedTurns(rows, sids, tids)[p])
    ensures k < |sids| && sids[k] == LoadedTurns(rows, sids, tids)[p].session
  {
    var i := TurnIsHalfOfRow(rows, sids, p);
    NumberGrows(Ats(rows), i, |rows| - 1);
    k := Number(Ats(rows), i) - 1;
  }

  lemma SessionMeetsChecks(rows: seq<Exchange>, sids: seq<Uuid>, turns: seq<Turn>, k: nat)
    requires k < |sids| == SessionCount(Ats(rows))
    ensures SessionChecks(LoadedSessions(rows, sids, turns)[k])
  {
    var _, _, _, _ := SessionHasExtent(Ats(rows), k + 1);
  }

  /** Whatever ids are drawn, the upgraded tables satisfy every constraint 0028 adds after the load. */
  lemma UpgradeMeetsConstraints(rows: seq<Exchange>, sids: seq<Uuid>, tids: seq<Uuid>)
    requires Table27(rows) && Draws(rows, sids, tids)
    ensures var turns := LoadedTurns(rows, sids, tids);
            var sessions := LoadedSessions(rows, sids, turns);
            Tables28(sessions, turns)
            && forall k :: 0 <= k < |sessions| ==> sessions[k].messageCount == CountIn(turns, sessions[k].id)
  {
    var turns := LoadedTurns(rows, sids, tids);
    var sessions := LoadedSessions(rows, sids, turns);
    OrdinalsAreExact(Split(rows, sids, |rows|), tids);
    forall k | 0 <= k < |sids| ensures SessionChecks(sessions[k]) {
      SessionMeetsChecks(rows, sids, turns, k);
    }
    TurnsMeetChecks(rows, sids, tids, sessions);
  }

  lemma TurnsMeetChecks(rows: seq<Exchange>, sids: seq<Uuid>, tids: seq<Uuid>, sessions: seq<ChatSession>)
    requires Draws(rows, sids, tids) && |sessions| == |sids|
    requires forall i :: 0 <= i < |rows| ==> ExchangeChecks(rows[i])
    requires forall k :: 0 <= k < |sids| ==> sessions[k].id == sids[k]
    ensures var turns := LoadedTurns(rows, sids, tids);
            && (forall p :: 0 <= p < |turns| ==> TurnChecks(turns[p]))
            && (forall p :: 0 <= p < |turns| ==> HasSession(sessions, turns[p]))
  {
    var turns := LoadedTurns(rows, sids, tids);
    forall p | 0 <= p < |turns| ensures TurnChecks(turns[p]) && HasSession(sessions, turns[p]) {
      var k := TurnMeetsChecks(rows, sids, tids, p);
      assert sessions[k].id == turns[p].session;
    }
  }

  /** A row's question, and right after it in the same session its answer if it has one. */
  ghost predicate Pair(r: Exchange, turns: seq<Turn>, p: nat) {
    && p < |turns|
    && turns[p].role == User && turns[p].intent == Some(r.intent)
    && turns[p].content == r.text && turns[p].externalKey == r.externalKey && turns[p].at == r.at
    && (HasAnswer(r) ==>
          && p + 1 < |turns|
          && Answers(turns[p + 1], turns[p])
          && Some(turns[p + 1].content) == r.answer && turns[p + 1].answerModel == r.answerModel
          && turns[p + 1].answerRefused == r.answerRefused && turns[p + 1].citations == r.citations)
  }

  /** Each answer sits in its question's session, at its question's ordinal plus one. */
  lemma {:induction false} AnswerFollowsQuestion(rows: seq<Exchange>, sids: seq<Uuid>, tids: seq<Uuid>, i: nat)
    requires Draws(rows, sids, tids) && i < |rows|
    ensures Pair(rows[i], LoadedTurns(rows, sids, tids), Pos(rows, i))
  {
    SplitAt(rows, sids, i);
    if HasAnswer(rows[i]) {
      CountStep(Split(rows, sids, |rows|), SessionOf(rows, sids, i), Pos(rows, i));
    }
  }

  // ---------------------------------------------------------------------------------------
  // Round trip
  // ---------------------------------------------------------------------------------------

  lemma {:induction false} NoMatch(turns: seq<Turn>, u: Turn, n: nat)
    requires n <= |turns| && forall q :: 0 <= q < n ==> !Answers(turns[q], u)
    ensures Matches(turns[..n], u) == []
  {
    if n > 0 {
      NoMatch(turns, u, n - 1);
      assert turns[..n][..n - 1] == turns[..n - 1];
    }
  }

  lemma {:induction false} OneMatch(turns: seq<Turn>, u: Turn, p: nat, n: nat)
    requires p < n <= |turns| && Answers(turns[p], u)
    requires forall q :: 0 <= q < n && q != p ==> !Answers(turns[q], u)
    ensures Matches(turns[..n], u) == [turns[p]]
  {
    assert turns[..n][..n - 1] == turns[..n - 1];
    if p == n - 1 {
      NoMatch(turns, u, n - 1);
    } else {
      OneMatch(turns, u, p, n - 1);
    }
  }

  /** The turns of the rows, in order and pair by pair, at positions nothing else can be mistaken for. */
  ghost predicate Paired(rows: seq<Exchange>, turns: seq<Turn>) {
    && |turns| == Pos(rows, |rows|)
    && (forall i :: 0 <= i < |rows| ==> PairAt(rows, turns, i))
    && (forall q :: 0 <= q < |turns| ==> HasItsQuestion(turns, q))
    && UniqueOrdinals(turns)
  }

  ghost predicate PairAt(rows: seq<Exchange>, turns: seq<Turn>, i: nat)
    requires i < |rows|
  {
    Pair(rows[i], turns, Pos(rows, i))
  }

  ghost predicate HasItsQuestion(turns: seq<Turn>, q: nat)
    requires q < |turns|
  {
    turns[q].role == Assistant ==> q > 0 && Answers(turns[q], turns[q - 1])
  }

  lemma LoadedIsPaired(rows: seq<Exchange>, sids: seq<Uuid>, tids: seq<Uuid>)
    requires Draws(rows, sids, tids)
    ensures Paired(rows, LoadedTurns(rows, sids, tids))
  {
    var turns := LoadedTurns(rows, sids, tids);
    SplitPrefix(rows, sids, |rows|, |rows|);
    OrdinalsAreExact(Split(rows, sids, |rows|), tids);
    forall i | 0 <= i < |rows| ensures PairAt(rows, turns, i) {
      AnswerFollowsQuestion(rows, sids, tids, i);
    }
    forall q | 0 <= q < |turns| ensures HasItsQuestion(turns, q) {
      AnswerHasQuestion(rows, sids, tids, q);
    }
  }

  /** Every answer that was loaded has its question right before it. */
  lemma AnswerHasQuestion(rows: seq<Exchange>, sids: seq<Uuid>, tids: seq<Uuid>, q: nat)
    requires Draws(rows, sids, tids) && q < |tids|
    ensures HasItsQuestion(LoadedTurns(rows, sids, tids), q)
  {
    var j := TurnIsHalfOfRow(rows, sids, q);
    AnswerFollowsQuestion(rows, sids, tids, j);
  }

  /** Where ordinals are unique and answers have their questions, the join is "the next turn, if an answer". */
  lemma JoinIsNextTurn(turns: seq<Turn>, p: nat)
    requires UniqueOrdinals(turns) && p < |turns| && turns[p].role == User && turns[p].intent.Some?
    requires forall q :: 0 <= q < |turns| ==> HasItsQuestion(turns, q)
    ensures JoinRow(turns, turns[p]) ==
              [Rejoined(turns[p],
                        if p + 1 < |turns| && turns[p + 1].role == Assistant then Some(turns[p + 1]) else None)]
  {
    assert turns[..|turns|] == turns;
    forall q | 0 <= q < |turns| && Answers(turns[q], turns[p]) ensures q == p + 1 {
      assert HasItsQuestion(turns, q);
      assert turns[q - 1].session == turns[p].session && turns[q - 1].ordinal == turns[p].ordinal;
    }
    if p + 1 < |turns| && turns[p + 1].role == Assistant {
      assert HasItsQuestion(turns, p + 1);
      OneMatch(turns, turns[p], p + 1, |turns|);
    } else {
      NoMatch(turns, turns[p], |turns|);
    }
  }

  lemma {:induction false} PosGrows(rows: seq<Exchange>, i: nat, n: nat)
    requires i <= n <= |rows|
    ensures Pos(rows, i) <= Pos(rows, n)
  {
    if i < n {
      PosGrows(rows, i, n - 1);
    }
  }

  /** A row's pair of turns rejoins to the row, normalised, under the id of its question's turn. */
  lemma PairRejoins(rows: seq<Exchange>, turns: seq<Turn>, i: nat)
    requires Paired(rows, turns) && UsersHaveIntent(turns) && i < |rows|
    ensures Pos(rows, i) < Pos(rows, i + 1) <= |turns|
    ensures Downgraded(turns, Pos(rows, i + 1))
         == Downgraded(turns, Pos(rows, i)) + [Normalised(rows[i]).(id := turns[Pos(rows, i)].id)]
  {
    var p, r := Pos(rows, i), rows[i];
    PosGrows(rows, i + 1, |rows|);
    assert PairAt(rows, turns, i);
    if i + 1 < |rows| {
      assert PairAt(rows, turns, i + 1);
    }
    JoinIsNextTurn(turns, p);
    assert JoinRow(turns, turns[p]) == [Normalised(r).(id := turns[p].id)];
    assert Downgraded(turns, p + 1) == Downgraded(turns, p) + JoinRow(turns, turns[p]);
  }

  /** What row `i` becomes: itself, normalised, under its user turn's id. */
  ghost predicate Returned(back: seq<Exchange>, rows: seq<Exchange>, turns: seq<Turn>, i: nat)
    requires i < |rows| && i < |back|
  {
    Pos(rows, i) < |turns| && back[i] == Normalised(rows[i]).(id := turns[Pos(rows, i)].id)
  }

  ghost predicate AllReturned(back: seq<Exchange>, rows: seq<Exchange>, turns: seq<Turn>) {
    |back| <= |rows| && forall i :: 0 <= i < |back| ==> Returned(back, rows, turns, i)
  }

  lemma {:induction false} OneMoreReturned(before: seq<Exchange>, x: Exchange, rows: seq<Exchange>, turns: seq<Turn>,
        p: nat)
    requires |before| < |rows| && AllReturned(before, rows, turns)
    requires p == Pos(rows, |before|) < |turns| && x == Normalised(rows[|before|]).(id := turns[p].id)
    ensures AllReturned(before + [x], rows, turns)
  {
    forall i | 0 <= i < |before| ensures Returned(before + [x], rows, turns, i) {
      assert Returned(before, rows, turns, i);
    }
  }

  lemma {:induction false} DowngradeRebuilds(rows: seq<Exchange>, turns: seq<Turn>, n: nat)
    requires Paired(rows, turns) && UsersHaveIntent(turns) && n <= |rows|
    ensures Pos(rows, n) <= |turns|
    ensures |Downgraded(turns, Pos(rows, n))| == n && AllReturned(Downgraded(turns, Pos(rows, n)), rows, turns)
  {
    if n > 0 {
      var i: nat := n - 1;
      DowngradeRebuilds(rows, turns, i);
      PairRejoins(rows, turns, i);
      assert i + 1 == n;
      OneMoreReturned(Downgraded(turns, Pos(rows, i)), Normalised(rows[i]).(id := turns[Pos(rows, i)].id), rows, turns,
        Pos(rows, i));
    }
  }

  lemma WithoutOne<T>(s: seq<T>, j: nat)
    requires j < |s|
    ensures multiset(s[..j] + s[j + 1..]) == multiset(s) - multiset{s[j]}
    ensures multiset(s) == multiset(s[..j] + s[j + 1..]) + multiset{s[j]}
  {
    assert s == s[..j] + [s[j]] + s[j + 1..];
  }

  lemma MapWithout<T>(f: Exchange -> T, a: seq<Exchange>, j: nat)
    requires j < |a|
    ensures multiset(Map(f, a)) == multiset(Map(f, a[..j] + a[j + 1..])) + multiset{f(a[j])}
  {
    WithoutOne(Map(f, a), j);
    assert Map(f, a[..j] + a[j + 1..]) == Map(f, a)[..j] + Map(f, a)[j + 1..];
  }

  lemma {:induction false} MapKeepsPermutation<T>(f: Exchange -> T, a: seq<Exchange>, b: seq<Exchange>)
    requires multiset(a) == multiset(b)
    ensures multiset(Map(f, a)) == multiset(Map(f, b))
    decreases |a|
  {
    assert |multiset(a)| == |a| && |multiset(b)| == |b|;
    if a != [] {
      var j := IndexOf(b, a[0], a);
      var a', b' := a[..0] + a[1..], b[..j] + b[j + 1..];
      assert multiset(a') == multiset(b') by {
        WithoutOne(a, 0);
        WithoutOne(b, j);
      }
      assert multiset(Map(f, a)) == multiset(Map(f, a')) + multiset{f(a[0])} by {
        MapWithout(f, a, 0);
      }
      assert multiset(Map(f, b)) == multiset(Map(f, b')) + multiset{f(a[0])} by {
        MapWithout(f, b, j);
      }
      MapKeepsPermutation(f, a', b');
    }
  }

  lemma IndexOf<T>(b: seq<T>, x: T, a: seq<T>) returns (j: nat)
    requires x in a && multiset(a) == multiset(b)
    ensures j < |b| && b[j] == x
  {
    assert x in multiset(b);
    j :| 0 <= j < |b| && b[j] == x;
  }

  lemma LoadedUsersHaveIntent(rows: seq<Exchange>, sids: seq<Uuid>, tids: seq<Uuid>)
    requires Draws(rows, sids, tids)
    ensures UsersHaveIntent(LoadedTurns(rows, sids, tids))
  {
    var turns := LoadedTurns(rows, sids, tids);
    forall p | 0 <= p < |turns| && turns[p].role == User ensures turns[p].intent.Some? {
      var i := TurnIsHalfOfRow(rows, sids, p);
    }
  }

  lemma ReturnedRowsMatch(rows: seq<Exchange>, turns: seq<Turn>, back: seq<Exchange>)
    requires |back| == |rows| && forall i :: 0 <= i < |rows| ==> Returned(back, rows, turns, i)
    ensures Map(Stripped, back) == Map(Kept, rows)
  {
    forall i | 0 <= i < |rows| ensures Map(Stripped, back)[i] == Map(Kept, rows)[i] {
      assert Returned(back, rows, turns, i);
    }
  }

  lemma ReturnedIdsDiffer(rows: seq<Exchange>, turns: seq<Turn>, back: seq<Exchange>)
    requires |back| == |rows| && forall i :: 0 <= i < |rows| ==> Returned(back, rows, turns, i)
    requires forall p, q :: 0 <= p < q < |turns| ==> turns[p].id != turns[q].id
    ensures DistinctIds(back)
  {
    forall i, j | 0 <= i < j < |back| ensures back[i].id != back[j].id {
      assert Returned(back, rows, turns, i) && Returned(back, rows, turns, j);
      PosGrows(rows, i + 1, j);
    }
  }

  /** Sorted row by sorted row, the downgrade of the upgrade is the normalised transcript. */
  lemma RoundTripInOrder(rows: seq<Exchange>, sids: seq<Uuid>, tids: seq<Uuid>)
    requires Draws(rows, sids, tids)
    ensures UsersHaveIntent(LoadedTurns(rows, sids, tids))
    ensures Map(Stripped, Downgrade(LoadedTurns(rows, sids, tids))) == Map(Kept, rows)
    ensures DistinctIds(Downgrade(LoadedTurns(rows, sids, tids)))
  {
    var turns := LoadedTurns(rows, sids, tids);
    LoadedUsersHaveIntent(rows, sids, tids);
    LoadedIsPaired(rows, sids, tids);
    assert forall p, q :: 0 <= p < q < |turns| ==> turns[p].id != turns[q].id;
    DowngradeRebuilds(rows, turns, |rows|);
    ReturnedRowsMatch(rows, turns, Downgrade(turns));
    ReturnedIdsDiffer(rows, turns, Downgrade(turns));
  }

  /**
   The round trip. Whatever ids are drawn, downgrading the upgraded transcript gives back every
   row, answers that were missing or blank normalised to nothing, and loses or invents no row.
   */
  lemma {:induction false} RoundTrip(table: seq<Exchange>, sids: seq<Uuid>, tids: seq<Uuid>)
    requires Draws(Sort(table), sids, tids)
    ensures UsersHaveIntent(LoadedTurns(Sort(table), sids, tids))
    ensures multiset(Map(Stripped, Downgrade(LoadedTurns(Sort(table), sids, tids)))) == multiset(Map(Kept, table))
  {
    RoundTripInOrder(Sort(table), sids, tids);
    SortKeeps(table);
    MapKeepsPermutation(Kept, Sort(table), table);
  }

  /** The round trip is exact for a table if and only if each of its rows is already normal. */
  lemma {:induction false} RoundTripIsExactIff(table: seq<Exchange>, sids: seq<Uuid>, tids: seq<Uuid>)
    requires Draws(Sort(table), sids, tids)
    ensures UsersHaveIntent(LoadedTurns(Sort(table), sids, tids))
    ensures multiset(Map(Stripped, Downgrade(LoadedTurns(Sort(table), sids, tids)))) == multiset(Map(Stripped, table))
       <==> forall i :: 0 <= i < |table| ==> IsNormal(table[i])
  {
    RoundTrip(table, sids, tids);
    if forall i :: 0 <= i < |table| ==> IsNormal(table[i]) {
      assert Map(Kept, table) == Map(Stripped, table);
    } else {
      var i :| 0 <= i < |table| && !IsNormal(table[i]);
      OddRowIsMissed(table, i);
    }
  }

  lemma OddRowIsMissed(table: seq<Exchange>, i: nat)
    requires i < |table| && !IsNormal(table[i])
    ensures multiset(Map(Kept, table)) != multiset(Map(Stripped, table))
  {
    var x := Stripped(table[i]);
    assert Map(Stripped, table)[i] == x;
    assert x in multiset(Map(Stripped, table));
    forall j | 0 <= j < |table| ensures Map(Kept, table)[j] != x {
      assert IsNormal(Kept(table[j])) && !IsNormal(x);
    }
    assert x !in multiset(Map(Kept, table));
  }

  /** The downgraded table satisfies every constraint the downgrade adds again. */
  lemma {:induction false} DowngradeMeetsConstraints(table: seq<Exchange>, sids: seq<Uuid>, tids: seq<Uuid>)
    requires Table27(table) && Draws(Sort(table), sids, tids)
    ensures UsersHaveIntent(LoadedTurns(Sort(table), sids, tids))
    ensures Table27(Downgrade(LoadedTurns(Sort(table), sids, tids)))
  {
    var rows := Sort(table);
    RoundTripInOrder(rows, sids, tids);
    var back := Downgrade(LoadedTurns(rows, sids, tids));
    assert |back| == |Map(Stripped, back)| == |rows|;
    forall i | 0 <= i < |back| ensures ExchangeChecks(back[i]) {
      SortedRowIsRow(table, i);
      assert Map(Stripped, back)[i] == Map(Kept, rows)[i];
    }
  }
}
