/**
 The migration as it runs: the tables it changes, statement by statement, with the running totals
 and per-session counters that compute the window functions in one pass.
 */
module ChatTables {
  import opened SessionGrouping
  import opened Transcript
  import opened ChatMigration
  import opened ChatMigrationProofs
  import opened ChatDowngrade
  import opened ChatEffects

  /** The UNION ALL of the two halves, row by row in the order of the numbering. */
  method SplitRows(rows: seq<Exchange>, numbers: seq<nat>, sids: seq<Uuid>) returns (split: seq<Turn>)
    requires |sids| == SessionCount(Ats(rows)) && |numbers| == |rows|
    requires forall i {:trigger numbers[i]} :: 0 <= i < |rows| ==> numbers[i] == Number(Ats(rows), i)
    ensures split == Split(rows, sids, |rows|)
  {
    split := [];
    for i := 0 to |rows|
      invariant split == Split(rows, sids, i)
    {
      NumberGrows(Ats(rows), i, |rows| - 1);
      var session := sids[numbers[i] - 1];
      assert session == SessionOf(rows, sids, i);
      split := split + TurnsOf(rows[i], session);
    }
  }

  function Lookup(next: map<Uuid, nat>, session: Uuid): nat {
    if session in next then next[session] else 0
  }

  /** `row_number()` with one counter a session, instead of a count over the rows before. */
  method NumberTurns(split: seq<Turn>, tids: seq<Uuid>) returns (turns: seq<Turn>)
    requires |tids| == |split|
    ensures turns == Numbered(split, tids)
  {
    turns := [];
    var next: map<Uuid, nat> := map[];
    for p := 0 to |split|
      invariant |turns| == p
      invariant forall q :: 0 <= q < p ==> turns[q] == Numbered(split, tids)[q]
      invariant forall s :: Lookup(next, s) == CountIn(split[..p], s)
    {
      var t := split[p];
      var ordinal := Lookup(next, t.session);
      turns := turns + [t.(id := tids[p], ordinal := ordinal)];
      next := next[t.session := ordinal + 1];
      forall s ensures Lookup(next, s) == CountIn(split[..p + 1], s) {
        CountStep(split, s, p);
      }
    }
  }

  /** The INSERT into `chat_sessions`: one row a session, counts still zero. */
  method InsertSessions(ats: seq<Micros>, sids: seq<Uuid>) returns (sessions: seq<ChatSession>)
    requires |sids| == SessionCount(ats)
    ensures |sessions| == |sids|
    ensures forall k :: 0 <= k < |sids| ==> sessions[k] == SessionRow(ats, sids, k, 0)
  {
    sessions := [];
    for k := 0 to |sids|
      invariant |sessions| == k
      invariant forall l :: 0 <= l < k ==> sessions[l] == SessionRow(ats, sids, l, 0)
    {
      sessions := sessions + [SessionRow(ats, sids, k, 0)];
    }
  }

  /** The UPDATE of `message_count`. */
  method SetMessageCounts(sessions: seq<ChatSession>, turns: seq<Turn>) returns (counted: seq<ChatSession>)
    ensures |counted| == |sessions|
    ensures forall k :: 0 <= k < |sessions| ==>
              counted[k] == sessions[k].(messageCount := CountIn(turns, sessions[k].id))
  {
    counted := sessions;
    for k := 0 to |sessions|
      invariant |counted| == |sessions|
      invariant forall l :: 0 <= l < k ==> counted[l] == sessions[l].(messageCount := CountIn(turns, sessions[l].id))
      invariant forall l :: k <= l < |sessions| ==> counted[l] == sessions[l]
    {
      counted := counted[k := counted[k].(messageCount := CountIn(turns, counted[k].id))];
    }
  }

  /** The whole load, on a table sorted as the window query sorts it. */
  method Load(rows: seq<Exchange>, sids: seq<Uuid>, tids: seq<Uuid>)
    returns (sessions: seq<ChatSession>, turns: seq<Turn>)
    requires Draws(rows, sids, tids)
    ensures turns == LoadedTurns(rows, sids, tids) && sessions == LoadedSessions(rows, sids, turns)
  {
    var numbers := NumberInOnePass(Ats(rows));
    sessions := InsertSessions(Ats(rows), sids);
    var split := SplitRows(rows, numbers, sids);
    turns := NumberTurns(split, tids);
    sessions := SetMessageCounts(sessions, turns);
    assert sessions == LoadedSessions(rows, sids, turns);
  }

  /** The INSERT of `downgrade`: a question at a time, each with what the LEFT JOIN finds. */
  method Rejoin(turns: seq<Turn>) returns (rows: seq<Exchange>)
    requires UsersHaveIntent(turns)
    ensures rows == ChatMigration.Downgrade(turns)
  {
    rows := [];
    for n := 0 to |turns|
      invariant rows == Downgraded(turns, n)
    {
      if turns[n].role == User {
        rows := rows + JoinRow(turns, turns[n]);
      }
    }
  }

  class Database {
    var revision: nat
    /** `chat_messages` at revision 27, in heap order. */
    var exchanges: seq<Exchange>
    /** `chat_sessions` and `chat_messages` at revision 28. */
    var sessions: seq<ChatSession>
    var turns: seq<Turn>

    ghost predicate Valid()
      reads this
    {
      && (revision == 27 || revision == 28)
      && (revision == 27 ==> Table27(exchanges) && sessions == [] && turns == [])
      && (revision == 28 ==> Tables28(sessions, turns) && exchanges == [])
    }

    method Upgrade(sids: seq<Uuid>, tids: seq<Uuid>)
      requires Valid() && revision == 27 && Draws(Sort(exchanges), sids, tids)
      modifies this
      ensures Valid() && revision == 28
      ensures turns == LoadedTurns(Sort(old(exchanges)), sids, tids)
      ensures sessions == LoadedSessions(Sort(old(exchanges)), sids, turns)
      ensures forall e :: e in old(exchanges) ==> exists p :: IsLoadedAt(turns, p, e)
    {
      forall e | e in exchanges ensures exists p :: IsLoadedAt(LoadedTurns(Sort(exchanges), sids, tids), p, e) {
        var p := EveryExchangeIsLoaded(exchanges, sids, tids, e);
      }
      var rows := Sort(exchanges);
      sessions, turns := Load(rows, sids, tids);
      SortedTableIsTable(exchanges);
      UpgradeMeetsConstraints(rows, sids, tids);
      exchanges := [];
      revision := 28;
    }

    /** False when the downgraded rows break a CHECK the downgrade adds again; nothing changes then. */
    method Downgrade() returns (ok: bool)
      requires Valid() && revision == 28
      modifies this
      ensures Valid()
      ensures UsersHaveIntent(old(turns))
      ensures ok <==> AnswersAreVerdicts(old(turns))
      ensures ok ==> revision == 27 && exchanges == ChatMigration.Downgrade(old(turns))
      ensures ok ==> forall r :: r in exchanges <==> exists p: nat :: IsReturned(old(turns), p, r)
      ensures !ok ==> revision == 28 && sessions == old(sessions) && turns == old(turns)
    {
      DowngradeChecksIff(turns);
      var back := Rejoin(turns);
      ok := forall i :: 0 <= i < |back| ==> ExchangeChecks(back[i]);
      if ok {
        forall r ensures r in back <==> exists p: nat :: IsReturned(turns, p, r) {
          DowngradeReturnsIff(turns, r);
        }
        DowngradedIdsDiffer(turns, |turns|);
        exchanges, sessions, turns := back, [], [];
        revision := 27;
      }
    }
  }

  lemma SortedTableIsTable(table: seq<Exchange>)
    requires Table27(table)
    ensures Table27(Sort(table))
  {
    SortedIdsDiffer(table);
    var rows := Sort(table);
    forall i | 0 <= i < |rows| ensures ExchangeChecks(rows[i]) {
      SortedRowIsRow(table, i);
    }
  }
}
