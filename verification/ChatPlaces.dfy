/**
 Where the second upgrade puts a turn: the ordinal of a loaded question is what counting the rows before it
 gives, and as many turns are loaded into a session as it had, or more.
 */
module ChatPlaces {
  import opened Options
  import opened SessionGrouping
  import opened Transcript
  import opened ChatMigration
  import opened ChatMigrationProofs
  import opened ChatLoss

  function NewLabels(rows: seq<Exchange>, sids: seq<Uuid>): (labels: seq<Uuid>)
    requires |sids| == SessionCount(Ats(rows))
    ensures |labels| == |rows|
  {
    seq(|rows|, i requires 0 <= i < |rows| => SessionOf(rows, sids, i))
  }

  lemma CountOneMoreTurn(turns: seq<Turn>, t: Turn, s: Uuid)
    ensures CountIn(turns + [t], s) == CountIn(turns, s) + if t.session == s then 1 else 0
  {
    assert (turns + [t])[..|turns|] == turns;
  }

  lemma CountTurnsOf(turns: seq<Turn>, r: Exchange, session: Uuid, s: Uuid)
    ensures CountIn(turns + TurnsOf(r, session), s) == CountIn(turns, s) + if session == s then Halves(r) else 0
  {
    CountOneMoreTurn(turns, UserTurn(r, session), s);
    if HasAnswer(r) {
      CountOneMoreTurn(turns + [UserTurn(r, session)], AssistantTurn(r, session), s);
      assert turns + TurnsOf(r, session) == turns + [UserTurn(r, session)] + [AssistantTurn(r, session)];
    } else {
      assert turns + TurnsOf(r, session) == turns + [UserTurn(r, session)];
    }
  }

  lemma {:induction false} CountIsStanding(rows: seq<Exchange>, sids: seq<Uuid>, s: Uuid, n: nat)
    requires |sids| == SessionCount(Ats(rows)) && n <= |rows|
    ensures CountIn(Split(rows, sids, n), s) == Standing(rows, NewLabels(rows, sids), s, n)
  {
    if n > 0 {
      CountIsStanding(rows, sids, s, n - 1);
      CountTurnsOf(Split(rows, sids, n - 1), rows[n - 1], SessionOf(rows, sids, n - 1), s);
    }
  }

  /** A loaded question's ordinal. */
  lemma NewOrdinal(rows: seq<Exchange>, sids: seq<Uuid>, tids: seq<Uuid>, i: nat)
    requires Draws(rows, sids, tids) && i < |rows|
    ensures Pos(rows, i) < |LoadedTurns(rows, sids, tids)|
    ensures LoadedTurns(rows, sids, tids)[Pos(rows, i)].ordinal
         == Standing(rows, NewLabels(rows, sids), SessionOf(rows, sids, i), i)
  {
    SplitAt(rows, sids, i);
    SplitPrefix(rows, sids, i, |rows|);
    CountIsStanding(rows, sids, SessionOf(rows, sids, i), i);
  }

  predicate SameSession(labels: seq<Uuid>, labels': seq<Uuid>, s: Uuid, s': Uuid, j: nat)
    requires j < |labels| == |labels'|
  {
    labels[j] == s <==> labels'[j] == s'
  }

  lemma {:induction false} SameStanding(rows: seq<Exchange>, labels: seq<Uuid>, labels': seq<Uuid>, s: Uuid, s': Uuid,
        n: nat)
    requires n <= |rows| == |labels| == |labels'|
    requires forall j: nat :: j < n ==> SameSession(labels, labels', s, s', j)
    ensures Standing(rows, labels, s, n) == Standing(rows, labels', s', n)
  {
    if n > 0 {
      SameStanding(rows, labels, labels', s, s', n - 1);
      assert SameSession(labels, labels', s, s', n - 1);
    }
  }

  // ---------------------------------------------------------------------------------------
  // Counting by positions
  // ---------------------------------------------------------------------------------------

  function InSession(turns: seq<Turn>, s: Uuid): set<nat> {
    set p: nat | p < |turns| && turns[p].session == s
  }

  lemma {:induction false} CountIsPositions(turns: seq<Turn>, s: Uuid)
    ensures CountIn(turns, s) == |InSession(turns, s)|
  {
    if turns != [] {
      var n := |turns| - 1;
      CountIsPositions(turns[..n], s);
      OneMorePosition(turns, s, n);
    }
  }

  lemma OneMorePosition(turns: seq<Turn>, s: Uuid, n: nat)
    requires |turns| == n + 1
    ensures |InSession(turns, s)| == |InSession(turns[..n], s)| + if turns[n].session == s then 1 else 0
  {
    var before := InSession(turns[..n], s);
    assert InSession(turns, s) == if turns[n].session == s then before + {n} else before;
  }

  /** A map that sends no two keys to one value needs as many values as it has keys. */
  lemma {:induction false} InjectionGrows(m: map<nat, nat>, values: set<nat>)
    requires forall a :: a in m ==> m[a] in values
    requires forall a, b :: a in m && b in m && m[a] == m[b] ==> a == b
    ensures |m.Keys| <= |values|
    decreases |m.Keys|
  {
    if a :| a in m {
      var rest := map b | b in m && b != a :: m[b];
      assert rest.Keys == m.Keys - {a};
      InjectionGrows(rest, values - {m[a]});
    }
  }
}
