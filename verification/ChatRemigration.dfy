/**
 Migrating twice. Upgrade, downgrade, upgrade again: the sessions come back, whatever ids were
 drawn either time and however rows with equal timestamps fall in the second ordering.
 */
module ChatRemigration {
  import opened Options
  import opened SessionGrouping
  import opened Transcript
  import opened ChatMigration
  import opened ChatMigrationProofs

  // ---------------------------------------------------------------------------------------
  // Sorted sequences and sums do not depend on the order they were given in
  // ---------------------------------------------------------------------------------------

  lemma SameLargest(a: seq<Micros>, b: seq<Micros>)
    requires Nondecreasing(a) && Nondecreasing(b) && multiset(a) == multiset(b) && a != [] && b != []
    ensures a[|a| - 1] == b[|b| - 1]
  {
    var i := IndexOf(b, a[|a| - 1], a);
    var j := IndexOf(a, b[|b| - 1], b);
  }

  lemma WithoutLast(s: seq<Micros>)
    requires s != []
    ensures multiset(s[..|s| - 1]) == multiset(s) - multiset{s[|s| - 1]} && s == s[..|s| - 1] + [s[|s| - 1]]
  {
    assert s == s[..|s| - 1] + [s[|s| - 1]];
  }

  lemma {:induction false} SortedTimesAreDetermined(a: seq<Micros>, b: seq<Micros>)
    requires Nondecreasing(a) && Nondecreasing(b) && multiset(a) == multiset(b)
    ensures a == b
    decreases |a|
  {
    assert |multiset(a)| == |a| && |multiset(b)| == |b|;
    if a != [] {
      var m := |a| - 1;
      SameLargest(a, b);
      WithoutLast(a);
      WithoutLast(b);
      SortedTimesAreDetermined(a[..m], b[..m]);
    }
  }

  function Sum(s: seq<nat>): nat {
    if s == [] then 0 else Sum(s[..|s| - 1]) + s[|s| - 1]
  }

  lemma {:induction false} SumWithout(s: seq<nat>, j: nat)
    requires j < |s|
    ensures Sum(s) == Sum(s[..j] + s[j + 1..]) + s[j]
  {
    var rest := s[..j] + s[j + 1..];
    if j == |s| - 1 {
      assert rest == s[..j];
    } else {
      SumWithout(s[..|s| - 1], j);
      assert rest[..|rest| - 1] == s[..|s| - 1][..j] + s[..|s| - 1][j + 1..];
    }
  }

  lemma {:induction false} SumOfPermutation(a: seq<nat>, b: seq<nat>)
    requires multiset(a) == multiset(b)
    ensures Sum(a) == Sum(b)
    decreases |a|
  {
    assert |multiset(a)| == |a| && |multiset(b)| == |b|;
    if a != [] {
      var j := IndexOf(b, a[0], a);
      var a', b' := a[..0] + a[1..], b[..j] + b[j + 1..];
      assert multiset(a') == multiset(b') by {
        WithoutOne(a, 0);
        WithoutOne(b, j);
      }
      SumOfPermutation(a', b');
      SumWithout(a, 0);
      SumWithout(b, j);
    }
  }

  // ---------------------------------------------------------------------------------------
  // The size of a session is a sum over the rows its extent covers
  // ---------------------------------------------------------------------------------------

  /** How many turns the first `n` rows add to the session that runs from `lo` to `hi`. */
  function Spread(rows: seq<Exchange>, lo: Micros, hi: Micros, n: nat): nat
    requires n <= |rows|
  {
    if n == 0 then 0
    else Spread(rows, lo, hi, n - 1) + if lo <= rows[n - 1].at <= hi then Halves(rows[n - 1]) else 0
  }

  lemma {:induction false} CountAppend(a: seq<Turn>, b: seq<Turn>, session: Uuid)
    ensures CountIn(a + b, session) == CountIn(a, session) + CountIn(b, session)
  {
    if b == [] {
      assert a + b == a;
    } else {
      CountAppend(a, b[..|b| - 1], session);
      assert (a + b)[..|a + b| - 1] == a + b[..|b| - 1];
    }
  }

  lemma RowSize(r: Exchange, session: Uuid, s: Uuid)
    ensures CountIn(TurnsOf(r, session), s) == if session == s then Halves(r) else 0
  {
    var turns := TurnsOf(r, session);
    assert turns[..0] == [] && turns[..1][..0] == [];
    CountStep(turns, s, 0);
    if HasAnswer(r) {
      CountStep(turns, s, 1);
      assert turns[..2] == turns;
    } else {
      assert turns[..1] == turns;
    }
  }

  /** The rows of session `s` are those from `lo` to `hi`. */
  ghost predicate Covers(rows: seq<Exchange>, sids: seq<Uuid>, s: Uuid, lo: Micros, hi: Micros)
    requires |sids| == SessionCount(Ats(rows))
  {
    forall i: nat :: i < |rows| ==> (SessionOf(rows, sids, i) == s <==> lo <= rows[i].at <= hi)
  }

  lemma ExtentCovers(rows: seq<Exchange>, sids: seq<Uuid>, k: nat, lo: Micros, hi: Micros)
    requires Drawn(sids, SessionCount(Ats(rows))) && Nondecreasing(Ats(rows))
    requires 1 <= k <= |sids| && Extent(Ats(rows), k, lo, hi)
    ensures Covers(rows, sids, sids[k - 1], lo, hi)
  {
    forall i: nat | i < |rows| ensures SessionOf(rows, sids, i) == sids[k - 1] <==> lo <= rows[i].at <= hi {
      ExtentDecidesMembership(Ats(rows), k, lo, hi, i);
      NumberGrows(Ats(rows), i, |rows| - 1);
    }
  }

  lemma {:induction false} SessionSize(rows: seq<Exchange>, sids: seq<Uuid>, s: Uuid, lo: Micros, hi: Micros, n: nat)
    requires |sids| == SessionCount(Ats(rows)) && Covers(rows, sids, s, lo, hi) && n <= |rows|
    ensures CountIn(Split(rows, sids, n), s) == Spread(rows, lo, hi, n)
  {
    if n > 0 {
      SessionSize(rows, sids, s, lo, hi, n - 1);
      var r, session := rows[n - 1], SessionOf(rows, sids, n - 1);
      CountAppend(Split(rows, sids, n - 1), TurnsOf(r, session), s);
      RowSize(r, session, s);
    }
  }

  lemma LoadedSessionSize(rows: seq<Exchange>, sids: seq<Uuid>, tids: seq<Uuid>, k: nat, lo: Micros, hi: Micros)
    requires Draws(rows, sids, tids) && Nondecreasing(Ats(rows))
    requires 1 <= k <= |sids| && Extent(Ats(rows), k, lo, hi)
    ensures CountIn(LoadedTurns(rows, sids, tids), sids[k - 1]) == Spread(rows, lo, hi, |rows|)
  {
    var split, turns := Split(rows, sids, |rows|), LoadedTurns(rows, sids, tids);
    CountSurvivesNumbering(split, tids, sids[k - 1], |split|);
    assert turns[..|turns|] == turns && split[..|split|] == split;
    ExtentCovers(rows, sids, k, lo, hi);
    SessionSize(rows, sids, sids[k - 1], lo, hi, |rows|);
  }

  // ---------------------------------------------------------------------------------------
  // Two loads of the same transcript
  // ---------------------------------------------------------------------------------------

  /** Two orderings of one transcript, up to the surrogate keys and to what the round trip drops. */
  ghost predicate SameTranscript(rows: seq<Exchange>, again: seq<Exchange>) {
    && Nondecreasing(Ats(rows)) && Nondecreasing(Ats(again))
    && multiset(Map(Kept, rows)) == multiset(Map(Kept, again))
  }

  lemma SameTimes(rows: seq<Exchange>, again: seq<Exchange>)
    requires SameTranscript(rows, again)
    ensures Ats(rows) == Ats(again) && |rows| == |again|
  {
    var at := (r: Exchange) => r.at;
    MapKeepsPermutation(at, Map(Kept, rows), Map(Kept, again));
    assert Ats(rows) == Map(at, Map(Kept, rows)) && Ats(again) == Map(at, Map(Kept, again));
    SortedTimesAreDetermined(Ats(rows), Ats(again));
  }

  /** The same session up to its id: first activity, last activity and number of turns. */
  predicate SameSession(s: ChatSession, s': ChatSession) {
    s.(id := 0) == s'.(id := 0)
  }

  function Weight(lo: Micros, hi: Micros): Exchange -> nat {
    (r: Exchange) => if lo <= r.at <= hi then Halves(r) else 0
  }

  lemma {:induction false} SpreadIsSum(rows: seq<Exchange>, lo: Micros, hi: Micros, n: nat)
    requires n <= |rows|
    ensures Spread(rows, lo, hi, n) == Sum(Map(Weight(lo, hi), Map(Kept, rows))[..n])
  {
    if n > 0 {
      SpreadIsSum(rows, lo, hi, n - 1);
      var weights := Map(Weight(lo, hi), Map(Kept, rows));
      assert weights[..n][..n - 1] == weights[..n - 1];
    }
  }

  lemma SpreadIsWholeSum(rows: seq<Exchange>, lo: Micros, hi: Micros)
    ensures Spread(rows, lo, hi, |rows|) == Sum(Map(Weight(lo, hi), Map(Kept, rows)))
  {
    var weights := Map(Weight(lo, hi), Map(Kept, rows));
    SpreadIsSum(rows, lo, hi, |rows|);
    assert weights[..|rows|] == weights;
  }

  lemma {:induction false} SameSpread(rows: seq<Exchange>, again: seq<Exchange>, lo: Micros, hi: Micros)
    requires multiset(Map(Kept, rows)) == multiset(Map(Kept, again))
    ensures Spread(rows, lo, hi, |rows|) == Spread(again, lo, hi, |again|)
  {
    SpreadIsWholeSum(rows, lo, hi);
    SpreadIsWholeSum(again, lo, hi);
    MapKeepsPermutation(Weight(lo, hi), Map(Kept, rows), Map(Kept, again));
    SumOfPermutation(Map(Weight(lo, hi), Map(Kept, rows)), Map(Weight(lo, hi), Map(Kept, again)));
  }

  lemma {:induction false} SameSize(rows: seq<Exchange>, again: seq<Exchange>,
      sids: seq<Uuid>, tids: seq<Uuid>, sids': seq<Uuid>, tids': seq<Uuid>, k: nat, lo: Micros, hi: Micros)
    requires Draws(rows, sids, tids) && Nondecreasing(Ats(rows))
    requires Draws(again, sids', tids') && Nondecreasing(Ats(again))
    requires k < |sids| == |sids'| && Extent(Ats(rows), k + 1, lo, hi) && Extent(Ats(again), k + 1, lo, hi)
    requires Spread(rows, lo, hi, |rows|) == Spread(again, lo, hi, |again|)
    ensures CountIn(LoadedTurns(rows, sids, tids), sids[k]) == CountIn(LoadedTurns(again, sids', tids'), sids'[k])
  {
    LoadedSessionSize(rows, sids, tids, k + 1, lo, hi);
    LoadedSessionSize(again, sids', tids', k + 1, lo, hi);
  }

  lemma SameSizes(rows: seq<Exchange>, again: seq<Exchange>,
      sids: seq<Uuid>, tids: seq<Uuid>, sids': seq<Uuid>, tids': seq<Uuid>)
    requires SameTranscript(rows, again) && Draws(rows, sids, tids) && Draws(again, sids', tids')
    requires Ats(rows) == Ats(again)
    ensures forall k :: 0 <= k < |sids| ==>
              SameCount(LoadedTurns(rows, sids, tids), sids[k], LoadedTurns(again, sids', tids'), sids'[k])
  {
    forall k | 0 <= k < |sids|
      ensures SameCount(LoadedTurns(rows, sids, tids), sids[k], LoadedTurns(again, sids', tids'), sids'[k])
    {
      var lo, hi, _, _ := SessionHasExtent(Ats(rows), k + 1);
      SameSpread(rows, again, lo, hi);
      SameSize(rows, again, sids, tids, sids', tids', k, lo, hi);
    }
  }

  predicate SameCount(turns: seq<Turn>, s: Uuid, turns': seq<Turn>, s': Uuid) {
    CountIn(turns, s) == CountIn(turns', s')
  }

  lemma SameRows(rows: seq<Exchange>, again: seq<Exchange>,
      sids: seq<Uuid>, turns: seq<Turn>, sids': seq<Uuid>, turns': seq<Turn>)
    requires Ats(rows) == Ats(again) && |sids| == |sids'| == SessionCount(Ats(rows))
    requires forall k :: 0 <= k < |sids| ==> SameCount(turns, sids[k], turns', sids'[k])
    ensures forall k :: 0 <= k < |sids| ==>
              SameSession(LoadedSessions(rows, sids, turns)[k], LoadedSessions(again, sids', turns')[k])
  {
    forall k | 0 <= k < |sids|
      ensures SameSession(LoadedSessions(rows, sids, turns)[k], LoadedSessions(again, sids', turns')[k])
    {
      assert SameCount(turns, sids[k], turns', sids'[k]);
    }
  }

  ghost predicate DistinctTimes(rows: seq<Exchange>) {
    forall i, j :: 0 <= i < j < |rows| ==> rows[i].at != rows[j].at
  }

  /** Without ties there is one ordering. */
  lemma SameOrder(rows: seq<Exchange>, again: seq<Exchange>)
    requires SameTranscript(rows, again) && DistinctTimes(rows)
    ensures Map(Kept, rows) == Map(Kept, again)
  {
    SameTimes(rows, again);
    var a, b := Map(Kept, rows), Map(Kept, again);
    forall i | 0 <= i < |rows| ensures a[i] == b[i] {
      var j := IndexOf(b, a[i], a);
      assert Ats(again)[j] == again[j].at == rows[i].at == Ats(rows)[i];
      assert Ats(rows)[j] == rows[j].at;
    }
  }

  /** A turn without the ids an upgrade drew for it. */
  function Unkeyed(t: Turn): Turn {
    t.(id := 0, session := 0)
  }

  /** Turn `p` of both loads: the same turn, in the session of the same number. */
  ghost predicate SameTurn(t: Turn, t': Turn, sids: seq<Uuid>, sids': seq<Uuid>) {
    && Unkeyed(t) == Unkeyed(t')
    && exists k :: 0 <= k < |sids| == |sids'| && t.session == sids[k] && t'.session == sids'[k]
  }

  lemma SameHalves(r: Exchange, r': Exchange, k: nat, sids: seq<Uuid>, sids': seq<Uuid>)
    requires Kept(r) == Kept(r') && k < |sids| == |sids'|
    ensures AllSame(TurnsOf(r, sids[k]), TurnsOf(r', sids'[k]), sids, sids')
  {
    assert Normalised(r).(id := 0) == Normalised(r').(id := 0);
    assert HasAnswer(Normalised(r)) == HasAnswer(r) && HasAnswer(Normalised(r')) == HasAnswer(r');
  }

  ghost predicate AllSame(turns: seq<Turn>, turns': seq<Turn>, sids: seq<Uuid>, sids': seq<Uuid>) {
    |turns| == |turns'| && forall p :: 0 <= p < |turns| ==> SameTurn(turns[p], turns'[p], sids, sids')
  }

  lemma {:induction false} SameSplit(rows: seq<Exchange>, again: seq<Exchange>, sids: seq<Uuid>, sids': seq<Uuid>,
        n: nat)
    requires Ats(rows) == Ats(again) && Map(Kept, rows) == Map(Kept, again) && n <= |rows|
    requires |sids| == |sids'| == SessionCount(Ats(rows))
    ensures AllSame(Split(rows, sids, n), Split(again, sids', n), sids, sids')
  {
    if n > 0 {
      SameSplit(rows, again, sids, sids', n - 1);
      SameRow(rows, again, sids, sids', n - 1);
    }
  }

  lemma SameRow(rows: seq<Exchange>, again: seq<Exchange>, sids: seq<Uuid>, sids': seq<Uuid>, i: nat)
    requires Ats(rows) == Ats(again) && Map(Kept, rows) == Map(Kept, again) && i < |rows| == |again|
    requires |sids| == |sids'| == SessionCount(Ats(rows))
    ensures AllSame(TurnsOf(rows[i], SessionOf(rows, sids, i)), TurnsOf(again[i], SessionOf(again, sids', i)),
                    sids, sids')
  {
    SameKept(rows, again, i);
    var k := SessionPlace(rows, sids, i);
    assert SessionOf(again, sids', i) == sids'[k] by { var _ := SessionPlace(again, sids', i); }
    SameHalves(rows[i], again[i], k, sids, sids');
  }

  lemma SessionPlace(rows: seq<Exchange>, sids: seq<Uuid>, i: nat) returns (k: nat)
    requires i < |rows| && |sids| == SessionCount(Ats(rows))
    ensures k < |sids| && k == Number(Ats(rows), i) - 1 && SessionOf(rows, sids, i) == sids[k]
  {
    NumberGrows(Ats(rows), i, |rows| - 1);
    k := Number(Ats(rows), i) - 1;
  }

  lemma SameKept(rows: seq<Exchange>, again: seq<Exchange>, i: nat)
    requires Map(Kept, rows) == Map(Kept, again) && i < |rows| == |again|
    ensures Kept(rows[i]) == Kept(again[i])
  {
    assert Map(Kept, rows)[i] == Map(Kept, again)[i];
  }

  lemma {:induction false} SameOrdinals(turns: seq<Turn>, turns': seq<Turn>, sids: seq<Uuid>, sids': seq<Uuid>, k: nat,
        n: nat)
    requires AllSame(turns, turns', sids, sids') && n <= |turns| && k < |sids|
    requires Drawn(sids, |sids|) && Drawn(sids', |sids|)
    ensures CountIn(turns[..n], sids[k]) == CountIn(turns'[..n], sids'[k])
  {
    if n > 0 {
      SameOrdinals(turns, turns', sids, sids', k, n - 1);
      CountStep(turns, sids[k], n - 1);
      CountStep(turns', sids'[k], n - 1);
      assert SameTurn(turns[n - 1], turns'[n - 1], sids, sids');
    }
  }

  lemma SameTurns(rows: seq<Exchange>, again: seq<Exchange>,
                  sids: seq<Uuid>, tids: seq<Uuid>, sids': seq<Uuid>, tids': seq<Uuid>)
    requires SameTranscript(rows, again) && DistinctTimes(rows)
    requires Draws(rows, sids, tids) && Draws(again, sids', tids')
    ensures |tids| == |tids'|
    ensures forall p :: 0 <= p < |tids| ==>
              SameTurn(LoadedTurns(rows, sids, tids)[p], LoadedTurns(again, sids', tids')[p], sids, sids')
  {
    SameTimes(rows, again);
    SameOrder(rows, again);
    SameSplit(rows, again, sids, sids', |rows|);
    var split, split' := Split(rows, sids, |rows|), Split(again, sids', |rows|);
    forall p | 0 <= p < |tids|
      ensures SameTurn(LoadedTurns(rows, sids, tids)[p], LoadedTurns(again, sids', tids')[p], sids, sids')
    {
      assert SameTurn(split[p], split'[p], sids, sids');
      var k :| 0 <= k < |sids| && split[p].session == sids[k] && split'[p].session == sids'[k];
      SameOrdinals(split, split', sids, sids', k, p);
    }
  }

  // ---------------------------------------------------------------------------------------
  // Upgrade, downgrade, upgrade
  // ---------------------------------------------------------------------------------------

  /** `heap` is the downgraded table in any physical order. */
  ghost predicate DowngradedHeap(heap: seq<Exchange>, turns: seq<Turn>) {
    UsersHaveIntent(turns) && multiset(heap) == multiset(Downgrade(turns))
  }

  lemma {:induction false} DowngradeKeepsTranscript(table: seq<Exchange>, sids: seq<Uuid>, tids: seq<Uuid>,
        heap: seq<Exchange>)
    requires Draws(Sort(table), sids, tids) && DowngradedHeap(heap, LoadedTurns(Sort(table), sids, tids))
    ensures SameTranscript(Sort(table), Sort(heap))
  {
    var rows, back := Sort(table), Downgrade(LoadedTurns(Sort(table), sids, tids));
    RoundTripInOrder(rows, sids, tids);
    SortKeeps(table);
    SortKeeps(heap);
    MapKeepsPermutation(Kept, Sort(heap), back);
    forall i | 0 <= i < |back| ensures Map(Kept, back)[i] == Map(Kept, rows)[i] {
      assert Map(Stripped, back)[i] == Map(Kept, rows)[i];
    }
    assert Map(Kept, back) == Map(Kept, rows);
  }

  /**
   Upgrading the downgraded transcript rebuilds every session: as many, with the same first and
   last activity and the same number of turns, in the same order, for any ids and any tie order.
   */
  lemma RemigrationKeepsSessions(table: seq<Exchange>, sids: seq<Uuid>, tids: seq<Uuid>,
                                 heap: seq<Exchange>, sids': seq<Uuid>, tids': seq<Uuid>)
    requires Draws(Sort(table), sids, tids) && DowngradedHeap(heap, LoadedTurns(Sort(table), sids, tids))
    requires Draws(Sort(heap), sids', tids')
    ensures |sids'| == |sids|
    ensures var sessions := LoadedSessions(Sort(table), sids, LoadedTurns(Sort(table), sids, tids));
            var sessions' := LoadedSessions(Sort(heap), sids', LoadedTurns(Sort(heap), sids', tids'));
            forall k :: 0 <= k < |sids| ==> SameSession(sessions[k], sessions'[k])
  {
    DowngradeKeepsTranscript(table, sids, tids, heap);
    SameTimes(Sort(table), Sort(heap));
    SameSizes(Sort(table), Sort(heap), sids, tids, sids', tids');
    SameRows(Sort(table), Sort(heap), sids, LoadedTurns(Sort(table), sids, tids),
             sids', LoadedTurns(Sort(heap), sids', tids'));
  }

  /** When no two rows share a timestamp, it also rebuilds every turn at the same ordinal. */
  lemma RemigrationKeepsTurns(table: seq<Exchange>, sids: seq<Uuid>, tids: seq<Uuid>,
                              heap: seq<Exchange>, sids': seq<Uuid>, tids': seq<Uuid>)
    requires Draws(Sort(table), sids, tids) && DowngradedHeap(heap, LoadedTurns(Sort(table), sids, tids))
    requires Draws(Sort(heap), sids', tids') && DistinctTimes(Sort(table))
    ensures |tids'| == |tids|
    ensures forall p :: 0 <= p < |tids| ==>
              SameTurn(LoadedTurns(Sort(table), sids, tids)[p], LoadedTurns(Sort(heap), sids', tids')[p], sids, sids')
  {
    DowngradeKeepsTranscript(table, sids, tids, heap);
    SameTurns(Sort(table), Sort(heap), sids, tids, sids', tids');
  }
}
