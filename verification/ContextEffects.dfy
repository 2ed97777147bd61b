/**
 What a reader of the panel gets to see, over any run: the items of the last answer that was accepted less
 the ones that were rated since, the result it came with, the last address that was set.
 */
module ContextEffects {
  import opened Options
  import opened ContextView

  // ---------------------------------------------------------------------------------------
  // Parts of a list
  // ---------------------------------------------------------------------------------------

  /** Positions in a list of length `n`, in order. */
  predicate InOrder(at: seq<nat>, n: nat) {
    && (forall k :: 0 <= k < |at| ==> at[k] < n)
    && forall k, l :: 0 <= k < l < |at| ==> at[k] < at[l]
  }

  /** The list that is left has the items at those positions, which are all whose id is not `id`. */
  predicate LeavesOut(left: seq<SurfacedItem>, items: seq<SurfacedItem>, id: string, at: seq<nat>) {
    && InOrder(at, |items|) && |left| == |at|
    && (forall k :: 0 <= k < |at| ==> left[k] == items[at[k]])
    && forall n: nat :: n < |items| ==> (n in at <==> items[n].id != id)
  }

  lemma {:induction false} WithoutLeavesOut(items: seq<SurfacedItem>, id: string) returns (at: seq<nat>)
    ensures LeavesOut(Without(items, id), items, id, at)
  {
    if items == [] {
      at := [];
    } else {
      var later := WithoutLeavesOut(items[1..], id);
      at := Shifted(items, id, later);
    }
  }

  lemma Shifted(items: seq<SurfacedItem>, id: string, later: seq<nat>) returns (at: seq<nat>)
    requires items != [] && LeavesOut(Without(items[1..], id), items[1..], id, later)
    ensures LeavesOut(Without(items, id), items, id, at)
  {
    if items[0].id == id {
      at := OneUp(later);
      FirstIsOut(Without(items[1..], id), items, id, later);
      assert Without(items, id) == Without(items[1..], id);
    } else {
      at := [0] + OneUp(later);
      FirstStays(Without(items[1..], id), items, id, later);
      assert Without(items, id) == [items[0]] + Without(items[1..], id);
    }
  }

  lemma FirstIsOut(left: seq<SurfacedItem>, items: seq<SurfacedItem>, id: string, later: seq<nat>)
    requires items != [] && items[0].id == id && LeavesOut(left, items[1..], id, later)
    ensures LeavesOut(left, items, id, OneUp(later))
  {
    OneUpInOrder(later, |items| - 1);
    forall n: nat | n < |items| ensures n in OneUp(later) <==> items[n].id != id {
      InOneUp(later, n);
      assert n > 0 ==> items[n] == items[1..][n - 1];
    }
  }

  lemma FirstStays(left: seq<SurfacedItem>, items: seq<SurfacedItem>, id: string, later: seq<nat>)
    requires items != [] && items[0].id != id && LeavesOut(left, items[1..], id, later)
    ensures LeavesOut([items[0]] + left, items, id, [0] + OneUp(later))
  {
    FirstInOrder(later, |items| - 1);
    forall k | 0 <= k < |later| + 1 ensures ([items[0]] + left)[k] == items[([0] + OneUp(later))[k]] {
      assert k > 0 ==> items[1..][later[k - 1]] == items[later[k - 1] + 1];
    }
    forall n: nat | n < |items| ensures n in [0] + OneUp(later) <==> items[n].id != id {
      InFirst(later, n);
      assert n > 0 ==> items[n] == items[1..][n - 1];
    }
  }

  lemma FirstInOrder(later: seq<nat>, n: nat)
    requires InOrder(later, n)
    ensures InOrder([0] + OneUp(later), n + 1)
  {
  }

  lemma InFirst(later: seq<nat>, n: nat)
    ensures n in [0] + OneUp(later) <==> n == 0 || n - 1 in later
  {
    InOneUp(later, n);
  }

  function OneUp(at: seq<nat>): seq<nat> {
    seq(|at|, k requires 0 <= k < |at| => at[k] + 1)
  }

  lemma OneUpInOrder(at: seq<nat>, n: nat)
    requires InOrder(at, n)
    ensures InOrder(OneUp(at), n + 1)
  {
  }

  lemma InOneUp(at: seq<nat>, n: nat)
    ensures n in OneUp(at) <==> n > 0 && n - 1 in at
  {
    if n > 0 && n - 1 in at {
      var k :| 0 <= k < |at| && at[k] == n - 1;
      assert OneUp(at)[k] == n;
    }
  }

  // ---------------------------------------------------------------------------------------
  // Answers
  // ---------------------------------------------------------------------------------------

  /** The answer is for the file in focus, and for the one that is expected. */
  predicate IsAccepted(v: View, e: Event) {
    && e.SurfacedArrives? && e.load in v.loads
    && v.focus == Some(v.loads[e.load].path) && v.inFlight == Some(v.loads[e.load].path)
  }

  /** The readiness a load carries is the one its context arrived with. */
  lemma {:induction false} ReadyIsWhatArrived(states: seq<View>, events: seq<Event>, i: nat, n: nat)
    requires RunFromStart(states, events) && i < |states| && n in states[i].loads && states[i].loads[n].AwaitsSurfaced?
    ensures exists m: nat :: m < i && m < |events|
              && events[m] == ContextArrives(n, states[i].loads[n].result.ready)
    ensures states[i].loads[n].result.focus == states[i].loads[n].path && states[i].loads[n].result.load == n
  {
    Reachable(states, events, i);
    assert Takes(states[i - 1], events[i - 1], states[i]);
    if n in states[i - 1].loads && states[i - 1].loads[n] == states[i].loads[n] {
      ReadyIsWhatArrived(states, events, i - 1, n);
    }
  }

  /**
   An accepted answer is what the panel then holds: its result, as ready as its context said, and exactly
   its items, in order, each for the file in focus.
   */
  lemma AcceptedIsShown(states: seq<View>, events: seq<Event>, i: nat) returns (m: nat)
    requires RunFromStart(states, events) && i < |events| && IsAccepted(states[i], events[i])
    ensures var ids := events[i].ids;
            && |states[i + 1].surfaced| == |ids| && states[i].focus.Some?
            && forall k :: 0 <= k < |ids| ==> states[i + 1].surfaced[k] == SurfacedItem(ids[k], states[i].focus.value)
    ensures m < i && events[m].ContextArrives? && events[m].load == events[i].load && states[i].focus.Some?
    ensures states[i + 1].result == Some(ContextResult(states[i].focus.value, events[i].load, events[m].ready))
  {
    assert Takes(states[i], events[i], states[i + 1]);
    ReadyIsWhatArrived(states, events, i, events[i].load);
    m :| m < i && events[m] == ContextArrives(events[i].load, states[i].loads[events[i].load].result.ready);
  }

  /** An answer that is not accepted changes nothing that is held or shown. */
  lemma OthersAreDropped(states: seq<View>, events: seq<Event>, i: nat)
    requires RunFromStart(states, events) && i < |events| && events[i].SurfacedArrives?
    requires !IsAccepted(states[i], events[i])
    ensures states[i + 1] == states[i].(loads := states[i + 1].loads)
    ensures states[i + 1].loads == map n | n in states[i].loads && n != events[i].load :: states[i].loads[n]
  {
    assert Takes(states[i], events[i], states[i + 1]);
  }

  // ---------------------------------------------------------------------------------------
  // The list until the next answer
  // ---------------------------------------------------------------------------------------

  function Rated(events: seq<Event>, i: nat, j: nat): set<string>
    requires i <= j <= |events|
  {
    set m | i <= m < j && events[m].RateReturns? :: events[m].id
  }

  /** The list has the ids at those positions, for that file: all that were not rated. */
  predicate IsRest(items: seq<SurfacedItem>, ids: seq<string>, path: Path, rated: set<string>, at: seq<nat>) {
    && InOrder(at, |ids|) && |items| == |at|
    && (forall k :: 0 <= k < |at| ==> items[k] == SurfacedItem(ids[at[k]], path))
    && forall n: nat :: n < |ids| ==> (n in at <==> ids[n] !in rated)
  }

  function Chosen(at: seq<nat>, kept: seq<nat>): seq<nat>
    requires forall k :: 0 <= k < |kept| ==> kept[k] < |at|
  {
    seq(|kept|, k requires 0 <= k < |kept| => at[kept[k]])
  }

  lemma InChosen(at: seq<nat>, kept: seq<nat>, k: nat)
    requires (forall l :: 0 <= l < |kept| ==> kept[l] < |at|) && k < |at|
    requires forall l :: 0 <= l < |at| && at[l] == at[k] ==> l == k
    ensures at[k] in Chosen(at, kept) <==> k in kept
  {
    if k in kept {
      var l :| 0 <= l < |kept| && kept[l] == k;
      assert Chosen(at, kept)[l] == at[k];
    }
    if at[k] in Chosen(at, kept) {
      var l :| 0 <= l < |kept| && Chosen(at, kept)[l] == at[k];
      assert kept[l] == k;
    }
  }

  lemma OutOfChosen(at: seq<nat>, kept: seq<nat>, n: nat)
    requires (forall l :: 0 <= l < |kept| ==> kept[l] < |at|) && n !in at
    ensures n !in Chosen(at, kept)
  {
  }

  lemma OneMoreRated(items: seq<SurfacedItem>, ids: seq<string>, path: Path, rated: set<string>, at: seq<nat>,
        id: string) returns (at': seq<nat>)
    requires IsRest(items, ids, path, rated, at)
    ensures IsRest(Without(items, id), ids, path, rated + {id}, at')
  {
    var kept := WithoutLeavesOut(items, id);
    at' := Chosen(at, kept);
    ChosenInOrder(at, kept, |ids|);
    forall n: nat | n < |ids| ensures n in at' <==> ids[n] !in rated + {id} {
      StillIn(items, ids, path, rated, at, id, kept, n);
    }
  }

  lemma ChosenInOrder(at: seq<nat>, kept: seq<nat>, n: nat)
    requires InOrder(at, n) && InOrder(kept, |at|)
    ensures InOrder(Chosen(at, kept), n)
  {
  }

  lemma StillIn(items: seq<SurfacedItem>, ids: seq<string>, path: Path, rated: set<string>, at: seq<nat>,
        id: string, kept: seq<nat>, n: nat)
    requires IsRest(items, ids, path, rated, at) && LeavesOut(Without(items, id), items, id, kept) && n < |ids|
    ensures n in Chosen(at, kept) <==> ids[n] !in rated + {id}
  {
    if n in at {
      var k: nat :| k < |at| && at[k] == n;
      assert items[k] == SurfacedItem(ids[n], path);
      InChosen(at, kept, k);
    } else {
      OutOfChosen(at, kept, n);
    }
  }

  /** Nothing is accepted and the focus stays. */
  predicate IsBetween(states: seq<View>, events: seq<Event>, m: nat)
    requires m < |events| && |states| == |events| + 1
  {
    !IsAccepted(states[m], events[m]) && states[m + 1].focus == states[m].focus
  }

  lemma OtherStepsKeepItems(v: View, e: Event)
    requires Enabled(v, e) && !IsAccepted(v, e) && Step(v, e).focus == v.focus && !e.RateReturns?
    ensures Step(v, e).surfaced == v.surfaced && Step(v, e).result == v.result
  {
  }

  /**
   From an accepted answer until the next one or a change of focus, the panel lists that answer's items
   in their order without those a verdict was returned on, and holds its result.
   */
  lemma {:induction false} ListedSince(states: seq<View>, events: seq<Event>, i: nat, j: nat) returns (at: seq<nat>)
    requires RunFromStart(states, events) && i < j < |states| && IsAccepted(states[i], events[i])
    requires forall m :: i < m < j ==> IsBetween(states, events, m)
    ensures states[i].focus.Some?
    ensures IsRest(states[j].surfaced, events[i].ids, states[i].focus.value, Rated(events, i + 1, j), at)
    ensures states[j].result == states[i + 1].result && states[j].focus == states[i].focus
  {
    if j == i + 1 {
      at := ListedAtOnce(states, events, i);
    } else {
      at := ListedSince(states, events, i, j - 1);
      assert IsBetween(states, events, j - 1);
      at := StaysListed(states, events, j - 1, events[i].ids, states[i].focus.value, Rated(events, i + 1, j - 1), at);
      RatedGrows(events, i + 1, j - 1);
    }
  }

  lemma ListedAtOnce(states: seq<View>, events: seq<Event>, i: nat) returns (at: seq<nat>)
    requires RunFromStart(states, events) && i < |events| && IsAccepted(states[i], events[i])
    ensures states[i].focus.Some? && states[i + 1].focus == states[i].focus
    ensures IsRest(states[i + 1].surfaced, events[i].ids, states[i].focus.value, Rated(events, i + 1, i + 1), at)
  {
    assert Takes(states[i], events[i], states[i + 1]);
    var m := AcceptedIsShown(states, events, i);
    var ids := events[i].ids;
    at := seq(|ids|, k requires 0 <= k < |ids| => k);
    forall n: nat | n < |ids| ensures n in at {
      assert at[n] == n;
    }
    assert Rated(events, i + 1, i + 1) == {};
  }

  lemma StaysListed(states: seq<View>, events: seq<Event>, m: nat, ids: seq<string>, path: Path, rated: set<string>,
        at: seq<nat>) returns (at': seq<nat>)
    requires RunFromStart(states, events) && m < |events| && IsBetween(states, events, m)
    requires IsRest(states[m].surfaced, ids, path, rated, at)
    ensures IsRest(states[m + 1].surfaced, ids, path,
                   rated + if events[m].RateReturns? then {events[m].id} else {}, at')
    ensures states[m + 1].result == states[m].result
  {
    assert Takes(states[m], events[m], states[m + 1]);
    at' := at;
    if events[m].RateReturns? {
      at' := OneMoreRated(states[m].surfaced, ids, path, rated, at, events[m].id);
    } else {
      OtherStepsKeepItems(states[m], events[m]);
    }
  }

  lemma RatedGrows(events: seq<Event>, i: nat, j: nat)
    requires i <= j < |events|
    ensures Rated(events, i, j + 1) == Rated(events, i, j) + if events[j].RateReturns? then {events[j].id} else {}
  {
  }

  /** A verdict takes its rows out of the list, whatever is listed, and leaves the others in their order. */
  lemma VerdictRemovesItsRow(states: seq<View>, events: seq<Event>, i: nat) returns (at: seq<nat>)
    requires RunFromStart(states, events) && i < |events| && events[i].RateReturns?
    ensures LeavesOut(states[i + 1].surfaced, states[i].surfaced, events[i].id, at)
    ensures states[i + 1].result == states[i].result && states[i + 1].focus == states[i].focus
  {
    assert Takes(states[i], events[i], states[i + 1]);
    at := WithoutLeavesOut(states[i].surfaced, events[i].id);
  }

  // ---------------------------------------------------------------------------------------
  // Focus, settings and screen
  // ---------------------------------------------------------------------------------------

  /** The focus is the file that was opened last. */
  lemma {:induction false} FocusIsTheLast(states: seq<View>, events: seq<Event>, i: nat, j: nat)
    requires RunFromStart(states, events) && i < j < |states| && events[i].Focus?
    requires forall m :: i < m < j ==> !events[m].Focus?
    ensures states[j].focus == events[i].relative
  {
    assert Takes(states[j - 1], events[j - 1], states[j]);
    if i + 1 < j {
      FocusIsTheLast(states, events, i, j - 1);
    }
  }

  /** A change of focus empties the panel and puts the new file's load off by the settle time. */
  lemma FocusEmptiesThePanel(states: seq<View>, events: seq<Event>, i: nat) returns (h: nat)
    requires RunFromStart(states, events) && i < |events| && states[i + 1].focus != states[i].focus
    ensures states[i + 1].result == None && states[i + 1].surfaced == []
    ensures states[i + 1].focus.Some? ==>
              states[i + 1].timers == map[h := Timer(states[i + 1].focus.value, states[i].now + 350)]
    ensures states[i + 1].focus.None? ==> states[i + 1].timers == map[]
  {
    Reachable(states, events, i);
    assert Takes(states[i], events[i], states[i + 1]);
    var v, v' := states[i], states[i + 1];
    h := v.nextTimer;
    LastTimerGoes(v);
  }

  lemma LastTimerGoes(v: View)
    requires OneTimer(v)
    ensures v.settle.Some? ==> v.timers - {v.settle.value} == map[]
    ensures v.settle.None? ==> v.timers == map[]
  {
  }

  /** A timeout asks for its file's context, and that file is then the one expected. */
  lemma TimeoutAsks(states: seq<View>, events: seq<Event>, i: nat)
    requires RunFromStart(states, events) && i < |events| && events[i].TimerFires?
    ensures events[i].handle in states[i].timers && events[i].handle !in states[i + 1].timers
    ensures var path, n := states[i].timers[events[i].handle].path, states[i].nextLoad;
            && states[i].focus == Some(path) && states[i + 1].inFlight == Some(path)
            && n !in states[i].loads && states[i + 1].loads == states[i].loads[n := AwaitsContext(path)]
  {
    Reachable(states, events, i);
    assert Takes(states[i], events[i], states[i + 1]);
  }

  /** The links on the panel lead to the address that was set last. */
  lemma {:induction false} UrlIsTheLast(states: seq<View>, events: seq<Event>, i: nat, j: nat)
    requires RunFromStart(states, events) && i < j < |states| && events[i].Reload?
    requires forall m :: i < m < j ==> !events[m].Reload?
    ensures states[j].webUrl == events[i].webUrl
  {
    assert Takes(states[j - 1], events[j - 1], states[j]);
    if i + 1 < j {
      UrlIsTheLast(states, events, i, j - 1);
    }
  }

  /** Once the view was resolved the reader sees what the panel holds, always. */
  lemma {:induction false} ScreenShowsWhatIsHeld(states: seq<View>, events: seq<Event>, i: nat, j: nat)
    requires RunFromStart(states, events) && i < j < |states| && events[i].Resolve?
    ensures states[j].screen == Some(Screen(states[j].focus, states[j].result, states[j].surfaced, states[j].webUrl))
  {
    Reachable(states, events, j);
    assert Takes(states[j - 1], events[j - 1], states[j]);
    if i + 1 < j {
      ScreenShowsWhatIsHeld(states, events, i, j - 1);
    }
  }
}
