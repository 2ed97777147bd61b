/**
 The editor panel as an interleaving of steps: the editor changes, a timer fires, one of any
 number of outstanding loads gets its context and then its surfaced items, a verdict returns, the
 settings are reloaded. Handlers run to completion between steps, as on one event loop.
 */
module ContextView {
  import opened Options

  type Path = string

  const SETTLE_MS: nat := 350

  /** What `fetchContext` resolved to: always for the path it was asked about. */
  datatype ContextResult = ContextResult(focus: Path, load: nat, ready: bool)

  datatype SurfacedItem = SurfacedItem(id: string, fetchedFor: Path)

  datatype Timer = Timer(path: Path, dueAt: nat)

  /** A call of `load`, at the first or the second of its two awaits. */
  datatype Load = AwaitsContext(path: Path) | AwaitsSurfaced(path: Path, result: ContextResult)

  /** The arguments of `renderPanel`. */
  datatype Screen = Screen(
    focus: Option<Path>,
    result: Option<ContextResult>,
    surfaced: seq<SurfacedItem>,
    webUrl: string)

  /** The provider's fields, with the host's clock, pending timeouts and unresolved promises. */
  datatype View = View(
    now: nat,
    focus: Option<Path>,
    focusedAt: nat,
    result: Option<ContextResult>,
    surfaced: seq<SurfacedItem>,
    settle: Option<nat>,
    timers: map<nat, Timer>,
    nextTimer: nat,
    inFlight: Option<Path>,
    loads: map<nat, Load>,
    nextLoad: nat,
    webUrl: string,
    screen: Option<Screen>)

  datatype Event =
    | Tick(ms: nat)
    | Focus(relative: Option<Path>)
    | TimerFires(handle: nat)
    | ContextArrives(load: nat, ready: bool)
    | SurfacedArrives(load: nat, ids: seq<string>)
    | RateReturns(id: string)
    | Reload(webUrl: string)
    | Resolve

  function Initial(webUrl: string): View {
    View(0, None, 0, None, [], None, map[], 0, None, map[], 0, webUrl, None)
  }

  // ---------------------------------------------------------------------------------------
  // Handlers
  // ---------------------------------------------------------------------------------------

  function Render(v: View): View {
    if v.screen.None? then v
    else v.(screen := Some(Screen(v.focus, v.result, v.surfaced, v.webUrl)))
  }

  function FocusOn(v: View, relative: Option<Path>): View {
    if relative == v.focus then v
    else
      var cleared := Render(v.(focus := relative, focusedAt := v.now, result := None, surfaced := []));
      var quiet := if v.settle.Some? then cleared.(timers := v.timers - {v.settle.value}) else cleared;
      if relative.None? then quiet
      else
        quiet.(settle := Some(v.nextTimer), nextTimer := v.nextTimer + 1,
               timers := quiet.timers[v.nextTimer := Timer(relative.value, v.now + SETTLE_MS)])
  }

  /** `load` up to its first await, run by the timeout it was scheduled in. */
  function StartLoad(v: View, handle: nat): View
    requires handle in v.timers
  {
    var path := v.timers[handle].path;
    v.(timers := v.timers - {handle}, inFlight := Some(path),
       loads := v.loads[v.nextLoad := AwaitsContext(path)], nextLoad := v.nextLoad + 1)
  }

  function TakeContext(v: View, load: nat, ready: bool): View
    requires load in v.loads
  {
    var path := v.loads[load].path;
    v.(loads := v.loads[load := AwaitsSurfaced(path, ContextResult(path, load, ready))])
  }

  function Tagged(ids: seq<string>, path: Path): seq<SurfacedItem> {
    seq(|ids|, i requires 0 <= i < |ids| => SurfacedItem(ids[i], path))
  }

  /** `load` after its second await: dropped if the reader has moved on, shown otherwise. */
  function FinishLoad(v: View, load: nat, ids: seq<string>): View
    requires load in v.loads && v.loads[load].AwaitsSurfaced?
  {
    var path, result := v.loads[load].path, v.loads[load].result;
    var done := v.(loads := v.loads - {load});
    if v.inFlight != Some(path) || v.focus != Some(path) then done
    else Render(done.(result := Some(result), surfaced := Tagged(ids, path)))
  }

  function Without(items: seq<SurfacedItem>, id: string): (kept: seq<SurfacedItem>)
    ensures forall item :: item in kept <==> item in items && item.id != id
  {
    if items == [] then []
    else (if items[0].id != id then [items[0]] else []) + Without(items[1..], id)
  }

  predicate Enabled(v: View, e: Event) {
    match e
    case TimerFires(handle) => handle in v.timers && v.timers[handle].dueAt <= v.now
    case ContextArrives(load, _) => load in v.loads && v.loads[load].AwaitsContext?
    case SurfacedArrives(load, _) => load in v.loads && v.loads[load].AwaitsSurfaced?
    case _ => true
  }

  function Step(v: View, e: Event): View
    requires Enabled(v, e)
  {
    match e
    case Tick(ms) => v.(now := v.now + ms)
    case Focus(relative) => FocusOn(v, relative)
    case TimerFires(handle) => StartLoad(v, handle)
    case ContextArrives(load, ready) => TakeContext(v, load, ready)
    case SurfacedArrives(load, ids) => FinishLoad(v, load, ids)
    case RateReturns(id) => Render(v.(surfaced := Without(v.surfaced, id)))
    case Reload(webUrl) => Render(v.(webUrl := webUrl))
    case Resolve => v.(screen := Some(Screen(v.focus, v.result, v.surfaced, v.webUrl)))
  }

  // ---------------------------------------------------------------------------------------
  // Invariant
  // ---------------------------------------------------------------------------------------

  /** Nothing held or pending is about a file the reader is not looking at. */
  ghost predicate NothingStale(v: View) {
    && (v.result.Some? ==> v.focus == Some(v.result.value.focus))
    && (forall item :: item in v.surfaced ==> v.focus == Some(item.fetchedFor))
    && (forall h :: h in v.timers ==> v.focus == Some(v.timers[h].path))
  }

  /** At most one timeout is pending, the one in `settle`, a whole settle time after the focus. */
  ghost predicate OneTimer(v: View) {
    && (forall h :: h in v.timers ==> v.settle == Some(h) && v.timers[h].dueAt == v.focusedAt + SETTLE_MS)
    && (v.settle.Some? ==> v.settle.value < v.nextTimer)
    && v.focusedAt <= v.now
  }

  ghost predicate LoadsKnowTheirPath(v: View) {
    && (forall n :: n in v.loads ==> n < v.nextLoad)
    && (forall n :: n in v.loads && v.loads[n].AwaitsSurfaced? ==>
          v.loads[n].result.focus == v.loads[n].path && v.loads[n].result.load == n)
  }

  /** A focused file has its timer running, or its load outstanding and expected, or its result held. */
  ghost predicate Attended(v: View) {
    v.focus.Some? ==>
      || (exists h :: h in v.timers && Some(v.timers[h].path) == v.focus)
      || (v.inFlight == v.focus && exists n :: n in v.loads && Some(v.loads[n].path) == v.focus)
      || (v.result.Some? && Some(v.result.value.focus) == v.focus)
  }

  /** What is on screen is the panel of the current fields. */
  ghost predicate ScreenIsCurrent(v: View) {
    v.screen.Some? ==> v.screen.value == Screen(v.focus, v.result, v.surfaced, v.webUrl)
  }

  /** While a result is held, `inFlight` names the file in focus. */
  predicate HeldIsExpected(v: View) {
    v.result.Some? ==> v.inFlight == v.focus
  }

  ghost predicate Inv(v: View) {
    && NothingStale(v) && OneTimer(v) && LoadsKnowTheirPath(v) && Attended(v) && ScreenIsCurrent(v)
    && HeldIsExpected(v)
  }

  lemma FocusKeepsNothingStale(v: View, relative: Option<Path>)
    requires NothingStale(v) && OneTimer(v)
    ensures NothingStale(FocusOn(v, relative))
  {
  }

  lemma FinishKeepsNothingStale(v: View, load: nat, ids: seq<string>)
    requires NothingStale(v) && LoadsKnowTheirPath(v) && load in v.loads && v.loads[load].AwaitsSurfaced?
    ensures NothingStale(FinishLoad(v, load, ids))
  {
  }

  lemma StepKeepsNothingStale(v: View, e: Event)
    requires NothingStale(v) && LoadsKnowTheirPath(v) && OneTimer(v) && Enabled(v, e)
    ensures NothingStale(Step(v, e))
  {
    match e
    case Focus(relative) => FocusKeepsNothingStale(v, relative);
    case SurfacedArrives(load, ids) => FinishKeepsNothingStale(v, load, ids);
    case _ =>
  }

  lemma StepKeepsOneTimer(v: View, e: Event)
    requires OneTimer(v) && Enabled(v, e)
    ensures OneTimer(Step(v, e))
  {
  }

  lemma StepKeepsLoads(v: View, e: Event)
    requires LoadsKnowTheirPath(v) && Enabled(v, e)
    ensures LoadsKnowTheirPath(Step(v, e))
  {
  }

  lemma StepKeepsScreen(v: View, e: Event)
    requires ScreenIsCurrent(v) && Enabled(v, e)
    ensures ScreenIsCurrent(Step(v, e))
  {
  }

  lemma {:induction false} StepKeepsHeldIsExpected(v: View, e: Event)
    requires NothingStale(v) && HeldIsExpected(v) && Enabled(v, e)
    ensures HeldIsExpected(Step(v, e))
  {
    match e
    case TimerFires(handle) => assert v.focus == Some(v.timers[handle].path);
    case _ =>
  }

  lemma {:induction false} StepKeepsAttended(v: View, e: Event)
    requires Inv(v) && Enabled(v, e)
    ensures Attended(Step(v, e))
  {
    var v' := Step(v, e);
    match e
    case Focus(relative) =>
      if relative != v.focus && relative.Some? {
        assert v.nextTimer in v'.timers;
      }
    case TimerFires(handle) =>
      assert v.nextLoad in v'.loads;
    case ContextArrives(load, ready) =>
      if n :| v.inFlight == v.focus && n in v.loads && Some(v.loads[n].path) == v.focus {
        assert n in v'.loads && v'.loads[n].path == v.loads[n].path;
      }
    case SurfacedArrives(load, ids) =>
      if n :| v.inFlight == v.focus && n in v.loads && Some(v.loads[n].path) == v.focus {
        assert n != load ==> n in v'.loads;
      }
    case _ =>
  }

  /** Every step keeps the invariant. */
  lemma {:induction false} StepKeepsInv(v: View, e: Event)
    requires Inv(v) && Enabled(v, e)
    ensures Inv(Step(v, e))
  {
    StepKeepsNothingStale(v, e);
    StepKeepsOneTimer(v, e);
    StepKeepsLoads(v, e);
    StepKeepsScreen(v, e);
    StepKeepsAttended(v, e);
    StepKeepsHeldIsExpected(v, e);
  }

  // ---------------------------------------------------------------------------------------
  // Runs
  // ---------------------------------------------------------------------------------------

  ghost predicate Run(states: seq<View>, events: seq<Event>) {
    && |states| == |events| + 1
    && forall i :: 0 <= i < |events| ==> Takes(states[i], events[i], states[i + 1])
  }

  predicate Takes(v: View, e: Event, v': View) {
    Enabled(v, e) && v' == Step(v, e)
  }

  ghost predicate RunFromStart(states: seq<View>, events: seq<Event>) {
    Run(states, events) && states[0] == Initial(states[0].webUrl)
  }

  /** In every reachable state nothing stale is held, pending or on screen, and the focus is attended. */
  lemma {:induction false} Reachable(states: seq<View>, events: seq<Event>, i: nat)
    requires RunFromStart(states, events) && i < |states|
    ensures Inv(states[i])
  {
    if i > 0 {
      Reachable(states, events, i - 1);
      assert Takes(states[i - 1], events[i - 1], states[i]);
      StepKeepsInv(states[i - 1], events[i - 1]);
    }
  }

  ghost predicate Quiescent(v: View) {
    v.timers == map[] && v.loads == map[]
  }

  /** Settling: once nothing is pending or outstanding, the panel holds the focused file's own result. */
  lemma {:induction false} SettlesOnTheFocus(states: seq<View>, events: seq<Event>, i: nat)
    requires RunFromStart(states, events) && i < |states| && Quiescent(states[i])
    ensures states[i].focus.Some? ==> states[i].result.Some? && Some(states[i].result.value.focus) == states[i].focus
    ensures states[i].focus.None? ==> states[i].result.None? && states[i].surfaced == []
  {
    Reachable(states, events, i);
    var v := states[i];
    assert |v.surfaced| > 0 ==> v.surfaced[0] in v.surfaced;
  }

  lemma {:induction false} FocusIsSince(states: seq<View>, events: seq<Event>, i: nat) returns (k: nat)
    requires RunFromStart(states, events) && i < |states|
    ensures k <= i && states[k].now == states[i].focusedAt
    ensures forall m :: k <= m <= i ==> states[m].focus == states[i].focus
  {
    if i == 0 {
      k := 0;
    } else {
      assert Takes(states[i - 1], events[i - 1], states[i]);
      if states[i].focus == states[i - 1].focus {
        k := FocusIsSince(states, events, i - 1);
      } else {
        k := i;
      }
    }
  }

  /** A load of `p` starts only after the focus has stayed on `p` for the whole settle time. */
  lemma {:induction false} LoadWaitsForTheFocus(states: seq<View>, events: seq<Event>, i: nat) returns (k: nat)
    requires RunFromStart(states, events) && i < |events| && events[i].TimerFires?
    ensures k <= i && events[i].handle in states[i].timers
    ensures states[i].now - states[k].now >= 350
    ensures forall m :: k <= m <= i ==> states[m].focus == Some(states[i].timers[events[i].handle].path)
  {
    Reachable(states, events, i);
    assert Takes(states[i], events[i], states[i + 1]);
    k := FocusIsSince(states, events, i);
  }

  // ---------------------------------------------------------------------------------------
  // How long settling can take
  // ---------------------------------------------------------------------------------------

  function AwaitingContext(v: View): set<nat> {
    set n | n in v.loads && v.loads[n].AwaitsContext?
  }

  /** The steps still owed: three for a timeout, two or one for a load. */
  function Owed(v: View): nat {
    3 * |v.timers| + |v.loads| + |AwaitingContext(v)|
  }

  predicate Advances(e: Event) {
    e.TimerFires? || e.ContextArrives? || e.SurfacedArrives?
  }

  lemma StartPaysOne(v: View, handle: nat)
    requires handle in v.timers && v.nextLoad !in v.loads
    ensures Owed(StartLoad(v, handle)) == Owed(v) - 1
  {
    var v' := StartLoad(v, handle);
    assert v'.timers.Keys == v.timers.Keys - {handle};
    assert v'.loads.Keys == v.loads.Keys + {v.nextLoad};
    assert AwaitingContext(v') == AwaitingContext(v) + {v.nextLoad};
  }

  lemma {:induction false} ContextPaysOne(v: View, load: nat, ready: bool)
    requires load in v.loads && v.loads[load].AwaitsContext?
    ensures Owed(TakeContext(v, load, ready)) == Owed(v) - 1
  {
    var v' := TakeContext(v, load, ready);
    assert v'.loads.Keys == v.loads.Keys;
    assert AwaitingContext(v') == AwaitingContext(v) - {load};
  }

  lemma {:induction false} SurfacedPaysOne(v: View, load: nat, ids: seq<string>)
    requires load in v.loads && v.loads[load].AwaitsSurfaced?
    ensures Owed(FinishLoad(v, load, ids)) == Owed(v) - 1
  {
    var v' := FinishLoad(v, load, ids);
    assert v'.loads == v.loads - {load} && v'.timers == v.timers;
    assert v'.loads.Keys == v.loads.Keys - {load};
    assert AwaitingContext(v') == AwaitingContext(v);
  }

  lemma {:induction false} EachStepPaysOne(v: View, e: Event)
    requires Enabled(v, e) && LoadsKnowTheirPath(v) && !e.Focus?
    ensures Owed(Step(v, e)) == Owed(v) - if Advances(e) then 1 else 0
  {
    if e.TimerFires? {
      StartPaysOne(v, e.handle);
    } else if e.ContextArrives? {
      ContextPaysOne(v, e.load, e.ready);
    } else if e.SurfacedArrives? {
      SurfacedPaysOne(v, e.load, e.ids);
    }
  }

  /** How many of `events[i..n]` are advances. */
  function CountAdvances(events: seq<Event>, i: nat, n: nat): nat
    requires i <= n <= |events|
  {
    if i == n then 0 else CountAdvances(events, i, n - 1) + if Advances(events[n - 1]) then 1 else 0
  }

  lemma {:induction false} StatesPayOne(states: seq<View>, events: seq<Event>, k: nat)
    requires RunFromStart(states, events) && k < |events| && !events[k].Focus?
    ensures Owed(states[k + 1]) == Owed(states[k]) - if Advances(events[k]) then 1 else 0
  {
    Reachable(states, events, k);
    assert Takes(states[k], events[k], states[k + 1]);
    EachStepPaysOne(states[k], events[k]);
  }

  predicate PaidAt(states: seq<View>, events: seq<Event>, k: nat)
    requires k < |events| && |states| == |events| + 1
  {
    Owed(states[k + 1]) == Owed(states[k]) - if Advances(events[k]) then 1 else 0
  }

  lemma {:induction false} PaymentsAddUp(states: seq<View>, events: seq<Event>, i: nat, n: nat)
    requires i <= n <= |events| && |states| == |events| + 1
    requires forall k :: i <= k < n ==> PaidAt(states, events, k)
    ensures Owed(states[n]) + CountAdvances(events, i, n) == Owed(states[i])
  {
    if i < n {
      PaymentsAddUp(states, events, i, n - 1);
      assert PaidAt(states, events, n - 1);
    }
  }

  /** Between two changes of focus every advance pays off exactly one of the steps owed. */
  lemma {:induction false} AdvancesPayOff(states: seq<View>, events: seq<Event>, i: nat, n: nat)
    requires RunFromStart(states, events) && i <= n <= |events|
    requires forall m :: i <= m < n ==> !events[m].Focus?
    ensures Owed(states[n]) + CountAdvances(events, i, n) == Owed(states[i])
  {
    forall k | i <= k < n ensures PaidAt(states, events, k) {
      StatesPayOne(states, events, k);
    }
    PaymentsAddUp(states, events, i, n);
  }

  /**
   However the answers interleave, the panel settles after exactly the steps that were owed when
   the focus last changed: no fewer, and no step beyond them exists.
   */
  lemma {:induction false} SettlesInTime(states: seq<View>, events: seq<Event>, i: nat, n: nat)
    requires RunFromStart(states, events) && i <= n <= |events|
    requires forall m :: i <= m < n ==> !events[m].Focus?
    ensures CountAdvances(events, i, n) <= Owed(states[i])
    ensures CountAdvances(events, i, n) == Owed(states[i]) <==> Quiescent(states[n])
    ensures Quiescent(states[n]) && states[n].focus.Some? ==>
              states[n].result.Some? && Some(states[n].result.value.focus) == states[n].focus
  {
    AdvancesPayOff(states, events, i, n);
    if Quiescent(states[n]) {
      SettlesOnTheFocus(states, events, n);
    }
    NothingOwed(states[n]);
  }

  lemma NothingOwed(v: View)
    ensures Owed(v) == 0 <==> Quiescent(v)
  {
    if v.timers != map[] {
      var h :| h in v.timers.Keys;
    }
    if v.loads != map[] {
      var n :| n in v.loads.Keys;
    }
  }

  /** While something is owed, an answer or, once it is due, the timer can always come next. */
  lemma {:induction false} SomethingCanHappen(v: View) returns (wait: nat, e: Event)
    requires Inv(v) && !Quiescent(v)
    ensures Advances(e) && Enabled(Step(v, Tick(wait)), e)
  {
    if h :| h in v.timers {
      wait, e := SETTLE_MS, TimerFires(h);
    } else {
      var n :| n in v.loads;
      wait, e := 0, if v.loads[n].AwaitsContext? then ContextArrives(n, true) else SurfacedArrives(n, []);
    }
  }

  // ---------------------------------------------------------------------------------------
  // The right file is not always the newest answer
  // ---------------------------------------------------------------------------------------

  lemma {:induction false} Extend(states: seq<View>, events: seq<Event>, e: Event)
      returns (states': seq<View>, events': seq<Event>)
    requires RunFromStart(states, events) && Enabled(states[|events|], e)
    ensures states' == states + [Step(states[|events|], e)] && events' == events + [e]
    ensures RunFromStart(states', events')
  {
    states', events' := states + [Step(states[|events|], e)], events + [e];
    forall i | 0 <= i < |events'| ensures Takes(states'[i], events'[i], states'[i + 1]) {
      assert i < |events| ==> Takes(states[i], events[i], states[i + 1]);
    }
  }

  /** A file in focus, its load waiting for the surfaced items. */
  lemma {:induction false} OpenAndWait(a: Path) returns (states: seq<View>, events: seq<Event>)
    ensures RunFromStart(states, events)
    ensures states[|events|] == View(SETTLE_MS, Some(a), 0, None, [], Some(0), map[], 1, Some(a),
                                     map[0 := AwaitsSurfaced(a, ContextResult(a, 0, false))], 1, "", None)
  {
    states, events := [Initial("")], [];
    states, events := Extend(states, events, Focus(Some(a)));
    states, events := Extend(states, events, Tick(SETTLE_MS));
    states, events := Extend(states, events, TimerFires(0));
    states, events := Extend(states, events, ContextArrives(0, false));
    var v := states[|events|];
    assert v.timers == map[] && v.loads == map[0 := AwaitsSurfaced(a, ContextResult(a, 0, false))];
  }

  /** The file is left and opened again inside the settle time, with that load outstanding. */
  lemma {:induction false} LeaveAndReturn(a: Path, b: Path) returns (states: seq<View>, events: seq<Event>)
    requires a != b
    ensures RunFromStart(states, events)
    ensures var v := states[|events|];
            && v.focus == Some(a) && v.inFlight == Some(a) && v.result.None? && v.screen.None?
            && v.timers == map[2 := Timer(a, 2 * SETTLE_MS)] && v.now == SETTLE_MS && v.nextLoad == 1
            && v.loads == map[0 := AwaitsSurfaced(a, ContextResult(a, 0, false))]
  {
    states, events := OpenAndWait(a);
    states, events := Extend(states, events, Focus(Some(b)));
    states, events := Extend(states, events, Focus(Some(a)));
  }

  /**
   The guard compares paths, not requests. Leaving a file and coming back inside the settle time
   leaves two loads of it outstanding, and the older one can answer last and replace the newer.
   */
  lemma {:induction false} OlderAnswerCanReplaceNewer(a: Path, b: Path) returns (states: seq<View>, events: seq<Event>)
    requires a != b
    ensures RunFromStart(states, events) && |events| > 0
    ensures states[|events| - 1].result == Some(ContextResult(a, 1, true))
    ensures states[|events|].focus == Some(a) && states[|events|].result == Some(ContextResult(a, 0, false))
  {
    states, events := LeaveAndReturn(a, b);
    states, events := Extend(states, events, Tick(SETTLE_MS));
    states, events := Extend(states, events, TimerFires(2));
    states, events := Extend(states, events, ContextArrives(1, true));
    states, events := Extend(states, events, SurfacedArrives(1, []));
    states, events := Extend(states, events, SurfacedArrives(0, []));
  }

  /** Nor does a load of another file in between keep the older answer away. */
  lemma {:induction false} OlderAnswerWinsPastAnotherLoad(a: Path, b: Path)
    returns (states: seq<View>, events: seq<Event>, between: nat)
    requires a != b
    ensures RunFromStart(states, events) && between < |events| - 1
    ensures states[between].inFlight == Some(b) && 0 in states[between].loads
    ensures states[|events| - 1].result == Some(ContextResult(a, 2, true))
    ensures states[|events|].focus == Some(a) && states[|events|].result == Some(ContextResult(a, 0, false))
  {
    states, events := OpenAndWait(a);
    states, events := Extend(states, events, Focus(Some(b)));
    states, events := Extend(states, events, Tick(SETTLE_MS));
    var v := states[|events|];
    assert v.timers == map[1 := Timer(b, 2 * SETTLE_MS)] && v.now == 2 * SETTLE_MS;
    states, events := Extend(states, events, TimerFires(1));
    between := |events|;
    v := states[|events|];
    assert v.inFlight == Some(b) && v.timers == map[] && v.nextTimer == 2 && v.nextLoad == 2;
    assert v.loads == map[0 := AwaitsSurfaced(a, ContextResult(a, 0, false)), 1 := AwaitsContext(b)];
    states, events := AskAgain(a, states, events);
    states, events := AnswerNewerFirst(a, states, events);
  }

  /** Nothing pending, another file in focus, and load 0 of this one still waiting. */
  predicate LeftWaiting(v: View, a: Path) {
    && v.focus.Some? && v.focus != Some(a) && v.timers == map[] && v.nextTimer == 2 && v.nextLoad == 2
    && v.now == 2 * SETTLE_MS && 0 in v.loads && v.loads[0] == AwaitsSurfaced(a, ContextResult(a, 0, false))
  }

  predicate BothWaiting(v: View, a: Path) {
    && v.focus == Some(a) && v.inFlight == Some(a) && {0, 2} <= v.loads.Keys
    && v.loads[0] == AwaitsSurfaced(a, ContextResult(a, 0, false))
    && v.loads[2] == AwaitsSurfaced(a, ContextResult(a, 2, true))
  }

  /** Back on the file: it is loaded again, beside its old load. */
  lemma {:induction false} AskAgain(a: Path, before: seq<View>, past: seq<Event>)
    returns (states: seq<View>, events: seq<Event>)
    requires RunFromStart(before, past) && LeftWaiting(before[|past|], a)
    ensures RunFromStart(states, events) && |events| > |past| && before <= states && past <= events
    ensures BothWaiting(states[|events|], a)
  {
    states, events := Extend(before, past, Focus(Some(a)));
    states, events := Extend(states, events, Tick(SETTLE_MS));
    states, events := Extend(states, events, TimerFires(2));
    states, events := Extend(states, events, ContextArrives(2, true));
  }

  /** The new load answers, and after it the old one. */
  lemma {:induction false} AnswerNewerFirst(a: Path, before: seq<View>, past: seq<Event>)
    returns (states: seq<View>, events: seq<Event>)
    requires RunFromStart(before, past) && BothWaiting(before[|past|], a)
    ensures RunFromStart(states, events) && |events| > |past| && before <= states && past <= events
    ensures states[|events| - 1].result == Some(ContextResult(a, 2, true))
    ensures states[|events|].focus == Some(a) && states[|events|].result == Some(ContextResult(a, 0, false))
  {
    states, events := Extend(before, past, SurfacedArrives(2, []));
    states, events := Extend(states, events, SurfacedArrives(0, []));
  }

  /**
   When it happens: once a newer result is held, an older load's answer displaces it if and only if it
   is for the file in focus. The `inFlight` half of the guard never decides then.
   */
  lemma {:induction false} LateAnswerWinsIff(states: seq<View>, events: seq<Event>, i: nat)
    requires RunFromStart(states, events) && i < |events| && events[i].SurfacedArrives?
    requires states[i].result.Some? && events[i].load < states[i].result.value.load
    ensures events[i].load in states[i].loads
    ensures states[i + 1].result != states[i].result <==> states[i].focus == Some(states[i].loads[events[i].load].path)
  {
    Reachable(states, events, i);
    assert Takes(states[i], events[i], states[i + 1]);
  }

  ghost predicate IsAwaited(v: View) {
    exists h :: h in v.timers && Some(v.timers[h].path) == v.focus
  }

  /**
   What the `inFlight` half is left with: it drops an answer for the file in focus only while nothing
   is held and that file's own timer is pending, so the file is asked about again.
   */
  lemma {:induction false} DroppedIsAskedAgain(states: seq<View>, events: seq<Event>, i: nat)
    requires RunFromStart(states, events) && i < |events| && events[i].SurfacedArrives?
    requires events[i].load in states[i].loads
    requires states[i].focus == Some(states[i].loads[events[i].load].path) && states[i].inFlight != states[i].focus
    ensures states[i].result.None? && states[i + 1].result.None? && IsAwaited(states[i + 1])
  {
    Reachable(states, events, i);
    assert Takes(states[i], events[i], states[i + 1]);
  }
}
