/**
 `ContextViewProvider` as the object it is: handlers that assign its fields. Each handler is one
 step of the panel's protocol, and no handler disturbs the protocol's invariant.
 */
module ContextViewProvider {
  import opened Options
  import opened ContextView

  class Provider {
    var focus: Option<Path>
    var result: Option<ContextResult>
    var surfaced: seq<SurfacedItem>
    var settle: Option<nat>
    var inFlight: Option<Path>
    var webUrl: string
    var screen: Option<Screen>

    // The host: its clock, its pending timeouts, and the calls of `load` it has suspended.
    var now: nat
    var timers: map<nat, Timer>
    var nextTimer: nat
    var loads: map<nat, Load>
    var nextLoad: nat

    /** When the focus last changed; no handler reads it. */
    ghost var focusedAt: nat

    ghost function State(): View
      reads this
    {
      View(now, focus, focusedAt, result, surfaced, settle, timers, nextTimer, inFlight, loads, nextLoad,
           webUrl, screen)
    }

    ghost predicate Valid()
      reads this
    {
      Inv(State())
    }

    constructor (url: string)
      ensures Valid() && State() == Initial(url)
    {
      focus, result, surfaced, settle, inFlight := None, None, [], None, None;
      webUrl, screen := url, None;
      now, timers, nextTimer, loads, nextLoad := 0, map[], 0, map[], 0;
      focusedAt := 0;
    }

    method Render()
      modifies this`screen
      ensures State() == ContextView.Render(old(State()))
    {
      if screen.None? {
        return;
      }
      screen := Some(Screen(focus, result, surfaced, webUrl));
    }

    /** The first half of `focusOn`: the panel is emptied and the last timeout cancelled. */
    method Leave(relative: Option<Path>)
      modifies this
      ensures var left := old(State()).(focus := relative, focusedAt := now, result := None, surfaced := []);
              var emptied := ContextView.Render(left);
              State() == if settle.Some? then emptied.(timers := old(timers) - {settle.value}) else emptied
    {
      focus := relative;
      focusedAt := now;
      result := None;
      surfaced := [];
      Render();
      if settle.Some? {
        timers := timers - {settle.value};
      }
    }

    method FocusOn(relative: Option<Path>)
      requires Valid()
      modifies this
      ensures State() == Step(old(State()), Focus(relative)) && Valid()
    {
      StepKeepsInv(State(), Focus(relative));
      if relative == focus {
        return;
      }
      Leave(relative);
      if relative.None? {
        return;
      }
      timers := timers[nextTimer := Timer(relative.value, now + SETTLE_MS)];
      settle := Some(nextTimer);
      nextTimer := nextTimer + 1;
    }

    /** The timeout's callback: `load` up to the request for the context. */
    method StartLoad(handle: nat) returns (load: nat)
      requires Valid() && Enabled(State(), TimerFires(handle))
      modifies this
      ensures State() == Step(old(State()), TimerFires(handle)) && Valid()
      ensures load == old(nextLoad)
    {
      StepKeepsInv(State(), TimerFires(handle));
      var relative := timers[handle].path;
      timers := timers - {handle};
      inFlight := Some(relative);
      load := nextLoad;
      loads := loads[load := AwaitsContext(relative)];
      nextLoad := nextLoad + 1;
    }

    /** `load` between its awaits: the context is in hand, the surfaced items are asked for. */
    method TakeContext(load: nat, ready: bool)
      requires Valid() && Enabled(State(), ContextArrives(load, ready))
      modifies this
      ensures State() == Step(old(State()), ContextArrives(load, ready)) && Valid()
    {
      StepKeepsInv(State(), ContextArrives(load, ready));
      var relative := loads[load].path;
      loads := loads[load := AwaitsSurfaced(relative, ContextResult(relative, load, ready))];
    }

    /** `load` after its last await. */
    method FinishLoad(load: nat, ids: seq<string>)
      requires Valid() && Enabled(State(), SurfacedArrives(load, ids))
      modifies this
      ensures State() == Step(old(State()), SurfacedArrives(load, ids)) && Valid()
    {
      StepKeepsInv(State(), SurfacedArrives(load, ids));
      var relative, fetched := loads[load].path, loads[load].result;
      loads := loads - {load};
      if inFlight != Some(relative) || focus != Some(relative) {
        return;
      }
      result := Some(fetched);
      surfaced := Tagged(ids, relative);
      Render();
    }

    /** `rate` after its await: the row goes whatever the server said. */
    method FinishRate(id: string)
      requires Valid()
      modifies this
      ensures State() == Step(old(State()), RateReturns(id)) && Valid()
    {
      StepKeepsInv(State(), RateReturns(id));
      surfaced := Without(surfaced, id);
      Render();
    }

    method Reload(url: string)
      requires Valid()
      modifies this
      ensures State() == Step(old(State()), ContextView.Reload(url)) && Valid()
    {
      StepKeepsInv(State(), ContextView.Reload(url));
      webUrl := url;
      Render();
    }

    method ResolveWebviewView()
      requires Valid()
      modifies this
      ensures State() == Step(old(State()), Resolve) && Valid()
    {
      StepKeepsInv(State(), Resolve);
      screen := Some(Screen(focus, result, surfaced, webUrl));
    }
  }
}
