/**
 The periodic DNS refresh of `dns_refresh.go` as a transition system: the event loop, the callbacks of the
 resolvers it builds, hints from the channel, the timer and `Close` interleave over capacity-1 channels.

 Every `Build` call gets a generation number. Generations, and the sets that record what happened to them,
 exist only in the model: the code sees `underlying`, the channels and the timer.
 */
module DnsRefresh {
  import opened Bytes

  /** Where the event loop is; the first build happens before the loop starts. */
  datatype Place =
    | FirstBuild     // inside the Builder.Build call of refreshingDNSBuilder.Build
    | NeverStarted   // that call failed and no resolver was returned
    | Selecting      // at the select statement
    | Retiring       // timer case: closing the old resolver
    | Draining       // timer case: discarding an update that raced with the timer
    | Building       // timer case: inside Builder.Build
    | StoppingTimer  // leaving the loop: deferred timer.Stop
    | ClosingLast    // leaving the loop: deferred underlying.Close
    | Finishing      // leaving the loop: deferred close(done)
    | Finished

  /** A resolver callback inside `UpdateState`; `accepted` once ClientConn.UpdateState returned nil. */
  datatype Call = Call(gen: nat, accepted: bool)

  /** The `sync.Once` in `Close`. */
  datatype Once = NotCalled | Running | Returned

  datatype State = State(
    place: Place,
    underlying: Option<nat>,  // the loop's resolver, by generation
    updates: Option<nat>,     // the updates channel, and whose update filled it
    hints: bool,              // the hints channel
    armed: bool,              // the timer can expire
    stop: bool,               // the stop channel is closed
    done: bool,               // the done channel is closed
    once: Once,
    calls: multiset<Call>,    // callbacks in progress
    gen: nat,                 // Build calls so far
    built: set<nat>,          // generations whose Build succeeded
    closed: multiset<nat>,    // resolver Close calls that returned
    accepted: set<nat>)       // generations that delivered an accepted update

  datatype Step =
    | CallEnters | CallAccepted | CallRejected | CallSends
    | HintArrives | TakeHint
    | FirstBuilt | FirstBuildFails
    | TakeUpdate | TimerFires | OldClosed | Drained | Built | BuildFails
    | CloseCalled | TakeStop | TimerStopped | LastClosed | DoneSignalled | CloseReturns

  /** The steps of resolver callbacks. */
  predicate IsCallStep(step: Step) { step == CallEnters || step == CallAccepted || step == CallRejected || step == CallSends }

  predicate Init(s: State) {
    s == State(FirstBuild, None, None, false, false, false, false, NotCalled, multiset{}, 1, {}, multiset{}, {})
  }

  predicate Quiet(s: State) { s.calls == multiset{} }

  /** A resolver exists, or is being built, that can call back. */
  predicate CanCall(s: State) {
    s.underlying == Some(s.gen) || s.place == FirstBuild || s.place == Building
  }

  /** Closing a resolver waits for its callbacks; a nil resolver needs no closing. */
  predicate CloseUnderlying(s: State, t: State, next: Place) {
    && Quiet(s)
    && t == s.(place := next, underlying := None,
               closed := if s.underlying.Some? then s.closed + multiset{s.underlying.value} else s.closed)
  }

  predicate Next(s: State, step: Step, t: State) {
    match step
    // ---- resolver callbacks (UpdateState)
    case CallEnters => CanCall(s) && t == s.(calls := s.calls + multiset{Call(s.gen, false)})
    case CallAccepted =>
      && Call(s.gen, false) in s.calls
      && t == s.(calls := s.calls - multiset{Call(s.gen, false)} + multiset{Call(s.gen, true)},
                 accepted := s.accepted + {s.gen})
    case CallRejected => Call(s.gen, false) in s.calls && t == s.(calls := s.calls - multiset{Call(s.gen, false)})
    case CallSends =>  // non-blocking: a full channel keeps its token
      && Call(s.gen, true) in s.calls
      && t == s.(calls := s.calls - multiset{Call(s.gen, true)},
                 updates := if s.updates.None? then Some(s.gen) else s.updates)
    // ---- hints (ResolveNow)
    case HintArrives => s.place != FirstBuild && s.place != NeverStarted && t == s.(hints := true)
    case TakeHint => s.place == Selecting && s.hints && t == s.(hints := false)
    // ---- refreshingDNSBuilder.Build
    case FirstBuilt =>
      s.place == FirstBuild && t == s.(place := Selecting, underlying := Some(s.gen), built := s.built + {s.gen})
    case FirstBuildFails => s.place == FirstBuild && Quiet(s) && t == s.(place := NeverStarted)
    // ---- the event loop
    case TakeUpdate => s.place == Selecting && s.updates.Some? && t == s.(updates := None, armed := true)
    case TimerFires => s.place == Selecting && s.armed && t == s.(place := Retiring, armed := false)
    case OldClosed => s.place == Retiring && CloseUnderlying(s, t, Draining)
    case Drained => s.place == Draining && t == s.(place := Building, updates := None, gen := s.gen + 1)
    case Built => s.place == Building && t == s.(place := Selecting, underlying := Some(s.gen), built := s.built + {s.gen})
    case BuildFails => s.place == Building && Quiet(s) && t == s.(place := Selecting, armed := true)
    // ---- Close
    case CloseCalled =>
      && s.place != FirstBuild && s.place != NeverStarted
      && s.once == NotCalled && t == s.(once := Running, stop := true)
    case TakeStop => s.place == Selecting && s.stop && t == s.(place := StoppingTimer)
    case TimerStopped => s.place == StoppingTimer && t == s.(place := ClosingLast, armed := false)
    case LastClosed => s.place == ClosingLast && CloseUnderlying(s, t, Finishing)
    case DoneSignalled => s.place == Finishing && t == s.(place := Finished, done := true)
    case CloseReturns => s.once == Running && s.done && t == s.(once := Returned)
  }

  // ---------------------------------------------------------------- the invariant

  /** Resolvers that were built and not closed, read off the log. */
  function Open(s: State): set<nat> {
    set g | g in s.built && g !in s.closed
  }

  predicate Leaving(s: State) {
    s.place == StoppingTimer || s.place == ClosingLast || s.place == Finishing || s.place == Finished
  }

  /** The log of builds and closes matches the loop's own variable. */
  ghost predicate Ownership(s: State) {
    && (s.underlying.Some? ==> s.underlying.value == s.gen && s.gen in s.built && s.gen !in s.closed)
    && (forall g | g in s.built :: g <= s.gen)
    && (forall g: nat :: s.closed[g] == if g in s.built && s.underlying != Some(g) then 1 else 0)
    && (s.place == Draining || s.place == Building || s.place == FirstBuild || s.place == Finishing || s.place == Finished
        ==> s.underlying.None?)
    && (s.place == Building || s.place == FirstBuild ==> s.gen !in s.built)
    && (s.place == Selecting && s.underlying.None? ==> s.gen !in s.built)
    && (s.place == Finishing || s.place == Finished ==> Quiet(s))
  }

  /** Callbacks and tokens belong to the current generation. */
  ghost predicate Generations(s: State) {
    && (forall c | c in s.calls :: c.gen == s.gen && CanCall(s) && (c.accepted ==> c.gen in s.accepted))
    && (s.updates.Some? ==> s.updates.value == s.gen && s.gen in s.accepted)
    && (forall g | g in s.accepted :: g <= s.gen)
  }

  /** Why the timer is armed, and that it is armed when it has to be. */
  ghost predicate Timing(s: State) {
    && (s.armed ==> s.place == Selecting || s.place == StoppingTimer)
    && (s.armed ==> s.gen in s.accepted || s.gen !in s.built)
    && (s.place == Selecting && s.underlying.None? ==> s.armed)
    && ((s.place == Selecting || s.place == Building || s.place == FirstBuild) && s.gen in s.accepted ==>
          s.armed || s.updates.Some? || Call(s.gen, true) in s.calls)
  }

  ghost predicate Shutdown(s: State) {
    && (s.done <==> s.place == Finished)
    && (s.once == Returned ==> s.done)
    && (Leaving(s) ==> s.stop)
    && (s.stop <==> s.once != NotCalled)
    && (s.stop ==> s.place != FirstBuild && s.place != NeverStarted)
  }

  ghost predicate Inv(s: State) {
    Ownership(s) && Generations(s) && Timing(s) && Shutdown(s)
  }

  lemma InitInv(s: State)
    requires Init(s)
    ensures Inv(s)
  {
  }

  lemma CloseKeepsOwnership(s: State, t: State, next: Place)
    requires Ownership(s) && CloseUnderlying(s, t, next)
    requires next == Draining || next == Finishing
    ensures Ownership(t)
  {
    forall g: nat ensures t.closed[g] == if g in t.built && t.underlying != Some(g) then 1 else 0 {
      assert s.closed[g] == if g in s.built && s.underlying != Some(g) then 1 else 0;
    }
  }

  lemma BuildKeepsOwnership(s: State, t: State)
    requires Ownership(s) && (s.place == Building || s.place == FirstBuild)
    requires t == s.(place := Selecting, underlying := Some(s.gen), built := s.built + {s.gen})
    ensures Ownership(t)
  {
    assert s.closed[s.gen] == 0;
  }

  lemma OwnershipKept(s: State, step: Step, t: State)
    requires Ownership(s) && Next(s, step, t)
    ensures Ownership(t)
  {
    match step
    case OldClosed => CloseKeepsOwnership(s, t, Draining);
    case LastClosed => CloseKeepsOwnership(s, t, Finishing);
    case FirstBuilt => BuildKeepsOwnership(s, t);
    case Built => BuildKeepsOwnership(s, t);
    case _ =>
  }

  lemma CallKeepsGenerations(s: State, step: Step, t: State)
    requires IsCallStep(step)
    requires Generations(s) && Next(s, step, t)
    ensures Generations(t)
  {
    assert CanCall(s) && CanCall(t);
    forall c | c in t.calls ensures c.gen == t.gen && (c.accepted ==> c.gen in t.accepted) {
      if step == CallEnters {
        assert c in s.calls || c == Call(s.gen, false);
      } else if step == CallAccepted {
        assert c in s.calls || c == Call(s.gen, true);
      } else {
        assert c in s.calls;
      }
    }
  }

  lemma GenerationsKept(s: State, step: Step, t: State)
    requires Ownership(s) && Generations(s) && Next(s, step, t)
    ensures Generations(t)
  {
    if IsCallStep(step) {
      CallKeepsGenerations(s, step, t);
    } else {
      assert t.calls == s.calls;
      if !CanCall(t) && CanCall(s) {
        assert Quiet(s);
      }
    }
  }

  lemma CallKeepsTiming(s: State, step: Step, t: State)
    requires IsCallStep(step) && Ownership(s) && Generations(s) && Timing(s) && Next(s, step, t)
    ensures Timing(t)
  {
  }

  lemma LoopKeepsTiming(s: State, step: Step, t: State)
    requires !IsCallStep(step) && Ownership(s) && Generations(s) && Timing(s) && Next(s, step, t)
    ensures Timing(t)
  {
  }

  lemma TimingKept(s: State, step: Step, t: State)
    requires Ownership(s) && Generations(s) && Timing(s) && Next(s, step, t)
    ensures Timing(t)
  {
    hide Ownership, Generations, Timing, Next;
    if IsCallStep(step) {
      CallKeepsTiming(s, step, t);
    } else {
      LoopKeepsTiming(s, step, t);
    }
  }

  lemma StepKeepsInv(s: State, step: Step, t: State)
    requires Inv(s) && Next(s, step, t)
    ensures Inv(t)
  {
    OwnershipKept(s, step, t);
    GenerationsKept(s, step, t);
    TimingKept(s, step, t);
  }

  // ---------------------------------------------------------------- every run

  ghost predicate IsRun(run: seq<State>, steps: seq<Step>) {
    && |run| == |steps| + 1
    && Init(run[0])
    && forall k | 0 <= k < |steps| :: Next(run[k], steps[k], run[k + 1])
  }

  lemma {:induction false} Reachable(run: seq<State>, steps: seq<Step>, k: nat)
    requires IsRun(run, steps) && k < |run|
    ensures Inv(run[k])
  {
    hide Inv, Next, Init;
    if k == 0 {
      InitInv(run[0]);
    } else {
      Reachable(run, steps, k - 1);
      StepKeepsInv(run[k - 1], steps[k - 1], run[k]);
    }
  }

  /** At most one resolver is open, it is the one the loop holds, and nothing is ever closed twice. */
  lemma OneOwner(run: seq<State>, steps: seq<Step>, k: nat)
    requires IsRun(run, steps) && k < |run|
    ensures Open(run[k]) == if run[k].underlying.Some? then {run[k].underlying.value} else {}
    ensures forall g: nat :: run[k].closed[g] <= 1 && (g in run[k].closed ==> g in run[k].built)
  {
    Reachable(run, steps, k);
    var s := run[k];
    forall g: nat ensures s.closed[g] <= 1 && (g in s.closed ==> g in s.built) {
      assert s.closed[g] == if g in s.built && s.underlying != Some(g) then 1 else 0;
    }
    forall g ensures g in Open(s) <==> s.underlying == Some(g) {
      assert s.closed[g] == if g in s.built && s.underlying != Some(g) then 1 else 0;
    }
  }

  /** A loop waiting at its select with no resolver open will try again: its timer is armed. */
  lemma NeverStranded(run: seq<State>, steps: seq<Step>, k: nat)
    requires IsRun(run, steps) && k < |run|
    requires run[k].place == Selecting && Open(run[k]) == {}
    ensures run[k].armed
  {
    Reachable(run, steps, k);
    OneOwner(run, steps, k);
  }

  lemma FinishedIsFinal(s: State, step: Step, t: State)
    requires Inv(s) && s.done && Next(s, step, t)
    ensures t.done && t.built == s.built && t.closed == s.closed
  {
    hide Timing;
  }

  lemma {:induction false} AfterDone(run: seq<State>, steps: seq<Step>, k: nat, j: nat)
    requires IsRun(run, steps) && k <= j < |run| && run[k].done
    ensures run[j].done && run[j].built == run[k].built && run[j].closed == run[k].closed
    decreases j
  {
    hide Inv, Next;
    if k < j {
      AfterDone(run, steps, k, j - 1);
      Reachable(run, steps, j - 1);
      FinishedIsFinal(run[j - 1], steps[j - 1], run[j]);
    }
  }

  /** When `Close` returns, every resolver built has been closed exactly once, and none is built or closed later. */
  lemma CloseReleasesEverything(run: seq<State>, steps: seq<Step>, k: nat, j: nat)
    requires IsRun(run, steps) && k <= j < |run| && run[k].once == Returned
    ensures run[k].closed == multiset(run[k].built)
    ensures run[j].built == run[k].built && run[j].closed == run[k].closed
  {
    Reachable(run, steps, k);
    var s := run[k];
    forall g: nat ensures s.closed[g] == multiset(s.built)[g] {
      assert s.closed[g] == if g in s.built && s.underlying != Some(g) then 1 else 0;
    }
    AfterDone(run, steps, k, j);
  }

  /** Generation `g` delivered an update that was accepted before the k-th state. */
  ghost predicate Delivered(run: seq<State>, steps: seq<Step>, g: nat, k: nat)
    requires |run| == |steps| + 1 && k < |run|
  {
    exists j :: 0 <= j < k && steps[j] == CallAccepted && run[j].gen == g
  }

  lemma {:induction false} AcceptedWasDelivered(run: seq<State>, steps: seq<Step>, g: nat, k: nat)
    requires IsRun(run, steps) && k < |run|
    ensures g in run[k].accepted <==> Delivered(run, steps, g, k)
    decreases k
  {
    if k > 0 {
      AcceptedWasDelivered(run, steps, g, k - 1);
      var s, t := run[k - 1], run[k];
      assert Next(s, steps[k - 1], t);
      assert t.accepted == if steps[k - 1] == CallAccepted then s.accepted + {s.gen} else s.accepted;
      if g in t.accepted && g !in s.accepted {
        assert steps[k - 1] == CallAccepted && run[k - 1].gen == g;
      }
    }
  }

  /**
   No interrupted lookup: when the timer fires, the resolver about to be replaced has itself delivered an
   accepted update; if there is none to replace, the last build failed.
   */
  lemma NoInterruptedLookup(run: seq<State>, steps: seq<Step>, k: nat)
    requires IsRun(run, steps) && k < |steps| && steps[k] == TimerFires
    ensures forall g | g in Open(run[k]) :: Delivered(run, steps, g, k)
    ensures Open(run[k]) == {} ==> run[k].gen !in run[k].built
  {
    hide Delivered;
    assert Next(run[k], steps[k], run[k + 1]);
    Reachable(run, steps, k);
    OneOwner(run, steps, k);
    forall g | g in Open(run[k]) ensures Delivered(run, steps, g, k) {
      AcceptedWasDelivered(run, steps, g, k);
    }
  }

  /** A token never outlives its resolver: what arms the timer was delivered by the current generation. */
  lemma TokensAreCurrent(run: seq<State>, steps: seq<Step>, k: nat)
    requires IsRun(run, steps) && k < |steps| && steps[k] == TakeUpdate
    ensures run[k].updates == Some(run[k].gen) && Delivered(run, steps, run[k].gen, k)
  {
    hide Delivered;
    assert Next(run[k], steps[k], run[k + 1]);
    Reachable(run, steps, k);
    AcceptedWasDelivered(run, steps, run[k].gen, k);
  }

  /**
   No lost refresh: although sends to `updates` never block and may be dropped, a resolver whose update was
   accepted always has its next lookup armed, announced, or about to be announced.
   */
  lemma NoLostRefresh(run: seq<State>, steps: seq<Step>, k: nat)
    requires IsRun(run, steps) && k < |run|
    requires run[k].place == Selecting && Delivered(run, steps, run[k].gen, k)
    ensures run[k].armed || run[k].updates.Some? || Call(run[k].gen, true) in run[k].calls
  {
    hide Delivered;
    Reachable(run, steps, k);
    AcceptedWasDelivered(run, steps, run[k].gen, k);
  }

  // ---------------------------------------------------------------- refreshes happen

  /** `states` follow from `s` by `steps`. */
  ghost predicate Path(s: State, states: seq<State>, steps: seq<Step>, t: State) {
    && |states| == |steps| + 1 && states[0] == s && states[|steps|] == t
    && forall k | 0 <= k < |steps| :: Next(states[k], steps[k], states[k + 1])
  }

  /** A run that goes on. */
  lemma PathMore(s: State, states: seq<State>, steps: seq<Step>, t: State, step: Step, u: State)
    requires Path(s, states, steps, t) && Next(t, step, u)
    ensures Path(s, states + [u], steps + [step], u)
  {
    hide Next;
    var states', steps' := states + [u], steps + [step];
    forall k | 0 <= k < |steps'| ensures Next(states'[k], steps'[k], states'[k + 1]) {
      if k < |steps| {
        assert states'[k] == states[k] && states'[k + 1] == states[k + 1] && steps'[k] == steps[k];
      }
    }
  }

  lemma PathJoined(s: State, a: seq<State>, x: seq<Step>, t: State, b: seq<State>, y: seq<Step>, u: State)
    requires Path(s, a, x, t) && Path(t, b, y, u)
    ensures Path(s, a + b[1..], x + y, u)
  {
    hide Next;
    var states, steps := a + b[1..], x + y;
    forall k | 0 <= k < |steps| ensures Next(states[k], steps[k], states[k + 1]) {
      if k < |x| {
        assert states[k] == a[k] && states[k + 1] == a[k + 1];
      } else {
        assert states[k] == b[k - |x|] && states[k + 1] == b[k - |x| + 1];
      }
    }
  }

  lemma {:induction false} PathKeepsInv(s: State, states: seq<State>, steps: seq<Step>, t: State)
    requires Inv(s) && Path(s, states, steps, t)
    ensures Inv(t)
    decreases |steps|
  {
    hide Inv, Next;
    if steps != [] {
      var n := |steps| - 1;
      assert Path(s, states[..n + 1], steps[..n], states[n]);
      PathKeepsInv(s, states[..n + 1], steps[..n], states[n]);
      StepKeepsInv(states[n], steps[n], t);
    }
  }

  lemma StayPut(s: State)
    ensures Path(s, [s], [], s)
  {
  }

  /** Callbacks in progress can all end, with nothing else happening than that they may leave a token. */
  lemma {:induction false} FinishCalls(s: State) returns (states: seq<State>, steps: seq<Step>, t: State)
    requires Generations(s)
    ensures Path(s, states, steps, t) && |steps| == |s.calls|
    ensures t == s.(calls := multiset{}, updates := t.updates) && CallEnters !in steps && CallAccepted !in steps
    decreases |s.calls|
  {
    if s.calls == multiset{} {
      StayPut(s);
      return [s], [], s;
    }
    var step, u := EndOneCall(s);
    var rest, more;
    rest, more, t := FinishCalls(u);
    PathMore(s, [s], [], s, step, u);
    assert [s] + [u] == [s, u] && [] + [step] == [step];
    PathJoined(s, [s, u], [step], u, rest, more, t);
    states, steps := [s, u] + rest[1..], [step] + more;
  }

  lemma EndOneCall(s: State) returns (step: Step, u: State)
    requires Generations(s) && s.calls != multiset{}
    ensures Next(s, step, u) && step != CallEnters && step != CallAccepted && Generations(u)
    ensures |u.calls| == |s.calls| - 1 && u == s.(calls := u.calls, updates := u.updates)
  {
    var c :| c in s.calls;
    assert c == Call(s.gen, c.accepted);
    if c.accepted {
      step := CallSends;
      u := s.(calls := s.calls - multiset{c}, updates := if s.updates.None? then Some(s.gen) else s.updates);
    } else {
      step := CallRejected;
      u := s.(calls := s.calls - multiset{c});
    }
  }

  /** What a refresh leads to: the next generation is built and is the only one open, and the loop waits again. */
  ghost predicate Refreshed(s: State, t: State) {
    && t.place == Selecting && t.gen == s.gen + 1 && t.gen !in s.built && t.built == s.built + {t.gen} && Open(t) == {t.gen}
    && (s.underlying.Some? ==> t.closed == s.closed + multiset{s.underlying.value})
    && (s.underlying.None? ==> t.closed == s.closed)
  }

  /** From an armed loop: the timer fires, running callbacks end, the old resolver is closed, the next one is built. */
  lemma TimerRefreshes(s: State) returns (states: seq<State>, steps: seq<Step>, t: State)
    requires Inv(s) && s.place == Selecting && s.armed
    ensures Path(s, states, steps, t) && Refreshed(s, t) && Inv(t)
    ensures |steps| == |s.calls| + 4 && CallEnters !in steps && CallAccepted !in steps
  {
    var fired := s.(place := Retiring, armed := false);
    assert Next(s, TimerFires, fired);
    StayPut(s);
    PathMore(s, [s], [], s, TimerFires, fired);
    StepKeepsInv(s, TimerFires, fired);
    var rest, more, quiet := FinishCalls(fired);
    PathJoined(s, [s] + [fired], [] + [TimerFires], fired, rest, more, quiet);
    states, steps := [s] + [fired] + rest[1..], [] + [TimerFires] + more;
    PathKeepsInv(s, states, steps, quiet);
    var x, y;
    x, y, t := CloseAndBuild(quiet);
    PathJoined(s, states, steps, quiet, x, y, t);
    states, steps := states + x[1..], steps + y;
    PathKeepsInv(s, states, steps, t);
  }

  lemma CloseAndBuild(s: State) returns (states: seq<State>, steps: seq<Step>, t: State)
    requires Inv(s) && s.place == Retiring && Quiet(s)
    ensures Path(s, states, steps, t) && steps == [OldClosed, Drained, Built]
    ensures Refreshed(s, t)
  {
    var closed := if s.underlying.Some? then s.closed + multiset{s.underlying.value} else s.closed;
    var a := s.(place := Draining, underlying := None, closed := closed);
    var b := a.(place := Building, updates := None, gen := a.gen + 1);
    t := b.(place := Selecting, underlying := Some(b.gen), built := b.built + {b.gen});
    states, steps := [s, a, b, t], [OldClosed, Drained, Built];
    assert Next(s, OldClosed, a) && Next(a, Drained, b) && Next(b, Built, t);
    assert Path(s, states, steps, t);
    StepKeepsInv(s, OldClosed, a);
    StepKeepsInv(a, Drained, b);
    StepKeepsInv(b, Built, t);
    OpenIsUnderlying(t);
  }

  lemma OpenIsUnderlying(s: State)
    requires Ownership(s)
    ensures Open(s) == if s.underlying.Some? then {s.underlying.value} else {}
  {
    forall g ensures g in Open(s) <==> s.underlying == Some(g) {
      if g in s.built {
        assert s.closed[g] == if g in s.built && s.underlying != Some(g) then 1 else 0;
      }
    }
  }

  /** A waiting loop whose resolver has delivered, or that has none, gets armed without any new callback; else one is needed. */
  lemma CanArm(s: State) returns (states: seq<State>, steps: seq<Step>, t: State)
    requires Inv(s) && s.place == Selecting
    ensures Path(s, states, steps, t) && |steps| <= 4 && t.place == Selecting && t.armed
    ensures t.gen == s.gen && t.built == s.built && t.closed == s.closed && t.underlying == s.underlying && |t.calls| <= |s.calls|
    ensures s.armed || s.gen in s.accepted ==> CallEnters !in steps && CallAccepted !in steps
  {
    if s.armed {
      StayPut(s);
      return [s], [], s;
    }
    var u, x, y;
    if s.updates.Some? {
      StayPut(s);
      u, x, y := s, [s], [];
    } else {
      u, x, y := Announce(s);
    }
    t := u.(updates := None, armed := true);
    PathMore(s, x, y, u, TakeUpdate, t);
    return x + [t], y + [TakeUpdate], t;
  }

  /** The resolver's update reaches the loop's channel; a new callback is made only if none was accepted before. */
  lemma Announce(s: State) returns (u: State, states: seq<State>, steps: seq<Step>)
    requires Inv(s) && s.place == Selecting && !s.armed && s.updates.None?
    ensures Path(s, states, steps, u) && |steps| <= 3
    ensures u == s.(calls := u.calls, updates := Some(s.gen), accepted := u.accepted) && |u.calls| <= |s.calls|
    ensures s.gen in s.accepted ==> CallEnters !in steps && CallAccepted !in steps
  {
    if s.gen in s.accepted {
      u := s.(calls := s.calls - multiset{Call(s.gen, true)}, updates := Some(s.gen));
      assert Next(s, CallSends, u);
      states, steps := [s, u], [CallSends];
    } else {
      assert s.underlying.Some? && CanCall(s);
      u, states, steps := ReportOnce(s);
    }
  }

  /** One callback from start to end. */
  lemma ReportOnce(s: State) returns (u: State, states: seq<State>, steps: seq<Step>)
    requires CanCall(s) && s.updates.None?
    ensures Path(s, states, steps, u) && |steps| == 3
    ensures u == s.(updates := Some(s.gen), accepted := s.accepted + {s.gen})
  {
    var c, d := Call(s.gen, false), Call(s.gen, true);
    var a := s.(calls := s.calls + multiset{c});
    var b := s.(calls := s.calls + multiset{d}, accepted := s.accepted + {s.gen});
    u := s.(updates := Some(s.gen), accepted := s.accepted + {s.gen});
    assert a.calls - multiset{c} + multiset{d} == b.calls && b.calls - multiset{d} == s.calls;
    assert Next(s, CallEnters, a);
    assert Next(a, CallAccepted, b);
    assert Next(b, CallSends, u);
    states, steps := [s, a, b, u], [CallEnters, CallAccepted, CallSends];
  }

  /** From every reachable waiting state a refresh is a bounded number of steps away. */
  lemma CanRefresh(s: State) returns (states: seq<State>, steps: seq<Step>, t: State)
    requires Inv(s) && s.place == Selecting
    ensures Path(s, states, steps, t) && |steps| <= |s.calls| + 8 && Refreshed(s, t) && Inv(t)
    ensures s.armed || s.gen in s.accepted ==> CallEnters !in steps && CallAccepted !in steps
  {
    hide Inv, Next;
    var a, x, u := CanArm(s);
    PathKeepsInv(s, a, x, u);
    var b, y;
    b, y, t := TimerRefreshes(u);
    PathJoined(s, a, x, u, b, y, t);
    return a + b[1..], x + y, t;
  }

  /**
   Refreshes happen: in every run, from every state in which the loop waits, at most eight steps more than there
   are callbacks lead to the next generation: built, open and the only one open, its predecessor closed. No new
   callback is needed if the timer is armed or the current resolver has delivered an accepted update.
   */
  lemma RefreshHappens(run: seq<State>, steps: seq<Step>, k: nat) returns (states: seq<State>, more: seq<Step>, t: State)
    requires IsRun(run, steps) && k < |run| && run[k].place == Selecting
    ensures Path(run[k], states, more, t) && |more| <= |run[k].calls| + 8 && Refreshed(run[k], t)
    ensures forall g | g in Open(run[k]) :: t.closed[g] == 1
    ensures run[k].armed || Delivered(run, steps, run[k].gen, k) ==> CallEnters !in more && CallAccepted !in more
  {
    hide Delivered, Path, Next;
    Reachable(run, steps, k);
    AcceptedWasDelivered(run, steps, run[k].gen, k);
    OneOwner(run, steps, k);
    states, more, t := CanRefresh(run[k]);
  }

  /** The client can go on refreshing for ever: for every n a run from the start ends waiting with generation n open. */
  lemma {:induction false} RefreshesForever(n: nat) returns (run: seq<State>, steps: seq<Step>)
    requires n >= 1
    ensures IsRun(run, steps) && var last := run[|steps|]; last.place == Selecting && last.gen == n && Open(last) == {n}
    ensures Inv(run[|steps|])
  {
    if n == 1 {
      var s := State(FirstBuild, None, None, false, false, false, false, NotCalled, multiset{}, 1, {}, multiset{}, {});
      var t := s.(place := Selecting, underlying := Some(1), built := {1});
      assert Next(s, FirstBuilt, t);
      run, steps := [s, t], [FirstBuilt];
      assert IsRun(run, steps);
      Reachable(run, steps, 1);
      OpenIsUnderlying(t);
    } else {
      hide Inv, Next, Init;
      run, steps := RefreshesForever(n - 1);
      var s := run[|steps|];
      var states, more, t := CanRefresh(s);
      PathJoined(run[0], run, steps, s, states, more, t);
      run, steps := run + states[1..], steps + more;
    }
  }

  /** A resolver that is open or being built can report at any time. */
  lemma ReportsAreNotRefused(s: State)
    requires Inv(s) && (Open(s) != {} || s.place == FirstBuild || s.place == Building)
    ensures exists t :: Next(s, CallEnters, t) && t == s.(calls := s.calls + multiset{Call(s.gen, false)})
  {
    hide Timing;
    OpenIsUnderlying(s);
    assert CanCall(s);
    assert Next(s, CallEnters, s.(calls := s.calls + multiset{Call(s.gen, false)}));
  }

  /** A callback in progress can be accepted and can be rejected, and once accepted it sends without waiting. */
  lemma CallbacksNeverBlock(s: State, c: Call)
    requires Generations(s) && c in s.calls
    ensures !c.accepted ==>
              exists t :: Next(s, CallAccepted, t) && t.calls == s.calls - multiset{c} + multiset{Call(c.gen, true)} && c.gen in t.accepted
    ensures !c.accepted ==> exists t :: Next(s, CallRejected, t) && t == s.(calls := s.calls - multiset{c})
    ensures c.accepted ==> exists t :: Next(s, CallSends, t) && t.calls == s.calls - multiset{c} && t.updates == Some(c.gen)
  {
    assert c == Call(s.gen, c.accepted);
    if c.accepted {
      assert Next(s, CallSends, s.(calls := s.calls - multiset{c}, updates := Some(c.gen)));
    } else {
      assert Next(s, CallAccepted, s.(calls := s.calls - multiset{c} + multiset{Call(c.gen, true)}, accepted := s.accepted + {c.gen}));
      assert Next(s, CallRejected, s.(calls := s.calls - multiset{c}));
    }
  }

  /** Once the resolver is returned, hints can always be given, a waiting loop can take one, and `Close` can be called. */
  lemma HintsAndCloseAreNotRefused(s: State)
    requires s.place != FirstBuild && s.place != NeverStarted
    ensures exists t :: Next(s, HintArrives, t) && t == s.(hints := true)
    ensures s.place == Selecting && s.hints ==> exists t :: Next(s, TakeHint, t) && t == s.(hints := false)
    ensures s.once == NotCalled ==> exists t :: Next(s, CloseCalled, t) && t == s.(once := Running, stop := true)
  {
    assert Next(s, HintArrives, s.(hints := true));
    if s.place == Selecting && s.hints {
      assert Next(s, TakeHint, s.(hints := false));
    }
    if s.once == NotCalled {
      assert Next(s, CloseCalled, s.(once := Running, stop := true));
    }
  }

  /** A build whose callbacks have ended can fail: the first one ends it all, a later one leaves an armed timer. */
  lemma BuildsMayFail(s: State)
    requires Inv(s) && s.calls == multiset{}
    ensures s.place == FirstBuild ==> exists t :: Next(s, FirstBuildFails, t) && t.place == NeverStarted && t.built == s.built
    ensures s.place == Building ==>
              exists t :: Next(s, BuildFails, t) && t.place == Selecting && t.armed && Open(t) == {} && t.built == s.built && t.gen == s.gen
  {
    if s.place == FirstBuild {
      assert Next(s, FirstBuildFails, s.(place := NeverStarted));
    }
    if s.place == Building {
      var t := s.(place := Selecting, armed := true);
      assert Next(s, BuildFails, t);
      hide Next;
      StepKeepsInv(s, BuildFails, t);
      OpenIsUnderlying(t);
    }
  }

  /** Only a firing timer and a leaving loop disarm the timer; only a token taken and a failed build arm it. */
  lemma TimerChanges(s: State, step: Step, t: State)
    requires Next(s, step, t)
    ensures s.armed && !t.armed ==> step == TimerFires || step == TimerStopped
    ensures !s.armed && t.armed ==> step == TakeUpdate || step == BuildFails
  {
  }

  /** Tokens come from callbacks and go to the loop; a hint stays until it is taken; stop is set once. */
  lemma ChannelChanges(s: State, step: Step, t: State)
    requires Next(s, step, t)
    ensures s.updates != t.updates ==> if t.updates.Some? then step == CallSends else step == TakeUpdate || step == Drained
    ensures s.hints != t.hints ==> if t.hints then step == HintArrives else step == TakeHint
    ensures s.stop != t.stop ==> t.stop && step == CloseCalled
  {
  }

  // ---------------------------------------------------------------- Close returns

  /** Steps that do not bring `Close` nearer: new callbacks, hints, and the loop's choice of another select case. */
  predicate Distracts(step: Step) {
    step == CallEnters || step == HintArrives || step == TakeHint || step == TakeUpdate || step == TimerFires
  }

  /** Steps left for the loop once it is asked to stop. */
  function PlaceRank(p: Place): nat {
    match p
    case Retiring => 7
    case Draining => 6
    case Building => 5
    case Selecting => 4
    case StoppingTimer => 3
    case ClosingLast => 2
    case Finishing => 1
    case _ => 0
  }

  function CallRank(calls: multiset<Call>, gen: nat): nat { 2 * calls[Call(gen, false)] + calls[Call(gen, true)] }

  /** All steps left until `Close` has returned; a callback not yet accepted may take two. */
  function Rank(s: State): nat {
    CallRank(s.calls, s.gen) + PlaceRank(s.place) + if s.once == Running then 1 else 0
  }

  /** How much a step can add to what is left: a callback, or one more round of the timer case. */
  function Adds(step: Step): nat { if step == CallEnters then 2 else if step == TimerFires then 3 else 0 }

  lemma CallRanks(calls: multiset<Call>, gen: nat)
    ensures CallRank(calls + multiset{Call(gen, false)}, gen) == CallRank(calls, gen) + 2
    ensures Call(gen, false) in calls ==> CallRank(calls - multiset{Call(gen, false)}, gen) < CallRank(calls, gen)
    ensures Call(gen, false) in calls ==>
              CallRank(calls - multiset{Call(gen, false)} + multiset{Call(gen, true)}, gen) < CallRank(calls, gen)
    ensures Call(gen, true) in calls ==> CallRank(calls - multiset{Call(gen, true)}, gen) < CallRank(calls, gen)
  {
  }

  lemma CallLowersRank(s: State, step: Step, t: State)
    requires IsCallStep(step) && Next(s, step, t)
    ensures t.place == s.place && t.once == s.once && t.stop == s.stop
    ensures if step == CallEnters then CallRank(t.calls, t.gen) == CallRank(s.calls, s.gen) + 2
            else CallRank(t.calls, t.gen) < CallRank(s.calls, s.gen)
  {
    hide CallRank, CanCall;
    CallRanks(s.calls, s.gen);
    match step
    case CallEnters => assert t.calls == s.calls + multiset{Call(s.gen, false)};
    case CallAccepted => assert t.calls == s.calls - multiset{Call(s.gen, false)} + multiset{Call(s.gen, true)};
    case CallRejected => assert t.calls == s.calls - multiset{Call(s.gen, false)};
    case CallSends => assert t.calls == s.calls - multiset{Call(s.gen, true)};
  }

  /** The part of the rank that is the loop's and `Close`'s own. */
  function LoopRank(s: State): nat { PlaceRank(s.place) + if s.once == Running then 1 else 0 }

  lemma OtherStepKeepsCalls(s: State, step: Step, t: State)
    requires !IsCallStep(step) && Next(s, step, t)
    ensures t.calls == s.calls && (t.gen == s.gen || (step == Drained && s.place == Draining)) && (s.stop ==> t.stop)
  {
  }

  lemma DistractionAdds(s: State, step: Step, t: State)
    requires !IsCallStep(step) && Distracts(step) && Next(s, step, t)
    ensures LoopRank(t) == LoopRank(s) + Adds(step)
  {
  }

  lemma LoopLowersRank(s: State, step: Step, t: State)
    requires !IsCallStep(step) && !Distracts(step) && Shutdown(s) && s.stop && Next(s, step, t)
    ensures LoopRank(t) < LoopRank(s)
  {
  }

  /** Once asked to stop, every step but the distracting ones brings the end nearer, and those put it off by a fixed amount. */
  lemma StepLowersRank(s: State, step: Step, t: State)
    requires Inv(s) && s.stop && Next(s, step, t)
    ensures t.stop
    ensures Distracts(step) ==> Rank(t) == Rank(s) + Adds(step)
    ensures !Distracts(step) ==> Rank(t) < Rank(s)
  {
    hide Next, PlaceRank, Ownership, Generations, Timing, Shutdown;
    if IsCallStep(step) {
      CallLowersRank(s, step, t);
    } else {
      OtherStepKeepsCalls(s, step, t);
      if Distracts(step) {
        DistractionAdds(s, step, t);
      } else {
        LoopLowersRank(s, step, t);
      }
      if step == Drained && s.place == Draining {
        NoCallsWhileDraining(s);
      }
    }
  }

  lemma NoCallsWhileDraining(s: State)
    requires Inv(s) && s.place == Draining
    ensures Quiet(s)
  {
    hide Timing, Shutdown;
    assert !CanCall(s);
    if c :| c in s.calls {
      assert false;
    }
  }

  /** While `Close` waits, some step that brings it nearer is possible: callbacks never wait for the loop. */
  lemma Nearer(s: State) returns (step: Step, t: State)
    requires Inv(s) && s.once == Running
    ensures !Distracts(step) && Next(s, step, t)
  {
    if c :| c in s.calls {
      assert c.gen == s.gen;
      if c.accepted {
        step, t := CallSends, s.(calls := s.calls - multiset{c}, updates := if s.updates.None? then Some(s.gen) else s.updates);
      } else {
        step, t := CallRejected, s.(calls := s.calls - multiset{c});
      }
    } else {
      assert Quiet(s);
      step, t := Advance(s);
    }
  }

  lemma Advance(s: State) returns (step: Step, t: State)
    requires Inv(s) && s.once == Running && Quiet(s)
    ensures !Distracts(step) && Next(s, step, t)
  {
    var closed := if s.underlying.Some? then s.closed + multiset{s.underlying.value} else s.closed;
    match s.place
    case Retiring => step, t := OldClosed, s.(place := Draining, underlying := None, closed := closed);
    case Draining => step, t := Drained, s.(place := Building, updates := None, gen := s.gen + 1);
    case Building => step, t := Built, s.(place := Selecting, underlying := Some(s.gen), built := s.built + {s.gen});
    case Selecting => step, t := TakeStop, s.(place := StoppingTimer);
    case StoppingTimer => step, t := TimerStopped, s.(place := ClosingLast, armed := false);
    case ClosingLast => step, t := LastClosed, s.(place := Finishing, underlying := None, closed := closed);
    case Finishing => step, t := DoneSignalled, s.(place := Finished, done := true);
    case Finished => step, t := CloseReturns, s.(once := Returned);
  }

  /** What the steps from the k-th up to the j-th add to and take off the rank. */
  function Added(steps: seq<Step>, k: nat, j: nat): nat
    requires k <= j <= |steps|
    decreases j
  {
    if k == j then 0 else Added(steps, k, j - 1) + Adds(steps[j - 1])
  }
  function Progress(steps: seq<Step>, k: nat, j: nat): nat
    requires k <= j <= |steps|
    decreases j
  {
    if k == j then 0 else Progress(steps, k, j - 1) + if Distracts(steps[j - 1]) then 0 else 1
  }

  /**
   In every run, after `Close` is called, the steps that are not distracting are bounded by what was left when it
   was called and by how often callbacks started and the timer case was chosen since.
   */
  lemma {:induction false} ProgressBounded(run: seq<State>, steps: seq<Step>, k: nat, j: nat)
    requires IsRun(run, steps) && k <= j < |run| && run[k].stop
    ensures run[j].stop && Progress(steps, k, j) + Rank(run[j]) <= Rank(run[k]) + Added(steps, k, j)
    decreases j
  {
    hide Inv, Next, Rank, Distracts, Adds;
    if k < j {
      ProgressBounded(run, steps, k, j - 1);
      Reachable(run, steps, j - 1);
      StepLowersRank(run[j - 1], steps[j - 1], run[j]);
    }
  }

  lemma {:induction false} OnlyProgress(steps: seq<Step>, k: nat, j: nat)
    requires k <= j <= |steps| && forall i | k <= i < j :: !Distracts(steps[i])
    ensures Added(steps, k, j) == 0 && Progress(steps, k, j) == j - k
    decreases j
  {
    if k < j {
      OnlyProgress(steps, k, j - 1);
    }
  }

  /**
   `Close` returns in every run in which the distracting steps end: from where they end at most `Rank` steps
   follow, and a run that has come to a stop there has returned from `Close`.
   */
  lemma CloseReturnsOnceQuiet(run: seq<State>, steps: seq<Step>, k: nat)
    requires IsRun(run, steps) && k < |run| && run[k].stop
    requires forall i | k <= i < |steps| :: !Distracts(steps[i])
    ensures |steps| - k <= Rank(run[k])
    ensures (forall step, t :: !Distracts(step) ==> !Next(run[|steps|], step, t)) ==> run[|steps|].once == Returned
  {
    hide Next, Rank;
    ProgressBounded(run, steps, k, |steps|);
    OnlyProgress(steps, k, |steps|);
    Reachable(run, steps, |steps|);
    if run[|steps|].once == Running {
      var step, t := Nearer(run[|steps|]);
    }
  }

  /** `Close` can return within `n` steps, none of them distracting. */
  ghost predicate CanReturn(s: State, n: nat)
    decreases n
  {
    s.once == Returned ||
    (n > 0 && exists step, t :: !Distracts(step) && Next(s, step, t) && CanReturn(t, n - 1))
  }

  /** From every state in which `Close` waits, it can return: callbacks never wait for the loop they may be blocking. */
  lemma {:induction false} CloseCanReturn(s: State)
    requires Inv(s) && s.once == Running
    ensures CanReturn(s, Rank(s))
    decreases Rank(s)
  {
    hide Inv, Next, Rank, Distracts, CanReturn;
    var step, t := NearerStep(s);
    if t.once == Running {
      CloseCanReturn(t);
      ReturnsWithin(t, Rank(t), Rank(s) - 1);
    } else {
      HasReturned(t, Rank(s) - 1);
    }
    ReturnsAfter(s, step, t, Rank(s) - 1);
  }

  lemma HasReturned(s: State, n: nat)
    requires s.once == Returned
    ensures CanReturn(s, n)
  {
  }

  lemma ReturnsAfter(s: State, step: Step, t: State, n: nat)
    requires !Distracts(step) && Next(s, step, t) && CanReturn(t, n)
    ensures CanReturn(s, n + 1)
  {
    hide Next, Distracts;
  }

  lemma NearerStep(s: State) returns (step: Step, t: State)
    requires Inv(s) && s.once == Running
    ensures !Distracts(step) && Next(s, step, t) && Inv(t) && Rank(t) < Rank(s)
    ensures t.once == Running || t.once == Returned
  {
    step, t := Nearer(s);
    StepLowersRank(s, step, t);
    StepKeepsInv(s, step, t);
    assert t.once != NotCalled by { hide Next, Ownership, Generations, Timing; }
  }

  lemma {:induction false} ReturnsWithin(s: State, m: nat, n: nat)
    requires m <= n && CanReturn(s, m)
    ensures CanReturn(s, n)
    decreases m
  {
    hide Next;
    if s.once != Returned {
      var step, t :| !Distracts(step) && Next(s, step, t) && CanReturn(t, m - 1);
      ReturnsWithin(t, m - 1, n - 1);
    }
  }

  /** In every run, wherever `Close` has been called, it can still return. */
  lemma NoDeadlock(run: seq<State>, steps: seq<Step>, k: nat)
    requires IsRun(run, steps) && k < |run| && run[k].once == Running
    ensures CanReturn(run[k], Rank(run[k]))
  {
    hide Inv, CanReturn;
    Reachable(run, steps, k);
    CloseCanReturn(run[k]);
  }
}
