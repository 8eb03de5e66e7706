/** The trigger side of `Sync.tsx`: a single-flight gate around one sync
    cycle, the rule that exposes the trigger, and the interval and event
    activations layered on it. */
module SyncTrigger {
  import opened Common

  /** The provider's state: the `busyRef` lock, the `busy` state mirrored for
      rendering, the outcome of the last cycle and the time it ended. */
  datatype TriggerState = TriggerState(busyRef: bool, busy: bool, online: bool, lastSyncTime: Option<int>)

  /** The provider's initial state. */
  const Initial: TriggerState := TriggerState(false, false, false, None)

  /** How the awaited `syncTablesF(context)` settled. */
  datatype Outcome = Resolved | Rejected

  /** Messages passed to `notify`. */
  const Synchronized: string := "Synchronized"
  const Offline: string := "Offline"

  /** The state after a trigger call's synchronous part, and whether it
      started a cycle. */
  datatype Started = Started(state: TriggerState, started: bool)

  /** The synchronous part of `triggerSync`, up to the await: a trigger is
      refused, with no state change, while a cycle holds the lock or when
      sync is disabled; otherwise it takes the lock before awaiting. A
      refused trigger resolves to false. */
  function TryStart(s: TriggerState, syncEnabled: bool): (r: Started)
    ensures s.busyRef ==> r == Started(s, false)
    ensures !syncEnabled ==> r == Started(s, false)
    ensures r.started <==> !s.busyRef && syncEnabled
    ensures r.started ==> r.state.busyRef && r.state.busy && r.state.online == s.online && r.state.lastSyncTime == s.lastSyncTime
  {
    if s.busyRef then Started(s, false)
    else if !syncEnabled then Started(s, false)
    else Started(s.(busyRef := true, busy := true), true)
  }

  /** The end of a cycle. */
  datatype Finished = Finished(state: TriggerState, result: bool, notice: string)

  /** The part of `triggerSync` after the await: success sets online and
      notifies "Synchronized", failure clears online and notifies "Offline"
      without rethrowing; either way the lock is released and the last sync
      time becomes the clock in whole seconds, rounded down. */
  function Finish(s: TriggerState, outcome: Outcome, nowMs: int): (f: Finished)
    ensures f.result <==> outcome == Resolved
    ensures f.state.online <==> outcome == Resolved
    ensures f.notice == (if outcome == Resolved then Synchronized else Offline)
    ensures !f.state.busyRef && !f.state.busy
    ensures f.state.lastSyncTime.Some?
    ensures f.state.lastSyncTime.value * 1000 <= nowMs < (f.state.lastSyncTime.value + 1) * 1000
  {
    var released := s.(busyRef := false, busy := false, lastSyncTime := Some(nowMs / 1000));
    match outcome
    case Resolved => Finished(released.(online := true), true, Synchronized)
    case Rejected => Finished(released.(online := false), false, Offline)
  }

  /** `syncTablesF && !isBusy ? triggerSync : undefined`: the trigger is
      handed out only while sync is enabled and no cycle is running, and a
      trigger handed out in a consistent state does start a cycle. */
  function Exposed(syncEnabled: bool, s: TriggerState): (r: bool)
    ensures r ==> syncEnabled && !s.busy
    ensures r && s.busyRef == s.busy ==> TryStart(s, syncEnabled).started
    ensures syncEnabled && !s.busy ==> r
  {
    syncEnabled && !s.busy
  }

  // ---------------------------------------------------------------------
  // Interleavings of triggers and completions

  /** Something that happens to the provider: a trigger call (with whether a
      sync function exists at that moment), or the completion of the cycle
      in flight. */
  datatype Event = Trigger(syncEnabled: bool) | Complete(outcome: Outcome, nowMs: int)

  /** The provider plus bookkeeping: cycles in flight, cycles started, and
      the value each finished trigger call resolved to, in order. */
  datatype Machine = Machine(state: TriggerState, inFlight: nat, started: nat, results: seq<bool>)

  function Step(m: Machine, e: Event): Machine
  {
    match e
    case Trigger(enabled) =>
      var t := TryStart(m.state, enabled);
      if t.started then Machine(t.state, m.inFlight + 1, m.started + 1, m.results)
      else Machine(t.state, m.inFlight, m.started, m.results + [false])
    case Complete(outcome, nowMs) =>
      if m.inFlight == 0 then m
      else
        var f := Finish(m.state, outcome, nowMs);
        Machine(f.state, m.inFlight - 1, m.started, m.results + [f.result])
  }

  function Run(m: Machine, events: seq<Event>): Machine
    decreases |events|
  {
    if events == [] then m else Run(Step(m, events[0]), events[1..])
  }

  /** At most one cycle in flight, and the lock is held exactly while one is. */
  predicate SingleFlight(m: Machine)
  {
    m.inFlight <= 1 && (m.state.busyRef <==> m.inFlight == 1) && m.state.busy == m.state.busyRef
  }

  /** Single flight is kept by every step. */
  lemma StepKeepsSingleFlight(m: Machine, e: Event)
    requires SingleFlight(m)
    ensures SingleFlight(Step(m, e))
    ensures e.Trigger? && m.inFlight == 1 ==>
              Step(m, e) == m.(results := m.results + [false])
  {
  }

  /** Single flight holds however triggers and completions interleave. */
  lemma {:induction false} RunKeepsSingleFlight(m: Machine, events: seq<Event>)
    requires SingleFlight(m)
    ensures SingleFlight(Run(m, events))
    decreases |events|
  {
    if events != [] {
      StepKeepsSingleFlight(m, events[0]);
      RunKeepsSingleFlight(Step(m, events[0]), events[1..]);
    }
  }

  /** Two triggers in a row start exactly one cycle; the second resolves to
      false at once. */
  lemma SecondTriggerRejected(m: Machine)
    requires SingleFlight(m) && m.inFlight == 0
    ensures Run(m, [Trigger(true), Trigger(true)]).started == m.started + 1
    ensures Run(m, [Trigger(true), Trigger(true)]).inFlight == 1
    ensures Run(m, [Trigger(true), Trigger(true)]).results == m.results + [false]
  {
    var events := [Trigger(true), Trigger(true)];
    var m1 := Step(m, Trigger(true));
    var m2 := Step(m1, Trigger(true));
    assert events[1..] == [Trigger(true)];
    assert Run(m1, [Trigger(true)]) == Run(m2, []);
    assert m2.started == m.started + 1 && m2.inFlight == 1 && m2.results == m.results + [false];
  }

  // ---------------------------------------------------------------------
  // Activation sources

  /** `useIntervalSync`: the interval period in milliseconds, or None when no
      interval is installed. One is installed only when the trigger is
      exposed and the configured seconds are a positive number. */
  function IntervalPeriodMs(triggerExposed: bool, syncIntervalSeconds: Option<int>): (r: Option<int>)
    ensures r.Some? <==> triggerExposed && syncIntervalSeconds.Some? && syncIntervalSeconds.value > 0
    ensures r.Some? ==> r.value == syncIntervalSeconds.value * 1000 && r.value >= 1000
  {
    if triggerExposed && Truthy(syncIntervalSeconds) && syncIntervalSeconds.value > 0
    then Some(syncIntervalSeconds.value * 1000)
    else None
  }

  /** The "should be greater than 0" log line of `useIntervalSync`: written
      only for a negative interval; 0 disables the interval silently. */
  function IntervalWarning(triggerExposed: bool, syncIntervalSeconds: Option<int>): (r: bool)
    ensures r <==> syncIntervalSeconds.Some? && syncIntervalSeconds.value < 0
    ensures r ==> IntervalPeriodMs(triggerExposed, syncIntervalSeconds).None?
  {
    IntervalPeriodMs(triggerExposed, syncIntervalSeconds).None?
    && Truthy(syncIntervalSeconds) && syncIntervalSeconds.value <= 0
  }

  /** `useEventSync`: the effect runs on mount (`previous` is None) and
      whenever the condition changes; it calls the trigger when the
      condition holds and a trigger is exposed. So it fires only on mount or
      on a false-to-true change, never twice for one unchanged condition. */
  function EventSyncFires(previous: Option<bool>, condition: bool, triggerExposed: bool): (r: bool)
    ensures r ==> condition && triggerExposed
    ensures r ==> previous != Some(true)
    ensures condition && triggerExposed && previous != Some(true) ==> r
  {
    var effectRuns := previous.None? || previous.value != condition;
    effectRuns && condition && triggerExposed
  }
}
