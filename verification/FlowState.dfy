/**
 The playback life cycle: prebuffering, starvation, the hold for a reordered packet, the tumbling
 concealment window and the recovery guard. Times are nanoseconds on a monotonic clock.
 */
module FlowState {
  import opened Wrappers

  // 500 ms on the wall clock.
  const RECOVERY_GUARD: nat := 500000000
  // 500 ms in 10 ms callbacks.
  const CONCEAL_WINDOW: nat := 50
  const CONCEAL_REBUFFER_PCT: nat := 50

  datatype Flow = Flow(
    isPrebuffering: bool,
    missingCount: nat,
    starvationCount: nat,
    concealRun: nat,
    gapHoldCount: nat,
    starvationRecovery: nat,
    recoveryStartedAt: Option<nat>,
    concealCallbacks: nat,
    windowCallbacks: nat,
    starvationEvents: nat,
    episodeStartedAt: Option<nat>)
  {
    ghost predicate WellFormed() {
      concealCallbacks <= windowCallbacks < CONCEAL_WINDOW
    }
  }

  datatype Verdict = Verdict(concealPct: nat, callbacks: nat, shouldRebuffer: bool)

  const NEW_FLOW := Flow(true, 0, 0, 0, 0, 0, None, 0, 0, 0, None)

  // ----- the operations -----

  function ObserveDelivery(f: Flow, concealed: bool): (Flow, Option<Verdict>) {
    var callbacks := f.windowCallbacks + 1;
    var conceals := f.concealCallbacks + if concealed then 1 else 0;
    if callbacks < CONCEAL_WINDOW then
      (f.(windowCallbacks := callbacks, concealCallbacks := conceals), None)
    else
      var pct := conceals * 100 / callbacks;
      (DiscardWindow(f), Some(Verdict(pct, callbacks, pct >= CONCEAL_REBUFFER_PCT)))
  }

  function DiscardWindow(f: Flow): Flow {
    f.(concealCallbacks := 0, windowCallbacks := 0)
  }

  function NoteStarvationOnset(f: Flow, now: nat): (Flow, bool) {
    (f.(starvationEvents := f.starvationEvents + 1,
        episodeStartedAt := if f.episodeStartedAt.None? then Some(now) else f.episodeStartedAt),
     f.episodeStartedAt.None?)
  }

  /** Close an open episode and report how many onsets it had and how long it lasted. */
  function CloseStarvationEpisode(f: Flow, now: nat): (Flow, Option<(nat, nat)>) {
    if f.episodeStartedAt.None? then (f, None)
    else
      (f.(episodeStartedAt := None, starvationEvents := 0),
       Some((f.starvationEvents, SaturatingSub(now, f.episodeStartedAt.value))))
  }

  // A guard window is in force for 500 ms from the moment it opened.
  predicate InForce(started: Option<nat>, now: nat) {
    started.Some? && SaturatingSub(now, started.value) < RECOVERY_GUARD
  }

  predicate GuardOpen(f: Flow, now: nat) {
    InForce(f.recoveryStartedAt, now)
  }

  function TickRecovery(f: Flow, now: nat): Flow {
    f.(starvationRecovery := SaturatingSub(f.starvationRecovery, 1),
       recoveryStartedAt := if GuardOpen(f, now) then f.recoveryStartedAt else None)
  }

  function ArmRecoveryWindow(f: Flow, now: nat): Flow {
    if f.recoveryStartedAt.None? then f.(recoveryStartedAt := Some(now)) else f
  }

  predicate StretchAllowed(f: Flow, now: nat) {
    !GuardOpen(f, now)
  }

  function ResetOnStreamRestart(f: Flow): Flow {
    DiscardWindow(f.(isPrebuffering := true, missingCount := 0, starvationCount := 0,
                     concealRun := 0, gapHoldCount := 0))
  }

  // ----- the census of an episode -----

  function OnsetsAt(f: Flow, times: seq<nat>): Flow {
    if times == [] then f
    else NoteStarvationOnset(OnsetsAt(f, times[..|times| - 1]), times[|times| - 1]).0
  }

  lemma {:induction false} OnsetsAddUp(f: Flow, times: seq<nat>)
    requires f.episodeStartedAt.None? && f.starvationEvents == 0
    ensures OnsetsAt(f, times)
            == f.(starvationEvents := |times|, episodeStartedAt := if times == [] then None else Some(times[0]))
  {
    if times != [] {
      OnsetsAddUp(f, times[..|times| - 1]);
    }
  }

  /** Only the first onset of an episode is reported as one; closing the episode reports how many there were and
      how long it is since the first, and leaves nothing open; closing it again reports nothing. */
  lemma EpisodeCensus(f: Flow, times: seq<nat>, now: nat)
    requires f.episodeStartedAt.None? && f.starvationEvents == 0
    ensures NoteStarvationOnset(OnsetsAt(f, times), now).1 <==> times == []
    ensures CloseStarvationEpisode(OnsetsAt(f, times), now)
            == (f, if times == [] then None else Some((|times|, if now >= times[0] then now - times[0] else 0)))
  {
    OnsetsAddUp(f, times);
  }

  // ----- the tumbling window -----

  function ObserveAll(f: Flow, outcomes: seq<bool>): Flow {
    if outcomes == [] then f
    else ObserveDelivery(ObserveAll(f, outcomes[..|outcomes| - 1]), outcomes[|outcomes| - 1]).0
  }

  // The verdict given on the last of some callbacks, if any.
  function LastVerdict(f: Flow, outcomes: seq<bool>): Option<Verdict>
    requires outcomes != []
  {
    ObserveDelivery(ObserveAll(f, outcomes[..|outcomes| - 1]), outcomes[|outcomes| - 1]).1
  }

  function Conceals(outcomes: seq<bool>): nat {
    if outcomes == [] then 0
    else Conceals(outcomes[..|outcomes| - 1]) + if outcomes[|outcomes| - 1] then 1 else 0
  }

  // How many of the 50 callbacks from the i-th on conceal.
  function ConcealsIn(outcomes: seq<bool>, i: nat): nat
    requires i + 50 <= |outcomes|
  {
    Conceals(outcomes[i..i + 50])
  }

  lemma {:induction false} ConcealsBounded(outcomes: seq<bool>)
    ensures Conceals(outcomes) <= |outcomes|
  {
    if outcomes != [] {
      ConcealsBounded(outcomes[..|outcomes| - 1]);
    }
  }

  /** While a window fills, the counters count exactly the callbacks since it opened, and the rest
      of the flow is untouched. */
  lemma {:induction false} WindowCounts(f: Flow, outcomes: seq<bool>)
    requires f.WellFormed() && f.windowCallbacks + |outcomes| < CONCEAL_WINDOW
    ensures ObserveAll(f, outcomes)
            == f.(windowCallbacks := f.windowCallbacks + |outcomes|,
                  concealCallbacks := f.concealCallbacks + Conceals(outcomes))
  {
    if outcomes != [] {
      WindowCounts(f, outcomes[..|outcomes| - 1]);
    }
  }

  /** The callback that completes a window gives its verdict: the share concealed of exactly the
      last 50 callbacks, rebuffer if and only if that is at least half of them, and a window that
      starts from nothing. Nothing older than the window has any influence. */
  lemma WindowVerdict(f: Flow, outcomes: seq<bool>)
    requires f.WellFormed() && f.windowCallbacks + |outcomes| == 50
    ensures var conceals := f.concealCallbacks + Conceals(outcomes);
            && conceals <= 50
            && LastVerdict(f, outcomes) == Some(Verdict(2 * conceals, 50, conceals >= 25))
            && ObserveAll(f, outcomes) == DiscardWindow(f)
  {
    WindowCounts(f, outcomes[..|outcomes| - 1]);
    ConcealsBounded(outcomes);
    BoundaryVerdict(ObserveAll(f, outcomes[..|outcomes| - 1]), outcomes[|outcomes| - 1]);
  }

  lemma BoundaryVerdict(f: Flow, concealed: bool)
    requires f.windowCallbacks == 49
    ensures var conceals := f.concealCallbacks + if concealed then 1 else 0;
            ObserveDelivery(f, concealed) == (DiscardWindow(f), Some(Verdict(2 * conceals, 50, conceals >= 25)))
  {
    var conceals := f.concealCallbacks + if concealed then 1 else 0;
    var callbacks := f.windowCallbacks + 1;
    assert conceals * 100 / callbacks == conceals * 100 / 50 == 2 * conceals;
  }

  lemma {:induction false} ObserveAllConcat(f: Flow, a: seq<bool>, b: seq<bool>)
    ensures ObserveAll(f, a + b) == ObserveAll(ObserveAll(f, a), b)
    ensures b != [] ==> LastVerdict(f, a + b) == LastVerdict(ObserveAll(f, a), b)
  {
    if b == [] {
      assert a + b == a;
    } else {
      assert (a + b)[..|a + b| - 1] == a + b[..|b| - 1];
      ObserveAllConcat(f, a, b[..|b| - 1]);
    }
  }

  /** Sustained under-delivery is always noticed: at any phase of the window, a stretch of 99
      callbacks in which every 50 consecutive ones conceal at least 25 contains a callback whose
      verdict is to rebuffer. */
  lemma DeficitIsNoticed(f: Flow, outcomes: seq<bool>) returns (n: nat)
    requires f.WellFormed() && |outcomes| == 99
    requires forall i :: 0 <= i <= 49 ==> ConcealsIn(outcomes, i) >= 25
    ensures 0 < n <= 99
    ensures LastVerdict(f, outcomes[..n]).Some? && LastVerdict(f, outcomes[..n]).value.shouldRebuffer
  {
    if f.windowCallbacks == 0 {
      n := 50;
      assert outcomes[..50] == outcomes[0..50];
      assert ConcealsIn(outcomes, 0) >= 25;
      WindowVerdict(f, outcomes[..50]);
    } else {
      var first := CONCEAL_WINDOW - f.windowCallbacks;
      n := first + 50;
      assert ConcealsIn(outcomes, first) >= 25;
      WindowVerdict(f, outcomes[..first]);
      assert outcomes[..n] == outcomes[..first] + outcomes[first..n];
      ObserveAllConcat(f, outcomes[..first], outcomes[first..n]);
      WindowVerdict(DiscardWindow(f), outcomes[first..n]);
    }
  }

  // ----- the recovery guard -----

  // A callback as the guard sees it: when it runs, and whether it recovers from a starvation.
  datatype Tick = Tick(now: nat, recovers: bool)

  /** What one callback does to the guard window: an expired window is dropped, a recovery opens one
      unless one is open. */
  function GuardStep(started: Option<nat>, t: Tick): Option<nat> {
    if InForce(started, t.now) then started
    else if t.recovers then Some(t.now)
    else None
  }

  lemma GuardStepIsTickAndArm(f: Flow, t: Tick)
    ensures var ticked := TickRecovery(f, t.now);
            GuardStep(f.recoveryStartedAt, t)
            == (if t.recovers then ArmRecoveryWindow(ticked, t.now) else ticked).recoveryStartedAt
  {
  }

  function GuardAfter(started: Option<nat>, ticks: seq<Tick>): Option<nat> {
    if ticks == [] then started
    else GuardStep(GuardAfter(started, ticks[..|ticks| - 1]), ticks[|ticks| - 1])
  }

  // No callback of the run may stretch.
  predicate SuppressedThroughout(started: Option<nat>, ticks: seq<Tick>) {
    ticks == [] ||
    (SuppressedThroughout(started, ticks[..|ticks| - 1]) && InForce(GuardAfter(started, ticks), ticks[|ticks| - 1].now))
  }

  /** The last moment at which a window had to be opened so as to leave no callback without one. It is
      read off the clock alone. */
  function LastDue(started: Option<nat>, ticks: seq<Tick>): Option<nat> {
    if ticks == [] then started
    else
      var due, now := LastDue(started, ticks[..|ticks| - 1]), ticks[|ticks| - 1].now;
      if InForce(due, now) then due else Some(now)
  }

  // The next callback comes when 500 ms have passed since the last moment of that kind.
  predicate Due(started: Option<nat>, ticks: seq<Tick>, now: nat) {
    !InForce(LastDue(started, ticks), now)
  }

  predicate EveryDueRecovers(started: Option<nat>, ticks: seq<Tick>) {
    ticks == [] ||
    (EveryDueRecovers(started, ticks[..|ticks| - 1])
     && (Due(started, ticks[..|ticks| - 1], ticks[|ticks| - 1].now) ==> ticks[|ticks| - 1].recovers))
  }

  /** The actuators fail to come back in exactly one way: whatever the callback times are, stretching
      is off throughout a run if and only if every callback on which a window is due, 500 ms after the
      one before it, happens to recover from a starvation. */
  lemma {:induction false} SuppressedExactly(started: Option<nat>, ticks: seq<Tick>)
    ensures SuppressedThroughout(started, ticks) <==> EveryDueRecovers(started, ticks)
    ensures SuppressedThroughout(started, ticks) ==> GuardAfter(started, ticks) == LastDue(started, ticks)
  {
    if ticks != [] {
      SuppressedExactly(started, ticks[..|ticks| - 1]);
    }
  }

  /** Due moments are exactly those 500 ms or more after the one before: no recovery inside an open window ever
      extends it, and no window stays open longer. */
  lemma DueIsSpaced(started: Option<nat>, ticks: seq<Tick>, t: Tick)
    ensures var before, after := LastDue(started, ticks), LastDue(started, ticks + [t]);
            if before.Some? && t.now < before.value + 500000000 then after == before else after == Some(t.now)
  {
    assert (ticks + [t])[..|ticks|] == ticks;
  }

  /** Stretching is allowed exactly when no recovery window was opened in the last 500 ms. */
  lemma StretchAllowedExactly(f: Flow, now: nat)
    ensures StretchAllowed(f, now)
            <==> f.recoveryStartedAt.None? || now >= f.recoveryStartedAt.value + 500000000
  {
  }
}
