/**
 The two wall-clock guarantees of the playback life cycle, over whole sessions: when the stretch
 actuators are held off, and that sustained under-delivery is noticed.
 */
module PlaybackGuards {
  import opened Wrappers
  import opened ReorderRing
  import opened PlaybackStep
  import opened PlaybackRuns
  import opened PlaybackSessions
  import FlowState

  type Tick = FlowState.Tick

  // ----- the recovery guard -----

  // The callback plays its first real frame after a starvation, on a link that is guarded at all.
  ghost predicate Recovers(m: Player, link: NetworkLink, fr: Frame)
    requires m.ring.WellFormed()
  {
    ProcessNextFrame(m, link, fr).1.Played? && m.flow.starvationCount > 0 && !fr.tcpMode
  }

  // What no phase before playing touches, once the guard was ticked.
  ghost predicate GuardKept(a: Flow, b: Flow) {
    b.recoveryStartedAt == a.recoveryStartedAt && b.starvationCount == a.starvationCount
  }

  lemma PrepareGuards(m: Player, fr: Frame)
    requires m.ring.WellFormed()
    ensures GuardKept(FlowState.TickRecovery(m.flow, fr.now), Prepare(m, fr).flow)
  {
  }

  lemma ServeGuards(m: Player, link: NetworkLink, fr: Frame)
    requires m.ring.WellFormed()
    ensures var (n, ended) := ServePrebuffering(m, link, fr);
            && n.flow.recoveryStartedAt == m.flow.recoveryStartedAt
            && (ended.None? ==> GuardKept(m.flow, n.flow))
            && (ended.Some? ==> !ended.value.Played?)
  {
  }

  lemma ApproachGuards(m: Player, link: NetworkLink, fr: Frame)
    requires m.ring.WellFormed()
    ensures GuardKept(m.flow, Approach(m, link, fr).flow)
  {
    DepthFlow(m, fr);
    GapFlow(StaticFlush(StartupFlush(m, fr), fr), link, fr);
  }

  lemma DepthFlow(m: Player, fr: Frame)
    requires m.ring.WellFormed()
    ensures StartupFlush(m, fr).ring.WellFormed() && StaticFlush(StartupFlush(m, fr), fr).flow == m.flow
  {
    FlushMoves(m.(startupFlushPending := false), Max(Max(fr.target, fr.minDepth * 2), 8));
  }

  lemma GapFlow(m: Player, link: NetworkLink, fr: Frame)
    ensures GuardKept(m.flow, FastForwardOverGap(m, link, fr).flow)
  {
  }

  lemma PlayGuards(m: Player, fr: Frame)
    requires HasNext(m.ring)
    ensures var arms := m.flow.starvationCount > 0 && !fr.tcpMode;
            PlayNextFrame(m, fr).0.flow.recoveryStartedAt
            == if arms then FlowState.ArmRecoveryWindow(m.flow, fr.now).recoveryStartedAt else m.flow.recoveryStartedAt
  {
  }

  lemma MissingGuards(m: Player, link: NetworkLink, fr: Frame)
    ensures HandleMissingFrame(m, link, fr).0.flow.recoveryStartedAt == m.flow.recoveryStartedAt
    ensures !HandleMissingFrame(m, link, fr).1.Played?
  {
  }

  /** A callback steps the guard window by its time and by whether it recovers from a starvation, and by
      nothing else: neither flushes nor skips, holds nor resets touch it. */
  lemma GuardOfCallback(m: Player, link: NetworkLink, fr: Frame)
    requires m.ring.WellFormed()
    ensures ProcessNextFrame(m, link, fr).0.flow.recoveryStartedAt
            == FlowState.GuardStep(m.flow.recoveryStartedAt, FlowState.Tick(fr.now, Recovers(m, link, fr)))
  {
    PrepareGuards(m, fr);
    var prepared := Prepare(m, fr);
    ServeGuards(prepared, link, fr);
    ServedMoves(m, link, fr);
    var (served, ended) := ServePrebuffering(prepared, link, fr);
    FlowState.GuardStepIsTickAndArm(m.flow, FlowState.Tick(fr.now, Recovers(m, link, fr)));
    if ended.None? {
      ApproachGuards(served, link, fr);
      var ready := Approach(served, link, fr);
      if HasNext(ready.ring) {
        PlayGuards(ready, fr);
      } else {
        MissingGuards(ready, link, fr);
      }
    }
  }

  /** While the guard is on, a callback takes the one frame it plays and nothing else. */
  lemma GuardedIsVerbatim(m: Player, link: NetworkLink, fr: Frame)
    requires m.ring.WellFormed()
    ensures var (n, o) := ProcessNextFrame(m, link, fr);
            o.Played? && !FlowState.StretchAllowed(n.flow, fr.now) ==> |o.emitted| == 1 && o.shed == []
  {
    ServedMoves(m, link, fr);
    var (served, ended) := ServePrebuffering(Prepare(m, fr), link, fr);
    if ended.None? {
      ApproachMoves(served, link, fr);
      MissingMoves(Approach(served, link, fr), link, fr);
    }
  }

  // The callbacks of a session as the guard sees them.
  ghost function Ticks(m: Player, link: NetworkLink, events: seq<Event>): seq<Tick>
    requires Steady(m, link)
  {
    if events == [] then []
    else
      var front, e := events[..|events| - 1], events[|events| - 1];
      Ticks(m, link, front)
      + if e.Callback? then [FlowState.Tick(e.fr.now, Recovers(PlayAll(m, link, front), link, e.fr))] else []
  }

  // No callback of the session may stretch.
  ghost predicate NeverStretches(m: Player, link: NetworkLink, events: seq<Event>)
    requires Steady(m, link)
  {
    events == [] ||
    (var front, e := events[..|events| - 1], events[|events| - 1];
     && NeverStretches(m, link, front)
     && (e.Callback? ==> !FlowState.StretchAllowed(PlayAll(m, link, events).flow, e.fr.now)))
  }

  lemma {:induction false} GuardOfSession(m: Player, link: NetworkLink, events: seq<Event>)
    requires Steady(m, link)
    ensures PlayAll(m, link, events).flow.recoveryStartedAt
            == FlowState.GuardAfter(m.flow.recoveryStartedAt, Ticks(m, link, events))
    ensures NeverStretches(m, link, events)
            <==> FlowState.SuppressedThroughout(m.flow.recoveryStartedAt, Ticks(m, link, events))
  {
    if events != [] {
      var front, e := events[..|events| - 1], events[|events| - 1];
      GuardOfSession(m, link, front);
      if e.Callback? {
        GuardOfCallback(PlayAll(m, link, front), link, e.fr);
        var ticks := Ticks(m, link, events);
        assert ticks[..|ticks| - 1] == Ticks(m, link, front);
      } else {
        assert Ticks(m, link, events) == Ticks(m, link, front);
      }
    }
  }

  /** The guard holds the actuators off for a whole session if and only if every callback that comes when
      a window is due, 500 ms after the one before it, is the first to play after a starvation. Any
      arrivals, any callback times, any targets, flushes, holds and resets may be mixed in. */
  lemma StretchingStaysOff(m: Player, link: NetworkLink, events: seq<Event>)
    requires Steady(m, link)
    ensures NeverStretches(m, link, events)
            <==> FlowState.EveryDueRecovers(m.flow.recoveryStartedAt, Ticks(m, link, events))
  {
    GuardOfSession(m, link, events);
    FlowState.SuppressedExactly(m.flow.recoveryStartedAt, Ticks(m, link, events));
  }

  // ----- under-delivery -----

  // Which callbacks concealed.
  function Concealing(outcomes: seq<Outcome>): seq<bool> {
    seq(|outcomes|, i requires 0 <= i < |outcomes| => !outcomes[i].Played?)
  }

  ghost predicate SameWindow(f: Flow, g: Flow) {
    f.windowCallbacks == g.windowCallbacks && f.concealCallbacks == g.concealCallbacks
  }

  predicate Rebuffers(verdict: Option<FlowState.Verdict>) {
    verdict.Some? && verdict.value.shouldRebuffer
  }

  // What a callback that does not end up held does to the concealment window.
  ghost predicate Observed(f: Flow, g: Flow, concealed: bool) {
    && SameWindow(g, FlowState.ObserveDelivery(f, concealed).0)
    && !Rebuffers(FlowState.ObserveDelivery(f, concealed).1)
  }

  lemma PlayObserves(m: Player, fr: Frame)
    requires HasNext(m.ring) && !m.flow.isPrebuffering && !PlayNextFrame(m, fr).0.flow.isPrebuffering
    ensures Observed(m.flow, PlayNextFrame(m, fr).0.flow, false)
  {
  }

  lemma MissingObserves(m: Player, link: NetworkLink, fr: Frame)
    requires !m.flow.isPrebuffering && !HandleMissingFrame(m, link, fr).0.flow.isPrebuffering
    ensures Observed(m.flow, HandleMissingFrame(m, link, fr).0.flow, true)
  {
  }

  lemma HeldIsHeld(m: Player, link: NetworkLink, fr: Frame)
    requires m.ring.WellFormed()
    ensures var (n, ended) := ServePrebuffering(m, link, fr);
            n.flow.isPrebuffering <==> ended.Some?
  {
  }

  lemma ObservedFrom(f: Flow, g: Flow, h: Flow, concealed: bool)
    requires SameWindow(f, g) && Observed(g, h, concealed)
    ensures Observed(f, h, concealed)
  {
  }

  // How a callback ends that is not held.
  ghost function Finish(m: Player, link: NetworkLink, fr: Frame): (Player, Outcome)
  {
    if HasNext(m.ring) then PlayNextFrame(m, fr) else HandleMissingFrame(m, link, fr)
  }

  lemma FinishObserves(m: Player, link: NetworkLink, fr: Frame)
    requires !m.flow.isPrebuffering && !Finish(m, link, fr).0.flow.isPrebuffering
    ensures Observed(m.flow, Finish(m, link, fr).0.flow, !Finish(m, link, fr).1.Played?)
  {
    if HasNext(m.ring) {
      PlayObserves(m, fr);
    } else {
      MissingObserves(m, link, fr);
    }
  }

  // Up to the release the counters stand still.
  lemma ServedSteady(m: Player, link: NetworkLink, fr: Frame)
    requires Steady(m, link)
    ensures var (served, ended) := ServePrebuffering(Prepare(m, fr), link, fr);
            ended.None? ==> Steady(served, link) && SameWindow(served.flow, m.flow) && !served.flow.isPrebuffering
  {
    PrepareKeepsCounters(m, fr);
    ServeCounters(Prepare(m, fr), link, fr);
  }

  /** A callback that leaves the playhead free was counted, as concealing exactly when it did not play, and
      completed no window whose verdict is to rebuffer. */
  lemma CallbackObserves(m: Player, link: NetworkLink, fr: Frame)
    requires Steady(m, link) && !ProcessNextFrame(m, link, fr).0.flow.isPrebuffering
    ensures var (n, o) := ProcessNextFrame(m, link, fr);
            Observed(m.flow, n.flow, !o.Played?)
  {
    ServedSteady(m, link, fr);
    HeldIsHeld(Prepare(m, fr), link, fr);
    var served := ServePrebuffering(Prepare(m, fr), link, fr).0;
    var ready := Approach(served, link, fr);
    ApproachCounters(served, link, fr);
    FinishObserves(ready, link, fr);
    ObservedFrom(m.flow, ready.flow, ProcessNextFrame(m, link, fr).0.flow, !ProcessNextFrame(m, link, fr).1.Played?);
  }

  // No callback of the session leaves the playhead held.
  ghost predicate NeverHolds(m: Player, link: NetworkLink, events: seq<Event>)
    requires Steady(m, link)
  {
    events == [] ||
    (NeverHolds(m, link, events[..|events| - 1])
     && (events[|events| - 1].Callback? ==> !PlayAll(m, link, events).flow.isPrebuffering))
  }

  ghost predicate NeverRebuffers(f: Flow, outcomes: seq<bool>) {
    forall n :: 0 < n <= |outcomes| ==> !Rebuffers(FlowState.LastVerdict(f, outcomes[..n]))
  }

  lemma NeverRebuffersSnoc(f: Flow, outcomes: seq<bool>, last: bool)
    requires NeverRebuffers(f, outcomes)
    requires !Rebuffers(FlowState.ObserveDelivery(FlowState.ObserveAll(f, outcomes), last).1)
    ensures NeverRebuffers(f, outcomes + [last])
    ensures FlowState.ObserveAll(f, outcomes + [last])
            == FlowState.ObserveDelivery(FlowState.ObserveAll(f, outcomes), last).0
  {
    var all := outcomes + [last];
    assert all[..|outcomes|] == outcomes;
    forall n | 0 < n <= |all|
      ensures !Rebuffers(FlowState.LastVerdict(f, all[..n]))
    {
      if n == |all| {
        assert all[..n] == all;
      } else {
        assert all[..n] == outcomes[..n];
      }
    }
  }

  // A player whose window is that of the outcomes so far, none of which completed a bad one.
  ghost predicate Tracks(m: Player, f: Flow, outcomes: seq<bool>) {
    SameWindow(m.flow, FlowState.ObserveAll(f, outcomes)) && NeverRebuffers(f, outcomes)
  }

  lemma OneMoreObserved(f: Flow, outcomes: seq<bool>, before: Player, after: Player, concealed: bool)
    requires Tracks(before, f, outcomes) && Observed(before.flow, after.flow, concealed)
    ensures Tracks(after, f, outcomes + [concealed])
  {
    NeverRebuffersSnoc(f, outcomes, concealed);
  }

  lemma ConcealingSnoc(outcomes: seq<Outcome>, o: Outcome)
    ensures Concealing(outcomes + [o]) == Concealing(outcomes) + [!o.Played?]
  {
  }

  lemma {:induction false} SessionObserves(m: Player, link: NetworkLink, events: seq<Event>)
    requires Steady(m, link) && NeverHolds(m, link, events)
    ensures Tracks(PlayAll(m, link, events), m.flow, Concealing(Outcomes(m, link, events)))
  {
    if events == [] {
      assert Concealing([]) == [];
    } else {
      var front, e := events[..|events| - 1], events[|events| - 1];
      SessionObserves(m, link, front);
      var before, outcomes := PlayAll(m, link, front), Outcomes(m, link, front);
      if e.Callback? {
        CallbackObserves(before, link, e.fr);
        var (after, o) := ProcessNextFrame(before, link, e.fr);
        ConcealingSnoc(outcomes, o);
        OneMoreObserved(m.flow, Concealing(outcomes), before, after, !o.Played?);
      } else {
        assert Outcomes(m, link, events) == outcomes;
      }
    }
  }

  /** Sustained under-delivery always holds the playhead: wherever a session begins, if among its first 99
      callbacks every 50 in a row conceal at least 25, some callback leaves the playhead held. Holds
      discard the window, but then there was a hold. */
  lemma DeficitHoldsThePlayhead(m: Player, link: NetworkLink, events: seq<Event>)
    requires Steady(m, link)
    requires var outcomes := Concealing(Outcomes(m, link, events));
             |outcomes| >= 99 && forall i :: 0 <= i <= 49 ==> FlowState.ConcealsIn(outcomes, i) >= 25
    ensures !NeverHolds(m, link, events)
  {
    DeficitRebuffers(m.flow, Concealing(Outcomes(m, link, events)));
    if NeverHolds(m, link, events) {
      SessionObserves(m, link, events);
    }
  }

  lemma DeficitRebuffers(f: Flow, outcomes: seq<bool>)
    requires f.WellFormed() && |outcomes| >= 99
    requires forall i :: 0 <= i <= 49 ==> FlowState.ConcealsIn(outcomes, i) >= 25
    ensures !NeverRebuffers(f, outcomes)
  {
    forall i | 0 <= i <= 49
      ensures FlowState.ConcealsIn(outcomes[..99], i) >= 25
    {
      assert outcomes[..99][i..i + 50] == outcomes[i..i + 50];
      assert FlowState.ConcealsIn(outcomes, i) >= 25;
    }
    var n := FlowState.DeficitIsNoticed(f, outcomes[..99]);
    assert outcomes[..99][..n] == outcomes[..n];
    assert Rebuffers(FlowState.LastVerdict(f, outcomes[..n]));
  }
}
