/**
 What one frame callback comes to, in plain numbers: how deep it leaves the buffer before it plays, how it
 ends, and where it leaves every counter of the life cycle. The phases of the callback are spread over many
 functions; here a callback is a table over its outcome.
 */
module CallbackOutcomes {
  import opened Wrappers
  import opened ReorderRing
  import opened PlaybackStep
  import opened PlaybackRuns
  import opened PlaybackSessions
  import FlowState

  // ----- how deep the buffer is -----

  /** A changed configuration holds the playhead and leaves at most one and a half new targets; no-buffer mode
      leaves at most one packet over the target; nothing else is discarded before the hold is decided. */
  lemma PreparedDepth(m: Player, fr: Frame)
    requires m.ring.WellFormed()
    ensures var n, most := Prepare(m, fr), Occupied(m);
            var reloaded := if fr.newTarget.Some? then Min(most, 3 * fr.newTarget.value / 2) else most;
            && Occupied(n) == (if fr.isNoBuffer then Min(reloaded, fr.target + 1) else reloaded)
            && n.flow.isPrebuffering == (m.flow.isPrebuffering || fr.newTarget.Some?)
            && n.startupFlushPending == m.startupFlushPending
  {
    var ticked := m.(flow := FlowState.TickRecovery(m.flow, fr.now));
    ReloadedDepth(ticked, fr);
    NoBufferDepth(ReloadConfig(ticked, fr), fr);
  }

  lemma ReloadedDepth(m: Player, fr: Frame)
    requires m.ring.WellFormed()
    ensures var n := ReloadConfig(m, fr);
            && Occupied(n) == (if fr.newTarget.Some? then Min(Occupied(m), 3 * fr.newTarget.value / 2) else Occupied(m))
            && n.flow.isPrebuffering == (m.flow.isPrebuffering || fr.newTarget.Some?)
            && n.startupFlushPending == m.startupFlushPending
  {
    if fr.newTarget.Some? {
      FlushIsExact(m.(flow := m.flow.(isPrebuffering := true)), fr.newTarget.value + fr.newTarget.value / 2);
    }
  }

  lemma NoBufferDepth(m: Player, fr: Frame)
    requires m.ring.WellFormed()
    ensures var n := NoBufferFlush(m, fr);
            && Occupied(n) == (if fr.isNoBuffer then Min(Occupied(m), fr.target + 1) else Occupied(m))
            && n.flow == m.flow && n.startupFlushPending == m.startupFlushPending
  {
    FlushIsExact(m, fr.target + 1);
  }

  // The playhead is held, and the buffer has not reached both depths that release it.
  ghost predicate Waits(m: Player, fr: Frame)
    requires m.ring.WellFormed()
  {
    && (m.flow.isPrebuffering || fr.newTarget.Some?)
    && (Occupied(Prepare(m, fr)) < fr.resumeFrames || Occupied(Prepare(m, fr)) < fr.minDepth)
  }

  // What the release, the startup flush and the static target leave of some depth.
  function Allowed(depth: nat, held: bool, starting: bool, fr: Frame): nat {
    var resumed := if held && !starting then Min(depth, Max(fr.bandHigh, Max(fr.resumeFrames, fr.minDepth))) else depth;
    var safe := Max(8, Max(fr.target, 2 * fr.minDepth));
    var started := if starting && resumed >= safe + 3 then safe else resumed;
    if fr.isStatic && started >= fr.target + 2 then fr.target else started
  }

  /** A callback gets as far as the hole exactly when the playhead does not wait, and by then the buffer has
      exactly the depth that the release, the startup flush and the static target allow. */
  lemma DepthAtHole(m: Player, link: NetworkLink, fr: Frame)
    requires m.ring.WellFormed()
    ensures Waits(m, fr) <==> AtHole(m, link, fr).None?
    ensures !Waits(m, fr) ==>
              var p := AtHole(m, link, fr).value;
              && Occupied(p) == Allowed(Occupied(Prepare(m, fr)), m.flow.isPrebuffering || fr.newTarget.Some?,
                                        m.startupFlushPending, fr)
              && !p.startupFlushPending
  {
    PreparedDepth(m, fr);
    var prepared := Prepare(m, fr);
    if !Waits(m, fr) {
      ReleasedDepth(prepared, link, fr);
      StartedDepth(ServePrebuffering(prepared, link, fr).0, fr);
    }
  }

  lemma ReleasedDepth(m: Player, link: NetworkLink, fr: Frame)
    requires m.ring.WellFormed()
    requires m.flow.isPrebuffering ==> Occupied(m) >= fr.resumeFrames && Occupied(m) >= fr.minDepth
    ensures var (n, ended) := ServePrebuffering(m, link, fr);
            && ended.None? && n.startupFlushPending == m.startupFlushPending
            && Occupied(n) == if m.flow.isPrebuffering && !m.startupFlushPending
                              then Min(Occupied(m), Max(fr.bandHigh, Max(fr.resumeFrames, fr.minDepth)))
                              else Occupied(m)
  {
    if m.flow.isPrebuffering && !m.startupFlushPending {
      FlushIsExact(m.(flow := m.flow.(isPrebuffering := false)), Max(fr.bandHigh, UnpauseThreshold(fr)));
    }
  }

  lemma StartedDepth(m: Player, fr: Frame)
    requires m.ring.WellFormed()
    ensures !AtDepth(m, fr).startupFlushPending
    ensures Occupied(AtDepth(m, fr)) == Allowed(Occupied(m), false, m.startupFlushPending, fr)
  {
    FlushIsExact(m.(startupFlushPending := false), Max(Max(fr.target, fr.minDepth * 2), 8));
    var started := StartupFlush(m, fr);
    FlushIsExact(started, fr.target);
  }

  // ----- how it ends -----

  // No more misses are borne: 300 on 2.4 GHz, 200 on an unknown link, 100 on any other.
  predicate AtLimit(link: NetworkLink, misses: nat) {
    misses >= 300 || (misses >= 200 && !link.Wifi2_4Ghz?)
    || (misses >= 100 && !link.Wifi2_4Ghz? && !link.WifiUnknown? && !link.Unknown?)
  }

  // The hold at a hole is over: it was waited for twice, on 2.4 GHz five times; or this is no-buffer mode.
  predicate HoldIsOver(link: NetworkLink, held: nat, isNoBuffer: bool) {
    isNoBuffer || held >= 5 || (held >= 2 && !link.Wifi2_4Ghz?)
  }

  /** A callback jumps across a hole exactly when it meets one with packets behind it and the hold is over, or
      what it takes for the far end is more than 20 numbers ahead. */
  lemma CrossesExactly(m: Player, link: NetworkLink, fr: Frame)
    requires Steady(m, link) && !Waits(m, fr)
    ensures AtHole(m, link, fr).Some?
    ensures var p := AtHole(m, link, fr).value;
            Crosses(m, link, fr)
            <==> Occupied(p) > 0 && !HasNext(p.ring)
                 && (HoldIsOver(link, m.flow.gapHoldCount, fr.isNoBuffer)
                     || (LowestAvailable(p.ring).1.Some?
                         && LowestAvailable(p.ring).1.value > p.ring.playhead + 20))
  {
    DepthAtHole(m, link, fr);
    var p := AtHole(m, link, fr).value;
    PrepareKeepsCounters(m, fr);
    ServeCounters(Prepare(m, fr), link, fr);
    var served := ServePrebuffering(Prepare(m, fr), link, fr).0;
    DepthKeepsFlow(served, fr);
    ServedMoves(m, link, fr);
    DepthMoves(served, fr);
    if Occupied(p) > 0 && !HasNext(p.ring) {
      FarEndIsAhead(p.ring);
    }
  }

  lemma DepthKeepsFlow(m: Player, fr: Frame)
    requires m.ring.WellFormed()
    ensures AtDepth(m, fr).flow == m.flow
  {
    FlushMoves(m.(startupFlushPending := false), Max(Max(fr.target, fr.minDepth * 2), 8));
  }

  lemma FarEndIsAhead(r: Ring)
    requires r.WellFormed() && r.packets != map[] && !HasNext(r)
    ensures LowestAvailable(r).1.Some? && LowestAvailable(r).1.value > r.playhead
  {
    SkipMoves(r);
  }

  /** How a callback ends. While the playhead waits, it is held, unless an empty buffer has used up the misses of
      the link. Otherwise a packet is played if it is next or the hole before it is crossed; if not, the stream is
      reset when the misses are used up, and else starves on an empty buffer and waits at a hole on any other. */
  lemma OutcomeIs(m: Player, link: NetworkLink, fr: Frame)
    requires Steady(m, link)
    ensures var (n, o) := ProcessNextFrame(m, link, fr);
            && (Waits(m, fr) ==>
                  && n.ring == (if o.Held? then Prepare(m, fr).ring else EMPTY_RING)
                  && if Occupied(Prepare(m, fr)) == 0 && AtLimit(link, m.flow.missingCount) then o.StreamReset?
                     else o.Held?)
            && (!Waits(m, fr) ==>
                  && AtHole(m, link, fr).Some?
                  && var p := AtHole(m, link, fr).value;
                     if HasNext(p.ring) || Crosses(m, link, fr) then o.Played?
                     else if AtLimit(link, m.flow.missingCount) then o.StreamReset?
                     else if Occupied(p) == 0 then o.Starved? else o.HoleWait?)
  {
    DepthAtHole(m, link, fr);
    WaitsOut(m, link, fr);
    if !Waits(m, fr) {
      PlaysIfItCan(ServePrebuffering(Prepare(m, fr), link, fr).0, link, fr);
    }
  }

  // What the hold comes to, and that nothing before it touches the counters.
  lemma WaitsOut(m: Player, link: NetworkLink, fr: Frame)
    requires Steady(m, link)
    ensures var (served, ended) := ServePrebuffering(Prepare(m, fr), link, fr);
            && (Waits(m, fr) <==> ended.Some?)
            && (ended.Some? ==>
                  && served.ring == (if ended.value.Held? then Prepare(m, fr).ring else EMPTY_RING)
                  && if Occupied(Prepare(m, fr)) == 0 && AtLimit(link, m.flow.missingCount) then ended.value.StreamReset?
                     else ended.value.Held?)
            && (ended.None? ==> served.flow.WellFormed() && CountersKept(m.flow, served.flow))
  {
    DepthAtHole(m, link, fr);
    PrepareKeepsCounters(m, fr);
    ServeCounters(Prepare(m, fr), link, fr);
    PrebufferingMoves(Prepare(m, fr), link, fr);
  }

  lemma PlaysIfItCan(m: Player, link: NetworkLink, fr: Frame)
    requires m.ring.WellFormed() && m.flow.WellFormed() && m.flow.missingCount <= MaxMissingFor(link)
    requires m.flow.gapHoldCount < ReorderToleranceFor(link, false)
    ensures var (p, o) := (AtDepth(m, fr), Proceed(m, link, fr).1);
            if HasNext(p.ring) || Jumps(p, link, fr) then o.Played?
            else if AtLimit(link, m.flow.missingCount) then o.StreamReset?
            else if Occupied(p) == 0 then o.Starved? else o.HoleWait?
  {
    var p := AtDepth(m, fr);
    DepthMoves(m, fr);
    DepthKeepsFlow(m, fr);
    GapMoves(p, link, fr);
    ApproachCounters(m, link, fr);
    HoleIsKept(p, link, fr);
    var ready := Approach(m, link, fr);
    if HasNext(ready.ring) {
      PlayMoves(ready, fr);
    } else {
      MissingCounters(ready, link, fr);
    }
  }

  // A step over a hole that does not jump leaves the packets and the playhead where they are.
  lemma HoleIsKept(m: Player, link: NetworkLink, fr: Frame)
    requires m.ring.WellFormed()
    ensures var n := FastForwardOverGap(m, link, fr);
            !Jumps(m, link, fr) ==>
              Occupied(n) == Occupied(m) && (HasNext(n.ring) <==> HasNext(m.ring))
  {
    if Occupied(m) > 0 && !HasNext(m.ring) {
      HoleStep(m, link, fr);
    }
  }

  // ----- where it leaves the counters -----

  /** The counters of misses, of concealment, of waiting at a hole and of starvation, by how the callback ended. */
  ghost predicate Counts(f: Flow, g: Flow, o: Outcome, empty: bool) {
    && g.missingCount == (if o.Played? || o.StreamReset? then 0
                          else if o.Held? && !empty then f.missingCount else f.missingCount + 1)
    && g.concealRun == (if o.Played? || o.StreamReset? then 0 else f.concealRun + 1)
    && g.gapHoldCount == (if o.HoleWait? then f.gapHoldCount + 1 else if o.Held? then f.gapHoldCount else 0)
    && g.starvationCount == (if o.Starved? then f.starvationCount + 1
                             else if o.HoleWait? || o.Held? then f.starvationCount else 0)
  }

  /** The concealment window and the hold. A callback that did not wait fills the window, and the fiftieth judges
      it; the playhead is held when half of those fifty concealed, or by the fifth starved callback in a row. */
  ghost predicate Judges(f: Flow, g: Flow, o: Outcome) {
    var conceals := f.concealCallbacks + if o.Played? then 0 else 1;
    if o.Held? || o.StreamReset? then
      g.isPrebuffering && g.windowCallbacks == 0 && g.concealCallbacks == 0
    else
      && g.windowCallbacks == (if f.windowCallbacks == 49 then 0 else f.windowCallbacks + 1)
      && g.concealCallbacks == (if f.windowCallbacks == 49 then 0 else conceals)
      && (g.isPrebuffering <==> (f.windowCallbacks == 49 && conceals >= 25) || (o.Starved? && f.starvationCount == 4))
  }

  // The recovery countdown: two targets, between 50 and 200 callbacks, from the first packet after a starvation.
  ghost predicate Recovering(f: Flow, g: Flow, o: Outcome, fr: Frame) {
    g.starvationRecovery
    == if o.Played? && f.starvationCount > 0 && !fr.tcpMode
       then (if fr.effectiveTarget < 25 then 50 else if fr.effectiveTarget > 100 then 200 else 2 * fr.effectiveTarget)
       else SaturatingSub(f.starvationRecovery, 1)
  }

  // No episode is open without an onset.
  predicate Recorded(f: Flow) {
    f.episodeStartedAt.None? ==> f.starvationEvents == 0
  }

  /** The episode of starvations: each first starved callback adds an onset and opens an episode if none is open;
      a packet played from more than the minimum depth closes it, and so does a reset. */
  ghost predicate Chronicles(f: Flow, g: Flow, o: Outcome, depth: nat, fr: Frame) {
    var onset := o.Starved? && f.starvationCount == 0;
    if o.StreamReset? || (o.Played? && depth > fr.minDepth) then
      g.episodeStartedAt.None? && g.starvationEvents == 0
    else
      && g.episodeStartedAt == (if onset && f.episodeStartedAt.None? then Some(fr.now) else f.episodeStartedAt)
      && g.starvationEvents == f.starvationEvents + if onset then 1 else 0
  }

  // All of it, from the flow before to the flow after.
  ghost predicate Tabulated(f: Flow, g: Flow, o: Outcome, empty: bool, depth: nat, fr: Frame) {
    && Counts(f, g, o, empty) && Judges(f, g, o) && Recovering(f, g, o, fr)
    && (Recorded(f) ==> Chronicles(f, g, o, depth, fr) && Recorded(g))
  }

  // What a callback has become of a flow when it comes to the hole.
  ghost predicate Reaches(f: Flow, g: Flow) {
    && g == FlowState.TickRecovery(f, 0).(isPrebuffering := false, gapHoldCount := g.gapHoldCount,
                                          recoveryStartedAt := g.recoveryStartedAt)
  }

  lemma PlayTabulates(f: Flow, m: Player, fr: Frame)
    requires f.WellFormed() && Reaches(f, m.flow) && HasNext(m.ring)
    ensures var (n, o) := PlayNextFrame(m, fr);
            Tabulated(f, n.flow, o, false, Occupied(m), fr)
  {
    var (n, o) := PlayNextFrame(m, fr);
    assert o.Played? && n.flow == Resumed(m, fr);
    ResumedTabulates(f, m, fr, o);
  }

  // The flow of a played packet, before a starvation is left behind.
  lemma ObservedPlay(f: Flow, m: Player, fr: Frame)
    requires f.WellFormed() && Reaches(f, m.flow)
    ensures var playing := m.(flow := m.flow.(gapHoldCount := 0, missingCount := 0, concealRun := 0));
            var full, closes := f.windowCallbacks == 49, Occupied(m) > fr.minDepth && f.episodeStartedAt.Some?;
            ObserveDelivery(playing, false, fr).flow
            == playing.flow.(windowCallbacks := if full then 0 else f.windowCallbacks + 1,
                             concealCallbacks := if full then 0 else f.concealCallbacks,
                             isPrebuffering := full && f.concealCallbacks >= 25,
                             episodeStartedAt := if closes then None else f.episodeStartedAt,
                             starvationEvents := if closes then 0 else f.starvationEvents)
  {
  }

  lemma ResumedTabulates(f: Flow, m: Player, fr: Frame, o: Outcome)
    requires f.WellFormed() && Reaches(f, m.flow) && o.Played?
    ensures Tabulated(f, Resumed(m, fr), o, false, Occupied(m), fr)
  {
    ObservedPlay(f, m, fr);
  }

  // The flow after a miss, before it is known whether the misses are used up.
  lemma ObservedMiss(f: Flow, m: Player, fr: Frame)
    requires f.WellFormed() && Reaches(f, m.flow)
    ensures var missing := m.(flow := m.flow.(missingCount := m.flow.missingCount + 1));
            var full, conceals := f.windowCallbacks == 49, f.concealCallbacks + 1;
            ObserveDelivery(missing, true, fr).flow
            == missing.flow.(windowCallbacks := if full then 0 else f.windowCallbacks + 1,
                             concealCallbacks := if full then 0 else conceals,
                             isPrebuffering := full && conceals >= 25)
  {
  }

  lemma StarvedTabulates(f: Flow, m: Player, fr: Frame)
    requires f.WellFormed() && Reaches(f, m.flow) && Occupied(m) == 0 && m.flow.gapHoldCount == f.gapHoldCount
    ensures var g := Missed(m, fr);
            && Tabulated(f, g.(concealRun := g.concealRun + 1), Starved, true, 0, fr)
            && Recovering(f, g, Starved, fr) && g.missingCount == f.missingCount + 1
  {
    ObservedMiss(f, m, fr);
  }

  lemma HoleTabulates(f: Flow, m: Player, fr: Frame)
    requires f.WellFormed() && Reaches(f, m.flow) && Occupied(m) > 0 && m.flow.gapHoldCount == f.gapHoldCount + 1
    ensures var g := Missed(m, fr);
            && Tabulated(f, g.(concealRun := g.concealRun + 1), HoleWait, false, 0, fr)
            && Recovering(f, g, HoleWait, fr) && g.missingCount == f.missingCount + 1
  {
    ObservedMiss(f, m, fr);
  }

  // A reset forgets everything but the guard and its countdown.
  lemma ResetTabulates(f: Flow, m: Player, o: Outcome, fr: Frame, empty: bool)
    requires Recovering(f, m.flow, o, fr) && !o.Played?
    requires Recorded(f) ==> Recorded(m.flow)
    ensures Tabulated(f, TriggerReset(m, fr.now).flow, StreamReset, empty, 0, fr)
  {
  }

  lemma MissTabulates(f: Flow, m: Player, link: NetworkLink, fr: Frame)
    requires f.WellFormed() && Reaches(f, m.flow)
    requires m.flow.gapHoldCount == if Occupied(m) > 0 then f.gapHoldCount + 1 else f.gapHoldCount
    ensures var (n, o) := HandleMissingFrame(m, link, fr);
            Tabulated(f, n.flow, o, Occupied(m) == 0, 0, fr)
  {
    var o := if Occupied(m) == 0 then Starved else HoleWait;
    if Occupied(m) == 0 {
      StarvedTabulates(f, m, fr);
    } else {
      HoleTabulates(f, m, fr);
    }
    ResetTabulates(f, m.(flow := Missed(m, fr)), o, fr, Occupied(m) == 0);
  }

  // The table of a callback that waits.
  lemma WaitTabulates(f: Flow, m: Player, link: NetworkLink, fr: Frame)
    requires m.ring.WellFormed() && m.flow.isPrebuffering
    requires Occupied(m) < UnpauseThreshold(fr)
    requires m.flow == FlowState.TickRecovery(f, fr.now).(isPrebuffering := true)
    ensures var (n, ended) := ServePrebuffering(m, link, fr);
            ended.Some? && Tabulated(f, n.flow, ended.value, Occupied(m) == 0, 0, fr)
  {
  }

  // Whether the buffer is empty matters to a held callback only, its depth to one that plays.
  lemma OnlyWhatMatters(f: Flow, g: Flow, o: Outcome, empty: bool, depth: nat, fr: Frame, nowEmpty: bool, nowDepth: nat)
    requires Tabulated(f, g, o, empty, depth, fr)
    requires o.Held? ==> nowEmpty == empty
    requires o.Played? ==> nowDepth == depth
    ensures Tabulated(f, g, o, nowEmpty, nowDepth, fr)
  {
  }

  // From where the playhead does not wait.
  lemma ProceedTabulates(f: Flow, m: Player, link: NetworkLink, fr: Frame)
    requires m.ring.WellFormed() && f.WellFormed() && m.flow.gapHoldCount < ReorderToleranceFor(link, false)
    requires Reaches(f, m.flow) && m.flow.gapHoldCount == f.gapHoldCount
    ensures var (n, o) := Proceed(m, link, fr);
            Tabulated(f, n.flow, o, n.ring.packets == map[], |n.ring.packets| + |TakenBy(o)|, fr)
  {
    var ready := Approach(m, link, fr);
    var (n, o) := Proceed(m, link, fr);
    ApproachReaches(f, m, link, fr);
    ApproachMoves(m, link, fr);
    if HasNext(ready.ring) {
      PlayTabulates(f, ready, fr);
      TakenFromDepth(ready, fr);
      OnlyWhatMatters(f, n.flow, o, false, Occupied(ready), fr, n.ring.packets == map[],
                      |n.ring.packets| + |TakenBy(o)|);
    } else {
      MissTabulates(f, ready, link, fr);
      OnlyWhatMatters(f, n.flow, o, Occupied(ready) == 0, 0, fr, n.ring.packets == map[],
                      |n.ring.packets| + |TakenBy(o)|);
    }
  }

  lemma TakenFromDepth(m: Player, fr: Frame)
    requires m.ring.WellFormed() && HasNext(m.ring)
    ensures var (n, o) := PlayNextFrame(m, fr);
            |n.ring.packets| + |TakenBy(o)| == Occupied(m)
  {
    PlayMoves(m, fr);
  }

  lemma ApproachReaches(f: Flow, m: Player, link: NetworkLink, fr: Frame)
    requires m.ring.WellFormed() && m.flow.gapHoldCount < ReorderToleranceFor(link, false)
    requires Reaches(f, m.flow) && m.flow.gapHoldCount == f.gapHoldCount
    ensures var n := Approach(m, link, fr);
            && Reaches(f, n.flow)
            && (!HasNext(n.ring) ==>
                  n.flow.gapHoldCount == if Occupied(n) > 0 then f.gapHoldCount + 1 else f.gapHoldCount)
  {
    var pinned := AtDepth(m, fr);
    DepthKeepsFlow(m, fr);
    DepthMoves(m, fr);
    GapCounters(pinned, link, fr);
    GapMoves(pinned, link, fr);
    HoleIsKept(pinned, link, fr);
    if Occupied(pinned) == 0 {
      assert FastForwardOverGap(pinned, link, fr) == pinned;
    }
  }

  lemma PreparedReaches(m: Player, fr: Frame)
    requires m.ring.WellFormed()
    ensures var g := Prepare(m, fr).flow;
            && g == FlowState.TickRecovery(m.flow, fr.now).(isPrebuffering := g.isPrebuffering)
            && Reaches(m.flow, g.(isPrebuffering := false))
  {
  }

  lemma ReleasedReaches(m: Player, link: NetworkLink, fr: Frame)
    requires m.ring.WellFormed()
    ensures var (n, ended) := ServePrebuffering(m, link, fr);
            ended.None? ==> n.flow == m.flow.(isPrebuffering := false)
  {
  }

  /** One callback, whatever it is told: every counter of the life cycle moves by how the callback ended, and by
      nothing else. */
  lemma CountersByOutcome(m: Player, link: NetworkLink, fr: Frame)
    requires Steady(m, link)
    ensures var (n, o) := ProcessNextFrame(m, link, fr);
            Tabulated(m.flow, n.flow, o, n.ring.packets == map[], |n.ring.packets| + |TakenBy(o)|, fr)
  {
    var prepared := Prepare(m, fr);
    var (n, o) := ProcessNextFrame(m, link, fr);
    PreparedDepth(m, fr);
    PreparedReaches(m, fr);
    DepthAtHole(m, link, fr);
    PrebufferingMoves(prepared, link, fr);
    if Waits(m, fr) {
      WaitTabulates(m.flow, prepared, link, fr);
      WaitsInPlace(prepared, link, fr);
      OnlyWhatMatters(m.flow, n.flow, o, Occupied(prepared) == 0, 0, fr, n.ring.packets == map[],
                      |n.ring.packets| + |TakenBy(o)|);
    } else {
      ReleasedReaches(prepared, link, fr);
      ProceedTabulates(m.flow, ServePrebuffering(prepared, link, fr).0, link, fr);
    }
  }

  lemma WaitsInPlace(m: Player, link: NetworkLink, fr: Frame)
    requires m.ring.WellFormed() && m.flow.isPrebuffering && Occupied(m) < UnpauseThreshold(fr)
    ensures var (n, ended) := ServePrebuffering(m, link, fr);
            ended == Some(Held) ==> n.ring == m.ring
  {
  }

  /** The startup flush stays pending exactly while callbacks wait; a packet played, or a reset, is all that ends
      a pending fade-in; and the jumps are counted one by one. */
  lemma FlagsByOutcome(m: Player, link: NetworkLink, fr: Frame)
    requires Steady(m, link)
    ensures var (n, o) := ProcessNextFrame(m, link, fr);
            && (n.startupFlushPending <==> m.startupFlushPending && Waits(m, fr))
            && (n.pendingGapFadein <==> m.pendingGapFadein && !o.Played? && !o.StreamReset?)
            && n.tally.playheadSkips == m.tally.playheadSkips + (if Crosses(m, link, fr) then 1 else 0)
            && n.tally.staleLagSum == m.tally.staleLagSum && n.tally.staleLagMax == m.tally.staleLagMax
  {
    PreparedDepth(m, fr);
    DepthAtHole(m, link, fr);
    PreparedFlags(m, fr);
    ServedFlags(Prepare(m, fr), link, fr);
    PrebufferingMoves(Prepare(m, fr), link, fr);
    if !Waits(m, fr) {
      ProceedFlags(ServePrebuffering(Prepare(m, fr), link, fr).0, link, fr);
    }
  }

  // Flags and counters that only the steps after the release touch.
  ghost predicate SameFlags(m: Player, n: Player) {
    && n.pendingGapFadein == m.pendingGapFadein && n.tally.playheadSkips == m.tally.playheadSkips
    && n.tally.staleLagSum == m.tally.staleLagSum && n.tally.staleLagMax == m.tally.staleLagMax
  }

  lemma FlushFlags(m: Player, flushTo: nat)
    requires m.ring.WellFormed()
    ensures SameFlags(m, FlushWithCrossfade(m, flushTo))
    ensures FlushWithCrossfade(m, flushTo).startupFlushPending == m.startupFlushPending
  {
  }

  lemma PreparedFlags(m: Player, fr: Frame)
    requires m.ring.WellFormed()
    ensures SameFlags(m, Prepare(m, fr))
  {
    var ticked := m.(flow := FlowState.TickRecovery(m.flow, fr.now));
    var reloaded := ReloadConfig(ticked, fr);
    if fr.newTarget.Some? {
      FlushFlags(ticked.(flow := ticked.flow.(isPrebuffering := true)), fr.newTarget.value + fr.newTarget.value / 2);
    }
    FlushFlags(reloaded, fr.target + 1);
  }

  lemma ServedFlags(m: Player, link: NetworkLink, fr: Frame)
    requires m.ring.WellFormed()
    ensures var (n, ended) := ServePrebuffering(m, link, fr);
            && n.startupFlushPending == m.startupFlushPending
            && (ended == Some(StreamReset) ==> !n.pendingGapFadein && n.tally == m.tally)
            && (ended != Some(StreamReset) ==> SameFlags(m, n))
  {
    FlushFlags(m.(flow := m.flow.(isPrebuffering := false)), Max(fr.bandHigh, UnpauseThreshold(fr)));
  }

  lemma ProceedFlags(m: Player, link: NetworkLink, fr: Frame)
    requires m.ring.WellFormed()
    ensures var (n, o) := Proceed(m, link, fr);
            && !n.startupFlushPending
            && (n.pendingGapFadein <==> m.pendingGapFadein && !o.Played? && !o.StreamReset?)
            && n.tally.playheadSkips == m.tally.playheadSkips + (if Jumps(AtDepth(m, fr), link, fr) then 1 else 0)
            && n.tally.staleLagSum == m.tally.staleLagSum && n.tally.staleLagMax == m.tally.staleLagMax
  {
    var pinned, ready := AtDepth(m, fr), Approach(m, link, fr);
    StartedDepth(m, fr);
    DepthFlags(m, fr);
    GapFlags(pinned, link, fr);
    ApproachMoves(m, link, fr);
    DepthMoves(m, fr);
    GapMoves(pinned, link, fr);
    if !HasNext(ready.ring) {
      MissingMoves(ready, link, fr);
    }
  }

  lemma DepthFlags(m: Player, fr: Frame)
    requires m.ring.WellFormed()
    ensures SameFlags(m, AtDepth(m, fr))
  {
    FlushMoves(m.(startupFlushPending := false), Max(Max(fr.target, fr.minDepth * 2), 8));
  }

  lemma GapFlags(m: Player, link: NetworkLink, fr: Frame)
    requires m.ring.WellFormed()
    ensures var n := FastForwardOverGap(m, link, fr);
            && n.startupFlushPending == m.startupFlushPending
            && n.pendingGapFadein == (m.pendingGapFadein || Jumps(m, link, fr))
            && n.tally.playheadSkips == m.tally.playheadSkips + (if Jumps(m, link, fr) then 1 else 0)
            && n.tally.staleLagSum == m.tally.staleLagSum && n.tally.staleLagMax == m.tally.staleLagMax
  {
  }

  // ----- which packets it takes -----

  predicate Lies(packets: map<nat, Packet>, seqNum: nat, p: Packet) {
    seqNum in packets && packets[seqNum] == p
  }

  /** Up to `count` packets from a number on, in order and without a gap, each while more than `limit` are left;
      and no fewer than that. */
  ghost predicate TakesRun(packets: map<nat, Packet>, from: nat, taken: seq<Packet>, count: nat, limit: nat) {
    && |taken| <= count
    && (forall i :: 0 <= i < |taken| ==> Lies(packets, from + i, taken[i]) && |packets| - i > limit)
    && (|taken| < count ==> |packets| - |taken| <= limit || from + |taken| !in packets)
  }

  // The packets taken so far, and the ring they leave.
  ghost predicate ShedSoFar(r: Ring, after: Ring, taken: seq<Packet>, count: nat, limit: nat) {
    && TakesRun(r.packets, r.playhead, taken, count, limit)
    && after.playhead == r.playhead + |taken| && after.initialized == r.initialized
    && Moves(r, after, |taken|)
  }

  lemma ShedOneMore(r: Ring, before: Ring, taken: seq<Packet>, count: nat, limit: nat)
    requires r.WellFormed() && ShedSoFar(r, before, taken, count, limit)
    requires |before.packets| > limit && HasNext(before)
    ensures var p := before.packets[before.playhead];
            PopNext(before).1 == Some(p) && ShedSoFar(r, PopNext(before).0, taken + [p], count + 1, limit)
  {
    PopMoves(before);
    MovesOn(r, before, PopNext(before).0, |taken|, 1);
    assert before.packets[before.playhead] == r.packets[r.playhead + |taken|];
    TakesOneMore(r.packets, r.playhead, taken, before.packets[before.playhead], count, limit);
  }

  lemma ShedNoMore(r: Ring, before: Ring, taken: seq<Packet>, count: nat, limit: nat)
    requires r.WellFormed() && ShedSoFar(r, before, taken, count, limit)
    requires |before.packets| <= limit || !HasNext(before)
    ensures ShedSoFar(r, before, taken, count + 1, limit)
  {
    assert before.playhead in before.packets <==> before.playhead in r.packets;
  }

  lemma {:induction false} ShedTakesRun(r: Ring, count: nat, limit: nat)
    requires r.WellFormed()
    ensures var (after, taken) := ShedPackets(r, count, limit);
            ShedSoFar(r, after, taken, count, limit)
  {
    if count == 0 {
      StandsStill(r);
    } else {
      ShedTakesRun(r, count - 1, limit);
      var (before, taken) := ShedPackets(r, count - 1, limit);
      if |before.packets| > limit && HasNext(before) {
        ShedOneMore(r, before, taken, count - 1, limit);
      } else {
        ShedNoMore(r, before, taken, count - 1, limit);
      }
    }
  }

  lemma TakesOneMore(packets: map<nat, Packet>, from: nat, taken: seq<Packet>, p: Packet, count: nat, limit: nat)
    requires TakesRun(packets, from, taken, count, limit) && |packets| - |taken| > limit
    requires from + |taken| in packets && p == packets[from + |taken|]
    ensures TakesRun(packets, from, taken + [p], count + 1, limit)
  {
    var more := taken + [p];
    forall i | 0 <= i < |more|
      ensures Lies(packets, from + i, more[i]) && |packets| - i > limit
    {
      if i < |taken| {
        assert more[i] == taken[i];
      }
    }
  }

  // The time-scaler may act: no recovery window was opened in the last 500 ms.
  predicate MayStretch(f: Flow, now: nat) {
    f.recoveryStartedAt.None? || now >= f.recoveryStartedAt.value + 500000000
  }

  /** What is played and what is shed, from the ring at whose playhead the packet lies: the packet and, where the
      time-scaler may act, what its splice asks for of the packets right behind it. */
  ghost predicate TakenFrom(r: Ring, f: Flow, fr: Frame, o: Outcome) {
    && o.Played? && r.playhead in r.packets
    && o.emitted != [] && o.emitted[0] == r.packets[r.playhead]
    && (!MayStretch(f, fr.now) || fr.splice.Verbatim? ==> |o.emitted| == 1 && o.shed == [])
    && (MayStretch(f, fr.now) && fr.splice.Shed? ==>
          && |o.emitted| == 1
          && TakesRun(Without(r.packets, r.playhead), r.playhead + 1, o.shed, fr.splice.count, fr.splice.highLimit))
    && (MayStretch(f, fr.now) && fr.splice.StageNext? ==>
          && o.shed == []
          && if r.playhead + 1 in r.packets then |o.emitted| == 2 && o.emitted[1] == r.packets[r.playhead + 1]
             else |o.emitted| == 1)
  }

  lemma PlayTakes(m: Player, fr: Frame)
    requires m.ring.WellFormed() && HasNext(m.ring)
    ensures var (n, o) := PlayNextFrame(m, fr);
            TakenFrom(m.ring, n.flow, fr, o)
  {
    var (n, o) := PlayNextFrame(m, fr);
    var popped := PopNext(m.ring).0;
    PopKeeps(m.ring);
    PlayMoves(m, fr);
    assert n.flow == Resumed(m, fr);
    FlowState.StretchAllowedExactly(n.flow, fr.now);
    var splice := if FlowState.StretchAllowed(n.flow, fr.now) then fr.splice else Verbatim;
    match splice {
      case Verbatim =>
      case Shed(count, highLimit) => ShedTakesRun(popped, count, highLimit);
      case StageNext =>
        ShedTakesRun(popped, 1, 0);
    }
  }

  /** A callback that plays takes exactly what its splice asks for, and only where no recovery window of the last
      500 ms forbids it. */
  lemma CallbackTakes(m: Player, link: NetworkLink, fr: Frame)
    requires Steady(m, link) && ProcessNextFrame(m, link, fr).1.Played?
    ensures AtHole(m, link, fr).Some?
    ensures var (n, o) := ProcessNextFrame(m, link, fr);
            TakenFrom(FastForwardOverGap(AtHole(m, link, fr).value, link, fr).ring, n.flow, fr, o)
  {
    ServedMoves(m, link, fr);
    var served := ServePrebuffering(Prepare(m, fr), link, fr).0;
    ApproachMoves(served, link, fr);
    var ready := Approach(served, link, fr);
    if HasNext(ready.ring) {
      PlayTakes(ready, fr);
    } else {
      MissingMoves(ready, link, fr);
    }
  }

  /** A stale packet lies one to 512 numbers behind the playhead, and is counted with exactly that lag; any other
      packet is not counted at all. */
  lemma StaleIsMeasured(m: Player, p: Packet)
    requires m.ring.WellFormed()
    ensures var n, lag := Ingest(m, p), m.ring.playhead - p.seqNum;
            if m.ring.initialized && 1 <= lag <= 512 then
              && n.ring == m.ring
              && n.tally == m.tally.(staleRejects := m.tally.staleRejects + 1, staleLagSum := m.tally.staleLagSum + lag,
                                     staleLagMax := if lag > m.tally.staleLagMax then lag else m.tally.staleLagMax)
            else
              n.tally == m.tally && p.seqNum in n.ring.packets
  {
  }
}
