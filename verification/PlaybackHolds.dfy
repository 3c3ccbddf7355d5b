/**
 When the playhead is held and when it is let go, how long a hole is waited for, and what the counters of the
 life cycle count, over whole sessions.
 */
module PlaybackHolds {
  import opened Wrappers
  import opened ReorderRing
  import opened PlaybackStep
  import opened PlaybackRuns
  import opened PlaybackSessions
  import opened CallbackOutcomes
  import FlowState

  // ----- starvation holds the playhead -----

  // Callbacks that need at least one packet to release a held playhead.
  ghost predicate NeedPackets(events: seq<Event>) {
    forall e :: e in events ==> e.Callback? && (e.fr.resumeFrames > 0 || e.fr.minDepth > 0)
  }

  // One of them picked up a changed configuration.
  ghost predicate Reloads(events: seq<Event>) {
    exists e :: e in events && e.Callback? && e.fr.newTarget.Some?
  }

  // The fiftieth callback of the window falls among the next `n`, and half of the fifty conceal when all of
  // those do.
  predicate WindowTurnsBad(f: Flow, n: nat) {
    f.windowCallbacks + n >= 50 && f.concealCallbacks + 50 - f.windowCallbacks >= 25
  }

  /** The reasons for which `n` callbacks on an empty buffer leave the playhead held: five of them starved in a
      row, a window turned bad, the misses were used up, or a changed configuration was picked up. */
  ghost predicate HoldsBy(m: Player, link: NetworkLink, events: seq<Event>) {
    || |events| >= 5
    || WindowTurnsBad(m.flow, |events|)
    || (|events| > 0 && AtLimit(link, m.flow.missingCount + |events| - 1))
    || Reloads(events)
  }

  // A player that starved on so many callbacks and is still not held.
  ghost predicate Starving(m: Player, n: Player, k: nat) {
    var w := m.flow.windowCallbacks + k;
    && !n.flow.isPrebuffering
    && n.flow.missingCount == m.flow.missingCount + k
    && n.flow.starvationCount == k
    && n.flow.windowCallbacks == (if w < 50 then w else w - 50)
    && n.flow.concealCallbacks == (if w < 50 then m.flow.concealCallbacks + k else w - 50)
  }

  // On an empty buffer a callback waits, starves, or resets the stream.
  lemma EmptyOutcome(m: Player, link: NetworkLink, fr: Frame)
    requires Steady(m, link) && m.ring.packets == map[] && (fr.resumeFrames > 0 || fr.minDepth > 0)
    ensures var (n, o) := ProcessNextFrame(m, link, fr);
            && n.ring.packets == map[]
            && (if AtLimit(link, m.flow.missingCount) then o.StreamReset?
                else if m.flow.isPrebuffering || fr.newTarget.Some? then o.Held? else o.Starved?)
  {
    EmptyCallback(m, link, fr);
    PreparedDepth(m, fr);
    OutcomeIs(m, link, fr);
    DepthAtHole(m, link, fr);
    if !Waits(m, fr) {
      NothingToCross(m, link, fr);
    }
  }

  lemma NothingToCross(m: Player, link: NetworkLink, fr: Frame)
    requires m.ring.WellFormed() && AtHole(m, link, fr).Some? && Occupied(AtHole(m, link, fr).value) == 0
    ensures !Crosses(m, link, fr) && !HasNext(AtHole(m, link, fr).value.ring)
  {
    assert AtHole(m, link, fr).value.ring.packets == map[];
  }

  lemma StarveOn(m: Player, before: Player, after: Player, link: NetworkLink, fr: Frame, k: nat)
    requires Steady(m, link) && Steady(before, link) && before.ring.packets == map[] && Starving(m, before, k)
    requires fr.resumeFrames > 0 || fr.minDepth > 0
    requires k < 5 && !WindowTurnsBad(m.flow, k) && after == ProcessNextFrame(before, link, fr).0
    ensures if k + 1 >= 5 || WindowTurnsBad(m.flow, k + 1) || AtLimit(link, m.flow.missingCount + k)
               || fr.newTarget.Some?
            then after.flow.isPrebuffering else Starving(m, after, k + 1)
  {
    EmptyOutcome(before, link, fr);
    CountersByOutcome(before, link, fr);
  }

  lemma StaysHeld(m: Player, link: NetworkLink, fr: Frame)
    requires Steady(m, link) && m.ring.packets == map[] && m.flow.isPrebuffering
    requires fr.resumeFrames > 0 || fr.minDepth > 0
    ensures ProcessNextFrame(m, link, fr).0.flow.isPrebuffering
  {
    EmptyOutcome(m, link, fr);
    CountersByOutcome(m, link, fr);
  }

  /** From a player that is not held, with an empty buffer and no starvation behind it, any number of callbacks
      without an arrival leaves the playhead held if and only if there are five of them, or one of the other
      reasons came first. So the fifth always holds it, and the four before it do not unless the window turned
      bad, the misses were used up or the configuration changed. */
  lemma {:induction false} EmptyBufferHolds(m: Player, link: NetworkLink, events: seq<Event>)
    requires Steady(m, link) && m.ring.packets == map[] && NeedPackets(events)
    requires !m.flow.isPrebuffering && m.flow.starvationCount == 0
    ensures PlayAll(m, link, events).ring.packets == map[]
    ensures PlayAll(m, link, events).flow.isPrebuffering <==> HoldsBy(m, link, events)
    ensures !HoldsBy(m, link, events) ==> Starving(m, PlayAll(m, link, events), |events|)
  {
    if events != [] {
      var front, e := events[..|events| - 1], events[|events| - 1];
      assert e in events;
      EmptyBufferHolds(m, link, front);
      var before := PlayAll(m, link, front);
      EmptyOutcome(before, link, e.fr);
      ReasonsGrow(m, link, events);
      if HoldsBy(m, link, front) {
        StaysHeld(before, link, e.fr);
      } else {
        StarveOn(m, before, PlayAll(m, link, events), link, e.fr, |front|);
      }
    }
  }

  // A reason stays one; the last callback adds the reasons of its own.
  lemma ReasonsGrow(m: Player, link: NetworkLink, events: seq<Event>)
    requires events != [] && events[|events| - 1].Callback?
    ensures HoldsBy(m, link, events)
            <==> || HoldsBy(m, link, events[..|events| - 1])
                 || |events| >= 5
                 || WindowTurnsBad(m.flow, |events|)
                 || AtLimit(link, m.flow.missingCount + |events| - 1)
                 || events[|events| - 1].fr.newTarget.Some?
  {
    var front, e := events[..|events| - 1], events[|events| - 1];
    assert forall x :: x in events <==> x in front || x == e;
  }

  // ----- a held playhead waits for depth -----

  // Every callback of a session finds fewer packets than one of the two depths it asks for.
  ghost predicate NeverDeep(m: Player, link: NetworkLink, events: seq<Event>)
    requires Steady(m, link)
  {
    events == [] ||
    (var front, e := events[..|events| - 1], events[|events| - 1];
     && NeverDeep(m, link, front)
     && (e.Callback? ==>
           var depth := Occupied(PlayAll(m, link, front));
           depth < e.fr.resumeFrames || depth < e.fr.minDepth))
  }

  // A held callback that finds too few packets.
  lemma ShallowCallback(m: Player, link: NetworkLink, fr: Frame)
    requires Steady(m, link) && m.flow.isPrebuffering
    requires Occupied(m) < fr.resumeFrames || Occupied(m) < fr.minDepth
    ensures var (n, o) := ProcessNextFrame(m, link, fr);
            && (o.Held? || o.StreamReset?) && n.flow.isPrebuffering
            && n.startupFlushPending == m.startupFlushPending && n.tally.framesPlayed == m.tally.framesPlayed
  {
    PreparedDepth(m, fr);
    OutcomeIs(m, link, fr);
    CountersByOutcome(m, link, fr);
    FlagsByOutcome(m, link, fr);
    CallbackMovesRing(m, link, fr);
  }

  /** Once held, the playhead stays where it is: no callback plays, starves or steps over a hole until one finds
      both the depth to resume at and the minimum depth in the buffer, whatever arrives in between. */
  lemma {:induction false} HeldUntilDeep(m: Player, link: NetworkLink, events: seq<Event>)
    requires Steady(m, link) && m.flow.isPrebuffering && NeverDeep(m, link, events)
    ensures PlayAll(m, link, events).flow.isPrebuffering
    ensures forall o :: o in Outcomes(m, link, events) ==> o.Held? || o.StreamReset?
  {
    if events != [] {
      var front, e := events[..|events| - 1], events[|events| - 1];
      HeldUntilDeep(m, link, front);
      var before := PlayAll(m, link, front);
      if e.Callback? {
        ShallowCallback(before, link, e.fr);
      }
    }
  }

  /** A new player waits like that from its first callback on, and flushes what came with a burst only once it is
      let go. */
  lemma {:induction false} NewPlayerWaits(link: NetworkLink, events: seq<Event>)
    requires NeverDeep(NEW_PLAYER, link, events)
    ensures var m := PlayAll(NEW_PLAYER, link, events);
            m.flow.isPrebuffering && m.startupFlushPending && m.tally.framesPlayed == 0
  {
    if events != [] {
      var front, e := events[..|events| - 1], events[|events| - 1];
      NewPlayerWaits(link, front);
      var before := PlayAll(NEW_PLAYER, link, front);
      if e.Callback? {
        ShallowCallback(before, link, e.fr);
      }
    }
  }

  /** And when a callback finds both, after what it discards itself, it does not wait: it plays, unless the packet
      at the playhead is missing or there is none. */
  lemma ReleasedWhenDeep(m: Player, link: NetworkLink, fr: Frame)
    requires Steady(m, link)
    requires Occupied(Prepare(m, fr)) >= fr.resumeFrames && Occupied(Prepare(m, fr)) >= fr.minDepth
    ensures !ProcessNextFrame(m, link, fr).1.Held?
    ensures HasNext(m.ring) && Prepare(m, fr).ring == m.ring && !fr.isStatic && !m.startupFlushPending
            && Occupied(m) <= fr.bandHigh
            ==> ProcessNextFrame(m, link, fr).1.Played?
  {
    OutcomeIs(m, link, fr);
    DepthAtHole(m, link, fr);
    if HasNext(m.ring) && Prepare(m, fr).ring == m.ring && !fr.isStatic && !m.startupFlushPending
       && Occupied(m) <= fr.bandHigh {
      var p := AtHole(m, link, fr).value;
      ServedMoves(m, link, fr);
      DepthMoves(ServePrebuffering(Prepare(m, fr), link, fr).0, fr);
      SameDepthSameRing(m.ring, p.ring);
    }
  }

  lemma SameDepthSameRing(a: Ring, b: Ring)
    requires a.WellFormed() && HasNext(a) && Suffix(a, b) && |b.packets| == |a.packets|
    ensures HasNext(b)
  {
    if b.playhead > a.playhead {
      assert a.playhead !in b.packets;
      assert b.packets.Keys <= a.packets.Keys - {a.playhead};
      Fewer(b.packets.Keys, a.packets.Keys - {a.playhead});
    } else {
      assert b.playhead in b.packets;
    }
  }

  lemma {:induction false} Fewer(a: set<nat>, b: set<nat>)
    requires a <= b
    ensures |a| <= |b|
  {
    if a != {} {
      var x :| x in a;
      Fewer(a - {x}, b - {x});
    }
  }

  // ----- what the counters count -----

  // The callbacks that concealed since the last one that played or reset the stream, from some number on.
  function ConcealedSince(first: nat, outcomes: seq<Outcome>): nat {
    if outcomes == [] then first
    else
      var o := outcomes[|outcomes| - 1];
      if o.Played? || o.StreamReset? then 0 else ConcealedSince(first, outcomes[..|outcomes| - 1]) + 1
  }

  // The callbacks that starved since then.
  function StarvedSince(first: nat, outcomes: seq<Outcome>): nat {
    if outcomes == [] then first
    else
      var o := outcomes[|outcomes| - 1];
      if o.Played? || o.StreamReset? then 0
      else StarvedSince(first, outcomes[..|outcomes| - 1]) + if o.Starved? then 1 else 0
  }

  // The callbacks that waited at a hole since the last one that played, starved or reset the stream.
  function WaitedSince(first: nat, outcomes: seq<Outcome>): nat {
    if outcomes == [] then first
    else
      var o := outcomes[|outcomes| - 1];
      if o.Played? || o.StreamReset? || o.Starved? then 0
      else WaitedSince(first, outcomes[..|outcomes| - 1]) + if o.HoleWait? then 1 else 0
  }

  // Three counters that are read off outcomes, from what they were at first.
  ghost predicate ReadOff(first: Flow, f: Flow, outcomes: seq<Outcome>) {
    && f.concealRun == ConcealedSince(first.concealRun, outcomes)
    && f.starvationCount == StarvedSince(first.starvationCount, outcomes)
    && f.gapHoldCount == WaitedSince(first.gapHoldCount, outcomes)
  }

  lemma ReadOn(first: Flow, f: Flow, g: Flow, outcomes: seq<Outcome>, o: Outcome, empty: bool)
    requires ReadOff(first, f, outcomes) && Counts(f, g, o, empty)
    ensures ReadOff(first, g, outcomes + [o])
  {
    assert (outcomes + [o])[..|outcomes|] == outcomes;
  }

  /** Over any session three counters are read off the outcomes alone. */
  lemma {:induction false} CountersOfSession(m: Player, link: NetworkLink, events: seq<Event>)
    requires Steady(m, link)
    ensures ReadOff(m.flow, PlayAll(m, link, events).flow, Outcomes(m, link, events))
  {
    if events != [] {
      var front, e := events[..|events| - 1], events[|events| - 1];
      CountersOfSession(m, link, front);
      var before, outcomes := PlayAll(m, link, front), Outcomes(m, link, front);
      if e.Callback? {
        CountersByOutcome(before, link, e.fr);
        var (after, o) := ProcessNextFrame(before, link, e.fr);
        ReadOn(m.flow, before.flow, after.flow, outcomes, o, after.ring.packets == map[]);
      } else {
        assert Outcomes(m, link, events) == outcomes;
      }
    }
  }

  /** A hole of up to 20 numbers is crossed on time: in a session from a new player, outside no-buffer mode, a
      callback crosses one exactly when two callbacks before it have waited there since the last packet played,
      on 2.4 GHz five; a wider hole is crossed at once, and in no-buffer mode any is. */
  lemma HoleIsCrossedOnTime(link: NetworkLink, events: seq<Event>, fr: Frame)
    requires !Waits(PlayAll(NEW_PLAYER, link, events), fr)
    ensures var m := PlayAll(NEW_PLAYER, link, events);
            && AtHole(m, link, fr).Some?
            && var p := AtHole(m, link, fr).value;
               Occupied(p) > 0 && !HasNext(p.ring) ==>
                 && LowestAvailable(p.ring).1.Some?
                 && (Crosses(m, link, fr)
                     <==> || fr.isNoBuffer
                          || LowestAvailable(p.ring).1.value > p.ring.playhead + 20
                          || WaitedSince(0, Outcomes(NEW_PLAYER, link, events)) == if link.Wifi2_4Ghz? then 5 else 2)
  {
    var m := PlayAll(NEW_PLAYER, link, events);
    CountersOfSession(NEW_PLAYER, link, events);
    CrossesExactly(m, link, fr);
    var p := AtHole(m, link, fr).value;
    if Occupied(p) > 0 && !HasNext(p.ring) {
      ServedMoves(m, link, fr);
      DepthMoves(ServePrebuffering(Prepare(m, fr), link, fr).0, fr);
      FarEndIsAhead(p.ring);
    }
  }

  // ----- an outage, in callbacks -----

  /** Together with the misses counted before it, an empty buffer is borne for 300 callbacks on 2.4 GHz, 200 on
      an unknown link and 100 on any other; the next one resets the stream, and none before it does. */
  lemma OutageLasts(m: Player, link: NetworkLink, events: seq<Event>)
    requires Steady(m, link) && m.ring.packets == map[] && CallbacksOnly(events)
    requires m.flow.missingCount + |events|
             == if link.Wifi2_4Ghz? then 301 else if link.WifiUnknown? || link.Unknown? then 201 else 101
    ensures var outcomes := Outcomes(m, link, events);
            && |outcomes| == |events|
            && outcomes[|outcomes| - 1].StreamReset?
            && forall i :: 0 <= i < |outcomes| - 1 ==> !outcomes[i].StreamReset?
  {
    OutageReachesReset(m, link, events);
  }

  // ----- the recovery countdown -----

  // No callback of the session is the first to play after a starvation on a guarded link.
  ghost predicate NeverRecovers(m: Player, link: NetworkLink, events: seq<Event>)
    requires Steady(m, link)
  {
    events == [] ||
    (var front, e := events[..|events| - 1], events[|events| - 1];
     var before := PlayAll(m, link, front);
     && NeverRecovers(m, link, front)
     && (e.Callback? ==>
           !(ProcessNextFrame(before, link, e.fr).1.Played? && before.flow.starvationCount > 0 && !e.fr.tcpMode)))
  }

  /** The countdown of a recovery falls by one on every callback and ends after exactly as many as it began with,
      unless another recovery starts it anew. */
  lemma {:induction false} CountdownRuns(m: Player, link: NetworkLink, events: seq<Event>)
    requires Steady(m, link) && NeverRecovers(m, link, events)
    ensures PlayAll(m, link, events).flow.starvationRecovery
            == SaturatingSub(m.flow.starvationRecovery, |Outcomes(m, link, events)|)
  {
    if events != [] {
      var front, e := events[..|events| - 1], events[|events| - 1];
      CountdownRuns(m, link, front);
      if e.Callback? {
        CountersByOutcome(PlayAll(m, link, front), link, e.fr);
      } else {
        assert Outcomes(m, link, events) == Outcomes(m, link, front);
      }
    }
  }
}
