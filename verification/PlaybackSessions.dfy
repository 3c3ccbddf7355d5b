/**
 Whole playback sessions: packets arrive and frame callbacks run, in any interleaving and with any
 targets, configuration changes and splices.
 */
module PlaybackSessions {
  import opened Wrappers
  import opened ReorderRing
  import opened PlaybackStep
  import opened PlaybackRuns

  datatype Event = Arrival(p: Packet) | Callback(fr: Frame)

  // ----- the invariant -----

  /** What holds between any two events: the ring and the concealment window are well-formed, the
      hold at a hole is shorter than the tolerance, and the misses are within the link's limit. */
  ghost predicate Steady(m: Player, link: NetworkLink) {
    && m.ring.WellFormed()
    && m.flow.WellFormed()
    && m.flow.gapHoldCount < ReorderToleranceFor(link, false)
    && m.flow.missingCount <= MaxMissingFor(link)
  }

  // The counters while the flushes run: nothing but prebuffering and the recovery guard moves.
  ghost predicate CountersKept(a: Flow, b: Flow) {
    && b.gapHoldCount == a.gapHoldCount
    && b.missingCount == a.missingCount
    && b.windowCallbacks == a.windowCallbacks
    && b.concealCallbacks == a.concealCallbacks
  }

  lemma PrepareKeepsCounters(m: Player, fr: Frame)
    requires m.ring.WellFormed()
    ensures CountersKept(m.flow, Prepare(m, fr).flow)
  {
  }

  lemma ApproachCounters(m: Player, link: NetworkLink, fr: Frame)
    requires m.ring.WellFormed() && m.flow.gapHoldCount < ReorderToleranceFor(link, false)
    ensures var n := Approach(m, link, fr);
            && n.flow.missingCount == m.flow.missingCount
            && n.flow.windowCallbacks == m.flow.windowCallbacks
            && n.flow.concealCallbacks == m.flow.concealCallbacks
            && n.flow.isPrebuffering == m.flow.isPrebuffering
            && n.flow.gapHoldCount < ReorderToleranceFor(link, false)
            && (Occupied(n) > 0 && !HasNext(n.ring) ==>
                  n.flow.gapHoldCount == m.flow.gapHoldCount + 1 < ReorderToleranceFor(link, fr.isNoBuffer))
  {
    var pinned := StaticFlush(StartupFlush(m, fr), fr);
    assert pinned.flow == m.flow;
    GapCounters(pinned, link, fr);
  }

  lemma GapCounters(m: Player, link: NetworkLink, fr: Frame)
    requires m.ring.WellFormed() && m.flow.gapHoldCount < ReorderToleranceFor(link, false)
    ensures var n := FastForwardOverGap(m, link, fr);
            && n.flow == m.flow.(gapHoldCount := n.flow.gapHoldCount)
            && n.flow.gapHoldCount < ReorderToleranceFor(link, false)
            && (Occupied(n) > 0 && !HasNext(n.ring) ==>
                  n.flow.gapHoldCount == m.flow.gapHoldCount + 1 < ReorderToleranceFor(link, fr.isNoBuffer))
  {
    if Occupied(m) > 0 && !HasNext(m.ring) {
      SkipMoves(m.ring);
      LowestKeeps(m.ring);
    }
  }

  lemma ObserveKeepsWindow(m: Player, concealed: bool, fr: Frame)
    requires m.flow.WellFormed()
    ensures var f := ObserveDelivery(m, concealed, fr).flow;
            f.WellFormed() && f.gapHoldCount == m.flow.gapHoldCount && f.missingCount == m.flow.missingCount
  {
  }

  lemma PlayCounters(m: Player, fr: Frame)
    requires m.flow.WellFormed() && HasNext(m.ring)
    ensures var f := PlayNextFrame(m, fr).0.flow;
            f.WellFormed() && f.gapHoldCount == 0 && f.missingCount == 0
  {
    ObserveKeepsWindow(m.(flow := m.flow.(gapHoldCount := 0, missingCount := 0, concealRun := 0)), false, fr);
  }

  // The counters after a callback that had nothing to play.
  lemma MissingCounters(m: Player, link: NetworkLink, fr: Frame)
    requires m.flow.WellFormed()
    requires m.flow.missingCount <= MaxMissingFor(link)
    requires m.flow.gapHoldCount < ReorderToleranceFor(link, false)
    ensures var (n, o) := HandleMissingFrame(m, link, fr);
            && n.flow.WellFormed()
            && n.flow.missingCount <= MaxMissingFor(link)
            && n.flow.gapHoldCount < ReorderToleranceFor(link, false)
            && (o.HoleWait? ==> Occupied(m) > 0 && n.flow.gapHoldCount == m.flow.gapHoldCount)
            && (if m.flow.missingCount == MaxMissingFor(link) then o.StreamReset? && n.flow.missingCount == 0
                else !o.StreamReset? && n.flow.missingCount == m.flow.missingCount + 1)
  {
    MissedCounters(m, fr);
  }

  lemma MissedCounters(m: Player, fr: Frame)
    requires m.flow.WellFormed()
    ensures var f := Missed(m, fr);
            && f.WellFormed()
            && f.missingCount == m.flow.missingCount + 1
            && f.gapHoldCount == if Occupied(m) == 0 then 0 else m.flow.gapHoldCount
  {
    ObserveKeepsWindow(m.(flow := m.flow.(missingCount := m.flow.missingCount + 1)), true, fr);
  }

  // The counters after the prebuffering phase.
  lemma ServeCounters(m: Player, link: NetworkLink, fr: Frame)
    requires m.ring.WellFormed() && m.flow.WellFormed()
    requires m.flow.missingCount <= MaxMissingFor(link)
    ensures var (n, ended) := ServePrebuffering(m, link, fr);
            && n.flow.WellFormed()
            && n.flow.missingCount <= MaxMissingFor(link)
            && (ended.None? ==> CountersKept(m.flow, n.flow) && !n.flow.isPrebuffering)
            && (ended.Some? && !ended.value.StreamReset? ==>
                  n.flow.gapHoldCount == m.flow.gapHoldCount && n.ring == m.ring)
            && (ended.Some? && ended.value.StreamReset? ==> n.flow.gapHoldCount == 0)
            && (ended.Some? && Occupied(m) == 0 ==>
                  if m.flow.missingCount == MaxMissingFor(link)
                  then ended.value.StreamReset? && n.flow.missingCount == 0
                  else ended.value.Held? && n.flow.missingCount == m.flow.missingCount + 1)
  {
  }

  // The counters after the rest of a callback that is not held.
  lemma ProceedCounters(m: Player, link: NetworkLink, fr: Frame)
    requires Steady(m, link)
    ensures var (n, o) := Proceed(m, link, fr);
            && n.flow.WellFormed()
            && n.flow.missingCount <= MaxMissingFor(link)
            && n.flow.gapHoldCount < ReorderToleranceFor(link, false)
            && (o.HoleWait? ==>
                  n.flow.gapHoldCount == m.flow.gapHoldCount + 1 < ReorderToleranceFor(link, fr.isNoBuffer))
            && (Approach(m, link, fr).ring.packets == map[] ==> Misses(m, n, o, link))
  {
    ApproachCounters(m, link, fr);
    var ready := Approach(m, link, fr);
    if HasNext(ready.ring) {
      PlayCounters(ready, fr);
    } else {
      MissingCounters(ready, link, fr);
    }
  }

  // One more miss, or a reset when the limit was already reached.
  ghost predicate Misses(m: Player, n: Player, o: Outcome, link: NetworkLink) {
    if m.flow.missingCount == MaxMissingFor(link) then o.StreamReset? && n.flow.missingCount == 0
    else !o.StreamReset? && n.flow.missingCount == m.flow.missingCount + 1
  }

  /** One callback keeps the invariant. A callback that waits at a hole lengthens the hold by one, to
      less than the tolerance of its own mode; in no-buffer mode that is zero, so none ever waits. */
  lemma CallbackKeepsSteady(m: Player, link: NetworkLink, fr: Frame)
    requires Steady(m, link)
    ensures var (n, o) := ProcessNextFrame(m, link, fr);
            && Steady(n, link)
            && (o.HoleWait? ==>
                  n.flow.gapHoldCount == m.flow.gapHoldCount + 1 < ReorderToleranceFor(link, fr.isNoBuffer))
            && (fr.isNoBuffer ==> !o.HoleWait?)
  {
    CallbackMovesRing(m, link, fr);
    ServedCounters(m, link, fr);
    var (served, ended) := ServePrebuffering(Prepare(m, fr), link, fr);
    if ended.None? {
      ProceedCounters(served, link, fr);
    }
  }

  // The counters once the playhead was held or released.
  lemma ServedCounters(m: Player, link: NetworkLink, fr: Frame)
    requires Steady(m, link)
    ensures var (served, ended) := ServePrebuffering(Prepare(m, fr), link, fr);
            && Steady(served, link)
            && (ended.None? ==> CountersKept(m.flow, served.flow) && !served.flow.isPrebuffering)
            && (ended.Some? ==> ended.value.Held? || ended.value.StreamReset?)
            && (ended.Some? && Occupied(Prepare(m, fr)) == 0 ==> Misses(m, served, ended.value, link))
  {
    PrepareKeepsCounters(m, fr);
    ServeCounters(Prepare(m, fr), link, fr);
    ServedMoves(m, link, fr);
  }

  // ----- runs -----

  ghost function Play(m: Player, link: NetworkLink, e: Event): Player
    requires Steady(m, link)
    ensures Steady(Play(m, link, e), link)
  {
    match e
    case Arrival(p) =>
      InsertKeeps(m.ring, p);
      Ingest(m, p)
    case Callback(fr) =>
      CallbackKeepsSteady(m, link, fr);
      ProcessNextFrame(m, link, fr).0
  }

  /** The player after a run of events; the invariant holds at every point of every run. */
  ghost function PlayAll(m: Player, link: NetworkLink, events: seq<Event>): Player
    requires Steady(m, link)
    ensures Steady(PlayAll(m, link, events), link)
  {
    if events == [] then m
    else Play(PlayAll(m, link, events[..|events| - 1]), link, events[|events| - 1])
  }

  lemma PlaySnoc(m: Player, link: NetworkLink, events: seq<Event>, e: Event)
    requires Steady(m, link)
    ensures PlayAll(m, link, events + [e]) == Play(PlayAll(m, link, events), link, e)
  {
    assert (events + [e])[..|events|] == events;
  }

  lemma ThreeEvents(m: Player, link: NetworkLink, a: Event, b: Event, c: Event)
    requires Steady(m, link)
    ensures PlayAll(m, link, [a, b, c]) == Play(Play(Play(m, link, a), link, b), link, c)
  {
    TwoEvents(m, link, a, b);
    PlaySnoc(m, link, [a, b], c);
    assert [a, b] + [c] == [a, b, c];
  }

  lemma TwoEvents(m: Player, link: NetworkLink, a: Event, b: Event)
    requires Steady(m, link)
    ensures PlayAll(m, link, [a, b]) == Play(Play(m, link, a), link, b)
  {
    PlaySnoc(m, link, [], a);
    assert [] + [a] == [a];
    PlaySnoc(m, link, [a], b);
    assert [a] + [b] == [a, b];
  }

  // How the callbacks of a run ended, in order.
  ghost function Outcomes(m: Player, link: NetworkLink, events: seq<Event>): seq<Outcome>
    requires Steady(m, link)
  {
    if events == [] then []
    else
      var front, e := events[..|events| - 1], events[|events| - 1];
      Outcomes(m, link, front)
      + if e.Callback? then [ProcessNextFrame(PlayAll(m, link, front), link, e.fr).1] else []
  }

  // ----- bounded waiting at holes -----

  lemma {:induction false} HoldCountsWaits(m: Player, link: NetworkLink, events: seq<Event>)
    requires Steady(m, link)
    requires forall o :: o in Outcomes(m, link, events) ==> o.HoleWait?
    ensures PlayAll(m, link, events).flow.gapHoldCount == m.flow.gapHoldCount + |Outcomes(m, link, events)|
  {
    if events != [] {
      var front, e := events[..|events| - 1], events[|events| - 1];
      assert forall o :: o in Outcomes(m, link, front) ==> o in Outcomes(m, link, events);
      HoldCountsWaits(m, link, front);
      if e.Callback? {
        assert ProcessNextFrame(PlayAll(m, link, front), link, e.fr).1 in Outcomes(m, link, events);
        CallbackKeepsSteady(PlayAll(m, link, front), link, e.fr);
      }
    }
  }

  /** A hole never holds playback for the tolerance: among three callbacks in a row, six on 2.4 GHz, or a single
      one in no-buffer mode, each of which either plays or waits at a hole, one plays a packet, whatever arrives
      in between and wherever the run begins. */
  lemma HoleWaitIsBounded(m: Player, link: NetworkLink, events: seq<Event>, fr: Frame)
    requires Steady(m, link)
    requires var outcomes := Outcomes(m, link, events + [Callback(fr)]);
             && (forall o :: o in outcomes ==> o.Played? || o.HoleWait?)
             && (fr.isNoBuffer || |outcomes| >= 6 || (|outcomes| >= 3 && !link.Wifi2_4Ghz?))
    ensures exists o :: o in Outcomes(m, link, events + [Callback(fr)]) && o.Played?
  {
    var all := events + [Callback(fr)];
    assert all[..|all| - 1] == events;
    var last := ProcessNextFrame(PlayAll(m, link, events), link, fr).1;
    assert Outcomes(m, link, all) == Outcomes(m, link, events) + [last];
    if forall o :: o in Outcomes(m, link, all) ==> !o.Played? {
      HoldCountsWaits(m, link, all);
      CallbackKeepsSteady(PlayAll(m, link, events), link, fr);
    }
  }

  // ----- outages -----

  /** A callback on an empty ring counts exactly one miss, whether or not the playhead is held, or
      resets the stream when the limit was already reached. */
  lemma EmptyCallback(m: Player, link: NetworkLink, fr: Frame)
    requires Steady(m, link) && m.ring.packets == map[]
    ensures var (n, o) := ProcessNextFrame(m, link, fr);
            && n.ring.packets == map[]
            && (if m.flow.missingCount == MaxMissingFor(link) then o.StreamReset? && n.flow.missingCount == 0
                else !o.StreamReset? && n.flow.missingCount == m.flow.missingCount + 1)
  {
    CallbackMovesRing(m, link, fr);
    PrepareMoves(m, fr);
    ServedCounters(m, link, fr);
    ServedMoves(m, link, fr);
    var (served, ended) := ServePrebuffering(Prepare(m, fr), link, fr);
    if ended.None? {
      ApproachMoves(served, link, fr);
      ProceedCounters(served, link, fr);
      StaysEmpty(m.ring, served.ring);
      StaysEmpty(served.ring, Approach(served, link, fr).ring);
    }
  }

  lemma StaysEmpty(a: Ring, b: Ring)
    requires Suffix(a, b) && a.packets == map[]
    ensures b.packets == map[]
  {
  }

  ghost predicate CallbacksOnly(events: seq<Event>) {
    forall e :: e in events ==> e.Callback?
  }

  /** An outage reaches the stream reset, and exactly on time: from a player with an empty ring, as
      long as nothing arrives, every callback raises the miss count by one and none resets before
      the limit is exceeded. */
  lemma {:induction false} OutageCounts(m: Player, link: NetworkLink, events: seq<Event>)
    requires Steady(m, link) && m.ring.packets == map[] && CallbacksOnly(events)
    requires m.flow.missingCount + |events| <= MaxMissingFor(link)
    ensures var n := PlayAll(m, link, events);
            n.ring.packets == map[] && n.flow.missingCount == m.flow.missingCount + |events|
    ensures forall o :: o in Outcomes(m, link, events) ==> !o.StreamReset?
  {
    if events != [] {
      var front, e := events[..|events| - 1], events[|events| - 1];
      OutageCounts(m, link, front);
      assert e.Callback?;
      EmptyCallback(PlayAll(m, link, front), link, e.fr);
    }
  }

  /** The reset fires on callback (limit - count + 1) of the outage and on none before it. */
  lemma OutageReachesReset(m: Player, link: NetworkLink, events: seq<Event>)
    requires Steady(m, link) && m.ring.packets == map[] && CallbacksOnly(events)
    requires |events| == MaxMissingFor(link) - m.flow.missingCount + 1
    ensures var outcomes := Outcomes(m, link, events);
            && |outcomes| == |events|
            && outcomes[|outcomes| - 1].StreamReset?
            && forall i :: 0 <= i < |outcomes| - 1 ==> !outcomes[i].StreamReset?
    ensures PlayAll(m, link, events).ring == EMPTY_RING
  {
    var front, e := events[..|events| - 1], events[|events| - 1];
    OutageCounts(m, link, front);
    OneOutcomeEach(m, link, front);
    assert e.Callback?;
    EmptyCallback(PlayAll(m, link, front), link, e.fr);
    CallbackMovesRing(PlayAll(m, link, front), link, e.fr);
  }

  lemma {:induction false} OneOutcomeEach(m: Player, link: NetworkLink, events: seq<Event>)
    requires Steady(m, link) && CallbacksOnly(events)
    ensures |Outcomes(m, link, events)| == |events|
  {
    if events != [] {
      OneOutcomeEach(m, link, events[..|events| - 1]);
      assert events[|events| - 1].Callback?;
    }
  }

  // ----- what a session takes out of the ring -----

  function AllTaken(outcomes: seq<Outcome>): seq<Packet> {
    if outcomes == [] then []
    else AllTaken(outcomes[..|outcomes| - 1]) + TakenBy(outcomes[|outcomes| - 1])
  }

  ghost predicate NoRestart(m: Player, link: NetworkLink, events: seq<Event>)
    requires Steady(m, link)
  {
    events == [] ||
    (var front, e := events[..|events| - 1], events[|events| - 1];
     var before := PlayAll(m, link, front);
     && NoRestart(m, link, front)
     && match e
        case Arrival(p) => InsertOutcome(before.ring, p.seqNum) != StreamRestarted
        case Callback(fr) => !ProcessNextFrame(before, link, fr).1.StreamReset?)
  }

  // Increasing packets below a bound.
  ghost predicate OrderedBelow(ps: seq<Packet>, bound: nat) {
    && (forall i, j :: 0 <= i < j < |ps| ==> ps[i].seqNum < ps[j].seqNum)
    && (forall i :: 0 <= i < |ps| ==> ps[i].seqNum < bound)
  }

  lemma InsertAdvances(r: Ring, p: Packet)
    requires InsertOutcome(r, p.seqNum) != StreamRestarted
    ensures r.initialized ==> r.playhead <= Insert(r, p).playhead
    ensures Insert(r, p).initialized
  {
  }

  // One event takes nothing, or packets between the two playheads.
  lemma EventTakes(m: Player, link: NetworkLink, e: Event)
    requires Steady(m, link)
    requires match e
             case Arrival(p) => InsertOutcome(m.ring, p.seqNum) != StreamRestarted
             case Callback(fr) => !ProcessNextFrame(m, link, fr).1.StreamReset?
    ensures var n := Play(m, link, e);
            && (m.ring.initialized ==> n.ring.initialized && m.ring.playhead <= n.ring.playhead)
            && (match e
                case Arrival(p) => true
                case Callback(fr) => InOrderFrom(m.ring, n.ring, TakenBy(ProcessNextFrame(m, link, fr).1))
                                     && n.ring.initialized == m.ring.initialized)
  {
    match e
    case Arrival(p) => InsertAdvances(m.ring, p);
    case Callback(fr) => CallbackMovesRing(m, link, fr);
  }

  // What a session has taken so far, against its ring.
  ghost predicate TakenInOrder(r: Ring, taken: seq<Packet>) {
    if r.initialized then OrderedBelow(taken, r.playhead) else taken == []
  }

  lemma TakesOn(a: Ring, b: Ring, taken: seq<Packet>, ps: seq<Packet>)
    requires a.WellFormed() && TakenInOrder(a, taken) && InOrderFrom(a, b, ps)
    requires a.playhead <= b.playhead || !a.initialized
    requires b.initialized == a.initialized
    ensures TakenInOrder(b, taken + ps)
  {
    if ps != [] {
      assert ps[0].seqNum in a.packets;
    }
  }

  /** Between restarts a session takes packets, to play or to shed them, in strictly increasing sequence
      order, so none twice, across every flush, skip and splice. */
  lemma {:induction false} SessionIsOrdered(m: Player, link: NetworkLink, events: seq<Event>)
    requires Steady(m, link) && NoRestart(m, link, events)
    ensures TakenInOrder(PlayAll(m, link, events).ring, AllTaken(Outcomes(m, link, events)))
  {
    if events != [] {
      var front, e := events[..|events| - 1], events[|events| - 1];
      SessionIsOrdered(m, link, front);
      var before, outcomes := PlayAll(m, link, front), Outcomes(m, link, front);
      EventTakes(before, link, e);
      match e
      case Arrival(p) =>
        assert Outcomes(m, link, events) == outcomes;
      case Callback(fr) =>
        var (after, outcome) := ProcessNextFrame(before, link, fr);
        OutcomeAppends(outcomes, outcome);
        TakesOn(before.ring, after.ring, AllTaken(outcomes), TakenBy(outcome));
    }
  }

  lemma OutcomeAppends(outcomes: seq<Outcome>, o: Outcome)
    ensures AllTaken(outcomes + [o]) == AllTaken(outcomes) + TakenBy(o)
  {
    assert (outcomes + [o])[..|outcomes|] == outcomes;
  }

  // The packet that arrived most recently under a number.
  function LatestArrival(events: seq<Event>, seqNum: nat): Option<Packet> {
    if events == [] then None
    else
      var e := events[|events| - 1];
      if e.Arrival? && e.p.seqNum == seqNum then Some(e.p) else LatestArrival(events[..|events| - 1], seqNum)
  }

  // A resident after one event is the packet that just arrived, or was one before.
  lemma ResidentsAfter(m: Player, link: NetworkLink, e: Event, s: nat)
    requires Steady(m, link) && s in Play(m, link, e).ring.packets
    ensures var after := Play(m, link, e).ring.packets;
            if e.Arrival? && e.p.seqNum == s then after[s] == e.p
            else s in m.ring.packets && after[s] == m.ring.packets[s]
  {
    if e.Callback? {
      CallbackMovesRing(m, link, e.fr);
    }
  }

  /** Over a whole session and across every restart, a resident packet is the latest arrival under
      its number; with `CallbackMovesRing` so is every packet that is taken. */
  lemma {:induction false} ResidentsAreLatestArrivals(link: NetworkLink, events: seq<Event>, s: nat)
    ensures var r := PlayAll(NEW_PLAYER, link, events).ring;
            s in r.packets ==> LatestArrival(events, s) == Some(r.packets[s])
  {
    if events != [] && s in PlayAll(NEW_PLAYER, link, events).ring.packets {
      var front, e := events[..|events| - 1], events[|events| - 1];
      ResidentsAreLatestArrivals(link, front, s);
      ResidentsAfter(PlayAll(NEW_PLAYER, link, front), link, e, s);
    }
  }
}
