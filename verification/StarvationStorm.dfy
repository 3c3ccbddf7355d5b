/**
 A session in which the stretch actuators never come back: packets arrive every 10 ms, and one
 starvation of a single callback every half second is enough.
 */
module StarvationStorm {
  import opened Wrappers
  import opened ReorderRing
  import opened PlaybackStep
  import opened PlaybackSessions
  import opened PlaybackGuards
  import FlowState

  const CALLBACK: nat := 10000000

  // The n-th callback, on an ordinary adaptive stream; everything it is told but the time is constant.
  function FrameAt(n: nat): Frame {
    Frame(n * CALLBACK, None, 4, 1, 1, 8, false, false, false, 4, Verbatim)
  }

  // How far the storm has gone: whole laps of fifty callbacks, and callbacks of the next lap.
  datatype Point = Point(lap: nat, phase: nat)

  ghost predicate Valid(t: Point) {
    t.phase < 50
  }

  function Next(t: Point): Point {
    if t.phase < 49 then Point(t.lap, t.phase + 1) else Point(t.lap + 1, 0)
  }

  function Before(t: Point): Point
    requires t != Point(0, 0)
  {
    if t.phase > 0 then Point(t.lap, t.phase - 1) else Point(t.lap - 1, 49)
  }

  // The number of the next packet: every callback of a lap but the last had one.
  function NextNumber(t: Point): nat {
    1 + 49 * t.lap + t.phase
  }

  // The number of the next callback.
  function CallbackNo(t: Point): nat {
    2 + 50 * t.lap + t.phase
  }

  // Before the storm: one packet is played, then one callback starves.
  const OPENING: seq<Event> := [Arrival(Numbered(0)), Callback(FrameAt(0)), Callback(FrameAt(1))]

  predicate Starves(t: Point) {
    t.phase == 49
  }

  // One callback of the storm, with the packet that arrived just before it.
  function StormStep(t: Point): seq<Event> {
    (if Starves(t) then [] else [Arrival(Numbered(NextNumber(t)))]) + [Callback(FrameAt(CallbackNo(t)))]
  }

  /** The storm up to some point. */
  function Storm(t: Point): seq<Event>
    decreases t.lap, t.phase
  {
    if t == Point(0, 0) then [] else Storm(Before(t)) + StormStep(Before(t))
  }

  // When the guard window that is in force by then was opened.
  function OpenedAt(t: Point): Option<nat> {
    if t.phase > 0 then Some((2 + 50 * t.lap) * CALLBACK)
    else if t.lap > 0 then Some((50 * t.lap - 48) * CALLBACK)
    else None
  }

  // The concealment window is two callbacks ahead of the lap.
  function InWindow(t: Point): nat {
    if t.phase < 48 then t.phase + 2 else t.phase - 48
  }

  /** What the player is like by then: empty-handed, playing, just starved at the end of every lap, and
      far from a rebuffer. */
  ghost predicate Storming(m: Player, t: Point) {
    && m.ring == Ring(true, NextNumber(t), map[], None)
    && !m.startupFlushPending
    && !m.flow.isPrebuffering
    && m.flow.gapHoldCount == 0
    && m.flow.missingCount == m.flow.starvationCount == (if t.phase == 0 then 1 else 0)
    && m.flow.windowCallbacks == InWindow(t)
    && m.flow.concealCallbacks == (if InWindow(t) >= 2 then 1 else 0)
    && m.flow.recoveryStartedAt == OpenedAt(t)
  }

  lemma OneInTheRing(m: Player, p: Packet)
    requires m.ring == Ring(true, p.seqNum, map[], None)
    ensures var filed := Ingest(m, p);
            && filed == m.(ring := Ring(true, p.seqNum, map[p.seqNum := p], Some(p.seqNum)))
            && HasNext(filed.ring) && Occupied(filed) == 1
            && PopNext(filed.ring) == (Ring(true, p.seqNum + 1, map[], None), Some(p))
  {
    var filed := Ingest(m, p);
    assert filed.ring.packets == map[p.seqNum := p];
    assert Without(map[p.seqNum := p], p.seqNum) == map[];
  }

  // A callback that played packet `p` on, from a ring without any other.
  ghost predicate PlayedOn(m: Player, p: Packet, after: Player, o: Outcome) {
    && o == Played([p], [])
    && after.ring == Ring(true, p.seqNum + 1, map[], None)
    && !after.startupFlushPending && !after.flow.isPrebuffering
    && after.flow.gapHoldCount == after.flow.missingCount == after.flow.starvationCount == 0
    && after.flow.windowCallbacks == (if m.flow.windowCallbacks == 49 then 0 else m.flow.windowCallbacks + 1)
    && after.flow.concealCallbacks == (if m.flow.windowCallbacks == 49 then 0 else m.flow.concealCallbacks)
  }

  // A callback that found nothing, as the first one in a row.
  ghost predicate StarvedOnce(m: Player, after: Player, o: Outcome) {
    && o == Starved && after.ring == m.ring
    && !after.startupFlushPending && !after.flow.isPrebuffering
    && after.flow.gapHoldCount == 0
    && after.flow.missingCount == after.flow.starvationCount == 1
    && after.flow.windowCallbacks == m.flow.windowCallbacks + 1
    && after.flow.concealCallbacks == m.flow.concealCallbacks + 1
  }

  // A callback that finds one packet where it is wanted plays it.
  lemma PlaysIt(m: Player, link: NetworkLink, p: Packet, n: nat)
    requires m.ring == Ring(true, p.seqNum, map[], None)
    requires !m.flow.isPrebuffering && !m.startupFlushPending
    requires m.flow.concealCallbacks <= 1 && m.flow.windowCallbacks < 50
    ensures Ingest(m, p).ring.WellFormed()
    ensures var (after, o) := ProcessNextFrame(Ingest(m, p), link, FrameAt(n));
            PlayedOn(m, p, after, o)
  {
    OneInTheRing(m, p);
    var filed, fr := Ingest(m, p), FrameAt(n);
    var ready := filed.(flow := FlowState.TickRecovery(filed.flow, fr.now));
    assert Prepare(filed, fr) == ready;
    assert ServePrebuffering(ready, link, fr) == (ready, None);
    assert Approach(ready, link, fr) == ready;
    assert ProcessNextFrame(filed, link, fr) == PlayNextFrame(ready, fr);
    ResumesAt(ready, fr);
  }

  // The life cycle of a callback that plays on, in the middle of a window with at most one conceal.
  lemma ResumesAt(m: Player, fr: Frame)
    requires !m.flow.isPrebuffering && m.flow.concealCallbacks <= 1 && m.flow.windowCallbacks < 50
    ensures var f := Resumed(m, fr);
            && !f.isPrebuffering && f.gapHoldCount == f.missingCount == f.starvationCount == 0
            && f.windowCallbacks == (if m.flow.windowCallbacks == 49 then 0 else m.flow.windowCallbacks + 1)
            && f.concealCallbacks == (if m.flow.windowCallbacks == 49 then 0 else m.flow.concealCallbacks)
  {
    if m.flow.windowCallbacks == 49 {
      FlowState.BoundaryVerdict(m.flow, false);
    }
  }

  // A callback that finds nothing starves, once.
  lemma StarvesOnce(m: Player, link: NetworkLink, n: nat)
    requires m.ring.WellFormed() && m.ring.packets == map[]
    requires !m.flow.isPrebuffering && !m.startupFlushPending
    requires m.flow.starvationCount == m.flow.missingCount == 0 && m.flow.windowCallbacks < 49
    ensures var (after, o) := ProcessNextFrame(m, link, FrameAt(n));
            StarvedOnce(m, after, o)
  {
    var fr := FrameAt(n);
    var ready := m.(flow := FlowState.TickRecovery(m.flow, fr.now));
    assert Prepare(m, fr) == ready;
    assert ServePrebuffering(ready, link, fr) == (ready, None);
    assert Approach(ready, link, fr) == ready;
    assert ProcessNextFrame(m, link, fr) == HandleMissingFrame(ready, link, fr);
  }

  /** The opening leads a new player into the storm. */
  lemma OpeningStorms(link: NetworkLink)
    ensures Storming(PlayAll(NEW_PLAYER, link, OPENING), Point(0, 0))
  {
    var first := Ingest(NEW_PLAYER, Numbered(0));
    var anchored := NEW_PLAYER.(ring := Ring(true, 0, map[], None));
    assert first == Ingest(anchored, Numbered(0));
    OneInTheRing(anchored, Numbered(0));
    var fr := FrameAt(0);
    var ready := first.(flow := FlowState.TickRecovery(first.flow, 0));
    assert Prepare(first, fr) == ready;
    var released := ready.(flow := ready.flow.(isPrebuffering := false));
    assert ServePrebuffering(ready, link, fr) == (released, None);
    var started := released.(startupFlushPending := false);
    assert Approach(released, link, fr) == started;
    ResumesAt(started, fr);
    var playing := ProcessNextFrame(first, link, fr).0;
    assert playing == PlayNextFrame(started, fr).0;
    assert playing.ring == Ring(true, 1, map[], None);
    StarvesOnce(playing, link, 1);
    GuardOfCallback(first, link, fr);
    GuardOfCallback(playing, link, FrameAt(1));
    OpeningUnfolds(link);
  }

  lemma OpeningUnfolds(link: NetworkLink)
    ensures var first := Ingest(NEW_PLAYER, Numbered(0));
            && first.ring.WellFormed()
            && var playing := ProcessNextFrame(first, link, FrameAt(0)).0;
            && playing.ring.WellFormed()
            && PlayAll(NEW_PLAYER, link, OPENING) == ProcessNextFrame(playing, link, FrameAt(1)).0
  {
    var a, b, c := Arrival(Numbered(0)), Callback(FrameAt(0)), Callback(FrameAt(1));
    InsertKeeps(NEW_PLAYER.ring, a.p);
    ThreeEvents(NEW_PLAYER, link, a, b, c);
    CallbackKeepsSteady(Ingest(NEW_PLAYER, a.p), link, b.fr);
  }

  // The player just before the callback of a step.
  function BeforeCallback(m: Player, t: Point): Player {
    if Starves(t) then m else Ingest(m, Numbered(NextNumber(t)))
  }

  // What the callback leaves is what the next step of the storm wants.
  lemma StormAdvances(m: Player, t: Point, after: Player, o: Outcome)
    requires Valid(t) && Storming(m, t)
    requires if Starves(t) then StarvedOnce(m, after, o) else PlayedOn(m, Numbered(NextNumber(t)), after, o)
    requires after.flow.recoveryStartedAt == OpenedAt(Next(t))
    ensures Storming(after, Next(t))
  {
  }

  // Either kind of callback, from a player that is empty-handed and far from a rebuffer.
  lemma StormCallback(m: Player, link: NetworkLink, starves: bool, p: Packet, n: nat)
    requires m.ring == Ring(true, p.seqNum, map[], None)
    requires !m.flow.isPrebuffering && !m.startupFlushPending
    requires m.flow.concealCallbacks <= 1 && m.flow.windowCallbacks < 50
    requires starves ==> m.flow.starvationCount == m.flow.missingCount == 0 && m.flow.windowCallbacks < 49
    ensures var before := if starves then m else Ingest(m, p);
            && before.ring.WellFormed()
            && var (after, o) := ProcessNextFrame(before, link, FrameAt(n));
               if starves then StarvedOnce(m, after, o) else PlayedOn(m, p, after, o)
  {
    if starves {
      StarvesOnce(m, link, n);
    } else {
      PlaysIt(m, link, p, n);
    }
  }

  /** One callback of the storm leaves the player in it and may not stretch. */
  lemma StormGoesOn(m: Player, link: NetworkLink, t: Point)
    requires Steady(m, link) && Valid(t) && Storming(m, t)
    ensures var after := PlayAll(m, link, StormStep(t));
            && Storming(after, Next(t))
            && !FlowState.StretchAllowed(after.flow, FrameAt(CallbackNo(t)).now)
  {
    var before, fr := BeforeCallback(m, t), FrameAt(CallbackNo(t));
    StepUnfolds(m, link, t);
    StormCallback(m, link, Starves(t), Numbered(NextNumber(t)), CallbackNo(t));
    GuardOfCallback(before, link, fr);
    WindowsFollow(t);
    var (after, o) := ProcessNextFrame(before, link, fr);
    StormAdvances(m, t, after, o);
  }

  // A window opens on the callback that follows the starved one, and the last one has just run out then.
  lemma WindowsFollow(t: Point)
    requires Valid(t)
    ensures var now := CallbackNo(t) * CALLBACK;
            && OpenedAt(Next(t)) == FlowState.GuardStep(OpenedAt(t), FlowState.Tick(now, t.phase == 0))
            && FlowState.InForce(OpenedAt(Next(t)), now)
  {
  }

  lemma StepUnfolds(m: Player, link: NetworkLink, t: Point)
    requires Steady(m, link)
    ensures BeforeCallback(m, t).ring.WellFormed()
    ensures PlayAll(m, link, StormStep(t))
            == ProcessNextFrame(BeforeCallback(m, t), link, FrameAt(CallbackNo(t))).0
    ensures NeverStretches(m, link, StormStep(t))
            <==> !FlowState.StretchAllowed(PlayAll(m, link, StormStep(t)).flow, FrameAt(CallbackNo(t)).now)
  {
    var p, fr := Numbered(NextNumber(t)), FrameAt(CallbackNo(t));
    InsertKeeps(m.ring, p);
    if Starves(t) {
      assert StormStep(t) == [Callback(fr)];
      OneCallback(m, link, fr);
    } else {
      assert StormStep(t) == [Arrival(p), Callback(fr)];
      ArrivalThenCallback(m, link, p, fr);
    }
  }

  lemma OneCallback(m: Player, link: NetworkLink, fr: Frame)
    requires Steady(m, link)
    ensures PlayAll(m, link, [Callback(fr)]) == ProcessNextFrame(m, link, fr).0
    ensures NeverStretches(m, link, [Callback(fr)])
            <==> !FlowState.StretchAllowed(PlayAll(m, link, [Callback(fr)]).flow, fr.now)
  {
    assert [] + [Callback(fr)] == [Callback(fr)];
    Unfolds(m, link, [], Callback(fr));
  }

  lemma ArrivalThenCallback(m: Player, link: NetworkLink, p: Packet, fr: Frame)
    requires Steady(m, link) && Ingest(m, p).ring.WellFormed()
    ensures var events := [Arrival(p), Callback(fr)];
            && PlayAll(m, link, events) == ProcessNextFrame(Ingest(m, p), link, fr).0
            && (NeverStretches(m, link, events)
                <==> !FlowState.StretchAllowed(PlayAll(m, link, events).flow, fr.now))
  {
    assert [] + [Arrival(p)] == [Arrival(p)];
    assert [Arrival(p)] + [Callback(fr)] == [Arrival(p), Callback(fr)];
    Unfolds(m, link, [], Arrival(p));
    Unfolds(m, link, [Arrival(p)], Callback(fr));
  }

  lemma Unfolds(m: Player, link: NetworkLink, events: seq<Event>, e: Event)
    requires Steady(m, link)
    ensures PlayAll(m, link, events + [e]) == Play(PlayAll(m, link, events), link, e)
    ensures NeverStretches(m, link, events + [e])
            <==> NeverStretches(m, link, events)
                 && (e.Callback? ==>
                       !FlowState.StretchAllowed(PlayAll(m, link, events + [e]).flow, e.fr.now))
  {
    assert (events + [e])[..|events|] == events;
  }

  lemma {:induction false} StormConcat(m: Player, link: NetworkLink, a: seq<Event>, b: seq<Event>)
    requires Steady(m, link)
    ensures PlayAll(m, link, a + b) == PlayAll(PlayAll(m, link, a), link, b)
    ensures NeverStretches(m, link, a + b)
            <==> NeverStretches(m, link, a) && NeverStretches(PlayAll(m, link, a), link, b)
  {
    if b == [] {
      assert a + b == a;
    } else {
      assert (a + b)[..|a + b| - 1] == a + b[..|b| - 1];
      StormConcat(m, link, a, b[..|b| - 1]);
    }
  }

  // Nor may any callback up to one more step.
  lemma OneMoreStep(m: Player, link: NetworkLink, events: seq<Event>, t: Point)
    requires Steady(m, link) && Valid(t) && Storming(PlayAll(m, link, events), t)
    requires NeverStretches(m, link, events)
    ensures NeverStretches(m, link, events + StormStep(t))
    ensures Storming(PlayAll(m, link, events + StormStep(t)), Next(t))
  {
    var before := PlayAll(m, link, events);
    StormGoesOn(before, link, t);
    StepUnfolds(before, link, t);
    StormConcat(m, link, events, StormStep(t));
  }

  lemma {:induction false} StormFrom(m: Player, link: NetworkLink, t: Point)
    requires Steady(m, link) && Valid(t) && Storming(m, Point(0, 0))
    ensures NeverStretches(m, link, Storm(t)) && Storming(PlayAll(m, link, Storm(t)), t)
    decreases t.lap, t.phase
  {
    if t != Point(0, 0) {
      StormFrom(m, link, Before(t));
      OneMoreStep(m, link, Storm(Before(t)), Before(t));
      assert Next(Before(t)) == t;
    }
  }

  /** The guard does not bound the suppression by itself: from a new player, after one packet and one
      starved callback, a session with a single starved callback every half second never lets the
      actuators act again, however long it goes on. */
  lemma GuardCanLatch(link: NetworkLink, t: Point)
    requires Valid(t)
    ensures NeverStretches(PlayAll(NEW_PLAYER, link, OPENING), link, Storm(t))
  {
    OpeningStorms(link);
    StormFrom(PlayAll(NEW_PLAYER, link, OPENING), link, t);
  }
}
