/**
 One frame callback of the player, as a step over the reorder ring and the playback life cycle.

 The target depth and everything derived from it arrive as arbitrary numbers with each callback,
 and the time-scaler is an oracle that says how many further packets a splice takes; audio content
 is not part of the state.
 */
module PlaybackStep {
  import opened Wrappers
  import opened ReorderRing
  import FlowState

  type Flow = FlowState.Flow

  datatype NetworkLink = Adb | UsbTether | Wifi5Ghz | Wifi2_4Ghz | Ethernet | WifiUnknown | Unknown

  // Callbacks to wait for a reordered packet before a hole is skipped.
  function ReorderToleranceFor(link: NetworkLink, isNoBuffer: bool): nat {
    if isNoBuffer then 0
    else if link.Wifi2_4Ghz? then 6
    else 3
  }

  // Callbacks without a playable frame after which the stream is reset.
  function MaxMissingFor(link: NetworkLink): nat {
    match link
    case Wifi2_4Ghz => 300
    case WifiUnknown => 200
    case Unknown => 200
    case _ => 100
  }

  const REBUFFER_AFTER: nat := 5
  // A jump across more numbers than this does not wait for the tolerance.
  const FAR_GAP: nat := 20

  // What the time-scaler does with the frame being played.
  datatype Splice = Verbatim | Shed(count: nat, highLimit: nat) | StageNext

  /** Everything a callback is told from outside.
      `newTarget` is present when a changed configuration was picked up on this callback;
      `resumeFrames` is the release threshold before the minimum depth is applied. */
  datatype Frame = Frame(
    now: nat,
    newTarget: Option<nat>,
    target: nat,
    minDepth: nat,
    resumeFrames: nat,
    bandHigh: nat,
    isNoBuffer: bool,
    isStatic: bool,
    tcpMode: bool,
    effectiveTarget: nat,
    splice: Splice)

  datatype Tally = Tally(
    flushDiscards: nat,
    playheadSkips: nat,
    skippedFrames: nat,
    framesPlayed: nat,
    stagedPops: nat,
    shed: nat,
    staleRejects: nat,
    staleLagSum: nat,
    staleLagMax: nat)

  const NO_TALLY := Tally(0, 0, 0, 0, 0, 0, 0, 0, 0)

  // A packet that came `lag` numbers behind the playhead.
  function CountStale(t: Tally, lag: nat): Tally {
    t.(staleRejects := t.staleRejects + 1, staleLagSum := t.staleLagSum + lag, staleLagMax := Max(t.staleLagMax, lag))
  }

  function CountSkip(t: Tally, distance: nat): Tally {
    t.(playheadSkips := t.playheadSkips + 1, skippedFrames := t.skippedFrames + distance)
  }

  // A frame played, and the packets its splice took.
  function CountPlay(t: Tally, splice: Splice, extra: nat): Tally {
    t.(framesPlayed := t.framesPlayed + 1,
       stagedPops := t.stagedPops + if splice.StageNext? then extra else 0,
       shed := t.shed + if splice.Shed? then extra else 0)
  }

  datatype Player = Player(
    ring: Ring,
    flow: Flow,
    startupFlushPending: bool,
    pendingGapFadein: bool,
    tally: Tally)

  const NEW_PLAYER := Player(EMPTY_RING, FlowState.NEW_FLOW, true, false, NO_TALLY)

  /** How a callback ended: concealing while the playhead is held, concealing on an empty ring,
      concealing at a hole, playing, or resetting the stream. A callback that plays takes packets out
      of the ring whose sound goes on, and may take further ones that it decodes and drops. */
  datatype Outcome =
    | Held
    | Starved
    | HoleWait
    | Played(emitted: seq<Packet>, shed: seq<Packet>)
    | StreamReset

  function Occupied(m: Player): nat {
    |m.ring.packets|
  }

  // ----- arrivals -----

  /** One arriving packet: filed in the ring, or counted as stale with its distance behind the
      playhead. */
  function Ingest(m: Player, p: Packet): Player {
    var filed := m.(ring := Insert(m.ring, p));
    if InsertOutcome(m.ring, p.seqNum).Stale?
    then filed.(tally := CountStale(m.tally, SaturatingSub(filed.ring.playhead, p.seqNum)))
    else filed
  }

  // ----- flushing down to a depth -----

  // One pass of the flush loop: the ring after it, and the packet it decoded, if any.
  function FlushPass(r: Ring): (Ring, seq<Packet>) {
    var popped := PopNext(r);
    if popped.1.Some? then (popped.0, [popped.1.value]) else (AdvanceOne(popped.0), [])
  }

  ghost function HoleAhead(r: Ring): nat {
    var lo := LowestResident(r);
    if lo.Some? then SaturatingSub(lo.value, r.playhead) else 0
  }

  lemma FlushPassProgress(r: Ring)
    requires r.WellFormed() && r.packets != map[]
    ensures FlushPass(r).0.WellFormed()
    ensures var q := FlushPass(r).0;
            |q.packets| < |r.packets| || (|q.packets| == |r.packets| && HoleAhead(q) < HoleAhead(r))
  {
    LowestResidentIsLeast(r);
    PopKeeps(r);
    PopKeeps(PopNext(r).0);
    var q := FlushPass(r).0;
    WithoutOne(r.packets, r.playhead);
    WithoutOne(PopNext(r).0.packets, PopNext(r).0.playhead);
    if |q.packets| == |r.packets| {
      assert q.packets == r.packets;
      LowestResidentIsLeast(q);
    }
  }

  /** The flush loop: the ring it leaves and the packets it decoded on the way. */
  ghost function Flush(r: Ring, flushTo: nat): (Ring, seq<Packet>)
    requires r.WellFormed()
    decreases |r.packets|, HoleAhead(r)
  {
    if |r.packets| <= flushTo then (r, [])
    else
      FlushPassProgress(r);
      var pass := FlushPass(r);
      var rest := Flush(pass.0, flushTo);
      (rest.0, pass.1 + rest.1)
  }

  lemma FlushUnfolds(r: Ring, flushTo: nat)
    requires r.WellFormed() && |r.packets| > flushTo
    ensures FlushPass(r).0.WellFormed()
    ensures Flush(r, flushTo).0 == Flush(FlushPass(r).0, flushTo).0
    ensures Flush(r, flushTo).1 == FlushPass(r).1 + Flush(FlushPass(r).0, flushTo).1
  {
    FlushPassProgress(r);
  }

  // A loop that has decoded `decoded` so far is on its way to `goal`.
  ghost predicate Drains(r: Ring, flushTo: nat, decoded: seq<Packet>, goal: (Ring, seq<Packet>)) {
    && r.WellFormed()
    && Flush(r, flushTo).0 == goal.0
    && decoded + Flush(r, flushTo).1 == goal.1
  }

  lemma DrainOn(r: Ring, flushTo: nat, decoded: seq<Packet>, goal: (Ring, seq<Packet>))
    requires Drains(r, flushTo, decoded, goal)
    ensures |r.packets| > flushTo ==> Drains(FlushPass(r).0, flushTo, decoded + FlushPass(r).1, goal)
    ensures |r.packets| <= flushTo ==> (r, decoded) == goal
  {
    if |r.packets| > flushTo {
      FlushUnfolds(r, flushTo);
      var pass := FlushPass(r);
      assert decoded + (pass.1 + Flush(pass.0, flushTo).1) == (decoded + pass.1) + Flush(pass.0, flushTo).1;
    } else {
      assert decoded + [] == decoded;
    }
  }

  ghost function FlushWithCrossfade(m: Player, flushTo: nat): (n: Player)
    requires m.ring.WellFormed()
    ensures n.ring.WellFormed()
  {
    if Occupied(m) <= flushTo then m
    else
      FlushIsSuffix(m.ring, flushTo);
      m.(ring := Flush(m.ring, flushTo).0,
         tally := m.tally.(flushDiscards := m.tally.flushDiscards + (Occupied(m) - flushTo)))
  }

  // ----- the phases of a callback -----

  ghost function ReloadConfig(m: Player, fr: Frame): (n: Player)
    requires m.ring.WellFormed()
    ensures n.ring.WellFormed()
  {
    if fr.newTarget.None? then m
    else FlushWithCrossfade(m.(flow := m.flow.(isPrebuffering := true)), fr.newTarget.value + fr.newTarget.value / 2)
  }

  ghost function NoBufferFlush(m: Player, fr: Frame): (n: Player)
    requires m.ring.WellFormed()
    ensures n.ring.WellFormed()
  {
    if fr.isNoBuffer then FlushWithCrossfade(m, fr.target + 1) else m
  }

  function Concealed(m: Player): Player {
    m.(flow := m.flow.(concealRun := m.flow.concealRun + 1))
  }

  function TriggerReset(m: Player, now: nat): Player {
    m.(ring := EMPTY_RING,
       flow := FlowState.ResetOnStreamRestart(FlowState.CloseStarvationEpisode(m.flow, now).0),
       pendingGapFadein := false)
  }

  function UnpauseThreshold(fr: Frame): nat {
    Max(fr.resumeFrames, fr.minDepth)
  }

  // The prebuffering phase; an outcome means that the callback ends here.
  ghost function ServePrebuffering(m: Player, link: NetworkLink, fr: Frame): (served: (Player, Option<Outcome>))
    requires m.ring.WellFormed()
    ensures served.0.ring.WellFormed()
  {
    if !m.flow.isPrebuffering then
      (m, None)
    else if Occupied(m) >= UnpauseThreshold(fr) then
      var released := m.(flow := m.flow.(isPrebuffering := false));
      (if m.startupFlushPending then released
       else FlushWithCrossfade(released, Max(fr.bandHigh, UnpauseThreshold(fr))),
       None)
    else
      var counted := if Occupied(m) == 0 then m.(flow := m.flow.(missingCount := m.flow.missingCount + 1)) else m;
      if Occupied(m) == 0 && counted.flow.missingCount > MaxMissingFor(link) then
        (TriggerReset(counted, fr.now), Some(StreamReset))
      else
        (Concealed(counted.(flow := FlowState.DiscardWindow(counted.flow))), Some(Held))
  }

  ghost function StartupFlush(m: Player, fr: Frame): (n: Player)
    requires m.ring.WellFormed()
    ensures n.ring.WellFormed()
  {
    if !m.startupFlushPending then m
    else
      var started := m.(startupFlushPending := false);
      var safe := Max(Max(fr.target, fr.minDepth * 2), 8);
      if Occupied(m) > safe + 2 then FlushWithCrossfade(started, safe) else started
  }

  ghost function StaticFlush(m: Player, fr: Frame): (n: Player)
    requires m.ring.WellFormed()
    ensures n.ring.WellFormed()
  {
    if fr.isStatic && Occupied(m) > fr.target + 1 then FlushWithCrossfade(m, fr.target) else m
  }

  // The far end of a hole is named by the cached minimum, exact or not.
  function FastForwardOverGap(m: Player, link: NetworkLink, fr: Frame): Player {
    if Occupied(m) > 0 && !HasNext(m.ring) then
      var answer := LowestAvailable(m.ring).1;
      if answer.Some? then CrossGap(AtGap(m), answer.value, ReorderToleranceFor(link, fr.isNoBuffer)) else AtGap(m)
    else
      m
  }

  // One more callback at a hole, after asking for its far end.
  function AtGap(m: Player): Player {
    m.(ring := LowestAvailable(m.ring).0, flow := m.flow.(gapHoldCount := m.flow.gapHoldCount + 1))
  }

  // Jump to `lo` when it is far ahead or the tolerance is spent.
  function CrossGap(m: Player, lo: nat, tolerance: nat): Player {
    if Distance(lo, m.ring.playhead) > FAR_GAP || m.flow.gapHoldCount >= tolerance then
      m.(ring := SkipTo(m.ring, lo),
         flow := m.flow.(gapHoldCount := 0),
         pendingGapFadein := true,
         tally := CountSkip(m.tally, SaturatingSub(lo, m.ring.playhead)))
    else
      m
  }

  function Distance(a: nat, b: nat): nat {
    if a >= b then a - b else b - a
  }

  // One callback's delivery outcome: it may close an episode, and it may hold the playhead.
  function ObserveDelivery(m: Player, concealed: bool, fr: Frame): Player {
    var closed := if !concealed && Occupied(m) > fr.minDepth
                  then FlowState.CloseStarvationEpisode(m.flow, fr.now).0 else m.flow;
    m.(flow := if closed.isPrebuffering then FlowState.DiscardWindow(closed)
               else
                 var (observed, verdict) := FlowState.ObserveDelivery(closed, concealed);
                 if verdict.Some? && verdict.value.shouldRebuffer then observed.(isPrebuffering := true) else observed)
  }

  function RecoveryCountdown(effectiveTarget: nat): nat {
    Min(Max(effectiveTarget * 2, 50), 200)
  }

  function LeaveStarvation(f: Flow, fr: Frame): Flow {
    if f.starvationCount == 0 then f
    else
      var guarded := if fr.tcpMode then f
                     else
                       var counting := f.(starvationRecovery := RecoveryCountdown(fr.effectiveTarget));
                       FlowState.ArmRecoveryWindow(counting, fr.now);
      guarded.(starvationCount := 0)
  }

  // Up to `count` further packets, while the ring is above a limit and the next one is there.
  function ShedPackets(r: Ring, count: nat, highLimit: nat): (Ring, seq<Packet>) {
    if count == 0 then (r, [])
    else
      var (before, taken) := ShedPackets(r, count - 1, highLimit);
      if |before.packets| > highLimit && HasNext(before) then
        var (after, extra) := PopNext(before);
        (after, if extra.Some? then taken + [extra.value] else taken)
      else
        (before, taken)
  }

  // What a splice takes from the ring beyond the frame being played.
  function SplicePackets(r: Ring, splice: Splice): (Ring, seq<Packet>) {
    match splice
    case Verbatim => (r, [])
    case Shed(count, highLimit) => ShedPackets(r, count, highLimit)
    case StageNext => if HasNext(r) then ShedPackets(r, 1, 0) else (r, [])
  }

  // The life cycle when a real frame is about to be played.
  function Resumed(m: Player, fr: Frame): Flow {
    var playing := m.(flow := m.flow.(gapHoldCount := 0, missingCount := 0, concealRun := 0));
    LeaveStarvation(ObserveDelivery(playing, false, fr).flow, fr)
  }

  // What a splice takes besides the frame is dropped when shed, and played when staged.
  function PlayedWith(frame: Packet, splice: Splice, extra: seq<Packet>): Outcome {
    if splice.Shed? then Played([frame], extra) else Played([frame] + extra, [])
  }

  function PlayNextFrame(m: Player, fr: Frame): (Player, Outcome)
    requires HasNext(m.ring)
  {
    var flow := Resumed(m, fr);
    var popped := PopNext(m.ring).0;
    var splice := if FlowState.StretchAllowed(flow, fr.now) then fr.splice else Verbatim;
    var (spliced, extra) := SplicePackets(popped, splice);
    (m.(ring := spliced,
        flow := flow,
        pendingGapFadein := false,
        tally := CountPlay(m.tally, splice, |extra|)),
     PlayedWith(m.ring.packets[m.ring.playhead], splice, extra))
  }

  function Starve(f: Flow, now: nat): Flow {
    var starved := f.(gapHoldCount := 0, starvationCount := f.starvationCount + 1);
    var noted := if starved.starvationCount == 1 then FlowState.NoteStarvationOnset(starved, now).0 else starved;
    if noted.starvationCount == REBUFFER_AFTER then noted.(isPrebuffering := true) else noted
  }

  // The life cycle when there is nothing to play.
  function Missed(m: Player, fr: Frame): Flow {
    var missing := m.(flow := m.flow.(missingCount := m.flow.missingCount + 1));
    var observed := ObserveDelivery(missing, true, fr).flow;
    if Occupied(m) == 0 then Starve(observed, fr.now) else observed
  }

  function HandleMissingFrame(m: Player, link: NetworkLink, fr: Frame): (Player, Outcome) {
    var counted := m.(flow := Missed(m, fr));
    if counted.flow.missingCount > MaxMissingFor(link) then
      (TriggerReset(counted, fr.now), StreamReset)
    else
      (Concealed(counted), if Occupied(m) == 0 then Starved else HoleWait)
  }

  // ----- the callback -----

  /** The phases before anything is played: tick, configuration, and the flush of no-buffer mode. */
  ghost function Prepare(m: Player, fr: Frame): (n: Player)
    requires m.ring.WellFormed()
    ensures n.ring.WellFormed()
  {
    NoBufferFlush(ReloadConfig(m.(flow := FlowState.TickRecovery(m.flow, fr.now)), fr), fr)
  }

  // The two depth flushes that follow once the playhead is not held.
  ghost function AtDepth(m: Player, fr: Frame): (n: Player)
    requires m.ring.WellFormed()
    ensures n.ring.WellFormed()
  {
    StaticFlush(StartupFlush(m, fr), fr)
  }

  /** What follows once the playhead is not held: the two depth flushes and the step over a hole. */
  ghost function Approach(m: Player, link: NetworkLink, fr: Frame): Player
    requires m.ring.WellFormed()
  {
    FastForwardOverGap(AtDepth(m, fr), link, fr)
  }

  // The callback from there on.
  ghost function Proceed(m: Player, link: NetworkLink, fr: Frame): (Player, Outcome)
    requires m.ring.WellFormed()
  {
    var ready := Approach(m, link, fr);
    if HasNext(ready.ring) then PlayNextFrame(ready, fr) else HandleMissingFrame(ready, link, fr)
  }

  ghost function ProcessNextFrame(m: Player, link: NetworkLink, fr: Frame): (Player, Outcome)
    requires m.ring.WellFormed()
  {
    var (served, ended) := ServePrebuffering(Prepare(m, fr), link, fr);
    if ended.Some? then (served, ended.value) else Proceed(served, link, fr)
  }

  // ----- what a flush leaves -----

  /** `b` is `a` seen from a later playhead: nothing at or beyond it is touched, nothing before it
      is left. */
  ghost predicate Suffix(a: Ring, b: Ring) {
    && b.WellFormed()
    && a.initialized == b.initialized
    && a.playhead <= b.playhead
    && b.packets == KeepFrom(a.packets, b.playhead)
  }

  lemma SuffixReflexive(a: Ring)
    requires a.WellFormed()
    ensures Suffix(a, a)
  {
    assert a.packets == KeepFrom(a.packets, a.playhead);
  }

  lemma SuffixTransitive(a: Ring, b: Ring, c: Ring)
    requires Suffix(a, b) && Suffix(b, c)
    ensures Suffix(a, c)
  {
    assert KeepFrom(KeepFrom(a.packets, b.playhead), c.playhead) == KeepFrom(a.packets, c.playhead);
  }

  lemma AdvanceIsSuffix(a: Ring)
    requires a.WellFormed()
    ensures Suffix(a, AdvanceOne(a)) && Suffix(a, PopNext(a).0)
    ensures |AdvanceOne(a).packets| == |a.packets| - if a.playhead in a.packets then 1 else 0
    ensures |PopNext(a).0.packets| == |a.packets| - if HasNext(a) then 1 else 0
  {
    PopKeeps(a);
    WithoutOne(a.packets, a.playhead);
    SuffixReflexive(a);
    assert AdvanceOne(a).packets == KeepFrom(a.packets, a.playhead + 1);
    if a.initialized && a.playhead !in a.packets {
      assert a.packets == KeepFrom(a.packets, a.playhead + 1);
    }
  }

  lemma FlushPassIsSuffix(a: Ring)
    requires a.WellFormed() && a.packets != map[]
    ensures Suffix(a, FlushPass(a).0)
    ensures |a.packets| - 1 <= |FlushPass(a).0.packets| <= |a.packets|
  {
    AdvanceIsSuffix(a);
    if PopNext(a).1.None? {
      AdvanceIsSuffix(PopNext(a).0);
      SuffixTransitive(a, PopNext(a).0, FlushPass(a).0);
    }
  }

  /** Whatever holes the ring has, the flush ends with exactly the requested number of packets, or
      all of them when there were no more; those it keeps are the ones with the largest numbers. */
  lemma {:induction false} FlushIsSuffix(r: Ring, flushTo: nat)
    requires r.WellFormed()
    ensures Suffix(r, Flush(r, flushTo).0)
    ensures |Flush(r, flushTo).0.packets| == Min(|r.packets|, flushTo)
    decreases |r.packets|, HoleAhead(r)
  {
    if |r.packets| <= flushTo {
      SuffixReflexive(r);
    } else {
      FlushPassProgress(r);
      FlushPassIsSuffix(r);
      FlushIsSuffix(FlushPass(r).0, flushTo);
      SuffixTransitive(r, FlushPass(r).0, Flush(r, flushTo).0);
    }
  }
}
