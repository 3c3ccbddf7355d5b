/**
 The player's orchestrator: it owns the reorder buffer, the playback life cycle and the network
 statistics and sequences the phases of a frame callback over them, in place. Every method is tied to
 the phase of the same meaning on `Player`; the statistics are only touched by draining and by resets.
 */
module JitterManager {
  import opened Wrappers
  import opened SlotBuffer
  import opened PlaybackLifecycle
  import ReorderRing
  import FlowState
  import Step = PlaybackStep
  import NetworkObserver
  import PacketIngest
  import JitterStats
  import JointSessions

  type Packet = ReorderRing.Packet
  type Frame = Step.Frame
  type Outcome = Step.Outcome

  class JitterBufferManager {
    const buffer: JitterBuffer
    const flow: PlaybackFlow
    const stats: NetworkObserver.JitterStats
    const networkLink: Step.NetworkLink
    var startupFlushPending: bool
    var pendingGapFadein: bool
    var tally: Step.Tally

    ghost predicate Valid()
      reads this, buffer, buffer.slots
    {
      buffer.Valid()
    }

    ghost function State(): Step.Player
      reads this, buffer, flow
    {
      Step.Player(buffer.State(), flow.State(), startupFlushPending, pendingGapFadein, tally)
    }

    constructor (link: Step.NetworkLink)
      ensures Valid() && stats.Valid() && fresh(buffer) && fresh(buffer.slots) && fresh(flow)
      ensures fresh(stats) && fresh(stats.iatHistogram) && fresh(stats.gapBuckets)
      ensures State() == Step.NEW_PLAYER && stats.State() == JitterStats.InitialStats() && networkLink == link
    {
      buffer := new JitterBuffer();
      flow := new PlaybackFlow();
      stats := new NetworkObserver.JitterStats();
      networkLink := link;
      startupFlushPending, pendingGapFadein, tally := true, false, Step.NO_TALLY;
    }

    /** Drain the pending packets: the observer sees each of them, the ring those it keeps. */
    method IngestPackets(pending: seq<PacketIngest.RawPacket>)
      requires Valid() && stats.Valid()
      modifies `tally, buffer, buffer.slots, stats, stats.iatHistogram, stats.gapBuckets
      ensures Valid() && stats.Valid()
      ensures (stats.State(), State()) == PacketIngest.IngestAll(old(stats.State()), old(State()), pending)
    {
      for i := 0 to |pending|
        invariant Valid() && stats.Valid()
        invariant (stats.State(), State()) == PacketIngest.IngestAll(old(stats.State()), old(State()), pending[..i])
      {
        assert pending[..i + 1][..i] == pending[..i];
        var keep := stats.Observe(pending[i].packet.seqNum, pending[i].arrivalTime);
        if keep {
          Ingest(pending[i].packet);
        }
      }
      assert pending[..|pending|] == pending;
    }

    // One kept packet; a stale one is counted with its distance behind the playhead.
    method Ingest(p: Packet)
      requires Valid()
      modifies `tally, buffer, buffer.slots
      ensures Valid()
      ensures State() == Step.Ingest(old(State()), p)
    {
      var result := buffer.Insert(p);
      if result.Stale? {
        var lag := SaturatingSub(buffer.nextPlaySeq, p.seqNum);
        tally := tally.(staleRejects := tally.staleRejects + 1,
                        staleLagSum := tally.staleLagSum + lag,
                        staleLagMax := Max(tally.staleLagMax, lag));
      }
    }

    method ProcessNextFrame(fr: Frame) returns (outcome: Outcome)
      requires Valid() && stats.Valid()
      modifies this, buffer, buffer.slots, flow, stats, stats.iatHistogram, stats.gapBuckets
      ensures Valid() && stats.Valid()
      ensures (State(), outcome) == Step.ProcessNextFrame(old(State()), networkLink, fr)
      ensures stats.State() == JointSessions.StatsAfter(old(stats.State()), fr, outcome)
    {
      Prepare(fr);
      var held := ServePrebuffering(fr);
      if held.Some? {
        return held.value;
      }
      outcome := Proceed(fr);
    }

    // The rest of a callback whose playhead is not held.
    method Proceed(fr: Frame) returns (outcome: Outcome)
      requires Valid() && stats.Valid()
      modifies this, buffer, buffer.slots, flow, stats, stats.iatHistogram, stats.gapBuckets
      ensures Valid() && stats.Valid()
      ensures (State(), outcome) == Step.Proceed(old(State()), networkLink, fr)
      ensures stats.State()
              == if outcome.StreamReset? then JitterStats.AfterRestart(old(stats.State())) else old(stats.State())
    {
      Approach(fr);
      var has := buffer.HasNext();
      if has {
        outcome := PlayNextFrame(fr);
      } else {
        outcome := HandleMissingFrame(fr);
      }
    }

    // The depth flushes and the step over a hole, once the playhead is not held.
    method Approach(fr: Frame)
      requires Valid()
      modifies this, buffer, buffer.slots, flow
      ensures Valid()
      ensures State() == Step.Approach(old(State()), networkLink, fr)
    {
      ApplyStartupFlush(fr);
      ApplyStaticTargetFlush(fr);
      TryFastForwardOverGap(fr);
    }

    // Everything before the prebuffering phase.
    method Prepare(fr: Frame)
      requires Valid() && stats.Valid()
      modifies this, buffer, buffer.slots, flow, stats, stats.iatHistogram, stats.gapBuckets
      ensures Valid() && stats.Valid()
      ensures State() == Step.Prepare(old(State()), fr)
      ensures stats.State()
              == if fr.newTarget.Some? then JitterStats.AfterConfigChange(old(stats.State())) else old(stats.State())
    {
      flow.TickRecovery(fr.now);
      ReloadConfigIfChanged(fr);
      ApplyNoBufferFlush(fr);
    }

    method ReloadConfigIfChanged(fr: Frame)
      requires Valid() && stats.Valid()
      modifies this, buffer, buffer.slots, flow, stats, stats.iatHistogram, stats.gapBuckets
      ensures Valid() && stats.Valid()
      ensures State() == Step.ReloadConfig(old(State()), fr)
      ensures stats.State()
              == if fr.newTarget.Some? then JitterStats.AfterConfigChange(old(stats.State())) else old(stats.State())
    {
      if fr.newTarget.Some? {
        stats.ResetOnConfigChange();
        Reconverge(fr);
      }
    }

    // Hold the playhead again, at one and a half new targets at most.
    method Reconverge(fr: Frame)
      requires Valid() && fr.newTarget.Some?
      modifies this, buffer, buffer.slots, flow
      ensures Valid()
      ensures State() == Step.ReloadConfig(old(State()), fr)
    {
      flow.isPrebuffering := true;
      FlushWithCrossfade(fr.newTarget.value + fr.newTarget.value / 2);
    }

    method ApplyNoBufferFlush(fr: Frame)
      requires Valid()
      modifies this, buffer, buffer.slots
      ensures Valid()
      ensures State() == Step.NoBufferFlush(old(State()), fr)
    {
      if fr.isNoBuffer {
        var occupied := buffer.OccupiedCount();
        if occupied > fr.target + 1 {
          FlushWithCrossfade(fr.target + 1);
        }
      }
    }

    method ServePrebuffering(fr: Frame) returns (held: Option<Outcome>)
      requires Valid() && stats.Valid()
      modifies this, buffer, buffer.slots, flow, stats, stats.iatHistogram, stats.gapBuckets
      ensures Valid() && stats.Valid()
      ensures (State(), held) == Step.ServePrebuffering(old(State()), networkLink, fr)
      ensures stats.State()
              == if held == Some(Step.StreamReset) then JitterStats.AfterRestart(old(stats.State()))
                 else old(stats.State())
    {
      if !flow.isPrebuffering {
        return None;
      }
      var occupied := buffer.OccupiedCount();
      if occupied >= Max(fr.resumeFrames, fr.minDepth) {
        Release(fr);
        return None;
      }
      var outcome := Hold(fr);
      return Some(outcome);
    }

    // The depth suffices: let the playhead go, and clamp the burst that released it.
    method Release(fr: Frame)
      requires Valid() && flow.isPrebuffering && |buffer.packets| >= Max(fr.resumeFrames, fr.minDepth)
      modifies this, buffer, buffer.slots, flow
      ensures Valid()
      ensures (State(), None) == Step.ServePrebuffering(old(State()), networkLink, fr)
    {
      flow.isPrebuffering := false;
      var resumeDepth := Max(fr.bandHigh, Max(fr.resumeFrames, fr.minDepth));
      var occupied := buffer.OccupiedCount();
      if !startupFlushPending && occupied > resumeDepth {
        FlushWithCrossfade(resumeDepth);
      }
    }

    // The depth does not suffice: conceal, and on an empty ring count the miss.
    method Hold(fr: Frame) returns (outcome: Outcome)
      requires Valid() && stats.Valid() && flow.isPrebuffering
      requires |buffer.packets| < Max(fr.resumeFrames, fr.minDepth)
      modifies this, buffer, buffer.slots, flow, stats, stats.iatHistogram, stats.gapBuckets
      ensures Valid() && stats.Valid()
      ensures (State(), Some(outcome)) == Step.ServePrebuffering(old(State()), networkLink, fr)
      ensures stats.State()
              == if outcome.StreamReset? then JitterStats.AfterRestart(old(stats.State())) else old(stats.State())
    {
      var occupied := buffer.OccupiedCount();
      if occupied == 0 {
        outcome := HoldEmpty(fr);
      } else {
        outcome := ConcealHeld();
      }
    }

    method HoldEmpty(fr: Frame) returns (outcome: Outcome)
      requires Valid() && stats.Valid()
      modifies this, buffer, buffer.slots, flow, stats, stats.iatHistogram, stats.gapBuckets
      ensures Valid() && stats.Valid()
      ensures var counted := old(State()).(flow := old(flow.State()).(missingCount := old(flow.missingCount) + 1));
              (State(), outcome)
              == if counted.flow.missingCount > Step.MaxMissingFor(networkLink)
                 then (Step.TriggerReset(counted, fr.now), Step.StreamReset)
                 else (Step.Concealed(counted.(flow := FlowState.DiscardWindow(counted.flow))), Step.Held)
      ensures stats.State()
              == if outcome.StreamReset? then JitterStats.AfterRestart(old(stats.State())) else old(stats.State())
    {
      flow.missingCount := flow.missingCount + 1;
      assert State() == old(State()).(flow := old(flow.State()).(missingCount := old(flow.missingCount) + 1));
      var reset := CheckResetOnMissing(fr);
      if reset {
        outcome := Step.StreamReset;
      } else {
        outcome := ConcealHeld();
      }
    }

    // Conceal while the playhead is held, outside the concealment window.
    method ConcealHeld() returns (outcome: Outcome)
      modifies flow`concealCallbacks, flow`windowCallbacks, flow`concealRun
      ensures outcome == Step.Held
      ensures State() == Step.Concealed(old(State()).(flow := FlowState.DiscardWindow(old(flow.State()))))
    {
      flow.DiscardConcealWindow();
      GeneratePlc();
      return Step.Held;
    }

    method ApplyStartupFlush(fr: Frame)
      requires Valid()
      modifies this, buffer, buffer.slots
      ensures Valid()
      ensures State() == Step.StartupFlush(old(State()), fr)
    {
      if startupFlushPending {
        startupFlushPending := false;
        var safeFlushTarget := Max(Max(fr.target, fr.minDepth * 2), 8);
        var occupied := buffer.OccupiedCount();
        if occupied > safeFlushTarget + 2 {
          FlushWithCrossfade(safeFlushTarget);
        }
      }
    }

    method ApplyStaticTargetFlush(fr: Frame)
      requires Valid()
      modifies this, buffer, buffer.slots
      ensures Valid()
      ensures State() == Step.StaticFlush(old(State()), fr)
    {
      var occupied := buffer.OccupiedCount();
      if fr.isStatic && occupied > fr.target + 1 {
        FlushWithCrossfade(fr.target);
      }
    }

    /** Count one callback at a hole and jump across it when its far end is far ahead or the tolerance is
        spent. The ring is not empty here, so the query always answers and no branch is needed for a
        missing answer. */
    method TryFastForwardOverGap(fr: Frame)
      requires Valid()
      modifies this, buffer, buffer.slots, flow
      ensures Valid()
      ensures State() == Step.FastForwardOverGap(old(State()), networkLink, fr)
    {
      var occupied := buffer.OccupiedCount();
      var has := buffer.HasNext();
      if occupied > 0 && !has {
        var lo := AskAtGap();
        CrossGap(lo, Step.ReorderToleranceFor(networkLink, fr.isNoBuffer));
      }
    }

    // Count the callback at a hole and ask for the far end of it.
    method AskAtGap() returns (lo: nat)
      requires Valid() && buffer.packets != map[]
      modifies flow`gapHoldCount, buffer`cachedMinSeq
      ensures Valid()
      ensures State() == Step.AtGap(old(State()))
      ensures Some(lo) == ReorderRing.LowestAvailable(old(buffer.State())).1 && buffer.nextPlaySeq <= lo
    {
      flow.gapHoldCount := flow.gapHoldCount + 1;
      ReorderRing.LowestKeeps(buffer.State());
      var answer := buffer.LowestAvailableSeq();
      lo := answer.value;
    }

    // Jump across the hole when its far end is far ahead or the tolerance is spent, and mark the
    // next frame for a fade-in.
    method CrossGap(lo: nat, tolerance: nat)
      requires Valid() && buffer.nextPlaySeq <= lo
      modifies this, buffer, buffer.slots, flow
      ensures Valid()
      ensures State() == Step.CrossGap(old(State()), lo, tolerance)
    {
      if Step.Distance(lo, buffer.nextPlaySeq) > Step.FAR_GAP || flow.gapHoldCount >= tolerance {
        CountSkip(SaturatingSub(lo, buffer.nextPlaySeq));
        buffer.FastForward(lo);
        flow.gapHoldCount := 0;
        pendingGapFadein := true;
      }
    }

    method CountSkip(width: nat)
      modifies `tally
      ensures tally == Step.CountSkip(old(tally), width)
    {
      tally := tally.(playheadSkips := tally.playheadSkips + 1, skippedFrames := tally.skippedFrames + width);
    }

    /** Play the packet at the playhead, and whatever the splice takes besides. */
    method PlayNextFrame(fr: Frame) returns (outcome: Outcome)
      requires Valid() && ReorderRing.HasNext(buffer.State())
      modifies this, buffer, buffer.slots, flow
      ensures Valid()
      ensures (State(), outcome) == Step.PlayNextFrame(old(State()), fr)
    {
      Resume(fr);
      var p := buffer.PopNext();
      pendingGapFadein := false;
      var allowed := flow.StretchAllowed(fr.now);
      var splice := if allowed then fr.splice else Step.Verbatim;
      var extra := TakeSplice(splice);
      CountPlay(splice, |extra|);
      outcome := Step.PlayedWith(p.value, splice, extra);
    }

    method CountPlay(splice: Step.Splice, extra: nat)
      modifies `tally
      ensures tally == Step.CountPlay(old(tally), splice, extra)
    {
      tally := tally.(framesPlayed := tally.framesPlayed + 1);
      if splice.Shed? {
        tally := tally.(shed := tally.shed + extra);
      } else if splice.StageNext? {
        tally := tally.(stagedPops := tally.stagedPops + extra);
      }
    }

    // A real frame ends the hold, the outage and the concealment run.
    method Resume(fr: Frame)
      requires Valid()
      modifies flow
      ensures flow.State() == Step.Resumed(old(State()), fr)
    {
      flow.gapHoldCount, flow.missingCount, flow.concealRun := 0, 0, 0;
      ObserveDelivery(false, fr);
      LeaveStarvation(fr);
    }

    // The first real frame after a starvation arms the guards.
    method LeaveStarvation(fr: Frame)
      modifies flow
      ensures flow.State() == Step.LeaveStarvation(old(flow.State()), fr)
    {
      if flow.starvationCount > 0 {
        if !fr.tcpMode {
          flow.starvationRecovery := Min(Max(fr.effectiveTarget * 2, 50), 200);
          flow.ArmRecoveryWindow(fr.now);
        }
        flow.starvationCount := 0;
      }
    }

    // The further packets a splice takes, shed or staged.
    method TakeSplice(splice: Step.Splice) returns (extra: seq<Packet>)
      requires Valid()
      modifies buffer, buffer.slots
      ensures Valid()
      ensures (buffer.State(), extra) == Step.SplicePackets(old(buffer.State()), splice)
    {
      match splice
      case Verbatim =>
        extra := [];
      case Shed(count, highLimit) =>
        extra := ShedPackets(count, highLimit);
      case StageNext =>
        extra := [];
        var has := buffer.HasNext();
        if has {
          extra := ShedPackets(1, 0);
        }
    }

    method ShedPackets(count: nat, highLimit: nat) returns (extra: seq<Packet>)
      requires Valid()
      modifies buffer, buffer.slots
      ensures Valid()
      ensures (buffer.State(), extra) == Step.ShedPackets(old(buffer.State()), count, highLimit)
    {
      extra := [];
      for i := 0 to count
        invariant Valid()
        invariant (buffer.State(), extra) == Step.ShedPackets(old(buffer.State()), i, highLimit)
      {
        var occupied := buffer.OccupiedCount();
        var has := buffer.HasNext();
        if occupied > highLimit && has {
          var p := buffer.PopNext();
          extra := extra + [p.value];
        }
      }
    }

    method HandleMissingFrame(fr: Frame) returns (outcome: Outcome)
      requires Valid() && stats.Valid()
      modifies this, buffer, buffer.slots, flow, stats, stats.iatHistogram, stats.gapBuckets
      ensures Valid() && stats.Valid()
      ensures (State(), outcome) == Step.HandleMissingFrame(old(State()), networkLink, fr)
      ensures stats.State()
              == if outcome.StreamReset? then JitterStats.AfterRestart(old(stats.State())) else old(stats.State())
    {
      Miss(fr);
      assert State() == old(State()).(flow := Step.Missed(old(State()), fr));
      var occupied := buffer.OccupiedCount();
      outcome := ResetOrConceal(fr, if occupied == 0 then Step.Starved else Step.HoleWait);
    }

    // A stream reset when the misses exceed the limit, and concealment that ends as told otherwise.
    method ResetOrConceal(fr: Frame, concealed: Outcome) returns (outcome: Outcome)
      requires Valid() && stats.Valid() && !concealed.StreamReset?
      modifies this, buffer, buffer.slots, flow, stats, stats.iatHistogram, stats.gapBuckets
      ensures Valid() && stats.Valid()
      ensures (State(), outcome)
              == if old(flow.missingCount) > Step.MaxMissingFor(networkLink)
                 then (Step.TriggerReset(old(State()), fr.now), Step.StreamReset)
                 else (Step.Concealed(old(State())), concealed)
      ensures stats.State()
              == if outcome.StreamReset? then JitterStats.AfterRestart(old(stats.State())) else old(stats.State())
    {
      outcome := concealed;
      var reset := CheckResetOnMissing(fr);
      if reset {
        outcome := Step.StreamReset;
      } else {
        GeneratePlc();
      }
    }

    // A callback without a frame counts as a miss, and on an empty ring as starvation.
    method Miss(fr: Frame)
      requires Valid()
      modifies flow
      ensures flow.State() == Step.Missed(old(State()), fr)
    {
      flow.missingCount := flow.missingCount + 1;
      ObserveDelivery(true, fr);
      var occupied := buffer.OccupiedCount();
      if occupied == 0 {
        Starve(fr);
      }
    }

    // One more callback on an empty ring.
    method Starve(fr: Frame)
      modifies flow
      ensures flow.State() == Step.Starve(old(flow.State()), fr.now)
    {
      flow.gapHoldCount := 0;
      flow.starvationCount := flow.starvationCount + 1;
      if flow.starvationCount == 1 {
        var first := flow.NoteStarvationOnset(fr.now);
      }
      if flow.starvationCount == Step.REBUFFER_AFTER {
        flow.isPrebuffering := true;
      }
    }

    method ObserveDelivery(concealed: bool, fr: Frame)
      requires Valid()
      modifies flow
      ensures State() == Step.ObserveDelivery(old(State()), concealed, fr)
    {
      var occupied := buffer.OccupiedCount();
      if !concealed && occupied > fr.minDepth {
        var census := flow.CloseStarvationEpisode(fr.now);
      }
      if flow.isPrebuffering {
        flow.DiscardConcealWindow();
        return;
      }
      var verdict := flow.ObserveDelivery(concealed);
      if verdict.Some? && verdict.value.shouldRebuffer {
        flow.isPrebuffering := true;
      }
    }

    method CheckResetOnMissing(fr: Frame) returns (reset: bool)
      requires Valid() && stats.Valid()
      modifies this, buffer, buffer.slots, flow, stats, stats.iatHistogram, stats.gapBuckets
      ensures Valid() && stats.Valid()
      ensures reset == (old(flow.missingCount) > Step.MaxMissingFor(networkLink))
      ensures State() == if reset then Step.TriggerReset(old(State()), fr.now) else old(State())
      ensures stats.State() == if reset then JitterStats.AfterRestart(old(stats.State())) else old(stats.State())
    {
      reset := flow.missingCount > Step.MaxMissingFor(networkLink);
      if reset {
        TriggerReset(fr);
      }
    }

    method TriggerReset(fr: Frame)
      requires Valid() && stats.Valid()
      modifies this, buffer, buffer.slots, flow, stats, stats.iatHistogram, stats.gapBuckets
      ensures Valid() && stats.Valid()
      ensures State() == Step.TriggerReset(old(State()), fr.now)
      ensures stats.State() == JitterStats.AfterRestart(old(stats.State()))
    {
      var census := flow.CloseStarvationEpisode(fr.now);
      buffer.Reset();
      flow.ResetOnStreamRestart();
      stats.ResetOnStreamRestart();
      pendingGapFadein := false;
    }

    method GeneratePlc()
      modifies flow`concealRun
      ensures State() == Step.Concealed(old(State()))
    {
      flow.concealRun := flow.concealRun + 1;
    }

    /** Flush the ring down to a depth, decoding what the loop pops on the way. */
    method FlushWithCrossfade(flushTo: nat)
      requires Valid()
      modifies `tally, buffer, buffer.slots
      ensures Valid()
      ensures State() == Step.FlushWithCrossfade(old(State()), flushTo)
    {
      var occupied := buffer.OccupiedCount();
      if occupied <= flushTo {
        return;
      }
      tally := tally.(flushDiscards := tally.flushDiscards + (occupied - flushTo));
      var decoded := DrainTo(flushTo);
    }

    method DrainTo(flushTo: nat) returns (decoded: seq<Packet>)
      requires Valid()
      modifies buffer, buffer.slots
      ensures Valid()
      ensures buffer.State() == Step.Flush(old(buffer.State()), flushTo).0
      ensures decoded == Step.Flush(old(buffer.State()), flushTo).1
    {
      decoded := [];
      var occupied := buffer.OccupiedCount();
      ghost var goal := Step.Flush(buffer.State(), flushTo);
      assert [] + goal.1 == goal.1;
      while occupied > flushTo
        invariant Valid() && occupied == |buffer.packets|
        invariant Step.Drains(buffer.State(), flushTo, decoded, goal)
        decreases |buffer.packets|, Step.HoleAhead(buffer.State())
      {
        Step.FlushPassProgress(buffer.State());
        Step.DrainOn(buffer.State(), flushTo, decoded, goal);
        var pass := FlushPass();
        decoded := decoded + pass;
        occupied := buffer.OccupiedCount();
      }
      Step.DrainOn(buffer.State(), flushTo, decoded, goal);
    }

    // Decode the next packet or, at a hole, step over it and drop what follows.
    method FlushPass() returns (decoded: seq<Packet>)
      requires Valid()
      modifies buffer, buffer.slots
      ensures Valid()
      ensures (buffer.State(), decoded) == Step.FlushPass(old(buffer.State()))
    {
      var p := buffer.PopNext();
      if p.Some? {
        return [p.value];
      }
      buffer.AdvanceOne();
      return [];
    }
  }
}
