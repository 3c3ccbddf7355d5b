/**
 The network observer of the player: for every packet that makes forward progress it updates the
 delay history, the histogram and the gap window, in place. `Stats` is the value it stands for.

 Times are nanoseconds on the receive thread's monotonic clock.
 */
module JitterStats {
  import opened Wrappers
  import DelayHistogram
  import HistogramAging
  import RelativeDelay
  import GapWindow

  type Histogram = DelayHistogram.Histogram
  type Window = GapWindow.Window
  type Arrival = RelativeDelay.Arrival

  datatype Stats = Stats(
    lastSeq: Option<nat>,
    lastArrival: Option<nat>,
    history: seq<real>,
    histogram: Histogram,
    window: Window)
  {
    ghost predicate WellFormed() {
      && |history| <= RelativeDelay.HISTORY
      && DelayHistogram.WellFormed(histogram)
      && |window.ages| == GapWindow.BUCKETS
      && (forall a :: 0 <= a < GapWindow.BUCKETS ==> window.ages[a] >= 0.0)
    }
  }

  function InitialStats(): Stats {
    Stats(None, None, [], DelayHistogram.SEED, GapWindow.EmptyWindow())
  }

  // What a stream restart leaves: everything anew but the last arrival time.
  function AfterRestart(s: Stats): Stats {
    InitialStats().(lastArrival := s.lastArrival)
  }

  // And what a changed configuration leaves: everything anew but the last packet.
  function AfterConfigChange(s: Stats): Stats {
    InitialStats().(lastSeq := s.lastSeq, lastArrival := s.lastArrival)
  }

  // Only a packet ahead of the last one, by less than a resume jump, is measured.
  predicate Measures(s: Stats, seqNum: nat) {
    && s.lastArrival.Some? && s.lastSeq.Some?
    && s.lastSeq.value < seqNum < s.lastSeq.value + RelativeDelay.RESUME_JUMP
  }

  function UpdatedHistogram(h: Histogram, delay: real): Histogram
    requires |h.bins| == DelayHistogram.BINS
  {
    HistogramAging.Observe(h, DelayHistogram.HistogramBin(delay))
  }

  /** One arrival: the new statistics, and whether the packet is to be kept. A packet that is
      measured while the clock ran backwards is dropped and changes nothing. */
  function Observe(s: Stats, seqNum: nat, at: nat): (Stats, bool)
    requires |s.histogram.bins| == DelayHistogram.BINS && |s.window.ages| == GapWindow.BUCKETS
  {
    if !Measures(s, seqNum) then
      (s.(lastSeq := Some(seqNum), lastArrival := Some(at)), true)
    else if at < s.lastArrival.value then
      (s, false)
    else
      (Measured(s, seqNum, at), true)
  }

  // The statistics with a packet measured against the last one.
  function Measured(s: Stats, seqNum: nat, at: nat): Stats
    requires |s.histogram.bins| == DelayHistogram.BINS && |s.window.ages| == GapWindow.BUCKETS
    requires Measures(s, seqNum) && s.lastArrival.value <= at
  {
    var silence := RelativeDelay.Silence(s.lastArrival.value, at);
    var history := RelativeDelay.Push(s.history, silence - (seqNum - s.lastSeq.value) as real);
    Stats(Some(seqNum), Some(at), history,
          UpdatedHistogram(s.histogram, RelativeDelay.Running(history)),
          GapWindow.Record(s.window, silence, at))
  }

  lemma MeasuredKeeps(s: Stats, seqNum: nat, at: nat)
    requires s.WellFormed() && Measures(s, seqNum) && s.lastArrival.value <= at
    ensures Measured(s, seqNum, at).WellFormed()
  {
    var silence := RelativeDelay.Silence(s.lastArrival.value, at);
    var history := RelativeDelay.Push(s.history, silence - (seqNum - s.lastSeq.value) as real);
    UpdatedKeeps(s.histogram, RelativeDelay.Running(history));
  }

  /** A delay below zero, or of 65 frames or more, leaves the histogram exactly as it is; any other is filed under
      its whole frames. */
  lemma DelayIsFiledOrDiscarded(h: Histogram, delay: real)
    requires |h.bins| == 65
    ensures delay < 0.0 || delay >= 65.0 ==> UpdatedHistogram(h, delay) == h
    ensures 0.0 <= delay < 65.0 ==>
              && 0 <= delay.Floor < 65
              && UpdatedHistogram(h, delay) == DelayHistogram.Update(h, delay.Floor)
  {
  }

  lemma UpdatedKeeps(h: Histogram, delay: real)
    requires DelayHistogram.WellFormed(h)
    ensures DelayHistogram.WellFormed(UpdatedHistogram(h, delay))
  {
    var bin := DelayHistogram.HistogramBin(delay);
    if bin.Some? {
      DelayHistogram.UpdateKeeps(h, bin.value);
    }
  }

  lemma ObserveKeeps(s: Stats, seqNum: nat, at: nat)
    requires s.WellFormed()
    ensures Observe(s, seqNum, at).0.WellFormed()
  {
    if Measures(s, seqNum) && s.lastArrival.value <= at {
      MeasuredKeeps(s, seqNum, at);
    }
  }

  // ----- whole stretches of arrivals -----

  function ObserveAll(s: Stats, ps: seq<Arrival>): Stats
    requires |s.histogram.bins| == DelayHistogram.BINS && |s.window.ages| == GapWindow.BUCKETS
    ensures |ObserveAll(s, ps).histogram.bins| == DelayHistogram.BINS
    ensures |ObserveAll(s, ps).window.ages| == GapWindow.BUCKETS
  {
    if ps == [] then s
    else Observe(ObserveAll(s, ps[..|ps| - 1]), ps[|ps| - 1].seqNum, ps[|ps| - 1].at).0
  }

  lemma {:induction false} ObserveAllKeeps(s: Stats, ps: seq<Arrival>)
    requires s.WellFormed()
    ensures ObserveAll(s, ps).WellFormed()
  {
    if ps != [] {
      ObserveAllKeeps(s, ps[..|ps| - 1]);
      ObserveKeeps(ObserveAll(s, ps[..|ps| - 1]), ps[|ps| - 1].seqNum, ps[|ps| - 1].at);
    }
  }

  // ----- packets that are not kept -----

  /** A packet is dropped exactly when it would be measured and the clock ran backwards; then nothing at all
      changes. Any other packet is the one the next is measured against. */
  lemma DroppedExactly(s: Stats, seqNum: nat, at: nat)
    requires s.WellFormed()
    ensures var (t, keep) := Observe(s, seqNum, at);
            && (!keep <==> && s.lastSeq.Some? && s.lastArrival.Some?
                           && s.lastSeq.value < seqNum < s.lastSeq.value + 1000 && at < s.lastArrival.value)
            && (!keep ==> t == s)
            && (keep ==> t.lastSeq == Some(seqNum) && t.lastArrival == Some(at))
  {
  }

  // The packets of a run that are kept.
  function Kept(s: Stats, ps: seq<Arrival>): seq<Arrival>
    requires |s.histogram.bins| == DelayHistogram.BINS && |s.window.ages| == GapWindow.BUCKETS
  {
    if ps == [] then []
    else
      var front, last := ps[..|ps| - 1], ps[|ps| - 1];
      Kept(s, front) + if Observe(ObserveAll(s, front), last.seqNum, last.at).1 then [last] else []
  }

  /** Dropped packets leave no trace: the statistics of any run are those of the packets it keeps. */
  lemma {:induction false} DroppedLeaveNoTrace(s: Stats, ps: seq<Arrival>)
    requires s.WellFormed()
    ensures ObserveAll(s, Kept(s, ps)) == ObserveAll(s, ps)
  {
    if ps != [] {
      var front, last := ps[..|ps| - 1], ps[|ps| - 1];
      DroppedLeaveNoTrace(s, front);
      ObserveAllKeeps(s, front);
      DroppedExactly(ObserveAll(s, front), last.seqNum, last.at);
      if Observe(ObserveAll(s, front), last.seqNum, last.at).1 {
        assert (Kept(s, front) + [last])[..|Kept(s, front)|] == Kept(s, front);
      } else {
        assert Kept(s, ps) == Kept(s, front);
      }
    }
  }

  // A stretch in time order that does not begin before the last arrival seen. Its packets may be
  // reordered, repeated or missing, and the stream may resume within it.
  ghost predicate Continues(s: Stats, ps: seq<Arrival>) {
    && ps != []
    && RelativeDelay.TimeOrdered(ps)
    && (s.lastArrival.Some? ==> s.lastArrival.value <= ps[0].at)
  }

  lemma {:induction false} LastSeen(s: Stats, ps: seq<Arrival>)
    requires s.WellFormed() && Continues(s, ps)
    ensures var t := ObserveAll(s, ps);
            t.lastSeq == Some(ps[|ps| - 1].seqNum) && t.lastArrival == Some(ps[|ps| - 1].at)
  {
    if |ps| == 1 {
      assert ps[..0] == [];
      assert ObserveAll(s, []) == s;
    } else {
      LastSeen(s, ps[..|ps| - 1]);
    }
  }

  // What one arrival does after the packet `before`.
  ghost predicate Follows(t: Stats, u: Stats, before: Arrival, p: Arrival, measured: bool)
    requires |t.histogram.bins| == DelayHistogram.BINS && |t.window.ages| == GapWindow.BUCKETS
    requires before.at <= p.at
  {
    if measured then
      && u.history == RelativeDelay.Push(t.history, RelativeDelay.Excess(before, p))
      && u.histogram == UpdatedHistogram(t.histogram, RelativeDelay.Running(u.history))
      && u.window == GapWindow.Record(t.window, RelativeDelay.Silence(before.at, p.at), p.at)
    else
      u.history == t.history && u.histogram == t.histogram && u.window == t.window
  }

  lemma ObserveStep(t: Stats, before: Arrival, p: Arrival)
    requires t.WellFormed() && before.at <= p.at
    requires t.lastSeq == Some(before.seqNum) && t.lastArrival == Some(before.at)
    ensures Follows(t, Observe(t, p.seqNum, p.at).0, before, p,
                    before.seqNum < p.seqNum < before.seqNum + 1000)
  {
  }

  /** The last packet of a stretch, if it is measured, adds its excess to the history, is filed under
      the running delay that leaves, and records the silence before it; if not, it changes nothing of
      the kind. */
  lemma StretchStep(s: Stats, ps: seq<Arrival>)
    requires s.WellFormed() && Continues(s, ps) && |ps| > 1
    ensures Follows(ObserveAll(s, ps[..|ps| - 1]), ObserveAll(s, ps), ps[|ps| - 2], ps[|ps| - 1],
                    RelativeDelay.Forward(ps, |ps| - 1))
  {
    LastSeen(s, ps[..|ps| - 1]);
    ObserveAllKeeps(s, ps[..|ps| - 1]);
    ObserveStep(ObserveAll(s, ps[..|ps| - 1]), ps[|ps| - 2], ps[|ps| - 1]);
  }

  /** Along any stretch exactly the packets that are ahead of their predecessor are measured, each
      against that predecessor. */
  lemma {:induction false} StretchIsMeasured(s: Stats, ps: seq<Arrival>)
    requires s.WellFormed() && Continues(s, ps)
    ensures ObserveAll(s, ps).history == RelativeDelay.HistoryAfter(ObserveAll(s, ps[..1]).history, ps)
  {
    if |ps| == 1 {
      assert ps[..1] == ps;
      assert ps[..0] == [];
    } else {
      var front := ps[..|ps| - 1];
      StretchIsMeasured(s, front);
      assert front[..1] == ps[..1];
      StretchStep(s, ps);
    }
  }

  // The stretch up to and including packet j.
  function UpTo(ps: seq<Arrival>, j: nat): seq<Arrival>
    requires j < |ps|
  {
    ps[..j + 1]
  }

  // Whether packet j is measured, as the `from`-th or a later one.
  predicate Settled(ps: seq<Arrival>, j: nat, from: nat) {
    RelativeDelay.Forward(ps, j) && RelativeDelay.Forwards(UpTo(ps, j)) >= from
  }

  /** Packet j is later than the histogram can represent, by 65 frames or more, against some packet of its
      window. */
  ghost predicate TooLate(ps: seq<Arrival>, j: nat)
    requires j < |ps|
  {
    exists i :: RelativeDelay.InWindow(UpTo(ps, j), i) && 65.0 <= RelativeDelay.LeastLateness(UpTo(ps, j), i)
  }

  /** Packet j is at most `high` frames late against any packet of its window, and at least `low` frames late
      against some packet of it. */
  ghost predicate LateWithin(ps: seq<Arrival>, j: nat, low: real, high: real)
    requires j < |ps|
  {
    && (forall i :: RelativeDelay.InWindow(UpTo(ps, j), i) ==> RelativeDelay.MeasuredLateness(UpTo(ps, j), i) <= high)
    && (exists i :: RelativeDelay.InWindow(UpTo(ps, j), i) && low <= RelativeDelay.LeastLateness(UpTo(ps, j), i))
  }

  // From then on every measured packet is too late or within these bounds.
  ghost predicate EachLateWithin(ps: seq<Arrival>, low: real, high: real, from: nat) {
    forall j :: 0 < j < |ps| && Settled(ps, j, from) ==> TooLate(ps, j) || LateWithin(ps, j, low, high)
  }

  // How many of them the histogram can represent.
  ghost function Represented(ps: seq<Arrival>, from: nat): nat {
    if ps == [] then 0
    else
      Represented(ps[..|ps| - 1], from)
      + if Settled(ps, |ps| - 1, from) && !TooLate(ps, |ps| - 1) then 1 else 0
  }

  lemma LatenessOfFront(ps: seq<Arrival>, low: real, high: real, from: nat)
    requires ps != [] && EachLateWithin(ps, low, high, from)
    ensures EachLateWithin(ps[..|ps| - 1], low, high, from)
  {
    var front := ps[..|ps| - 1];
    forall j | 0 < j < |front| && Settled(front, j, from)
      ensures TooLate(front, j) || LateWithin(front, j, low, high)
    {
      assert UpTo(front, j) == UpTo(ps, j) && Settled(ps, j, from);
    }
  }

  // Only measured packets from the `from`-th on are represented.
  lemma {:induction false} RepresentedIsMeasured(ps: seq<Arrival>, from: nat)
    requires from > 0
    ensures Represented(ps, from) > 0 ==> RelativeDelay.Forwards(ps) >= from
    ensures Represented(ps, from) + from <= Max(RelativeDelay.Forwards(ps) + 1, from)
  {
    if ps != [] {
      RepresentedIsMeasured(ps[..|ps| - 1], from);
      assert UpTo(ps, |ps| - 1) == ps;
    }
  }

  // When none is too late, all of them are.
  lemma {:induction false} AllRepresented(ps: seq<Arrival>, from: nat)
    requires from > 0 && forall j :: 0 < j < |ps| && Settled(ps, j, from) ==> !TooLate(ps, j)
    ensures Represented(ps, from) + from >= RelativeDelay.Forwards(ps) + 1
  {
    if ps != [] {
      var front := ps[..|ps| - 1];
      forall j | 0 < j < |front| && Settled(front, j, from)
        ensures !TooLate(front, j)
      {
        assert UpTo(front, j) == UpTo(ps, j) && Settled(ps, j, from);
      }
      AllRepresented(front, from);
      assert UpTo(ps, |ps| - 1) == ps;
    }
  }

  // The history of the stretch from its `from`-th measured packet on is the stretch's own: a whole window
  // was measured, or nothing was there before.
  ghost predicate OwnHistory(s: Stats, ps: seq<Arrival>, from: nat)
    requires s.WellFormed() && ps != []
  {
    from >= 100 || ObserveAll(s, ps[..1]).history == []
  }

  /** Then a measured packet is filed under a delay between the least and the greatest lateness of the
      stretch, whatever was observed before it; a packet that is too late, under none. */
  lemma StretchDelay(s: Stats, ps: seq<Arrival>, low: real, high: real, from: nat)
    requires s.WellFormed() && Continues(s, ps) && OwnHistory(s, ps, from)
    requires RelativeDelay.Forward(ps, |ps| - 1) && RelativeDelay.Forwards(ps) >= from
    ensures TooLate(ps, |ps| - 1) ==> 65.0 <= RelativeDelay.Running(ObserveAll(s, ps).history)
    ensures LateWithin(ps, |ps| - 1, low, high) ==> low <= RelativeDelay.Running(ObserveAll(s, ps).history) <= high
  {
    StretchIsMeasured(s, ps);
    ObserveAllKeeps(s, ps[..1]);
    var i := RelativeDelay.RelativeDelayIsGreatestLateness(ObserveAll(s, ps[..1]).history, ps);
    assert UpTo(ps, |ps| - 1) == ps;
  }

  /** A packet that comes too late counts for nothing: bins, factor and target stay exactly as they were. */
  lemma TooLateCountsForNothing(s: Stats, ps: seq<Arrival>, from: nat)
    requires s.WellFormed() && Continues(s, ps) && OwnHistory(s, ps, from) && |ps| > 1
    requires RelativeDelay.Forwards(ps) >= from && TooLate(ps, |ps| - 1)
    ensures ObserveAll(s, ps).histogram == ObserveAll(s, ps[..|ps| - 1]).histogram
  {
    StretchStep(s, ps);
    if RelativeDelay.Forward(ps, |ps| - 1) {
      StretchDelay(s, ps, 0.0, 0.0, from);
      DelayIsFiledOrDiscarded(ObserveAll(s, ps[..|ps| - 1]).histogram,
                              RelativeDelay.Running(ObserveAll(s, ps).history));
    }
  }

  // What is known of a stretch whose packets go to the histogram.
  ghost predicate Bounded(s: Stats, ps: seq<Arrival>, low: real, high: real, from: nat)
    requires s.WellFormed()
  {
    && Continues(s, ps) && OwnHistory(s, ps, from)
    && 0.0 <= low <= high < 65.0
    && EachLateWithin(ps, low, high, from)
  }

  lemma BoundedFront(s: Stats, ps: seq<Arrival>, low: real, high: real, from: nat)
    requires s.WellFormed() && |ps| > 1 && Bounded(s, ps, low, high, from)
    ensures Bounded(s, ps[..|ps| - 1], low, high, from)
  {
    LatenessOfFront(ps, low, high, from);
    assert ps[..|ps| - 1][..1] == ps[..1];
  }

  // The sample of the last packet, when it is measured, not too late, and the history is the stretch's own.
  lemma LastIsFiled(s: Stats, ps: seq<Arrival>, low: real, high: real, from: nat) returns (bin: HistogramAging.Sample)
    requires s.WellFormed() && Bounded(s, ps, low, high, from) && |ps| > 1
    requires Settled(ps, |ps| - 1, from) && !TooLate(ps, |ps| - 1)
    ensures bin.Some? && low.Floor <= bin.value <= high.Floor && bin.value < DelayHistogram.BINS
    ensures ObserveAll(s, ps).histogram == HistogramAging.Observe(ObserveAll(s, ps[..|ps| - 1]).histogram, bin)
  {
    assert UpTo(ps, |ps| - 1) == ps;
    StretchStep(s, ps);
    StretchDelay(s, ps, low, high, from);
    bin := DelayHistogram.HistogramBin(RelativeDelay.Running(ObserveAll(s, ps).history));
  }

  // When it is not represented after all, it leaves the histogram alone.
  lemma LastIsNotFiled(s: Stats, ps: seq<Arrival>, low: real, high: real, from: nat)
    requires s.WellFormed() && Bounded(s, ps, low, high, from) && |ps| > 1
    requires RelativeDelay.Forwards(ps) >= from || !RelativeDelay.Forward(ps, |ps| - 1)
    requires !Settled(ps, |ps| - 1, from) || TooLate(ps, |ps| - 1)
    ensures ObserveAll(s, ps).histogram == ObserveAll(s, ps[..|ps| - 1]).histogram
  {
    assert UpTo(ps, |ps| - 1) == ps;
    if RelativeDelay.Forward(ps, |ps| - 1) {
      TooLateCountsForNothing(s, ps, from);
    } else {
      StretchStep(s, ps);
    }
  }

  /** The samples a stretch feeds to the histogram from packet m on, all but one of `from` having been
      measured before: one per represented packet, none for the others. */
  lemma {:induction false} StretchFeeds(s: Stats, ps: seq<Arrival>, m: nat, low: real, high: real, from: nat)
    returns (samples: seq<HistogramAging.Sample>)
    requires s.WellFormed() && Bounded(s, ps, low, high, from)
    requires 0 < m <= |ps| && RelativeDelay.Forwards(ps[..m]) + 1 == from
    ensures HistogramAging.Within(samples, low.Floor, high.Floor)
    ensures HistogramAging.InRange(samples) == Represented(ps, from)
    ensures ObserveAll(s, ps).histogram == HistogramAging.Feed(ObserveAll(s, ps[..m]).histogram, samples)
  {
    if |ps| == m {
      assert ps[..m] == ps;
      RepresentedIsMeasured(ps, from);
      samples := [];
    } else {
      var front := ps[..|ps| - 1];
      BoundedFront(s, ps, low, high, from);
      assert front[..m] == ps[..m];
      samples := StretchFeeds(s, front, m, low, high, from);
      RelativeDelay.ForwardsGrow(front, m);
      if Settled(ps, |ps| - 1, from) && !TooLate(ps, |ps| - 1) {
        var bin := LastIsFiled(s, ps, low, high, from);
        assert (samples + [bin])[..|samples|] == samples;
        samples := samples + [bin];
      } else {
        LastIsNotFiled(s, ps, low, high, from);
      }
    }
  }

  /** No latching, from arrival times to target: whatever was observed before, a stretch with at least 1980
      packets that count, measured packets behind the first 99 of them, brings the percentile target into the
      range in which the lateness of those lies. The times are any nanoseconds in order; reordered, repeated or
      lost packets, resumed streams, and packets that come 65 frames late or more may be mixed in, and count for
      nothing: packets at most `high` frames later than any packet of their window bring the target down to
      `high`, and packets at least `low` frames late keep it up at `low`. */
  lemma TargetFollowsTheLink(s: Stats, ps: seq<Arrival>, low: real, high: real)
    requires s.WellFormed() && Bounded(s, ps, low, high, 100) && Represented(ps, 100) >= 1980
    ensures low.Floor <= ObserveAll(s, ps).histogram.target <= high.Floor
  {
    RepresentedIsMeasured(ps, 100);
    var last := RelativeDelay.Anchor(ps, 99);
    var m := last + 1;
    var samples := StretchFeeds(s, ps, m, low, high, 100);
    ObserveAllKeeps(s, ps[..m]);
    HistogramAging.NoLatching(ObserveAll(s, ps[..m]).histogram, samples, low.Floor, high.Floor);
  }

  // Statistics that remember nothing of delays: new ones, and those after either reset.
  ghost predicate Renewed(s: Stats) {
    s.WellFormed() && s.history == [] && s.histogram.factor == 0
  }

  lemma ResetsRenew(s: Stats)
    ensures Renewed(InitialStats()) && Renewed(AfterRestart(s)) && Renewed(AfterConfigChange(s))
  {
    DelayHistogram.SeedIsWellFormed();
  }

  // No gap is left, and the target is the one to start with.
  ghost predicate Blank(s: Stats) {
    && s.history == [] && s.histogram.target == 4
    && |s.window.ages| == 24 && s.window.start.None? && forall a :: 0 <= a < 24 ==> s.window.ages[a] == 0.0
  }

  lemma ResetsBlank(s: Stats)
    ensures Blank(InitialStats()) && Blank(AfterRestart(s)) && Blank(AfterConfigChange(s))
    ensures AfterRestart(s).lastSeq == None && AfterRestart(s).lastArrival == s.lastArrival
    ensures AfterConfigChange(s).lastSeq == s.lastSeq && AfterConfigChange(s).lastArrival == s.lastArrival
  {
  }

  /** The packet after a restart is never measured, only noted. */
  lemma RestartForgetsThePacket(s: Stats, seqNum: nat, at: nat)
    ensures Observe(AfterRestart(s), seqNum, at)
            == (AfterRestart(s).(lastSeq := Some(seqNum), lastArrival := Some(at)), true)
  {
  }

  /** The packet after a changed configuration is measured, or dropped, against the last one before it, exactly
      as it would have been; its excess is then all there is. */
  lemma ConfigChangeKeepsThePacket(s: Stats, before: Arrival, p: Arrival)
    requires s.WellFormed() && s.lastSeq == Some(before.seqNum) && s.lastArrival == Some(before.at)
    ensures Observe(AfterConfigChange(s), p.seqNum, p.at).1 == Observe(s, p.seqNum, p.at).1
    ensures before.at <= p.at ==>
              Observe(AfterConfigChange(s), p.seqNum, p.at).0.history
              == if before.seqNum < p.seqNum < before.seqNum + 1000 then [RelativeDelay.Excess(before, p)] else []
  {
    var blank := AfterConfigChange(s);
    ResetsRenew(s);
    if before.at <= p.at {
      ObserveStep(blank, before, p);
    }
  }

  /** After a reset one measured packet that is not too late is enough: from the first on, the target lies in
      the range in which the lateness of those measured since lies. */
  lemma TargetFollowsAfterReset(s: Stats, ps: seq<Arrival>, low: real, high: real)
    requires Renewed(s) && Bounded(s, ps, low, high, 1) && !Measures(s, ps[0].seqNum)
    requires Represented(ps, 1) > 0
    ensures low.Floor <= ObserveAll(s, ps).histogram.target <= high.Floor
  {
    FirstIsNotMeasured(s, ps);
    var samples := StretchFeeds(s, ps, 1, low, high, 1);
    HistogramAging.FreshFollows(ObserveAll(s, ps[..1]).histogram, samples, low.Floor, high.Floor);
  }

  lemma FirstIsNotMeasured(s: Stats, ps: seq<Arrival>)
    requires s.WellFormed() && ps != [] && !Measures(s, ps[0].seqNum)
    ensures RelativeDelay.Forwards(ps[..1]) == 0
    ensures ObserveAll(s, ps[..1]).histogram == s.histogram && ObserveAll(s, ps[..1]).history == s.history
  {
    assert ps[..1][..0] == [];
    assert ObserveAll(s, []) == s;
  }

  /** Put in terms of arrival times alone: when the stream does not resume within the stretch and no
      packet arrives more than `high` frames later, relative to schedule, than any packet before it, the
      target comes down to `high`. */
  lemma TargetFollowsTheSchedule(s: Stats, ps: seq<Arrival>, high: real)
    requires s.WellFormed() && Continues(s, ps) && RelativeDelay.NoResume(ps)
    requires 0.0 <= high < 65.0
    requires forall i, j :: 0 <= i <= j < |ps| && RelativeDelay.Forward(ps, j) ==>
                              RelativeDelay.Lateness(ps, i, j) <= high
    requires RelativeDelay.Forwards(ps) >= 2079
    ensures ObserveAll(s, ps).histogram.target <= high.Floor
  {
    forall j | 0 < j < |ps| && Settled(ps, j, 100)
      ensures LateWithin(ps, j, 0.0, high) && !TooLate(ps, j)
    {
      OnSchedule(ps, j, high);
    }
    AllRepresented(ps, 100);
    TargetFollowsTheLink(s, ps, 0.0, high);
  }

  // A packet that is never more than `high` frames late against an earlier one.
  lemma OnSchedule(ps: seq<Arrival>, j: nat, high: real)
    requires RelativeDelay.TimeOrdered(ps) && RelativeDelay.NoResume(ps) && 0 < j < |ps| && high < 65.0
    requires forall i :: 0 <= i <= j ==> RelativeDelay.Lateness(ps, i, j) <= high
    ensures LateWithin(ps, j, 0.0, high) && !TooLate(ps, j)
  {
    forall i | RelativeDelay.InWindow(UpTo(ps, j), i)
      ensures RelativeDelay.MeasuredLateness(UpTo(ps, j), i) <= high
      ensures RelativeDelay.LeastLateness(UpTo(ps, j), i) <= high
    {
      WithinSchedule(ps, i, j);
      LeastIsLess(UpTo(ps, j), i);
    }
    NeverEarly(ps, j);
  }

  lemma LeastIsLess(ps: seq<Arrival>, i: nat)
    requires i < |ps|
    ensures RelativeDelay.LeastLateness(ps, i) <= RelativeDelay.MeasuredLateness(ps, i)
  {
    RelativeDelay.ForwardsGrow(ps, i + 1);
  }

  lemma WithinSchedule(ps: seq<Arrival>, i: nat, j: nat)
    requires RelativeDelay.TimeOrdered(ps) && RelativeDelay.NoResume(ps) && i <= j < |ps|
    ensures RelativeDelay.MeasuredLateness(UpTo(ps, j), i) <= RelativeDelay.Lateness(ps, i, j)
  {
    RelativeDelay.MeasuredIsWithin(UpTo(ps, j), i);
    assert RelativeDelay.Lateness(UpTo(ps, j), i, j) == RelativeDelay.Lateness(ps, i, j);
  }

  // No packet is early against itself, so zero is always a lower bound.
  lemma NeverEarly(ps: seq<Arrival>, j: nat)
    requires 0 < j < |ps|
    ensures exists i :: RelativeDelay.InWindow(UpTo(ps, j), i) && 0.0 <= RelativeDelay.LeastLateness(UpTo(ps, j), i)
  {
    var sofar := UpTo(ps, j);
    assert sofar[..|sofar|] == sofar;
    assert RelativeDelay.InWindow(sofar, j) && RelativeDelay.LeastLateness(sofar, j) == 0.0;
  }

  // ----- the gap window along a stretch -----

  // The gaps a stretch records: the silence before each measured packet.
  ghost function GapLog(ps: seq<Arrival>): (log: seq<GapWindow.Gap>)
    requires RelativeDelay.TimeOrdered(ps)
    ensures |log| == RelativeDelay.Forwards(ps)
  {
    if ps == [] then []
    else
      var earlier := GapLog(ps[..|ps| - 1]);
      if RelativeDelay.Forward(ps, |ps| - 1) then earlier + [LastGap(ps)] else earlier
  }

  // The silence before the last packet.
  ghost function LastGap(ps: seq<Arrival>): GapWindow.Gap
    requires RelativeDelay.TimeOrdered(ps) && |ps| > 1
  {
    GapWindow.Gap(RelativeDelay.Silence(ps[|ps| - 2].at, ps[|ps| - 1].at), ps[|ps| - 1].at)
  }

  // New statistics, or those of a stream that was just restarted.
  ghost predicate Anew(s: Stats) {
    s.WellFormed() && s.lastSeq.None? && s.window == GapWindow.EmptyWindow()
  }

  lemma InitialIsAnew()
    ensures Anew(InitialStats())
  {
    DelayHistogram.SeedIsWellFormed();
  }

  /** From a new start the gap window is that of the log of silences, raw and not reduced by the packets
      that went missing in them. */
  lemma {:induction false} StretchRecordsSilences(s: Stats, ps: seq<Arrival>)
    requires Anew(s) && Continues(s, ps)
    ensures ObserveAll(s, ps).window == GapWindow.WindowAfter(GapLog(ps))
  {
    if |ps| == 1 {
      assert ps[..0] == [];
      assert GapLog([]) == [];
    } else {
      var front := ps[..|ps| - 1];
      StretchRecordsSilences(s, front);
      SilenceStep(s, ps);
      if RelativeDelay.Forward(ps, |ps| - 1) {
        WindowStep(GapLog(front), LastGap(ps));
      }
    }
  }

  lemma SilenceStep(s: Stats, ps: seq<Arrival>)
    requires s.WellFormed() && Continues(s, ps) && |ps| > 1
    ensures ObserveAll(s, ps).window
            == if RelativeDelay.Forward(ps, |ps| - 1)
               then GapWindow.Record(ObserveAll(s, ps[..|ps| - 1]).window, LastGap(ps).frames, LastGap(ps).at)
               else ObserveAll(s, ps[..|ps| - 1]).window
  {
    StretchStep(s, ps);
  }

  lemma WindowStep(log: seq<GapWindow.Gap>, gap: GapWindow.Gap)
    ensures GapWindow.WindowAfter(log + [gap]) == GapWindow.Record(GapWindow.WindowAfter(log), gap.frames, gap.at)
  {
    assert (log + [gap])[..|log|] == log;
  }

  /** The log is in time order, as the refinement of the window asks of it. */
  lemma {:induction false} GapLogIsOrdered(ps: seq<Arrival>)
    requires RelativeDelay.TimeOrdered(ps)
    ensures GapWindow.TimeOrdered(GapLog(ps))
    ensures GapLog(ps) != [] ==> GapLog(ps)[|GapLog(ps)| - 1].at <= ps[|ps| - 1].at
  {
    if |ps| > 1 {
      GapLogIsOrdered(ps[..|ps| - 1]);
      if RelativeDelay.Forward(ps, |ps| - 1) {
        OrderedStep(GapLog(ps[..|ps| - 1]), LastGap(ps));
      }
    } else if ps != [] {
      assert GapLog(ps[..0]) == [];
    }
  }

  lemma OrderedStep(log: seq<GapWindow.Gap>, gap: GapWindow.Gap)
    requires GapWindow.TimeOrdered(log) && (log != [] ==> log[|log| - 1].at <= gap.at)
    ensures GapWindow.TimeOrdered(log + [gap])
  {
  }

  /** So at every age the window holds the largest clamped silence of its second, for any stretch of
      arrivals from a new start. */
  lemma StretchWindowRefinesSilences(s: Stats, ps: seq<Arrival>)
    requires Anew(s) && Continues(s, ps) && GapLog(ps) != []
    ensures GapWindow.TimeOrdered(GapLog(ps))
    ensures GapWindow.Refines(ObserveAll(s, ps).window, GapLog(ps))
  {
    StretchRecordsSilences(s, ps);
    GapLogIsOrdered(ps);
    GapWindow.WindowRefinesLog(GapLog(ps));
  }
}
