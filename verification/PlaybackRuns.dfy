/**
 What one frame callback does to the reorder ring: how far it moves the playhead, which packets it
 plays and which it drops, and the counter in which every packet that leaves the ring ends up.
 */
module PlaybackRuns {
  import opened Wrappers
  import opened ReorderRing
  import opened RingCache
  import opened PlaybackStep
  import FlowState

  // The packets whose sound a callback plays, in order.
  function EmittedBy(o: Outcome): seq<Packet> {
    if o.Played? then o.emitted else []
  }

  // The packets a callback decodes and drops, in order.
  function ShedBy(o: Outcome): seq<Packet> {
    if o.Played? then o.shed else []
  }

  function TakenBy(o: Outcome): seq<Packet> {
    EmittedBy(o) + ShedBy(o)
  }

  // Every packet that leaves the ring is to be found in one of these counters.
  function Sinks(t: Tally): nat {
    t.framesPlayed + t.stagedPops + t.shed + t.flushDiscards
  }

  // ----- what one callback does to the ring -----

  lemma SuffixKeepsExactness(a: Ring, b: Ring)
    requires Suffix(a, b) && CacheExact(a)
    requires b.cachedMin.None? || b.cachedMin == a.cachedMin
    ensures CacheExact(b)
  {
  }

  ghost predicate CacheOnlyForgets(a: Ring, b: Ring) {
    b.cachedMin.None? || b.cachedMin == a.cachedMin
  }

  lemma {:induction false} FlushOnlyForgets(r: Ring, flushTo: nat)
    requires r.WellFormed()
    ensures CacheOnlyForgets(r, Flush(r, flushTo).0)
    decreases |r.packets|, HoleAhead(r)
  {
    if |r.packets| > flushTo {
      FlushPassProgress(r);
      FlushOnlyForgets(FlushPass(r).0, flushTo);
    }
  }

  /** A phase moves the playhead over the ring, removes exactly `taken` packets, and keeps an exact cache
      exact. */
  ghost predicate Moves(a: Ring, b: Ring, taken: int) {
    && Suffix(a, b)
    && |b.packets| + taken == |a.packets|
    && (CacheExact(a) ==> CacheExact(b))
  }

  lemma MovesOn(a: Ring, b: Ring, c: Ring, m: int, n: int)
    requires Moves(a, b, m) && Moves(b, c, n)
    ensures Moves(a, c, m + n)
  {
    SuffixTransitive(a, b, c);
  }

  lemma StandsStill(a: Ring)
    requires a.WellFormed()
    ensures Moves(a, a, 0)
  {
    SuffixReflexive(a);
  }

  /** The same over a player's phase: what leaves the ring is counted in one of the sinks, but for `lost`
      packets. */
  ghost predicate MovesTo(m: Player, n: Player, lost: nat) {
    Moves(m.ring, n.ring, Sinks(n.tally) - Sinks(m.tally) + lost)
  }

  lemma Then(m: Player, n: Player, k: Player, p: nat, q: nat)
    requires MovesTo(m, n, p) && MovesTo(n, k, q)
    ensures MovesTo(m, k, p + q)
  {
    MovesOn(m.ring, n.ring, k.ring, Sinks(n.tally) - Sinks(m.tally) + p, Sinks(k.tally) - Sinks(n.tally) + q);
  }

  /** Only playing moves the counters of what was played and shed. */
  ghost predicate PlaysNothing(m: Player, n: Player) {
    && n.tally.framesPlayed == m.tally.framesPlayed
    && n.tally.stagedPops == m.tally.stagedPops
    && n.tally.shed == m.tally.shed
    && n.tally.staleRejects == m.tally.staleRejects
  }

  // Only a step over a hole moves the counter of skipped numbers.
  ghost predicate SkipsNothing(m: Player, n: Player) {
    n.tally.skippedFrames == m.tally.skippedFrames
  }

  // A phase that may flush, and does nothing else to the counters.
  ghost predicate Flushes(m: Player, n: Player) {
    MovesTo(m, n, 0) && PlaysNothing(m, n) && SkipsNothing(m, n)
  }

  lemma FlushesOn(m: Player, n: Player, k: Player)
    requires Flushes(m, n) && Flushes(n, k)
    ensures Flushes(m, k)
  {
    Then(m, n, k, 0, 0);
  }

  /** The counters of one callback tell apart what it played, what its splice staged and what it shed. */
  ghost predicate Counted(m: Player, n: Player, o: Outcome) {
    && n.tally.framesPlayed == m.tally.framesPlayed + (if o.Played? then 1 else 0)
    && n.tally.framesPlayed + n.tally.stagedPops
       == m.tally.framesPlayed + m.tally.stagedPops + |EmittedBy(o)|
    && n.tally.shed == m.tally.shed + |ShedBy(o)|
    && n.tally.staleRejects == m.tally.staleRejects
  }

  lemma FlushMoves(m: Player, flushTo: nat)
    requires m.ring.WellFormed()
    ensures Flushes(m, FlushWithCrossfade(m, flushTo))
  {
    FlushIsSuffix(m.ring, flushTo);
    FlushOnlyForgets(m.ring, flushTo);
    StandsStill(m.ring);
    if CacheExact(m.ring) && Occupied(m) > flushTo {
      SuffixKeepsExactness(m.ring, Flush(m.ring, flushTo).0);
    }
  }

  /** A flush leaves exactly the requested depth, or everything when there was no more; the counter
      grows by exactly the number of packets removed; and every packet kept has a larger number than
      every packet removed. */
  lemma FlushIsExact(m: Player, flushTo: nat)
    requires m.ring.WellFormed()
    ensures var n := FlushWithCrossfade(m, flushTo);
            && Occupied(n) == Min(Occupied(m), flushTo)
            && n.tally.flushDiscards == m.tally.flushDiscards + (Occupied(m) - Occupied(n))
            && (forall k :: k in n.ring.packets ==> k in m.ring.packets && n.ring.packets[k] == m.ring.packets[k])
            && (forall k, d :: k in n.ring.packets && d in m.ring.packets && d !in n.ring.packets ==> d < k)
  {
    FlushIsSuffix(m.ring, flushTo);
  }

  lemma PrepareMoves(m: Player, fr: Frame)
    requires m.ring.WellFormed()
    ensures Flushes(m, Prepare(m, fr))
  {
    var ticked := m.(flow := FlowState.TickRecovery(m.flow, fr.now));
    var reloaded := ReloadConfig(ticked, fr);
    ReloadMoves(ticked, fr);
    NoBufferMoves(reloaded, fr);
    FlushesOn(m, reloaded, NoBufferFlush(reloaded, fr));
  }

  lemma ReloadMoves(m: Player, fr: Frame)
    requires m.ring.WellFormed()
    ensures Flushes(m, ReloadConfig(m, fr))
  {
    StandsStill(m.ring);
    if fr.newTarget.Some? {
      FlushMoves(m.(flow := m.flow.(isPrebuffering := true)), fr.newTarget.value + fr.newTarget.value / 2);
    }
  }

  lemma NoBufferMoves(m: Player, fr: Frame)
    requires m.ring.WellFormed()
    ensures Flushes(m, NoBufferFlush(m, fr))
  {
    FlushMoves(m, fr.target + 1);
    StandsStill(m.ring);
  }

  lemma PrebufferingMoves(m: Player, link: NetworkLink, fr: Frame)
    requires m.ring.WellFormed()
    ensures var (n, ended) := ServePrebuffering(m, link, fr);
            && (ended == Some(StreamReset) ==> n.ring == EMPTY_RING)
            && (ended == Some(StreamReset) ==> m.ring.packets == map[] && n.tally == m.tally)
            && (ended != Some(StreamReset) ==> Flushes(m, n))
            && (ended.Some? ==> ended.value.Held? || ended.value.StreamReset?)
  {
    if m.flow.isPrebuffering && Occupied(m) >= UnpauseThreshold(fr) && !m.startupFlushPending {
      FlushMoves(m.(flow := m.flow.(isPrebuffering := false)), Max(fr.bandHigh, UnpauseThreshold(fr)));
    } else {
      StandsStill(m.ring);
    }
  }

  // The callback jumps across a hole: its far end is far ahead, or the tolerance is spent.
  predicate Jumps(m: Player, link: NetworkLink, fr: Frame) {
    && Occupied(m) > 0 && !HasNext(m.ring)
    && var far := LowestAvailable(m.ring).1;
       && far.Some?
       && (Distance(far.value, m.ring.playhead) > FAR_GAP
           || m.flow.gapHoldCount + 1 >= ReorderToleranceFor(link, fr.isNoBuffer))
  }

  // The residents a jump leaves behind: those before what the query takes for the far end.
  function LeftBehind(m: Player, link: NetworkLink, fr: Frame): nat {
    if Jumps(m, link, fr) then |KeepBelow(m.ring.packets, LowestAvailable(m.ring).1.value)| else 0
  }

  // How many numbers a jump passes over.
  function HoleWidth(m: Player, link: NetworkLink, fr: Frame): nat {
    if Jumps(m, link, fr) then SaturatingSub(LowestAvailable(m.ring).1.value, m.ring.playhead) else 0
  }

  /** The step over a hole loses exactly the residents it leaves behind, none when the cache is exact, and
      counts the width of the hole, which is positive if and only if it jumps. */
  lemma GapMoves(m: Player, link: NetworkLink, fr: Frame)
    requires m.ring.WellFormed()
    ensures var n := FastForwardOverGap(m, link, fr);
            && MovesTo(m, n, LeftBehind(m, link, fr)) && PlaysNothing(m, n)
            && n.tally.skippedFrames == m.tally.skippedFrames + HoleWidth(m, link, fr)
            && (Jumps(m, link, fr) <==> HoleWidth(m, link, fr) > 0)
            && (Jumps(m, link, fr) ==> HasNext(n.ring))
    ensures CacheExact(m.ring) ==> LeftBehind(m, link, fr) == 0
  {
    if Occupied(m) > 0 && !HasNext(m.ring) {
      HoleStep(m, link, fr);
      QueryMoves(m.ring);
      SkipMoves(m.ring);
    } else {
      StandsStill(m.ring);
    }
  }

  // What the step does at a hole, by the guard of its jump.
  lemma HoleStep(m: Player, link: NetworkLink, fr: Frame)
    requires m.ring.WellFormed() && Occupied(m) > 0 && !HasNext(m.ring)
    ensures var (asked, far) := LowestAvailable(m.ring);
            var n := FastForwardOverGap(m, link, fr);
            && m.ring.packets != map[] && far.Some?
            && n.ring == (if Jumps(m, link, fr) then SkipTo(asked, far.value) else asked)
            && PlaysNothing(m, n) && n.tally.flushDiscards == m.tally.flushDiscards
            && n.tally.skippedFrames == m.tally.skippedFrames + HoleWidth(m, link, fr)
            && (Jumps(m, link, fr) <==> HoleWidth(m, link, fr) > 0)
  {
    assert m.ring.packets != map[];
    SkipMoves(m.ring);
    var (asked, far) := LowestAvailable(m.ring);
    assert m.ring.initialized && far.value != m.ring.playhead;
    CrossingSkips(AtGap(m), far.value, ReorderToleranceFor(link, fr.isNoBuffer));
  }

  lemma CrossingSkips(m: Player, lo: nat, tolerance: nat)
    requires lo > m.ring.playhead
    ensures var n := CrossGap(m, lo, tolerance);
            if Distance(lo, m.ring.playhead) > FAR_GAP || m.flow.gapHoldCount >= tolerance
            then n.ring == SkipTo(m.ring, lo) && n.tally == CountSkip(m.tally, lo - m.ring.playhead)
            else n == m
  {
  }

  lemma QueryMoves(r: Ring)
    requires r.WellFormed()
    ensures Moves(r, LowestAvailable(r).0, 0)
  {
    StandsStill(r);
    LowestKeeps(r);
    LowestResidentIsLeast(r);
  }

  lemma SkipMoves(r: Ring)
    requires r.WellFormed() && r.packets != map[]
    ensures LowestAvailable(r).1.Some? && LowestAvailable(r).1.value in r.packets
    ensures var lo := LowestAvailable(r).1.value;
            && Moves(r, SkipTo(LowestAvailable(r).0, lo), |KeepBelow(r.packets, lo)|)
            && HasNext(SkipTo(LowestAvailable(r).0, lo))
            && (CacheExact(r) ==> |KeepBelow(r.packets, lo)| == 0)
  {
    LowestKeeps(r);
    LowestAnswer(r);
    var lo := LowestAvailable(r).1.value;
    FastForwardCost(r);
    SkipKeeps(LowestAvailable(r).0, lo);
    CutAt(r.packets, lo);
    if CacheExact(r) {
      assert KeepBelow(r.packets, lo) == map[];
    }
  }

  lemma DepthMoves(m: Player, fr: Frame)
    requires m.ring.WellFormed()
    ensures Flushes(m, AtDepth(m, fr))
  {
    StandsStill(m.ring);
    FlushMoves(m.(startupFlushPending := false), Max(Max(fr.target, fr.minDepth * 2), 8));
    assert Flushes(m, StartupFlush(m, fr));
    StaticMoves(StartupFlush(m, fr), fr);
    FlushesOn(m, StartupFlush(m, fr), AtDepth(m, fr));
  }

  lemma ApproachMoves(m: Player, link: NetworkLink, fr: Frame)
    requires m.ring.WellFormed()
    ensures var n, pinned := Approach(m, link, fr), AtDepth(m, fr);
            && MovesTo(m, n, LeftBehind(pinned, link, fr)) && PlaysNothing(m, n)
            && n.tally.skippedFrames == m.tally.skippedFrames + HoleWidth(pinned, link, fr)
            && (Jumps(pinned, link, fr) <==> HoleWidth(pinned, link, fr) > 0)
            && (Jumps(pinned, link, fr) ==> HasNext(n.ring))
    ensures CacheExact(m.ring) ==> LeftBehind(AtDepth(m, fr), link, fr) == 0
  {
    DepthMoves(m, fr);
    var pinned := AtDepth(m, fr);
    GapMoves(pinned, link, fr);
    Then(m, pinned, Approach(m, link, fr), 0, LeftBehind(pinned, link, fr));
  }

  lemma StaticMoves(m: Player, fr: Frame)
    requires m.ring.WellFormed()
    ensures Flushes(m, StaticFlush(m, fr))
  {
    FlushMoves(m, fr.target);
    StandsStill(m.ring);
  }

  // ----- what is played -----

  /** Played packets are residents, in sequence order, from the old playhead up to the new one. */
  ghost predicate InOrderFrom(a: Ring, b: Ring, ps: seq<Packet>) {
    && (forall i, j :: 0 <= i < j < |ps| ==> ps[i].seqNum < ps[j].seqNum)
    && (forall i :: 0 <= i < |ps| ==>
          a.playhead <= ps[i].seqNum < b.playhead
          && ps[i].seqNum in a.packets && a.packets[ps[i].seqNum] == ps[i])
  }

  lemma PopMoves(r: Ring)
    requires r.WellFormed() && HasNext(r)
    ensures Moves(r, PopNext(r).0, 1)
    ensures PopNext(r).1.Some? && InOrderFrom(r, PopNext(r).0, [PopNext(r).1.value])
  {
    AdvanceIsSuffix(r);
  }

  lemma InOrderOn(a: Ring, b: Ring, c: Ring, ps: seq<Packet>, qs: seq<Packet>)
    requires Suffix(a, b) && Suffix(b, c)
    requires InOrderFrom(a, b, ps) && InOrderFrom(b, c, qs)
    ensures InOrderFrom(a, c, ps + qs)
  {
  }

  lemma {:induction false} ShedMoves(r: Ring, count: nat, highLimit: nat)
    requires r.WellFormed()
    ensures var (after, taken) := ShedPackets(r, count, highLimit);
            Moves(r, after, |taken|) && InOrderFrom(r, after, taken)
  {
    StandsStill(r);
    if count > 0 {
      ShedMoves(r, count - 1, highLimit);
      var (before, taken) := ShedPackets(r, count - 1, highLimit);
      if |before.packets| > highLimit && HasNext(before) {
        PopMoves(before);
        var (after, extra) := PopNext(before);
        MovesOn(r, before, after, |taken|, 1);
        InOrderOn(r, before, after, taken, [extra.value]);
      }
    }
  }

  // Up to `count` packets go the way of the splice.
  lemma SpliceMoves(r: Ring, splice: Splice)
    requires r.WellFormed()
    ensures var (after, extra) := SplicePackets(r, splice);
            && Moves(r, after, |extra|) && InOrderFrom(r, after, extra)
            && (splice.Verbatim? ==> extra == [])
  {
    StandsStill(r);
    match splice
    case Verbatim =>
    case Shed(count, highLimit) => ShedMoves(r, count, highLimit);
    case StageNext => ShedMoves(r, 1, 0);
  }

  lemma PlayMoves(m: Player, fr: Frame)
    requires m.ring.WellFormed() && HasNext(m.ring)
    ensures var (n, o) := PlayNextFrame(m, fr);
            && o.Played? && MovesTo(m, n, 0) && Counted(m, n, o) && InOrderFrom(m.ring, n.ring, TakenBy(o))
            && SkipsNothing(m, n) && n.tally.flushDiscards == m.tally.flushDiscards
            && o.emitted != [] && o.emitted[0] == m.ring.packets[m.ring.playhead]
  {
    PopMoves(m.ring);
    var (popped, p) := PopNext(m.ring);
    var (n, o) := PlayNextFrame(m, fr);
    var splice := if FlowState.StretchAllowed(n.flow, fr.now) then fr.splice else Verbatim;
    SpliceMoves(popped, splice);
    var extra := SplicePackets(popped, splice).1;
    MovesOn(m.ring, popped, n.ring, 1, |extra|);
    InOrderOn(m.ring, popped, n.ring, [p.value], extra);
    assert TakenBy(o) == [p.value] + extra;
  }

  // The ring after the phases that may hold the playhead.
  lemma ServedMoves(m: Player, link: NetworkLink, fr: Frame)
    requires m.ring.WellFormed()
    ensures var (served, ended) := ServePrebuffering(Prepare(m, fr), link, fr);
            && (ended == Some(StreamReset) ==> served.ring == EMPTY_RING)
            && (ended == Some(StreamReset) ==> |m.ring.packets| == Sinks(served.tally) - Sinks(m.tally))
            && (ended != Some(StreamReset) ==> MovesTo(m, served, 0))
            && PlaysNothing(m, served) && SkipsNothing(m, served)
            && (ended.Some? ==> ended.value.Held? || ended.value.StreamReset?)
  {
    PrepareMoves(m, fr);
    PrebufferingMoves(Prepare(m, fr), link, fr);
    var (served, ended) := ServePrebuffering(Prepare(m, fr), link, fr);
    if ended != Some(StreamReset) {
      FlushesOn(m, Prepare(m, fr), served);
    }
  }

  // The ring after the phases that follow a release.
  lemma FinishMoves(m: Player, link: NetworkLink, fr: Frame)
    requires m.ring.WellFormed()
    ensures var ready := Approach(m, link, fr);
            HasNext(ready.ring) ==>
              var (n, o) := PlayNextFrame(ready, fr);
              && o.Played? && MovesTo(m, n, LeftBehind(AtDepth(m, fr), link, fr))
              && Counted(m, n, o) && SkipsNothing(ready, n) && InOrderFrom(m.ring, n.ring, TakenBy(o))
  {
    var ready := Approach(m, link, fr);
    ApproachMoves(m, link, fr);
    if HasNext(ready.ring) {
      PlayMoves(ready, fr);
      var (n, o) := PlayNextFrame(ready, fr);
      Then(m, ready, n, LeftBehind(AtDepth(m, fr), link, fr), 0);
      EarlierPlayhead(m.ring, ready.ring, n.ring, TakenBy(o));
    }
  }

  lemma MissingMoves(m: Player, link: NetworkLink, fr: Frame)
    requires m.ring.WellFormed()
    ensures var (n, o) := HandleMissingFrame(m, link, fr);
            && (o.StreamReset? ==> n.ring == EMPTY_RING)
            && (!o.StreamReset? ==> n.ring == m.ring)
            && n.tally == m.tally && !o.Played?
  {
  }

  lemma EarlierPlayhead(a: Ring, b: Ring, c: Ring, ps: seq<Packet>)
    requires Suffix(a, b) && InOrderFrom(b, c, ps)
    ensures InOrderFrom(a, c, ps)
  {
  }

  // ----- the whole callback -----

  // The player where a callback meets the hole, if it gets that far.
  ghost function AtHole(m: Player, link: NetworkLink, fr: Frame): Option<Player>
    requires m.ring.WellFormed()
  {
    var (served, ended) := ServePrebuffering(Prepare(m, fr), link, fr);
    if ended.Some? then None else Some(AtDepth(served, fr))
  }

  /** The callback jumps across a hole. */
  ghost predicate Crosses(m: Player, link: NetworkLink, fr: Frame)
    requires m.ring.WellFormed()
  {
    AtHole(m, link, fr).Some? && Jumps(AtHole(m, link, fr).value, link, fr)
  }

  // How many numbers it passes over.
  ghost function SkippedBy(m: Player, link: NetworkLink, fr: Frame): nat
    requires m.ring.WellFormed()
  {
    if AtHole(m, link, fr).Some? then HoleWidth(AtHole(m, link, fr).value, link, fr) else 0
  }

  // The packets a callback loses to a jump over a hole, in no counter.
  ghost function LostAtHole(m: Player, link: NetworkLink, fr: Frame): nat
    requires m.ring.WellFormed()
  {
    if AtHole(m, link, fr).Some? then LeftBehind(AtHole(m, link, fr).value, link, fr) else 0
  }

  // The packets a callback loses to a reset: those buffered behind the hole that caused it.
  ghost function LostAtReset(m: Player, link: NetworkLink, fr: Frame): nat
    requires m.ring.WellFormed()
  {
    if AtHole(m, link, fr).Some? && ProcessNextFrame(m, link, fr).1.StreamReset?
    then Occupied(FastForwardOverGap(AtHole(m, link, fr).value, link, fr)) else 0
  }

  /** What a callback, or the rest of one, owes for: unless it resets the stream, the ring is seen from a
      later playhead, and the packets taken are residents in sequence order between the two playheads,
      those that are played before those that are shed. The number of packets gone from the ring is the
      number played, staged, shed and discarded by flushes, each in its own counter, and the number lost
      at a hole or to a reset. An exact cache loses none at holes and stays exact. */
  ghost predicate Accounted(m: Player, n: Player, o: Outcome, atHole: nat, atReset: nat, skipped: nat) {
    && Counted(m, n, o)
    && |n.ring.packets| + (Sinks(n.tally) - Sinks(m.tally)) + atHole + atReset == |m.ring.packets|
    && (o.StreamReset? ==> n.ring == EMPTY_RING)
    && (!o.StreamReset? ==> Suffix(m.ring, n.ring) && InOrderFrom(m.ring, n.ring, TakenBy(o)) && atReset == 0)
    && (CacheExact(m.ring) ==> atHole == 0 && CacheExact(n.ring))
    && n.tally.skippedFrames == m.tally.skippedFrames + skipped
  }

  lemma AfterServing(m: Player, served: Player, n: Player, o: Outcome, atHole: nat, atReset: nat, skipped: nat)
    requires Flushes(m, served) && Accounted(served, n, o, atHole, atReset, skipped)
    ensures Accounted(m, n, o, atHole, atReset, skipped)
  {
    if !o.StreamReset? {
      SuffixTransitive(m.ring, served.ring, n.ring);
      EarlierPlayhead(m.ring, served.ring, n.ring, TakenBy(o));
    }
  }

  // From where the playhead is not held any more.
  lemma ReleasedMoves(m: Player, link: NetworkLink, fr: Frame)
    requires m.ring.WellFormed()
    ensures var ready, pinned := Approach(m, link, fr), AtDepth(m, fr);
            var (n, o) := Proceed(m, link, fr);
            && Accounted(m, n, o, LeftBehind(pinned, link, fr), if o.StreamReset? then Occupied(ready) else 0,
                         HoleWidth(pinned, link, fr))
            && (Jumps(pinned, link, fr) <==> HoleWidth(pinned, link, fr) > 0)
  {
    ApproachMoves(m, link, fr);
    var ready := Approach(m, link, fr);
    if HasNext(ready.ring) {
      FinishMoves(m, link, fr);
      PlayAccount(m, ready, PlayNextFrame(ready, fr).0, PlayNextFrame(ready, fr).1,
                  LeftBehind(AtDepth(m, fr), link, fr), HoleWidth(AtDepth(m, fr), link, fr));
    } else {
      MissingMoves(ready, link, fr);
      MissingAccount(m, ready, HandleMissingFrame(ready, link, fr).0, HandleMissingFrame(ready, link, fr).1,
                     LeftBehind(AtDepth(m, fr), link, fr), HoleWidth(AtDepth(m, fr), link, fr));
    }
  }

  lemma PlayAccount(m: Player, ready: Player, n: Player, o: Outcome, atHole: nat, skipped: nat)
    requires o.Played? && MovesTo(m, n, atHole) && Counted(m, n, o) && InOrderFrom(m.ring, n.ring, TakenBy(o))
    requires ready.tally.skippedFrames == m.tally.skippedFrames + skipped && SkipsNothing(ready, n)
    requires CacheExact(m.ring) ==> atHole == 0
    ensures Accounted(m, n, o, atHole, 0, skipped)
  {
  }

  lemma MissingAccount(m: Player, ready: Player, n: Player, o: Outcome, atHole: nat, skipped: nat)
    requires MovesTo(m, ready, atHole) && PlaysNothing(m, ready) && !o.Played? && n.tally == ready.tally
    requires if o.StreamReset? then n.ring == EMPTY_RING else n.ring == ready.ring
    requires ready.tally.skippedFrames == m.tally.skippedFrames + skipped
    requires CacheExact(m.ring) ==> atHole == 0
    ensures Accounted(m, n, o, atHole, if o.StreamReset? then Occupied(ready) else 0, skipped)
  {
  }

  /** One callback, whatever it is told, is accounted for; and it skips numbers if and only if it crosses a
      hole. */
  lemma CallbackMovesRing(m: Player, link: NetworkLink, fr: Frame)
    requires m.ring.WellFormed()
    ensures var (n, o) := ProcessNextFrame(m, link, fr);
            Accounted(m, n, o, LostAtHole(m, link, fr), LostAtReset(m, link, fr), SkippedBy(m, link, fr))
    ensures Crosses(m, link, fr) <==> SkippedBy(m, link, fr) > 0
  {
    ServedMoves(m, link, fr);
    var (served, ended) := ServePrebuffering(Prepare(m, fr), link, fr);
    var (n, o) := ProcessNextFrame(m, link, fr);
    if ended.None? {
      ReleasedMoves(served, link, fr);
      AfterServing(m, served, n, o, LostAtHole(m, link, fr), LostAtReset(m, link, fr), SkippedBy(m, link, fr));
    }
  }
}
