/**
 The phone's whole jitter pipeline at once: packets drained from the network's channel go to the
 observer and the player, and frame callbacks of the player reset the observer when they restart the
 stream or pick up a changed configuration.
 */
module JointSessions {
  import opened Wrappers
  import opened PlaybackStep
  import opened PlaybackSessions
  import PacketIngest
  import RelativeDelay
  import JitterStats

  type Stats = JitterStats.Stats
  type RawPacket = PacketIngest.RawPacket

  datatype Happening = Drained(raw: RawPacket) | Ran(fr: Frame)

  datatype Phone = Phone(stats: Stats, player: Player)

  ghost predicate Sound(p: Phone, link: NetworkLink) {
    p.stats.WellFormed() && Steady(p.player, link)
  }

  // ----- one event -----

  // What a callback does to the statistics.
  function StatsAfter(s: Stats, fr: Frame, o: Outcome): Stats {
    var reloaded := if fr.newTarget.Some? then JitterStats.AfterConfigChange(s) else s;
    if o.StreamReset? then JitterStats.AfterRestart(reloaded) else reloaded
  }

  predicate ResetsStats(fr: Frame, o: Outcome) {
    fr.newTarget.Some? || o.StreamReset?
  }

  /** A callback leaves the statistics alone unless it picked up a changed configuration or reset the stream;
      the packet they measure the next one against is forgotten only by a reset of the stream. */
  lemma CallbackOnStats(s: Stats, fr: Frame, o: Outcome)
    requires s.WellFormed()
    ensures fr.newTarget.None? && !o.StreamReset? ==> StatsAfter(s, fr, o) == s
    ensures fr.newTarget.Some? || o.StreamReset? ==> JitterStats.Blank(StatsAfter(s, fr, o))
    ensures StatsAfter(s, fr, o).lastSeq == if o.StreamReset? then None else s.lastSeq
    ensures StatsAfter(s, fr, o).lastArrival == s.lastArrival
  {
    JitterStats.ResetsBlank(s);
    JitterStats.ResetsBlank(JitterStats.AfterConfigChange(s));
  }

  lemma StatsAfterKeeps(s: Stats, fr: Frame, o: Outcome)
    requires s.WellFormed()
    ensures StatsAfter(s, fr, o).WellFormed()
    ensures ResetsStats(fr, o) ==> JitterStats.Renewed(StatsAfter(s, fr, o))
    ensures !ResetsStats(fr, o) ==> StatsAfter(s, fr, o) == s
  {
    JitterStats.ResetsRenew(s);
    JitterStats.ResetsRenew(JitterStats.AfterConfigChange(s));
  }

  ghost function Happen(p: Phone, link: NetworkLink, e: Happening): (q: Phone)
    requires Sound(p, link)
    ensures Sound(q, link)
  {
    match e
    case Drained(raw) =>
      JitterStats.ObserveKeeps(p.stats, raw.packet.seqNum, raw.arrivalTime);
      var (stats, keep) := JitterStats.Observe(p.stats, raw.packet.seqNum, raw.arrivalTime);
      Phone(stats, if keep then Play(p.player, link, Arrival(raw.packet)) else p.player)
    case Ran(fr) =>
      var o := ProcessNextFrame(p.player, link, fr).1;
      StatsAfterKeeps(p.stats, fr, o);
      Phone(StatsAfter(p.stats, fr, o), Play(p.player, link, Callback(fr)))
  }

  // ----- whole sessions -----

  ghost function Live(p: Phone, link: NetworkLink, events: seq<Happening>): (q: Phone)
    requires Sound(p, link)
    ensures Sound(q, link)
  {
    if events == [] then p
    else Happen(Live(p, link, events[..|events| - 1]), link, events[|events| - 1])
  }

  /** Draining a channel is a session of its own, one event a packet. */
  lemma {:induction false} DrainIsLive(p: Phone, link: NetworkLink, raws: seq<RawPacket>)
    requires Sound(p, link)
    ensures var q := Live(p, link, seq(|raws|, i requires 0 <= i < |raws| => Drained(raws[i])));
            PacketIngest.IngestAll(p.stats, p.player, raws) == (q.stats, q.player)
  {
    var events := seq(|raws|, i requires 0 <= i < |raws| => Drained(raws[i]));
    if raws != [] {
      var front := raws[..|raws| - 1];
      DrainIsLive(p, link, front);
      assert events[..|events| - 1] == seq(|front|, i requires 0 <= i < |front| => Drained(front[i]));
    }
  }

  // The session as the player sees it.
  ghost function ForPlayer(p: Phone, link: NetworkLink, events: seq<Happening>): seq<Event>
    requires Sound(p, link)
  {
    if events == [] then []
    else
      var front, e := events[..|events| - 1], events[|events| - 1];
      var sofar := ForPlayer(p, link, front);
      match e
      case Drained(raw) =>
        if JitterStats.Observe(Live(p, link, front).stats, raw.packet.seqNum, raw.arrivalTime).1
        then sofar + [Arrival(raw.packet)] else sofar
      case Ran(fr) => sofar + [Callback(fr)]
  }

  /** The player of the pipeline lives through a session of its own, so everything proved of sessions holds
      of it. */
  lemma {:induction false} PlayerIsInSession(p: Phone, link: NetworkLink, events: seq<Happening>)
    requires Sound(p, link)
    ensures Live(p, link, events).player == PlayAll(p.player, link, ForPlayer(p, link, events))
  {
    if events != [] {
      var front, e := events[..|events| - 1], events[|events| - 1];
      PlayerIsInSession(p, link, front);
      match e
      case Drained(raw) => PlaySnoc(p.player, link, ForPlayer(p, link, front), Arrival(raw.packet));
      case Ran(fr) => PlaySnoc(p.player, link, ForPlayer(p, link, front), Callback(fr));
    }
  }

  // ----- the statistics since the last reset -----

  // Whether the statistics were ever reset.
  ghost predicate WasReset(p: Phone, link: NetworkLink, events: seq<Happening>)
    requires Sound(p, link)
  {
    events != [] &&
    (var front, e := events[..|events| - 1], events[|events| - 1];
     || WasReset(p, link, front)
     || (e.Ran? && ResetsStats(e.fr, ProcessNextFrame(Live(p, link, front).player, link, e.fr).1)))
  }

  // The statistics right after their last reset, or at the beginning when there was none.
  ghost function Base(p: Phone, link: NetworkLink, events: seq<Happening>): (s: Stats)
    requires Sound(p, link)
    ensures s.WellFormed()
  {
    if events == [] then p.stats
    else
      var front, e := events[..|events| - 1], events[|events| - 1];
      if e.Ran? && ResetsStats(e.fr, ProcessNextFrame(Live(p, link, front).player, link, e.fr).1)
      then Live(p, link, events).stats
      else Base(p, link, front)
  }

  // The packet that statistics measure the next one against, if any.
  function Anchor(s: Stats): seq<RelativeDelay.Arrival> {
    if s.lastSeq.Some? && s.lastArrival.Some?
    then [RelativeDelay.Arrival(s.lastSeq.value, s.lastArrival.value)] else []
  }

  /** The packets observed since then, after the one, if any, that they are measured against. */
  ghost function Since(p: Phone, link: NetworkLink, events: seq<Happening>): seq<RelativeDelay.Arrival>
    requires Sound(p, link)
  {
    if events == [] then Anchor(p.stats)
    else
      var front, e := events[..|events| - 1], events[|events| - 1];
      match e
      case Drained(raw) =>
        Since(p, link, front) + [RelativeDelay.Arrival(raw.packet.seqNum, raw.arrivalTime)]
      case Ran(fr) =>
        if ResetsStats(fr, ProcessNextFrame(Live(p, link, front).player, link, fr).1)
        then Anchor(Live(p, link, events).stats)
        else Since(p, link, front)
  }

  // Observing the last packet once more changes nothing, and nothing is ever measured against itself.
  lemma AnchorIsSeen(s: Stats)
    requires s.WellFormed()
    ensures JitterStats.ObserveAll(s, Anchor(s)) == s
    ensures Anchor(s) != [] ==> !JitterStats.Measures(s, Anchor(s)[0].seqNum)
    ensures Anchor(s) == [] ==> forall seqNum :: !JitterStats.Measures(s, seqNum)
  {
    var ps := Anchor(s);
    if ps != [] {
      assert ps[..0] == [];
      assert JitterStats.ObserveAll(s, []) == s;
    }
  }

  // The statistics are those of a stretch that began at the base.
  ghost predicate Stretches(p: Phone, link: NetworkLink, events: seq<Happening>)
    requires Sound(p, link)
  {
    var base, ps := Base(p, link, events), Since(p, link, events);
    && (WasReset(p, link, events) ==> JitterStats.Renewed(base))
    && Live(p, link, events).stats == JitterStats.ObserveAll(base, ps)
    && (ps != [] ==> !JitterStats.Measures(base, ps[0].seqNum))
    && (ps == [] ==> Anchor(base) == [])
  }

  lemma ObserveSnoc(s: Stats, ps: seq<RelativeDelay.Arrival>, a: RelativeDelay.Arrival)
    requires s.WellFormed()
    ensures JitterStats.ObserveAll(s, ps + [a])
            == JitterStats.Observe(JitterStats.ObserveAll(s, ps), a.seqNum, a.at).0
  {
    assert (ps + [a])[..|ps|] == ps;
  }

  lemma DrainedStep(p: Phone, link: NetworkLink, events: seq<Happening>)
    requires Sound(p, link) && events != [] && events[|events| - 1].Drained?
    requires Stretches(p, link, events[..|events| - 1])
    ensures Stretches(p, link, events)
  {
    var front, raw := events[..|events| - 1], events[|events| - 1].raw;
    ObserveSnoc(Base(p, link, front), Since(p, link, front), RelativeDelay.Arrival(raw.packet.seqNum, raw.arrivalTime));
    AnchorIsSeen(Base(p, link, front));
  }

  lemma RanStep(p: Phone, link: NetworkLink, events: seq<Happening>)
    requires Sound(p, link) && events != [] && events[|events| - 1].Ran?
    requires Stretches(p, link, events[..|events| - 1])
    ensures Stretches(p, link, events)
  {
    var before, fr := Live(p, link, events[..|events| - 1]), events[|events| - 1].fr;
    StatsAfterKeeps(before.stats, fr, ProcessNextFrame(before.player, link, fr).1);
    AnchorIsSeen(Live(p, link, events).stats);
  }

  lemma {:induction false} StatsSinceReset(p: Phone, link: NetworkLink, events: seq<Happening>)
    requires Sound(p, link)
    ensures Stretches(p, link, events)
  {
    if events == [] {
      AnchorIsSeen(p.stats);
    } else {
      StatsSinceReset(p, link, events[..|events| - 1]);
      if events[|events| - 1].Drained? {
        DrainedStep(p, link, events);
      } else {
        RanStep(p, link, events);
      }
    }
  }

  /** No latching through resets: in any session of packets and callbacks in which the statistics were
      reset, by a restarted stream or a changed configuration, the target lies in the range in which the
      lateness of the packets measured since the last reset lies, from the first of them on that is not 65
      frames late. */
  lemma TargetFollowsThroughResets(p: Phone, link: NetworkLink, events: seq<Happening>, low: real, high: real)
    requires Sound(p, link) && WasReset(p, link, events)
    requires JitterStats.Bounded(Base(p, link, events), Since(p, link, events), low, high, 1)
    requires JitterStats.Represented(Since(p, link, events), 1) > 0
    ensures low.Floor <= Live(p, link, events).stats.histogram.target <= high.Floor
  {
    StatsSinceReset(p, link, events);
    JitterStats.TargetFollowsAfterReset(Base(p, link, events), Since(p, link, events), low, high);
  }

  /** And without a reset a stretch in which 1980 packets count does the same, whatever the statistics held at
      the beginning. */
  lemma TargetFollowsThroughSession(p: Phone, link: NetworkLink, events: seq<Happening>, low: real, high: real)
    requires Sound(p, link)
    requires JitterStats.Bounded(Base(p, link, events), Since(p, link, events), low, high, 100)
    requires JitterStats.Represented(Since(p, link, events), 100) >= 1980
    ensures low.Floor <= Live(p, link, events).stats.histogram.target <= high.Floor
  {
    StatsSinceReset(p, link, events);
    JitterStats.TargetFollowsTheLink(Base(p, link, events), Since(p, link, events), low, high);
  }
}
