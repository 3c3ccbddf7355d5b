/**
 Draining the network thread's channel: every packet is shown to the network observer, and those it
 does not reject are offered to the reorder ring.
 */
module PacketIngest {
  import opened Wrappers
  import opened PlaybackStep
  import opened PlaybackSessions
  import ReorderRing
  import RelativeDelay
  import DelayHistogram
  import GapWindow
  import JitterStats

  type Stats = JitterStats.Stats

  datatype RawPacket = RawPacket(packet: ReorderRing.Packet, arrivalTime: nat)

  // The observer and the player after some packets were drained.
  function IngestAll(s: Stats, m: Player, raws: seq<RawPacket>): (after: (Stats, Player))
    requires |s.histogram.bins| == DelayHistogram.BINS && |s.window.ages| == GapWindow.BUCKETS
    ensures |after.0.histogram.bins| == DelayHistogram.BINS && |after.0.window.ages| == GapWindow.BUCKETS
  {
    if raws == [] then (s, m)
    else
      var (stats, player) := IngestAll(s, m, raws[..|raws| - 1]);
      var raw := raws[|raws| - 1];
      var (observed, keep) := JitterStats.Observe(stats, raw.packet.seqNum, raw.arrivalTime);
      (observed, if keep then Ingest(player, raw.packet) else player)
  }

  // The packets as the observer sees them.
  function AsArrivals(raws: seq<RawPacket>): seq<RelativeDelay.Arrival> {
    seq(|raws|, i requires 0 <= i < |raws| => RelativeDelay.Arrival(raws[i].packet.seqNum, raws[i].arrivalTime))
  }

  // The packets as the player sees them: those that were kept.
  function AsEvents(s: Stats, raws: seq<RawPacket>): seq<Event>
    requires |s.histogram.bins| == DelayHistogram.BINS && |s.window.ages| == GapWindow.BUCKETS
  {
    if raws == [] then []
    else
      var front, raw := raws[..|raws| - 1], raws[|raws| - 1];
      var before := JitterStats.ObserveAll(s, AsArrivals(front));
      var keep := JitterStats.Observe(before, raw.packet.seqNum, raw.arrivalTime).1;
      AsEvents(s, front) + if keep then [Arrival(raw.packet)] else []
  }

  /** Draining is the observer's run over all arrivals and the player's session over the kept ones, side
      by side: what is proved of stretches of arrivals holds of the one, what is proved of sessions of
      the other. */
  lemma {:induction false} IngestIsBoth(s: Stats, m: Player, link: NetworkLink, raws: seq<RawPacket>)
    requires s.WellFormed() && Steady(m, link)
    ensures IngestAll(s, m, raws).0 == JitterStats.ObserveAll(s, AsArrivals(raws))
    ensures IngestAll(s, m, raws).1 == PlayAll(m, link, AsEvents(s, raws))
  {
    if raws == [] {
      assert AsArrivals(raws) == [];
    } else {
      var front, raw := raws[..|raws| - 1], raws[|raws| - 1];
      IngestIsBoth(s, m, link, front);
      ArrivalsSnoc(s, raws);
      PlaySnoc(m, link, AsEvents(s, front), Arrival(raw.packet));
      assert AsEvents(s, front) + [] == AsEvents(s, front);
    }
  }

  lemma ArrivalsSnoc(s: Stats, raws: seq<RawPacket>)
    requires |s.histogram.bins| == DelayHistogram.BINS && |s.window.ages| == GapWindow.BUCKETS && raws != []
    ensures var raw := raws[|raws| - 1];
            JitterStats.ObserveAll(s, AsArrivals(raws))
            == JitterStats.Observe(JitterStats.ObserveAll(s, AsArrivals(raws[..|raws| - 1])),
                                   raw.packet.seqNum, raw.arrivalTime).0
  {
    assert AsArrivals(raws)[..|raws| - 1] == AsArrivals(raws[..|raws| - 1]);
  }

  /** A packet is kept back only when it is measured while the clock ran backwards; packets in time order
      are all offered to the ring. */
  lemma {:induction false} TimelyPacketsAreKept(s: Stats, raws: seq<RawPacket>)
    requires s.WellFormed() && RelativeDelay.TimeOrdered(AsArrivals(raws))
    requires raws != [] && s.lastArrival.Some? ==> s.lastArrival.value <= raws[0].arrivalTime
    ensures AsEvents(s, raws) == seq(|raws|, i requires 0 <= i < |raws| => Arrival(raws[i].packet))
  {
    if raws != [] {
      var front := raws[..|raws| - 1];
      var ps := AsArrivals(raws);
      assert ps[..|raws| - 1] == AsArrivals(front);
      TimelyPacketsAreKept(s, front);
      if front == [] {
        assert AsArrivals(front) == [];
        assert JitterStats.ObserveAll(s, []) == s;
      } else {
        JitterStats.LastSeen(s, AsArrivals(front));
        assert ps[|ps| - 2].at <= ps[|ps| - 1].at;
        assert AsArrivals(front)[|front| - 1] == ps[|ps| - 2];
      }
      assert AsEvents(s, raws) == AsEvents(s, front) + [Arrival(raws[|raws| - 1].packet)];
    }
  }
}
