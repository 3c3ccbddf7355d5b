/**
 The ledger of a session: where every packet that arrives ends up, counted over arrivals, callbacks,
 flushes, skips and splices in any interleaving.
 */
module PlaybackLedger {
  import opened Wrappers
  import opened ReorderRing
  import opened RingCache
  import opened PlaybackStep
  import opened PlaybackRuns
  import opened PlaybackSessions
  import RingRuns
  import FlowState

  // ----- sessions with the insert as written, or with the repaired one -----

  function File(r: Ring, p: Packet, repaired: bool): Ring {
    if repaired then RepairedInsert(r, p) else Insert(r, p)
  }

  lemma FileKeeps(r: Ring, p: Packet, repaired: bool)
    requires r.WellFormed()
    ensures File(r, p, repaired).WellFormed()
    ensures SameButCache(File(r, p, repaired), Insert(r, p))
  {
    InsertKeeps(r, p);
  }

  ghost function PlayWith(m: Player, link: NetworkLink, repaired: bool, e: Event): Player
    requires Steady(m, link)
    ensures Steady(PlayWith(m, link, repaired, e), link)
  {
    match e
    case Arrival(p) =>
      FileKeeps(m.ring, p, repaired);
      Ingest(m, p).(ring := File(m.ring, p, repaired))
    case Callback(fr) =>
      Play(m, link, e)
  }

  ghost function SessionWith(m: Player, link: NetworkLink, repaired: bool, events: seq<Event>): Player
    requires Steady(m, link)
    ensures Steady(SessionWith(m, link, repaired, events), link)
  {
    if events == [] then m
    else PlayWith(SessionWith(m, link, repaired, events[..|events| - 1]), link, repaired, events[|events| - 1])
  }

  lemma {:induction false} AsWritten(m: Player, link: NetworkLink, events: seq<Event>)
    requires Steady(m, link)
    ensures SessionWith(m, link, false, events) == PlayAll(m, link, events)
  {
    if events != [] {
      AsWritten(m, link, events[..|events| - 1]);
    }
  }

  // ----- what arrives, and what is lost -----

  datatype Arrivals = Arrivals(filed: nat, duplicates: nat, stale: nat)

  function Classify(r: Ring, p: Packet): Arrivals {
    if InsertOutcome(r, p.seqNum).Stale? then Arrivals(0, 0, 1)
    else if p.seqNum in r.packets then Arrivals(0, 1, 0)
    else Arrivals(1, 0, 0)
  }

  /** Packets that leave the ring without being counted anywhere, by what clears them: a jump over a hole
      to a number that is not the least, a stream reset, an arrival that restarts the stream, and an
      arrival so far ahead that the playhead is skipped. */
  datatype Losses = Losses(atHoles: nat, atResets: nat, atRestarts: nat, atSkips: nat) {
    function Total(): nat {
      atHoles + atResets + atRestarts + atSkips
    }
  }

  const NO_LOSS := Losses(0, 0, 0, 0)

  predicate FarAhead(r: Ring, seqNum: nat) {
    r.initialized && seqNum >= r.playhead + CAPACITY
  }

  // All residents on a restart; on a far-ahead skip those below the new playhead.
  function ArrivalLoss(r: Ring, p: Packet): Losses {
    if InsertOutcome(r, p.seqNum).StreamRestarted? then Losses(0, 0, |r.packets|, 0)
    else if FarAhead(r, p.seqNum) then Losses(0, 0, 0, |KeepBelow(r.packets, SaturatingSub(p.seqNum, CAPACITY / 2))|)
    else NO_LOSS
  }

  ghost function CallbackLoss(m: Player, link: NetworkLink, fr: Frame): Losses
    requires m.ring.WellFormed()
  {
    Losses(LostAtHole(m, link, fr), LostAtReset(m, link, fr), 0, 0)
  }

  // What a session has seen arrive, what it has lost, and how many numbers it has passed over at holes.
  datatype Account = Account(arrivals: Arrivals, losses: Losses, skipped: nat)

  function Add(a: Account, b: Account): Account {
    Account(Arrivals(a.arrivals.filed + b.arrivals.filed, a.arrivals.duplicates + b.arrivals.duplicates,
                     a.arrivals.stale + b.arrivals.stale),
            Losses(a.losses.atHoles + b.losses.atHoles, a.losses.atResets + b.losses.atResets,
                   a.losses.atRestarts + b.losses.atRestarts, a.losses.atSkips + b.losses.atSkips),
            a.skipped + b.skipped)
  }

  ghost function EventAccount(m: Player, link: NetworkLink, e: Event): Account
    requires m.ring.WellFormed()
  {
    match e
    case Arrival(p) => Account(Classify(m.ring, p), ArrivalLoss(m.ring, p), 0)
    case Callback(fr) => Account(Arrivals(0, 0, 0), CallbackLoss(m, link, fr), SkippedBy(m, link, fr))
  }

  ghost function AccountOf(m: Player, link: NetworkLink, repaired: bool, events: seq<Event>): Account
    requires Steady(m, link)
  {
    if events == [] then Account(Arrivals(0, 0, 0), NO_LOSS, 0)
    else
      var front, e := events[..|events| - 1], events[|events| - 1];
      Add(AccountOf(m, link, repaired, front), EventAccount(SessionWith(m, link, repaired, front), link, e))
  }

  function CountArrivals(events: seq<Event>): nat {
    if events == [] then 0
    else CountArrivals(events[..|events| - 1]) + if events[|events| - 1].Arrival? then 1 else 0
  }

  lemma {:induction false} EveryArrivalIsClassified(m: Player, link: NetworkLink, repaired: bool, events: seq<Event>)
    requires Steady(m, link)
    ensures var a := AccountOf(m, link, repaired, events).arrivals;
            a.filed + a.duplicates + a.stale == CountArrivals(events)
  {
    if events != [] {
      EveryArrivalIsClassified(m, link, repaired, events[..|events| - 1]);
    }
  }

  // ----- the ledger -----

  // What an arrival clears before it is filed is exactly the loss.
  ghost predicate Clears(r: Ring, p: Packet, before: Ring) {
    && |before.packets| + ArrivalLoss(r, p).Total() == |r.packets|
    && (p.seqNum in before.packets <==> p.seqNum in r.packets)
  }

  lemma SkipClears(r: Ring, p: Packet)
    requires r.WellFormed() && FarAhead(r, p.seqNum)
    ensures BeforeStore(r, p.seqNum) == Some(SkipTo(r, SaturatingSub(p.seqNum, CAPACITY / 2)))
    ensures Clears(r, p, SkipTo(r, SaturatingSub(p.seqNum, CAPACITY / 2)))
  {
    var to := SaturatingSub(p.seqNum, CAPACITY / 2);
    CutAt(r.packets, to);
    assert InsertOutcome(r, p.seqNum) == Accepted;
    assert ArrivalLoss(r, p) == Losses(0, 0, 0, |KeepBelow(r.packets, to)|);
    assert SkipTo(r, to).packets == KeepFrom(r.packets, to);
  }

  lemma ArrivalClears(r: Ring, p: Packet)
    requires r.WellFormed() && BeforeStore(r, p.seqNum).Some?
    ensures Clears(r, p, BeforeStore(r, p.seqNum).value)
  {
    var before := BeforeStore(r, p.seqNum).value;
    if !r.initialized {
      assert before.packets == r.packets;
    } else if FarAhead(r, p.seqNum) {
      SkipClears(r, p);
    } else if p.seqNum < r.playhead {
      assert before.packets == map[];
    } else {
      assert before == r;
    }
  }

  lemma FiledAfterClearing(r: Ring, p: Packet)
    requires r.WellFormed() && BeforeStore(r, p.seqNum).Some?
    ensures |Insert(r, p).packets|
            == |BeforeStore(r, p.seqNum).value.packets|
               + if p.seqNum in BeforeStore(r, p.seqNum).value.packets then 0 else 1
  {
    BeforeStoreKeeps(r, p.seqNum);
    StoreKeeps(BeforeStore(r, p.seqNum).value, p);
  }

  // The number filed and the number lost, against the buffer before and after.
  ghost predicate Adds(r: Ring, p: Packet, depth: nat) {
    depth + ArrivalLoss(r, p).Total() == |r.packets| + Classify(r, p).filed
  }

  lemma ClearedAndFiled(r: Ring, p: Packet, before: Ring, depth: nat)
    requires Clears(r, p, before) && depth == |before.packets| + if p.seqNum in before.packets then 0 else 1
    requires Classify(r, p).filed == if p.seqNum in r.packets then 0 else 1
    ensures Adds(r, p, depth)
  {
  }

  lemma FileBalances(r: Ring, p: Packet, repaired: bool)
    requires r.WellFormed()
    ensures Adds(r, p, |File(r, p, repaired).packets|)
  {
    FileKeeps(r, p, repaired);
    InsertBalances(r, p);
  }

  lemma InsertBalances(r: Ring, p: Packet)
    requires r.WellFormed()
    ensures Adds(r, p, |Insert(r, p).packets|)
  {
    if BeforeStore(r, p.seqNum).Some? {
      ArrivalClears(r, p);
      FiledAfterClearing(r, p);
      NotStale(r, p);
      ClearedAndFiled(r, p, BeforeStore(r, p.seqNum).value, |Insert(r, p).packets|);
    } else {
      RejectedIsStale(r, p);
    }
  }

  lemma NotStale(r: Ring, p: Packet)
    requires BeforeStore(r, p.seqNum).Some?
    ensures Insert(r, p) == Store(BeforeStore(r, p.seqNum).value, p)
    ensures Classify(r, p).filed == if p.seqNum in r.packets then 0 else 1
  {
  }

  lemma RejectedIsStale(r: Ring, p: Packet)
    requires BeforeStore(r, p.seqNum).None?
    ensures Insert(r, p).packets == r.packets && Classify(r, p).filed == 0 && ArrivalLoss(r, p) == NO_LOSS
  {
  }

  // The books after some events, against the books before.
  ghost predicate Balanced(m: Player, n: Player, a: Account) {
    && Occupied(m) + a.arrivals.filed == Occupied(n) + (Sinks(n.tally) - Sinks(m.tally)) + a.losses.Total()
    && n.tally.staleRejects == m.tally.staleRejects + a.arrivals.stale
    && n.tally.skippedFrames == m.tally.skippedFrames + a.skipped
  }

  lemma EventBalances(m: Player, link: NetworkLink, repaired: bool, e: Event)
    requires Steady(m, link)
    ensures Balanced(m, PlayWith(m, link, repaired, e), EventAccount(m, link, e))
  {
    match e
    case Arrival(p) => ArrivalBalances(m, link, repaired, p);
    case Callback(fr) => CallbackMovesRing(m, link, fr);
  }

  lemma ArrivalBalances(m: Player, link: NetworkLink, repaired: bool, p: Packet)
    requires Steady(m, link)
    ensures Balanced(m, PlayWith(m, link, repaired, Arrival(p)), EventAccount(m, link, Arrival(p)))
  {
    FileBalances(m.ring, p, repaired);
    StaleIsCounted(m, p);
  }

  lemma StaleIsCounted(m: Player, p: Packet)
    ensures var n := Ingest(m, p);
            && n.tally.staleRejects == m.tally.staleRejects + Classify(m.ring, p).stale
            && Sinks(n.tally) == Sinks(m.tally) && n.tally.skippedFrames == m.tally.skippedFrames
  {
  }

  lemma BalancesAdd(m: Player, n: Player, k: Player, a: Account, b: Account)
    requires Balanced(m, n, a) && Balanced(n, k, b)
    ensures Balanced(m, k, Add(a, b))
  {
  }

  lemma {:induction false} SessionBalances(m: Player, link: NetworkLink, repaired: bool, events: seq<Event>)
    requires Steady(m, link)
    ensures Balanced(m, SessionWith(m, link, repaired, events), AccountOf(m, link, repaired, events))
  {
    if events != [] {
      var front, e := events[..|events| - 1], events[|events| - 1];
      SessionBalances(m, link, repaired, front);
      var before := SessionWith(m, link, repaired, front);
      EventBalances(before, link, repaired, e);
      BalancesAdd(m, before, SessionWith(m, link, repaired, events), AccountOf(m, link, repaired, front),
                  EventAccount(before, link, e));
    }
  }

  /** The ledger of every session closes, with either insert and whatever happens in it: each packet that
      arrived is resident, or was played, staged, shed or discarded by a flush, or came too late, or
      repeated a resident one, or was lost at a hole, a reset, a restart or a far-ahead skip, and is
      counted there exactly once. */
  lemma LedgerCloses(m: Player, link: NetworkLink, repaired: bool, events: seq<Event>)
    requires Steady(m, link)
    ensures var n, a := SessionWith(m, link, repaired, events), AccountOf(m, link, repaired, events);
            CountArrivals(events) + Occupied(m)
            == Occupied(n)
               + (n.tally.framesPlayed - m.tally.framesPlayed) + (n.tally.stagedPops - m.tally.stagedPops)
               + (n.tally.shed - m.tally.shed) + (n.tally.flushDiscards - m.tally.flushDiscards)
               + (n.tally.staleRejects - m.tally.staleRejects) + a.arrivals.duplicates + a.losses.Total()
  {
    SessionBalances(m, link, repaired, events);
    EveryArrivalIsClassified(m, link, repaired, events);
  }

  // ----- what the cached minimum loses -----

  // No arrival of the session is filed under an invalid cache above an older resident.
  ghost predicate NeverMasks(m: Player, link: NetworkLink, repaired: bool, events: seq<Event>)
    requires Steady(m, link)
  {
    events == [] ||
    (var front, e := events[..|events| - 1], events[|events| - 1];
     && NeverMasks(m, link, repaired, front)
     && (e.Arrival? ==> !MasksOlder(SessionWith(m, link, repaired, front).ring, RingRuns.InsertOp(e.p))))
  }

  lemma EventKeepsExact(m: Player, link: NetworkLink, repaired: bool, e: Event)
    requires Steady(m, link) && CacheExact(m.ring)
    requires repaired || e.Callback? || !MasksOlder(m.ring, RingRuns.InsertOp(e.p))
    ensures CacheExact(PlayWith(m, link, repaired, e).ring)
    ensures EventAccount(m, link, e).losses.atHoles == 0
  {
    match e
    case Arrival(p) =>
      if repaired {
        RepairedKeeps(m.ring, RingRuns.InsertOp(p));
      } else {
        StepExactness(m.ring, RingRuns.InsertOp(p));
      }
    case Callback(fr) =>
      CallbackMovesRing(m, link, fr);
  }

  /** With the repaired insert no session loses a packet at a hole, across restarts, resets and far-ahead
      skips; with the insert as written none does in which no arrival masks an older packet. */
  lemma {:induction false} NothingIsLostAtHoles(m: Player, link: NetworkLink, repaired: bool, events: seq<Event>)
    requires Steady(m, link) && CacheExact(m.ring)
    requires repaired || NeverMasks(m, link, repaired, events)
    ensures AccountOf(m, link, repaired, events).losses.atHoles == 0
    ensures CacheExact(SessionWith(m, link, repaired, events).ring)
  {
    if events != [] {
      var front, e := events[..|events| - 1], events[|events| - 1];
      NothingIsLostAtHoles(m, link, repaired, front);
      EventKeepsExact(SessionWith(m, link, repaired, front), link, repaired, e);
    }
  }

  // ----- the documented ledger -----

  /** The ledger as it is documented: what arrived and was neither played nor staged is stale, skipped,
      discarded or shed. */
  ghost predicate DocumentedLedger(m: Player, n: Player, arrivals: nat) {
    arrivals - (n.tally.framesPlayed - m.tally.framesPlayed) - (n.tally.stagedPops - m.tally.stagedPops)
    == (n.tally.staleRejects - m.tally.staleRejects) + (n.tally.skippedFrames - m.tally.skippedFrames)
       + (n.tally.flushDiscards - m.tally.flushDiscards) + (n.tally.shed - m.tally.shed)
  }

  /** In every session it holds if and only if the holes that were jumped are together as wide as there
      are duplicates, growth of the buffer and packets lost: a hole is not a packet. */
  lemma DocumentedLedgerExactly(m: Player, link: NetworkLink, repaired: bool, events: seq<Event>)
    requires Steady(m, link)
    ensures var n, a := SessionWith(m, link, repaired, events), AccountOf(m, link, repaired, events);
            DocumentedLedger(m, n, CountArrivals(events))
            <==> a.skipped == a.arrivals.duplicates + (Occupied(n) - Occupied(m)) + a.losses.Total()
  {
    LedgerCloses(m, link, repaired, events);
    SessionBalances(m, link, repaired, events);
  }

  // No callback of the session jumps across a hole.
  ghost predicate NeverCrosses(m: Player, link: NetworkLink, repaired: bool, events: seq<Event>)
    requires Steady(m, link)
  {
    events == [] ||
    (var front, e := events[..|events| - 1], events[|events| - 1];
     && NeverCrosses(m, link, repaired, front)
     && (e.Callback? ==> !Crosses(SessionWith(m, link, repaired, front), link, e.fr)))
  }

  lemma {:induction false} SkipsOnlyByCrossing(m: Player, link: NetworkLink, repaired: bool, events: seq<Event>)
    requires Steady(m, link)
    ensures AccountOf(m, link, repaired, events).skipped == 0 <==> NeverCrosses(m, link, repaired, events)
  {
    if events != [] {
      var front, e := events[..|events| - 1], events[|events| - 1];
      SkipsOnlyByCrossing(m, link, repaired, front);
      if e.Callback? {
        CallbackMovesRing(SessionWith(m, link, repaired, front), link, e.fr);
      }
    }
  }

  /** So a session without duplicates and losses that leaves the buffer as deep as it found it balances
      the documented ledger if and only if none of its callbacks jumps across a hole. */
  lemma DocumentedLedgerByHoles(m: Player, link: NetworkLink, repaired: bool, events: seq<Event>)
    requires Steady(m, link)
    requires var a := AccountOf(m, link, repaired, events);
             a.arrivals.duplicates == 0 && a.losses == NO_LOSS
    requires Occupied(SessionWith(m, link, repaired, events)) == Occupied(m)
    ensures DocumentedLedger(m, SessionWith(m, link, repaired, events), CountArrivals(events))
            <==> NeverCrosses(m, link, repaired, events)
  {
    DocumentedLedgerExactly(m, link, repaired, events);
    SkipsOnlyByCrossing(m, link, repaired, events);
  }

  // A callback of no-buffer mode, where a hole is skipped at once.
  const EAGER := Frame(0, None, 4, 1, 1, 8, true, false, false, 4, Verbatim)

  // Packet 1 is lost: 0 and 2 arrive, each is played on the next callback, and the hole is skipped.
  const LOST_PACKET: seq<Event> := [Arrival(Numbered(0)), Callback(EAGER), Arrival(Numbered(2)), Callback(EAGER)]

  lemma FirstIsPlayed(link: NetworkLink)
    ensures var m := Ingest(NEW_PLAYER, Numbered(0));
            && m.ring.WellFormed()
            && var n := ProcessNextFrame(m, link, EAGER).0;
               && n.ring == Ring(true, 1, map[], None)
               && !n.flow.isPrebuffering && !n.startupFlushPending && n.flow.recoveryStartedAt == None
               && n.tally == NO_TALLY.(framesPlayed := 1)
  {
    var m := Ingest(NEW_PLAYER, Numbered(0));
    assert m.ring == Ring(true, 0, map[0 := Numbered(0)], Some(0));
    var ready := m.(flow := FlowState.TickRecovery(m.flow, 0));
    assert Prepare(m, EAGER) == ready;
    var released := ready.(flow := ready.flow.(isPrebuffering := false));
    assert ServePrebuffering(ready, link, EAGER) == (released, None);
    var started := released.(startupFlushPending := false);
    assert Approach(released, link, EAGER) == started;
    assert AdvanceOne(started.ring) == Ring(true, 1, map[], None);
  }

  lemma HoleIsSkipped(m: Player, link: NetworkLink)
    requires m.ring == Ring(true, 1, map[], None) && !m.flow.isPrebuffering && !m.startupFlushPending
    requires m.flow.recoveryStartedAt == None
    ensures var filed := Ingest(m, Numbered(2));
            && filed.ring.WellFormed()
            && var n := ProcessNextFrame(filed, link, EAGER).0;
               && n.ring.packets == map[]
               && n.tally == m.tally.(framesPlayed := m.tally.framesPlayed + 1,
                                      playheadSkips := m.tally.playheadSkips + 1,
                                      skippedFrames := m.tally.skippedFrames + 1)
  {
    var filed := Ingest(m, Numbered(2));
    assert filed.ring == Ring(true, 1, map[2 := Numbered(2)], Some(2));
    var ready := filed.(flow := FlowState.TickRecovery(filed.flow, 0));
    assert Prepare(filed, EAGER) == ready;
    assert ServePrebuffering(ready, link, EAGER) == (ready, None);
    var jumped := FastForwardOverGap(ready, link, EAGER);
    assert SkipTo(ready.ring, 2) == Ring(true, 2, map[2 := Numbered(2)], None);
    assert jumped.ring == Ring(true, 2, map[2 := Numbered(2)], None);
    assert Approach(ready, link, EAGER) == jumped;
    assert AdvanceOne(jumped.ring).packets == map[];
  }

  /** A session that separates the two: both packets that arrived were played, and the ledger is
      one short, for the packet that never came. */
  lemma LostPacketIsNotInTheLedger(link: NetworkLink)
    ensures var n := PlayAll(NEW_PLAYER, link, LOST_PACKET);
            && Occupied(n) == 0 && n.tally.framesPlayed == 2 == CountArrivals(LOST_PACKET)
            && !DocumentedLedger(NEW_PLAYER, n, CountArrivals(LOST_PACKET))
  {
    var a, b, c := Arrival(Numbered(0)), Callback(EAGER), Arrival(Numbered(2));
    FirstIsPlayed(link);
    var first := Ingest(NEW_PLAYER, Numbered(0));
    var playing := ProcessNextFrame(first, link, EAGER).0;
    HoleIsSkipped(playing, link);
    assert [a, b, c] + [b] == LOST_PACKET;
    ThreeEvents(NEW_PLAYER, link, a, b, c);
    PlaySnoc(NEW_PLAYER, link, [a, b, c], b);
    TwoArrivals(a, b, c);
  }

  lemma TwoArrivals(a: Event, b: Event, c: Event)
    requires a.Arrival? && b.Callback? && c.Arrival?
    ensures CountArrivals([a, b, c] + [b]) == 2
  {
    assert [] + [a] == [a];
    assert [a] + [b] == [a, b];
    assert [a, b] + [c] == [a, b, c];
    CountSnoc([], a);
    CountSnoc([a], b);
    CountSnoc([a, b], c);
    CountSnoc([a, b, c], b);
  }

  lemma CountSnoc(events: seq<Event>, e: Event)
    ensures CountArrivals(events + [e]) == CountArrivals(events) + if e.Arrival? then 1 else 0
  {
    assert (events + [e])[..|events|] == events;
  }
}
