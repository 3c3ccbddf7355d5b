/**
 Whole runs of the reorder buffer: arbitrary sequences of inserts, pops, skips, resets and
 queries, in any order, from the empty buffer or from any well-formed one.
 */
module RingRuns {
  import opened Wrappers
  import opened ReorderRing

  datatype Op =
    | InsertOp(p: Packet)
    | PopOp
    | AdvanceOp
    | FastForwardOp(newSeq: nat)
    | ResetOp
    | LowestOp

  // A fast-forward target is at or beyond the playhead; every other operation is free.
  predicate Legal(r: Ring, op: Op) {
    op.FastForwardOp? ==> r.playhead <= op.newSeq
  }

  function Step(r: Ring, op: Op): (Ring, Option<Packet>) {
    match op
    case InsertOp(p) => (Insert(r, p), None)
    case PopOp => PopNext(r)
    case AdvanceOp => (AdvanceOne(r), None)
    case FastForwardOp(newSeq) => (SkipTo(r, newSeq), None)
    case ResetOp => (EMPTY_RING, None)
    case LowestOp => (LowestAvailable(r).0, None)
  }

  function Run(r: Ring, ops: seq<Op>): Ring {
    if ops == [] then r else Step(Run(r, Front(ops)), Last(ops)).0
  }

  // The packets that left through `PopNext`, in the order they left.
  function Popped(r: Ring, ops: seq<Op>): seq<Packet> {
    if ops == [] then []
    else
      var out := Step(Run(r, Front(ops)), Last(ops)).1;
      Popped(r, Front(ops)) + if out.Some? then [out.value] else []
  }

  ghost predicate LegalRun(r: Ring, ops: seq<Op>) {
    ops == [] || (LegalRun(r, Front(ops)) && Legal(Run(r, Front(ops)), Last(ops)))
  }

  function Front<T>(s: seq<T>): seq<T>
    requires s != []
  {
    s[..|s| - 1]
  }

  function Last<T>(s: seq<T>): T
    requires s != []
  {
    s[|s| - 1]
  }

  lemma RunSnoc(r: Ring, ops: seq<Op>, op: Op)
    ensures Run(r, ops + [op]) == Step(Run(r, ops), op).0
  {
    assert Front(ops + [op]) == ops;
  }

  // ----- the invariant of every reachable state -----

  lemma StepKeeps(r: Ring, op: Op)
    requires r.WellFormed() && Legal(r, op)
    ensures Step(r, op).0.WellFormed()
  {
    match op
    case InsertOp(p) => InsertKeeps(r, p);
    case PopOp => PopKeeps(r);
    case AdvanceOp => PopKeeps(r);
    case FastForwardOp(newSeq) => SkipKeeps(r, newSeq);
    case ResetOp =>
    case LowestOp => LowestKeeps(r);
  }

  /** In every reachable state residents lie in the window under their own numbers, and a cached
      minimum names a packet that is still resident, hence at or beyond the playhead. */
  lemma {:induction false} ReachableIsWellFormed(r: Ring, ops: seq<Op>)
    requires r.WellFormed() && LegalRun(r, ops)
    ensures Run(r, ops).WellFormed()
  {
    if ops != [] {
      ReachableIsWellFormed(r, Front(ops));
      StepKeeps(Run(r, Front(ops)), Last(ops));
    }
  }

  // ----- delivery order -----

  predicate Restarts(r: Ring, op: Op) {
    op.ResetOp? || (op.InsertOp? && InsertOutcome(r, op.p.seqNum) == StreamRestarted)
  }

  ghost predicate NoRestart(r: Ring, ops: seq<Op>) {
    ops == [] || (NoRestart(r, Front(ops)) && !Restarts(Run(r, Front(ops)), Last(ops)))
  }

  ghost predicate StrictlyIncreasing(ps: seq<Packet>) {
    forall i, j :: 0 <= i < j < |ps| ==> ps[i].seqNum < ps[j].seqNum
  }

  /** Between restarts the delivered sequence numbers strictly increase, so none is delivered
      twice, and all of them lie between the first playhead and the last. */
  lemma {:induction false} DeliveryIsOrdered(r: Ring, ops: seq<Op>)
    requires r.WellFormed() && LegalRun(r, ops) && NoRestart(r, ops)
    ensures StrictlyIncreasing(Popped(r, ops))
    ensures forall p :: p in Popped(r, ops) ==> p.seqNum < Run(r, ops).playhead
    ensures r.initialized ==>
              && Run(r, ops).initialized
              && r.playhead <= Run(r, ops).playhead
              && forall p :: p in Popped(r, ops) ==> r.playhead <= p.seqNum
    ensures !Run(r, ops).initialized ==> Popped(r, ops) == []
  {
    if ops != [] {
      DeliveryIsOrdered(r, Front(ops));
      ReachableIsWellFormed(r, Front(ops));
      PlayheadAdvances(Run(r, Front(ops)), Last(ops));
    }
  }

  lemma PlayheadAdvances(r: Ring, op: Op)
    requires r.WellFormed() && Legal(r, op) && !Restarts(r, op)
    ensures r.initialized ==> Step(r, op).0.initialized && r.playhead <= Step(r, op).0.playhead
    ensures Step(r, op).1.Some? ==>
              r.initialized && Step(r, op).1.value.seqNum == r.playhead < Step(r, op).0.playhead
  {
  }

  // ----- who is resident -----

  /** What an arriving packet does to an initialised buffer, number by number: it is filed unless it lies one to
      512 numbers behind the playhead, when nothing changes. Any further behind it restarts the stream at its own
      number with nothing but itself; 512 or more ahead it moves the playhead to 256 numbers before it, and the
      packets before that are gone; in between it moves nothing. A packet of the same number is replaced. */
  lemma InsertResidents(r: Ring, p: Packet, s: nat)
    requires r.initialized
    ensures var q := Insert(r, p);
            && q.initialized
            && (InsertOutcome(r, p.seqNum).Stale? <==> p.seqNum < r.playhead <= p.seqNum + 512)
            && (InsertOutcome(r, p.seqNum).StreamRestarted? <==> r.playhead > p.seqNum + 512)
            && (p.seqNum < r.playhead <= p.seqNum + 512 ==> q == r)
            && (r.playhead > p.seqNum + 512 ==> q.playhead == p.seqNum && (s in q.packets <==> s == p.seqNum))
            && (r.playhead <= p.seqNum < r.playhead + 512 ==>
                  q.playhead == r.playhead && (s in q.packets <==> s in r.packets || s == p.seqNum))
            && (p.seqNum >= r.playhead + 512 ==>
                  && q.playhead == p.seqNum - 256
                  && (s in q.packets <==> (s in r.packets && s >= p.seqNum - 256) || s == p.seqNum))
            && (s in q.packets ==> q.packets[s] == if s == p.seqNum && !(p.seqNum < r.playhead <= p.seqNum + 512)
                                                   then p else (if s in r.packets then r.packets[s] else p))
  {
  }

  /** The first packet of a stream starts the playhead at its own number. */
  lemma FirstInsert(r: Ring, p: Packet)
    requires r.WellFormed() && !r.initialized
    ensures var q := Insert(r, p);
            && InsertOutcome(r, p.seqNum).Accepted?
            && q.initialized && q.playhead == p.seqNum && q.packets == map[p.seqNum := p]
  {
  }

  /** What each operation leaves in the cache of the least number: taking a packet, advancing, skipping and
      resetting forget it, stepping over a hole and a rejected packet keep it, a filed packet lowers it or, where
      it was forgotten, becomes it, and the query recalls the least resident. */
  lemma CacheAfter(r: Ring, op: Op)
    requires r.WellFormed() && r.initialized
    ensures var (q, out) := Step(r, op);
            match op
            case InsertOp(p) =>
              q.cachedMin == (if p.seqNum < r.playhead <= p.seqNum + 512 then r.cachedMin
                              else if r.cachedMin.Some? && r.cachedMin.value < p.seqNum < r.playhead + 512
                              then r.cachedMin else Some(p.seqNum))
            case PopOp => q.cachedMin == if out.Some? then None else r.cachedMin
            case AdvanceOp => q.cachedMin == None
            case FastForwardOp(newSeq) => q.cachedMin == None
            case ResetOp => q.cachedMin == None
            case LowestOp => q.cachedMin == if r.cachedMin.Some? then r.cachedMin else LowestResident(r)
  {
  }

  // ----- provenance -----

  // The packet most recently offered under a number, accepted or not.
  function LatestOffered(ops: seq<Op>, seqNum: nat): Option<Packet> {
    if ops == [] then None
    else if Last(ops).InsertOp? && Last(ops).p.seqNum == seqNum then Some(Last(ops).p)
    else LatestOffered(Front(ops), seqNum)
  }

  /** Every resident packet is the latest one offered under its number, over the whole history
      and across every restart. */
  lemma {:induction false} ResidentIsLatest(ops: seq<Op>)
    requires LegalRun(EMPTY_RING, ops)
    ensures forall s :: s in Run(EMPTY_RING, ops).packets ==>
                          LatestOffered(ops, s) == Some(Run(EMPTY_RING, ops).packets[s])
  {
    if ops != [] {
      ResidentIsLatest(Front(ops));
      ReachableIsWellFormed(EMPTY_RING, Front(ops));
      var r, op := Run(EMPTY_RING, Front(ops)), Last(ops);
      forall s | s in Step(r, op).0.packets
        ensures if op.InsertOp? && op.p.seqNum == s then Step(r, op).0.packets[s] == op.p
                else s in r.packets && Step(r, op).0.packets[s] == r.packets[s]
      {
      }
    }
  }

  /** A delivered packet sits at the playhead and is the latest one offered under its number. */
  lemma PoppedIsLatest(ops: seq<Op>)
    requires LegalRun(EMPTY_RING, ops)
    ensures var out := PopNext(Run(EMPTY_RING, ops)).1;
            out.Some? ==>
              && out.value.seqNum == Run(EMPTY_RING, ops).playhead
              && LatestOffered(ops, out.value.seqNum) == out
  {
    ResidentIsLatest(ops);
    ReachableIsWellFormed(EMPTY_RING, ops);
  }

  // ----- reordering a burst -----

  function Inserts(ps: seq<Packet>): seq<Op> {
    seq(|ps|, i requires 0 <= i < |ps| => InsertOp(ps[i]))
  }

  function Pops(k: nat): seq<Op> {
    seq(k, _ => PopOp)
  }

  // Distinct numbers filling n .. n + k - 1, in any order that starts with n.
  ghost predicate IsBurst(ps: seq<Packet>, n: nat) {
    && 0 < |ps| <= 512
    && ps[0].seqNum == n
    && (forall i :: 0 <= i < |ps| ==> n <= ps[i].seqNum < n + |ps|)
    && (forall i, j :: 0 <= i < j < |ps| ==> ps[i].seqNum != ps[j].seqNum)
  }

  function Interval(n: nat, k: nat): (numbers: set<nat>)
    ensures |numbers| == k
    ensures forall s :: s in numbers <==> n <= s < n + k
  {
    if k == 0 then {} else Interval(n, k - 1) + {n + k - 1}
  }

  function Numbers(ps: seq<Packet>): set<nat> {
    if ps == [] then {} else Numbers(Front(ps)) + {Last(ps).seqNum}
  }

  lemma {:induction false} NumbersAreThose(ps: seq<Packet>)
    ensures forall i :: 0 <= i < |ps| ==> ps[i].seqNum in Numbers(ps)
    ensures forall s :: s in Numbers(ps) ==> exists i :: 0 <= i < |ps| && ps[i].seqNum == s
  {
    if ps != [] {
      NumbersAreThose(Front(ps));
      assert ps[|ps| - 1] == Last(ps);
    }
  }

  lemma {:induction false} DistinctNumbers(ps: seq<Packet>)
    requires forall i, j :: 0 <= i < j < |ps| ==> ps[i].seqNum != ps[j].seqNum
    ensures |Numbers(ps)| == |ps|
  {
    if ps != [] {
      DistinctNumbers(Front(ps));
      NumbersAreThose(Front(ps));
    }
  }

  lemma {:induction false} EqualSizeSubset(a: set<nat>, b: set<nat>)
    requires a <= b && |a| == |b|
    ensures a == b
  {
    if a != {} {
      var x :| x in a;
      EqualSizeSubset(a - {x}, b - {x});
    }
  }

  /** While a burst arrives nothing is rejected and nothing is skipped. */
  lemma {:induction false} BurstIsFiled(ps: seq<Packet>, n: nat, k: nat)
    requires IsBurst(ps, n) && 0 < k <= |ps|
    ensures var r := Run(EMPTY_RING, Inserts(ps[..k]));
            && r.initialized && r.playhead == n
            && r.packets.Keys == Numbers(ps[..k])
            && (forall i :: 0 <= i < k ==> ps[i].seqNum in r.packets && r.packets[ps[i].seqNum] == ps[i])
  {
    RunSnoc(EMPTY_RING, Inserts(ps[..k - 1]), InsertOp(ps[k - 1]));
    assert Inserts(ps[..k]) == Inserts(ps[..k - 1]) + [InsertOp(ps[k - 1])];
    assert Front(ps[..k]) == ps[..k - 1];
    if k == 1 {
      assert Inserts(ps[..0]) == [];
      assert Run(EMPTY_RING, []) == EMPTY_RING;
      assert Numbers(ps[..0]) == {};
    } else {
      BurstIsFiled(ps, n, k - 1);
      InsertIntoWindow(Run(EMPTY_RING, Inserts(ps[..k - 1])), ps[k - 1]);
    }
  }

  lemma InsertIntoWindow(r: Ring, p: Packet)
    requires r.initialized && r.playhead <= p.seqNum < r.playhead + CAPACITY
    ensures var q := Insert(r, p);
            && q.initialized && q.playhead == r.playhead
            && q.packets.Keys == r.packets.Keys + {p.seqNum} && q.packets[p.seqNum] == p
            && (forall s :: s in r.packets && s != p.seqNum ==> q.packets[s] == r.packets[s])
  {
    assert Insert(r, p) == Store(r, p);
  }

  /** Popping a gap-free stretch delivers it in order and one packet per pop. */
  lemma {:induction false} PopsDrain(r: Ring, k: nat)
    requires r.initialized
    requires forall s :: r.playhead <= s < r.playhead + k ==> s in r.packets
    ensures var q := Run(r, Pops(k));
            && q.initialized && q.playhead == r.playhead + k
            && (forall s :: s in q.packets <==> s in r.packets && (s < r.playhead || r.playhead + k <= s))
            && (forall s :: s in q.packets ==> q.packets[s] == r.packets[s])
    ensures Popped(r, Pops(k)) == seq(k, i requires 0 <= i < k => r.packets[r.playhead + i])
  {
    if k > 0 {
      assert Front(Pops(k)) == Pops(k - 1);
      PopsDrain(r, k - 1);
    }
  }

  /** Once a whole burst has arrived, the residents are exactly its packets, without a gap. */
  lemma BurstLeavesNoGap(ps: seq<Packet>, n: nat)
    requires IsBurst(ps, n)
    ensures var r := Run(EMPTY_RING, Inserts(ps));
            && r.initialized && r.playhead == n
            && (forall s :: s in r.packets <==> n <= s < n + |ps|)
            && (forall s :: s in r.packets ==> r.packets[s].seqNum == s)
            && (forall j :: 0 <= j < |ps| ==> r.packets[ps[j].seqNum] == ps[j])
  {
    assert ps[..|ps|] == ps;
    BurstIsFiled(ps, n, |ps|);
    NumbersAreThose(ps);
    DistinctNumbers(ps);
    EqualSizeSubset(Numbers(ps), Interval(n, |ps|));
    var r := Run(EMPTY_RING, Inserts(ps));
    assert forall s :: s in r.packets <==> s in r.packets.Keys;
  }

  /** Popping as many times as there are residents, when they have no gap, delivers all of them in
      order. */
  lemma GapFreeDrains(r: Ring, k: nat)
    requires r.initialized && forall s :: s in r.packets <==> r.playhead <= s < r.playhead + k
    ensures var out := Popped(r, Pops(k));
            && |out| == k
            && (forall i :: 0 <= i < k ==> out[i] == r.packets[r.playhead + i])
            && Run(r, Pops(k)).packets == map[]
  {
    PopsDrain(r, k);
    var left := Run(r, Pops(k)).packets;
    forall s
      ensures s !in left
    {
      assert s in left ==> s in r.packets;
    }
  }

  /** Any burst of up to 512 packets that starts with its first number comes back in sequence
      order: the packet numbered n + i is the i-th one delivered, and nothing is lost. */
  lemma BurstIsReordered(ps: seq<Packet>, n: nat)
    requires IsBurst(ps, n)
    ensures var r := Run(EMPTY_RING, Inserts(ps));
            var out := Popped(r, Pops(|ps|));
            && |out| == |ps|
            && (forall i :: 0 <= i < |ps| ==> out[i].seqNum == n + i)
            && (forall j :: 0 <= j < |ps| ==> out[ps[j].seqNum - n] == ps[j])
            && Run(r, Pops(|ps|)).packets == map[]
  {
    BurstLeavesNoGap(ps, n);
    var r := Run(EMPTY_RING, Inserts(ps));
    GapFreeDrains(r, |ps|);
    var out := Popped(r, Pops(|ps|));
    forall i | 0 <= i < |ps|
      ensures out[i].seqNum == n + i
    {
      assert n + i in r.packets;
    }
    forall j | 0 <= j < |ps|
      ensures out[ps[j].seqNum - n] == ps[j]
    {
      assert r.packets[ps[j].seqNum] == ps[j];
    }
  }
}
