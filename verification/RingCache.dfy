/**
 The lazily cached minimum of the reorder buffer.

 The cache is not exact as the buffer is written: an insert treats an invalidated cache as if the
 buffer were empty. This module says exactly which inserts spoil it, what that costs, and that an
 insert which leaves an invalidated cache alone while packets are resident never spoils it.
 */
module RingCache {
  import opened Wrappers
  import opened ReorderRing
  import opened RingRuns

  ghost predicate CacheExact(r: Ring) {
    r.cachedMin.Some? ==> IsLeast(r.packets, r.cachedMin.value)
  }

  /** The insert that goes wrong: the cache is invalid when the packet is filed, and an older
      packet is resident. */
  predicate MasksOlder(r: Ring, op: Op) {
    && op.InsertOp?
    && var before := BeforeStore(r, op.p.seqNum);
       before.Some? && before.value.cachedMin.None? && exists s :: s in before.value.packets && s < op.p.seqNum
  }

  /** One operation keeps an exact cache exact if and only if it is not such an insert. */
  lemma StepExactness(r: Ring, op: Op)
    requires r.WellFormed() && Legal(r, op) && CacheExact(r)
    ensures CacheExact(Step(r, op).0) <==> !MasksOlder(r, op)
  {
    match op
    case InsertOp(p) =>
      var before := BeforeStore(r, p.seqNum);
      if before.Some? {
        StoreExactness(before.value, p);
      }
    case LowestOp => LowestResidentIsLeast(r);
    case PopOp =>
    case AdvanceOp =>
    case FastForwardOp(newSeq) =>
    case ResetOp =>
  }

  lemma StoreExactness(q: Ring, p: Packet)
    requires CacheExact(q)
    ensures CacheExact(Store(q, p)) <==> !(q.cachedMin.None? && exists s :: s in q.packets && s < p.seqNum)
  {
    var stored := Store(q, p);
    if s :| s in q.packets && s < p.seqNum {
      assert s in stored.packets;
    }
  }

  ghost predicate ExactThroughout(r: Ring, ops: seq<Op>) {
    CacheExact(Run(r, ops)) && (ops == [] || ExactThroughout(r, Front(ops)))
  }

  ghost predicate NeverMasks(r: Ring, ops: seq<Op>) {
    ops == [] || (NeverMasks(r, Front(ops)) && !MasksOlder(Run(r, Front(ops)), Last(ops)))
  }

  /** Over any run: the cache is exact throughout if and only if no insert of the run masks an
      older resident. */
  lemma {:induction false} RunExactness(r: Ring, ops: seq<Op>)
    requires r.WellFormed() && LegalRun(r, ops) && CacheExact(r)
    ensures ExactThroughout(r, ops) <==> NeverMasks(r, ops)
  {
    if ops != [] {
      RunExactness(r, Front(ops));
      ReachableIsWellFormed(r, Front(ops));
      if CacheExact(Run(r, Front(ops))) {
        StepExactness(Run(r, Front(ops)), Last(ops));
      }
    }
  }

  /** What the query answers: nothing only for an empty buffer, always a resident at or beyond the
      playhead, and the least resident if and only if the cache is exact. */
  lemma LowestAnswer(r: Ring)
    requires r.WellFormed()
    ensures LowestAvailable(r).1.None? <==> r.packets == map[]
    ensures r.packets != map[] ==>
              var lo := LowestAvailable(r).1.value;
              && lo in r.packets && r.playhead <= lo
              && (IsLeast(r.packets, lo) <==> CacheExact(r))
  {
    LowestKeeps(r);
    LowestResidentIsLeast(r);
  }

  /** Fast-forwarding to the answer never rewinds the playhead, and it drops no resident packet
      if and only if the cache is exact. */
  lemma FastForwardCost(r: Ring)
    requires r.WellFormed() && r.packets != map[]
    ensures LowestAvailable(r).1.Some?
    ensures var lo := LowestAvailable(r).1.value;
            && Legal(r, FastForwardOp(lo))
            && HasNext(SkipTo(LowestAvailable(r).0, lo))
            && (SkipTo(r, lo).packets == r.packets <==> CacheExact(r))
  {
    LowestAnswer(r);
    var lo := LowestAvailable(r).1.value;
    if s :| s in r.packets && s < lo {
      assert s !in KeepFrom(r.packets, lo);
    }
  }

  /** A separating run: 5, 7 and 8 arrive, 5 is played, 9 arrives. The query now answers
      9 while 7 is resident, and fast-forwarding there would drop 7 and 8. */
  lemma MinimumIsMissed()
    ensures var before := Run(EMPTY_RING, Inserts([Numbered(5), Numbered(7), Numbered(8)]) + [PopOp]);
            var r := Insert(before, Numbered(9));
            && LowestAvailable(r).1 == Some(9) && 7 in r.packets
            && 7 !in SkipTo(r, 9).packets
            && MasksOlder(before, InsertOp(Numbered(9)))
  {
    var o1 := [InsertOp(Numbered(5))];
    var o2 := o1 + [InsertOp(Numbered(7))];
    var o3 := o2 + [InsertOp(Numbered(8))];
    assert Inserts([Numbered(5), Numbered(7), Numbered(8)]) == o3;
    assert [] + o1 == o1;
    RunSnoc(EMPTY_RING, [], InsertOp(Numbered(5)));
    RunSnoc(EMPTY_RING, o1, InsertOp(Numbered(7)));
    RunSnoc(EMPTY_RING, o2, InsertOp(Numbered(8)));
    RunSnoc(EMPTY_RING, o3, PopOp);
    var filled := Run(EMPTY_RING, o3);
    assert filled.playhead == 5 && filled.initialized;
    assert filled.packets == map[5 := Numbered(5), 7 := Numbered(7), 8 := Numbered(8)];
    var before := AdvanceOne(filled);
    assert before.playhead == 6 && 7 in before.packets && before.cachedMin == None;
    assert Insert(before, Numbered(9)) == Store(before, Numbered(9));
  }

  // ----- the repaired insert -----

  function RepairedInsert(r: Ring, p: Packet): Ring {
    var before := BeforeStore(r, p.seqNum);
    if before.Some? && before.value.cachedMin.None? && before.value.packets != map[] then
      Insert(r, p).(cachedMin := None)
    else
      Insert(r, p)
  }

  function RepairedStep(r: Ring, op: Op): (Ring, Option<Packet>) {
    if op.InsertOp? then (RepairedInsert(r, op.p), None) else Step(r, op)
  }

  function RepairedRun(r: Ring, ops: seq<Op>): Ring {
    if ops == [] then r else RepairedStep(RepairedRun(r, Front(ops)), Last(ops)).0
  }

  ghost predicate SameButCache(a: Ring, b: Ring) {
    a.initialized == b.initialized && a.playhead == b.playhead && a.packets == b.packets
  }

  /** With the repaired insert the query answers the true minimum on every run, and the repair
      changes nothing but the cache. */
  lemma {:induction false} RepairedIsExact(ops: seq<Op>)
    requires LegalRun(EMPTY_RING, ops)
    ensures var r := RepairedRun(EMPTY_RING, ops);
            && SameButCache(r, Run(EMPTY_RING, ops))
            && r.WellFormed() && CacheExact(r)
            && (r.packets == map[] ==> LowestAvailable(r).1 == None)
            && (r.packets != map[] ==> LowestAvailable(r).1.Some? && IsLeast(r.packets, LowestAvailable(r).1.value))
  {
    if ops != [] {
      RepairedIsExact(Front(ops));
      var r, w, op := RepairedRun(EMPTY_RING, Front(ops)), Run(EMPTY_RING, Front(ops)), Last(ops);
      RepairedKeeps(r, op);
      CacheIsPrivate(r, w, op);
    }
    LowestAnswer(RepairedRun(EMPTY_RING, ops));
  }

  lemma RepairedKeeps(r: Ring, op: Op)
    requires r.WellFormed() && Legal(r, op) && CacheExact(r)
    ensures RepairedStep(r, op).0.WellFormed() && CacheExact(RepairedStep(r, op).0)
  {
    StepKeeps(r, op);
    StepExactness(r, op);
  }

  lemma CacheIsPrivate(a: Ring, b: Ring, op: Op)
    requires SameButCache(a, b)
    ensures SameButCache(RepairedStep(a, op).0, Step(b, op).0)
    ensures RepairedStep(a, op).1 == Step(b, op).1
  {
  }
}
