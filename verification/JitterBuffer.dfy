/**
 The reorder buffer as the player keeps it: a slot array updated in place. Each method is tied
 to the operation of the same name on the plain value `Ring`.
 */
module SlotBuffer {
  import opened Wrappers
  import opened ReorderRing

  // ----- slots and residents -----

  /** Every number of the window is resident exactly when its slot is filled, and then the slot
      holds that packet. */
  ghost predicate SlotsHold(slots: seq<Option<Packet>>, packets: map<nat, Packet>, playhead: nat)
    requires |slots| == CAPACITY
  {
    forall s :: playhead <= s < playhead + CAPACITY ==>
                  slots[SlotOf(s)] == if s in packets then Some(packets[s]) else None
  }

  lemma FilingKeeps(slots: seq<Option<Packet>>, packets: map<nat, Packet>, playhead: nat, s: nat, p: Packet)
    requires |slots| == CAPACITY && SlotsHold(slots, packets, playhead)
    requires playhead <= s < playhead + CAPACITY
    ensures SlotsHold(slots[SlotOf(s) := Some(p)], packets[s := p], playhead)
    ensures SlotsHold(slots[SlotOf(s) := None], Without(packets, s), playhead)
  {
    forall t | playhead <= t < playhead + CAPACITY && SlotOf(t) == SlotOf(s)
      ensures s == t
    {
      SlotIsUnique(playhead, s, t);
    }
  }

  lemma SlotHasNumber(playhead: nat, slot: nat)
    requires slot < CAPACITY
    ensures exists s :: playhead <= s < playhead + CAPACITY && SlotOf(s) == slot
  {
    var s := playhead + (slot + 512 - playhead % 512) % 512;
    assert SlotOf(s) == slot;
  }

  /** With nothing resident every slot is empty, so the window may start anywhere. */
  lemma EmptyAnywhere(slots: seq<Option<Packet>>, playhead: nat, to: nat)
    requires |slots| == CAPACITY && SlotsHold(slots, map[], playhead)
    ensures SlotsHold(slots, map[], to)
  {
    forall s | to <= s < to + CAPACITY
      ensures slots[SlotOf(s)] == None
    {
      SlotHasNumber(playhead, SlotOf(s));
    }
  }

  // How many of the first `n` slots of the window are filled.
  ghost function FilledBelow(slots: seq<Option<Packet>>, playhead: nat, n: nat): nat
    requires |slots| == CAPACITY
  {
    if n == 0 then 0
    else
      var slot := slots[SlotOf(playhead + n - 1)];
      FilledBelow(slots, playhead, n - 1) + if slot.Some? && slot.value.seqNum >= playhead then 1 else 0
  }

  lemma SlotReads(slots: seq<Option<Packet>>, packets: map<nat, Packet>, playhead: nat, s: nat)
    requires |slots| == CAPACITY && SlotsHold(slots, packets, playhead)
    requires playhead <= s < playhead + CAPACITY
    requires s in packets ==> packets[s].seqNum == s
    ensures (slots[SlotOf(s)].Some? && slots[SlotOf(s)].value.seqNum >= playhead) <==> s in packets
  {
  }

  // How many of the `n` numbers from `lo` on are resident.
  ghost function ResidentsIn(packets: map<nat, Packet>, lo: nat, n: nat): nat {
    if n == 0 then 0 else ResidentsIn(packets, lo, n - 1) + if lo + n - 1 in packets then 1 else 0
  }

  lemma {:induction false} ResidentsCounted(packets: map<nat, Packet>, lo: nat, n: nat)
    requires forall s :: s in packets ==> lo <= s
    ensures ResidentsIn(packets, lo, n) == |KeepBelow(packets, lo + n)|
  {
    if n == 0 {
      NoneBelow(packets, lo);
    } else {
      ResidentsCounted(packets, lo, n - 1);
      BelowStep(packets, lo + n - 1, lo + n);
    }
  }

  lemma NoneBelow(packets: map<nat, Packet>, lo: nat)
    requires forall s :: s in packets ==> lo <= s
    ensures |KeepBelow(packets, lo)| == 0
  {
    assert KeepBelow(packets, lo) == map[];
  }

  lemma {:induction false} FilledCounted(slots: seq<Option<Packet>>, packets: map<nat, Packet>, playhead: nat, n: nat)
    requires |slots| == CAPACITY && SlotsHold(slots, packets, playhead) && n <= CAPACITY
    requires forall s :: s in packets ==> packets[s].seqNum == s
    ensures FilledBelow(slots, playhead, n) == ResidentsIn(packets, playhead, n)
  {
    if n > 0 {
      FilledCounted(slots, packets, playhead, n - 1);
      SlotReads(slots, packets, playhead, playhead + n - 1);
    }
  }

  /** The filled slots of the window are as many as the residents. */
  lemma FilledIsResident(slots: seq<Option<Packet>>, packets: map<nat, Packet>, playhead: nat, n: nat)
    requires |slots| == CAPACITY && SlotsHold(slots, packets, playhead) && n <= CAPACITY
    requires forall s :: s in packets ==> playhead <= s < playhead + CAPACITY && packets[s].seqNum == s
    ensures FilledBelow(slots, playhead, n) == |KeepBelow(packets, playhead + n)|
  {
    FilledCounted(slots, packets, playhead, n);
    ResidentsCounted(packets, playhead, n);
  }

  /** The window may slide past numbers that are not resident. */
  lemma SlidingKeeps(slots: seq<Option<Packet>>, packets: map<nat, Packet>, playhead: nat, to: nat)
    requires |slots| == CAPACITY && SlotsHold(slots, packets, playhead)
    requires playhead <= to <= playhead + CAPACITY
    requires forall s :: s in packets ==> to <= s < playhead + CAPACITY
    ensures SlotsHold(slots, packets, to)
  {
    forall s | playhead + CAPACITY <= s < to + CAPACITY
      ensures slots[SlotOf(s)] == None
    {
      SlotWraps(s);
    }
  }

  lemma SlotWraps(s: nat)
    requires s >= CAPACITY
    ensures SlotOf(s) == SlotOf(s - CAPACITY)
  {
  }

  /** The window may move back as long as no resident falls out of it at the far end. */
  lemma RewindingKeeps(slots: seq<Option<Packet>>, packets: map<nat, Packet>, playhead: nat, to: nat)
    requires |slots| == CAPACITY && SlotsHold(slots, packets, playhead)
    requires to <= playhead
    requires forall s :: s in packets ==> playhead <= s < to + CAPACITY
    ensures SlotsHold(slots, packets, to)
  {
    forall s | to <= s < playhead && s < to + CAPACITY
      ensures slots[SlotOf(s)] == None
    {
      SlotHasNumber(playhead, SlotOf(s));
      var t :| playhead <= t < playhead + CAPACITY && SlotOf(t) == SlotOf(s);
      if t < to + CAPACITY {
        SlotIsUnique(to, s, t);
      }
    }
  }

  class JitterBuffer {
    const slots: array<Option<Packet>>
    var nextPlaySeq: nat
    var initialized: bool
    var occupied: nat
    var cachedMinSeq: Option<nat>
    // The residents, keyed by sequence number.
    ghost var packets: map<nat, Packet>

    ghost function State(): Ring
      reads this
    {
      Ring(initialized, nextPlaySeq, packets, cachedMinSeq)
    }

    ghost predicate Valid()
      reads this, slots
    {
      && slots.Length == CAPACITY
      && State().WellFormed()
      && SlotsHold(slots[..], packets, nextPlaySeq)
      && occupied == |packets|
    }

    constructor ()
      ensures Valid() && fresh(slots)
      ensures State() == EMPTY_RING
    {
      slots := new Option<Packet>[CAPACITY](_ => None);
      nextPlaySeq, initialized, occupied := 0, false, 0;
      cachedMinSeq, packets := None, map[];
    }

    method Insert(p: Packet) returns (result: InsertResult)
      requires Valid()
      modifies this, slots
      ensures Valid()
      ensures State() == ReorderRing.Insert(old(State()), p)
      ensures result == InsertOutcome(old(State()), p.seqNum)
    {
      if !initialized {
        EmptyAnywhere(slots[..], nextPlaySeq, p.seqNum);
        nextPlaySeq := p.seqNum;
        initialized := true;
      }
      var restarted := false;
      if p.seqNum < nextPlaySeq {
        if SaturatingSub(nextPlaySeq, p.seqNum) > CAPACITY {
          Reset();
          EmptyAnywhere(slots[..], nextPlaySeq, p.seqNum);
          nextPlaySeq := p.seqNum;
          initialized := true;
          restarted := true;
        } else {
          return Stale;
        }
      }
      if p.seqNum >= nextPlaySeq + CAPACITY {
        SkipTo(SaturatingSub(p.seqNum, CAPACITY / 2));
      }
      assert BeforeStore(old(State()), p.seqNum) == Some(State());

      File(p);
      return if restarted then StreamRestarted else Accepted;
    }

    // Put a packet of the current window into its slot.
    method File(p: Packet)
      requires Valid() && initialized
      requires nextPlaySeq <= p.seqNum < nextPlaySeq + CAPACITY
      modifies this, slots
      ensures Valid()
      ensures State() == Store(old(State()), p)
    {
      FilingKeeps(slots[..], packets, nextPlaySeq, p.seqNum, p);
      StoreKeeps(State(), p);
      var index := SlotOf(p.seqNum);
      assert slots[..][index] == slots[index];
      if slots[index].None? {
        occupied := occupied + 1;
      }
      slots[index] := Some(p);
      assert slots[..] == old(slots[..])[index := Some(p)];
      packets := packets[p.seqNum := p];
      cachedMinSeq := Some(if cachedMinSeq.Some? then Min(cachedMinSeq.value, p.seqNum) else p.seqNum);
    }

    /** Take the packet at the playhead, if it is there, and move on by one. No branch is needed for a
        packet with another number in that slot: `SlotsHold` excludes it. */
    method PopNext() returns (result: Option<Packet>)
      requires Valid()
      modifies this, slots
      ensures Valid()
      ensures (State(), result) == ReorderRing.PopNext(old(State()))
    {
      if !initialized {
        return None;
      }
      var packet := slots[SlotOf(nextPlaySeq)];
      assert slots[..][SlotOf(nextPlaySeq)] == packet;
      if packet.Some? {
        assert packet.value.seqNum == nextPlaySeq;
        DropNext();
      }
      StepPast();
      return packet;
    }

    method AdvanceOne()
      requires Valid()
      modifies this, slots
      ensures Valid()
      ensures State() == ReorderRing.AdvanceOne(old(State()))
    {
      var packet := slots[SlotOf(nextPlaySeq)];
      assert slots[..][SlotOf(nextPlaySeq)] == packet;
      if packet.Some? && packet.value.seqNum == nextPlaySeq {
        DropNext();
      } else {
        WithoutOne(packets, nextPlaySeq);
        cachedMinSeq := None;
      }
      StepPast();
    }

    // Take the packet at the playhead out.
    method DropNext()
      requires Valid()
      modifies `packets, `occupied, `cachedMinSeq, slots
      ensures Valid()
      ensures packets == Without(old(packets), nextPlaySeq) && cachedMinSeq == None
    {
      Vacate(nextPlaySeq);
      cachedMinSeq := None;
    }

    // Move the playhead over a number that is not resident.
    method StepPast()
      requires Valid() && nextPlaySeq !in packets
      modifies `nextPlaySeq
      ensures Valid()
      ensures nextPlaySeq == old(nextPlaySeq) + 1
    {
      SlidingKeeps(slots[..], packets, nextPlaySeq, nextPlaySeq + 1);
      nextPlaySeq := nextPlaySeq + 1;
    }

    // Empty the slot of a number of the window, and count a resident out.
    method Vacate(s: nat)
      requires slots.Length == CAPACITY && SlotsHold(slots[..], packets, nextPlaySeq) && occupied == |packets|
      requires nextPlaySeq <= s < nextPlaySeq + CAPACITY
      modifies `packets, `occupied, slots
      ensures SlotsHold(slots[..], packets, nextPlaySeq) && occupied == |packets|
      ensures packets == Without(old(packets), s)
    {
      var index := SlotOf(s);
      WithoutOne(packets, s);
      FilingKeeps(slots[..], packets, nextPlaySeq, s, Packet(0, 0));
      assert slots[..][index] == slots[index];
      if slots[index].Some? {
        slots[index] := None;
        occupied := SaturatingSub(occupied, 1);
      }
      assert slots[..] == old(slots[..])[index := None];
      packets := Without(packets, s);
    }

    method OccupiedCount() returns (count: nat)
      requires Valid()
      ensures count == |packets|
    {
      return if initialized then occupied else 0;
    }

    method HasNext() returns (has: bool)
      requires Valid()
      ensures has == ReorderRing.HasNext(State())
    {
      if !initialized {
        return false;
      }
      var index := SlotOf(nextPlaySeq);
      return slots[index].Some? && slots[index].value.seqNum == nextPlaySeq;
    }

    /** The full scan of the window; it always agrees with the O(1) counter. */
    method ContiguousDepth() returns (count: nat)
      requires Valid()
      ensures count == occupied == |packets|
    {
      if !initialized {
        return 0;
      }
      count := 0;
      for i := 0 to CAPACITY
        invariant count == FilledBelow(slots[..], nextPlaySeq, i)
      {
        var slot := slots[SlotOf(nextPlaySeq + i)];
        assert slots[..][SlotOf(nextPlaySeq + i)] == slot;
        if slot.Some? && slot.value.seqNum >= nextPlaySeq {
          count := count + 1;
        }
      }
      FilledIsResident(slots[..], packets, nextPlaySeq, CAPACITY);
      assert KeepBelow(packets, nextPlaySeq + CAPACITY) == packets;
    }

    /** A skip to a number behind the playhead clears nothing and moves the playhead back, which spoils
        the buffer if and only if a resident then lies beyond its window. */
    method SkipTo(newSeq: nat)
      requires Valid()
      modifies this, slots
      ensures State() == ReorderRing.SkipTo(old(State()), newSeq)
      ensures Valid() <==> State().WellFormed()
      ensures old(nextPlaySeq) <= newSeq ==> Valid()
    {
      SkipKeeps(State(), newSeq);
      var distance := SaturatingSub(newSeq, nextPlaySeq);
      if distance >= CAPACITY {
        ClearSlots();
        occupied := 0;
        packets := map[];
      } else {
        ClearRange(newSeq);
        Slide(newSeq);
      }
      assert packets == KeepFrom(old(packets), newSeq);
      nextPlaySeq := newSeq;
      cachedMinSeq := None;
    }

    // Moving the window after its low end was cleared.
    lemma Slide(newSeq: nat)
      requires slots.Length == CAPACITY && SlotsHold(slots[..], packets, nextPlaySeq)
      requires newSeq < nextPlaySeq + CAPACITY
      requires forall s :: s in packets ==> nextPlaySeq <= s < nextPlaySeq + CAPACITY && newSeq <= s
      ensures nextPlaySeq <= newSeq || (forall s :: s in packets ==> s < newSeq + CAPACITY)
              ==> SlotsHold(slots[..], packets, newSeq)
    {
      if nextPlaySeq <= newSeq {
        SlidingKeeps(slots[..], packets, nextPlaySeq, newSeq);
      } else if forall s :: s in packets ==> s < newSeq + CAPACITY {
        RewindingKeeps(slots[..], packets, nextPlaySeq, newSeq);
      }
    }

    // Empty the slots of the window below `newSeq`, one by one.
    method ClearRange(newSeq: nat)
      requires Valid()
      requires newSeq < nextPlaySeq + CAPACITY
      modifies `packets, `occupied, slots
      ensures SlotsHold(slots[..], packets, nextPlaySeq)
      ensures packets == KeepFrom(old(packets), newSeq)
      ensures occupied == |packets|
    {
      var clearEnd := Min(newSeq, nextPlaySeq + CAPACITY);
      assert packets == KeepFrom(packets, nextPlaySeq);
      if clearEnd <= nextPlaySeq {
        assert packets == KeepFrom(packets, newSeq);
        return;
      }
      for s := nextPlaySeq to clearEnd
        invariant SlotsHold(slots[..], packets, nextPlaySeq)
        invariant occupied == |packets|
        invariant packets == KeepFrom(old(packets), s)
      {
        FromStep(old(packets), s);
        Vacate(s);
      }
    }

    method ClearSlots()
      modifies slots
      ensures forall i :: 0 <= i < slots.Length ==> slots[i] == None
    {
      for i := 0 to slots.Length
        invariant forall j :: 0 <= j < i ==> slots[j] == None
      {
        slots[i] := None;
      }
    }

    method Reset()
      requires slots.Length == CAPACITY
      modifies this, slots
      ensures Valid()
      ensures State() == EMPTY_RING
    {
      ClearSlots();
      nextPlaySeq, initialized, occupied := 0, false, 0;
      cachedMinSeq, packets := None, map[];
    }

    method LowestAvailableSeq() returns (result: Option<nat>)
      requires Valid()
      modifies `cachedMinSeq
      ensures Valid()
      ensures (State(), result) == LowestAvailable(old(State()))
    {
      if cachedMinSeq.Some? {
        return cachedMinSeq;
      }
      result := ScanMinimum();
      LeastIsLowest(State(), result);
      cachedMinSeq := result;
    }

    // The full scan of the slots.
    method ScanMinimum() returns (minSeq: Option<nat>)
      requires Valid()
      ensures minSeq.None? ==> packets == map[]
      ensures minSeq.Some? ==> IsLeast(packets, minSeq.value)
    {
      minSeq := None;
      for i := 0 to CAPACITY
        invariant minSeq.None? ==> forall j :: 0 <= j < i ==> slots[j] == None
        invariant minSeq.Some? ==> minSeq.value in packets
        invariant minSeq.Some? ==> forall j :: 0 <= j < i && slots[j].Some? ==> minSeq.value <= slots[j].value.seqNum
      {
        SlotHasNumber(nextPlaySeq, i);
        assert slots[..][i] == slots[i];
        if slots[i].Some? {
          minSeq := Some(if minSeq.None? then slots[i].value.seqNum else Min(minSeq.value, slots[i].value.seqNum));
        }
      }
      forall s | s in packets
        ensures minSeq.Some? && minSeq.value <= s
      {
        assert slots[..][SlotOf(s)] == slots[SlotOf(s)];
      }
    }

    method FastForward(nextSeq: nat)
      requires Valid()
      modifies this, slots
      ensures State() == ReorderRing.SkipTo(old(State()), nextSeq)
      ensures Valid() <==> State().WellFormed()
      ensures old(nextPlaySeq) <= nextSeq ==> Valid()
    {
      SkipTo(nextSeq);
    }
  }
}
