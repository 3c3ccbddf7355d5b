/**
 The packet reorder buffer of the player: 512 slots indexed by sequence number modulo 512,
 a playhead, an occupancy counter and a lazily cached minimum.

 `Ring` is the plain value the buffer stands for: a finite map from sequence numbers to
 packets together with the playhead. The class in `JitterBuffer.dfy` works on the slot array in
 place, and each of its methods is tied to the function of the same name on `Ring`.
 */
module ReorderRing {
  import opened Wrappers

  const CAPACITY: nat := 512

  // The slot of a sequence number.
  function SlotOf(seqNum: nat): (slot: nat)
    ensures slot < CAPACITY
  {
    seqNum % 512
  }

  // `payload` stands for everything in a packet that the buffer never looks at.
  datatype Packet = Packet(seqNum: nat, payload: int)

  // A packet of which only the number matters.
  function Numbered(seqNum: nat): Packet {
    Packet(seqNum, 0)
  }

  datatype InsertResult = Accepted | Stale | StreamRestarted

  datatype Ring = Ring(
    initialized: bool,
    playhead: nat,
    packets: map<nat, Packet>,
    cachedMin: Option<nat>)
  {
    /** Residents are filed under their own number, inside the window that starts at the
        playhead, and a cached minimum is the number of some resident packet. */
    ghost predicate WellFormed() {
      && (forall s :: s in packets ==> playhead <= s < playhead + 512 && packets[s].seqNum == s)
      && (!initialized ==> packets == map[])
      && (cachedMin.Some? ==> cachedMin.value in packets)
    }
  }

  const EMPTY_RING := Ring(false, 0, map[], None)

  // ----- the operations on the plain value -----

  function KeepFrom(m: map<nat, Packet>, lo: nat): map<nat, Packet> {
    map s | s in m && lo <= s :: m[s]
  }

  function KeepBelow(m: map<nat, Packet>, hi: nat): map<nat, Packet> {
    map s | s in m && s < hi :: m[s]
  }

  function SkipTo(r: Ring, newSeq: nat): Ring {
    r.(playhead := newSeq, packets := KeepFrom(r.packets, newSeq), cachedMin := None)
  }

  function Anchored(r: Ring, seqNum: nat): Ring {
    if r.initialized then r else r.(initialized := true, playhead := seqNum)
  }

  /** The ring just before a packet is filed, after any anchoring, restart or far-ahead skip;
      `None` when the packet is behind the playhead and gets rejected. */
  function BeforeStore(r: Ring, seqNum: nat): Option<Ring> {
    var q := Anchored(r, seqNum);
    if seqNum < q.playhead then
      if q.playhead - seqNum > CAPACITY then Some(Ring(true, seqNum, map[], None)) else None
    else if seqNum >= q.playhead + CAPACITY then
      Some(SkipTo(q, SaturatingSub(seqNum, CAPACITY / 2)))
    else
      Some(q)
  }

  function Store(r: Ring, p: Packet): Ring {
    r.(packets := r.packets[p.seqNum := p],
       cachedMin := Some(if r.cachedMin.Some? then Min(r.cachedMin.value, p.seqNum) else p.seqNum))
  }

  function InsertOutcome(r: Ring, seqNum: nat): InsertResult {
    var q := Anchored(r, seqNum);
    if seqNum < q.playhead then
      if q.playhead - seqNum > CAPACITY then StreamRestarted else Stale
    else
      Accepted
  }

  function Insert(r: Ring, p: Packet): Ring {
    var before := BeforeStore(r, p.seqNum);
    if before.Some? then Store(before.value, p) else Anchored(r, p.seqNum)
  }

  predicate HasNext(r: Ring) {
    r.initialized && r.playhead in r.packets
  }

  function PopNext(r: Ring): (Ring, Option<Packet>) {
    if !r.initialized then
      (r, None)
    else if r.playhead in r.packets then
      (AdvanceOne(r), Some(r.packets[r.playhead]))
    else
      (r.(playhead := r.playhead + 1), None)
  }

  function AdvanceOne(r: Ring): Ring {
    r.(playhead := r.playhead + 1, packets := Without(r.packets, r.playhead), cachedMin := None)
  }

  // The first number from `lo` on and below `hi` that is resident.
  function LeastFrom(m: map<nat, Packet>, lo: nat, hi: nat): Option<nat>
    decreases hi - lo
  {
    if lo >= hi then None
    else if lo in m then Some(lo)
    else LeastFrom(m, lo + 1, hi)
  }

  function LowestResident(r: Ring): Option<nat> {
    LeastFrom(r.packets, r.playhead, r.playhead + CAPACITY)
  }

  function LowestAvailable(r: Ring): (Ring, Option<nat>) {
    if r.cachedMin.Some? then (r, r.cachedMin)
    else (r.(cachedMin := LowestResident(r)), LowestResident(r))
  }

  // ----- facts about the plain value -----

  ghost predicate IsLeast(m: map<nat, Packet>, k: nat) {
    k in m && forall s :: s in m ==> k <= s
  }

  lemma {:induction false} LeastFromFinds(m: map<nat, Packet>, lo: nat, hi: nat)
    ensures LeastFrom(m, lo, hi).None? <==> (forall s :: lo <= s < hi ==> s !in m)
    ensures LeastFrom(m, lo, hi).Some? ==>
              var k := LeastFrom(m, lo, hi).value;
              lo <= k < hi && k in m && forall s :: lo <= s < k ==> s !in m
    decreases hi - lo
  {
    if lo < hi && lo !in m {
      LeastFromFinds(m, lo + 1, hi);
    }
  }

  /** The scan over the window finds the least resident, whatever the residents are. */
  lemma LowestResidentIsLeast(r: Ring)
    requires r.WellFormed()
    ensures LowestResident(r).None? <==> r.packets == map[]
    ensures LowestResident(r).Some? ==> IsLeast(r.packets, LowestResident(r).value)
  {
    LeastFromFinds(r.packets, r.playhead, r.playhead + CAPACITY);
  }

  lemma LeastIsLowest(r: Ring, least: Option<nat>)
    requires r.WellFormed()
    requires least.None? ==> r.packets == map[]
    requires least.Some? ==> IsLeast(r.packets, least.value)
    ensures LowestResident(r) == least
  {
    LowestResidentIsLeast(r);
  }

  /** Raising the upper bound past one number adds exactly that number. */
  lemma BelowStep(m: map<nat, Packet>, at: nat, next: nat)
    requires next == at + 1
    ensures |KeepBelow(m, next)| == |KeepBelow(m, at)| + (if at in m then 1 else 0)
  {
    if at in m {
      assert KeepBelow(m, next).Keys == KeepBelow(m, at).Keys + {at};
    } else {
      assert KeepBelow(m, at) == KeepBelow(m, next);
    }
  }

  /** Raising the lower bound past one number removes exactly that number. */
  lemma FromStep(m: map<nat, Packet>, at: nat)
    ensures KeepFrom(m, at + 1) == Without(KeepFrom(m, at), at)
  {
  }

  /** Every resident is below a number or not. */
  lemma CutAt(m: map<nat, Packet>, at: nat)
    ensures |KeepFrom(m, at)| + |KeepBelow(m, at)| == |m|
  {
    var kept, below := KeepFrom(m, at).Keys, KeepBelow(m, at).Keys;
    assert m.Keys == kept + below && kept !! below;
    assert |m.Keys| == |kept| + |below|;
  }

  lemma WithoutOne(m: map<nat, Packet>, s: nat)
    ensures |Without(m, s)| == if s in m then |m| - 1 else |m|
    ensures s !in m ==> Without(m, s) == m
  {
    if s in m {
      assert m.Keys == Without(m, s).Keys + {s};
    } else {
      assert Without(m, s) == m;
    }
  }

  /** Two sequence numbers of one window share a slot only when they are equal. */
  lemma SlotIsUnique(playhead: nat, a: nat, b: nat)
    requires playhead <= a < playhead + CAPACITY
    requires playhead <= b < playhead + CAPACITY
    requires SlotOf(a) == SlotOf(b)
    ensures a == b
  {
  }

  // ----- every operation keeps a well-formed ring well-formed -----

  lemma StoreKeeps(r: Ring, p: Packet)
    requires r.WellFormed() && r.initialized
    requires r.playhead <= p.seqNum < r.playhead + CAPACITY
    ensures Store(r, p).WellFormed()
    ensures |Store(r, p).packets| == |r.packets| + (if p.seqNum in r.packets then 0 else 1)
  {
  }

  lemma BeforeStoreKeeps(r: Ring, seqNum: nat)
    requires r.WellFormed()
    ensures BeforeStore(r, seqNum).Some? ==>
              var q := BeforeStore(r, seqNum).value;
              q.WellFormed() && q.initialized && q.playhead <= seqNum < q.playhead + CAPACITY
  {
  }

  lemma InsertKeeps(r: Ring, p: Packet)
    requires r.WellFormed()
    ensures Insert(r, p).WellFormed() && Insert(r, p).initialized
  {
    BeforeStoreKeeps(r, p.seqNum);
    if BeforeStore(r, p.seqNum).Some? {
      StoreKeeps(BeforeStore(r, p.seqNum).value, p);
    }
  }

  /** A skip forward always leaves a well-formed ring; a rewind does if and only if every resident is
      within 512 of the new playhead. */
  lemma SkipKeeps(r: Ring, newSeq: nat)
    requires r.WellFormed()
    ensures r.playhead <= newSeq ==> SkipTo(r, newSeq).WellFormed()
    ensures newSeq < r.playhead ==>
              SkipTo(r, newSeq).packets == r.packets
              && (SkipTo(r, newSeq).WellFormed() <==> forall s :: s in r.packets ==> s < newSeq + 512)
  {
    if newSeq < r.playhead {
      assert KeepFrom(r.packets, newSeq) == r.packets;
    }
  }

  lemma PopKeeps(r: Ring)
    requires r.WellFormed()
    ensures AdvanceOne(r).WellFormed() && PopNext(r).0.WellFormed()
  {
  }

  lemma LowestKeeps(r: Ring)
    requires r.WellFormed()
    ensures LowestAvailable(r).0.WellFormed()
    ensures LowestAvailable(r).1.Some? ==> LowestAvailable(r).1.value in r.packets
    ensures LowestAvailable(r).1.None? <==> r.packets == map[]
  {
    LowestResidentIsLeast(r);
  }
}
