/**
 Which of the packets a flush removes pass through the decoder.

 The flush is documented to decode every skipped packet so that the decoder stays warm. It does
 not: after a hole the pop has already moved on, and the packet after the hole is dropped unseen.
 This module says exactly when every removed packet is decoded.
 */
module FlushDecoding {
  import opened Wrappers
  import opened ReorderRing
  import opened PlaybackStep
  import RingRuns

  // How many numbers in a row, from just below `s` down to `lo`, are not resident.
  function HolesBelow(m: map<nat, Packet>, lo: nat, s: nat): nat
    decreases s
  {
    if s <= lo || s - 1 in m then 0 else 1 + HolesBelow(m, lo, s - 1)
  }

  /** The residents a flush removes, known before the call: those with fewer residents below them
      than there are packets to remove. */
  predicate Removed(r: Ring, flushTo: nat, s: nat) {
    s in r.packets && |KeepBelow(r.packets, s)| + flushTo < |r.packets|
  }

  ghost predicate EvenHoles(r: Ring, flushTo: nat) {
    forall s :: Removed(r, flushTo, s) ==> HolesBelow(r.packets, r.playhead, s) % 2 == 0
  }

  lemma KeepBelowMonotone(m: map<nat, Packet>, a: nat, b: nat)
    requires a <= b
    ensures |KeepBelow(m, a)| <= |KeepBelow(m, b)|
    ensures a in m && a < b ==> |KeepBelow(m, a)| < |KeepBelow(m, b)|
  {
    var x, y := KeepBelow(m, a).Keys, KeepBelow(m, b).Keys;
    assert y == x + (y - x);
    assert |y| == |x| + |y - x|;
    if a in m && a < b {
      assert a in y - x;
    }
  }

  /** What the flush removes is what was said before the call. */
  lemma RemovedIsBelowPlayhead(r: Ring, flushTo: nat, s: nat)
    requires r.WellFormed() && s in r.packets && flushTo < |r.packets|
    ensures Removed(r, flushTo, s) <==> s < Flush(r, flushTo).0.playhead
  {
    FlushIsSuffix(r, flushTo);
    var at := Flush(r, flushTo).0.playhead;
    CutAt(r.packets, at);
    if s < at {
      KeepBelowMonotone(r.packets, s, at);
    } else {
      KeepBelowMonotone(r.packets, at, s);
    }
  }

  lemma {:induction false} HolesIgnoreOthers(a: map<nat, Packet>, b: map<nat, Packet>, lo: nat, s: nat)
    requires forall t :: lo <= t < s ==> (t in a <==> t in b)
    ensures HolesBelow(a, lo, s) == HolesBelow(b, lo, s)
    decreases s
  {
    if s > lo {
      HolesIgnoreOthers(a, b, lo, s - 1);
    }
  }

  // Moving the lower end of the stretch past two holes does not change the parity.
  lemma {:induction false} HolesFromLater(m: map<nat, Packet>, lo: nat, s: nat)
    requires lo + 2 <= s && lo !in m && lo + 1 !in m
    ensures HolesBelow(m, lo, s) % 2 == HolesBelow(m, lo + 2, s) % 2
    ensures HolesBelow(m, lo, s) == HolesBelow(m, lo + 2, s) || HolesBelow(m, lo, s) == HolesBelow(m, lo + 2, s) + 2
    decreases s
  {
    if s == lo + 2 {
      assert HolesBelow(m, lo, lo + 1) == 1 + HolesBelow(m, lo, lo);
    } else if s - 1 !in m {
      HolesFromLater(m, lo, s - 1);
    }
  }

  // Nor does anything below a packet that ends the run of holes above it.
  lemma {:induction false} HolesStopAt(m: map<nat, Packet>, lo: nat, k: nat, s: nat)
    requires lo <= k < s && k in m
    ensures HolesBelow(m, lo, s) == HolesBelow(m, k + 1, s)
    decreases s
  {
    if s - 1 !in m {
      HolesStopAt(m, lo, k, s - 1);
    }
  }

  // The fate of packet `s` that the flush is to decide.
  predicate Decoded(r: Ring, flushTo: nat, s: nat) {
    Removed(r, flushTo, s) && HolesBelow(r.packets, r.playhead, s) % 2 == 0
  }

  /** A pass that drops packet k, decoded or not, and goes on behind it changes the fate of no later one. */
  lemma PassOverPacket(r: Ring, q: Ring, flushTo: nat, k: nat, s: nat)
    requires r.playhead <= k < s && k in r.packets && s in r.packets
    requires q.playhead == k + 1 && q.packets == Without(r.packets, k)
    ensures Decoded(q, flushTo, s) <==> Decoded(r, flushTo, s)
  {
    HolesStopAt(r.packets, r.playhead, k, s);
    HolesIgnoreOthers(r.packets, q.packets, q.playhead, s);
    OneFewerBelow(r, q, k, s);
  }

  lemma OneFewerBelow(r: Ring, q: Ring, k: nat, s: nat)
    requires k < s && k in r.packets && q.packets == Without(r.packets, k)
    ensures |q.packets| == |r.packets| - 1 && |KeepBelow(q.packets, s)| == |KeepBelow(r.packets, s)| - 1
  {
    WithoutOne(r.packets, k);
    WithoutOne(KeepBelow(r.packets, s), k);
    assert KeepBelow(q.packets, s) == Without(KeepBelow(r.packets, s), k);
  }

  // Nor does a pass over two holes.
  lemma PassOverHoles(r: Ring, flushTo: nat, s: nat)
    requires r.WellFormed() && r.initialized && r.playhead !in r.packets && r.playhead + 1 !in r.packets
    requires s in r.packets
    ensures FlushPass(r).0 == r.(playhead := r.playhead + 2, cachedMin := None)
    ensures Decoded(FlushPass(r).0, flushTo, s) <==> Decoded(r, flushTo, s)
  {
    WithoutOne(r.packets, r.playhead + 1);
    HolesFromLater(r.packets, r.playhead, s);
  }

  /** What the flush decodes are residents, in sequence order, from the playhead on. */
  ghost predicate FromRing(ps: seq<Packet>, r: Ring) {
    && (forall i, j :: 0 <= i < j < |ps| ==> ps[i].seqNum < ps[j].seqNum)
    && (forall p :: p in ps ==> r.playhead <= p.seqNum && p.seqNum in r.packets && r.packets[p.seqNum] == p)
  }

  lemma {:induction false} DecodesResidents(r: Ring, flushTo: nat)
    requires r.WellFormed()
    ensures FromRing(Flush(r, flushTo).1, r)
    decreases |r.packets|, HoleAhead(r)
  {
    if flushTo < |r.packets| {
      FlushPassProgress(r);
      FlushUnfolds(r, flushTo);
      DecodesResidents(FlushPass(r).0, flushTo);
      PassFirst(r, Flush(FlushPass(r).0, flushTo).1);
    }
  }

  lemma PassFirst(r: Ring, later: seq<Packet>)
    requires r.WellFormed() && r.packets != map[] && FromRing(later, FlushPass(r).0)
    ensures FromRing(FlushPass(r).1 + later, r)
  {
    FlushPassIsSuffix(r);
  }

  lemma FirstIsDecoded(r: Ring, flushTo: nat)
    requires r.WellFormed() && flushTo < |r.packets| && HasNext(r)
    ensures Decoded(r, flushTo, r.playhead)
  {
    assert KeepBelow(r.packets, r.playhead) == map[];
    assert HolesBelow(r.packets, r.playhead, r.playhead) == 0;
  }

  lemma SecondIsNot(r: Ring, flushTo: nat)
    requires r.WellFormed() && r.playhead !in r.packets && r.playhead + 1 in r.packets
    ensures !Decoded(r, flushTo, r.playhead + 1)
  {
    assert HolesBelow(r.packets, r.playhead, r.playhead) == 0;
    assert HolesBelow(r.packets, r.playhead, r.playhead + 1) == 1;
  }

  // One pass decides the packet it drops, if any, and leaves the fate of every other one open.
  lemma PassDecides(r: Ring, flushTo: nat, s: nat)
    requires r.WellFormed() && flushTo < |r.packets| && s in r.packets
    ensures var (q, ps) := FlushPass(r);
            if s in q.packets then r.packets[s] !in ps && (Decoded(q, flushTo, s) <==> Decoded(r, flushTo, s))
            else r.packets[s] in ps <==> Decoded(r, flushTo, s)
  {
    var (q, ps) := FlushPass(r);
    if HasNext(r) {
      FirstIsDecoded(r, flushTo);
      if s != r.playhead {
        PassOverPacket(r, q, flushTo, r.playhead, s);
      }
    } else if r.playhead + 1 in r.packets {
      SecondIsNot(r, flushTo);
      if s != r.playhead + 1 {
        PassOverPacket(r, q, flushTo, r.playhead + 1, s);
      }
    } else {
      PassOverHoles(r, flushTo, s);
    }
  }

  /** A flush decodes a resident packet if and only if it removes it and the run of holes just below it,
      down to the packet before or to the playhead, is of even length. Both are known before the call. */
  lemma {:induction false} FlushDecodesExactly(r: Ring, flushTo: nat, s: nat)
    requires r.WellFormed() && s in r.packets
    ensures r.packets[s] in Flush(r, flushTo).1 <==> Decoded(r, flushTo, s)
    decreases |r.packets|, HoleAhead(r)
  {
    if flushTo < |r.packets| {
      FlushPassProgress(r);
      FlushUnfolds(r, flushTo);
      PassDecides(r, flushTo, s);
      var q := FlushPass(r).0;
      DecodesResidents(q, flushTo);
      if s in q.packets {
        FlushDecodesExactly(q, flushTo, s);
      }
    }
  }

  // ----- when everything is decoded -----

  function NumbersOf(ps: seq<Packet>): set<nat> {
    set p | p in ps :: p.seqNum
  }

  lemma {:induction false} NumbersCount(ps: seq<Packet>)
    requires forall i, j :: 0 <= i < j < |ps| ==> ps[i].seqNum < ps[j].seqNum
    ensures |NumbersOf(ps)| == |ps|
  {
    if ps != [] {
      var front, last := ps[..|ps| - 1], ps[|ps| - 1];
      NumbersCount(front);
      assert NumbersOf(ps) == NumbersOf(front) + {last.seqNum};
      assert last.seqNum !in NumbersOf(front);
    }
  }

  // The packets a flush removes, as many as it is to remove.
  lemma RemovedNumbers(r: Ring, flushTo: nat) returns (removed: set<nat>)
    requires r.WellFormed() && flushTo < |r.packets|
    ensures |removed| == |r.packets| - flushTo
    ensures forall s :: s in removed <==> Removed(r, flushTo, s)
  {
    FlushIsSuffix(r, flushTo);
    var at := Flush(r, flushTo).0.playhead;
    CutAt(r.packets, at);
    removed := KeepBelow(r.packets, at).Keys;
    forall s
      ensures s in removed <==> Removed(r, flushTo, s)
    {
      if s in r.packets {
        RemovedIsBelowPlayhead(r, flushTo, s);
      }
    }
  }

  /** So it decodes as many packets as it removes if and only if each of them is preceded by an even
      number of holes. */
  lemma FlushDecodesAll(r: Ring, flushTo: nat)
    requires r.WellFormed() && flushTo < |r.packets|
    ensures |Flush(r, flushTo).1| == |r.packets| - flushTo <==> EvenHoles(r, flushTo)
  {
    var removed := RemovedNumbers(r, flushTo);
    var decoded := NumbersOf(Flush(r, flushTo).1);
    DecodesResidents(r, flushTo);
    NumbersCount(Flush(r, flushTo).1);
    forall s
      ensures s in decoded <==> s in r.packets && Decoded(r, flushTo, s)
    {
      if s in r.packets {
        FlushDecodesExactly(r, flushTo, s);
      }
    }
    assert decoded <= removed;
    if |decoded| == |removed| {
      RingRuns.EqualSizeSubset(decoded, removed);
    }
    if EvenHoles(r, flushTo) {
      assert decoded == removed;
    }
  }

  // 4, 6 and 7 arrive and 4 is played: the playhead is at the hole 5.
  lemma HoleAtThePlayhead()
    ensures RingRuns.Run(EMPTY_RING, RingRuns.Inserts([Numbered(4), Numbered(6), Numbered(7)]) + [RingRuns.PopOp])
            == Ring(true, 5, map[6 := Numbered(6), 7 := Numbered(7)], None)
  {
    var o1 := [RingRuns.InsertOp(Numbered(4))];
    var o2 := o1 + [RingRuns.InsertOp(Numbered(6))];
    var o3 := o2 + [RingRuns.InsertOp(Numbered(7))];
    assert RingRuns.Inserts([Numbered(4), Numbered(6), Numbered(7)]) == o3;
    assert [] + o1 == o1;
    RingRuns.RunSnoc(EMPTY_RING, [], RingRuns.InsertOp(Numbered(4)));
    RingRuns.RunSnoc(EMPTY_RING, o1, RingRuns.InsertOp(Numbered(6)));
    RingRuns.RunSnoc(EMPTY_RING, o2, RingRuns.InsertOp(Numbered(7)));
    RingRuns.RunSnoc(EMPTY_RING, o3, RingRuns.PopOp);
    var filled := RingRuns.Run(EMPTY_RING, o3);
    assert filled.packets == map[4 := Numbered(4), 6 := Numbered(6), 7 := Numbered(7)];
    assert AdvanceOne(filled).packets == map[6 := Numbered(6), 7 := Numbered(7)];
  }

  /** Such a flush: 4, 6 and 7 arrived, 4 was played, and one packet is to be left. Packet 6 is
      removed and nothing is decoded. */
  lemma FlushSkipsTheDecoder()
    ensures var arrivals := RingRuns.Inserts([Numbered(4), Numbered(6), Numbered(7)]);
            var r := RingRuns.Run(EMPTY_RING, arrivals + [RingRuns.PopOp]);
            r.WellFormed() && Flush(r, 1).0.packets == map[7 := Numbered(7)] && Flush(r, 1).1 == []
  {
    HoleAtThePlayhead();
    var r := Ring(true, 5, map[6 := Numbered(6), 7 := Numbered(7)], None);
    var q := FlushPass(r).0;
    assert q.packets == map[7 := Numbered(7)];
    assert |r.packets| == 2 by {
      assert r.packets.Keys == {6, 7};
    }
    assert q.packets.Keys == {7};
    assert Flush(q, 1) == (q, []);
  }
}
