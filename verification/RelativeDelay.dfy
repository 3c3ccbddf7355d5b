/**
 Relative arrival delay: a running sum, floored at zero, over the signed lateness of the last
 100 packets.
 */
module RelativeDelay {
  import opened Wrappers

  const HISTORY: nat := 100
  const MILLIS_PER_FRAME: nat := 10
  const NANOS_PER_MILLI: nat := 1000000
  // A jump of this many sequence numbers is a stream resume, not jitter.
  const RESUME_JUMP: nat := 1000
  // What truncation to whole milliseconds can take from one excess, in frames: 999,999 ns.
  const LOSS: real := 0.0999999

  function Push(history: seq<real>, excess: real): seq<real> {
    var longer := history + [excess];
    if |longer| > HISTORY then longer[1..] else longer
  }

  /** The running sum floored at zero, as the loop over the history computes it. */
  function Running(history: seq<real>): real {
    if history == [] then 0.0
    else MaxReal(Running(history[..|history| - 1]) + history[|history| - 1], 0.0)
  }

  function Sum(s: seq<real>): real {
    if s == [] then 0.0 else Sum(s[..|s| - 1]) + s[|s| - 1]
  }

  /** The floored running sum is the greatest suffix sum, the empty suffix included. */
  lemma {:induction false} RunningIsGreatestSuffix(history: seq<real>) returns (i: nat)
    ensures i <= |history| && Running(history) == Sum(history[i..])
    ensures forall j :: 0 <= j <= |history| ==> Sum(history[j..]) <= Running(history)
  {
    var n := |history|;
    if n == 0 {
      i := 0;
    } else {
      var front := history[..n - 1];
      var k := RunningIsGreatestSuffix(front);
      forall j | 0 <= j < n
        ensures Sum(history[j..]) == Sum(front[j..]) + history[n - 1]
      {
        assert history[j..][..n - 1 - j] == front[j..];
      }
      assert history[n..] == [];
      i := if Running(front) + history[n - 1] >= 0.0 then k else n;
    }
  }

  // ----- what it means for a stretch of arrivals -----

  // A packet's sequence number and the nanosecond it arrived.
  datatype Arrival = Arrival(seqNum: nat, at: nat)

  // Frames of silence before a packet, in whole milliseconds over ten.
  function Silence(lastAt: nat, at: nat): real
    requires lastAt <= at
  {
    ((at - lastAt) / NANOS_PER_MILLI) as real / MILLIS_PER_FRAME as real
  }

  function Excess(before: Arrival, p: Arrival): real
    requires before.at <= p.at
  {
    Silence(before.at, p.at) - (p.seqNum - before.seqNum) as real
  }

  // Numbers may repeat, come out of order or jump.
  ghost predicate TimeOrdered(ps: seq<Arrival>) {
    forall j :: 0 < j < |ps| ==> ps[j - 1].at <= ps[j].at
  }

  /** Packet j is ahead of the one before it, by less than a resume jump; only such are measured. */
  predicate Forward(ps: seq<Arrival>, j: nat) {
    0 < j < |ps| && ps[j - 1].seqNum < ps[j].seqNum < ps[j - 1].seqNum + 1000
  }

  ghost predicate InOrder(ps: seq<Arrival>) {
    forall j :: 0 < j < |ps| ==> Forward(ps, j)
  }

  ghost predicate NoResume(ps: seq<Arrival>) {
    forall j :: 0 < j < |ps| ==> ps[j].seqNum < ps[j - 1].seqNum + 1000
  }

  ghost predicate OnMillis(ps: seq<Arrival>) {
    forall j :: 0 <= j < |ps| ==> ps[j].at % NANOS_PER_MILLI == 0
  }

  // When a packet came, in frames after its place in the schedule.
  function Offset(p: Arrival): real {
    p.at as real / 10000000.0 - p.seqNum as real
  }

  // How much later than scheduled packet j came, measured against packet i, in frames.
  function Lateness(ps: seq<Arrival>, i: nat, j: nat): real
    requires i <= j < |ps|
  {
    Offset(ps[j]) - Offset(ps[i])
  }

  // How many packets of a stretch are measured.
  function Forwards(ps: seq<Arrival>): nat {
    if ps == [] then 0
    else Forwards(ps[..|ps| - 1]) + if Forward(ps, |ps| - 1) then 1 else 0
  }

  // How much lateness the packets after packet i add, not counting those that are not measured.
  function MeasuredLateness(ps: seq<Arrival>, i: nat): real
    requires i < |ps|
  {
    if i == |ps| - 1 then 0.0
    else
      MeasuredLateness(ps[..|ps| - 1], i)
      + if Forward(ps, |ps| - 1) then Lateness(ps, |ps| - 2, |ps| - 1) else 0.0
  }

  // The measured lateness after packet i, less what truncation can take from it.
  function LeastLateness(ps: seq<Arrival>, i: nat): real
    requires i < |ps|
  {
    MeasuredLateness(ps, i) - (Forwards(ps) - Forwards(ps[..i + 1])) as real * LOSS
  }

  ghost function HistoryAfter(history: seq<real>, ps: seq<Arrival>): seq<real>
    requires TimeOrdered(ps)
  {
    if ps == [] then history
    else
      var earlier := HistoryAfter(history, ps[..|ps| - 1]);
      if Forward(ps, |ps| - 1) then Push(earlier, Excess(ps[|ps| - 2], ps[|ps| - 1])) else earlier
  }

  ghost function Excesses(ps: seq<Arrival>): (es: seq<real>)
    requires TimeOrdered(ps)
    ensures |es| == Forwards(ps)
  {
    if ps == [] then []
    else
      Excesses(ps[..|ps| - 1])
      + if Forward(ps, |ps| - 1) then [Excess(ps[|ps| - 2], ps[|ps| - 1])] else []
  }

  /** Truncation only ever makes a packet look earlier, by less than a tenth of a frame. */
  lemma Truncation(a: nat, b: nat)
    requires a <= b
    ensures (b as real - a as real) / 10000000.0 - LOSS <= Silence(a, b) <= (b as real - a as real) / 10000000.0
    ensures a % NANOS_PER_MILLI == 0 && b % NANOS_PER_MILLI == 0 ==>
              Silence(a, b) == (b as real - a as real) / 10000000.0
  {
    var q, r := (b - a) / NANOS_PER_MILLI, (b - a) % NANOS_PER_MILLI;
    assert b as real - a as real == (b - a) as real;
    InReals(b - a, q, r);
    if a % NANOS_PER_MILLI == 0 && b % NANOS_PER_MILLI == 0 {
      WholeDifference(a, b);
    }
  }

  lemma InReals(n: nat, q: nat, r: nat)
    requires n == q * 1000000 + r && r <= 999999
    ensures n as real / 10000000.0 - LOSS <= q as real / 10.0 <= n as real / 10000000.0
    ensures r == 0 ==> q as real / 10.0 == n as real / 10000000.0
  {
    assert n as real == q as real * 1000000.0 + r as real;
  }

  lemma WholeDifference(a: nat, b: nat)
    requires a <= b && a % NANOS_PER_MILLI == 0 && b % NANOS_PER_MILLI == 0
    ensures (b - a) % NANOS_PER_MILLI == 0
  {
    var p, q := a / NANOS_PER_MILLI, b / NANOS_PER_MILLI;
    assert b - a == (q - p) * 1000000;
  }

  // ----- the window over the excesses -----

  // The last `n` elements, or all when there are fewer.
  function Suffix<T>(s: seq<T>, n: nat): seq<T> {
    if |s| <= n then s else s[|s| - n..]
  }

  lemma PushOntoWindow(s: seq<real>, e: real)
    ensures Push(Suffix(s, HISTORY), e) == Suffix(s + [e], HISTORY)
  {
  }

  lemma {:induction false} HistoryIsWindow(history: seq<real>, ps: seq<Arrival>)
    requires TimeOrdered(ps) && |history| <= HISTORY
    ensures HistoryAfter(history, ps) == Suffix(history + Excesses(ps), HISTORY)
  {
    if ps == [] {
      assert history + [] == history;
    } else {
      var front := ps[..|ps| - 1];
      HistoryIsWindow(history, front);
      if Forward(ps, |ps| - 1) {
        var e := Excess(ps[|ps| - 2], ps[|ps| - 1]);
        assert history + Excesses(ps) == (history + Excesses(front)) + [e];
        PushOntoWindow(history + Excesses(front), e);
      }
    }
  }

  lemma WindowOfStretch(history: seq<real>, ps: seq<Arrival>)
    requires TimeOrdered(ps) && |history| <= HISTORY
    requires history == [] || Forwards(ps) >= HISTORY
    ensures HistoryAfter(history, ps) == Suffix(Excesses(ps), HISTORY)
  {
    HistoryIsWindow(history, ps);
    if history == [] {
      assert history + Excesses(ps) == Excesses(ps);
    }
  }

  // ----- sums of excesses are lateness -----

  // The sum of the excesses after packet i.
  ghost function SumAfter(ps: seq<Arrival>, i: nat): real
    requires TimeOrdered(ps) && i < |ps| && Forwards(ps[..i + 1]) <= Forwards(ps)
  {
    Sum(Excesses(ps)[Forwards(ps[..i + 1])..])
  }

  lemma {:induction false} ForwardsGrow(ps: seq<Arrival>, i: nat)
    requires i <= |ps|
    ensures Forwards(ps[..i]) <= Forwards(ps)
  {
    if i == |ps| {
      assert ps[..i] == ps;
    } else {
      ForwardsGrow(ps[..|ps| - 1], i);
      assert ps[..|ps| - 1][..i] == ps[..i];
    }
  }

  // The last packet adds its own excess to every sum, if it is measured.
  lemma SumAfterStep(ps: seq<Arrival>, i: nat)
    requires TimeOrdered(ps) && i < |ps| - 1
    requires Forwards(ps[..i + 1]) <= Forwards(ps[..|ps| - 1])
    ensures ps[..|ps| - 1][..i + 1] == ps[..i + 1]
    ensures SumAfter(ps, i) == SumAfter(ps[..|ps| - 1], i)
                               + if Forward(ps, |ps| - 1) then Excess(ps[|ps| - 2], ps[|ps| - 1]) else 0.0
  {
    var front, k := ps[..|ps| - 1], Forwards(ps[..i + 1]);
    assert front[..i + 1] == ps[..i + 1];
    if Forward(ps, |ps| - 1) {
      var e := Excess(ps[|ps| - 2], ps[|ps| - 1]);
      SumSnoc(Excesses(front)[k..], e);
      assert Excesses(ps)[k..] == Excesses(front)[k..] + [e];
    } else {
      assert Excesses(ps) == Excesses(front);
    }
  }

  lemma SumSnoc(s: seq<real>, x: real)
    ensures Sum(s + [x]) == Sum(s) + x
  {
    assert (s + [x])[..|s|] == s;
  }

  /** The excesses after packet i add up to the measured lateness after it, less what truncation takes
      from each of them; on whole milliseconds they are exactly that. */
  lemma {:induction false} ExcessesTelescope(ps: seq<Arrival>, i: nat)
    requires TimeOrdered(ps) && i < |ps|
    ensures Forwards(ps[..i + 1]) <= Forwards(ps)
    ensures LeastLateness(ps, i) <= SumAfter(ps, i) <= MeasuredLateness(ps, i)
    ensures OnMillis(ps) ==> SumAfter(ps, i) == MeasuredLateness(ps, i)
  {
    var n := |ps| - 1;
    ForwardsGrow(ps, i + 1);
    if i == n {
      assert ps[..i + 1] == ps;
      assert Excesses(ps)[Forwards(ps)..] == [];
    } else {
      var front := ps[..n];
      ForwardsGrow(front, i + 1);
      assert front[..i + 1] == ps[..i + 1];
      ExcessesTelescope(front, i);
      SumAfterStep(ps, i);
      Truncation(ps[n - 1].at, ps[n].at);
    }
  }

  /** Every suffix of the excesses begins just after some packet. */
  lemma {:induction false} Anchor(ps: seq<Arrival>, k: nat) returns (i: nat)
    requires ps != [] && k <= Forwards(ps)
    ensures i < |ps| && Forwards(ps[..i + 1]) == k
  {
    if k == Forwards(ps) {
      i := |ps| - 1;
      assert ps[..i + 1] == ps;
    } else {
      i := Anchor(ps[..|ps| - 1], k);
      assert ps[..|ps| - 1][..i + 1] == ps[..i + 1];
    }
  }

  /** A packet that is not measured is later than the one before it, unless the stream resumed at it;
      so leaving it out can only lower the measured lateness. In order, nothing is left out. */
  lemma {:induction false} MeasuredIsWithin(ps: seq<Arrival>, i: nat)
    requires TimeOrdered(ps) && i < |ps|
    ensures NoResume(ps) ==> MeasuredLateness(ps, i) <= Lateness(ps, i, |ps| - 1)
    ensures InOrder(ps) ==> MeasuredLateness(ps, i) == Lateness(ps, i, |ps| - 1)
  {
    if i < |ps| - 1 {
      var front := ps[..|ps| - 1];
      assert forall j :: 0 < j < |front| ==> Forward(front, j) == Forward(ps, j);
      MeasuredIsWithin(front, i);
    }
  }

  lemma {:induction false} InOrderCount(ps: seq<Arrival>)
    requires InOrder(ps) && ps != []
    ensures Forwards(ps) == |ps| - 1
  {
    if |ps| > 1 {
      var front := ps[..|ps| - 1];
      assert forall j :: 0 < j < |front| ==> Forward(front, j) == Forward(ps, j);
      InOrderCount(front);
    }
  }

  // At most a window of packets is measured after packet i.
  ghost predicate InWindow(ps: seq<Arrival>, i: nat) {
    i < |ps| && Forwards(ps) <= Forwards(ps[..i + 1]) + 100
  }

  /** On any stretch, reordered or not, that starts on an empty history or measures a whole window, the
      relative delay is the greatest measured lateness of its newest packet against any packet in the
      window or just before it: never more, and never less by more than truncation takes from the
      packets in between. */
  lemma RelativeDelayIsGreatestLateness(history: seq<real>, ps: seq<Arrival>) returns (i: nat)
    requires TimeOrdered(ps) && ps != [] && |history| <= 100
    requires history == [] || Forwards(ps) >= 100
    ensures InWindow(ps, i) && 0.0 <= Running(HistoryAfter(history, ps)) <= MeasuredLateness(ps, i)
    ensures forall j :: InWindow(ps, j) ==> LeastLateness(ps, j) <= Running(HistoryAfter(history, ps))
    ensures OnMillis(ps) ==>
              && Running(HistoryAfter(history, ps)) == MeasuredLateness(ps, i)
              && forall j :: InWindow(ps, j) ==> MeasuredLateness(ps, j) <= Running(HistoryAfter(history, ps))
  {
    var window := Suffix(Excesses(ps), HISTORY);
    var first := Forwards(ps) - |window|;
    WindowOfStretch(history, ps);
    var k := RunningIsGreatestSuffix(window);
    assert Excesses(ps)[first..] == window;
    assert window[k..] == Excesses(ps)[first + k..];
    assert Sum(window[|window|..]) == 0.0;
    i := Anchor(ps, first + k);
    ExcessesTelescope(ps, i);
    forall j | InWindow(ps, j)
      ensures Forwards(ps[..j + 1]) <= Forwards(ps)
      ensures SumAfter(ps, j) <= Running(window)
      ensures LeastLateness(ps, j) <= SumAfter(ps, j)
      ensures OnMillis(ps) ==> SumAfter(ps, j) == MeasuredLateness(ps, j)
    {
      ExcessesTelescope(ps, j);
      assert window[Forwards(ps[..j + 1]) - first..] == Excesses(ps)[Forwards(ps[..j + 1])..];
    }
  }
}
