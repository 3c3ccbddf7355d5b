/**
 The forgetting histogram of relative arrival delay: 65 one-frame bins in Q30 fixed point,
 scaled by a Q15 factor with floor rounding on every sample, repaired so that the mass is
 exactly one again, and read through a walk of the reverse cumulative distribution.
 */
module DelayHistogram {
  import opened Wrappers

  const BINS: nat := 65
  // One in Q30.
  const ONE: int := 1073741824
  // The steady forgetting factor in Q15.
  const STEADY: int := 32711
  // The 5% tail in Q30.
  const LIMIT: int := ONE / 20

  datatype Histogram = Histogram(bins: seq<int>, factor: int, target: nat)

  // ----- sums -----

  function Sum(s: seq<int>): int {
    if s == [] then 0 else Sum(s[..|s| - 1]) + s[|s| - 1]
  }

  // The mass strictly above a bin.
  function Above(bins: seq<int>, i: nat): int
    requires i < |bins|
  {
    Sum(bins[i + 1..])
  }

  // ----- the seed -----

  function SeedMass(i: nat): nat {
    if i == 0 then 536870912 else SeedMass(i - 1) / 2
  }

  function SeedBins(n: nat): seq<int> {
    seq(n, i requires 0 <= i < n => SeedMass(i))
  }

  const SEED := Histogram(SeedBins(BINS), 0, 4)

  // ----- one update -----

  // Every bin times factor / 32768, rounded down.
  function Scaled(bins: seq<int>, factor: int): seq<int> {
    seq(|bins|, i requires 0 <= i < |bins| => bins[i] * factor / 32768)
  }

  function Bumped(bins: seq<int>, factor: int, k: nat): seq<int>
    requires k < |bins|
  {
    var scaled := Scaled(bins, factor);
    scaled[k := scaled[k] + (32768 - factor) * 32768]
  }

  function Abs(x: int): nat {
    if x < 0 then -x else x
  }

  // What the repair loop adds to one bin, given the drift that is left.
  function Correction(bin: int, drift: int, flip: int): int {
    flip * Min(Abs(drift), bin / 16)
  }

  /** The repair loop from bin `i` on; it stops as soon as no drift is left. */
  function RepairFrom(bins: seq<int>, i: nat, drift: int, flip: int): (repaired: seq<int>)
    requires i <= |bins|
    ensures |repaired| == |bins|
    decreases |bins| - i
  {
    if i == |bins| || drift == 0 then bins
    else
      var c := Correction(bins[i], drift, flip);
      RepairFrom(bins[i := bins[i] + c], i + 1, drift + c, flip)
  }

  function Repaired(bins: seq<int>): (repaired: seq<int>)
    ensures |repaired| == |bins|
  {
    var drift := Sum(bins) - ONE;
    RepairFrom(bins, 0, drift, if drift > 0 then -1 else 1)
  }

  function NextFactor(factor: int): int {
    factor + (STEADY - factor + 3) / 4
  }

  /** The reverse-distribution walk: `tail` is the mass not yet walked past. */
  function Walk(bins: seq<int>, index: nat, tail: int): (q: nat)
    requires index < |bins|
    ensures index <= q < |bins|
    decreases |bins| - index
  {
    if tail > LIMIT && index < |bins| - 1 then Walk(bins, index + 1, tail - bins[index + 1]) else index
  }

  function Quantile(bins: seq<int>): (q: nat)
    requires |bins| > 0
    ensures q < |bins|
  {
    Walk(bins, 0, ONE - bins[0])
  }

  function Update(h: Histogram, k: nat): Histogram
    requires k < |h.bins|
  {
    var bins := Repaired(Bumped(h.bins, h.factor, k));
    Histogram(bins, NextFactor(h.factor), Quantile(bins))
  }

  // The bin of a delay, or none when the histogram cannot represent it.
  function HistogramBin(delayFrames: real): (bin: Option<nat>)
    ensures bin.Some? ==> bin.value < BINS
  {
    if 0.0 <= delayFrames < BINS as real then Some(delayFrames.Floor) else None
  }

  // ----- what holds in every reachable state -----

  /** The tail above `q` is within 5% of one in Q30, and `q` is the first bin of which that is so. */
  ghost predicate IsQuantile(bins: seq<int>, q: nat) {
    && q < |bins|
    && Above(bins, q) <= 53687091
    && forall i :: 0 <= i < q ==> Above(bins, i) > 53687091
  }

  ghost predicate NonNegative(s: seq<int>) {
    forall i :: 0 <= i < |s| ==> s[i] >= 0
  }

  /** No bin is negative, the mass is exactly one unless the histogram is freshly seeded, and the
      stored target is the quantile of the bins. */
  ghost predicate WellFormed(h: Histogram) {
    && |h.bins| == 65 && NonNegative(h.bins)
    && 0 <= h.factor <= 32711
    && (h == SEED || Sum(h.bins) == 1073741824)
    && IsQuantile(h.bins, h.target)
  }

  // ----- sums: facts -----

  lemma {:induction false} SumConcat(a: seq<int>, b: seq<int>)
    ensures Sum(a + b) == Sum(a) + Sum(b)
  {
    if b == [] {
      assert a + b == a;
    } else {
      SumConcat(a, b[..|b| - 1]);
      assert (a + b)[..|a + b| - 1] == a + b[..|b| - 1];
    }
  }

  lemma SumSplit(s: seq<int>, i: nat)
    requires i <= |s|
    ensures Sum(s) == Sum(s[..i]) + Sum(s[i..])
  {
    assert s == s[..i] + s[i..];
    SumConcat(s[..i], s[i..]);
  }

  lemma SumStep(s: seq<int>, i: nat)
    requires i < |s|
    ensures Sum(s[..i + 1]) == Sum(s[..i]) + s[i]
  {
    assert s[..i + 1][..i] == s[..i];
  }

  lemma SumUpdate(s: seq<int>, i: nat, v: int)
    requires i < |s|
    ensures Sum(s[i := v]) == Sum(s) - s[i] + v
  {
    SumSplit(s, i + 1);
    SumSplit(s[i := v], i + 1);
    SumStep(s, i);
    SumStep(s[i := v], i);
    assert s[i := v][..i] == s[..i];
    assert s[i := v][i + 1..] == s[i + 1..];
  }

  lemma {:induction false} SumMonotone(a: seq<int>, b: seq<int>)
    requires |a| == |b|
    requires forall i :: 0 <= i < |a| ==> a[i] <= b[i]
    ensures Sum(a) <= Sum(b)
  {
    if a != [] {
      SumMonotone(a[..|a| - 1], b[..|b| - 1]);
    }
  }

  lemma {:induction false} SumAtMost(s: seq<int>, bound: nat)
    requires forall i :: 0 <= i < |s| ==> s[i] <= bound
    ensures Sum(s) <= |s| * bound
  {
    if s != [] {
      SumAtMost(s[..|s| - 1], bound);
    }
  }

  lemma SumNonNegative(s: seq<int>)
    requires NonNegative(s)
    ensures Sum(s) >= 0
  {
    SumMonotone(seq(|s|, _ => 0), s);
    SumOfZeros(|s|);
  }

  lemma {:induction false} SumOfZeros(n: nat)
    ensures Sum(seq(n, _ => 0)) == 0
  {
    if n > 0 {
      assert seq(n, _ => 0)[..n - 1] == seq(n - 1, _ => 0);
      SumOfZeros(n - 1);
    }
  }

  // ----- rounding loss and its repair -----

  /** Floor rounding loses less than one unit per bin. */
  lemma {:induction false} ScalingLoss(bins: seq<int>, factor: nat)
    ensures bins != [] ==> 32768 * Sum(Scaled(bins, factor)) >= factor * Sum(bins) - 32767 * |bins|
    ensures 32768 * Sum(Scaled(bins, factor)) <= factor * Sum(bins)
  {
    if bins != [] {
      var front, x := bins[..|bins| - 1], bins[|bins| - 1];
      ScalingLoss(front, factor);
      assert Scaled(bins, factor)[..|bins| - 1] == Scaled(front, factor);
      FloorLoss(x * factor);
      assert factor * Sum(bins) == factor * Sum(front) + factor * x;
    }
  }

  lemma FloorLoss(y: int)
    ensures y - 32767 <= 32768 * (y / 32768) <= y
  {
  }

  /** The drift of an update is never positive and at most one unit per bin. */
  lemma DriftBound(bins: seq<int>, factor: nat, k: nat)
    requires |bins| == BINS && k < BINS && factor <= STEADY
    requires factor == 0 || Sum(bins) == ONE
    ensures 1073741760 <= Sum(Bumped(bins, factor, k)) <= 1073741824
  {
    BumpedMass(bins, factor, k);
    ScaledMass(bins, factor);
  }

  lemma BumpedMass(bins: seq<int>, factor: int, k: nat)
    requires k < |bins|
    ensures Sum(Bumped(bins, factor, k)) == Sum(Scaled(bins, factor)) + (32768 - factor) * 32768
  {
    SumBump(Scaled(bins, factor), k, (32768 - factor) * 32768);
  }

  lemma SumBump(s: seq<int>, k: nat, amount: int)
    requires k < |s|
    ensures Sum(s[k := s[k] + amount]) == Sum(s) + amount
  {
    SumUpdate(s, k, s[k] + amount);
  }

  lemma ScaledMass(bins: seq<int>, factor: nat)
    requires |bins| == BINS
    requires factor == 0 || Sum(bins) == ONE
    ensures 32768 * factor - 64 <= Sum(Scaled(bins, factor)) <= 32768 * factor
    ensures factor == 0 ==> Sum(Scaled(bins, factor)) == 0
  {
    if factor == 0 {
      assert Scaled(bins, factor) == seq(|bins|, _ => 0);
      SumOfZeros(|bins|);
    } else {
      ScalingLoss(bins, factor);
      assert factor * Sum(bins) == factor * ONE;
    }
  }

  lemma BumpedNonNegative(bins: seq<int>, factor: nat, k: nat)
    requires NonNegative(bins) && k < |bins| && factor <= STEADY
    ensures NonNegative(Bumped(bins, factor, k))
  {
    forall i | 0 <= i < |bins|
      ensures bins[i] * factor / 32768 >= 0
    {
      assert bins[i] * factor >= 0;
    }
  }

  /** A missing mass of at most 64 is put back entirely as soon as the loop meets a bin of 1024;
      no bin loses anything on the way. */
  lemma {:induction false} RepairAbsorbs(bins: seq<int>, i: nat, missing: nat, j: nat)
    requires i <= j < |bins| && bins[j] >= 1024 && missing <= 64 && NonNegative(bins)
    ensures var repaired := RepairFrom(bins, i, 0 - missing, 1);
            && Sum(repaired) == Sum(bins) + missing
            && forall n :: 0 <= n < |bins| ==> bins[n] <= repaired[n]
    decreases |bins| - i
  {
    if missing > 0 {
      var c := Correction(bins[i], 0 - missing, 1);
      var next := bins[i := bins[i] + c];
      SumUpdate(bins, i, bins[i] + c);
      if i < j {
        RepairAbsorbs(next, i + 1, missing - c, j);
      } else {
        assert c == missing;
      }
    }
  }

  /** Among 65 bins that hold almost the whole mass, one is large. */
  lemma SomeBinIsLarge(bins: seq<int>) returns (j: nat)
    requires |bins| == BINS && Sum(bins) >= ONE - 64
    ensures j < BINS && bins[j] >= 1024
  {
    if forall i :: 0 <= i < |bins| ==> bins[i] <= 1023 {
      SumAtMost(bins, 1023);
      assert false;
    }
    j :| 0 <= j < |bins| && bins[j] > 1023;
  }

  /** The repair loop restores the mass to exactly one and takes nothing from any bin. */
  lemma RepairIsExact(bins: seq<int>)
    requires |bins| == BINS && NonNegative(bins) && ONE - 64 <= Sum(bins) <= ONE
    ensures Sum(Repaired(bins)) == ONE
    ensures forall n :: 0 <= n < |bins| ==> bins[n] <= Repaired(bins)[n]
  {
    var j := SomeBinIsLarge(bins);
    RepairAbsorbs(bins, 0, ONE - Sum(bins), j);
  }

  // ----- where the repair goes -----

  // What the bins i .. n - 1 can take of a missing mass: a sixteenth each.
  function Room(bins: seq<int>, i: nat, n: nat): int
    requires n <= |bins|
    decreases n - i
  {
    if i >= n then 0 else bins[i] / 16 + Room(bins, i + 1, n)
  }

  lemma {:induction false} RoomElsewhere(bins: seq<int>, at: nat, v: int, i: nat, n: nat)
    requires at < i && at < |bins| && n <= |bins|
    ensures Room(bins[at := v], i, n) == Room(bins, i, n)
    decreases n - i
  {
    if i < n {
      RoomElsewhere(bins, at, v, i + 1, n);
    }
  }

  lemma {:induction false} RepairLeaves(bins: seq<int>, i: nat, drift: int, flip: int, n: nat)
    requires n < i <= |bins|
    ensures RepairFrom(bins, i, drift, flip)[n] == bins[n]
    decreases |bins| - i
  {
    if i < |bins| && drift != 0 {
      var c := Correction(bins[i], drift, flip);
      RepairLeaves(bins[i := bins[i] + c], i + 1, drift + c, flip, n);
    }
  }

  // What one bin takes of a missing mass, when the bins before it may take first.
  function Share(bin: int, missing: nat, room: int): int {
    if missing <= room then 0 else Min(bin / 16, missing - room)
  }

  /** The missing mass goes to the first bins, a sixteenth of each at most. */
  lemma {:induction false} RepairInClosedForm(bins: seq<int>, i: nat, missing: nat, n: nat)
    requires i <= n < |bins| && NonNegative(bins)
    ensures RepairFrom(bins, i, 0 - missing, 1)[n] == bins[n] + Share(bins[n], missing, Room(bins, i, n))
    ensures Room(bins, i, n) >= 0
    decreases |bins| - i
  {
    var c := Correction(bins[i], 0 - missing, 1);
    var next := bins[i := bins[i] + c];
    if i == n {
      if missing > 0 {
        RepairLeaves(next, i + 1, c - missing, 1, n);
      }
    } else {
      RepairInClosedForm(next, i + 1, missing - c, n);
      RoomElsewhere(bins, i, bins[i] + c, i + 1, n);
    }
  }

  // What the sampled bin gains.
  function Gained(h: Histogram, k: nat, n: nat): int {
    if n == k then (32768 - h.factor) * 32768 else 0
  }

  lemma BumpedBin(h: Histogram, k: nat, n: nat)
    requires k < |h.bins| && n < |h.bins|
    ensures Bumped(h.bins, h.factor, k)[n] == h.bins[n] * h.factor / 32768 + Gained(h, k, n)
  {
  }

  lemma RepairedBin(bumped: seq<int>, n: nat)
    requires n < |bumped| && NonNegative(bumped) && ONE - 64 <= Sum(bumped) <= ONE
    ensures bumped[n] <= Repaired(bumped)[n] <= bumped[n] + 64
  {
    RepairInClosedForm(bumped, 0, ONE - Sum(bumped), n);
  }

  /** One update, bin by bin: each keeps its mass times the factor, and the sampled one gains what was forgotten;
      rounding takes less than one unit from a bin, and the repair gives it back no more than 64. */
  lemma UpdateRemembers(h: Histogram, k: nat, n: nat)
    requires WellFormed(h) && k < 65 && n < 65
    ensures var kept := 32768 * (Update(h, k).bins[n] - if n == k then (32768 - h.factor) * 32768 else 0);
            h.bins[n] * h.factor - 32768 < kept <= h.bins[n] * h.factor + 32768 * 64
  {
    var bumped := Bumped(h.bins, h.factor, k);
    DriftBound(h.bins, h.factor, k);
    BumpedNonNegative(h.bins, h.factor, k);
    RepairedBin(bumped, n);
    BumpedBin(h, k, n);
    Rounding(h.bins[n] * h.factor, Gained(h, k, n), bumped[n], Update(h, k).bins[n]);
  }

  lemma Rounding(y: int, gained: int, bumped: int, after: int)
    requires bumped == y / 32768 + gained && bumped <= after <= bumped + 64
    ensures y - 32768 < 32768 * (after - gained) <= y + 32768 * 64
  {
    FloorLoss(y);
  }

  // ----- the walk -----

  /** With the mass exactly one, the walk stops at the least bin whose tail is within the limit,
      and the bound on the index is never what stops it. */
  lemma {:induction false} WalkFindsQuantile(bins: seq<int>, index: nat)
    requires |bins| == BINS && index < BINS && Sum(bins) == ONE
    requires forall i :: 0 <= i < index ==> Above(bins, i) > LIMIT
    ensures IsQuantile(bins, Walk(bins, index, Above(bins, index)))
    decreases BINS - index
  {
    var tail := Above(bins, index);
    if index == BINS - 1 {
      assert bins[index + 1..] == [];
    } else if tail > LIMIT {
      assert bins[index + 1..] == [bins[index + 1]] + bins[index + 2..];
      SumConcat([bins[index + 1]], bins[index + 2..]);
      assert Sum([bins[index + 1]]) == bins[index + 1];
      WalkFindsQuantile(bins, index + 1);
    }
  }

  lemma QuantileIsExact(bins: seq<int>)
    requires |bins| == BINS && Sum(bins) == ONE
    ensures IsQuantile(bins, Quantile(bins))
  {
    SumSplit(bins, 1);
    assert bins[..1] == [bins[0]];
    assert Sum([bins[0]]) == bins[0];
    WalkFindsQuantile(bins, 0);
  }

  // ----- the update as a whole -----

  /** Each update closes a quarter of the gap between the factor and its steady value, rounded up. */
  lemma FactorStep(factor: nat)
    requires factor <= STEADY
    ensures factor <= NextFactor(factor) <= STEADY
    ensures NextFactor(factor) == factor <==> factor == 32711
    ensures NextFactor(factor) > 0
    ensures 0 <= 4 * (NextFactor(factor) - factor) - (32711 - factor) <= 3
  {
  }

  /** Every in-range update leaves a non-negative histogram whose mass is exactly one and whose
      target is its exact quantile, from the seed and from any later state alike. */
  lemma UpdateKeeps(h: Histogram, k: nat)
    requires WellFormed(h) && k < BINS
    ensures WellFormed(Update(h, k))
    ensures Sum(Update(h, k).bins) == ONE
    ensures var bumped := Bumped(h.bins, h.factor, k);
            forall n :: 0 <= n < BINS ==> 0 <= bumped[n] <= Update(h, k).bins[n]
  {
    var bumped := Bumped(h.bins, h.factor, k);
    DriftBound(h.bins, h.factor, k);
    BumpedNonNegative(h.bins, h.factor, k);
    RepairIsExact(bumped);
    QuantileIsExact(Repaired(bumped));
    FactorStep(h.factor);
  }

  lemma AboveSplit(bins: seq<int>, i: nat, j: nat)
    requires i < j < |bins| && NonNegative(bins)
    ensures Above(bins, i) >= bins[j] + Above(bins, j)
    ensures Above(bins, j) >= 0
  {
    var tail := bins[i + 1..];
    SumSplit(tail, j - i - 1);
    SumNonNegative(tail[..j - i - 1]);
    assert tail[j - i - 1..] == [bins[j]] + bins[j + 1..];
    SumConcat([bins[j]], bins[j + 1..]);
    assert Sum([bins[j]]) == bins[j];
    SumNonNegative(bins[j + 1..]);
  }

  /** The seed halves from bin to bin, so no tail of it outweighs the bin before. */
  lemma {:induction false} SeedTail(n: nat, i: nat)
    requires i < n
    ensures Sum(SeedBins(n)[i + 1..]) <= SeedMass(i) - SeedMass(n - 1)
    decreases n
  {
    if i == n - 1 {
      assert SeedBins(n)[i + 1..] == [];
    } else {
      SeedTail(n - 1, i);
      assert SeedBins(n)[i + 1..][..n - i - 2] == SeedBins(n - 1)[i + 1..];
    }
  }

  /** The seed is well-formed: the start target of four frames is its exact quantile. */
  lemma SeedIsWellFormed()
    ensures WellFormed(SEED)
  {
    var bins := SEED.bins;
    assert SeedMass(1) == 268435456 && SeedMass(2) == 134217728 && SeedMass(3) == 67108864;
    assert SeedMass(4) == 33554432 && SeedMass(5) == 16777216 && SeedMass(6) == 8388608;
    SeedTail(BINS, 4);
    AboveSplit(bins, 3, 4);
    AboveSplit(bins, 4, 5);
    AboveSplit(bins, 5, 6);
    forall i: nat | i < 4
      ensures Above(bins, i) > LIMIT
    {
      if i < 3 {
        AboveSplit(bins, i, 3);
      }
    }
  }

  function PowerOfTwo(n: nat): nat {
    if n == 0 then 1 else 2 * PowerOfTwo(n - 1)
  }

  lemma PowerOfThirty()
    ensures PowerOfTwo(29) == 536870912 && PowerOfTwo(30) == 1073741824
  {
    assert PowerOfTwo(10) == 1024;
    assert PowerOfTwo(20) == 1048576;
  }

  /** The seed gives bin i the probability 1/2^(i+1), exactly as far as Q30 goes. */
  lemma {:induction false} SeedIsGeometric(i: nat)
    ensures SeedMass(i) == if i <= 29 then PowerOfTwo(29 - i) else 0
  {
    if i == 0 {
      PowerOfThirty();
    } else {
      SeedIsGeometric(i - 1);
    }
  }

  lemma {:induction false} SeedAddsUp(n: nat)
    ensures Sum(SeedBins(n)) == 1073741824 - if n <= 30 then PowerOfTwo(30 - n) else 1
  {
    if n == 0 {
      PowerOfThirty();
    } else {
      SeedAddsUp(n - 1);
      SeedIsGeometric(n - 1);
      assert SeedBins(n)[..n - 1] == SeedBins(n - 1);
    }
  }

  /** So the seed is one unit short of the whole mass. */
  lemma SeedIsOneShort()
    ensures Sum(SEED.bins) == 1073741823
  {
    SeedAddsUp(65);
  }
}
