/**
 No latching: whatever a histogram has seen before, enough samples within a range of bins bring
 its target into that range and keep it there.
 */
module HistogramAging {
  import opened Wrappers
  import opened DelayHistogram

  // A sample is a bin, or nothing when the delay was out of range.
  type Sample = Option<nat>

  function Observe(h: Histogram, o: Sample): Histogram
    requires o.Some? ==> o.value < |h.bins|
  {
    if o.Some? then Update(h, o.value) else h
  }

  function Feed(h: Histogram, samples: seq<Sample>): (fed: Histogram)
    requires |h.bins| == BINS
    requires forall o :: o in samples && o.Some? ==> o.value < BINS
    ensures |fed.bins| == BINS
  {
    if samples == [] then h
    else Observe(Feed(h, samples[..|samples| - 1]), samples[|samples| - 1])
  }

  function InRange(samples: seq<Sample>): nat {
    if samples == [] then 0
    else InRange(samples[..|samples| - 1]) + if samples[|samples| - 1].Some? then 1 else 0
  }

  // Every in-range sample lies in the bins lo .. hi; out-of-range ones may be mixed in.
  ghost predicate Within(samples: seq<Sample>, lo: nat, hi: nat) {
    forall o :: o in samples && o.Some? ==> lo <= o.value <= hi
  }

  // The mass outside the bins lo .. hi.
  function Outside(bins: seq<int>, lo: nat, hi: nat): int
    requires lo <= hi < |bins|
  {
    Sum(bins[..lo]) + Sum(bins[hi + 1..])
  }

  lemma InsideOutside(bins: seq<int>, lo: nat, hi: nat)
    requires lo <= hi < |bins|
    ensures Sum(bins) == Outside(bins, lo, hi) + Sum(bins[lo..hi + 1])
  {
    SumSplit(bins, lo);
    SumSplit(bins[lo..], hi + 1 - lo);
    assert bins[lo..][..hi + 1 - lo] == bins[lo..hi + 1];
    assert bins[lo..][hi + 1 - lo..] == bins[hi + 1..];
  }

  lemma OutsideNonNegative(bins: seq<int>, lo: nat, hi: nat)
    requires lo <= hi < |bins| && NonNegative(bins)
    ensures Outside(bins, lo, hi) >= 0
  {
    SumNonNegative(bins[..lo]);
    SumNonNegative(bins[hi + 1..]);
  }

  // ----- every reachable state -----

  /** From the seed, or any other well-formed state, every run of samples keeps the histogram
      non-negative, its mass exact and its target the exact quantile; once a sample was in range
      the mass is exactly one. */
  lemma {:induction false} FeedKeeps(h: Histogram, samples: seq<Sample>)
    requires WellFormed(h) && Within(samples, 0, BINS - 1)
    ensures WellFormed(Feed(h, samples))
    ensures InRange(samples) > 0 ==> Sum(Feed(h, samples).bins) == ONE
  {
    if samples != [] {
      var front, o := samples[..|samples| - 1], samples[|samples| - 1];
      FeedKeeps(h, front);
      if o.Some? {
        UpdateKeeps(Feed(h, front), o.value);
      }
    }
  }

  // ----- one sample -----

  /** A sample within lo .. hi shrinks the mass outside by the forgetting factor, up to one unit
      of rounding per bin of the range. */
  lemma OutsideShrinks(h: Histogram, k: nat, lo: nat, hi: nat)
    requires WellFormed(h) && lo <= k <= hi < BINS
    ensures 32768 * Outside(Update(h, k).bins, lo, hi)
            < h.factor * Outside(h.bins, lo, hi) + 32768 * (hi + 1 - lo)
  {
    var bumped, after := Bumped(h.bins, h.factor, k), Update(h, k).bins;
    UpdateKeeps(h, k);
    InsideOutside(after, lo, hi);
    SumMonotone(bumped[lo..hi + 1], after[lo..hi + 1]);
    InsideAfterBump(h.bins, h.factor, k, lo, hi);
    ScaledSplit(h, lo, hi);
  }

  // The scaled mass is the scaled mass inside plus the scaled mass outside.
  lemma ScaledSplit(h: Histogram, lo: nat, hi: nat)
    requires WellFormed(h) && lo <= hi < BINS
    ensures h.factor * ONE == h.factor * Outside(h.bins, lo, hi) + h.factor * Sum(h.bins[lo..hi + 1])
  {
    InsideOutside(h.bins, lo, hi);
    Distribute(h.factor, Outside(h.bins, lo, hi), Sum(h.bins[lo..hi + 1]));
  }

  lemma Distribute(f: int, a: int, b: int)
    ensures f * (a + b) == f * a + f * b
    ensures f == 0 ==> f * a == 0 && f * b == 0
  {
  }

  lemma InsideAfterBump(bins: seq<int>, factor: nat, k: nat, lo: nat, hi: nat)
    requires lo <= k <= hi < |bins| && factor <= STEADY
    ensures 32768 * Sum(Bumped(bins, factor, k)[lo..hi + 1])
            >= factor * Sum(bins[lo..hi + 1]) - 32767 * (hi + 1 - lo) + 32768 * ((32768 - factor) * 32768)
  {
    var scaled, inside := Scaled(bins, factor), bins[lo..hi + 1];
    assert Scaled(inside, factor) == scaled[lo..hi + 1];
    ScalingLoss(inside, factor);
    assert Bumped(bins, factor, k)[lo..hi + 1]
           == scaled[lo..hi + 1][k - lo := scaled[k] + (32768 - factor) * 32768];
    SumUpdate(scaled[lo..hi + 1], k - lo, scaled[k] + (32768 - factor) * 32768);
  }

  // One step in integers: the mass either was already low, or falls by 57/32768 less rounding.
  lemma Decline(before: int, factor: nat, after: int, width: nat, floor: int)
    requires 0 <= before && factor <= STEADY && width <= BINS
    requires 32768 * after < factor * before + 32768 * width
    requires floor >= 37368
    ensures before <= floor ==> after <= floor
    ensures before > floor ==> 32768 * after <= 32768 * before - (57 * floor - 2129920)
  {
    assert factor * before <= STEADY * before;
  }

  // What one more sample does to the mass outside: nothing, or a decline.
  ghost predicate Declines(before: int, after: int, floor: int, drop: int, sampled: bool) {
    && (!sampled ==> after == before)
    && (before <= floor ==> after <= floor)
    && (before > floor && sampled ==> 32768 * after <= 32768 * before - drop)
  }

  lemma SampleDeclines(h: Histogram, o: Sample, lo: nat, hi: nat, floor: int, drop: int)
    requires WellFormed(h) && lo <= hi < BINS && floor >= 37368 && drop <= 57 * floor - 2129920
    requires o.Some? ==> lo <= o.value <= hi
    ensures Declines(Outside(h.bins, lo, hi), Outside(Observe(h, o).bins, lo, hi), floor, drop, o.Some?)
  {
    if o.Some? {
      var k := o.value;
      OutsideShrinks(h, k, lo, hi);
      OutsideNonNegative(h.bins, lo, hi);
      Decline(Outside(h.bins, lo, hi), h.factor, Outside(Update(h, k).bins, lo, hi), hi + 1 - lo, floor);
    }
  }

  // ----- a run of samples -----

  /** Each in-range sample of a run within lo .. hi takes a fixed amount off the mass outside,
      until that mass is below the floor, where it stays. */
  lemma {:induction false} RunDeclines(h: Histogram, samples: seq<Sample>, lo: nat, hi: nat, floor: int, drop: int)
    requires WellFormed(h) && lo <= hi < BINS && Within(samples, lo, hi)
    requires floor >= 37368 && drop <= 57 * floor - 2129920
    ensures var left := 32768 * Outside(h.bins, lo, hi) - InRange(samples) * drop;
            32768 * Outside(Feed(h, samples).bins, lo, hi) <= Max(32768 * floor, left)
  {
    if samples != [] {
      var front := samples[..|samples| - 1];
      RunDeclines(h, front, lo, hi, floor, drop);
      LastDeclines(h, samples, lo, hi, floor, drop);
      Carry(Outside(Feed(h, front).bins, lo, hi), Outside(Feed(h, samples).bins, lo, hi),
            32768 * Outside(h.bins, lo, hi), InRange(front), floor, drop, samples[|samples| - 1].Some?);
    }
  }

  lemma LastDeclines(h: Histogram, samples: seq<Sample>, lo: nat, hi: nat, floor: int, drop: int)
    requires WellFormed(h) && lo <= hi < BINS && Within(samples, lo, hi) && samples != []
    requires floor >= 37368 && drop <= 57 * floor - 2129920
    ensures Declines(Outside(Feed(h, samples[..|samples| - 1]).bins, lo, hi), Outside(Feed(h, samples).bins, lo, hi),
                     floor, drop, samples[|samples| - 1].Some?)
  {
    var front, o := samples[..|samples| - 1], samples[|samples| - 1];
    FeedKeeps(h, front);
    SampleDeclines(Feed(h, front), o, lo, hi, floor, drop);
  }

  // What `n` samples took off the mass, one more adds to.
  lemma Carry(before: int, after: int, first: int, n: nat, floor: int, drop: int, sampled: bool)
    requires 32768 * before <= Max(32768 * floor, first - n * drop)
    requires Declines(before, after, floor, drop, sampled)
    ensures 32768 * after <= Max(32768 * floor, first - (n + if sampled then 1 else 0) * drop)
  {
    assert (n + 1) * drop == n * drop + drop;
  }

  // ----- twelve phases from the whole mass to the 5% limit -----

  const PHASE: nat := 165

  function Threshold(i: nat): int
    requires i <= 12
  {
    [1073741824, 834295012, 648247230, 503689960, 391370404, 304099231, 236290400,
     183603616, 142666510, 110858788, 86144505, 66941754, 53687091][i]
  }

  /** Within one phase the mass outside falls from one threshold to the next. */
  lemma OnePhase(h: Histogram, samples: seq<Sample>, lo: nat, hi: nat, i: nat)
    requires WellFormed(h) && lo <= hi < BINS && Within(samples, lo, hi) && i < 12
    requires Outside(h.bins, lo, hi) <= Threshold(i) && InRange(samples) >= PHASE
    ensures Outside(Feed(h, samples).bins, lo, hi) <= Threshold(i + 1)
  {
    var floor := Threshold(i + 1);
    var drop := 57 * floor - 2129920;
    RunDeclines(h, samples, lo, hi, floor, drop);
    assert PHASE * drop >= 32768 * (Threshold(i) - floor);
    MoreTimes(PHASE, InRange(samples), drop);
  }

  lemma MoreTimes(a: nat, n: nat, amount: nat)
    requires a <= n
    ensures a * amount <= n * amount
  {
    assert (n - a) * amount >= 0;
  }

  lemma {:induction false} FeedConcat(h: Histogram, a: seq<Sample>, c: seq<Sample>)
    requires |h.bins| == BINS && Within(a, 0, BINS - 1) && Within(c, 0, BINS - 1)
    ensures Within(a + c, 0, BINS - 1)
    ensures Feed(h, a + c) == Feed(Feed(h, a), c)
    ensures InRange(a + c) == InRange(a) + InRange(c)
  {
    if c == [] {
      assert a + c == a;
    } else {
      FeedConcat(h, a, c[..|c| - 1]);
      assert (a + c)[..|a + c| - 1] == a + c[..|c| - 1];
    }
  }

  /** Where the n-th in-range sample of a run ends. */
  lemma {:induction false} CutAfter(samples: seq<Sample>, n: nat) returns (m: nat)
    requires n <= InRange(samples)
    ensures m <= |samples| && InRange(samples[..m]) == n
  {
    if InRange(samples) == n {
      m := |samples|;
      assert samples[..m] == samples;
    } else {
      m := CutAfter(samples[..|samples| - 1], n);
      assert samples[..m] == samples[..|samples| - 1][..m];
    }
  }

  lemma {:induction false} Phases(h: Histogram, samples: seq<Sample>, lo: nat, hi: nat, i: nat)
    requires WellFormed(h) && lo <= hi < BINS && Within(samples, lo, hi) && i <= 12
    requires Outside(h.bins, lo, hi) <= Threshold(i) && InRange(samples) >= PHASE * (12 - i)
    ensures Outside(Feed(h, samples).bins, lo, hi) <= LIMIT
    decreases 12 - i
  {
    if i == 12 {
      RunDeclines(h, samples, lo, hi, LIMIT, 57 * LIMIT - 2129920);
      MoreTimes(0, InRange(samples), 57 * LIMIT - 2129920);
    } else {
      var m := CutAfter(samples, PHASE);
      assert samples == samples[..m] + samples[m..];
      FeedConcat(h, samples[..m], samples[m..]);
      FeedKeeps(h, samples[..m]);
      OnePhase(h, samples[..m], lo, hi, i);
      Phases(Feed(h, samples[..m]), samples[m..], lo, hi, i + 1);
    }
  }

  // ----- the main results -----

  /** From any well-formed state, any run with at least 1980 in-range samples, all of them within
      the bins lo .. hi, ends with the target within lo .. hi, however many out-of-range samples
      are mixed in. With lo = 0 this says that the target falls to hi; with lo = hi that it becomes
      exactly that bin. Longer runs of such samples are runs of this kind too, so it stays there. */
  lemma NoLatching(h: Histogram, samples: seq<Sample>, lo: nat, hi: nat)
    requires WellFormed(h) && lo <= hi < 65 && Within(samples, lo, hi) && InRange(samples) >= 1980
    ensures lo <= Feed(h, samples).target <= hi
  {
    var after := Feed(h, samples);
    OutsideAtMostOne(h, lo, hi);
    Phases(h, samples, lo, hi, 0);
    FeedKeeps(h, samples);
    TargetFollowsMass(after, lo, hi);
  }

  /** Out of a fresh histogram the first in-range sample already outweighs everything before it, so one
      sample is enough. */
  lemma {:induction false} FreshOutside(h: Histogram, samples: seq<Sample>, lo: nat, hi: nat)
    requires WellFormed(h) && h.factor == 0 && lo <= hi < BINS && Within(samples, lo, hi)
    ensures InRange(samples) == 0 ==> Feed(h, samples) == h
    ensures InRange(samples) > 0 ==> Outside(Feed(h, samples).bins, lo, hi) <= LIMIT
  {
    if samples != [] {
      var front, o := samples[..|samples| - 1], samples[|samples| - 1];
      FreshOutside(h, front, lo, hi);
      FeedKeeps(h, front);
      if o.Some? {
        if InRange(front) == 0 {
          OutsideShrinks(h, o.value, lo, hi);
        } else {
          SampleDeclines(Feed(h, front), o, lo, hi, LIMIT, 0);
        }
      }
    }
  }

  /** From a fresh histogram, any run of samples within lo .. hi, of which at least one is in range, has
      the target within lo .. hi. */
  lemma FreshFollows(h: Histogram, samples: seq<Sample>, lo: nat, hi: nat)
    requires WellFormed(h) && h.factor == 0 && lo <= hi < BINS && Within(samples, lo, hi) && InRange(samples) > 0
    ensures lo <= Feed(h, samples).target <= hi
  {
    FreshOutside(h, samples, lo, hi);
    FeedKeeps(h, samples);
    TargetFollowsMass(Feed(h, samples), lo, hi);
  }

  /** A target lies in a range of bins as soon as at most 5% of the mass lies outside it. */
  lemma TargetFollowsMass(h: Histogram, lo: nat, hi: nat)
    requires WellFormed(h) && Sum(h.bins) == ONE && lo <= hi < BINS
    requires Outside(h.bins, lo, hi) <= LIMIT
    ensures lo <= h.target <= hi
  {
    SumNonNegative(h.bins[..lo]);
    SumNonNegative(h.bins[hi + 1..]);
    assert Above(h.bins, hi) <= LIMIT;
    if h.target < lo {
      HeadGrows(h.bins, h.target + 1, lo);
      SumSplit(h.bins, h.target + 1);
    }
  }

  lemma HeadGrows(bins: seq<int>, i: nat, j: nat)
    requires i <= j <= |bins| && NonNegative(bins)
    ensures Sum(bins[..i]) <= Sum(bins[..j])
  {
    SumSplit(bins[..j], i);
    assert bins[..j][..i] == bins[..i];
    SumNonNegative(bins[..j][i..]);
  }

  lemma OutsideAtMostOne(h: Histogram, lo: nat, hi: nat)
    requires WellFormed(h) && lo <= hi < BINS
    ensures Outside(h.bins, lo, hi) <= ONE
  {
    InsideOutside(h.bins, lo, hi);
    SumNonNegative(h.bins[lo..hi + 1]);
    if h == SEED {
      SeedTail(BINS, 0);
      SumSplit(h.bins, 1);
      assert h.bins[..1] == [h.bins[0]];
      assert Sum([h.bins[0]]) == h.bins[0];
    }
  }

  // ----- the forgetting factor -----

  function Gap(d: nat, n: nat): nat {
    if n == 0 then d
    else
      Shrunk(Gap(d, n - 1))
  }

  lemma {:induction false} GapMonotone(a: nat, b: nat, n: nat)
    requires a <= b
    ensures Gap(a, n) <= Gap(b, n)
  {
    if n > 0 {
      GapMonotone(a, b, n - 1);
    }
  }

  function Shrunk(gap: nat): nat {
    gap - (gap + 3) / 4
  }

  lemma ThreeOn(d: nat, n: nat, before: nat, after: nat)
    requires Gap(d, n) == before && after == Shrunk(Shrunk(Shrunk(before)))
    ensures Gap(d, n + 3) == after
  {
    assert Gap(d, n + 1) == Shrunk(before);
    assert Gap(d, n + 2) == Shrunk(Shrunk(before));
  }

  lemma GapAfterTwelve(d: nat)
    requires d == STEADY
    ensures Gap(d, 12) == 1035
  {
    ThreeOn(d, 0, 32711, 13799);
    ThreeOn(d, 3, 13799, 5820);
    ThreeOn(d, 6, 5820, 2454);
    ThreeOn(d, 9, 2454, 1035);
  }

  lemma GapAfterTwentyFour(d: nat)
    requires Gap(d, 12) == 1035
    ensures Gap(d, 24) == 31
  {
    ThreeOn(d, 12, 1035, 436);
    ThreeOn(d, 15, 436, 183);
    ThreeOn(d, 18, 183, 76);
    ThreeOn(d, 21, 76, 31);
  }

  lemma GapAfterThirtyFour(d: nat)
    requires Gap(d, 24) == 31
    ensures Gap(d, 34) == 0
  {
    ThreeOn(d, 24, 31, 12);
    ThreeOn(d, 27, 12, 4);
    ThreeOn(d, 30, 4, 1);
    assert Gap(d, 34) == Shrunk(Gap(d, 33));
  }

  // Thirty-four steps close the gap between the first factor and the steady one.
  lemma GapCloses(d: nat)
    requires d == STEADY
    ensures Gap(d, 34) == 0
  {
    GapAfterTwelve(d);
    GapAfterTwentyFour(d);
    GapAfterThirtyFour(d);
  }

  lemma {:induction false} FactorTracksGap(h: Histogram, samples: seq<Sample>)
    requires WellFormed(h) && Within(samples, 0, BINS - 1)
    ensures Feed(h, samples).factor == STEADY - Gap(STEADY - h.factor, InRange(samples))
  {
    if samples != [] {
      FactorTracksGap(h, samples[..|samples| - 1]);
      FeedKeeps(h, samples[..|samples| - 1]);
      FactorMoves(Feed(h, samples[..|samples| - 1]), samples[|samples| - 1]);
    }
  }

  lemma FactorMoves(h: Histogram, o: Sample)
    requires WellFormed(h) && (o.Some? ==> o.value < BINS)
    ensures Observe(h, o).factor == if o.Some? then STEADY - Shrunk(STEADY - h.factor) else h.factor
  {
  }

  /** The forgetting factor never overshoots its steady value and reaches it within 34 in-range
      samples from any state. */
  lemma FactorReachesSteady(h: Histogram, samples: seq<Sample>)
    requires WellFormed(h) && Within(samples, 0, 64) && InRange(samples) >= 34
    ensures Feed(h, samples).factor == 32711
  {
    FactorTracksGap(h, samples);
    GapIsClosed(STEADY - h.factor, STEADY, InRange(samples));
  }

  lemma GapIsClosed(d: nat, most: nat, n: nat)
    requires d <= most && most == STEADY && n >= 34
    ensures Gap(d, n) == 0
  {
    GapMonotone(d, most, n);
    GapCloses(most);
    GapStaysClosed(most, 34, n);
  }

  lemma {:induction false} GapStaysClosed(d: nat, m: nat, n: nat)
    requires m <= n && Gap(d, m) == 0
    ensures Gap(d, n) == 0
  {
    if m < n {
      GapStaysClosed(d, m, n - 1);
    }
  }
}
