/**
 The jitter statistics as the player keeps them: bins and per-second buckets in arrays that are
 rewritten in place, a bounded history, and a few scalars. Every method is tied to the function on
 values of the same meaning.
 */
module NetworkObserver {
  import opened Wrappers
  import DelayHistogram
  import RelativeDelay
  import GapWindow
  import Values = JitterStats

  const BINS: nat := DelayHistogram.BINS
  const BUCKETS: nat := GapWindow.BUCKETS

  // Where the maximum of a given age is kept, when bucket `idx` is accumulating.
  function BucketOf(idx: nat, age: nat): (bucket: nat)
    requires idx < BUCKETS && age < BUCKETS
    ensures bucket < BUCKETS
  {
    if age <= idx then idx - age else idx + 24 - age
  }

  function AgeOf(idx: nat, bucket: nat): (age: nat)
    requires idx < BUCKETS && bucket < BUCKETS
    ensures age < BUCKETS && BucketOf(idx, age) == bucket
  {
    (idx + 24 - bucket) % 24
  }

  function ByAge(buckets: seq<real>, idx: nat): (ages: seq<real>)
    requires |buckets| == BUCKETS && idx < BUCKETS
    ensures |ages| == BUCKETS
  {
    seq(BUCKETS, a requires 0 <= a < BUCKETS => buckets[BucketOf(idx, a)])
  }

  lemma AgedFurther(ages: seq<real>, steps: nat)
    requires |ages| == BUCKETS && steps >= BUCKETS
    ensures GapWindow.Aged(ages, steps) == GapWindow.Aged(ages, BUCKETS)
  {
  }

  /** Moving on to the next bucket and zeroing it makes every maximum one second older. */
  lemma Rotation(buckets: seq<real>, idx: nat, ages: seq<real>, steps: nat)
    requires |buckets| == BUCKETS && idx < BUCKETS && |ages| == BUCKETS
    requires ByAge(buckets, idx) == GapWindow.Aged(ages, steps)
    ensures ByAge(buckets[(idx + 1) % 24 := 0.0], (idx + 1) % 24) == GapWindow.Aged(ages, steps + 1)
  {
    var next := (idx + 1) % 24;
    var was, turned := ByAge(buckets, idx), ByAge(buckets[next := 0.0], next);
    forall a | 0 <= a < BUCKETS
      ensures turned[a] == GapWindow.Aged(ages, steps + 1)[a]
    {
      if a > 0 {
        assert BucketOf(next, a) == BucketOf(idx, a - 1) && BucketOf(next, a) != next;
        assert turned[a] == was[a - 1];
      }
    }
  }

  lemma Raising(buckets: seq<real>, idx: nat, gap: real)
    requires |buckets| == BUCKETS && idx < BUCKETS
    ensures ByAge(buckets[idx := MaxReal(buckets[idx], gap)], idx)
            == GapWindow.Raised(ByAge(buckets, idx), gap)
  {
    forall a: nat | 0 < a < BUCKETS
      ensures BucketOf(idx, a) != idx
    {
    }
  }

  class JitterStats {
    var lastIngestSeq: Option<nat>
    var lastNetworkArrival: Option<nat>
    var delayHistory: seq<real>
    const iatHistogram: array<int>
    var iatFactor: int
    var iatPercentileTarget: nat
    const gapBuckets: array<real>
    var gapBucketIdx: nat
    var gapBucketStart: Option<nat>

    ghost function Histogram(): DelayHistogram.Histogram
      reads this, iatHistogram
    {
      DelayHistogram.Histogram(iatHistogram[..], iatFactor, iatPercentileTarget)
    }

    ghost function Window(): GapWindow.Window
      requires gapBuckets.Length == BUCKETS && gapBucketIdx < BUCKETS
      reads this, gapBuckets
    {
      GapWindow.Window(ByAge(gapBuckets[..], gapBucketIdx), gapBucketStart)
    }

    ghost function State(): Values.Stats
      requires gapBuckets.Length == BUCKETS && gapBucketIdx < BUCKETS
      reads this, iatHistogram, gapBuckets
    {
      Values.Stats(lastIngestSeq, lastNetworkArrival, delayHistory, Histogram(), Window())
    }

    ghost predicate Valid()
      reads this, iatHistogram, gapBuckets
    {
      && gapBuckets.Length == BUCKETS && gapBucketIdx < BUCKETS
      && iatHistogram.Length == BINS
      && State().WellFormed()
    }

    constructor ()
      ensures Valid() && fresh(iatHistogram) && fresh(gapBuckets)
      ensures State() == Values.InitialStats()
    {
      lastIngestSeq, lastNetworkArrival, delayHistory := None, None, [];
      iatHistogram := new int[BINS](_ => 0);
      iatFactor, iatPercentileTarget := 0, 0;
      gapBuckets := new real[BUCKETS](_ => 0.0);
      gapBucketIdx, gapBucketStart := 0, None;
      new;
      ResetHistogramToSeed();
      assert ByAge(gapBuckets[..], 0) == GapWindow.EmptyWindow().ages;
      DelayHistogram.SeedIsWellFormed();
    }

    method ResetHistogramToSeed()
      requires iatHistogram.Length == BINS
      modifies `iatFactor, `iatPercentileTarget, iatHistogram
      ensures Histogram() == DelayHistogram.SEED
    {
      var val := 536870912;
      for i := 0 to iatHistogram.Length
        invariant val == DelayHistogram.SeedMass(i)
        invariant iatHistogram[..i] == DelayHistogram.SeedBins(i)
      {
        iatHistogram[i] := val;
        val := val / 2;
      }
      assert iatHistogram[..] == iatHistogram[..BINS];
      iatFactor, iatPercentileTarget := 0, 4;
    }

    method UpdateDelayHistory(iatDelay: real)
      modifies `delayHistory
      ensures delayHistory == RelativeDelay.Push(old(delayHistory), iatDelay)
    {
      delayHistory := delayHistory + [iatDelay];
      if |delayHistory| > RelativeDelay.HISTORY {
        delayHistory := delayHistory[1..];
      }
    }

    method RelativePacketArrivalDelay() returns (relativeDelay: real)
      ensures relativeDelay == RelativeDelay.Running(delayHistory)
    {
      relativeDelay := 0.0;
      for i := 0 to |delayHistory|
        invariant relativeDelay == RelativeDelay.Running(delayHistory[..i])
      {
        assert delayHistory[..i + 1][..i] == delayHistory[..i];
        relativeDelay := MaxReal(relativeDelay + delayHistory[i], 0.0);
      }
      assert delayHistory[..|delayHistory|] == delayHistory;
    }

    method UpdateIatHistogram(delayFrames: real)
      requires iatHistogram.Length == BINS && DelayHistogram.WellFormed(Histogram())
      modifies `iatFactor, `iatPercentileTarget, iatHistogram
      ensures Histogram() == Values.UpdatedHistogram(old(Histogram()), delayFrames)
      ensures delayFrames < 0.0 || delayFrames >= 65.0 ==> Histogram() == old(Histogram())
      ensures DelayHistogram.WellFormed(Histogram())
    {
      var bin := DelayHistogram.HistogramBin(delayFrames);
      if bin.None? {
        return;
      }
      DelayHistogram.UpdateKeeps(Histogram(), bin.value);
      AddSample(bin.value);
    }

    // Forget, bump, repair, converge, walk.
    method AddSample(k: nat)
      requires iatHistogram.Length == BINS && k < BINS
      modifies `iatFactor, `iatPercentileTarget, iatHistogram
      ensures Histogram() == DelayHistogram.Update(old(Histogram()), k)
    {
      ghost var bumped := DelayHistogram.Bumped(iatHistogram[..], iatFactor, k);
      var vectorSum := ScaleBins();
      var increment := (32768 - iatFactor) * 32768;
      DelayHistogram.SumBump(iatHistogram[..], k, increment);
      ghost var scaled := iatHistogram[..];
      iatHistogram[k] := iatHistogram[k] + increment;
      assert iatHistogram[..] == scaled[k := scaled[k] + increment] == bumped;
      RepairDrift(vectorSum + increment - DelayHistogram.ONE);
      iatFactor := iatFactor + (DelayHistogram.STEADY - iatFactor + 3) / 4;
      WalkTail();
    }

    // Exponential forgetting: every bin times the factor, and the sum of what is left.
    method ScaleBins() returns (vectorSum: int)
      requires iatHistogram.Length == BINS
      modifies iatHistogram
      ensures iatHistogram[..] == DelayHistogram.Scaled(old(iatHistogram[..]), iatFactor)
      ensures vectorSum == DelayHistogram.Sum(iatHistogram[..])
    {
      vectorSum := 0;
      ghost var was := iatHistogram[..];
      for i := 0 to iatHistogram.Length
        invariant forall j :: 0 <= j < i ==> iatHistogram[j] == DelayHistogram.Scaled(was, iatFactor)[j]
        invariant forall j :: i <= j < BINS ==> iatHistogram[j] == was[j]
        invariant vectorSum == DelayHistogram.Sum(DelayHistogram.Scaled(was, iatFactor)[..i])
      {
        iatHistogram[i] := iatHistogram[i] * iatFactor / 32768;
        vectorSum := vectorSum + iatHistogram[i];
        DelayHistogram.SumStep(DelayHistogram.Scaled(was, iatFactor), i);
      }
      assert iatHistogram[..] == DelayHistogram.Scaled(was, iatFactor);
      assert DelayHistogram.Scaled(was, iatFactor)[..BINS] == DelayHistogram.Scaled(was, iatFactor);
    }

    // Put the rounding drift back, a bin at a time, until none is left.
    method RepairDrift(drift: int)
      requires iatHistogram.Length == BINS
      requires drift == DelayHistogram.Sum(iatHistogram[..]) - DelayHistogram.ONE
      modifies iatHistogram
      ensures iatHistogram[..] == DelayHistogram.Repaired(old(iatHistogram[..]))
    {
      var vectorSum := drift;
      if vectorSum != 0 {
        var flip := if vectorSum > 0 then -1 else 1;
        ghost var goal := DelayHistogram.RepairFrom(iatHistogram[..], 0, vectorSum, flip);
        for i := 0 to iatHistogram.Length
          invariant DelayHistogram.RepairFrom(iatHistogram[..], i, vectorSum, flip) == goal
        {
          if vectorSum == 0 {
            break;
          }
          ghost var before := iatHistogram[..];
          var correction := DelayHistogram.Correction(iatHistogram[i], vectorSum, flip);
          iatHistogram[i] := iatHistogram[i] + correction;
          vectorSum := vectorSum + correction;
          assert iatHistogram[..] == before[i := before[i] + correction];
        }
      }
    }

    // The reverse-distribution walk.
    method WalkTail()
      requires iatHistogram.Length == BINS
      modifies `iatPercentileTarget
      ensures iatPercentileTarget == DelayHistogram.Quantile(iatHistogram[..])
    {
      var lastBin := iatHistogram.Length - 1;
      var sum := DelayHistogram.ONE - iatHistogram[0];
      var index := 0;
      ghost var bins := iatHistogram[..];
      while sum > DelayHistogram.LIMIT && index < lastBin
        invariant 0 <= index <= lastBin
        invariant DelayHistogram.Walk(bins, index, sum) == DelayHistogram.Quantile(bins)
        decreases lastBin - index
      {
        index := index + 1;
        sum := sum - iatHistogram[index];
      }
      iatPercentileTarget := index;
    }

    method RecordGap(gapFrames: real, arrivalTime: nat)
      requires gapBuckets.Length == BUCKETS && gapBucketIdx < BUCKETS
      modifies `gapBucketIdx, `gapBucketStart, gapBuckets
      ensures gapBucketIdx < BUCKETS
      ensures Window() == GapWindow.Record(old(Window()), gapFrames, arrivalTime)
    {
      var gap := GapWindow.Clamped(gapFrames);
      ghost var ages := Window().ages;
      assert GapWindow.Aged(ages, 0) == ages;
      if gapBucketStart.None? {
        gapBucketStart := Some(arrivalTime);
      } else {
        var start := gapBucketStart.value;
        var elapsedSecs := GapWindow.ElapsedSeconds(start, arrivalTime);
        if elapsedSecs >= 1 {
          RotateBuckets(Min(elapsedSecs, BUCKETS));
          if elapsedSecs >= BUCKETS {
            AgedFurther(ages, elapsedSecs);
          }
          gapBucketStart := Some(start + elapsedSecs * GapWindow.SECOND);
        }
      }
      Raising(gapBuckets[..], gapBucketIdx, gap);
      ghost var before := gapBuckets[..];
      gapBuckets[gapBucketIdx] := MaxReal(gapBuckets[gapBucketIdx], gap);
      assert gapBuckets[..] == before[gapBucketIdx := MaxReal(before[gapBucketIdx], gap)];
    }

    // Zero every bucket passed through.
    method RotateBuckets(steps: nat)
      requires gapBuckets.Length == BUCKETS && gapBucketIdx < BUCKETS
      modifies `gapBucketIdx, gapBuckets
      ensures gapBucketIdx < BUCKETS
      ensures ByAge(gapBuckets[..], gapBucketIdx)
              == GapWindow.Aged(old(ByAge(gapBuckets[..], gapBucketIdx)), steps)
    {
      ghost var ages := ByAge(gapBuckets[..], gapBucketIdx);
      assert GapWindow.Aged(ages, 0) == ages;
      for i := 0 to steps
        invariant gapBucketIdx < BUCKETS
        invariant ByAge(gapBuckets[..], gapBucketIdx) == GapWindow.Aged(ages, i)
      {
        NextBucket(ages, i);
      }
    }

    method NextBucket(ghost ages: seq<real>, ghost steps: nat)
      requires gapBuckets.Length == BUCKETS && gapBucketIdx < BUCKETS && |ages| == BUCKETS
      requires ByAge(gapBuckets[..], gapBucketIdx) == GapWindow.Aged(ages, steps)
      modifies `gapBucketIdx, gapBuckets
      ensures gapBucketIdx < BUCKETS
      ensures ByAge(gapBuckets[..], gapBucketIdx) == GapWindow.Aged(ages, steps + 1)
    {
      Rotation(gapBuckets[..], gapBucketIdx, ages, steps);
      gapBucketIdx := (gapBucketIdx + 1) % 24;
      gapBuckets[gapBucketIdx] := 0.0;
      assert gapBuckets[..] == old(gapBuckets[..])[gapBucketIdx := 0.0];
    }

    /** The age-weighted peak and the youngest age that attains it. */
    method WeightedGapPeak() returns (max: real, winner: nat)
      requires Valid()
      ensures GapWindow.IsPeak(Window().ages, max, winner)
    {
      max, winner := 0.0, 0;
      ghost var ages := Window().ages;
      for i := 0 to BUCKETS
        invariant winner < BUCKETS && max >= 0.0
        invariant max == 0.0 ==> winner == 0 && forall j :: 0 <= j < i ==> gapBuckets[j] == 0.0
        invariant max > 0.0 ==> max == GapWindow.Weighted(winner, ages[winner])
        invariant forall j :: 0 <= j < i ==>
                    var w := GapWindow.Weighted(AgeOf(gapBucketIdx, j), gapBuckets[j]);
                    w <= max && (max > 0.0 && w == max ==> winner <= AgeOf(gapBucketIdx, j))
      {
        var gap := gapBuckets[i];
        var age := AgeOf(gapBucketIdx, i);
        assert ages[age] == gap >= 0.0;
        GapWindow.WeightedIsMonotone(age, gap, gap);
        if gap > 0.0 {
          var weighted := GapWindow.Weighted(age, gap);
          if weighted > max || (weighted == max && age < winner) {
            max, winner := weighted, age;
          }
        }
      }
      forall a: nat | a < BUCKETS
        ensures GapWindow.Weighted(a, ages[a]) <= max
        ensures a < winner ==> GapWindow.Weighted(a, ages[a]) < max
      {
        assert AgeOf(gapBucketIdx, BucketOf(gapBucketIdx, a)) == a;
        assert ages[a] == gapBuckets[BucketOf(gapBucketIdx, a)];
      }
      GapWindow.WeightedIsMonotone(winner, ages[winner], 0.0);
    }

    method ResetGapWindow()
      requires gapBuckets.Length == BUCKETS
      modifies `gapBucketIdx, `gapBucketStart, gapBuckets
      ensures gapBucketIdx < BUCKETS && Window() == GapWindow.EmptyWindow()
    {
      for i := 0 to gapBuckets.Length
        invariant forall j :: 0 <= j < i ==> gapBuckets[j] == 0.0
      {
        gapBuckets[i] := 0.0;
      }
      gapBucketIdx, gapBucketStart := 0, None;
      assert ByAge(gapBuckets[..], 0) == GapWindow.EmptyWindow().ages;
    }

    method Observe(seqNum: nat, arrivalTime: nat) returns (keep: bool)
      requires Valid()
      modifies this, iatHistogram, gapBuckets
      ensures Valid()
      ensures (State(), keep) == Values.Observe(old(State()), seqNum, arrivalTime)
    {
      if lastNetworkArrival.Some? && lastIngestSeq.Some? && seqNum > lastIngestSeq.value {
        if seqNum - lastIngestSeq.value < RelativeDelay.RESUME_JUMP {
          if arrivalTime < lastNetworkArrival.value {
            return false;
          }
          Measure(seqNum, arrivalTime);
        }
      }
      lastNetworkArrival, lastIngestSeq := Some(arrivalTime), Some(seqNum);
      return true;
    }

    // The measurements a forward packet takes part in.
    method Measure(seqNum: nat, arrivalTime: nat)
      requires Valid() && Values.Measures(State(), seqNum) && lastNetworkArrival.value <= arrivalTime
      modifies `delayHistory, `iatFactor, `iatPercentileTarget, `gapBucketIdx, `gapBucketStart, iatHistogram, gapBuckets
      ensures Valid()
      ensures State() == Values.Measured(old(State()), seqNum, arrivalTime)
                         .(lastSeq := lastIngestSeq, lastArrival := lastNetworkArrival)
    {
      ghost var was := State();
      var iatPackets := RelativeDelay.Silence(lastNetworkArrival.value, arrivalTime);
      RecordDelay(iatPackets - (seqNum - lastIngestSeq.value) as real);
      RecordGap(iatPackets, arrivalTime);
      assert State()
          == Values.Measured(was, seqNum, arrivalTime).(lastSeq := was.lastSeq, lastArrival := was.lastArrival);
      Values.MeasuredKeeps(was, seqNum, arrivalTime);
    }

    // One more excess, and a sample for the running delay it leaves.
    method RecordDelay(iatDelay: real)
      requires iatHistogram.Length == BINS && DelayHistogram.WellFormed(Histogram())
      modifies `delayHistory, `iatFactor, `iatPercentileTarget, iatHistogram
      ensures delayHistory == RelativeDelay.Push(old(delayHistory), iatDelay)
      ensures Histogram() == Values.UpdatedHistogram(old(Histogram()), RelativeDelay.Running(delayHistory))
    {
      UpdateDelayHistory(iatDelay);
      var relativeDelay := RelativePacketArrivalDelay();
      UpdateIatHistogram(relativeDelay);
    }

    method ResetOnStreamRestart()
      requires Valid()
      modifies this, iatHistogram, gapBuckets
      ensures Valid()
      ensures State() == Values.AfterRestart(old(State()))
    {
      lastIngestSeq := None;
      delayHistory := [];
      ResetHistogramToSeed();
      ResetGapWindow();
      DelayHistogram.SeedIsWellFormed();
    }

    method ResetOnConfigChange()
      requires Valid()
      modifies this, iatHistogram, gapBuckets
      ensures Valid()
      ensures State() == Values.AfterConfigChange(old(State()))
    {
      delayHistory := [];
      ResetHistogramToSeed();
      ResetGapWindow();
      DelayHistogram.SeedIsWellFormed();
    }
  }
}
