/**
 The sliding window of delivery gaps: one maximum per second over 24 seconds, rotated by the
 arrivals themselves, and read as the largest gap weighted down by its age.

 A `Window` lists the per-second maxima by age, the accumulating one first.
 */
module GapWindow {
  import opened Wrappers

  const BUCKETS: nat := 24
  const FRESH: nat := 8
  const SECOND: nat := 1000000000
  const CLAMP: real := 120.0

  datatype Window = Window(ages: seq<real>, start: Option<nat>)

  function EmptyWindow(): (w: Window)
    ensures |w.ages| == BUCKETS
  {
    Window(seq(BUCKETS, _ => 0.0), None)
  }

  function Clamped(frames: real): real {
    if frames < 0.0 then 0.0 else if frames > CLAMP then CLAMP else frames
  }

  // Whole seconds since the current bucket opened; none when the clock stepped back.
  function ElapsedSeconds(start: nat, at: nat): nat {
    if at < start then 0 else (at - start) / SECOND
  }

  /** Every maximum gets `steps` seconds older; the oldest fall out and fresh zeros come in. */
  function Aged(ages: seq<real>, steps: nat): (aged: seq<real>)
    requires |ages| == BUCKETS
    ensures |aged| == BUCKETS
  {
    seq(BUCKETS, a requires 0 <= a < BUCKETS => if a < steps then 0.0 else ages[a - steps])
  }

  function Raised(ages: seq<real>, gap: real): (raised: seq<real>)
    requires |ages| == BUCKETS
    ensures |raised| == BUCKETS
  {
    ages[0 := MaxReal(ages[0], gap)]
  }

  function Elapsed(w: Window, at: nat): nat {
    if w.start.Some? then ElapsedSeconds(w.start.value, at) else 0
  }

  function Record(w: Window, frames: real, at: nat): (recorded: Window)
    requires |w.ages| == BUCKETS
    ensures |recorded.ages| == BUCKETS
  {
    Window(Raised(Aged(w.ages, Elapsed(w, at)), Clamped(frames)),
           Some(if w.start.Some? then w.start.value + Elapsed(w, at) * SECOND else at))
  }

  /** What a gap counts for at an age: its full value while fresh, 0.85 of it per second after. */
  function Weighted(age: nat, gap: real): real {
    if age <= FRESH then gap else 0.85 * Weighted(age - 1, gap)
  }

  lemma {:induction false} WeightedIsMonotone(age: nat, x: real, y: real)
    ensures x <= y ==> Weighted(age, x) <= Weighted(age, y)
    ensures x > 0.0 <==> Weighted(age, x) > 0.0
    ensures x == 0.0 <==> Weighted(age, x) == 0.0
  {
    if age > FRESH {
      WeightedIsMonotone(age - 1, x, y);
    }
  }

  function Power(base: nat, n: nat): nat {
    if n == 0 then 1 else base * Power(base, n - 1)
  }

  /** What a gap of some frames is worth, exactly: a negative one nothing, one of more than 120 frames as much as
      120; all of it up to an age of eight seconds, and seventeen twentieths of it for each second more. */
  ghost predicate Worth(age: nat, frames: real, worth: real) {
    var counted := if frames < 0.0 then 0.0 else if frames > 120.0 then 120.0 else frames;
    if age <= 8 then worth == counted
    else Power(20, age - 8) as real * worth == Power(17, age - 8) as real * counted
  }

  lemma {:induction false} PowerPositive(base: nat, n: nat)
    requires base > 0
    ensures Power(base, n) > 0
  {
    if n > 0 {
      PowerPositive(base, n - 1);
    }
  }

  /** The weight of a gap, in closed form. */
  lemma {:induction false} WeightIsWorth(age: nat, frames: real)
    ensures Worth(age, frames, Weighted(age, Clamped(frames)))
  {
    if age > 8 {
      WeightIsWorth(age - 1, frames);
      var p, q := Power(20, age - 9), Power(17, age - 9);
      assert Power(20, age - 8) == 20 * p && Power(17, age - 8) == 17 * q;
      if age == 9 {
        assert p == 1 && q == 1;
      }
      OneSecondMore(p, q, Weighted(age - 1, Clamped(frames)), Clamped(frames));
    }
  }

  lemma OneSecondMore(p: nat, q: nat, weight: real, gap: real)
    requires p as real * weight == q as real * gap
    ensures (20 * p) as real * (0.85 * weight) == (17 * q) as real * gap
  {
    assert (20 * p) as real == 20.0 * p as real && (17 * q) as real == 17.0 * q as real;
    assert (20.0 * p as real) * (0.85 * weight) == 17.0 * (p as real * weight);
  }

  /** What a gap is worth is a single number. */
  lemma WorthIsUnique(age: nat, frames: real, a: real, b: real)
    requires Worth(age, frames, a) && Worth(age, frames, b)
    ensures a == b
  {
    if age > 8 {
      PowerPositive(20, age - 8);
      Cancel(Power(20, age - 8) as real, a, b);
    }
  }

  lemma Cancel(p: real, a: real, b: real)
    requires p > 0.0 && p * a == p * b
    ensures a == b
  {
    assert p * (a - b) == 0.0;
  }

  /** The weighted peak of a window and the youngest age that attains it; (0, 0) when no gap is
      left in it. */
  ghost predicate IsPeak(ages: seq<real>, peak: real, age: nat)
    requires |ages| == BUCKETS
  {
    && age < BUCKETS
    && (forall a :: 0 <= a < BUCKETS ==> Weighted(a, ages[a]) <= peak)
    && (forall a :: 0 <= a < age ==> Weighted(a, ages[a]) < peak)
    && peak == Weighted(age, ages[age])
  }

  // ----- the log the window stands for -----

  datatype Gap = Gap(frames: real, at: nat)

  ghost predicate TimeOrdered(log: seq<Gap>) {
    forall i, j :: 0 <= i < j < |log| ==> log[i].at <= log[j].at
  }

  function WindowAfter(log: seq<Gap>): (w: Window)
    ensures |w.ages| == BUCKETS
  {
    if log == [] then EmptyWindow()
    else Record(WindowAfter(log[..|log| - 1]), log[|log| - 1].frames, log[|log| - 1].at)
  }

  // The second a record falls into, counted from the first arrival.
  function Second(log: seq<Gap>, i: nat): nat
    requires TimeOrdered(log) && i < |log|
  {
    (log[i].at - log[0].at) / 1000000000
  }

  function Current(log: seq<Gap>): nat
    requires TimeOrdered(log) && log != []
  {
    Second(log, |log| - 1)
  }

  // The largest clamped gap recorded in one second, 0 when there is none.
  function SecondMax(log: seq<Gap>, n: nat, second: int): real
    requires TimeOrdered(log) && n <= |log|
  {
    if n == 0 then 0.0
    else
      MaxReal(SecondMax(log, n - 1, second),
              if Second(log, n - 1) == second then Clamped(log[n - 1].frames) else 0.0)
  }

  lemma SecondsAreOrdered(log: seq<Gap>, i: nat, j: nat)
    requires TimeOrdered(log) && i <= j < |log|
    ensures Second(log, i) <= Second(log, j)
  {
  }

  lemma {:induction false} SecondMaxFacts(log: seq<Gap>, n: nat, second: int)
    requires TimeOrdered(log) && n <= |log|
    ensures forall i :: 0 <= i < n && Second(log, i) == second ==> Clamped(log[i].frames) <= SecondMax(log, n, second)
    ensures SecondMax(log, n, second) >= 0.0
    ensures SecondMax(log, n, second) > 0.0 ==>
              exists i :: 0 <= i < n && Second(log, i) == second && Clamped(log[i].frames) == SecondMax(log, n, second)
  {
    if n > 0 {
      SecondMaxFacts(log, n - 1, second);
    }
  }

  lemma {:induction false} SecondMaxOfFront(log: seq<Gap>, n: nat, second: int)
    requires TimeOrdered(log) && n < |log|
    ensures SecondMax(log[..|log| - 1], n, second) == SecondMax(log, n, second)
  {
    if n > 0 {
      SecondMaxOfFront(log, n - 1, second);
    }
  }

  /** The maximum of age `a` is the largest clamped gap of the second `a` before the current one. */
  ghost predicate Refines(w: Window, log: seq<Gap>)
    requires |w.ages| == BUCKETS && TimeOrdered(log) && log != []
  {
    && w.start == Some(log[0].at + Current(log) * 1000000000)
    && forall a :: 0 <= a < 24 ==> w.ages[a] == SecondMax(log, |log|, Current(log) - a)
  }

  // Turning the window to the second of the next record.
  lemma AgedAt(w: Window, log: seq<Gap>, a: nat)
    requires |w.ages| == BUCKETS && TimeOrdered(log) && |log| > 1 && Refines(w, log[..|log| - 1])
    requires a < BUCKETS
    ensures var elapsed := Elapsed(w, log[|log| - 1].at);
            && elapsed == Current(log) - Current(log[..|log| - 1])
            && Aged(w.ages, elapsed)[a] == SecondMax(log, |log| - 1, Current(log) - a)
  {
    var n := |log| - 1;
    SecondsAreOrdered(log, n - 1, n);
    SecondMaxOfFront(log, n, Current(log) - a);
    if a < Current(log) - Current(log[..n]) {
      SecondMaxFacts(log, n, Current(log) - a);
      forall i | 0 <= i < n
        ensures Second(log, i) != Current(log) - a
      {
        SecondsAreOrdered(log, i, n - 1);
      }
    }
  }

  lemma RecordRefines(w: Window, log: seq<Gap>)
    requires |w.ages| == BUCKETS && TimeOrdered(log) && |log| > 1 && Refines(w, log[..|log| - 1])
    ensures Refines(Record(w, log[|log| - 1].frames, log[|log| - 1].at), log)
  {
    var g := log[|log| - 1];
    forall a | 0 <= a < BUCKETS
      ensures Record(w, g.frames, g.at).ages[a] == SecondMax(log, |log|, Current(log) - a)
    {
      AgedAt(w, log, a);
      SecondMaxFacts(log, |log| - 1, Current(log) - a);
    }
    AgedAt(w, log, 0);
  }

  /** After any run of records at non-decreasing times the window is that of the log; seconds
      without arrivals, and whole silences of 24 seconds or more, read as zero. */
  lemma {:induction false} WindowRefinesLog(log: seq<Gap>)
    requires TimeOrdered(log) && log != []
    ensures Refines(WindowAfter(log), log)
  {
    if |log| == 1 {
      assert log[..0] == [];
      forall a | 0 <= a < BUCKETS
        ensures WindowAfter(log).ages[a] == SecondMax(log, 1, 0 - a)
      {
        assert SecondMax(log, 0, 0 - a) == 0.0;
      }
    } else {
      WindowRefinesLog(log[..|log| - 1]);
      RecordRefines(WindowAfter(log[..|log| - 1]), log);
    }
  }

  lemma AgeHolds(log: seq<Gap>, a: nat)
    requires TimeOrdered(log) && log != [] && a < BUCKETS
    ensures var held := WindowAfter(log).ages[a];
            && held >= 0.0
            && (held > 0.0 ==> exists i :: 0 <= i < |log| && Second(log, i) == Current(log) - a
                                           && Clamped(log[i].frames) == held)
  {
    WindowRefinesLog(log);
    var second := Current(log) - a;
    assert WindowAfter(log).ages[a] == SecondMax(log, |log|, second);
    SecondMaxFacts(log, |log|, second);
  }

  lemma RecentGapIsHeld(log: seq<Gap>, i: nat)
    requires TimeOrdered(log) && i < |log| && Current(log) - Second(log, i) < BUCKETS
    ensures var a := Current(log) - Second(log, i);
            0 <= a && Clamped(log[i].frames) <= WindowAfter(log).ages[a]
  {
    WindowRefinesLog(log);
    SecondsAreOrdered(log, i, |log| - 1);
    SecondMaxFacts(log, |log|, Second(log, i));
  }

  /** The peak of the window, said about the recorded gaps themselves: every gap of the last 24 seconds is worth
      at most the peak, and less than the peak when it is younger than the reported age. */
  lemma PeakBoundsRecentGaps(log: seq<Gap>, peak: real, age: nat, i: nat, worth: real)
    requires TimeOrdered(log) && i < |log| && Current(log) - Second(log, i) < 24
    requires IsPeak(WindowAfter(log).ages, peak, age)
    requires Current(log) >= Second(log, i) ==> Worth(Current(log) - Second(log, i), log[i].frames, worth)
    ensures Current(log) >= Second(log, i) && worth <= peak
    ensures Current(log) - Second(log, i) < age ==> worth < peak
  {
    RecentGapIsHeld(log, i);
    var a := Current(log) - Second(log, i);
    WeightedIsMonotone(a, Clamped(log[i].frames), WindowAfter(log).ages[a]);
    WeightIsWorth(a, log[i].frames);
    WorthIsUnique(a, log[i].frames, worth, Weighted(a, Clamped(log[i].frames)));
  }

  /** Some gap of exactly the reported age is worth a positive peak; the peak of a window without gaps is zero at
      age zero. */
  lemma PeakIsAttained(log: seq<Gap>, peak: real, age: nat)
    requires TimeOrdered(log) && log != []
    requires IsPeak(WindowAfter(log).ages, peak, age)
    ensures peak >= 0.0
    ensures peak > 0.0 ==>
              exists i :: 0 <= i < |log| && Second(log, i) == Current(log) - age && Worth(age, log[i].frames, peak)
    ensures peak == 0.0 ==> age == 0
  {
    var ages := WindowAfter(log).ages;
    AgeHolds(log, age);
    AgeHolds(log, 0);
    WeightedIsMonotone(age, ages[age], 0.0);
    assert age > 0 ==> Weighted(0, ages[0]) < peak;
    if peak > 0.0 {
      var i :| 0 <= i < |log| && Second(log, i) == Current(log) - age && Clamped(log[i].frames) == ages[age];
      WeightIsWorth(age, log[i].frames);
    }
  }

  /** A single gap among silences that are none makes the peak alone, at any age within the window: exactly what
      it is worth at that age, reported at that age. */
  lemma LoneGapIsThePeak(log: seq<Gap>, peak: real, age: nat, k: nat)
    requires TimeOrdered(log) && k < |log| && 0 <= Current(log) - Second(log, k) < 24
    requires IsPeak(WindowAfter(log).ages, peak, age)
    requires log[k].frames > 0.0 && forall i :: 0 <= i < |log| && i != k ==> log[i].frames <= 0.0
    ensures age == Current(log) - Second(log, k) && Worth(age, log[k].frames, peak)
  {
    var a := Current(log) - Second(log, k);
    var worth := PositiveWorth(a, log[k].frames);
    PeakBoundsRecentGaps(log, peak, age, k, worth);
    PeakIsAttained(log, peak, age);
    var i :| 0 <= i < |log| && Second(log, i) == Current(log) - age && Worth(age, log[i].frames, peak);
    if i != k {
      NothingIsWorthNothing(age, log[i].frames, peak);
    }
  }

  lemma PositiveWorth(age: nat, frames: real) returns (worth: real)
    requires frames > 0.0
    ensures Worth(age, frames, worth) && worth > 0.0
  {
    worth := Weighted(age, Clamped(frames));
    WeightIsWorth(age, frames);
    WeightedIsMonotone(age, Clamped(frames), 0.0);
  }

  lemma NothingIsWorthNothing(age: nat, frames: real, worth: real)
    requires frames <= 0.0 && Worth(age, frames, worth)
    ensures worth == 0.0
  {
    if age > 8 {
      PowerPositive(20, age - 8);
      Cancel(Power(20, age - 8) as real, worth, 0.0);
    }
  }

  /** A gap that has left the window has no influence, whatever its size was. */
  lemma OldGapsDoNotMatter(log: seq<Gap>, k: nat, frames: real)
    requires TimeOrdered(log) && k < |log| && Current(log) - Second(log, k) >= 24
    ensures WindowAfter(log[k := Gap(frames, log[k].at)]) == WindowAfter(log)
  {
    var other := log[k := Gap(frames, log[k].at)];
    OtherSecond(log, k, frames, 0, Current(log));
    WindowRefinesLog(log);
    WindowRefinesLog(other);
    forall second: int | second > Current(log) - BUCKETS
      ensures SecondMax(other, |log|, second) == SecondMax(log, |log|, second)
    {
      OtherSecond(log, k, frames, |log|, second);
    }
    SameWindow(WindowAfter(log), WindowAfter(other), log, other);
  }

  lemma SameWindow(v: Window, w: Window, log: seq<Gap>, other: seq<Gap>)
    requires |v.ages| == |w.ages| == BUCKETS && TimeOrdered(log) && TimeOrdered(other) && |log| == |other| > 0
    requires Refines(v, log) && Refines(w, other)
    requires Current(log) == Current(other) && log[0].at == other[0].at
    requires forall second: int :: second > Current(log) - BUCKETS ==>
               SecondMax(other, |log|, second) == SecondMax(log, |log|, second)
    ensures v == w
  {
    forall a | 0 <= a < BUCKETS
      ensures v.ages[a] == w.ages[a]
    {
      assert SecondMax(other, |log|, Current(log) - a) == SecondMax(log, |log|, Current(log) - a);
    }
    assert v.ages == w.ages;
  }

  lemma {:induction false} OtherSecond(log: seq<Gap>, k: nat, frames: real, n: nat, second: int)
    requires TimeOrdered(log) && k < |log| && n <= |log| && Second(log, k) != second
    ensures var other := log[k := Gap(frames, log[k].at)];
            TimeOrdered(other) && SecondMax(other, n, second) == SecondMax(log, n, second)
  {
    if n > 0 {
      OtherSecond(log, k, frames, n - 1, second);
    }
  }
}
