/**
 The capture resampler's buffer management. The conversion kernel is foreign: all that is assumed
 of it is that each call consumes one chunk and either fails or writes whole frames, no more than it
 announced just before.
 */
module CaptureResampling {
  import opened Wrappers
  import opened Chunking

  // 640 ms of 48 kHz stereo, the capacity of the capture ring.
  const MAX_INPUT: nat := 61440

  // What the kernel does with one chunk: the samples it writes, or an error.
  datatype KernelResult = Produced(out: seq<Sample>) | Failed

  // One kernel call, and the most frames it was announced to write.
  datatype KernelStep = KernelStep(framesNext: nat, result: KernelResult)

  // The chunk and the output announced by a kernel as it is constructed.
  datatype KernelShape = KernelShape(framesNeeded: nat, framesNext: nat)

  function CeilDiv(a: nat, b: nat): nat
    requires b > 0
  {
    (a + b - 1) / b
  }

  // The output of the first `n` kernel calls, put end to end.
  function Outputs(kernel: seq<KernelStep>, n: nat): seq<Sample>
    requires n <= |kernel|
  {
    if n == 0 then []
    else Outputs(kernel, n - 1) + if kernel[n - 1].result.Produced? then kernel[n - 1].result.out else []
  }

  // How many frames that is.
  function FramesWritten(kernel: seq<KernelStep>, n: nat, channels: nat): nat
    requires channels > 0 && n <= |kernel|
  {
    if n == 0 then 0
    else
      FramesWritten(kernel, n - 1, channels)
      + if kernel[n - 1].result.Produced? then |kernel[n - 1].result.out| / channels else 0
  }

  predicate KeepsItsWord(kernel: seq<KernelStep>, channels: nat)
    requires channels > 0
  {
    forall k :: k in kernel && k.result.Produced? ==>
                  |k.result.out| % channels == 0 && |k.result.out| <= k.framesNext * channels
  }

  // Every one of the first `n` kernel calls finds room for what it announced behind what came before.
  ghost predicate Fits(kernel: seq<KernelStep>, n: nat, capacity: nat, channels: nat)
    requires channels > 0 && n <= |kernel|
  {
    forall i :: 0 <= i < n ==> FramesWritten(kernel, i, channels) + kernel[i].framesNext <= capacity
  }

  // Frames for one call of the largest input at the ratio of the rates, and one more chunk of output.
  function Capacity(fromRate: nat, toRate: nat, channels: nat, framesNext: nat): nat
    requires fromRate > 0 && channels > 0
  {
    CeilDiv(CeilDiv(MAX_INPUT, channels) * toRate, fromRate) + framesNext
  }

  /** The capacity is the least that suffices: the frames of 61,440 samples, rounded up, converted by the ratio of
      the rates, rounded up, and one more chunk of output. */
  lemma CapacityIsLeast(fromRate: nat, toRate: nat, channels: nat, framesNext: nat)
    requires fromRate > 0 && channels > 0
    ensures var frames := CeilDiv(MAX_INPUT, channels);
            var converted := Capacity(fromRate, toRate, channels, framesNext) - framesNext;
            && 61440 <= frames * channels < 61440 + channels
            && frames * toRate <= converted * fromRate < frames * toRate + fromRate
  {
    CeilDivIs(MAX_INPUT, channels);
    CeilDivIs(CeilDiv(MAX_INPUT, channels) * toRate, fromRate);
  }

  // The frames the output buffer holds after some kernel calls: for each that found too little room behind what
  // came before, it grew by eight times what the call announced.
  function Grown(kernel: seq<KernelStep>, n: nat, capacity: nat, channels: nat): (grown: nat)
    requires channels > 0 && n <= |kernel|
    ensures grown >= capacity
  {
    if n == 0 then capacity
    else
      var before := Grown(kernel, n - 1, capacity, channels);
      if FramesWritten(kernel, n - 1, channels) + kernel[n - 1].framesNext <= before then before
      else before + 8 * kernel[n - 1].framesNext
  }

  lemma GrowsBy(kernel: seq<KernelStep>, n: nat, capacity: nat, channels: nat)
    requires channels > 0 && n < |kernel|
    ensures var before := Grown(kernel, n, capacity, channels);
            Grown(kernel, n + 1, capacity, channels)
            == before + if FramesWritten(kernel, n, channels) + kernel[n].framesNext <= before then 0
                        else 8 * kernel[n].framesNext
  {
  }

  // What was written always lies within it.
  lemma {:induction false} WrittenIsWithin(kernel: seq<KernelStep>, n: nat, capacity: nat, channels: nat)
    requires channels > 0 && n <= |kernel| && KeepsItsWord(kernel, channels)
    ensures FramesWritten(kernel, n, channels) <= Grown(kernel, n, capacity, channels)
  {
    if n > 0 {
      WrittenIsWithin(kernel, n - 1, capacity, channels);
      var step := kernel[n - 1];
      assert step in kernel;
      if step.result.Produced? {
        FramesFit(|step.result.out|, channels, step.framesNext);
      }
    }
  }

  /** It grew at all if and only if some call did not find room in what there was at first. */
  lemma {:induction false} GrownExactly(kernel: seq<KernelStep>, n: nat, capacity: nat, channels: nat)
    requires channels > 0 && n <= |kernel| && KeepsItsWord(kernel, channels)
    ensures Grown(kernel, n, capacity, channels) == capacity <==> Fits(kernel, n, capacity, channels)
  {
    if n > 0 {
      GrownExactly(kernel, n - 1, capacity, channels);
      WrittenIsWithin(kernel, n - 1, capacity, channels);
    }
  }

  // One more kernel call.
  lemma StepOn(kernel: seq<KernelStep>, i: nat, channels: nat)
    requires channels > 0 && i < |kernel| && KeepsItsWord(kernel, channels)
    ensures KeepsItsWord([kernel[i]], channels)
    ensures kernel[i].result.Produced? ==>
              && Outputs(kernel, i + 1) == Outputs(kernel, i) + kernel[i].result.out
              && FramesWritten(kernel, i + 1, channels)
                 == FramesWritten(kernel, i, channels) + |kernel[i].result.out| / channels
  {
    assert kernel[i] in kernel;
  }

  class CaptureResampler {
    const channels: nat
    const framesNeeded: nat
    var outputBuf: seq<Sample>
    var outputCapacityFrames: nat
    var remainder: seq<Sample>

    ghost predicate Valid()
      reads this
    {
      && channels > 0 && framesNeeded > 0
      && |outputBuf| == outputCapacityFrames * channels
    }

    function Chunk(): (size: nat)
      requires channels > 0 && framesNeeded > 0
      ensures size > 0
    {
      Positive(framesNeeded, channels);
      framesNeeded * channels
    }

    /** A zero channel count, a kernel that cannot be constructed (at a zero rate, for one) and degenerate
        chunk sizes are refused; otherwise the output buffer is sized for one call of the largest
        input. */
    static method New(fromRate: nat, toRate: nat, channels: nat, kernel: Option<KernelShape>)
      returns (r: Option<CaptureResampler>)
      ensures r.Some? <==> && channels > 0 && fromRate > 0 && kernel.Some?
                           && kernel.value.framesNeeded > 0 && kernel.value.framesNext > 0
      ensures r.Some? ==>
                && fresh(r.value) && r.value.Valid() && r.value.remainder == []
                && r.value.channels == channels && r.value.framesNeeded == kernel.value.framesNeeded
                && r.value.outputCapacityFrames == Capacity(fromRate, toRate, channels, kernel.value.framesNext)
    {
      if channels == 0 || fromRate == 0 || kernel.None? {
        return None;
      }
      if kernel.value.framesNeeded == 0 || kernel.value.framesNext == 0 {
        return None;
      }
      var maxInputFrames := CeilDiv(MAX_INPUT, channels);
      var maxOutputFrames := CeilDiv(maxInputFrames * toRate, fromRate) + kernel.value.framesNext;
      var resampler := new CaptureResampler(channels, kernel.value.framesNeeded, maxOutputFrames);
      r := Some(resampler);
    }

    constructor (channels: nat, framesNeeded: nat, capacity: nat)
      requires channels > 0 && framesNeeded > 0
      ensures Valid() && remainder == []
      ensures this.channels == channels && this.framesNeeded == framesNeeded && outputCapacityFrames == capacity
    {
      this.channels, this.framesNeeded := channels, framesNeeded;
      outputCapacityFrames := capacity;
      outputBuf := seq(capacity * channels, _ => 0.0);
      remainder := [];
    }

    method Reset()
      requires Valid()
      modifies `remainder
      ensures Valid() && remainder == []
    {
      remainder := [];
    }

    /** Accept any number of samples, convert every whole chunk, keep what is left.
        Without a kernel failure the chunks handed on are the blocks of the old remainder followed by
        the input, as many as the cap allows, the new remainder is what is left after all of them,
        and the output is that of the kernel, in order. A failure hands on the blocks before it and
        leaves everything else in the remainder. The output buffer grows by eight times what a call of the
        kernel announced, for each that did not find room for it. */
    method ProcessInterleaved(input: seq<Sample>, kernel: seq<KernelStep>)
      returns (output: Option<seq<Sample>>, handed: seq<seq<Sample>>)
      requires Valid()
      requires |kernel| >= |Blocks(remainder + input, Chunk())| && KeepsItsWord(kernel, channels)
      modifies this
      ensures Valid()
      ensures var blocks := Blocks(old(remainder) + input, Chunk());
              && handed <= blocks
              && |handed| <= Min(|blocks|, IterationCap())
              && (output.Some? ==>
                    && |handed| == Min(|blocks|, IterationCap())
                    && remainder == Rest(old(remainder) + input, Chunk())
                    && output.value == Outputs(kernel, |handed|))
              && (output.None? ==>
                    && |handed| < |blocks| && kernel[|handed|].result.Failed?
                    && Flatten(handed) + remainder == old(remainder) + input)
      ensures var called := |handed| + if output.None? then 1 else 0;
              outputCapacityFrames == Grown(kernel, called, old(outputCapacityFrames), channels)
    {
      remainder := remainder + input;
      ghost var all := remainder;
      var chunk := Chunk();
      var total := 0;
      var iterations := 0;
      var maxIterations := IterationCap();
      handed := [];
      while |remainder| >= chunk
        invariant Valid()
        invariant 0 <= iterations == |handed| <= maxIterations
        invariant HandedOn(all, chunk, handed, remainder)
        invariant 0 <= total <= |outputBuf| && outputBuf[..total] == Outputs(kernel, iterations)
        invariant total % channels == 0 && total / channels == FramesWritten(kernel, iterations, channels)
        invariant outputCapacityFrames == Grown(kernel, iterations, old(outputCapacityFrames), channels)
        decreases |remainder|
      {
        if iterations + 1 > maxIterations {
          var keep := |remainder| % chunk;
          RestIsSuffix(remainder, chunk);
          remainder := remainder[|remainder| - keep..];
          break;
        }
        HandOn(all, chunk, handed, remainder);
        StepOn(kernel, iterations, channels);
        GrowsBy(kernel, iterations, old(outputCapacityFrames), channels);
        var written := ConvertChunk(kernel[iterations], total);
        if written.None? {
          return None, handed;
        }
        total := written.value;
        iterations := iterations + 1;
        handed := handed + [remainder[..chunk]];
        remainder := remainder[chunk..];
      }
      output := Some(outputBuf[..total]);
    }

    // One kernel call, after making room for what it announced; none when it fails.
    method ConvertChunk(step: KernelStep, total: nat) returns (written: Option<nat>)
      requires Valid() && total % channels == 0 && total <= |outputBuf| && KeepsItsWord([step], channels)
      modifies `outputBuf, `outputCapacityFrames
      ensures Valid()
      ensures outputCapacityFrames
              == old(outputCapacityFrames)
                 + if total / channels + step.framesNext <= old(outputCapacityFrames) then 0 else 8 * step.framesNext
      ensures written.None? <==> step.result.Failed?
      ensures written.Some? ==>
                && written.value == total + |step.result.out| <= |outputBuf|
                && outputBuf[..written.value] == old(outputBuf)[..total] + step.result.out
                && written.value % channels == 0
                && written.value / channels == total / channels + |step.result.out| / channels
    {
      EnsureRoom(total, step.framesNext);
      assert step in [step];
      if step.result.Failed? {
        return None;
      }
      WriteOutput(total, step.result.out, step.framesNext);
      WholeFrames(total, |step.result.out|, channels);
      return Some(total + |step.result.out|);
    }

    // The kernel writes behind what is already there.
    method WriteOutput(total: nat, out: seq<Sample>, ghost framesNext: nat)
      requires Valid() && total % channels == 0 && total <= |outputBuf|
      requires total / channels + framesNext <= outputCapacityFrames
      requires |out| <= framesNext * channels
      modifies `outputBuf
      ensures Valid() && total + |out| <= |outputBuf|
      ensures outputBuf[..total + |out|] == old(outputBuf)[..total] + out
    {
      RoomForChunk(total, |out|, outputCapacityFrames, framesNext, channels);
      outputBuf := outputBuf[..total] + out + outputBuf[total + |out|..];
    }

    // The safety net: grow the output buffer when the next chunk might not fit.
    method EnsureRoom(total: nat, framesNext: nat)
      requires Valid() && total % channels == 0 && total <= |outputBuf|
      modifies `outputBuf, `outputCapacityFrames
      ensures Valid()
      ensures |outputBuf| >= |old(outputBuf)| && outputBuf[..total] == old(outputBuf)[..total]
      ensures total / channels + framesNext <= outputCapacityFrames
      ensures outputCapacityFrames
              == old(outputCapacityFrames)
                 + if total / channels + framesNext <= old(outputCapacityFrames) then 0 else 8 * framesNext
    {
      FramesFit(total, channels, outputCapacityFrames);
      var avail := SaturatingSub(outputCapacityFrames, total / channels);
      if avail < framesNext {
        Grow(framesNext * 8);
      }
    }

    method Grow(more: nat)
      requires Valid()
      modifies `outputBuf, `outputCapacityFrames
      ensures Valid() && outputCapacityFrames == old(outputCapacityFrames) + more
      ensures old(outputBuf) <= outputBuf
    {
      Distributes(outputCapacityFrames, more, channels);
      outputBuf := outputBuf + seq(more * channels, _ => 0.0);
      outputCapacityFrames := outputCapacityFrames + more;
    }

    // Two passes more than the chunks of the largest accepted input, rounded up.
    function IterationCap(): (cap: nat)
      requires channels > 0 && framesNeeded > 0
      ensures cap > 0
    {
      CeilDiv(MAX_INPUT, Chunk()) + 2
    }
  }

  /** Some blocks of a stream were handed on, and the rest of the stream is kept. */
  ghost predicate HandedOn(all: seq<Sample>, chunk: nat, handed: seq<seq<Sample>>, kept: seq<Sample>)
    requires chunk > 0
  {
    && Blocks(all, chunk) == handed + Blocks(kept, chunk)
    && Rest(all, chunk) == Rest(kept, chunk)
    && Flatten(handed) + kept == all
  }

  lemma HandOn(all: seq<Sample>, chunk: nat, handed: seq<seq<Sample>>, kept: seq<Sample>)
    requires chunk > 0 && HandedOn(all, chunk, handed, kept) && |kept| >= chunk
    ensures HandedOn(all, chunk, handed + [kept[..chunk]], kept[chunk..])
    ensures |handed| < |Blocks(all, chunk)|
  {
    FlattenAppend(handed, [kept[..chunk]]);
    assert Flatten([kept[..chunk]]) == kept[..chunk];
    assert kept == kept[..chunk] + kept[chunk..];
  }

  // ----- arithmetic of chunks and frames -----

  lemma Positive(a: nat, b: nat)
    requires a > 0 && b > 0
    ensures a * b > 0
  {
  }

  lemma Distributes(a: int, b: int, d: int)
    ensures (a + b) * d == a * d + b * d
  {
  }

  lemma OneMore(n: nat, d: nat)
    ensures (n + 1) * d == n * d + d
  {
  }

  lemma MoreFrames(a: nat, b: nat, next: nat)
    ensures a <= b ==> a * next <= b * next
  {
  }

  lemma RoomForChunk(total: nat, out: nat, capacity: nat, next: nat, channels: nat)
    requires channels > 0 && total % channels == 0 && out <= next * channels
    requires total / channels + next <= capacity
    ensures total + out <= capacity * channels
  {
    var frames := total / channels;
    assert total == frames * channels;
    Distributes(frames, next, channels);
    MoreFrames(frames + next, capacity, channels);
  }

  lemma WholeFrames(a: nat, b: nat, channels: nat)
    requires channels > 0 && a % channels == 0 && b % channels == 0
    ensures (a + b) % channels == 0 && (a + b) / channels == a / channels + b / channels
  {
    var i, j := a / channels, b / channels;
    assert a == channels * i && b == channels * j;
    Distributes(i, j, channels);
    RemainderIs(a + b, channels, i + j, 0);
  }

  lemma FramesFit(total: nat, channels: nat, capacity: nat)
    requires channels > 0 && total % channels == 0 && total <= capacity * channels
    ensures total / channels <= capacity
  {
    var frames := total / channels;
    assert total == frames * channels;
    MoreFrames(capacity + 1, frames, channels);
    OneMore(capacity, channels);
  }

  lemma CeilDivIs(a: nat, b: nat)
    requires b > 0
    ensures a <= CeilDiv(a, b) * b < a + b
  {
    var q := (a + b - 1) / b;
    assert a + b - 1 == b * q + (a + b - 1) % b;
  }

  // ----- whole runs -----

  // Blocks handed on and what is kept, over a run of calls without failures that begins with `start` kept.
  function Run(start: seq<Sample>, inputs: seq<seq<Sample>>, chunk: nat): (seq<seq<Sample>>, seq<Sample>)
    requires chunk > 0
  {
    if inputs == [] then ([], start)
    else
      var (handed, kept) := Run(start, inputs[..|inputs| - 1], chunk);
      var all := kept + inputs[|inputs| - 1];
      (handed + Blocks(all, chunk), Rest(all, chunk))
  }

  lemma {:induction false} FlattenSnoc(pieces: seq<seq<Sample>>)
    requires pieces != []
    ensures Flatten(pieces) == Flatten(pieces[..|pieces| - 1]) + pieces[|pieces| - 1]
  {
    assert pieces == pieces[..|pieces| - 1] + [pieces[|pieces| - 1]];
    FlattenAppend(pieces[..|pieces| - 1], [pieces[|pieces| - 1]]);
  }

  /** Over any run of calls the kernel sees the blocks of what was kept and the concatenated input,
      however the input was cut into calls, and what is kept is what those blocks leave over. */
  lemma {:induction false} RunIsOneCall(start: seq<Sample>, inputs: seq<seq<Sample>>, chunk: nat)
    requires chunk > 0 && |start| < chunk
    ensures Run(start, inputs, chunk)
            == (Blocks(start + Flatten(inputs), chunk), Rest(start + Flatten(inputs), chunk))
  {
    if inputs == [] {
      assert start + [] == start;
    } else {
      var front, last := inputs[..|inputs| - 1], inputs[|inputs| - 1];
      RunIsOneCall(start, front, chunk);
      FlattenSnoc(inputs);
      assert start + Flatten(inputs) == (start + Flatten(front)) + last;
      CutOn(start + Flatten(front), last, chunk);
    }
  }

  /** Nothing is lost: blocks followed by what is kept are what was kept before and all inputs put end to
      end, and what is kept is always less than a chunk. */
  lemma RunLosesNothing(start: seq<Sample>, inputs: seq<seq<Sample>>, chunk: nat)
    requires chunk > 0 && |start| < chunk
    ensures var (handed, kept) := Run(start, inputs, chunk);
            && Flatten(handed) + kept == start + Flatten(inputs)
            && |kept| < chunk
            && forall b :: b in handed ==> |b| == chunk
  {
    RunIsOneCall(start, inputs, chunk);
    NothingIsLost(start + Flatten(inputs), chunk);
  }

  lemma CapIsTight(r: CaptureResampler)
    requires r.Valid()
    ensures 61440 + r.Chunk() <= (r.IterationCap() - 1) * r.Chunk() < 61440 + 2 * r.Chunk()
  {
    CeilDivIs(MAX_INPUT, r.Chunk());
    OneMore(CeilDiv(MAX_INPUT, r.Chunk()), r.Chunk());
  }

  /** On inputs within the design bound the iteration cap never fires. */
  lemma CapIsNeverReached(kept: seq<Sample>, input: seq<Sample>, chunk: nat)
    requires chunk > 0 && |kept| < chunk && |input| <= 61440
    ensures |Blocks(kept + input, chunk)| < CeilDiv(MAX_INPUT, chunk) + 2
  {
    var n, cap := |Blocks(kept + input, chunk)|, CeilDiv(MAX_INPUT, chunk);
    BlockCount(kept + input, chunk);
    CeilDivIs(MAX_INPUT, chunk);
    MoreFrames(cap + 2, n, chunk);
    Distributes(cap, 2, chunk);
  }

  // ----- the size of the output buffer -----

  /** The kernel answers in step with the rates: what it wrote by any call never exceeds the input it was
      given, converted, except for what it still owed from `lag` frames given before. */
  ghost predicate Paced(kernel: seq<KernelStep>, channels: nat, frames: nat, lag: nat, fromRate: nat, toRate: nat)
    requires channels > 0
  {
    forall n :: 0 <= n <= |kernel| ==>
                  FramesWritten(kernel, n, channels) * fromRate <= (n * frames + lag) * toRate
  }

  /** With `lag` frames owed, all but the last chunk of the largest call are within the largest input. */
  predicate Slack(channels: nat, frames: nat, lag: nat)
    requires channels > 0 && frames * channels > 0
  {
    (CeilDiv(MAX_INPUT, frames * channels) - 1) * frames + lag <= CeilDiv(MAX_INPUT, channels)
  }

  /** So they are for any call, or what is pending on both sides of the kernel, the samples kept back and
      the frames owed, is at most one chunk. */
  predicate LittlePending(kept: nat, channels: nat, frames: nat, lag: nat)
    requires channels > 0 && frames * channels > 0
  {
    kept + lag * channels <= frames * channels || Slack(channels, frames, lag)
  }

  // Before the last chunk of a call the frames given and owed are within the largest input.
  lemma WithinDesign(kept: nat, input: nat, n: nat, channels: nat, frames: nat, lag: nat)
    requires channels > 0 && frames * channels > 0 && n > 0
    requires kept < frames * channels && input <= MAX_INPUT && LittlePending(kept, channels, frames, lag)
    requires n * (frames * channels) <= kept + input
    ensures (n - 1) * frames + lag <= CeilDiv(MAX_INPUT, channels)
  {
    var chunk, m := frames * channels, CeilDiv(MAX_INPUT, channels);
    if Slack(channels, frames, lag) {
      var most := CeilDiv(MAX_INPUT, chunk);
      CeilDivIs(MAX_INPUT, chunk);
      AtMostBlocks(n, most, chunk, kept + input);
      MoreFrames(n - 1, most - 1, frames);
    } else {
      CeilDivIs(MAX_INPUT, channels);
      OneMore(n - 1, chunk);
      assert (n - 1) * chunk + lag * channels <= MAX_INPUT;
      Regroup(n - 1, frames, lag, channels);
      CancelFactor((n - 1) * frames + lag, m, channels);
    }
  }

  lemma AtMostBlocks(n: nat, most: nat, chunk: nat, samples: nat)
    requires chunk > 0 && n * chunk <= samples < most * chunk + chunk
    ensures n <= most
  {
    OneMore(most, chunk);
    if n > most {
      MoreFrames(most + 1, n, chunk);
    }
  }

  lemma Regroup(k: nat, frames: nat, lag: nat, channels: nat)
    ensures (k * frames + lag) * channels == k * (frames * channels) + lag * channels
  {
    assert k * (frames * channels) == (k * frames) * channels;
    Distributes(k * frames, lag, channels);
  }

  lemma CancelFactor(a: nat, b: nat, d: nat)
    requires d > 0 && a * d <= b * d
    ensures a <= b
  {
    MoreFrames(b + 1, a, d);
    OneMore(b, d);
  }

  /** The output buffer sized at construction never grows on inputs within the design bound, whatever the
      ratio of chunk and output sizes: the kernel only has to keep pace with the rates and to announce no
      more than it did at construction. */
  lemma BufferSuffices(kept: seq<Sample>, input: seq<Sample>, kernel: seq<KernelStep>, channels: nat, frames: nat,
                       lag: nat, framesNext: nat, fromRate: nat, toRate: nat)
    requires channels > 0 && fromRate > 0 && frames * channels > 0
    requires |kept| < frames * channels && |input| <= MAX_INPUT
    requires LittlePending(|kept|, channels, frames, lag)
    requires |Blocks(kept + input, frames * channels)| <= |kernel|
    requires Paced(kernel, channels, frames, lag, fromRate, toRate)
    requires forall k :: k in kernel ==> k.framesNext <= framesNext
    ensures Fits(kernel, |Blocks(kept + input, frames * channels)|,
                 Capacity(fromRate, toRate, channels, framesNext), channels)
  {
    var chunk := frames * channels;
    var n := |Blocks(kept + input, chunk)|;
    BlockCount(kept + input, chunk);
    if n > 0 {
      WithinDesign(|kept|, |input|, n, channels, frames, lag);
      forall i | 0 <= i < n
        ensures FramesWritten(kernel, i, channels) + kernel[i].framesNext
                <= Capacity(fromRate, toRate, channels, framesNext)
      {
        assert kernel[i] in kernel;
        RoomAt(FramesWritten(kernel, i, channels), kernel[i].framesNext, i, n - 1, CeilDiv(MAX_INPUT, channels), frames,
               lag, framesNext, fromRate, toRate);
      }
    }
  }

  lemma RoomAt(written: nat, announced: nat, i: nat, last: nat, m: nat, frames: nat, lag: nat, framesNext: nat,
               fromRate: nat, toRate: nat)
    requires fromRate > 0 && i <= last && announced <= framesNext && last * frames + lag <= m
    requires written * fromRate <= (i * frames + lag) * toRate
    ensures written + announced <= CeilDiv(m * toRate, fromRate) + framesNext
  {
    WrittenSoFar(written, i, last, frames, lag, m, fromRate, toRate);
  }

  lemma WrittenSoFar(written: nat, i: nat, last: nat, frames: nat, lag: nat, m: nat, fromRate: nat, toRate: nat)
    requires fromRate > 0 && i <= last && last * frames + lag <= m
    requires written * fromRate <= (i * frames + lag) * toRate
    ensures written <= CeilDiv(m * toRate, fromRate)
  {
    MoreFrames(i, last, frames);
    MoreFrames(i * frames + lag, m, toRate);
    CeilDivIs(m * toRate, fromRate);
    CancelFactor(written, CeilDiv(m * toRate, fromRate), fromRate);
  }

  // ----- many calls -----

  /** The kernel over its whole life: it never runs ahead of its input, and never owes more than `owed`
      frames of it. */
  ghost predicate InStep(kernel: seq<KernelStep>, channels: nat, frames: nat, owed: nat, fromRate: nat, toRate: nat)
    requires channels > 0
  {
    && Paced(kernel, channels, frames, 0, fromRate, toRate)
    && forall n :: 0 <= n <= |kernel| ==>
                     n * frames * toRate <= FramesWritten(kernel, n, channels) * fromRate + owed * toRate
  }

  predicate NeverFails(kernel: seq<KernelStep>) {
    forall k :: k in kernel ==> k.result.Produced?
  }

  lemma {:induction false} OutputsSplit(kernel: seq<KernelStep>, a: nat, b: nat)
    requires a + b <= |kernel|
    ensures Outputs(kernel, a + b) == Outputs(kernel, a) + Outputs(kernel[a..], b)
  {
    if b == 0 {
      assert Outputs(kernel, a) + [] == Outputs(kernel, a);
    } else {
      OutputsSplit(kernel, a, b - 1);
      assert kernel[a..][b - 1] == kernel[a + b - 1];
    }
  }

  lemma {:induction false} FramesSplit(kernel: seq<KernelStep>, a: nat, b: nat, channels: nat)
    requires channels > 0 && a + b <= |kernel|
    ensures FramesWritten(kernel, a + b, channels)
            == FramesWritten(kernel, a, channels) + FramesWritten(kernel[a..], b, channels)
  {
    if b > 0 {
      FramesSplit(kernel, a, b - 1, channels);
      assert kernel[a..][b - 1] == kernel[a + b - 1];
    }
  }

  /** From any call on, a kernel in step with its input is paced, owing no more than ever. */
  lemma PacedFromHere(kernel: seq<KernelStep>, a: nat, channels: nat, frames: nat, owed: nat, fromRate: nat,
                      toRate: nat)
    requires channels > 0 && a <= |kernel| && InStep(kernel, channels, frames, owed, fromRate, toRate)
    ensures Paced(kernel[a..], channels, frames, owed, fromRate, toRate)
  {
    forall n | 0 <= n <= |kernel[a..]|
      ensures FramesWritten(kernel[a..], n, channels) * fromRate <= (n * frames + owed) * toRate
    {
      FramesSplit(kernel, a, n, channels);
      Distributes(FramesWritten(kernel, a, channels), FramesWritten(kernel[a..], n, channels), fromRate);
      InputSplit(a, n, frames, owed, toRate);
    }
  }

  // The input of `a` chunks and `n` more, in output frames.
  lemma InputSplit(a: nat, n: nat, frames: nat, owed: nat, toRate: nat)
    ensures ((a + n) * frames + 0) * toRate + owed * toRate == a * frames * toRate + (n * frames + owed) * toRate
  {
    Distributes(a, n, frames);
    Distributes(a * frames, n * frames, toRate);
    Distributes(n * frames, owed, toRate);
  }

  // The next call of a run, and the kernel calls it needs.
  lemma NextCall(start: seq<Sample>, inputs: seq<seq<Sample>>, i: nat, chunk: nat)
    requires chunk > 0 && |start| < chunk && i < |inputs|
    ensures var (handed, kept) := Run(start, inputs[..i], chunk);
            && |kept| < chunk
            && Run(start, inputs[..i + 1], chunk)
               == (handed + Blocks(kept + inputs[i], chunk), Rest(kept + inputs[i], chunk))
            && |handed| + |Blocks(kept + inputs[i], chunk)| <= |Blocks(start + Flatten(inputs), chunk)|
  {
    assert inputs[..i + 1][..i] == inputs[..i];
    RunIsOneCall(start, inputs[..i], chunk);
    RunIsOneCall(start, inputs[..i + 1], chunk);
    var before, after := inputs[..i + 1], inputs[i + 1..];
    assert inputs == before + after;
    FlattenAppend(before, after);
    assert start + Flatten(inputs) == (start + Flatten(before)) + Flatten(after);
    CutOn(start + Flatten(before), Flatten(after), chunk);
  }

  /** What the construction of the resampler counts on: a kernel in step with the rates that never
      announces more than it did then, nor owes more than the largest call leaves room for. */
  ghost predicate AsDesigned(kernel: seq<KernelStep>, channels: nat, frames: nat, owed: nat, framesNext: nat,
                             fromRate: nat, toRate: nat)
    requires channels > 0
  {
    && fromRate > 0 && frames * channels > 0 && Slack(channels, frames, owed)
    && InStep(kernel, channels, frames, owed, fromRate, toRate)
    && forall k :: k in kernel ==> k.framesNext <= framesNext
  }

  // A call in the middle of such a life finds room for everything.
  lemma RoomForCall(kept: seq<Sample>, input: seq<Sample>, kernel: seq<KernelStep>, used: nat, channels: nat,
                    frames: nat, owed: nat, framesNext: nat, fromRate: nat, toRate: nat)
    requires channels > 0 && AsDesigned(kernel, channels, frames, owed, framesNext, fromRate, toRate)
    requires |kept| < frames * channels && |input| <= MAX_INPUT
    requires used + |Blocks(kept + input, frames * channels)| <= |kernel|
    ensures Fits(kernel[used..], |Blocks(kept + input, frames * channels)|,
                 Capacity(fromRate, toRate, channels, framesNext), channels)
  {
    PacedFromHere(kernel, used, channels, frames, owed, fromRate, toRate);
    BufferSuffices(kept, input, kernel[used..], channels, frames, owed, framesNext, fromRate, toRate);
  }

  lemma RestOfLife(kernel: seq<KernelStep>, used: nat, channels: nat)
    requires channels > 0 && used <= |kernel| && KeepsItsWord(kernel, channels) && NeverFails(kernel)
    ensures KeepsItsWord(kernel[used..], channels) && NeverFails(kernel[used..])
  {
    assert forall k :: k in kernel[used..] ==> k in kernel;
  }

  // A buffer in which every call finds room keeps its size.
  lemma RoomKeepsSize(kernel: seq<KernelStep>, capacity: nat, channels: nat)
    requires channels > 0 && KeepsItsWord(kernel, channels)
    ensures forall n :: 0 <= n <= |kernel| && Fits(kernel, n, capacity, channels) ==>
                          Grown(kernel, n, capacity, channels) == capacity
  {
    forall n | 0 <= n <= |kernel| && Fits(kernel, n, capacity, channels)
      ensures Grown(kernel, n, capacity, channels) == capacity
    {
      GrownExactly(kernel, n, capacity, channels);
    }
  }

  // One call within the design bound, `used` kernel calls into a life without failures.
  method Convert(r: CaptureResampler, input: seq<Sample>, kernel: seq<KernelStep>, used: nat)
    returns (output: seq<Sample>, handed: seq<seq<Sample>>)
    requires r.Valid() && |r.remainder| < r.Chunk() && |input| <= MAX_INPUT
    requires used + |Blocks(r.remainder + input, r.Chunk())| <= |kernel|
    requires NeverFails(kernel) && KeepsItsWord(kernel, r.channels)
    modifies r
    ensures r.Valid()
    ensures handed == Blocks(old(r.remainder) + input, r.Chunk())
    ensures r.remainder == Rest(old(r.remainder) + input, r.Chunk())
    ensures output == Outputs(kernel[used..], |handed|)
    ensures Fits(kernel[used..], |handed|, old(r.outputCapacityFrames), r.channels)
            ==> r.outputCapacityFrames == old(r.outputCapacityFrames)
  {
    CapIsNeverReached(r.remainder, input, r.Chunk());
    RestOfLife(kernel, used, r.channels);
    RoomKeepsSize(kernel[used..], r.outputCapacityFrames, r.channels);
    var out;
    out, handed := r.ProcessInterleaved(input, kernel[used..]);
    assert out.Some?;
    output := out.value;
  }

  // The i-th call of a run finds room for everything the kernel announces during it.
  ghost predicate RoomAtCall(start: seq<Sample>, inputs: seq<seq<Sample>>, i: nat, kernel: seq<KernelStep>, chunk: nat,
                             capacity: nat, channels: nat)
    requires chunk > 0 && channels > 0 && i < |inputs|
  {
    var (handed, kept) := Run(start, inputs[..i], chunk);
    var next := Blocks(kept + inputs[i], chunk);
    |handed| + |next| <= |kernel| && Fits(kernel[|handed|..], |next|, capacity, channels)
  }

  ghost predicate RoomThroughout(start: seq<Sample>, inputs: seq<seq<Sample>>, kernel: seq<KernelStep>, chunk: nat,
                                 capacity: nat, channels: nat)
    requires chunk > 0 && channels > 0
  {
    forall i :: 0 <= i < |inputs| ==> RoomAtCall(start, inputs, i, kernel, chunk, capacity, channels)
  }

  /** As designed, no call of a run within the design bound ever lacks room, however the input is cut. */
  lemma DesignHasRoom(start: seq<Sample>, inputs: seq<seq<Sample>>, kernel: seq<KernelStep>, channels: nat, frames: nat,
                      owed: nat, framesNext: nat, fromRate: nat, toRate: nat)
    requires channels > 0 && AsDesigned(kernel, channels, frames, owed, framesNext, fromRate, toRate)
    requires |start| < frames * channels && forall input :: input in inputs ==> |input| <= MAX_INPUT
    requires |kernel| >= |Blocks(start + Flatten(inputs), frames * channels)|
    ensures RoomThroughout(start, inputs, kernel, frames * channels, Capacity(fromRate, toRate, channels, framesNext),
                           channels)
  {
    var chunk, capacity := frames * channels, Capacity(fromRate, toRate, channels, framesNext);
    forall i | 0 <= i < |inputs|
      ensures RoomAtCall(start, inputs, i, kernel, chunk, capacity, channels)
    {
      NextCall(start, inputs, i, chunk);
      var (handed, kept) := Run(start, inputs[..i], chunk);
      RoomForCall(kept, inputs[i], kernel, |handed|, channels, frames, owed, framesNext, fromRate, toRate);
    }
  }

  // The output so far is that of the first `n` kernel calls.
  ghost predicate Emitted(output: seq<Sample>, kernel: seq<KernelStep>, n: nat) {
    n <= |kernel| && output == Outputs(kernel, n)
  }

  lemma EmitOn(output: seq<Sample>, out: seq<Sample>, kernel: seq<KernelStep>, n: nat, more: nat)
    requires Emitted(output, kernel, n) && n + more <= |kernel| && out == Outputs(kernel[n..], more)
    ensures Emitted(output + out, kernel, n + more)
  {
    OutputsSplit(kernel, n, more);
  }

  // The i-th call of a run, added to what the calls before it handed on and put out.
  method CallOn(r: CaptureResampler, ghost start: seq<Sample>, inputs: seq<seq<Sample>>, i: nat,
                kernel: seq<KernelStep>, before: seq<Sample>, passed: seq<seq<Sample>>)
    returns (output: seq<Sample>, handed: seq<seq<Sample>>)
    requires r.Valid() && |start| < r.Chunk() && i < |inputs| && |inputs[i]| <= MAX_INPUT
    requires (passed, r.remainder) == Run(start, inputs[..i], r.Chunk()) && Emitted(before, kernel, |passed|)
    requires |kernel| >= |Blocks(start + Flatten(inputs), r.Chunk())|
    requires NeverFails(kernel) && KeepsItsWord(kernel, r.channels)
    modifies r
    ensures r.Valid()
    ensures (handed, r.remainder) == Run(start, inputs[..i + 1], r.Chunk()) && Emitted(output, kernel, |handed|)
    ensures RoomAtCall(start, inputs, i, kernel, r.Chunk(), old(r.outputCapacityFrames), r.channels)
            ==> r.outputCapacityFrames == old(r.outputCapacityFrames)
  {
    NextCall(start, inputs, i, r.Chunk());
    var out, now := Convert(r, inputs[i], kernel, |passed|);
    EmitOn(before, out, kernel, |passed|, |now|);
    output, handed := before + out, passed + now;
    assert |handed| == |passed| + |now|;
  }

  /** Any number of calls of any sizes within the design bound: the resampler does what `Run` says, so it
      hands the kernel the blocks of what it had kept and the concatenated input and keeps the rest; its
      outputs are those of the kernel, end to end; and its buffer never grows when every call has room. */
  method ConvertAll(r: CaptureResampler, inputs: seq<seq<Sample>>, kernel: seq<KernelStep>)
    returns (output: seq<Sample>, handed: seq<seq<Sample>>)
    requires r.Valid() && |r.remainder| < r.Chunk()
    requires forall input :: input in inputs ==> |input| <= MAX_INPUT
    requires |kernel| >= |Blocks(r.remainder + Flatten(inputs), r.Chunk())|
    requires NeverFails(kernel) && KeepsItsWord(kernel, r.channels)
    modifies r
    ensures r.Valid()
    ensures (handed, r.remainder) == Run(old(r.remainder), inputs, r.Chunk())
    ensures Emitted(output, kernel, |handed|)
    ensures RoomThroughout(old(r.remainder), inputs, kernel, r.Chunk(), old(r.outputCapacityFrames), r.channels)
            ==> r.outputCapacityFrames == old(r.outputCapacityFrames)
  {
    output, handed := [], [];
    ghost var start := r.remainder;
    for i := 0 to |inputs|
      invariant r.Valid() && (handed, r.remainder) == Run(start, inputs[..i], r.Chunk())
      invariant Emitted(output, kernel, |handed|)
      invariant RoomThroughout(start, inputs, kernel, r.Chunk(), old(r.outputCapacityFrames), r.channels)
                ==> r.outputCapacityFrames == old(r.outputCapacityFrames)
    {
      ghost var room := RoomAtCall(start, inputs, i, kernel, r.Chunk(), old(r.outputCapacityFrames), r.channels);
      output, handed := CallOn(r, start, inputs, i, kernel, output, handed);
    }
    assert inputs[..|inputs|] == inputs;
  }
}
