/**
 Folding the raw buffers of a capture callback into interleaved stereo, with a carried sample that
 keeps every push a whole number of left-right pairs. Samples are opaque.
 */
module StereoCarry {
  import opened Wrappers

  type Sample = real

  // What one callback emits, what it carries over, and what it adds to the two counters.
  datatype Folded = Folded(out: seq<Sample>, carry: Option<Sample>, truncated: nat, unknown: nat)

  function Carried(carry: Option<Sample>): seq<Sample> {
    if carry.Some? then [carry.value] else []
  }

  // The longest even prefix, and the sample left over.
  function Paired(s: seq<Sample>): (seq<Sample>, Option<Sample>) {
    if |s| % 2 == 1 then (s[..|s| - 1], Some(s[|s| - 1])) else (s, None)
  }

  function Interleave(left: seq<Sample>, right: seq<Sample>, pairs: nat): (out: seq<Sample>)
    requires pairs <= |left| && pairs <= |right|
    ensures |out| == 2 * pairs
    ensures forall i :: 0 <= i < pairs ==> out[2 * i] == left[i] && out[2 * i + 1] == right[i]
  {
    if pairs == 0 then [] else Interleave(left, right, pairs - 1) + [left[pairs - 1], right[pairs - 1]]
  }

  function Fold(carry: Option<Sample>, buffers: seq<seq<Sample>>): Folded {
    if |buffers| == 1 then
      var (out, left) := Paired(Carried(carry) + buffers[0]);
      Folded(out, left, if left.Some? then 1 else 0, 0)
    else if |buffers| == 2 then
      var pairs := Min(|buffers[0]|, |buffers[1]|);
      Folded(Interleave(buffers[0], buffers[1], pairs), carry, Max(|buffers[0]|, |buffers[1]|) - pairs, 0)
    else
      Folded([], carry, 0, 1)
  }

  /** Left and right samples in turn, as many pairs as the shorter channel has. */
  ghost predicate PairsOf(out: seq<Sample>, left: seq<Sample>, right: seq<Sample>) {
    && (|out| == 2 * |left| || |out| == 2 * |right|) && |out| <= 2 * |left| && |out| <= 2 * |right|
    && forall i :: 0 <= i < |left| && i < |right| ==> out[2 * i] == left[i] && out[2 * i + 1] == right[i]
  }

  // By how much two channels differ in length.
  function Orphans(buffers: seq<seq<Sample>>): nat
    requires |buffers| == 2
  {
    if |buffers[0]| > |buffers[1]| then |buffers[0]| - |buffers[1]| else |buffers[1]| - |buffers[0]|
  }

  class StereoFold {
    var carry: Option<Sample>
    var out: seq<Sample>
    var truncatedSamples: nat
    var unknownFormatBuffers: nat

    constructor ()
      ensures carry == None && out == [] && truncatedSamples == 0 && unknownFormatBuffers == 0
    {
      carry, out, truncatedSamples, unknownFormatBuffers := None, [], 0, 0;
    }

    /** One callback. One buffer is already interleaved: it is put out behind the carried sample, and an odd last
        sample is carried on and counted. Two are planar, left before right: they are put out in pairs up to the
        shorter one, and what the longer one has left is counted. Anything else puts out nothing and is counted
        as unknown. */
    method FoldBuffers(buffers: seq<seq<Sample>>)
      modifies this
      ensures var folded := Fold(old(carry), buffers);
              && out == folded.out && carry == folded.carry
              && truncatedSamples == old(truncatedSamples) + folded.truncated
              && unknownFormatBuffers == old(unknownFormatBuffers) + folded.unknown
      ensures |out| % 2 == 0
      ensures |buffers| == 1 ==>
                && out + Carried(carry) == Carried(old(carry)) + buffers[0]
                && truncatedSamples == old(truncatedSamples) + |Carried(carry)|
                && unknownFormatBuffers == old(unknownFormatBuffers)
      ensures |buffers| == 2 ==>
                && PairsOf(out, buffers[0], buffers[1]) && carry == old(carry)
                && truncatedSamples == old(truncatedSamples) + Orphans(buffers)
                && unknownFormatBuffers == old(unknownFormatBuffers)
      ensures |buffers| != 1 && |buffers| != 2 ==>
                && out == [] && carry == old(carry) && truncatedSamples == old(truncatedSamples)
                && unknownFormatBuffers == old(unknownFormatBuffers) + 1
    {
      FoldKeeps(carry, buffers);
      out := [];
      if |buffers| == 1 {
        FoldInterleaved(buffers[0]);
      } else if |buffers| == 2 {
        var pairs := Min(|buffers[0]|, |buffers[1]|);
        var orphans := Max(|buffers[0]|, |buffers[1]|) - pairs;
        if orphans > 0 {
          truncatedSamples := truncatedSamples + orphans;
        }
        FoldPlanar(buffers[0], buffers[1], pairs);
      } else {
        unknownFormatBuffers := unknownFormatBuffers + 1;
      }
    }

    // Splice the carried sample onto the front and hold an odd one back.
    method FoldInterleaved(samples: seq<Sample>)
      requires out == []
      modifies `out, `carry, `truncatedSamples
      ensures (out, carry) == Paired(Carried(old(carry)) + samples)
      ensures truncatedSamples == old(truncatedSamples) + if carry.Some? then 1 else 0
    {
      if carry.Some? {
        out := out + [carry.value];
        carry := None;
      }
      out := out + samples;
      assert out == Carried(old(carry)) + samples;
      if |out| % 2 == 1 {
        carry := Some(out[|out| - 1]);
        out := out[..|out| - 1];
        truncatedSamples := truncatedSamples + 1;
      }
    }

    method FoldPlanar(left: seq<Sample>, right: seq<Sample>, pairs: nat)
      requires out == [] && pairs <= |left| && pairs <= |right|
      modifies `out
      ensures out == Interleave(left, right, pairs)
    {
      for i := 0 to pairs
        invariant out == Interleave(left, right, i)
      {
        out := out + [left[i], right[i]];
      }
    }
  }

  // ----- whole runs of callbacks -----

  function CarryAfter(carry: Option<Sample>, callbacks: seq<seq<seq<Sample>>>): Option<Sample> {
    if callbacks == [] then carry
    else Fold(CarryAfter(carry, callbacks[..|callbacks| - 1]), callbacks[|callbacks| - 1]).carry
  }

  // The interleaved callbacks' outputs, put end to end.
  function Emitted(carry: Option<Sample>, callbacks: seq<seq<seq<Sample>>>): seq<Sample> {
    if callbacks == [] then []
    else
      var front, last := callbacks[..|callbacks| - 1], callbacks[|callbacks| - 1];
      Emitted(carry, front) + if |last| == 1 then Fold(CarryAfter(carry, front), last).out else []
  }

  // The interleaved callbacks' samples, put end to end.
  function Stream(callbacks: seq<seq<seq<Sample>>>): seq<Sample> {
    if callbacks == [] then []
    else
      var last := callbacks[|callbacks| - 1];
      Stream(callbacks[..|callbacks| - 1]) + if |last| == 1 then last[0] else []
  }

  lemma FoldKeeps(carry: Option<Sample>, buffers: seq<seq<Sample>>)
    ensures var folded := Fold(carry, buffers);
            && |folded.out| % 2 == 0
            && (if |buffers| == 1 then folded.out + Carried(folded.carry) == Carried(carry) + buffers[0]
                else folded.carry == carry)
  {
  }

  /** Nothing is lost, reordered or repeated: what was emitted followed by the carry is what was
      carried before followed by all interleaved input, whatever other callbacks come in between,
      and every push so far was a whole number of pairs. */
  lemma {:induction false} StreamIsKept(carry: Option<Sample>, callbacks: seq<seq<seq<Sample>>>)
    ensures Emitted(carry, callbacks) + Carried(CarryAfter(carry, callbacks)) == Carried(carry) + Stream(callbacks)
    ensures |Emitted(carry, callbacks)| % 2 == 0
  {
    if callbacks != [] {
      var front, last := callbacks[..|callbacks| - 1], callbacks[|callbacks| - 1];
      StreamIsKept(carry, front);
      FoldKeeps(CarryAfter(carry, front), last);
      if |last| == 1 {
        var folded := Fold(CarryAfter(carry, front), last);
        Regroup(Emitted(carry, front), folded.out, Carried(folded.carry));
        Regroup(Emitted(carry, front), Carried(CarryAfter(carry, front)), last[0]);
        Regroup(Carried(carry), Stream(front), last[0]);
      } else {
        assert Emitted(carry, callbacks) == Emitted(carry, front) && Stream(callbacks) == Stream(front);
      }
    }
  }

  lemma Regroup(a: seq<Sample>, b: seq<Sample>, c: seq<Sample>)
    ensures (a + b) + c == a + (b + c)
  {
  }

  /** The phase never slips: the samples a callback emits sit in the stream at an even offset, so
      left samples stay left and right ones right. */
  lemma PhaseIsKept(carry: Option<Sample>, callbacks: seq<seq<seq<Sample>>>, next: seq<seq<Sample>>)
    requires |next| == 1
    ensures var offset := |Emitted(carry, callbacks)|;
            var out := Fold(CarryAfter(carry, callbacks), next).out;
            var all := Carried(carry) + Stream(callbacks + [next]);
            && offset % 2 == 0
            && offset + |out| <= |all|
            && out == all[offset..offset + |out|]
  {
    StreamIsKept(carry, callbacks);
    StreamIsKept(carry, callbacks + [next]);
    assert (callbacks + [next])[..|callbacks|] == callbacks;
    var out := Fold(CarryAfter(carry, callbacks), next).out;
    assert Emitted(carry, callbacks + [next]) == Emitted(carry, callbacks) + out;
  }

  /** How the stream is cut into callbacks changes only where the outputs are cut: the emitted
      samples and the carry depend on the stream alone. */
  lemma RecuttingChangesNothing(carry: Option<Sample>, a: seq<seq<seq<Sample>>>, b: seq<seq<seq<Sample>>>)
    requires Stream(a) == Stream(b)
    ensures Emitted(carry, a) == Emitted(carry, b)
    ensures CarryAfter(carry, a) == CarryAfter(carry, b)
  {
    StreamIsKept(carry, a);
    StreamIsKept(carry, b);
    EvenSplit(Emitted(carry, a), CarryAfter(carry, a), Emitted(carry, b), CarryAfter(carry, b));
  }

  // ----- the callbacks of a run, one by one and in total -----

  // What the k-th callback of a run puts out, and what it counts.
  function FoldAt(carry: Option<Sample>, callbacks: seq<seq<seq<Sample>>>, k: nat): Folded
    requires k < |callbacks|
  {
    Fold(CarryAfter(carry, callbacks[..k]), callbacks[k])
  }

  /** In a run that mixes all kinds of callbacks, each planar one puts out its own left and right samples in
      pairs, whatever is carried over it, and each unknown one puts out nothing. */
  lemma CallbacksKeepToTheirKind(carry: Option<Sample>, callbacks: seq<seq<seq<Sample>>>, k: nat)
    requires k < |callbacks|
    ensures var (buffers, folded) := (callbacks[k], FoldAt(carry, callbacks, k));
            && (|buffers| == 2 ==> PairsOf(folded.out, buffers[0], buffers[1]))
            && (|buffers| != 1 && |buffers| != 2 ==> folded.out == [])
            && (|buffers| != 1 ==> CarryAfter(carry, callbacks[..k + 1]) == CarryAfter(carry, callbacks[..k]))
  {
    FoldKeeps(CarryAfter(carry, callbacks[..k]), callbacks[k]);
    assert callbacks[..k + 1][..k] == callbacks[..k];
  }

  function Truncated(carry: Option<Sample>, callbacks: seq<seq<seq<Sample>>>): nat {
    if callbacks == [] then 0
    else Truncated(carry, callbacks[..|callbacks| - 1]) + FoldAt(carry, callbacks, |callbacks| - 1).truncated
  }

  function Unknown(carry: Option<Sample>, callbacks: seq<seq<seq<Sample>>>): nat {
    if callbacks == [] then 0
    else Unknown(carry, callbacks[..|callbacks| - 1]) + FoldAt(carry, callbacks, |callbacks| - 1).unknown
  }

  // The callbacks of a run that are neither interleaved nor planar.
  function Unrecognised(callbacks: seq<seq<seq<Sample>>>): nat {
    if callbacks == [] then 0
    else
      Unrecognised(callbacks[..|callbacks| - 1])
      + if |callbacks[|callbacks| - 1]| == 1 || |callbacks[|callbacks| - 1]| == 2 then 0 else 1
  }

  // The samples of planar channels without a partner.
  function AllOrphans(callbacks: seq<seq<seq<Sample>>>): nat {
    if callbacks == [] then 0
    else
      AllOrphans(callbacks[..|callbacks| - 1])
      + if |callbacks[|callbacks| - 1]| == 2 then Orphans(callbacks[|callbacks| - 1]) else 0
  }

  // The interleaved callbacks after which the stream so far ends within a pair.
  function OddEnds(carry: Option<Sample>, callbacks: seq<seq<seq<Sample>>>): nat {
    if callbacks == [] then 0
    else
      OddEnds(carry, callbacks[..|callbacks| - 1])
      + if |callbacks[|callbacks| - 1]| == 1 && (|Carried(carry)| + |Stream(callbacks)|) % 2 == 1 then 1 else 0
  }

  // An interleaved callback holds a sample back exactly when the stream so far is odd.
  lemma OddAfter(carry: Option<Sample>, callbacks: seq<seq<seq<Sample>>>)
    requires callbacks != [] && |callbacks[|callbacks| - 1]| == 1
    ensures FoldAt(carry, callbacks, |callbacks| - 1).truncated
            == if (|Carried(carry)| + |Stream(callbacks)|) % 2 == 1 then 1 else 0
  {
    StreamIsKept(carry, callbacks);
    var emitted, left := Emitted(carry, callbacks), CarryAfter(carry, callbacks);
    assert |emitted + Carried(left)| == |Carried(carry)| + |Stream(callbacks)|;
    assert FoldAt(carry, callbacks, |callbacks| - 1).carry == left;
  }

  // What the last callback of a run counts, by its kind.
  lemma LastCounts(carry: Option<Sample>, callbacks: seq<seq<seq<Sample>>>)
    requires callbacks != []
    ensures var (last, folded) := (callbacks[|callbacks| - 1], FoldAt(carry, callbacks, |callbacks| - 1));
            && folded.unknown == (if |last| == 1 || |last| == 2 then 0 else 1)
            && (|last| == 2 ==> folded.truncated == Orphans(last))
            && (|last| != 1 && |last| != 2 ==> folded.truncated == 0)
  {
  }

  /** Over any run the counters are those of the input alone: one unknown format for each callback that is
      neither one buffer nor two, and one truncated sample for each orphan of a planar callback and for each
      interleaved callback after which the stream so far is odd. */
  lemma {:induction false} CountersOfRun(carry: Option<Sample>, callbacks: seq<seq<seq<Sample>>>)
    ensures Unknown(carry, callbacks) == Unrecognised(callbacks)
    ensures Truncated(carry, callbacks) == AllOrphans(callbacks) + OddEnds(carry, callbacks)
  {
    if callbacks != [] {
      CountersOfRun(carry, callbacks[..|callbacks| - 1]);
      LastCounts(carry, callbacks);
      if |callbacks[|callbacks| - 1]| == 1 {
        OddAfter(carry, callbacks);
      }
    }
  }

  lemma EvenSplit(x: seq<Sample>, c: Option<Sample>, y: seq<Sample>, d: Option<Sample>)
    requires x + Carried(c) == y + Carried(d) && |x| % 2 == 0 && |y| % 2 == 0
    ensures x == y && c == d
  {
    assert |x| == |y|;
    assert x == (x + Carried(c))[..|x|] && y == (y + Carried(d))[..|y|];
    assert Carried(c) == (x + Carried(c))[|x|..] && Carried(d) == (y + Carried(d))[|y|..];
    assert c.Some? ==> Carried(c)[0] == Carried(d)[0];
  }
}
