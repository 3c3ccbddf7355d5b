/** Cutting a stream of samples into blocks of one size, whatever pieces it arrives in. */
module Chunking {

  type Sample = real

  function Flatten<T>(pieces: seq<seq<T>>): seq<T> {
    if pieces == [] then [] else pieces[0] + Flatten(pieces[1..])
  }

  function Blocks(s: seq<Sample>, size: nat): seq<seq<Sample>>
    requires size > 0
  {
    if |s| < size then [] else [s[..size]] + Blocks(s[size..], size)
  }

  // What is left after the whole blocks.
  function Rest(s: seq<Sample>, size: nat): (rest: seq<Sample>)
    requires size > 0
    ensures |rest| < size
  {
    if |s| < size then s else Rest(s[size..], size)
  }

  lemma {:induction false} FlattenAppend<T>(pieces: seq<seq<T>>, more: seq<seq<T>>)
    ensures Flatten(pieces + more) == Flatten(pieces) + Flatten(more)
  {
    if pieces == [] {
      assert pieces + more == more;
    } else {
      assert (pieces + more)[1..] == pieces[1..] + more;
      FlattenAppend(pieces[1..], more);
    }
  }

  /** The blocks and what is left, put end to end, are the stream, and every block is full. */
  lemma {:induction false} NothingIsLost(s: seq<Sample>, size: nat)
    requires size > 0
    ensures Flatten(Blocks(s, size)) + Rest(s, size) == s
    ensures forall b :: b in Blocks(s, size) ==> |b| == size
  {
    if |s| >= size {
      NothingIsLost(s[size..], size);
      var later := Blocks(s[size..], size);
      assert Blocks(s, size)[1..] == later;
      assert s == s[..size] + s[size..];
    }
  }

  /** Cutting what is left of one piece together with the next piece goes on exactly where cutting
      the first piece stopped. */
  lemma {:induction false} CutOn(s: seq<Sample>, t: seq<Sample>, size: nat)
    requires size > 0
    ensures Blocks(s + t, size) == Blocks(s, size) + Blocks(Rest(s, size) + t, size)
    ensures Rest(s + t, size) == Rest(Rest(s, size) + t, size)
  {
    if |s| >= size {
      assert (s + t)[size..] == s[size..] + t;
      assert (s + t)[..size] == s[..size];
      CutOn(s[size..], t, size);
    }
  }

  lemma {:induction false} BlockCount(s: seq<Sample>, size: nat)
    requires size > 0
    ensures |Blocks(s, size)| * size + |Rest(s, size)| == |s|
  {
    if |s| >= size {
      BlockCount(s[size..], size);
      var n := |Blocks(s[size..], size)|;
      assert (n + 1) * size == n * size + size;
    }
  }

  lemma {:induction false} RestIsSuffix(s: seq<Sample>, size: nat)
    requires size > 0
    ensures |Rest(s, size)| == |s| % size
    ensures Rest(s, size) == s[|s| - |s| % size..]
  {
    if |s| >= size {
      RestIsSuffix(s[size..], size);
      RemainderOfLess(|s|, size);
    }
  }

  lemma RemainderOfLess(n: nat, d: nat)
    requires 0 < d <= n
    ensures n % d == (n - d) % d <= n - d
  {
    var q, r := (n - d) / d, (n - d) % d;
    assert n == d * (q + 1) + r;
    RemainderIs(n, d, q + 1, r);
  }

  lemma RemainderIs(n: nat, d: nat, q: nat, r: nat)
    requires d > 0 && r < d && n == d * q + r
    ensures n / d == q && n % d == r
  {
    var p := n / d;
    assert n == d * p + n % d;
    assert d * (p - q) == r - n % d;
    Between(d, p - q);
  }

  lemma Between(d: int, x: int)
    requires 0 < d && 0 - d < d * x < d
    ensures x == 0
  {
    AtLeastFactor(d, x);
    AtLeastFactor(d, 0 - x);
  }

  lemma AtLeastFactor(d: int, x: int)
    requires 0 < d
    ensures x >= 1 ==> d * x >= d
    ensures d * (0 - x) == 0 - d * x
  {
  }
}
