/**
  The part of Python's `random` module the dice code relies on. The generator
  is a stream of raw draws fixed when it is created, so that everything built
  on it is a function of the stream: `RandBelow(n)` takes the next draw modulo
  `n`, and `Shuffle` is the Fisher-Yates shuffle of `random.shuffle`, which
  walks the list from its last position down to position 1 and swaps each
  position with one at or below it.
*/
module Randomness {

  /** `s` with the elements at positions `i` and `j` exchanged. */
  function Swap<T>(s: seq<T>, i: nat, j: nat): (r: seq<T>)
    requires i < |s| && j < |s|
  {
    s[i := s[j]][j := s[i]]
  }

  /**
    The Fisher-Yates shuffle of `s` whose first `k` positions are still to be
    visited, drawing from `stream` starting at `pos`: position `k - 1` is
    exchanged with position `stream(pos) % k`.
  */
  function Shuffled<T>(s: seq<T>, k: nat, stream: nat -> nat, pos: nat): seq<T>
    requires k <= |s|
    decreases k
  {
    if k <= 1 then s
    else Shuffled(Swap(s, k - 1, stream(pos) % k), k - 1, stream, pos + 1)
  }

  /** The number of draws a shuffle of `n` elements takes. */
  function Draws(n: nat): nat
  {
    if n <= 1 then 0 else n - 1
  }

  /** Exchanging two elements keeps the same elements. */
  lemma SwapPermutes<T>(s: seq<T>, i: nat, j: nat)
    requires i < |s| && j < |s|
    ensures multiset(Swap(s, i, j)) == multiset(s)
    ensures |Swap(s, i, j)| == |s|
  {
    if i != j {
      var t := s[i := s[j]];
      assert multiset(t) == multiset(s) - multiset{s[i]} + multiset{s[j]};
    }
  }

  /** A shuffle only rearranges the list: every element keeps its number of occurrences. */
  lemma {:induction false} ShuffledPermutes<T>(s: seq<T>, k: nat, stream: nat -> nat, pos: nat)
    requires k <= |s|
    ensures multiset(Shuffled(s, k, stream, pos)) == multiset(s)
    ensures |Shuffled(s, k, stream, pos)| == |s|
    decreases k
  {
    if k > 1 {
      var j := stream(pos) % k;
      SwapPermutes(s, k - 1, j);
      ShuffledPermutes(Swap(s, k - 1, j), k - 1, stream, pos + 1);
    }
  }

  lemma ShuffledStep<T>(s: seq<T>, k: nat, stream: nat -> nat, pos: nat)
    requires 1 < k <= |s|
    ensures Shuffled(s, k, stream, pos) == Shuffled(Swap(s, k - 1, stream(pos) % k), k - 1, stream, pos + 1)
  {
  }

  /** A pseudo-random generator: the draws it will make and how many it has made. */
  class Random {
    const stream: nat -> nat
    var position: nat

    constructor (stream: nat -> nat)
      ensures this.stream == stream && position == 0
    {
      this.stream := stream;
      position := 0;
    }

    /** A number in `[0, n)`; the next draw is consumed. */
    method RandBelow(n: nat) returns (j: nat)
      requires n > 0
      modifies this
      ensures j < n
      ensures j == stream(old(position)) % n
      ensures position == old(position) + 1
    {
      j := stream(position) % n;
      position := position + 1;
    }

    /** `random.shuffle`: rearranges `a` in place. */
    method Shuffle<T>(a: array<T>)
      modifies this, a
      ensures a[..] == Shuffled(old(a[..]), a.Length, stream, old(position))
      ensures multiset(a[..]) == multiset(old(a[..]))
      ensures position == old(position) + Draws(a.Length)
    {
      ghost var s := a[..];
      var i := a.Length;
      while i > 1
        invariant 0 <= i <= a.Length
        invariant position + Draws(i) == old(position) + Draws(a.Length)
        invariant Shuffled(a[..], i, stream, position) == Shuffled(s, a.Length, stream, old(position))
        decreases i
      {
        ghost var before, drawn := a[..], position;
        var j := RandBelow(i);
        a[i - 1], a[j] := a[j], a[i - 1];
        assert a[..] == Swap(before, i - 1, j);
        ShuffledStep(before, i, stream, drawn);
        i := i - 1;
      }
      ShuffledPermutes(s, a.Length, stream, old(position));
    }
  }
}
