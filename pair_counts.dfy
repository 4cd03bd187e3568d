/**
  Merging two outcome-count dictionaries entry by entry: the count that the
  pairs of keys summing to `x` contribute, and its agreement with the
  convolution of the two dictionaries' outcomes.
*/
module PairCounts {
  import opened Convolution

  /**
    The number of ways to make `x` as a key `k` of `d1` plus a key of `d2`,
    each pair weighted by its counts: the sum of `d1[k] * d2[x - k]`.
  */
  ghost function PairCount(d1: map<int, nat>, d2: map<int, nat>, x: int): nat
    decreases |d1|
  {
    if |d1| == 0 then 0
    else
      var k := PickKey(d1);
      Ways(d1[k], Count(d2, x - k)) + PairCount(d1 - {k}, d2, x)
  }

  /**
    The number of ways of pairing `c1` things with `c2` things, counted as
    `c1` rows of `c2`; `WaysProduct` shows it is `c1 * c2`.
  */
  ghost function Ways(c1: nat, c2: nat): (v: nat)
    ensures c1 > 0 && c2 > 0 ==> v > 0
    ensures c2 == 0 ==> v == 0
  {
    if c1 == 0 then 0 else c2 + Ways(c1 - 1, c2)
  }

  lemma {:induction false} WaysProduct(c1: nat, c2: nat)
    ensures Ways(c1, c2) == c1 * c2
  {
    if c1 != 0 {
      WaysProduct(c1 - 1, c2);
    }
  }

  /** `c` copies of `k` against `B` make `x` once for each pair of a copy with an element `x - k`. */
  lemma CopiesWays(k: int, c: nat, B: multiset<int>, x: int)
    ensures Conv(Copies(k, c), B)[x] == Ways(c, B[x - k])
  {
    ConvCopiesAt(k, c, B, x);
    WaysProduct(c, B[x - k]);
  }

  /** The multiplicities of a dictionary's outcomes are its counts. */
  lemma BagCounts(d: map<int, nat>)
    ensures forall y :: Bag(d)[y] == Count(d, y)
  {
    forall y ensures Bag(d)[y] == Count(d, y) {
      BagAt(d, y);
    }
  }

  /**
    The convolution of a dictionary's outcomes with `B`, the outcomes of
    `d2`, counts `x` as the sum of `d1[k] * d2[x - k]`.
  */
  lemma {:induction false} ConvCount(d1: map<int, nat>, B: multiset<int>, d2: map<int, nat>, x: int)
    requires forall y :: B[y] == Count(d2, y)
    ensures Conv(Bag(d1), B)[x] == PairCount(d1, d2, x)
    decreases |d1|
  {
    if |d1| == 0 {
      ConvCountEmpty(d1, B, d2, x);
    } else {
      var k := PickKey(d1);
      ConvCount(d1 - {k}, B, d2, x);
      ConvCountStep(d1, B, d2, x, k);
    }
  }

  lemma PairCountUnfold(d1: map<int, nat>, d2: map<int, nat>, x: int, k: int)
    requires |d1| != 0 && k == PickKey(d1)
    ensures PairCount(d1, d2, x) == Ways(d1[k], Count(d2, x - k)) + PairCount(d1 - {k}, d2, x)
  {
  }

  lemma ConvCountEmpty(d1: map<int, nat>, B: multiset<int>, d2: map<int, nat>, x: int)
    requires |d1| == 0
    ensures Conv(Bag(d1), B)[x] == PairCount(d1, d2, x)
  {
    assert Bag(d1) == multiset{};
    ConvEmpty(B);
  }

  /** The step of `ConvCount`: the entry of one key of `d1` adds its ways to the rest. */
  lemma ConvCountStep(d1: map<int, nat>, B: multiset<int>, d2: map<int, nat>, x: int, k: int)
    requires |d1| != 0 && k == PickKey(d1)
    requires B[x - k] == Count(d2, x - k)
    requires Conv(Bag(d1 - {k}), B)[x] == PairCount(d1 - {k}, d2, x)
    ensures Conv(Bag(d1), B)[x] == PairCount(d1, d2, x)
  {
    var A, C := Bag(d1 - {k}), Copies(k, d1[k]);
    BagRemoveKey(d1, k);
    ConvUnionLeft(A, C, B);
    CopiesWays(k, d1[k], B, x);
    assert Conv(Bag(d1), B)[x] == Conv(A, B)[x] + Conv(C, B)[x];
    PairCountUnfold(d1, d2, x, k);
  }

  /** Every sum of a key of `S` and a key of `T`. */
  function PairSums(S: set<int>, T: set<int>): set<int>
  {
    set a, b | a in S && b in T :: a + b
  }

  lemma PairSumsAddLeft(S: set<int>, k: int, T: set<int>)
    ensures PairSums(S + {k}, T) == PairSums(S, T) + PairSums({k}, T)
  {
  }

  lemma PairSumsAddRight(k: int, T: set<int>, b: int)
    ensures PairSums({k}, T + {b}) == PairSums({k}, T) + {k + b}
  {
    assert k + b in PairSums({k}, T + {b});
  }
}
