/**
  The dice functions of `dice.py`: merging two outcome-count dictionaries,
  the dictionary of a list of dice by shuffling, splitting and merging,
  exact probabilities, and a roll with the choices given.

  Dictionaries are `map<int, nat>`. Each method is proved against the
  functions of `Distributions`: what it returns is `DiceDictOf`, `DiceProbOf`
  or `RollOf` of the dice it was given.
*/
module Dice {
  import opened Convolution
  import opened Distributions
  import opened Randomness
  import opened PairCounts

  // ---------------------------------------------------------------------------
  // Merging two dictionaries.

  /**
    `_mergeDiceDicts`: an empty dictionary returns the other one unchanged;
    otherwise every pair of keys adds the product of their counts to the
    entry of their sum, so that the entry of `x` is the sum of
    `d1[k1] * d2[k2]` over `k1 + k2 == x`.
  */
  method MergeDiceDicts(d1: map<int, nat>, d2: map<int, nat>) returns (r: map<int, nat>)
    ensures |d1| == 0 ==> r == d2
    ensures |d1| != 0 && |d2| == 0 ==> r == d1
    ensures |d1| != 0 && |d2| != 0 ==> r.Keys == PairSums(d1.Keys, d2.Keys)
    ensures |d1| != 0 && |d2| != 0 ==> forall x :: Count(r, x) == PairCount(d1, d2, x)
    ensures |d1| != 0 && |d2| != 0 ==> Bag(r) == Conv(Bag(d1), Bag(d2))
    ensures Positive(d1) && Positive(d2) ==> Positive(r) && Bag(r) == Merge(Bag(d1), Bag(d2))
  {
    if |d1| == 0 {
      BagEmpty(d1);
      return d2;
    }
    if |d2| == 0 {
      BagEmpty(d2);
      if Positive(d1) {
        BagEmpty(d1);
      }
      return d1;
    }
    r := MergePairs(d1, d2);
    MergeResult(d1, d2, r);
  }

  /**
    The two loops of the merge: every key `k1` of `d1` in turn, each against
    every key of `d2`, starting from an empty dictionary.
  */
  method MergePairs(d1: map<int, nat>, d2: map<int, nat>) returns (r: map<int, nat>)
    ensures r.Keys == PairSums(d1.Keys, d2.Keys)
    ensures forall x :: Count(r, x) == PairCount(Restrict(d1, d1.Keys), d2, x)
    ensures Positive(d1) && Positive(d2) ==> Positive(r)
  {
    r := map[];
    var todo1, done1 := d1.Keys, {};
    MergeStart(d1, d2);
    while todo1 != {}
      invariant todo1 + done1 == d1.Keys && todo1 !! done1
      invariant r.Keys == PairSums(done1, d2.Keys)
      invariant forall x :: Count(r, x) == PairCount(Restrict(d1, done1), d2, x)
      invariant Positive(d1) && Positive(d2) ==> Positive(r)
      decreases |todo1|
    {
      r, todo1, done1 := MergeStep(r, d1, todo1, done1, d2);
    }
  }

  /** Before the first key of `d1`: no sums and no pairs. */
  lemma MergeStart(d1: map<int, nat>, d2: map<int, nat>)
    ensures PairSums({}, d2.Keys) == {}
    ensures forall x :: PairCount(Restrict(d1, {}), d2, x) == 0
  {
    assert Restrict(d1, {}) == map[];
  }

  /** One turn of the outer loop: the next key of `d1` moves from the keys to do to the keys done. */
  method MergeStep(r: map<int, nat>, d1: map<int, nat>, todo1: set<int>, done1: set<int>, d2: map<int, nat>)
    returns (r': map<int, nat>, todo1': set<int>, done1': set<int>)
    requires todo1 != {} && todo1 + done1 == d1.Keys && todo1 !! done1
    requires r.Keys == PairSums(done1, d2.Keys)
    requires forall x :: Count(r, x) == PairCount(Restrict(d1, done1), d2, x)
    ensures todo1' + done1' == d1.Keys && todo1' !! done1' && |todo1'| < |todo1|
    ensures r'.Keys == PairSums(done1', d2.Keys)
    ensures forall x :: Count(r', x) == PairCount(Restrict(d1, done1'), d2, x)
    ensures Positive(r) && Positive(d1) && Positive(d2) ==> Positive(r')
  {
    var k1 := SomeElement(todo1);
    r' := AddRow(r, d1, done1, k1, d2);
    todo1', done1' := todo1 - {k1}, done1 + {k1};
  }

  /** One step of the outer loop: every pair of key `k1` of `d1` with a key of `d2`. */
  method AddRow(r: map<int, nat>, d1: map<int, nat>, done1: set<int>, k1: int, d2: map<int, nat>)
    returns (r': map<int, nat>)
    requires k1 in d1 && k1 !in done1
    requires r.Keys == PairSums(done1, d2.Keys)
    requires forall x :: Count(r, x) == PairCount(Restrict(d1, done1), d2, x)
    ensures r'.Keys == PairSums(done1 + {k1}, d2.Keys)
    ensures forall x :: Count(r', x) == PairCount(Restrict(d1, done1 + {k1}), d2, x)
    ensures Positive(r) && Positive(d1) && Positive(d2) ==> Positive(r')
  {
    var c1 := d1[k1];
    r' := AddPairs(r, k1, c1, d2);
    RowCombine(r, r', d1, done1, k1, c1, d2);
    RowKeys(r'.Keys, r.Keys, done1, k1, d2.Keys);
  }

  /** The sums after the row of `k1` are the sums of `done1 + {k1}`. */
  lemma RowKeys(after: set<int>, before: set<int>, done1: set<int>, k1: int, T: set<int>)
    requires before == PairSums(done1, T) && after == before + PairSums({k1}, T)
    ensures after == PairSums(done1 + {k1}, T)
  {
    PairSumsAddLeft(done1, k1, T);
  }

  /**
    The inner loop of the merge: key `k1`, with count `c1`, against every key
    `k2` of `d2`, each adding `c1 * d2[k2]` to the entry of `k1 + k2`.
  */
  method AddPairs(r0: map<int, nat>, k1: int, c1: nat, d2: map<int, nat>) returns (r: map<int, nat>)
    ensures r.Keys == r0.Keys + PairSums({k1}, d2.Keys)
    ensures forall x :: Count(r, x) == Count(r0, x) + Ways(c1, Count(d2, x - k1))
    ensures Positive(r0) && c1 > 0 && Positive(d2) ==> Positive(r)
  {
    r := r0;
    var todo2, done2 := d2.Keys, {};
    RowStart(d2, c1);
    while todo2 != {}
      invariant todo2 + done2 == d2.Keys && todo2 !! done2
      invariant r.Keys == r0.Keys + PairSums({k1}, done2)
      invariant forall x :: Count(r, x) == Count(r0, x) + Ways(c1, CountIn(d2, done2, x - k1))
      invariant Positive(r0) && c1 > 0 && Positive(d2) ==> Positive(r)
      decreases |todo2|
    {
      var k2 := SomeElement(todo2);
      r := AddPair(r0, r, d2, done2, k1, c1, k2);
      todo2, done2 := todo2 - {k2}, done2 + {k2};
    }
    RowEnd(d2, c1);
  }

  /** One step of the inner loop: the pair of `k1` and key `k2` of `d2`. */
  method AddPair(r0: map<int, nat>, r: map<int, nat>, d2: map<int, nat>, done2: set<int>, k1: int, c1: nat, k2: int)
    returns (r': map<int, nat>)
    requires k2 in d2 && k2 !in done2
    requires r.Keys == r0.Keys + PairSums({k1}, done2)
    requires forall x :: Count(r, x) == Count(r0, x) + Ways(c1, CountIn(d2, done2, x - k1))
    ensures r'.Keys == r0.Keys + PairSums({k1}, done2 + {k2})
    ensures forall x :: Count(r', x) == Count(r0, x) + Ways(c1, CountIn(d2, done2 + {k2}, x - k1))
    ensures Positive(r) && c1 > 0 && Positive(d2) ==> Positive(r')
  {
    WaysProduct(c1, d2[k2]);
    r' := Accumulate(r, k1 + k2, c1 * d2[k2]);
    KeysAdvance(r'.Keys, r.Keys, r0.Keys, done2, k1, k2);
    RowAdvance(r0, r, r', d2, done2, k1, k2, c1);
  }

  /** `newDict[newK] = newDict.get(newK, 0) + newV`: the entry of `k` gains `v`, created if missing. */
  method Accumulate(m: map<int, nat>, k: int, v: nat) returns (m': map<int, nat>)
    ensures m'.Keys == m.Keys + {k}
    ensures forall x :: Count(m', x) == Count(m, x) + (if x == k then v else 0)
    ensures Positive(m) && v > 0 ==> Positive(m')
  {
    m' := m[k := Count(m, k) + v];
  }


  /** The count of `y` among the keys of `d` that are in `S`. */
  function CountIn(d: map<int, nat>, S: set<int>, y: int): nat
  {
    if y in d && y in S then d[y] else 0
  }

  /** Nothing has been added before any key of `d2` is taken. */
  lemma RowStart(d2: map<int, nat>, c1: nat)
    ensures forall y :: Ways(c1, CountIn(d2, {}, y)) == 0
  {
  }

  /** Once every key of `d2` is taken, the counts are those of `d2`. */
  lemma RowEnd(d2: map<int, nat>, c1: nat)
    ensures forall y :: CountIn(d2, d2.Keys, y) == Count(d2, y)
  {
  }

  /** The keys of `r` after key `k2` of `d2` is added in. */
  lemma KeysAdvance(rKeys: set<int>, beforeKeys: set<int>, r0Keys: set<int>, S: set<int>, k1: int, k2: int)
    requires beforeKeys == r0Keys + PairSums({k1}, S)
    requires rKeys == beforeKeys + {k1 + k2}
    ensures rKeys == r0Keys + PairSums({k1}, S + {k2})
  {
    PairSumsAddRight(k1, S, k2);
  }

  /** After key `k2` of `d2` is added in, the counts are those of `done2 + {k2}`. */
  lemma RowAdvance(r0: map<int, nat>, r: map<int, nat>, r': map<int, nat>, d2: map<int, nat>,
                   done2: set<int>, k1: int, k2: int, c1: nat)
    requires k2 in d2 && k2 !in done2
    requires forall x :: Count(r, x) == Count(r0, x) + Ways(c1, CountIn(d2, done2, x - k1))
    requires forall x :: Count(r', x) == Count(r, x) + (if x == k1 + k2 then Ways(c1, d2[k2]) else 0)
    ensures forall x :: Count(r', x) == Count(r0, x) + Ways(c1, CountIn(d2, done2 + {k2}, x - k1))
  {
    forall x ensures Count(r', x) == Count(r0, x) + Ways(c1, CountIn(d2, done2 + {k2}, x - k1)) {
      RowStep(d2, done2, k2, c1, x - k1);
    }
  }

  /** Taking key `k2` of `d2` adds its ways at `k2` and nowhere else. */
  lemma RowStep(d2: map<int, nat>, done2: set<int>, k2: int, c1: nat, y: int)
    requires k2 in d2 && k2 !in done2
    ensures Ways(c1, CountIn(d2, done2 + {k2}, y)) == Ways(c1, CountIn(d2, done2, y)) + (if y == k2 then Ways(c1, d2[k2]) else 0)
  {
  }

  /** The counts after the row of `k1` are the pair counts of `done1 + {k1}`. */
  lemma RowCombine(r: map<int, nat>, r': map<int, nat>, d1: map<int, nat>, done1: set<int>, k1: int, c1: nat, d2: map<int, nat>)
    requires k1 in d1 && k1 !in done1 && c1 == d1[k1]
    requires forall x :: Count(r, x) == PairCount(Restrict(d1, done1), d2, x)
    requires forall x :: Count(r', x) == Count(r, x) + Ways(c1, Count(d2, x - k1))
    ensures forall x :: Count(r', x) == PairCount(Restrict(d1, done1 + {k1}), d2, x)
  {
    forall x ensures Count(r', x) == PairCount(Restrict(d1, done1 + {k1}), d2, x) {
      RowCombineAt(Count(r, x), Count(r', x), d1, done1, k1, d2, x);
    }
  }

  lemma RowCombineAt(c: nat, c': nat, d1: map<int, nat>, done1: set<int>, k1: int, d2: map<int, nat>, x: int)
    requires k1 in d1 && k1 !in done1
    requires c == PairCount(Restrict(d1, done1), d2, x)
    requires c' == c + Ways(d1[k1], Count(d2, x - k1))
    ensures c' == PairCount(Restrict(d1, done1 + {k1}), d2, x)
  {
    BagCounts(d2);
    PairCountStep(d1, done1, k1, Bag(d2), d2, x);
  }

  lemma PairCountStep(d1: map<int, nat>, done1: set<int>, k1: int, B: multiset<int>, d2: map<int, nat>, x: int)
    requires k1 in d1 && k1 !in done1
    requires forall y :: B[y] == Count(d2, y)
    ensures PairCount(Restrict(d1, done1 + {k1}), d2, x) == PairCount(Restrict(d1, done1), d2, x) + Ways(d1[k1], Count(d2, x - k1))
  {
    ConvCount(Restrict(d1, done1 + {k1}), B, d2, x);
    ConvCount(Restrict(d1, done1), B, d2, x);
    OuterStepCount(d1, done1, k1, B, x);
    CopiesWays(k1, d1[k1], B, x);
    assert B[x - k1] == Count(d2, x - k1);
  }

  lemma OuterStepCount(d1: map<int, nat>, done1: set<int>, k1: int, B: multiset<int>, x: int)
    requires k1 in d1 && k1 !in done1
    ensures Conv(Bag(Restrict(d1, done1 + {k1})), B)[x] == Conv(Bag(Restrict(d1, done1)), B)[x] + Conv(Copies(k1, d1[k1]), B)[x]
  {
    OuterStep(d1, done1, k1, B);
  }

  /** One more key `k1` of `d1` adds the convolution of its copies. */
  lemma OuterStep(d1: map<int, nat>, done1: set<int>, k1: int, B: multiset<int>)
    requires k1 in d1 && k1 !in done1
    ensures Conv(Bag(Restrict(d1, done1 + {k1})), B) == Conv(Bag(Restrict(d1, done1)), B) + Conv(Copies(k1, d1[k1]), B)
  {
    BagRestrictAdd(d1, done1, k1);
    ConvUnionLeft(Bag(Restrict(d1, done1)), Copies(k1, d1[k1]), B);
  }

  /** Counts that are the pair counts are the convolution of the outcomes, and then the merge of them. */
  lemma MergeResult(d1: map<int, nat>, d2: map<int, nat>, r: map<int, nat>)
    requires |d1| != 0 && |d2| != 0
    requires forall x :: Count(r, x) == PairCount(Restrict(d1, d1.Keys), d2, x)
    requires Positive(d1) && Positive(d2) ==> Positive(r)
    ensures forall x :: Count(r, x) == PairCount(d1, d2, x)
    ensures Bag(r) == Conv(Bag(d1), Bag(d2))
    ensures Positive(d1) && Positive(d2) ==> Bag(r) == Merge(Bag(d1), Bag(d2))
  {
    BagRestrictAll(d1);
    CountsToBag(d1, d2, r);
    BagCounts(d2);
    BagIsConv(d1, Bag(d2), d2, Bag(r));
    if Positive(d1) && Positive(d2) {
      BagEmpty(d1);
      BagEmpty(d2);
    }
  }

  lemma CountsToBag(d1: map<int, nat>, d2: map<int, nat>, r: map<int, nat>)
    requires forall x :: Count(r, x) == PairCount(d1, d2, x)
    ensures forall x :: Bag(r)[x] == PairCount(d1, d2, x)
  {
    BagCounts(r);
  }

  lemma BagIsConv(d1: map<int, nat>, B: multiset<int>, d2: map<int, nat>, R: multiset<int>)
    requires forall y :: B[y] == Count(d2, y)
    requires forall x :: R[x] == PairCount(d1, d2, x)
    ensures R == Conv(Bag(d1), B)
  {
    forall x ensures R[x] == Conv(Bag(d1), B)[x] {
      ConvCount(d1, B, d2, x);
    }
  }

  /** The counts of a merge of two non-empty dictionaries add up to the product of their totals. */
  lemma MergedTotal(d1: map<int, nat>, d2: map<int, nat>, r: map<int, nat>)
    requires Bag(r) == Conv(Bag(d1), Bag(d2))
    ensures Total(r) == Total(d1) * Total(d2)
  {
    ConvSize(Bag(d1), Bag(d2));
  }

  // ---------------------------------------------------------------------------
  // The dictionary of one die.

  /** `list.count`: the number of times `x` is written in `f`. */
  method CountOf(f: seq<int>, x: int) returns (c: nat)
    ensures c == multiset(f)[x]
  {
    c := 0;
    var i := 0;
    while i < |f|
      invariant 0 <= i <= |f|
      invariant c == multiset(f[..i])[x]
    {
      assert f[..i + 1] == f[..i] + [f[i]];
      if f[i] == x {
        c := c + 1;
      }
      i := i + 1;
    }
    assert f[..i] == f;
  }

  /** The loop over the distinct faces: each one with its number of occurrences. */
  method ExplicitDict(f: seq<int>) returns (m: map<int, nat>)
    ensures forall x :: x in m <==> x in f
    ensures forall x | x in m :: m[x] == multiset(f)[x]
  {
    m := map[];
    var todo := set x | x in f;
    while todo != {}
      invariant todo !! m.Keys
      invariant forall x :: x in f <==> x in todo || x in m
      invariant forall x | x in m :: m[x] == multiset(f)[x]
      decreases |todo|
    {
      var x := SomeElement(todo);
      var c := CountOf(f, x);
      m := m[x := c];
      todo := todo - {x};
    }
  }

  /** The comprehension `{x: 1 for x in range(1, n + 1)}`. */
  method UniformDict(n: int) returns (m: map<int, nat>)
    ensures forall x :: x in m <==> 1 <= x <= n
    ensures forall x | x in m :: m[x] == 1
  {
    m := map[];
    var x := 1;
    while x <= n
      invariant 1 <= x <= if n >= 1 then n + 1 else 1
      invariant forall y :: y in m <==> 1 <= y < x
      invariant forall y | y in m :: m[y] == 1
    {
      m := m[x := 1];
      x := x + 1;
    }
  }

  method SomeElement(S: set<int>) returns (x: int)
    requires S != {}
    ensures x in S
  {
    NonEmpty(multiset(S));
    x :| x in S;
  }

  /**
    The dictionary of a single die: each distinct face with its number of
    occurrences, or `1..n` once each for `n` sides, failing when `n` is not
    positive.
  */
  method SingleDieDict(d: Die) returns (r: Result<map<int, nat>>)
    ensures r == DiceDictOf([d])
  {
    match d {
      case Explicit(f) =>
        var m := ExplicitDict(f);
        DiceDictExplicit(f);
        SameMap(m, DiceDictOf([Explicit(f)]).value);
        r := Success(m);
      case Uniform(n) =>
        DiceDictUniform(n);
        if n <= 0 {
          return Failure(NonPositiveSides);
        }
        var m := UniformDict(n);
        SameMap(m, DiceDictOf([Uniform(n)]).value);
        r := Success(m);
    }
  }

  /** Two dictionaries with the same keys and the same counts are equal. */
  lemma SameMap(a: map<int, nat>, b: map<int, nat>)
    requires forall x :: x in a <==> x in b
    requires forall x | x in a :: a[x] == b[x]
    ensures a == b
  {
    forall x | x in a.Keys ensures x in b.Keys { }
    forall x | x in b.Keys ensures x in a.Keys { }
    forall x | x in a ensures a[x] == b[x] { }
  }

  // ---------------------------------------------------------------------------
  // The dictionary of a list of dice.

  /** A new array holding `a[lo..hi]`, as a list slice does. */
  method Slice(a: array<Die>, lo: nat, hi: nat) returns (b: array<Die>)
    requires lo <= hi <= a.Length
    ensures fresh(b) && b[..] == a[lo..hi]
  {
    b := new Die[hi - lo](_ => Uniform(0));
    var i := 0;
    while i < hi - lo
      invariant 0 <= i <= hi - lo
      invariant b[..i] == a[lo..lo + i]
      modifies b
    {
      b[i] := a[lo + i];
      i := i + 1;
    }
  }

  /** `len(dice) // 2`: the length of the left half, the right half taking the extra die. */
  function Half(n: nat): (h: nat)
    ensures h + h == n || h + h + 1 == n
  {
    n / 2
  }

  /** The draws a successful `DiceDict` on `n` dice takes from the generator. */
  function DrawsOf(n: nat): nat
  {
    if n <= 1 then 0 else Draws(n) + DrawsOf(Half(n)) + DrawsOf(n - Half(n))
  }

  /** The shuffle, then the left half, then the right half: the draws of the whole call. */
  lemma PositionAfterSplit(n: nat, a: nat, b: nat, p0: nat, p1: nat, p2: nat, p3: nat)
    requires n >= 2 && a == Half(n) && b == n - a
    requires p1 == p0 + Draws(n) && p2 == p1 + DrawsOf(a) && p3 == p2 + DrawsOf(b)
    ensures p3 == p0 + DrawsOf(n)
  {
  }

  /**
    `diceDict`: no dice give `{}`, one die its own dictionary; two or more
    are shuffled in place, split at half the length, and the dictionaries
    of the two halves are merged. A die with a non-positive number of sides
    fails the whole call. The caller's list keeps the same dice, shuffled.
  */
  method DiceDict(dice: array<Die>, rng: Random) returns (r: Result<map<int, nat>>)
    modifies dice, rng
    ensures r == DiceDictOf(old(dice[..]))
    ensures multiset(dice[..]) == multiset(old(dice[..]))
    ensures dice[..] == if dice.Length <= 1 then old(dice[..]) else Shuffled(old(dice[..]), dice.Length, rng.stream, old(rng.position))
    ensures r.Success? ==> rng.position == old(rng.position) + DrawsOf(dice.Length)
    decreases dice.Length
  {
    if dice.Length == 0 {
      assert dice[..] == [];
      return Success(map[]);
    }
    if dice.Length == 1 {
      assert dice[..] == [dice[0]];
      r := SingleDieDict(dice[0]);
      return;
    }
    ghost var s, p0 := dice[..], rng.position;
    rng.Shuffle(dice);
    ghost var p1, shuffled := rng.position, dice[..];
    var left, right := SplitHalves(dice);
    ghost var l, rt := left[..], right[..];
    var leftDict := DiceDict(left, rng);
    ghost var p2 := rng.position;
    if leftDict.Failure? {
      SplitFails(s, shuffled, l, rt);
      return leftDict;
    }
    var rightDict := DiceDict(right, rng);
    ghost var p3 := rng.position;
    if rightDict.Failure? {
      SplitFails(s, shuffled, l, rt);
      return rightDict;
    }
    var merged := MergeHalves(s, l, rt, leftDict.value, rightDict.value);
    PositionAfterSplit(dice.Length, left.Length, right.Length, p0, p1, p2, p3);
    r := Success(merged);
  }

  /** `dice[:half]` and `dice[half:]`, as two new lists. */
  method SplitHalves(dice: array<Die>) returns (left: array<Die>, right: array<Die>)
    requires dice.Length >= 2
    ensures fresh(left) && fresh(right) && left != right
    ensures left.Length == Half(dice.Length) && right.Length == dice.Length - Half(dice.Length)
    ensures left[..] + right[..] == dice[..]
  {
    var half := Half(dice.Length);
    left := Slice(dice, 0, half);
    right := Slice(dice, half, dice.Length);
    assert dice[..] == dice[..half] + dice[half..];
  }

  /** The merge of the dictionaries of the two halves is the dictionary of the whole list. */
  method MergeHalves(ghost s: seq<Die>, ghost l: seq<Die>, ghost rt: seq<Die>, leftDict: map<int, nat>, rightDict: map<int, nat>)
    returns (merged: map<int, nat>)
    requires multiset(l + rt) == multiset(s)
    requires DiceDictOf(l) == Success(leftDict) && DiceDictOf(rt) == Success(rightDict)
    ensures DiceDictOf(s) == Success(merged)
  {
    DiceDictPositive(l);
    DiceDictPositive(rt);
    merged := MergeDiceDicts(leftDict, rightDict);
    SplitMerges(s, l + rt, l, rt, merged);
  }

  /** A failing half means a die of the whole list fails the check. */
  lemma SplitFails(s: seq<Die>, shuffled: seq<Die>, l: seq<Die>, rt: seq<Die>)
    requires multiset(shuffled) == multiset(s) && shuffled == l + rt
    requires DiceDictOf(l).Failure? || DiceDictOf(rt).Failure?
    ensures DiceDictOf(s) == Failure(NonPositiveSides)
  {
    var d :| (d in l || d in rt) && !Sound(d);
    assert d in shuffled;
    assert d in multiset(s);
  }

  /** Merging the dictionaries of the two halves gives the dictionary of the whole list. */
  lemma SplitMerges(s: seq<Die>, shuffled: seq<Die>, l: seq<Die>, rt: seq<Die>, merged: map<int, nat>)
    requires multiset(shuffled) == multiset(s) && shuffled == l + rt
    requires DiceDictOf(l).Success? && DiceDictOf(rt).Success?
    requires Bag(merged) == Merge(Bag(DiceDictOf(l).value), Bag(DiceDictOf(rt).value)) && Positive(merged)
    ensures DiceDictOf(s) == Success(merged)
  {
    BagOfToMap(Dist(l));
    BagOfToMap(Dist(rt));
    DistAppend(l, rt);
    DiceDictPermutation(shuffled, s);
    assert AllSound(shuffled) by {
      forall d | d in shuffled ensures Sound(d) {
        assert d in l || d in rt;
      }
    }
    ToMapOfBag(merged);
  }

  // ---------------------------------------------------------------------------
  // Probabilities and rolls.

  /** The argument of `diceProb` and `roll`: a number of sides, or a list of dice. */
  datatype DiceArg = Sides(n: int) | DiceList(dice: array<Die>)

  /** The objects an argument lets a call change: the list, when there is one. */
  function ListOf(arg: DiceArg): set<object>
  {
    if arg.DiceList? then {arg.dice} else {}
  }

  /** The dice an argument stands for: a number is a list with that one die. */
  function DiceOf(arg: DiceArg): seq<Die>
    reads ListOf(arg)
  {
    match arg
    case Sides(n) => [Uniform(n)]
    case DiceList(a) => a[..]
  }

  /** `sum(result.values())`. */
  method SumValues(m: map<int, nat>) returns (s: nat)
    ensures s == Total(m)
  {
    s := 0;
    var todo, done := m.Keys, {};
    BagRestrictNone(m);
    while todo != {}
      invariant todo + done == m.Keys && todo !! done
      invariant s == Total(Restrict(m, done))
      decreases |todo|
    {
      var k := SomeElement(todo);
      TotalRestrictAdd(m, done, k);
      s := s + m[k];
      todo, done := todo - {k}, done + {k};
    }
    BagRestrictAll(m);
  }

  lemma TotalRestrictAdd(m: map<int, nat>, keys: set<int>, k: int)
    requires k in m && k !in keys
    ensures Total(Restrict(m, keys + {k})) == Total(Restrict(m, keys)) + m[k]
  {
    BagRestrictAdd(m, keys, k);
    RepeatCopies(k, m[k]);
  }

  /**
    `diceProb` with `exact=True`: a number is recast as a one-die list; each
    count of the dictionary becomes the fraction of the total.
  */
  method DiceProb(arg: DiceArg, rng: Random) returns (r: Result<map<int, Fraction>>)
    modifies ListOf(arg), rng
    ensures r == DiceProbOf(old(DiceOf(arg)))
    ensures arg.DiceList? ==> multiset(arg.dice[..]) == multiset(old(arg.dice[..]))
    ensures arg.DiceList? ==> arg.dice[..] == if arg.dice.Length <= 1 then old(arg.dice[..]) else Shuffled(old(arg.dice[..]), arg.dice.Length, rng.stream, old(rng.position))
    ensures r.Success? ==> rng.position == old(rng.position) + DrawsOf(|old(DiceOf(arg))|)
  {
    var dice: array<Die>;
    match arg {
      case Sides(n) =>
        dice := new Die[1](_ => Uniform(n));
        assert dice[..] == [Uniform(n)];
      case DiceList(a) =>
        dice := a;
    }
    var d := DiceDict(dice, rng);
    if d.Failure? {
      return Failure(d.error);
    }
    var s := SumValues(d.value);
    r := Success(map x | x in d.value :: Fraction(d.value[x], s));
  }

  /**
    A number `n` is recast as the one-die list `[n]`: each of `1..n` has
    probability `1/n`, and a number of sides `n <= 0` fails the check.
  */
  lemma SidesProb(n: int)
    ensures DiceOf(Sides(n)) == [Uniform(n)]
    ensures DiceProbOf(DiceOf(Sides(n))).Success? <==> n > 0
    ensures n > 0 ==> forall x :: x in DiceProbOf(DiceOf(Sides(n))).value <==> 1 <= x <= n
    ensures n > 0 ==> forall x | 1 <= x <= n :: DiceProbOf(DiceOf(Sides(n))).value[x] == Fraction(1, n)
  {
    var dice := [Uniform(n)];
    DiceDictUniform(n);
    if n > 0 {
      var m := DiceDictOf(dice).value;
      assert Live(Uniform(n)) && dice[1..] == [];
      DiceDictTotal(dice);
      assert Total(m) == n;
      assert DiceProbOf(dice).value == FractionsOver(m, n);
    }
  }

  /**
    `roll`, with the face chosen on die `i` given as its position `picks[i]`:
    the sum of the chosen faces, failing at the first die with a
    non-positive number of sides or with no faces.
  */
  method Roll(arg: DiceArg, picks: seq<nat>) returns (r: Result<int>)
    requires Chosen(DiceOf(arg), picks)
    ensures r == RollOf(DiceOf(arg), picks)
  {
    var dice := match arg case Sides(n) => [Uniform(n)] case DiceList(a) => a[..];
    var result := 0;
    var i := 0;
    while i < |dice|
      invariant 0 <= i <= |dice|
      invariant Chosen(dice[i..], picks[i..])
      invariant RollOf(dice, picks) == Added(RollOf(dice[i..], picks[i..]), result)
    {
      RollStep(dice[i..], picks[i..]);
      assert dice[i..][1..] == dice[i + 1..] && picks[i..][1..] == picks[i + 1..];
      match dice[i] {
        case Uniform(n) =>
          if n <= 0 {
            return Failure(NonPositiveSides);
          }
          result := result + (picks[i] + 1);
        case Explicit(f) =>
          if |f| == 0 {
            return Failure(EmptyChoice);
          }
          result := result + f[picks[i]];
      }
      i := i + 1;
    }
    assert dice[i..] == [];
    r := Success(result);
  }

  /** A roll of the remaining dice with `a` already added. */
  function Added(r: Result<int>, a: int): Result<int>
  {
    match r
    case Failure(e) => Failure(e)
    case Success(v) => Success(a + v)
  }

  /** One step of a roll: the first die fails it, or its chosen face is added to the roll of the rest. */
  lemma RollStep(dice: seq<Die>, picks: seq<nat>)
    requires Chosen(dice, picks) && |dice| != 0
    ensures Chosen(dice[1..], picks[1..])
    ensures !Sound(dice[0]) ==> RollOf(dice, picks) == Failure(NonPositiveSides)
    ensures Sound(dice[0]) && |Faces(dice[0])| == 0 ==> RollOf(dice, picks) == Failure(EmptyChoice)
    ensures Sound(dice[0]) && |Faces(dice[0])| != 0 ==>
      RollOf(dice, picks) == Added(RollOf(dice[1..], picks[1..]), Faces(dice[0])[picks[0]])
  {
    ChosenTail(dice, picks);
  }
}
