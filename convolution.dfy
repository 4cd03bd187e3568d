/**
  The arithmetic behind the dice distributions: a distribution is a multiset of
  outcomes (the multiplicity of a value is the number of ways to roll it), and
  throwing two independent groups of dice together is the convolution of their
  multisets. The convolution is computed on outcome sequences (`Cross`) and
  lifted to multisets (`Conv`); outcome-count dictionaries are related to
  multisets by `Bag` and `ToMap`.
*/
module Convolution {

  /** The multiset holding `n` copies of `x`. */
  function Copies(x: int, n: nat): multiset<int>
  {
    multiset{}[x := n]
  }

  /** The sequence holding `n` copies of `x`. */
  function Repeat(x: int, n: nat): seq<int>
  {
    seq(n, _ => x)
  }

  /** `t` with `c` added to every outcome. */
  function ShiftSeq(t: seq<int>, c: int): seq<int>
  {
    seq(|t|, i requires 0 <= i < |t| => t[i] + c)
  }

  /**
    Every outcome of `s` added to every outcome of `t`, ordered by the
    position in `s` first: the outcomes of throwing both groups of dice.
  */
  function Cross(s: seq<int>, t: seq<int>): seq<int>
  {
    if |s| == 0 then []
    else ShiftSeq(t, s[0]) + Cross(s[1..], t)
  }

  // ---------------------------------------------------------------------------
  // Shifting.

  /** Shifting by `c` moves the multiplicity of `x - c` to `x`. */
  lemma {:induction false} ShiftSeqAt(t: seq<int>, c: int, x: int)
    ensures multiset(ShiftSeq(t, c))[x] == multiset(t)[x - c]
  {
    if |t| != 0 {
      ShiftSeqAt(t[1..], c, x);
      assert t == [t[0]] + t[1..];
      assert ShiftSeq(t, c) == [t[0] + c] + ShiftSeq(t[1..], c);
    }
  }

  /** Shifting rearranged outcomes gives rearranged outcomes. */
  lemma ShiftSeqPermutation(t: seq<int>, t': seq<int>, c: int)
    requires multiset(t) == multiset(t')
    ensures multiset(ShiftSeq(t, c)) == multiset(ShiftSeq(t', c))
  {
    forall x ensures multiset(ShiftSeq(t, c))[x] == multiset(ShiftSeq(t', c))[x] {
      ShiftSeqAt(t, c, x);
      ShiftSeqAt(t', c, x);
    }
  }

  lemma ShiftSeqAppend(u: seq<int>, v: seq<int>, c: int)
    ensures ShiftSeq(u + v, c) == ShiftSeq(u, c) + ShiftSeq(v, c)
  {
    assert forall i :: 0 <= i < |u| + |v| ==> ShiftSeq(u + v, c)[i] == (ShiftSeq(u, c) + ShiftSeq(v, c))[i];
  }

  lemma ShiftSeqShift(t: seq<int>, a: int, c: int)
    ensures ShiftSeq(ShiftSeq(t, a), c) == ShiftSeq(t, a + c)
  {
  }

  // ---------------------------------------------------------------------------
  // The cross sum of outcome sequences.

  /** The number of outcomes of a cross sum is the product of the numbers of outcomes. */
  lemma {:induction false} CrossSize(s: seq<int>, t: seq<int>)
    ensures |Cross(s, t)| == |s| * |t|
  {
    if |s| != 0 {
      CrossSize(s[1..], t);
      assert |s| * |t| == (|s| - 1) * |t| + |t|;
    }
  }

  lemma {:induction false} CrossAppendLeft(s1: seq<int>, s2: seq<int>, t: seq<int>)
    ensures Cross(s1 + s2, t) == Cross(s1, t) + Cross(s2, t)
  {
    if |s1| == 0 {
      assert s1 + s2 == s2;
    } else {
      assert (s1 + s2)[1..] == s1[1..] + s2;
      CrossAppendLeft(s1[1..], s2, t);
    }
  }

  lemma {:induction false} CrossEmptyRight(s: seq<int>)
    ensures Cross(s, []) == []
  {
    if |s| != 0 {
      CrossEmptyRight(s[1..]);
    }
  }

  lemma {:induction false} CrossSingleRight(s: seq<int>, b: int)
    ensures Cross(s, [b]) == ShiftSeq(s, b)
  {
    if |s| != 0 {
      CrossSingleRight(s[1..], b);
      assert ShiftSeq(s, b) == [s[0] + b] + ShiftSeq(s[1..], b);
    }
  }

  /** A single outcome `0` on the left changes nothing. */
  lemma CrossUnitLeft(t: seq<int>)
    ensures Cross([0], t) == t
  {
    assert [0][1..] == [];
    assert ShiftSeq(t, 0) == t;
  }

  /** The cross sum distributes over concatenation on the right, up to order. */
  lemma {:induction false} CrossAppendRight(s: seq<int>, u: seq<int>, v: seq<int>)
    ensures multiset(Cross(s, u + v)) == multiset(Cross(s, u)) + multiset(Cross(s, v))
  {
    if |s| != 0 {
      CrossAppendRight(s[1..], u, v);
      ShiftSeqAppend(u, v, s[0]);
    }
  }

  /** Rearranging the left outcomes rearranges the cross sum. */
  lemma {:induction false} CrossPermutationLeft(s: seq<int>, s': seq<int>, t: seq<int>)
    requires multiset(s) == multiset(s')
    ensures multiset(Cross(s, t)) == multiset(Cross(s', t))
    decreases |s|
  {
    if |s| == 0 {
      assert |s'| == 0;
    } else {
      var i := IndexOf(s', s[0]);
      RemoveAt(s, s', i);
      CrossPermutationLeft(s[1..], s'[..i] + s'[i + 1..], t);
      CrossMoveToFront(s, s', i, t);
    }
  }

  /** A position of `a` in `s`. */
  lemma IndexOf<T>(s: seq<T>, a: T) returns (i: nat)
    requires a in multiset(s)
    ensures i < |s| && s[i] == a
  {
    i :| i < |s| && s[i] == a;
  }

  /** The step of `CrossPermutationLeft`: the cross sums agree once the matched outcomes are set aside. */
  lemma CrossMoveToFront(s: seq<int>, s': seq<int>, i: nat, t: seq<int>)
    requires 0 < |s| && i < |s'| && s'[i] == s[0]
    requires multiset(Cross(s[1..], t)) == multiset(Cross(s'[..i] + s'[i + 1..], t))
    ensures multiset(Cross(s, t)) == multiset(Cross(s', t))
  {
    var u, v := s'[..i], s'[i + 1..];
    CrossSplitAt(s', i, t);
    CrossAppendLeft(u, v, t);
    MoveMiddle(Cross(s, t), Cross(s', t), ShiftSeq(t, s[0]), Cross(s[1..], t), Cross(u, t), Cross(v, t));
  }

  /** The cross sum taken apart around position `i` of the left outcomes. */
  lemma CrossSplitAt(s: seq<int>, i: nat, t: seq<int>)
    requires i < |s|
    ensures Cross(s, t) == Cross(s[..i], t) + (ShiftSeq(t, s[i]) + Cross(s[i + 1..], t))
  {
    var u, v := s[..i], s[i + 1..];
    assert s == u + ([s[i]] + v);
    CrossAppendLeft(u, [s[i]] + v, t);
    CrossCons(s[i], v, t);
  }

  lemma CrossCons(a: int, v: seq<int>, t: seq<int>)
    ensures Cross([a] + v, t) == ShiftSeq(t, a) + Cross(v, t)
  {
    assert ([a] + v)[1..] == v;
  }

  /** The bookkeeping step of `CrossPermutationLeft`, stated on plain sequences. */
  lemma MoveMiddle(x: seq<int>, y: seq<int>, m: seq<int>, r: seq<int>, u: seq<int>, v: seq<int>)
    requires x == m + r
    requires y == u + (m + v)
    requires multiset(r) == multiset(u + v)
    ensures multiset(x) == multiset(y)
  {
  }

  /** Taking the first outcome of `s` and the same outcome at `i` of `s'` keeps them rearrangements. */
  lemma RemoveAt<T>(s: seq<T>, s': seq<T>, i: int)
    requires multiset(s) == multiset(s')
    requires 0 < |s| && 0 <= i < |s'| && s'[i] == s[0]
    ensures multiset(s[1..]) == multiset(s'[..i] + s'[i + 1..])
  {
    assert s == [s[0]] + s[1..];
    assert s' == s'[..i] + [s[0]] + s'[i + 1..];
    assert multiset(s[1..]) == multiset(s) - multiset{s[0]};
  }

  /** Rearranging the right outcomes rearranges the cross sum. */
  lemma {:induction false} CrossPermutationRight(s: seq<int>, t: seq<int>, t': seq<int>)
    requires multiset(t) == multiset(t')
    ensures multiset(Cross(s, t)) == multiset(Cross(s, t'))
  {
    if |s| != 0 {
      CrossPermutationRight(s[1..], t, t');
      ShiftSeqPermutation(t, t', s[0]);
    }
  }

  /** The cross sum is commutative up to order. */
  lemma {:induction false} CrossCommutes(s: seq<int>, t: seq<int>)
    ensures multiset(Cross(s, t)) == multiset(Cross(t, s))
  {
    if |s| == 0 {
      CrossEmptyRight(t);
    } else {
      CrossCommutes(s[1..], t);
      CrossSingleRight(t, s[0]);
      assert s == [s[0]] + s[1..];
      CrossAppendRight(t, [s[0]], s[1..]);
    }
  }

  lemma {:induction false} ShiftCross(s: seq<int>, t: seq<int>, c: int)
    ensures ShiftSeq(Cross(s, t), c) == Cross(ShiftSeq(s, c), t)
  {
    if |s| != 0 {
      ShiftCross(s[1..], t, c);
      ShiftSeqAppend(ShiftSeq(t, s[0]), Cross(s[1..], t), c);
      ShiftSeqShift(t, s[0], c);
      assert ShiftSeq(s, c)[1..] == ShiftSeq(s[1..], c);
    }
  }

  /** The cross sum is associative. */
  lemma {:induction false} CrossAssoc(s: seq<int>, t: seq<int>, u: seq<int>)
    ensures Cross(Cross(s, t), u) == Cross(s, Cross(t, u))
  {
    if |s| != 0 {
      CrossAssoc(s[1..], t, u);
      CrossAppendLeft(ShiftSeq(t, s[0]), Cross(s[1..], t), u);
      ShiftCross(t, u, s[0]);
    }
  }

  /** Which of two groups is crossed in first makes no difference, up to order. */
  lemma CrossSwap(f: seq<int>, u: seq<int>, v: seq<int>)
    ensures multiset(Cross(f, Cross(u, v))) == multiset(Cross(u, Cross(f, v)))
  {
    CrossAssoc(f, u, v);
    CrossCommutes(f, u);
    CrossPermutationLeft(Cross(f, u), Cross(u, f), v);
    CrossAssoc(u, f, v);
  }

  /** The outcomes of a cross sum are exactly the pairwise sums. */
  lemma {:induction false} CrossSupport(s: seq<int>, t: seq<int>, x: int)
    ensures x in Cross(s, t) <==> exists a, b :: a in s && b in t && x == a + b
  {
    if |s| != 0 {
      CrossSupport(s[1..], t, x);
      var a0 := s[0];
      if x in Cross(s, t) {
        if x in ShiftSeq(t, a0) {
          var j :| 0 <= j < |t| && ShiftSeq(t, a0)[j] == x;
          assert a0 in s && t[j] in t && x == a0 + t[j];
        } else {
          var a, b :| a in s[1..] && b in t && x == a + b;
          assert a in s;
        }
      }
      if exists a, b :: a in s && b in t && x == a + b {
        var a, b :| a in s && b in t && x == a + b;
        if a == a0 {
          var j :| 0 <= j < |t| && t[j] == b;
          assert ShiftSeq(t, a0)[j] == x;
        } else {
          assert s == [a0] + s[1..];
          assert a in s[1..];
        }
      }
    }
  }

  lemma RepeatCopies(x: int, n: nat)
    ensures multiset(Repeat(x, n)) == Copies(x, n)
  {
    assert forall y :: y != x ==> y !in Repeat(x, n);
    if n != 0 {
      assert Repeat(x, n) == Repeat(x, n - 1) + [x];
      RepeatCopies(x, n - 1);
    }
  }

  /** `c` copies of `a` against `t`: each outcome of `t`, moved up by `a`, `c` times over. */
  lemma {:induction false} CrossRepeatAt(a: int, c: nat, t: seq<int>, x: int)
    ensures multiset(Cross(Repeat(a, c), t))[x] == c * multiset(t)[x - a]
  {
    if c != 0 {
      var n := multiset(t)[x - a];
      var rest := Cross(Repeat(a, c - 1), t);
      CrossRepeatAt(a, c - 1, t, x);
      CrossRepeatCons(a, c, t);
      ShiftSeqAt(t, a, x);
      CountStep(multiset(Cross(Repeat(a, c), t))[x], multiset(ShiftSeq(t, a))[x], multiset(rest)[x], n, c);
    }
  }

  /** The counting step of `CrossRepeatAt`, on plain numbers. */
  lemma CountStep(total: int, first: int, rest: int, n: int, c: nat)
    requires c != 0 && total == first + rest && first == n && rest == (c - 1) * n
    ensures total == c * n
  {
  }

  lemma CrossRepeatCons(a: int, c: nat, t: seq<int>)
    requires c != 0
    ensures Cross(Repeat(a, c), t) == ShiftSeq(t, a) + Cross(Repeat(a, c - 1), t)
  {
    assert Repeat(a, c)[1..] == Repeat(a, c - 1);
  }

  // ---------------------------------------------------------------------------
  // Convolution of outcome multisets.

  /** Some element of a non-empty multiset. */
  ghost function Pick(A: multiset<int>): (a: int)
    requires |A| != 0
    ensures a in A
  {
    NonEmpty(A);
    var a :| a in A; a
  }

  /** A multiset of non-zero size has an element; sets and key sets use it through `multiset(...)`. */
  lemma NonEmpty(A: multiset<int>)
    requires |A| != 0
    ensures exists a :: a in A
  {
    if forall a :: a !in A {
      assert false;
    }
  }

  /** The outcomes of `A` listed in some order. */
  ghost function SeqOf(A: multiset<int>): (s: seq<int>)
    ensures multiset(s) == A
    decreases |A|
  {
    if |A| == 0 then []
    else
      var a := Pick(A);
      [a] + SeqOf(A - multiset{a})
  }

  /**
    The convolution of two outcome multisets: every `a + b` with `a` from `A`
    and `b` from `B`, each pair counted once.
  */
  ghost function Conv(A: multiset<int>, B: multiset<int>): multiset<int>
  {
    multiset(Cross(SeqOf(A), SeqOf(B)))
  }

  /** Whatever order the outcomes are listed in, their cross sum is the convolution. */
  lemma ConvOfSeqs(s: seq<int>, t: seq<int>)
    ensures Conv(multiset(s), multiset(t)) == multiset(Cross(s, t))
  {
    CrossPermutationLeft(SeqOf(multiset(s)), s, SeqOf(multiset(t)));
    CrossPermutationRight(s, SeqOf(multiset(t)), t);
  }

  /** The order in which two groups of dice are merged does not matter. */
  lemma ConvCommutes(A: multiset<int>, B: multiset<int>)
    ensures Conv(A, B) == Conv(B, A)
  {
    CrossCommutes(SeqOf(A), SeqOf(B));
  }

  /** How a list of dice is split into groups does not matter. */
  lemma ConvAssoc(A: multiset<int>, B: multiset<int>, C: multiset<int>)
    ensures Conv(Conv(A, B), C) == Conv(A, Conv(B, C))
  {
    var a, b, c := SeqOf(A), SeqOf(B), SeqOf(C);
    ConvOfSeqs(Cross(a, b), c);
    ConvOfSeqs(a, Cross(b, c));
    CrossAssoc(a, b, c);
  }

  /** The number of outcomes of a convolution is the product of the numbers of outcomes. */
  lemma ConvSize(A: multiset<int>, B: multiset<int>)
    ensures |Conv(A, B)| == |A| * |B|
  {
    CrossSize(SeqOf(A), SeqOf(B));
  }

  /** Nothing to combine with gives nothing. */
  lemma ConvEmpty(A: multiset<int>)
    ensures Conv(A, multiset{}) == multiset{}
    ensures Conv(multiset{}, A) == multiset{}
  {
    CrossEmptyRight(SeqOf(A));
  }

  /** Convolution distributes over multiset union on the left. */
  lemma ConvUnionLeft(A1: multiset<int>, A2: multiset<int>, B: multiset<int>)
    ensures Conv(A1 + A2, B) == Conv(A1, B) + Conv(A2, B)
  {
    var s1, s2, t := SeqOf(A1), SeqOf(A2), SeqOf(B);
    ConvOfSeqs(s1 + s2, t);
    CrossAppendLeft(s1, s2, t);
  }

  /** The ways to make `x` from `c` copies of `a` and one outcome of `B`. */
  lemma ConvCopiesAt(a: int, c: nat, B: multiset<int>, x: int)
    ensures Conv(Copies(a, c), B)[x] == c * B[x - a]
  {
    RepeatCopies(a, c);
    ConvOfSeqs(Repeat(a, c), SeqOf(B));
    CrossRepeatAt(a, c, SeqOf(B), x);
  }

  // ---------------------------------------------------------------------------
  // Outcome-count dictionaries seen as multisets.

  /** Some key of a non-empty dictionary. */
  ghost function PickKey<V>(m: map<int, V>): (k: int)
    requires |m| != 0
    ensures k in m
  {
    NonEmpty(multiset(m.Keys));
    var k :| k in m; k
  }

  /** The count of `x` in a dictionary: its entry, or zero when it is not a key. */
  function Count(m: map<int, nat>, x: int): nat
  {
    if x in m then m[x] else 0
  }

  /** The outcomes a count dictionary stands for: key `k` repeated `m[k]` times. */
  ghost function Bag(m: map<int, nat>): multiset<int>
    decreases |m|
  {
    if |m| == 0 then multiset{}
    else
      var k := PickKey(m);
      Bag(m - {k})[k := m[k]]
  }

  /** The number of copies of `x` among the outcomes of `m` is its count, or zero when it is not a key. */
  lemma {:induction false} BagAt(m: map<int, nat>, x: int)
    ensures Bag(m)[x] == if x in m then m[x] else 0
    decreases |m|
  {
    if |m| != 0 {
      BagAt(m - {PickKey(m)}, x);
    }
  }

  /** A multiset with the counts of `m` is the multiset of `m`. */
  lemma BagEq(m: map<int, nat>, M: multiset<int>)
    requires forall x :: M[x] == if x in m then m[x] else 0
    ensures Bag(m) == M
  {
    forall x ensures Bag(m)[x] == M[x] {
      BagAt(m, x);
    }
  }

  /** The count dictionary of a multiset of outcomes. */
  function ToMap(M: multiset<int>): map<int, nat>
  {
    map x | x in M :: M[x]
  }

  /** The sum of the counts of a dictionary. */
  ghost function Total(m: map<int, nat>): nat
  {
    |Bag(m)|
  }

  ghost predicate Positive(m: map<int, nat>)
  {
    forall k :: k in m ==> m[k] > 0
  }

  /** The entries of `m` whose keys are in `keys`. */
  function Restrict(m: map<int, nat>, keys: set<int>): map<int, nat>
  {
    map k | k in m && k in keys :: m[k]
  }

  /** `ToMap` and `Bag` are inverse: a dictionary of positive counts is determined by its outcomes. */
  lemma BagOfToMap(M: multiset<int>)
    ensures Bag(ToMap(M)) == M
    ensures Positive(ToMap(M))
    ensures ToMap(M).Keys == set x | x in M
  {
    BagEq(ToMap(M), M);
  }

  lemma ToMapOfBag(m: map<int, nat>)
    requires Positive(m)
    ensures ToMap(Bag(m)) == m
  {
    forall x ensures x in ToMap(Bag(m)) <==> x in m {
      BagAt(m, x);
    }
    forall x | x in m ensures ToMap(Bag(m))[x] == m[x] {
      BagAt(m, x);
    }
  }

  lemma BagRestrictAll(m: map<int, nat>)
    ensures Restrict(m, m.Keys) == m
  {
  }

  lemma BagRestrictAdd(m: map<int, nat>, keys: set<int>, k: int)
    requires k in m && k !in keys
    ensures Bag(Restrict(m, keys + {k})) == Bag(Restrict(m, keys)) + Copies(k, m[k])
  {
    var r, r' := Restrict(m, keys), Restrict(m, keys + {k});
    forall x ensures (Bag(r) + Copies(k, m[k]))[x] == if x in r' then r'[x] else 0 {
      BagAt(r, x);
    }
    BagEq(r', Bag(r) + Copies(k, m[k]));
  }

  lemma BagRestrictNone(m: map<int, nat>)
    ensures Bag(Restrict(m, {})) == multiset{}
  {
    assert Restrict(m, {}) == map[];
  }

  /** Taking key `k` out of a dictionary takes its copies out of the outcomes. */
  lemma BagRemoveKey(m: map<int, nat>, k: int)
    requires k in m
    ensures Bag(m) == Bag(m - {k}) + Copies(k, m[k])
  {
    forall x ensures (Bag(m - {k}) + Copies(k, m[k]))[x] == if x in m then m[x] else 0 {
      BagAt(m - {k}, x);
    }
    BagEq(m, Bag(m - {k}) + Copies(k, m[k]));
  }

  /** A dictionary of positive counts has no outcomes exactly when it is empty. */
  lemma BagEmpty(m: map<int, nat>)
    requires Positive(m)
    ensures Bag(m) == multiset{} <==> |m| == 0
  {
    if |m| != 0 {
      var k := PickKey(m);
      BagAt(m, k);
    }
  }
}
