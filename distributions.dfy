/**
  What the dice functions compute, stated on values. A die is a number of
  sides `n` (faces `1..n`) or an explicit list of faces. The distribution of a
  list of dice is a multiset of outcomes, obtained by merging the faces of the
  dice one after the other; a merge with a group that has no outcomes leaves
  the other group as it is, as the dictionary merge does.
*/
module Distributions {
  import opened Convolution

  /** A die: `n` sides numbered `1..n`, or the values written on its sides. */
  datatype Die = Uniform(n: int) | Explicit(faces: seq<int>)

  /** The two ways the dice functions fail: a non-positive number of sides, and a choice from no faces. */
  datatype DiceError = NonPositiveSides | EmptyChoice

  datatype Result<T> = Success(value: T) | Failure(error: DiceError)

  /** An exact probability `num / den`, kept as the pair it is built from. */
  datatype Fraction = Fraction(num: int, den: int)

  /** The faces of a die, in order; a die with `n <= 0` sides has none. */
  function Faces(d: Die): seq<int>
  {
    match d
    case Uniform(n) => Numbered(if n > 0 then n else 0)
    case Explicit(f) => f
  }

  /** The faces `1..n` of an `n`-sided die. */
  function Numbered(n: nat): seq<int>
  {
    seq(n, i => i + 1)
  }

  /** On an `n`-sided die each of `1..n` appears once and nothing else appears. */
  lemma {:induction false} NumberedCount(n: nat, x: int)
    ensures multiset(Numbered(n))[x] == if 1 <= x <= n then 1 else 0
  {
    if n > 0 {
      NumberedCount(n - 1, x);
      assert Numbered(n) == Numbered(n - 1) + [n];
    }
  }

  /** A die the dice functions accept: a number of sides must be positive. */
  predicate Sound(d: Die)
  {
    d.Uniform? ==> d.n > 0
  }

  /** A die with at least one face. */
  predicate Live(d: Die)
  {
    |Faces(d)| > 0
  }

  predicate AllSound(dice: seq<Die>)
  {
    forall d | d in dice :: Sound(d)
  }

  predicate AllLive(dice: seq<Die>)
  {
    forall d | d in dice :: Live(d)
  }

  /** The dice that have faces, in order. */
  function LiveDice(dice: seq<Die>): seq<Die>
  {
    if |dice| == 0 then []
    else if Live(dice[0]) then [dice[0]] + LiveDice(dice[1..])
    else LiveDice(dice[1..])
  }

  /** The product of the numbers of faces. */
  function FaceProduct(dice: seq<Die>): nat
  {
    if |dice| == 0 then 1 else |Faces(dice[0])| * FaceProduct(dice[1..])
  }

  // ---------------------------------------------------------------------------
  // Merging and the distribution of a list of dice.

  /** The merge of two outcome multisets: a group without outcomes leaves the other unchanged. */
  ghost function Merge(A: multiset<int>, B: multiset<int>): multiset<int>
  {
    if A == multiset{} then B
    else if B == multiset{} then A
    else Conv(A, B)
  }

  /** Every sum of one face per die, the first die varying slowest. */
  function Outcomes(dice: seq<Die>): seq<int>
  {
    if |dice| == 0 then [0]
    else Cross(Faces(dice[0]), Outcomes(dice[1..]))
  }

  /**
    The outcomes of a list of dice: every sum of one face per die, over the
    dice that have faces; none when no die has a face.
  */
  ghost function Dist(dice: seq<Die>): multiset<int>
  {
    var live := LiveDice(dice);
    if |live| == 0 then multiset{} else multiset(Outcomes(live))
  }

  /**
    The outcome-count dictionary of a list of dice, or the failure of the
    check on the number of sides.
  */
  ghost function DiceDictOf(dice: seq<Die>): Result<map<int, nat>>
  {
    if AllSound(dice) then Success(ToMap(Dist(dice))) else Failure(NonPositiveSides)
  }

  lemma MergeCommutes(A: multiset<int>, B: multiset<int>)
    ensures Merge(A, B) == Merge(B, A)
  {
    if A != multiset{} && B != multiset{} {
      ConvCommutes(A, B);
    }
  }

  lemma NonEmptyConv(A: multiset<int>, B: multiset<int>)
    requires A != multiset{} && B != multiset{}
    ensures Conv(A, B) != multiset{}
  {
    ConvSize(A, B);
    assert |A| > 0 && |B| > 0;
    assert |A| * |B| > 0;
  }

  lemma MergeAssoc(A: multiset<int>, B: multiset<int>, C: multiset<int>)
    ensures Merge(Merge(A, B), C) == Merge(A, Merge(B, C))
  {
    if A != multiset{} && B != multiset{} && C != multiset{} {
      NonEmptyConv(A, B);
      NonEmptyConv(B, C);
      ConvAssoc(A, B, C);
    }
  }

  /** The outcomes of two lists of dice thrown together are the cross sum of their outcomes. */
  lemma {:induction false} OutcomesAppend(a: seq<Die>, b: seq<Die>)
    ensures Outcomes(a + b) == Cross(Outcomes(a), Outcomes(b))
  {
    if |a| == 0 {
      assert a + b == b;
      CrossUnitLeft(Outcomes(b));
    } else {
      assert (a + b)[0] == a[0];
      assert (a + b)[1..] == a[1..] + b;
      OutcomesAppend(a[1..], b);
      CrossAssoc(Faces(a[0]), Outcomes(a[1..]), Outcomes(b));
    }
  }

  lemma {:induction false} OutcomesSize(dice: seq<Die>)
    ensures |Outcomes(dice)| == FaceProduct(dice)
  {
    if |dice| != 0 {
      OutcomesSize(dice[1..]);
      CrossSize(Faces(dice[0]), Outcomes(dice[1..]));
    }
  }

  lemma {:induction false} FaceProductPositive(dice: seq<Die>)
    requires AllLive(dice)
    ensures FaceProduct(dice) > 0
  {
    if |dice| != 0 {
      assert dice[0] in dice;
      FaceProductPositive(dice[1..]);
      assert |Faces(dice[0])| * FaceProduct(dice[1..]) > 0;
    }
  }

  /** Dice that all have faces have at least one outcome. */
  lemma OutcomesNonEmpty(dice: seq<Die>)
    requires AllLive(dice)
    ensures multiset(Outcomes(dice)) != multiset{}
  {
    OutcomesSize(dice);
    FaceProductPositive(dice);
    assert Outcomes(dice)[0] in multiset(Outcomes(dice));
  }

  lemma {:induction false} LiveDiceAppend(a: seq<Die>, b: seq<Die>)
    ensures LiveDice(a + b) == LiveDice(a) + LiveDice(b)
  {
    if |a| == 0 {
      assert a + b == b;
    } else {
      assert (a + b)[0] == a[0];
      assert (a + b)[1..] == a[1..] + b;
      LiveDiceAppend(a[1..], b);
    }
  }

  lemma {:induction false} LiveDiceLive(dice: seq<Die>)
    ensures AllLive(LiveDice(dice))
  {
    if |dice| != 0 {
      LiveDiceLive(dice[1..]);
    }
  }

  lemma {:induction false} LiveDiceAll(dice: seq<Die>)
    requires AllLive(dice)
    ensures LiveDice(dice) == dice
  {
    if |dice| != 0 {
      AllLiveSplit(dice);
      LiveDiceAll(dice[1..]);
      assert dice == [dice[0]] + dice[1..];
    }
  }

  lemma AllLiveSplit(dice: seq<Die>)
    requires |dice| != 0 && AllLive(dice)
    ensures Live(dice[0]) && AllLive(dice[1..])
  {
    assert dice[0] in dice;
    forall d | d in dice[1..] ensures Live(d) {
      assert d in dice;
    }
  }

  /** One die alone: its faces. */
  lemma DistSingle(d: Die)
    ensures Dist([d]) == multiset(Faces(d))
  {
    assert [d][1..] == [];
    if Live(d) {
      assert LiveDice([d]) == [d];
      assert Outcomes([d]) == Cross(Faces(d), [0]);
      CrossSingleRight(Faces(d), 0);
      assert ShiftSeq(Faces(d), 0) == Faces(d);
    } else {
      assert LiveDice([d]) == [];
    }
  }

  /**
    Splitting a list of dice anywhere and merging the two distributions, with
    the merge's treatment of an empty side, gives the distribution of the
    whole list: the merges of the divide and conquer compute `Dist`.
  */
  lemma DistAppend(a: seq<Die>, b: seq<Die>)
    ensures Dist(a + b) == Merge(Dist(a), Dist(b))
  {
    var la, lb := LiveDice(a), LiveDice(b);
    LiveDiceAppend(a, b);
    LiveDiceLive(a);
    LiveDiceLive(b);
    if |la| == 0 {
      assert la + lb == lb;
    } else if |lb| == 0 {
      assert la + lb == la;
      OutcomesNonEmpty(la);
    } else {
      OutcomesNonEmpty(la);
      OutcomesNonEmpty(lb);
      OutcomesAppend(la, lb);
      ConvOfSeqs(Outcomes(la), Outcomes(lb));
    }
  }

  /** Rearranging the dice rearranges the outcomes. */
  lemma {:induction false} OutcomesPermutation(s: seq<Die>, t: seq<Die>)
    requires multiset(s) == multiset(t)
    ensures multiset(Outcomes(s)) == multiset(Outcomes(t))
    decreases |s|
  {
    if |s| == 0 {
      assert |t| == 0;
    } else {
      var i := IndexOf(t, s[0]);
      RemoveAt(s, t, i);
      OutcomesPermutation(s[1..], t[..i] + t[i + 1..]);
      OutcomesMoveToFront(s, t, i);
    }
  }

  /** The step of `OutcomesPermutation`: the outcomes agree once the matched dice are set aside. */
  lemma OutcomesMoveToFront(s: seq<Die>, t: seq<Die>, i: nat)
    requires 0 < |s| && i < |t| && t[i] == s[0]
    requires multiset(Outcomes(s[1..])) == multiset(Outcomes(t[..i] + t[i + 1..]))
    ensures multiset(Outcomes(s)) == multiset(Outcomes(t))
  {
    var F, U, V := Faces(s[0]), Outcomes(t[..i]), Outcomes(t[i + 1..]);
    OutcomesAround(t, i);
    CrossPermutationRight(F, Outcomes(s[1..]), Cross(U, V));
    CrossSwap(F, U, V);
  }

  /** The outcomes of a list, and of the list without its die `i`, split around that die. */
  lemma OutcomesAround(t: seq<Die>, i: nat)
    requires i < |t|
    ensures Outcomes(t) == Cross(Outcomes(t[..i]), Cross(Faces(t[i]), Outcomes(t[i + 1..])))
    ensures Outcomes(t[..i] + t[i + 1..]) == Cross(Outcomes(t[..i]), Outcomes(t[i + 1..]))
  {
    assert t == t[..i] + t[i..];
    OutcomesAppend(t[..i], t[i..]);
    OutcomesFirst(t[i..]);
    assert t[i..][1..] == t[i + 1..];
    OutcomesAppend(t[..i], t[i + 1..]);
  }

  /** The outcomes of a non-empty list: the faces of its first die crossed with the rest's. */
  lemma OutcomesFirst(t: seq<Die>)
    requires |t| > 0
    ensures Outcomes(t) == Cross(Faces(t[0]), Outcomes(t[1..]))
  {
  }

  /** The distribution does not depend on the order of the dice. */
  lemma DistPermutation(s: seq<Die>, t: seq<Die>)
    requires multiset(s) == multiset(t)
    ensures Dist(s) == Dist(t)
  {
    LiveDicePermutation(s, t);
    OutcomesPermutation(LiveDice(s), LiveDice(t));
  }

  /** The dice with faces of a rearranged list are a rearrangement of its dice with faces. */
  lemma LiveDicePermutation(s: seq<Die>, t: seq<Die>)
    requires multiset(s) == multiset(t)
    ensures multiset(LiveDice(s)) == multiset(LiveDice(t))
  {
    forall d ensures multiset(LiveDice(s))[d] == multiset(LiveDice(t))[d] {
      LiveDiceCount(s, d);
      LiveDiceCount(t, d);
    }
  }

  lemma {:induction false} LiveDiceCount(s: seq<Die>, d: Die)
    ensures multiset(LiveDice(s))[d] == if Live(d) then multiset(s)[d] else 0
  {
    if |s| != 0 {
      LiveDiceCount(s[1..], d);
      assert s == [s[0]] + s[1..];
    }
  }

  /** For dice that all have faces, the distribution is every sum of one face per die. */
  lemma DistOutcomes(dice: seq<Die>)
    requires AllLive(dice) && |dice| != 0
    ensures Dist(dice) == multiset(Outcomes(dice))
  {
    LiveDiceAll(dice);
  }

  /**
    The number of outcomes is the product of the face counts of the dice
    that have faces, or zero when no die has a face.
  */
  lemma DistTotal(dice: seq<Die>)
    ensures |Dist(dice)| == if |LiveDice(dice)| == 0 then 0 else FaceProduct(LiveDice(dice))
  {
    OutcomesSize(LiveDice(dice));
  }

  // ---------------------------------------------------------------------------
  // Rolling the dice with given choices.

  /** `picks[i]` is the position of the face chosen on die `i`, within range whenever the die has faces. */
  predicate Chosen(dice: seq<Die>, picks: seq<nat>)
  {
    |picks| == |dice| &&
    forall i | 0 <= i < |dice| :: |Faces(dice[i])| > 0 ==> picks[i] < |Faces(dice[i])|
  }

  lemma ChosenTail(dice: seq<Die>, picks: seq<nat>)
    requires Chosen(dice, picks) && |dice| != 0
    ensures Chosen(dice[1..], picks[1..])
  {
    forall i | 0 <= i < |dice| - 1 && |Faces(dice[1..][i])| > 0
      ensures picks[1..][i] < |Faces(dice[1..][i])|
    {
      assert dice[1..][i] == dice[i + 1];
    }
  }

  /**
    A roll: the first die with a non-positive number of sides or without
    faces fails it; otherwise it is the sum of the chosen faces.
  */
  function RollOf(dice: seq<Die>, picks: seq<nat>): Result<int>
    requires Chosen(dice, picks)
  {
    if |dice| == 0 then Success(0)
    else if !Sound(dice[0]) then Failure(NonPositiveSides)
    else if |Faces(dice[0])| == 0 then Failure(EmptyChoice)
    else
      ChosenTail(dice, picks);
      match RollOf(dice[1..], picks[1..])
      case Failure(e) => Failure(e)
      case Success(v) => Success(Faces(dice[0])[picks[0]] + v)
  }

  /** A roll fails exactly when some die has no face to choose. */
  lemma {:induction false} RollFails(dice: seq<Die>, picks: seq<nat>)
    requires Chosen(dice, picks)
    ensures RollOf(dice, picks).Failure? <==> !AllLive(dice)
  {
    if |dice| != 0 {
      ChosenTail(dice, picks);
      RollFails(dice[1..], picks[1..]);
      assert dice[0] in dice;
      if !AllLive(dice[1..]) {
        var d :| d in dice[1..] && !Live(d);
        assert d in dice;
      }
      assert dice == [dice[0]] + dice[1..];
    }
  }

  /** A successful roll is one of the outcomes. */
  lemma {:induction false} RollInOutcomes(dice: seq<Die>, picks: seq<nat>)
    requires Chosen(dice, picks) && RollOf(dice, picks).Success?
    ensures RollOf(dice, picks).value in Outcomes(dice)
  {
    if |dice| != 0 {
      ChosenTail(dice, picks);
      RollInOutcomes(dice[1..], picks[1..]);
      var a, b := Faces(dice[0])[picks[0]], RollOf(dice[1..], picks[1..]).value;
      assert RollOf(dice, picks).value == a + b;
      assert a in Faces(dice[0]);
      CrossSupport(Faces(dice[0]), Outcomes(dice[1..]), a + b);
    }
  }

  /** Every outcome is the result of some roll. */
  lemma {:induction false} RollReaches(dice: seq<Die>, x: int) returns (picks: seq<nat>)
    requires AllLive(dice) && x in Outcomes(dice)
    ensures Chosen(dice, picks) && RollOf(dice, picks) == Success(x)
  {
    if |dice| == 0 {
      picks := [];
    } else {
      var F, rest := Faces(dice[0]), dice[1..];
      assert dice[0] in dice;
      CrossSupport(F, Outcomes(rest), x);
      var a, b :| a in F && b in Outcomes(rest) && x == a + b;
      var i :| 0 <= i < |F| && F[i] == a;
      assert AllLive(rest) by {
        forall d | d in rest ensures Live(d) {
          assert d in dice;
        }
      }
      var more := RollReaches(rest, b);
      picks := [i] + more;
      assert picks[1..] == more;
      assert Chosen(dice, picks) by {
        forall j | 0 <= j < |dice| && |Faces(dice[j])| > 0 ensures picks[j] < |Faces(dice[j])| {
          if j > 0 {
            assert dice[j] == rest[j - 1];
          }
        }
      }
    }
  }

  /** With at least one die, a successful roll is a key of the outcome-count dictionary. */
  lemma RollIsAKey(dice: seq<Die>, picks: seq<nat>)
    requires Chosen(dice, picks) && |dice| != 0 && RollOf(dice, picks).Success?
    ensures DiceDictOf(dice).Success?
    ensures RollOf(dice, picks).value in DiceDictOf(dice).value
  {
    RollFails(dice, picks);
    RollInOutcomes(dice, picks);
    DistOutcomes(dice);
    assert AllSound(dice) by {
      forall d | d in dice ensures Sound(d) {
        assert Live(d);
      }
    }
  }

  // ---------------------------------------------------------------------------
  // Exact probabilities.

  /** Each count over the common denominator `s`. */
  function FractionsOver(m: map<int, nat>, s: int): map<int, Fraction>
  {
    map x | x in m :: Fraction(m[x], s)
  }

  /** Each count over the total of the counts. */
  ghost function Probabilities(m: map<int, nat>): map<int, Fraction>
  {
    FractionsOver(m, Total(m))
  }

  /** The sum of the numerators of a dictionary of fractions. */
  ghost function NumeratorSum(p: map<int, Fraction>): int
    decreases |p|
  {
    if |p| == 0 then 0
    else
      var k := PickKey(p);
      p[k].num + NumeratorSum(p - {k})
  }

  lemma {:induction false} NumeratorSumOver(m: map<int, nat>, s: int)
    ensures NumeratorSum(FractionsOver(m, s)) == Total(m)
    decreases |m|
  {
    var p := FractionsOver(m, s);
    if |m| == 0 {
      assert Bag(m) == multiset{};
      assert p == map[];
    } else {
      assert p.Keys == m.Keys;
      var k := PickKey(p);
      assert p - {k} == FractionsOver(m - {k}, s);
      NumeratorSumOver(m - {k}, s);
      BagRemoveKey(m, k);
    }
  }

  /** Exact probabilities share a positive denominator and their numerators add up to it: they sum to one. */
  lemma ProbabilitiesSumToOne(m: map<int, nat>)
    requires Positive(m) && |m| != 0
    ensures Total(m) > 0
    ensures forall x | x in Probabilities(m) :: Probabilities(m)[x].den == Total(m)
    ensures NumeratorSum(Probabilities(m)) == Total(m)
  {
    var k := PickKey(m);
    BagAt(m, k);
    assert k in Bag(m);
    NumeratorSumOver(m, Total(m));
  }

  // ---------------------------------------------------------------------------
  // The outcome-count dictionary and the probabilities built on it.

  /** A die with `n` sides alone: each of `1..n` once, or the failure of the check when `n` is not positive. */
  lemma DiceDictUniform(n: int)
    ensures DiceDictOf([Uniform(n)]).Success? <==> n > 0
    ensures n > 0 ==> forall x :: x in DiceDictOf([Uniform(n)]).value <==> 1 <= x <= n
    ensures n > 0 ==> forall x | x in DiceDictOf([Uniform(n)]).value :: DiceDictOf([Uniform(n)]).value[x] == 1
    ensures n <= 0 ==> DiceDictOf([Uniform(n)]) == Failure(NonPositiveSides)
  {
    DistSingle(Uniform(n));
    assert Uniform(n) in [Uniform(n)];
    if n > 0 {
      forall x ensures multiset(Numbered(n))[x] == if 1 <= x <= n then 1 else 0 {
        NumberedCount(n, x);
      }
    }
  }

  /** A die with the given faces alone: each distinct face, counted as many times as it is written. */
  lemma DiceDictExplicit(f: seq<int>)
    ensures DiceDictOf([Explicit(f)]).Success?
    ensures forall x :: x in DiceDictOf([Explicit(f)]).value <==> x in f
    ensures forall x | x in f :: DiceDictOf([Explicit(f)]).value[x] == multiset(f)[x]
  {
    DistSingle(Explicit(f));
  }

  /** Every count in the dictionary is positive: an outcome that cannot happen is not a key. */
  lemma DiceDictPositive(dice: seq<Die>)
    requires DiceDictOf(dice).Success?
    ensures Positive(DiceDictOf(dice).value)
  {
    BagOfToMap(Dist(dice));
  }

  /** Each die's sides are checked: the dictionary exists exactly when every number of sides is positive. */
  lemma DiceDictFails(dice: seq<Die>)
    ensures DiceDictOf(dice).Failure? <==> exists d | d in dice :: d.Uniform? && d.n <= 0
  {
  }

  /** The dictionary does not depend on the order of the dice, so neither on the shuffle. */
  lemma DiceDictPermutation(s: seq<Die>, t: seq<Die>)
    requires multiset(s) == multiset(t)
    ensures DiceDictOf(s) == DiceDictOf(t)
  {
    DistPermutation(s, t);
    assert AllSound(s) <==> AllSound(t) by {
      assert forall d :: d in s <==> d in t by {
        forall d ensures d in s <==> d in t {
          assert d in s <==> d in multiset(s);
          assert d in t <==> d in multiset(t);
        }
      }
    }
  }

  /**
    The counts add up to the product of the face counts of the dice that have
    faces; when every die has a face, to the product over all the dice.
  */
  lemma DiceDictTotal(dice: seq<Die>)
    requires AllSound(dice)
    ensures Total(DiceDictOf(dice).value) == if |LiveDice(dice)| == 0 then 0 else FaceProduct(LiveDice(dice))
    ensures AllLive(dice) && |dice| != 0 ==> Total(DiceDictOf(dice).value) == FaceProduct(dice)
  {
    BagOfToMap(Dist(dice));
    DistTotal(dice);
    if AllLive(dice) {
      LiveDiceAll(dice);
    }
  }

  /** When every die has a face, the keys are exactly the values some roll of the dice gives. */
  lemma DiceDictKeys(dice: seq<Die>, x: int)
    requires AllLive(dice) && |dice| != 0
    ensures DiceDictOf(dice).Success?
    ensures x in DiceDictOf(dice).value <==> exists picks :: Chosen(dice, picks) && RollOf(dice, picks) == Success(x)
  {
    assert AllSound(dice) by {
      forall d | d in dice ensures Sound(d) {
        assert Live(d);
      }
    }
    DistOutcomes(dice);
    if x in DiceDictOf(dice).value {
      var picks := RollReaches(dice, x);
    }
    if exists picks :: Chosen(dice, picks) && RollOf(dice, picks) == Success(x) {
      var picks :| Chosen(dice, picks) && RollOf(dice, picks) == Success(x);
      RollIsAKey(dice, picks);
    }
  }

  /** The exact probabilities of a list of dice, or the failure of the dictionary. */
  ghost function DiceProbOf(dice: seq<Die>): Result<map<int, Fraction>>
  {
    match DiceDictOf(dice)
    case Failure(e) => Failure(e)
    case Success(m) => Success(Probabilities(m))
  }

  /**
    The probabilities have the keys of the dictionary, one positive
    denominator, and numerators adding up to it: they sum to one. Dice with
    no faces drop out of the merge, so it is enough that one die has a face.
  */
  lemma DiceProbSumsToOne(dice: seq<Die>)
    requires AllSound(dice) && |LiveDice(dice)| != 0
    ensures DiceDictOf(dice).Success? && DiceProbOf(dice).Success?
    ensures DiceProbOf(dice).value.Keys == DiceDictOf(dice).value.Keys
    ensures var s := Total(DiceDictOf(dice).value);
      s > 0 &&
      (forall x | x in DiceProbOf(dice).value :: DiceProbOf(dice).value[x] == Fraction(DiceDictOf(dice).value[x], s)) &&
      NumeratorSum(DiceProbOf(dice).value) == s
  {
    var m := DiceDictOf(dice).value;
    LiveDiceLive(dice);
    OutcomesNonEmpty(LiveDice(dice));
    BagOfToMap(Dist(dice));
    var x :| x in Dist(dice);
    assert x in m;
    ProbabilitiesSumToOne(m);
  }
}
