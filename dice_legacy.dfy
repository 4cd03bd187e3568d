/**
  The 2019 revision, `dice/dice.py`. Its `_mergeDiceDicts`, `diceDict` and
  `roll` run the same code as the 2021 revision (without the final sort,
  which only orders the keys), so each is proved by the 2021 member. Its
  `diceProb` divides in floating point; what it fixes exactly is the set of
  keys, and that is what is modelled here.
*/
module DiceLegacy {
  import opened Distributions
  import opened Randomness
  import opened Convolution
  import opened PairCounts
  import opened Dice

  /** `_mergeDiceDicts` of 2019: the empty dictionary is the identity, otherwise the convolution. */
  method MergeDiceDicts(d1: map<int, nat>, d2: map<int, nat>) returns (r: map<int, nat>)
    ensures |d1| == 0 ==> r == d2
    ensures |d1| != 0 && |d2| == 0 ==> r == d1
    ensures |d1| != 0 && |d2| != 0 ==> r.Keys == PairSums(d1.Keys, d2.Keys)
    ensures |d1| != 0 && |d2| != 0 ==> forall x :: Count(r, x) == PairCount(d1, d2, x)
    ensures |d1| != 0 && |d2| != 0 ==> Bag(r) == Conv(Bag(d1), Bag(d2))
    ensures Positive(d1) && Positive(d2) ==> Positive(r) && Bag(r) == Merge(Bag(d1), Bag(d2))
  {
    r := Dice.MergeDiceDicts(d1, d2);
  }

  /**
    `diceDict` of 2019: the dictionary of the dice, after shuffling the list
    in place and splitting it at `int(len/2)`; the caller's list keeps the
    same dice.
  */
  method DiceDict(dice: array<Die>, rng: Random) returns (r: Result<map<int, nat>>)
    modifies dice, rng
    ensures r == DiceDictOf(old(dice[..]))
    ensures multiset(dice[..]) == multiset(old(dice[..]))
    ensures dice[..] == if dice.Length <= 1 then old(dice[..]) else Shuffled(old(dice[..]), dice.Length, rng.stream, old(rng.position))
    ensures r.Success? ==> rng.position == old(rng.position) + DrawsOf(dice.Length)
  {
    r := Dice.DiceDict(dice, rng);
  }

  /** `roll` of 2019, with the chosen face positions given: the sum of the chosen faces, or the first failure. */
  method Roll(arg: DiceArg, picks: seq<nat>) returns (r: Result<int>)
    requires Chosen(DiceOf(arg), picks)
    ensures r == RollOf(DiceOf(arg), picks)
  {
    r := Dice.Roll(arg, picks);
  }

  /**
    `diceProb` of 2019: a number is recast as a one-die list and the keys of
    the probabilities are the keys of `diceDict`; a die with a non-positive
    number of sides fails it.
  */
  method DiceProbKeys(arg: DiceArg, rng: Random) returns (r: Result<set<int>>)
    modifies ListOf(arg), rng
    ensures r.Failure? <==> DiceDictOf(old(DiceOf(arg))).Failure?
    ensures r.Failure? ==> r == Failure(NonPositiveSides)
    ensures r.Success? ==> r.value == DiceDictOf(old(DiceOf(arg))).value.Keys
    ensures r.Success? ==> r.value == DiceProbOf(old(DiceOf(arg))).value.Keys
    ensures arg.DiceList? ==> multiset(arg.dice[..]) == multiset(old(arg.dice[..]))
    ensures arg.DiceList? ==> arg.dice[..] == if arg.dice.Length <= 1 then old(arg.dice[..]) else Shuffled(old(arg.dice[..]), arg.dice.Length, rng.stream, old(rng.position))
    ensures r.Success? ==> rng.position == old(rng.position) + DrawsOf(|old(DiceOf(arg))|)
  {
    var dice: array<Die>;
    match arg {
      case Sides(n) =>
        dice := new Die[1](_ => Uniform(n));
        assert dice[..] == [Uniform(n)];
      case DiceList(a) =>
        dice := a;
    }
    var d := DiceDict(dice, rng);
    if d.Failure? {
      return Failure(d.error);
    }
    r := Success(d.value.Keys);
  }

  /**
    When every die has a face, a value is a key of the probabilities exactly
    when some choice of one face per die sums to it.
  */
  lemma ProbKeysAreRolls(dice: seq<Die>, x: int)
    requires AllLive(dice) && |dice| != 0
    ensures DiceProbOf(dice).Success?
    ensures x in DiceProbOf(dice).value <==> exists picks :: Chosen(dice, picks) && RollOf(dice, picks) == Success(x)
  {
    assert AllSound(dice) by {
      forall d | d in dice ensures Sound(d) {
        assert Live(d);
      }
    }
    LiveDiceAll(dice);
    DiceProbSumsToOne(dice);
    DiceDictKeys(dice, x);
  }
}
